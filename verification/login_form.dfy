/**
 * The camera app's login screen, camera-app/src/app/login.tsx: the form's schema and
 * what `handleLogin` makes of the server's reply, namely the token it keeps, the route it
 * takes and the alert it shows.
 */
module LoginForm {
  import opened Wrappers
  import opened Text
  import opened Responses
  import UserModel
  import UserController
  import UserForm

  datatype Values = Values(mobileNo: string, password: string)

  /** `/^[0-9]{10}$/`; the `min(10)` and `max(10)` after it add nothing. */
  predicate MobileNoValid(m: string) {
    |m| == 10 && AllDigits(m)
  }

  predicate PasswordValid(p: string) {
    |p| >= 8
  }

  predicate Valid(v: Values) {
    MobileNoValid(v.mobileNo) && PasswordValid(v.password)
  }

  /** The body posted for valid values: both fields as typed. */
  function Submit(v: Values): (body: Option<UserController.LoginBody>)
    ensures body.Some? <==> Valid(v)
    ensures body.Some? ==> !Falsy(body.value.mobileNo) && !Falsy(body.value.password)
  {
    if Valid(v) then Some(UserController.LoginBody(Some(v.mobileNo), Some(v.password))) else None
  }

  /** A body the form posts is never answered 400 by the login handler. */
  lemma PostedBodyNotBadRequest(users: seq<UserModel.User>, v: Values, compare: (string, string) -> bool)
    requires Valid(v)
    ensures UserController.LoginUser(users, Submit(v).value, compare) != Err(Api(400))
  {
  }

  /**
   * What comes back from the post: a 2xx reply with the `accessToken` it carries and the
   * `isVerified` flag of its user object, or an `AxiosError` with the message of its
   * response body, if any. `None` is a missing token; an `isVerified` of `None` stands for
   * a reply without a user object, the case where `handleLogin` throws after saving the
   * token (a user object without the flag is read as not verified and is `Some(false)`).
   */
  datatype Reply =
    | Delivered(accessToken: Option<string>, isVerified: Option<bool>)
    | HttpFailure(message: Option<string>)

  /** The token kept, the route replaced to, and the alert shown. */
  datatype Outcome = Outcome(savedToken: Option<string>, route: Option<string>, alert: Option<string>)

  const VerifiedRoute: string := "/(root)/"
  const UnverifiedRoute: string := "/verify/verifydevice"
  const FailedMessage: string := "Failed to login. Please try again."
  const FallbackMessage: string := "An error occurred"

  /**
   * `handleLogin` after the post. A missing token throws before anything is saved; a
   * failing `saveToken` (`saveOk` false) throws too; a missing user throws after the token
   * is saved. Each of these is not an `AxiosError`, so it shows the generic message.
   */
  function HandleLogin(reply: Reply, saveOk: bool): (o: Outcome)
    ensures o.route.Some? <==> o.alert.None?
    ensures o.savedToken.Some? <==> reply.Delivered? && !Falsy(reply.accessToken) && saveOk
    ensures o.savedToken.Some? ==> o.savedToken == reply.accessToken
    ensures o.route.Some? <==> o.savedToken.Some? && reply.isVerified.Some?
    ensures o.route == Some(VerifiedRoute) <==> o.route.Some? && reply.isVerified == Some(true)
    ensures o.route.Some? ==> o.route.value in {VerifiedRoute, UnverifiedRoute}
    ensures reply.Delivered? && o.alert.Some? ==> o.alert == Some(FailedMessage)
    ensures reply.HttpFailure? ==>
      o.alert == Some(if Falsy(reply.message) then FallbackMessage else reply.message.value)
  {
    match reply
    case HttpFailure(message) =>
      Outcome(None, None, Some(if Falsy(message) then FallbackMessage else message.value))
    case Delivered(token, isVerified) =>
      if Falsy(token) || !saveOk then Outcome(None, None, Some(FailedMessage))
      else if isVerified.None? then Outcome(token, None, Some(FailedMessage))
      else Outcome(token, Some(if isVerified.value then VerifiedRoute else UnverifiedRoute), None)
  }

  /**
   * The reply the login handler produces: on success the issued token (a parameter, as is
   * the message of an error response) and the public user's verification flag.
   */
  function ServerReply(r: Result<UserController.PublicUser, Failure>, token: string,
                       errorMessage: Option<string>): (reply: Reply)
    ensures reply.Delivered? <==> r.Ok?
  {
    if r.Ok? then Delivered(Some(token), Some(r.value.isVerified)) else HttpFailure(errorMessage)
  }

  /**
   * Logging in end to end: when the handler accepts the credentials and the token is kept,
   * the app goes to the camera when the user is verified and to device verification
   * otherwise; when it refuses them, nothing is kept and an alert is shown.
   */
  lemma LoginRoutes(users: seq<UserModel.User>, v: Values, compare: (string, string) -> bool,
                    token: string, errorMessage: Option<string>)
    requires Valid(v) && token != ""
    ensures var r := UserController.LoginUser(users, Submit(v).value, compare);
      var o := HandleLogin(ServerReply(r, token, errorMessage), true);
      && (r.Ok? ==> o == Outcome(Some(token), Some(if r.value.isVerified then VerifiedRoute else UnverifiedRoute), None))
      && (r.Err? ==> o.savedToken.None? && o.route.None? && o.alert.Some?)
  {
  }

  /**
   * The dashboard registers passwords of six characters and mobile numbers of any ten or
   * more characters; the login screen refuses both a six-character password and an
   * eleven-digit number, so such a user cannot log in from the app.
   */
  lemma RegisteredButCannotLogIn(u: UserForm.Values)
    ensures |u.password| == 6 ==> UserForm.PasswordValid(u) && !Valid(Values(u.mobileNo, u.password))
    ensures |u.mobileNo| == 11 ==> UserForm.MobileNoValid(u) && !Valid(Values(u.mobileNo, u.password))
  {
  }
}
