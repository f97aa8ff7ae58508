/**
 * The user handlers of controllers/user.controllers.js: `registerUser`, `loginUser` and
 * `verifyDevice`, as pure transitions of the user collection that either produce the new
 * collection and a response body, or fail with the status the handler throws.
 */
module UserController {
  import opened Wrappers
  import opened Ids
  import opened Text
  import opened UserModel
  import opened Responses

  /** A user as the handlers return it: `select("-password -refreshToken")`. */
  datatype PublicUser = PublicUser(
    id: UserId,
    username: Option<string>,
    email: string,
    mobileNo: string,
    fullName: string,
    avatar: string,
    designation: string,
    deviceInfo: DeviceInfo,
    isVerified: bool,
    leaves: Leaves,
    role: Role,
    organization: OrgId)

  function View(u: User): (v: PublicUser)
    ensures v.id == u.id && v.email == u.email && v.mobileNo == u.mobileNo
    ensures v.isVerified == u.isVerified && v.deviceInfo == u.deviceInfo
  {
    PublicUser(u.id, u.username, u.email, u.mobileNo, u.fullName, u.avatar, u.designation,
               u.deviceInfo, u.isVerified, u.leaves, u.role, u.organization)
  }

  /** The public view leaks neither the password hash nor the refresh token. */
  lemma ViewHidesSecrets(u: User, password: string, token: Option<string>)
    ensures View(u.(password := password, refreshToken := token)) == View(u)
  {
  }

  /** Two users with the same view differ at most in their password and refresh token. */
  lemma ViewDeterminesRest(u: User, w: User)
    requires View(u) == View(w)
    ensures u.(password := w.password, refreshToken := w.refreshToken) == w
  {
  }

  // ---------------------------------------------------------------- registerUser

  /** The fields `registerUser` reads from the request body; `None` is `undefined`. */
  datatype RegisterBody = RegisterBody(
    fullName: Option<string>,
    password: Option<string>,
    email: Option<string>,
    mobileNo: Option<string>,
    deviceModel: Option<string>,
    deviceManufacture: Option<string>,
    designation: Option<string>,
    organization: Option<string>)

  /** `field?.trim() === ""`: a given string that trims to nothing; `undefined` is not blank. */
  predicate Blank(v: Option<string>) {
    v.Some? && Trim(v.value) == ""
  }

  /** The first guard: any of the eight fields blank. */
  predicate AnyBlank(b: RegisterBody) {
    || Blank(b.fullName) || Blank(b.password) || Blank(b.email) || Blank(b.mobileNo)
    || Blank(b.deviceModel) || Blank(b.deviceManufacture) || Blank(b.designation)
    || Blank(b.organization)
  }

  /**
   * Whether stored user `u` matches `{$or: [{email}, {mobileNo}]}`: the schema's setters
   * normalise the filter values, and an undefined value matches no stored user.
   */
  predicate Conflicts(u: User, email: Option<string>, mobileNo: Option<string>) {
    || (email.Some? && u.email == TrimLower(email.value))
    || (mobileNo.Some? && u.mobileNo == Trim(mobileNo.value))
  }

  predicate AnyConflict(users: seq<User>, email: Option<string>, mobileNo: Option<string>) {
    exists i | 0 <= i < |users| :: Conflicts(users[i], email, mobileNo)
  }

  /** `fullName.slice(0, 2) + mobileNo.slice(8, 10)`. */
  function DerivedUsername(fullName: string, mobileNo: string): (name: string)
    ensures |name| <= 4
    ensures |name| == Min(|fullName|, 2) + (if |mobileNo| <= 8 then 0 else Min(|mobileNo|, 10) - 8)
    ensures name[..Min(|fullName|, 2)] == fullName[..Min(|fullName|, 2)]
    ensures name[Min(|fullName|, 2)..] == if |mobileNo| <= 8 then [] else mobileNo[8..Min(|mobileNo|, 10)]
  {
    var a := Slice(fullName, 0, 2);
    var b := Slice(mobileNo, 8, 10);
    assert a + b == a + b && (a + b)[..|a|] == a && (a + b)[|a|..] == b;
    a + b
  }

  /**
   * The document `registerUser` hands to `User.create`. `castId` is the ObjectId cast of
   * the `organization` string; a value that does not cast is a validation failure.
   */
  function RegisterDraft(b: RegisterBody, avatar: string, castId: string -> Option<OrgId>): (d: Draft)
    requires b.fullName.Some? && b.mobileNo.Some?
    ensures d.username == Some(DerivedUsername(b.fullName.value, b.mobileNo.value))
    ensures d.email == b.email && d.mobileNo == b.mobileNo && d.fullName == b.fullName
    ensures d.password == b.password && d.designation == b.designation && d.avatar == Some(avatar)
    ensures d.deviceInfo == Some(DeviceInfo(b.deviceModel, b.deviceManufacture))
    ensures d.isVerified.None? && d.role.None?
    ensures d.organization.Some? <==> b.organization.Some? && castId(b.organization.value).Some?
  {
    Draft(Some(DerivedUsername(b.fullName.value, b.mobileNo.value)), b.email, b.mobileNo,
          b.fullName, Some(avatar), b.designation, b.password,
          Some(DeviceInfo(b.deviceModel, b.deviceManufacture)), None, Leaves(None, None), None,
          if b.organization.None? then None else castId(b.organization.value))
  }

  /** Whether the unique index on `username` already holds `name`. */
  predicate UsernameTaken(users: seq<User>, name: Option<string>) {
    exists i | 0 <= i < |users| :: users[i].username == name
  }

  datatype Registered = Registered(users: seq<User>, created: PublicUser)

  /**
   * `registerUser`. Guards in source order: a blank field (400), an existing user with the
   * email or mobile number (409), no avatar file (400); a missing `fullName` or `mobileNo`
   * then throws outside the try block; any failure of `create` (validation or a unique
   * index) becomes 500. On success the saved user, with its password hashed, is appended.
   */
  function RegisterUser(users: seq<User>, b: RegisterBody, avatar: Option<string>,
                        hash: string -> string, castId: string -> Option<OrgId>): (r: Result<Registered, Failure>)
    ensures AnyBlank(b) ==> r == Err(Api(400))
    ensures !AnyBlank(b) && AnyConflict(users, b.email, b.mobileNo) ==> r == Err(Api(409))
    ensures !AnyBlank(b) && !AnyConflict(users, b.email, b.mobileNo) && Falsy(avatar) ==> r == Err(Api(400))
    ensures (&& !AnyBlank(b) && !AnyConflict(users, b.email, b.mobileNo) && !Falsy(avatar)
             && (b.fullName.None? || b.mobileNo.None?)) ==> r == Err(Unhandled)
    ensures (&& !AnyBlank(b) && !AnyConflict(users, b.email, b.mobileNo) && !Falsy(avatar)
             && b.fullName.Some? && b.mobileNo.Some?
             && Validate(RegisterDraft(b, avatar.value, castId), NewUserId(users)).Err?) ==> r == Err(Api(500))
    ensures (&& !AnyBlank(b) && !AnyConflict(users, b.email, b.mobileNo) && !Falsy(avatar)
             && b.fullName.Some? && b.mobileNo.Some?
             && Validate(RegisterDraft(b, avatar.value, castId), NewUserId(users)).Ok?
             && UsernameTaken(users, Validate(RegisterDraft(b, avatar.value, castId), NewUserId(users)).value.username))
            ==> r == Err(Api(500))
    ensures r.Ok? ==>
      && !AnyBlank(b) && !AnyConflict(users, b.email, b.mobileNo) && !Falsy(avatar)
      && b.fullName.Some? && b.mobileNo.Some?
      && Validate(RegisterDraft(b, avatar.value, castId), NewUserId(users)).Ok?
    ensures r.Ok? ==>
      var u := Validate(RegisterDraft(b, avatar.value, castId), NewUserId(users)).value;
      && !UsernameTaken(users, u.username)
      && r.value.users == users + [PreSave(u, true, hash)]
      && r.value.created == View(u)
    ensures r.Err? && r.error.Api? ==> r.error.status in {400, 409, 500}
  {
    if AnyBlank(b) then Err(Api(400))
    else if FindFirst(users, (u: User) => Conflicts(u, b.email, b.mobileNo)).Some? then Err(Api(409))
    else if Falsy(avatar) then Err(Api(400))
    else if b.fullName.None? || b.mobileNo.None? then Err(Unhandled)
    else
      match Validate(RegisterDraft(b, avatar.value, castId), NewUserId(users))
      case Err(_) => Err(Api(500))
      case Ok(u) =>
        if FindFirst(users, (w: User) => w.username == u.username).Some? then Err(Api(500))
        else
          var saved := PreSave(u, true, hash);
          ViewHidesSecrets(u, saved.password, saved.refreshToken);
          Ok(Registered(users + [saved], View(saved)))
  }

  /** A success is exactly a body that clears every guard and a document `create` accepts. */
  lemma RegisterSucceedsWhen(users: seq<User>, b: RegisterBody, avatar: Option<string>,
                             hash: string -> string, castId: string -> Option<OrgId>)
    requires !AnyBlank(b) && !AnyConflict(users, b.email, b.mobileNo) && !Falsy(avatar)
    requires b.fullName.Some? && b.mobileNo.Some?
    requires Validate(RegisterDraft(b, avatar.value, castId), NewUserId(users)).Ok?
    requires !UsernameTaken(users, Validate(RegisterDraft(b, avatar.value, castId), NewUserId(users)).value.username)
    ensures RegisterUser(users, b, avatar, hash, castId).Ok?
  {
    var u := Validate(RegisterDraft(b, avatar.value, castId), NewUserId(users)).value;
    var f := FindFirst(users, (w: User) => w.username == u.username);
    if f.Some? {
      assert false;
    }
  }

  /**
   * Two people whose names start with the same two letters and whose mobile numbers share
   * digits 8 and 9 derive the same username.
   */
  lemma SharedUsername()
    ensures DerivedUsername("Anita Rao", "9876543210") == "An10"
    ensures DerivedUsername("Anil Kumar", "9123456710") == "An10"
  {
    var x := DerivedUsername("Anita Rao", "9876543210");
    assert x[..2] == "An" && x[2..] == "10";
    assert x == x[..2] + x[2..];
    var y := DerivedUsername("Anil Kumar", "9123456710");
    assert y[..2] == "An" && y[2..] == "10";
    assert y == y[..2] + y[2..];
  }

  /**
   * The username index is never checked before `create`: once one person has registered,
   * a second whose derived username is the same, and who clears every other guard, gets 500.
   */
  lemma UsernameCollisionIsServerError(users: seq<User>, b1: RegisterBody, avatar1: Option<string>,
                                       b2: RegisterBody, avatar2: Option<string>,
                                       hash: string -> string, castId: string -> Option<OrgId>)
    requires RegisterUser(users, b1, avatar1, hash, castId).Ok?
    requires var after := RegisterUser(users, b1, avatar1, hash, castId).value.users;
      && !AnyBlank(b2) && !AnyConflict(after, b2.email, b2.mobileNo) && !Falsy(avatar2)
      && b2.fullName.Some? && b2.mobileNo.Some?
      && Validate(RegisterDraft(b2, avatar2.value, castId), NewUserId(after)).Ok?
    requires DerivedUsername(b2.fullName.value, b2.mobileNo.value)
             == DerivedUsername(b1.fullName.value, b1.mobileNo.value)
    ensures RegisterUser(RegisterUser(users, b1, avatar1, hash, castId).value.users, b2, avatar2, hash, castId)
            == Err(Api(500))
  {
    var after := RegisterUser(users, b1, avatar1, hash, castId).value.users;
    var u1 := Validate(RegisterDraft(b1, avatar1.value, castId), NewUserId(users)).value;
    var u2 := Validate(RegisterDraft(b2, avatar2.value, castId), NewUserId(after)).value;
    assert after[|users|] == PreSave(u1, true, hash);
    assert after[|users|].username == u1.username == u2.username;
    assert UsernameTaken(after, u2.username);
  }

  /**
   * The blank check does not catch an undefined field: with `designation` left out, the
   * request gets past all three guards and fails only when `create` validates, as a 500.
   */
  lemma MissingDesignationIsServerError(users: seq<User>, b: RegisterBody, avatar: Option<string>,
                                        hash: string -> string, castId: string -> Option<OrgId>)
    requires !AnyBlank(b) && !AnyConflict(users, b.email, b.mobileNo) && !Falsy(avatar)
    requires b.fullName.Some? && b.mobileNo.Some? && b.designation.None?
    ensures RegisterUser(users, b, avatar, hash, castId) == Err(Api(500))
  {
    var d := RegisterDraft(b, avatar.value, castId);
    assert MissingTrimmed(d.designation);
  }

  /**
   * A full name of spaces is rejected by the first guard even when everything else about
   * the request is acceptable.
   */
  lemma BlankNameIsBadRequest(users: seq<User>, b: RegisterBody, avatar: Option<string>,
                              hash: string -> string, castId: string -> Option<OrgId>)
    requires b.fullName == Some("  ")
    ensures RegisterUser(users, b, avatar, hash, castId) == Err(Api(400))
  {
    assert AllSpace("  ");
  }

  /** Appending a stored user that clashes with nobody on an indexed path keeps the invariant. */
  lemma AppendKeepsWellFormed(users: seq<User>, u: User)
    requires WellFormed(users) && IsStored(u)
    requires forall i | 0 <= i < |users| ::
      && users[i].id != u.id && users[i].email != u.email
      && users[i].mobileNo != u.mobileNo && users[i].username != u.username
    ensures WellFormed(users + [u])
  {
    AppendKeepsStored(users, u);
    AppendKeepsDistinct(users, u);
  }

  lemma AppendKeepsStored(users: seq<User>, u: User)
    requires AllStored(users) && IsStored(u)
    ensures AllStored(users + [u])
  {
    var next := users + [u];
    forall i | 0 <= i < |next| ensures IsStored(next[i]) {
      if i < |users| { assert next[i] == users[i]; }
    }
  }

  lemma AppendKeepsDistinct(users: seq<User>, u: User)
    requires DistinctKeys(users)
    requires forall i | 0 <= i < |users| ::
      && users[i].id != u.id && users[i].email != u.email
      && users[i].mobileNo != u.mobileNo && users[i].username != u.username
    ensures DistinctKeys(users + [u])
  {
    var next := users + [u];
    forall i, j | 0 <= i < j < |next|
      ensures && next[i].id != next[j].id && next[i].email != next[j].email
              && next[i].mobileNo != next[j].mobileNo && next[i].username != next[j].username
    {
      assert next[i] == users[i];
      if j < |users| { assert next[j] == users[j]; }
    }
  }

  /** Replacing a user by one with the same indexed paths and stored form keeps the invariant. */
  lemma ReplaceKeepsWellFormed(users: seq<User>, k: nat, u: User)
    requires WellFormed(users) && k < |users| && IsStored(u)
    requires && u.id == users[k].id && u.email == users[k].email
             && u.mobileNo == users[k].mobileNo && u.username == users[k].username
    ensures WellFormed(users[k := u])
  {
    ReplaceKeepsStored(users, k, u);
    ReplaceKeepsDistinct(users, k, u);
  }

  lemma ReplaceKeepsStored(users: seq<User>, k: nat, u: User)
    requires AllStored(users) && k < |users| && IsStored(u)
    ensures AllStored(users[k := u])
  {
    var next := users[k := u];
    forall i | 0 <= i < |next| ensures IsStored(next[i]) {
      if i != k { assert next[i] == users[i]; }
    }
  }

  lemma ReplaceKeepsDistinct(users: seq<User>, k: nat, u: User)
    requires DistinctKeys(users) && k < |users|
    requires && u.id == users[k].id && u.email == users[k].email
             && u.mobileNo == users[k].mobileNo && u.username == users[k].username
    ensures DistinctKeys(users[k := u])
  {
    var next := users[k := u];
    forall i, j | 0 <= i < j < |next|
      ensures && next[i].id != next[j].id && next[i].email != next[j].email
              && next[i].mobileNo != next[j].mobileNo && next[i].username != next[j].username
    {
      assert users[i].id != users[j].id;
    }
  }

  /** Registration keeps the collection invariant of the user model. */
  lemma RegisterPreservesWellFormed(users: seq<User>, b: RegisterBody, avatar: Option<string>,
                                    hash: string -> string, castId: string -> Option<OrgId>)
    requires WellFormed(users)
    requires RegisterUser(users, b, avatar, hash, castId).Ok?
    ensures WellFormed(RegisterUser(users, b, avatar, hash, castId).value.users)
  {
    var d := RegisterDraft(b, avatar.value, castId);
    var u := Validate(d, NewUserId(users)).value;
    var saved := PreSave(u, true, hash);
    ValidatedIsStored(d, NewUserId(users));
    forall i | 0 <= i < |users|
      ensures && users[i].id != saved.id && users[i].email != saved.email
              && users[i].mobileNo != saved.mobileNo && users[i].username != saved.username
    {
      assert !Conflicts(users[i], b.email, b.mobileNo);
    }
    AppendKeepsWellFormed(users, saved);
  }

  // ---------------------------------------------------------------- loginUser

  datatype LoginBody = LoginBody(mobileNo: Option<string>, password: Option<string>)

  /**
   * `loginUser`, up to issuing the tokens: 400 when either field is falsy, 404 when no
   * user has the (trimmed) mobile number, 401 when `matchPassword` rejects the password;
   * otherwise the first matching user's public view.
   */
  function LoginUser(users: seq<User>, b: LoginBody, compare: (string, string) -> bool): (r: Result<PublicUser, Failure>)
    ensures r == Err(Api(400)) <==> Falsy(b.mobileNo) || Falsy(b.password)
    ensures r == Err(Api(404)) <==>
      !Falsy(b.mobileNo) && !Falsy(b.password)
      && forall i | 0 <= i < |users| :: users[i].mobileNo != Trim(b.mobileNo.value)
    ensures r == Err(Api(401)) <==>
      !Falsy(b.mobileNo) && !Falsy(b.password)
      && exists i | 0 <= i < |users| ::
           && users[i].mobileNo == Trim(b.mobileNo.value)
           && (forall j | 0 <= j < i :: users[j].mobileNo != Trim(b.mobileNo.value))
           && !MatchPassword(users[i], b.password.value, compare)
    ensures r.Ok? ==> exists i | 0 <= i < |users| ::
      && users[i].mobileNo == Trim(b.mobileNo.value)
      && (forall j | 0 <= j < i :: users[j].mobileNo != Trim(b.mobileNo.value))
      && MatchPassword(users[i], b.password.value, compare)
      && r.value == View(users[i])
    ensures r.Err? ==> r.error in {Api(400), Api(404), Api(401)}
  {
    if Falsy(b.mobileNo) || Falsy(b.password) then Err(Api(400))
    else
      var key := Trim(b.mobileNo.value);
      match FindFirst(users, (u: User) => u.mobileNo == key)
      case None => Err(Api(404))
      case Some(i) =>
        if !MatchPassword(users[i], b.password.value, compare) then Err(Api(401))
        else Ok(View(users[i]))
  }

  /** In a well-formed collection the user who logs in is the only one with that number. */
  lemma LoginFindsTheOwner(users: seq<User>, b: LoginBody, compare: (string, string) -> bool, k: nat)
    requires WellFormed(users)
    requires k < |users| && !Falsy(b.mobileNo) && !Falsy(b.password)
    requires users[k].mobileNo == Trim(b.mobileNo.value)
    ensures LoginUser(users, b, compare) ==
      if MatchPassword(users[k], b.password.value, compare) then Ok(View(users[k])) else Err(Api(401))
  {
    var key := Trim(b.mobileNo.value);
    var f := FindFirst(users, (u: User) => u.mobileNo == key);
    assert f.Some?;
  }

  /** A user appended after every holder of other mobile numbers is the one who logs in. */
  lemma LoginFindsAppended(users: seq<User>, u: User, b: LoginBody, compare: (string, string) -> bool)
    requires !Falsy(b.mobileNo) && !Falsy(b.password)
    requires u.mobileNo == Trim(b.mobileNo.value) && MatchPassword(u, b.password.value, compare)
    requires forall i | 0 <= i < |users| :: users[i].mobileNo != u.mobileNo
    ensures LoginUser(users + [u], b, compare) == Ok(View(u))
  {
    var next := users + [u];
    var f := FindFirst(next, (w: User) => w.mobileNo == u.mobileNo);
    assert next[|users|] == u;
    assert forall i | 0 <= i < |users| :: next[i] == users[i];
    assert f == Some(|users|);
  }

  /**
   * A user who has just registered can log in with the same mobile number and password,
   * for any hash whose compare accepts a password against its own hash.
   */
  lemma RegisterThenLogin(users: seq<User>, b: RegisterBody, avatar: Option<string>,
                          hash: string -> string, castId: string -> Option<OrgId>,
                          compare: (string, string) -> bool)
    requires forall p :: compare(p, hash(p))
    requires RegisterUser(users, b, avatar, hash, castId).Ok?
    ensures LoginUser(RegisterUser(users, b, avatar, hash, castId).value.users,
                      LoginBody(b.mobileNo, b.password), compare)
            == Ok(RegisterUser(users, b, avatar, hash, castId).value.created)
  {
    var d := RegisterDraft(b, avatar.value, castId);
    var u := Validate(d, NewUserId(users)).value;
    var saved := PreSave(u, true, hash);
    assert !Blank(b.mobileNo) && !Blank(b.password);
    forall i | 0 <= i < |users|
      ensures users[i].mobileNo != saved.mobileNo
    {
      assert !Conflicts(users[i], b.email, b.mobileNo);
    }
    assert compare(b.password.value, hash(b.password.value));
    LoginFindsAppended(users, saved, LoginBody(b.mobileNo, b.password), compare);
    ViewHidesSecrets(u, saved.password, saved.refreshToken);
  }

  // ---------------------------------------------------------------- verifyDevice

  datatype DeviceBody = DeviceBody(deviceModel: Option<string>, deviceManufacture: Option<string>)

  datatype Verified = Verified(users: seq<User>, user: PublicUser)

  /**
   * `verifyDevice` for the authenticated caller: 400 when either field is falsy, 400 when
   * no user has the caller's id; otherwise `isVerified` is set and the device pair replaces
   * `deviceInfo` on that user, and nothing else in the collection changes.
   */
  function VerifyDevice(users: seq<User>, caller: Option<UserId>, b: DeviceBody): (r: Result<Verified, Failure>)
    ensures Falsy(b.deviceModel) || Falsy(b.deviceManufacture) ==> r == Err(Api(400))
    ensures r.Err? ==> r == Err(Api(400))
    ensures r.Err? && !Falsy(b.deviceModel) && !Falsy(b.deviceManufacture) ==>
      caller.None? || forall i | 0 <= i < |users| :: users[i].id != caller.value
    ensures r.Ok? ==>
      && !Falsy(b.deviceModel) && !Falsy(b.deviceManufacture) && caller.Some?
      && |r.value.users| == |users|
      && exists k | 0 <= k < |users| ::
           && users[k].id == caller.value
           && r.value.users[k] == users[k].(isVerified := true,
                                             deviceInfo := DeviceInfo(b.deviceModel, b.deviceManufacture))
           && r.value.user == View(r.value.users[k])
           && forall j | 0 <= j < |users| && j != k :: r.value.users[j] == users[j]
  {
    if Falsy(b.deviceModel) || Falsy(b.deviceManufacture) || caller.None? then Err(Api(400))
    else
      match FindFirst(users, (u: User) => u.id == caller.value)
      case None => Err(Api(400))
      case Some(k) =>
        var updated := users[k].(isVerified := true, deviceInfo := DeviceInfo(b.deviceModel, b.deviceManufacture));
        Ok(Verified(users[k := updated], View(updated)))
  }

  /** Verifying a device keeps the collection invariant: it touches no indexed path. */
  lemma VerifyDevicePreservesWellFormed(users: seq<User>, caller: Option<UserId>, b: DeviceBody)
    requires WellFormed(users)
    requires VerifyDevice(users, caller, b).Ok?
    ensures WellFormed(VerifyDevice(users, caller, b).value.users)
  {
    var k := FindFirst(users, (u: User) => u.id == caller.value).value;
    var updated := users[k].(isVerified := true, deviceInfo := DeviceInfo(b.deviceModel, b.deviceManufacture));
    assert VerifyDevice(users, caller, b).value.users == users[k := updated];
    ReplaceKeepsWellFormed(users, k, updated);
  }

  /** Verifying a device does not change who can log in or how. */
  lemma VerifyDeviceKeepsLogin(users: seq<User>, caller: Option<UserId>, b: DeviceBody,
                               login: LoginBody, compare: (string, string) -> bool)
    requires VerifyDevice(users, caller, b).Ok?
    ensures LoginUser(VerifyDevice(users, caller, b).value.users, login, compare).Ok?
            == LoginUser(users, login, compare).Ok?
  {
    var next := VerifyDevice(users, caller, b).value.users;
    SameCredentialsSameLogin(users, next, login, compare);
  }

  /** Login reads only the mobile numbers and the passwords, position by position. */
  lemma SameCredentialsSameLogin(users: seq<User>, next: seq<User>, login: LoginBody,
                                 compare: (string, string) -> bool)
    requires |next| == |users|
    requires forall i | 0 <= i < |users| ::
      next[i].mobileNo == users[i].mobileNo && next[i].password == users[i].password
    ensures LoginUser(next, login, compare).Ok? == LoginUser(users, login, compare).Ok?
  {
    if !Falsy(login.mobileNo) && !Falsy(login.password) {
      var key := Trim(login.mobileNo.value);
      var matches := (u: User) => u.mobileNo == key;
      assert forall i | 0 <= i < |users| :: matches(next[i]) == matches(users[i]);
      FindFirstAgrees(users, next, matches);
      assert FindFirst(users, matches) == FindFirst(users, (u: User) => u.mobileNo == key);
    }
  }
}
