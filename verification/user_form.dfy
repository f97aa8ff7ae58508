/**
 * The user registration page, dashboard/src/app/admin/register-user/page.tsx: its zod
 * schema, the three-step wizard and the multipart body it posts to the user endpoint.
 * The e-mail check of the schema is a parameter, `isEmail`.
 */
module UserForm {
  import opened Wrappers
  import opened Text
  import opened FormData
  import UserModel
  import UserController
  import Responses

  /** The form's values; `avatar` is `null` until a file is picked. */
  datatype Values = Values(
    organization: string,
    fullName: string,
    mobileNo: string,
    designation: string,
    email: string,
    password: string,
    avatar: Option<FileRef>)

  /** `defaultValues`, also what `form.reset()` restores. */
  const Defaults: Values := Values("", "", "", "", "", "", None)

  predicate OrganizationValid(v: Values) { |v.organization| >= 1 }
  predicate FullNameValid(v: Values) { |v.fullName| >= 2 }
  predicate MobileNoValid(v: Values) { |v.mobileNo| >= 10 }
  predicate DesignationValid(v: Values) { |v.designation| >= 2 }
  predicate PasswordValid(v: Values) { |v.password| >= 6 }

  /** The zod schema: lengths only, so blank text of the right length passes. */
  predicate Valid(v: Values, isEmail: string -> bool) {
    && OrganizationValid(v) && FullNameValid(v) && MobileNoValid(v) && DesignationValid(v)
    && isEmail(v.email) && PasswordValid(v)
  }

  lemma DefaultsNotValid(isEmail: string -> bool)
    ensures !Valid(Defaults, isEmail)
    ensures Defaults.avatar.None?
  {
  }

  // ---------------------------------------------------------------- steps

  const FirstStep: nat := 1
  const LastStep: nat := 3

  /** `nextStep`: `Math.min(prev + 1, steps.length)`. */
  function NextStep(s: nat): (r: nat)
    ensures FirstStep <= s <= LastStep ==> FirstStep <= r <= LastStep
    ensures r == s <==> s == LastStep
  {
    Min(s + 1, LastStep)
  }

  /** `prevStep`: `Math.max(prev - 1, 1)`. */
  function PrevStep(s: nat): (r: nat)
    ensures FirstStep <= s <= LastStep ==> FirstStep <= r <= LastStep
    ensures r == s <==> s == FirstStep
  {
    if s - 1 >= FirstStep then s - 1 else FirstStep
  }

  /** Inside the three steps, "Next" and "Previous" undo each other. */
  lemma StepsInverse(s: nat)
    requires FirstStep <= s <= LastStep
    ensures s < LastStep ==> PrevStep(NextStep(s)) == s
    ensures s > FirstStep ==> NextStep(PrevStep(s)) == s
  {
  }

  /**
   * `handleStepValidation`: step 1 checks the organisation, step 2 the full name and the
   * designation; on any other step it does nothing.
   */
  function StepValidation(step: nat, v: Values): (r: nat)
    ensures r == step || r == step + 1
    ensures r != step <==> (step == 1 && OrganizationValid(v)) || (step == 2 && FullNameValid(v) && DesignationValid(v))
  {
    if step == 1 then (if OrganizationValid(v) then NextStep(step) else step)
    else if step == 2 then (if FullNameValid(v) && DesignationValid(v) then NextStep(step) else step)
    else step
  }

  /**
   * The account step is reached from the first by two "Next" clicks exactly when the
   * organisation, the full name and the designation pass; the fields of the last step, the
   * mobile number among them, are checked only by the final submit.
   */
  lemma ReachLastStepIff(v: Values)
    ensures StepValidation(StepValidation(FirstStep, v), v) == LastStep
            <==> OrganizationValid(v) && FullNameValid(v) && DesignationValid(v)
  {
  }

  // ---------------------------------------------------------------- submission

  /** The six text fields, in the order the schema declares them. */
  function FieldEntries(v: Values): seq<Entry> {
    [Entry("organization", TextValue(v.organization)),
     Entry("fullName", TextValue(v.fullName)),
     Entry("mobileNo", TextValue(v.mobileNo)),
     Entry("designation", TextValue(v.designation)),
     Entry("email", TextValue(v.email)),
     Entry("password", TextValue(v.password))]
  }

  /** The avatar, unless it is still `null`. */
  function AvatarEntries(v: Values): seq<Entry> {
    if v.avatar.Some? then [Entry("avatar", FileValue(v.avatar.value))] else []
  }

  /** The two device fields every submission carries. */
  const DeviceEntries: seq<Entry> :=
    [Entry("deviceModel", TextValue("modal")), Entry("deviceManufacture", TextValue("device"))]

  /**
   * `onSubmit`: `Object.entries(values)` in schema order with the `null` avatar skipped,
   * then the two fixed device fields.
   */
  function SubmitEntries(v: Values): (es: seq<Entry>)
    ensures |es| == 8 + (if v.avatar.Some? then 1 else 0)
    ensures HasFile(es, "avatar") <==> v.avatar.Some?
  {
    var es := FieldEntries(v) + AvatarEntries(v) + DeviceEntries;
    assert v.avatar.Some? ==> es[6] == Entry("avatar", FileValue(v.avatar.value));
    es
  }

  /**
   * The user route mounts `upload.single("avatar")`, the key the page uses: the chosen
   * avatar, and nothing else, is handed on to the handler as `req.file`.
   */
  lemma AvatarPassesUpload(v: Values)
    ensures SingleFile(SubmitEntries(v), "avatar") == Ok(v.avatar)
  {
    var f := FieldEntries(v);
    var es := SubmitEntries(v);
    assert NoFiles(f) && NoFiles(DeviceEntries);
    if v.avatar.Some? {
      assert es == f + [Entry("avatar", FileValue(v.avatar.value))] + DeviceEntries;
      SingleFileFindsIt(f, v.avatar.value, DeviceEntries, "avatar");
    } else {
      assert es == f + DeviceEntries;
      assert NoFiles(es) by {
        forall i | 0 <= i < |es| ensures es[i].value.TextValue? {
          if i < |f| {
            assert es[i] == f[i];
          } else {
            assert es[i] == DeviceEntries[i - |f|];
          }
        }
      }
    }
  }

  /** `handleSubmit(onSubmit)`: the body is posted only when the schema accepts the values. */
  function Submit(v: Values, isEmail: string -> bool): (body: Option<seq<Entry>>)
    ensures body.Some? <==> Valid(v, isEmail)
    ensures body.Some? ==> (HasFile(body.value, "avatar") <==> v.avatar.Some?)
  {
    if Valid(v, isEmail) then Some(SubmitEntries(v)) else None
  }

  /** The page's state: the wizard's step and the form's values. */
  datatype Wizard = Wizard(step: nat, values: Values)

  /**
   * What the page holds once a post settles: after a success the step goes back to the
   * first and the form is reset; after a failure both stay as they were.
   */
  function AfterPost(w: Wizard, succeeded: bool): (r: Wizard)
    ensures succeeded ==> r == Wizard(FirstStep, Defaults)
    ensures !succeeded ==> r == w
  {
    if succeeded then Wizard(FirstStep, Defaults) else w
  }

  /** After a success nothing can be posted again, nor the first step left, until the form is refilled. */
  lemma SuccessStartsOver(w: Wizard, isEmail: string -> bool)
    ensures var r := AfterPost(w, true);
      && Submit(r.values, isEmail).None? && StepValidation(r.step, r.values) == r.step
  {
  }

  // ---------------------------------------------------------------- against the server

  /** The request body the registration handler reads from the posted entries. */
  function ServerBody(es: seq<Entry>): UserController.RegisterBody {
    UserController.RegisterBody(
      Lookup(es, "fullName"), Lookup(es, "password"), Lookup(es, "email"), Lookup(es, "mobileNo"),
      Lookup(es, "deviceModel"), Lookup(es, "deviceManufacture"), Lookup(es, "designation"),
      Lookup(es, "organization"))
  }

  /** Every field the handler reads arrives as the form held it, and the device is always "modal" by "device". */
  lemma FieldsReadBack(v: Values)
    ensures ServerBody(SubmitEntries(v)) == UserController.RegisterBody(
      Some(v.fullName), Some(v.password), Some(v.email), Some(v.mobileNo),
      Some("modal"), Some("device"), Some(v.designation), Some(v.organization))
  {
    var f := FieldEntries(v);
    var rest := AvatarEntries(v) + DeviceEntries;
    assert SubmitEntries(v) == f + rest;
    FieldLookups(v, rest);
    DeviceLookups(v);
  }

  lemma FieldLookups(v: Values, rest: seq<Entry>)
    ensures var es := FieldEntries(v) + rest;
      && Lookup(es, "organization") == Some(v.organization)
      && Lookup(es, "fullName") == Some(v.fullName)
      && Lookup(es, "mobileNo") == Some(v.mobileNo)
      && Lookup(es, "designation") == Some(v.designation)
      && Lookup(es, "email") == Some(v.email)
      && Lookup(es, "password") == Some(v.password)
  {
    FieldLookup(v, rest, 0);
    FieldLookup(v, rest, 1);
    FieldLookup(v, rest, 2);
    FieldLookup(v, rest, 3);
    FieldLookup(v, rest, 4);
    FieldLookup(v, rest, 5);
  }

  /** The six field keys start with six different letters. */
  lemma FieldKeysDistinct(v: Values)
    ensures forall j, k | 0 <= j < k < 6 :: FieldEntries(v)[j].key[0] != FieldEntries(v)[k].key[0]
  {
  }

  /** Field `i` of the form is read back under its own key, whatever follows the fields. */
  lemma FieldLookup(v: Values, rest: seq<Entry>, i: nat)
    requires i < 6
    ensures Lookup(FieldEntries(v) + rest, FieldEntries(v)[i].key) == Some(FieldEntries(v)[i].value.text)
  {
    var f := FieldEntries(v);
    var es := f + rest;
    FieldKeysDistinct(v);
    assert forall j | 0 <= j < 6 :: es[j] == f[j];
    LookupUnique(es, i);
  }

  lemma DeviceLookups(v: Values)
    ensures Lookup(SubmitEntries(v), "deviceModel") == Some("modal")
    ensures Lookup(SubmitEntries(v), "deviceManufacture") == Some("device")
  {
    var front := FieldEntries(v) + AvatarEntries(v);
    assert SubmitEntries(v) == front + DeviceEntries;
    FrontKeysBeforeDevice(v);
    LookupSkip(front, DeviceEntries, "deviceModel");
    LookupSkip(front, DeviceEntries, "deviceManufacture");
    LookupUnique(DeviceEntries, 1);
  }

  /** No key in front of the device fields is a device key: their third letters differ from "v". */
  lemma FrontKeysBeforeDevice(v: Values)
    ensures var front := FieldEntries(v) + AvatarEntries(v);
      forall i | 0 <= i < |front| :: front[i].key != "deviceModel" && front[i].key != "deviceManufacture"
  {
    var front := FieldEntries(v) + AvatarEntries(v);
    assert forall i | 0 <= i < |front| :: |front[i].key| > 2 && front[i].key[2] != 'v';
  }

  /**
   * A full name of two spaces satisfies the form's schema but is answered 400 by the
   * handler, which trims before it checks.
   */
  lemma BlankNameAcceptedThenRejected(users: seq<UserModel.User>, v: Values, isEmail: string -> bool,
                                      avatarPath: Option<string>, hash: string -> string,
                                      castId: string -> Option<nat>)
    requires v.fullName == "  "
    ensures FullNameValid(v)
    ensures UserController.RegisterUser(users, ServerBody(SubmitEntries(v)), avatarPath, hash, castId)
            == Err(Responses.Api(400))
  {
    FieldsReadBack(v);
    UserController.BlankNameIsBadRequest(users, ServerBody(SubmitEntries(v)), avatarPath, hash, castId);
  }
}
