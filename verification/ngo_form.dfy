/**
 * The NGO registration page, dashboard/src/app/admin/register-ngo/page.tsx: its zod
 * schema, the four-step wizard with per-step validation, the working-day checkboxes and
 * the multipart body it posts to the organisation endpoint.
 */
module NgoForm {
  import opened Wrappers
  import opened Text
  import opened Lists
  import opened FormData
  import OrgModel
  import OrgController
  import Responses

  /** The checkbox options, the same seven names the schemas' enum allows. */
  const WorkingDaysOptions: seq<string> :=
    ["Monday", "Tuesday", "Wednesday", "Thursday", "Friday", "Saturday", "Sunday"]

  /** The form's values; the two leave counts are whole numbers here. */
  datatype Values = Values(
    name: string,
    description: string,
    logo: Option<FileRef>,
    workingDays: seq<string>,
    morningAttendanceDeadline: string,
    eveningAttendanceStartTime: string,
    privilegeLeave: int,
    otherLeave: int)

  /** `defaultValues`, also what `form.reset()` restores. */
  const Defaults: Values := Values("", "", None, [], "09:30", "17:00", 0, 0)

  predicate NameValid(v: Values) { |v.name| >= 2 }
  predicate DescriptionValid(v: Values) { |v.description| >= 10 }
  predicate DaysValid(v: Values) { |v.workingDays| >= 1 }
  predicate LeavesValid(v: Values) { v.privilegeLeave >= 0 && v.otherLeave >= 0 }

  /** The zod schema; the logo and the two times accept anything. */
  predicate Valid(v: Values) {
    NameValid(v) && DescriptionValid(v) && DaysValid(v) && LeavesValid(v)
  }

  /** The reset form matches the server's defaults for the two times and cannot be submitted as it is. */
  lemma DefaultsNotValid()
    ensures Defaults.morningAttendanceDeadline == OrgModel.DefaultDeadline
    ensures Defaults.eveningAttendanceStartTime == OrgModel.DefaultEveningStart
    ensures Defaults.workingDays == []
    ensures !Valid(Defaults)
  {
  }

  // ---------------------------------------------------------------- steps

  const LastStep: nat := 3

  /** `nextStep`: forward, but never past the last of the four steps. */
  function NextStep(s: nat): (r: nat)
    ensures s <= LastStep ==> r <= LastStep
    ensures r == s <==> s >= LastStep
    ensures r <= s + 1
  {
    if s < LastStep then s + 1 else s
  }

  /** `prevStep`: back, but never before the first step. */
  function PrevStep(s: nat): (r: nat)
    ensures r <= s && s <= r + 1
    ensures r == s <==> s == 0
  {
    if s > 0 then s - 1 else s
  }

  /** Inside the four steps, "Next" and "Previous" undo each other. */
  lemma StepsInverse(s: nat)
    requires s <= LastStep
    ensures s < LastStep ==> PrevStep(NextStep(s)) == s
    ensures 0 < s ==> NextStep(PrevStep(s)) == s
    ensures NextStep(LastStep) == LastStep && PrevStep(0) == 0
  {
  }

  /**
   * What each step checks before it lets the user on: step 1 checks the description, and
   * step 2 the days, since the two times accept any string.
   */
  predicate StepFieldsValid(step: nat, v: Values) {
    if step == 0 then NameValid(v)
    else if step == 1 then DescriptionValid(v)
    else if step == 2 then DaysValid(v)
    else true
  }

  /** `handleStepValidation`: move on when the current step's fields pass. */
  function StepValidation(step: nat, v: Values): (r: nat)
    ensures r == step || r == step + 1
    ensures r != step <==> step < LastStep && StepFieldsValid(step, v)
  {
    if StepFieldsValid(step, v) then NextStep(step) else step
  }

  /**
   * The wizard reaches its last step from the first by three "Next" clicks exactly when
   * name, description and working days pass; the leave counts are never checked on the way.
   */
  lemma ReachLastStepIff(v: Values)
    ensures StepValidation(StepValidation(StepValidation(0, v), v), v) == LastStep
            <==> NameValid(v) && DescriptionValid(v) && DaysValid(v)
  {
  }

  // ---------------------------------------------------------------- working days

  /** `onCheckedChange`: a ticked day is appended, an unticked one filtered out. */
  function CheckDay(days: seq<string>, day: string, checked: bool): (r: seq<string>)
    ensures day in r <==> checked
    ensures forall d | d != day :: d in r <==> d in days
  {
    if checked then days + [day] else Without(days, day)
  }

  /** A click on a checkbox: the box shows `includes(day)`, so the click reports the opposite. */
  function Click(days: seq<string>, day: string): (r: seq<string>)
    ensures day in r <==> day !in days
  {
    CheckDay(days, day, day !in days)
  }

  /** The selection a sequence of clicks on the options can produce: distinct options. */
  predicate Selection(days: seq<string>) {
    NoDuplicates(days) && forall i | 0 <= i < |days| :: days[i] in WorkingDaysOptions
  }

  /** Clicking an option keeps the selection distinct and within the options. */
  lemma ClickKeepsSelection(days: seq<string>, day: string)
    requires Selection(days) && day in WorkingDaysOptions
    ensures Selection(Click(days, day))
  {
    var r := Click(days, day);
    if day in days {
      WithoutKeepsNoDuplicates(days, day);
      assert forall i | 0 <= i < |r| :: r[i] in days;
    } else {
      forall i, j | 0 <= i < j < |r| ensures r[i] != r[j] {
        if j == |days| {
          assert r[i] == days[i];
        }
      }
    }
  }

  /** Ticking and unticking a day gives the selection back. */
  lemma {:induction false} ClickTwiceRestores(days: seq<string>, day: string)
    requires day !in days
    ensures Click(Click(days, day), day) == days
  {
    WithoutAppend(days, [day], day);
    WithoutAbsent(days, day);
  }

  /** Every selection the form holds is accepted by both schemas' enum. */
  lemma SelectionIsWeekdays(days: seq<string>)
    requires Selection(days)
    ensures OrgModel.AllWeekdays(days)
  {
  }

  // ---------------------------------------------------------------- submission

  /** `workingDays[${index}]`. */
  function IndexedKey(i: nat): (k: string)
    ensures |k| >= 14 && k[0] == 'w'
  {
    "workingDays[" + NatToString(i) + "]"
  }

  /** Reads a key of the form `workingDays[<digits>]` back to its index. */
  function ParseIndexedKey(key: string): (r: Option<nat>)
  {
    var p := "workingDays[";
    if |key| >= |p| + 2 && key[..|p|] == p && key[|key| - 1] == ']' && AllDigits(key[|p|..|key| - 1])
    then Some(DecimalValue(key[|p|..|key| - 1]))
    else None
  }

  lemma IndexedKeyReadsBack(i: nat)
    ensures ParseIndexedKey(IndexedKey(i)) == Some(i)
  {
    var d := NatToString(i);
    var k := IndexedKey(i);
    assert k[..12] == "workingDays[" && k[12..|k| - 1] == d;
    DecimalRoundTrip(i);
  }

  /** A key that does not begin with "w" is not an indexed day key. */
  lemma OtherKeyNotIndexed(key: string)
    requires key != [] && key[0] != 'w'
    ensures ParseIndexedKey(key) == None
  {
    if |key| >= 14 {
      assert key[..12][0] == key[0];
    }
  }

  /** The `forEach` over the selected days, from position `from` on. */
  function DayEntries(days: seq<string>, from: nat): (es: seq<Entry>)
    ensures |es| == |days|
    ensures forall i | 0 <= i < |es| :: |es[i].key| >= 14 && es[i].key[0] == 'w' && es[i].value.TextValue?
  {
    if days == [] then []
    else [Entry(IndexedKey(from), TextValue(days[0]))] + DayEntries(days[1..], from + 1)
  }

  /** The fields in front of the days: name, description and, when one was picked, the logo. */
  function HeadEntries(v: Values): seq<Entry> {
    [Entry("name", TextValue(v.name)), Entry("description", TextValue(v.description))]
      + (if v.logo.Some? then [Entry("logo", FileValue(v.logo.value))] else [])
  }

  /** The fields after the days: the two times and the two leave counts as text. */
  function TailEntries(v: Values): seq<Entry> {
    [Entry("morningAttendanceDeadline", TextValue(v.morningAttendanceDeadline)),
     Entry("eveningAttendanceStartTime", TextValue(v.eveningAttendanceStartTime)),
     Entry("privilegeLeave", TextValue(IntToString(v.privilegeLeave))),
     Entry("otherLeave", TextValue(IntToString(v.otherLeave)))]
  }

  /** `onSubmit`: the multipart body, in the order the handler appends it. */
  function SubmitEntries(v: Values): (es: seq<Entry>)
    ensures |es| == 6 + |v.workingDays| + (if v.logo.Some? then 1 else 0)
    ensures HasFile(es, "logo") <==> v.logo.Some?
  {
    var h := HeadEntries(v);
    var es := h + DayEntries(v.workingDays, 0) + TailEntries(v);
    assert v.logo.Some? ==> es[2] == Entry("logo", FileValue(v.logo.value));
    assert v.logo.None? ==> forall i | 0 <= i < |es| :: es[i].value.TextValue? by {
      if v.logo.None? {
        forall i | 0 <= i < |es| ensures es[i].value.TextValue? {
          if i < |h| {
            assert es[i] == h[i];
          } else if i < |h| + |v.workingDays| {
            assert es[i] == DayEntries(v.workingDays, 0)[i - |h|];
          } else {
            assert es[i] == TailEntries(v)[i - |h| - |v.workingDays|];
          }
        }
      }
    }
    es
  }

  /** `handleSubmit(onSubmit)`: the body is posted only when the schema accepts the values. */
  function Submit(v: Values): (body: Option<seq<Entry>>)
    ensures body.Some? <==> Valid(v)
    ensures body.Some? ==> (HasFile(body.value, "logo") <==> v.logo.Some?)
  {
    if Valid(v) then Some(SubmitEntries(v)) else None
  }

  /** The page's state: the wizard's step and the form's values. */
  datatype Wizard = Wizard(step: nat, values: Values)

  /**
   * What the page holds once a post settles: after a success the form is reset and the
   * wizard goes back to its first step; after a failure both stay as they were.
   */
  function AfterPost(w: Wizard, succeeded: bool): (r: Wizard)
    ensures succeeded ==> r == Wizard(0, Defaults)
    ensures !succeeded ==> r == w
  {
    if succeeded then Wizard(0, Defaults) else w
  }

  /** After a success nothing can be posted again, nor the first step left, until the form is refilled. */
  lemma SuccessStartsOver(w: Wizard)
    ensures var r := AfterPost(w, true);
      && Submit(r.values).None? && StepValidation(r.step, r.values) == r.step
  {
  }

  /** The indexed day entries of a body, with the index each key carries, in body order. */
  function IndexedDays(es: seq<Entry>): seq<(nat, string)> {
    if es == [] then []
    else
      var rest := IndexedDays(es[1..]);
      match (ParseIndexedKey(es[0].key), es[0].value)
      case (Some(i), TextValue(t)) => [(i, t)] + rest
      case _ => rest
  }

  lemma {:induction false} IndexedDaysAppend(a: seq<Entry>, b: seq<Entry>)
    ensures IndexedDays(a + b) == IndexedDays(a) + IndexedDays(b)
    decreases |a|
  {
    if a != [] {
      assert (a + b)[1..] == a[1..] + b;
      IndexedDaysAppend(a[1..], b);
    } else {
      assert a + b == b;
    }
  }

  /** An indexed day entry in front contributes its index and day. */
  lemma IndexedDaysCons(e: Entry, rest: seq<Entry>, i: nat, t: string)
    requires ParseIndexedKey(e.key) == Some(i) && e.value == TextValue(t)
    ensures IndexedDays([e] + rest) == [(i, t)] + IndexedDays(rest)
  {
    assert ([e] + rest)[1..] == rest;
  }

  /** `r` lists `days` with the indices `from`, `from + 1`, …. */
  predicate CarriesDays(r: seq<(nat, string)>, days: seq<string>, from: nat) {
    |r| == |days| && forall i | 0 <= i < |days| :: r[i] == (from + i, days[i])
  }

  lemma {:induction false} DayEntriesReadBack(days: seq<string>, from: nat)
    ensures CarriesDays(IndexedDays(DayEntries(days, from)), days, from)
    decreases |days|
  {
    if days != [] {
      DayEntriesReadBack(days[1..], from + 1);
      DayEntriesStep(days, from);
    }
  }

  lemma DayEntriesStep(days: seq<string>, from: nat)
    requires days != []
    requires CarriesDays(IndexedDays(DayEntries(days[1..], from + 1)), days[1..], from + 1)
    ensures CarriesDays(IndexedDays(DayEntries(days, from)), days, from)
  {
    var tail := DayEntries(days[1..], from + 1);
    IndexedKeyReadsBack(from);
    IndexedDaysCons(Entry(IndexedKey(from), TextValue(days[0])), tail, from, days[0]);
    CarriesDaysCons(IndexedDays(tail), days, from);
  }

  lemma CarriesDaysCons(rest: seq<(nat, string)>, days: seq<string>, from: nat)
    requires days != [] && CarriesDays(rest, days[1..], from + 1)
    ensures CarriesDays([(from, days[0])] + rest, days, from)
  {
    var r := [(from, days[0])] + rest;
    forall i | 1 <= i < |days| ensures r[i] == (from + i, days[i]) {
      assert r[i] == rest[i - 1];
      assert rest[i - 1] == (from + 1 + (i - 1), days[1..][i - 1]);
    }
  }

  /** Entries none of whose keys is an indexed day key carry no days. */
  lemma {:induction false} NoIndexedDays(es: seq<Entry>)
    requires forall i | 0 <= i < |es| :: ParseIndexedKey(es[i].key) == None
    ensures IndexedDays(es) == []
    decreases |es|
  {
    if es != [] {
      assert forall i | 0 <= i < |es[1..]| :: es[1..][i] == es[i + 1];
      NoIndexedDays(es[1..]);
    }
  }

  /** No key outside the day entries looks like an indexed day key. */
  lemma HeadTailNotIndexed(v: Values)
    ensures IndexedDays(HeadEntries(v)) == []
    ensures IndexedDays(TailEntries(v)) == []
  {
    OtherKeyNotIndexed("name");
    OtherKeyNotIndexed("description");
    OtherKeyNotIndexed("logo");
    OtherKeyNotIndexed("morningAttendanceDeadline");
    OtherKeyNotIndexed("eveningAttendanceStartTime");
    OtherKeyNotIndexed("privilegeLeave");
    OtherKeyNotIndexed("otherLeave");
    NoIndexedDays(HeadEntries(v));
    NoIndexedDays(TailEntries(v));
  }

  /**
   * The body carries the selected days back: its indexed entries, in order, are the
   * selection with the indices 0, 1, 2, ….
   */
  lemma DaysReadBack(v: Values)
    ensures CarriesDays(IndexedDays(SubmitEntries(v)), v.workingDays, 0)
  {
    var h := HeadEntries(v);
    var d := DayEntries(v.workingDays, 0);
    var t := TailEntries(v);
    IndexedDaysAppend(h + d, t);
    IndexedDaysAppend(h, d);
    HeadTailNotIndexed(v);
    DayEntriesReadBack(v.workingDays, 0);
  }

  /** The leave counts travel as text that reads back as the number entered. */
  lemma LeavesReadBack(v: Values)
    ensures Lookup(SubmitEntries(v), "privilegeLeave").Some?
    ensures ParseInt(Lookup(SubmitEntries(v), "privilegeLeave").value) == Some(v.privilegeLeave)
  {
    PrivilegeLeaveEntry(v);
    IntRoundTrip(v.privilegeLeave);
  }

  lemma PrivilegeLeaveEntry(v: Values)
    ensures Lookup(SubmitEntries(v), "privilegeLeave") == Some(IntToString(v.privilegeLeave))
  {
    var h := HeadEntries(v);
    var d := DayEntries(v.workingDays, 0);
    var t := TailEntries(v);
    assert SubmitEntries(v) == h + (d + t);
    assert forall i | 0 <= i < |h| :: h[i].key[0] != 'p';
    LookupSkip(h, d + t, "privilegeLeave");
    LookupSkip(d, t, "privilegeLeave");
    PrivilegeLeaveInTail(v);
  }

  lemma PrivilegeLeaveInTail(v: Values)
    ensures Lookup(TailEntries(v), "privilegeLeave") == Some(IntToString(v.privilegeLeave))
  {
    var t := TailEntries(v);
    assert t == t[..2] + t[2..];
    LookupSkip(t[..2], t[2..], "privilegeLeave");
    LookupFirst(t[2], t[3..]);
    assert t[2..] == [t[2]] + t[3..];
  }

  // ---------------------------------------------------------------- against the server

  /**
   * The request body the organisation handler sees: the single fields by key, and the
   * indexed day entries gathered into an array (the multipart parser places each at its index).
   */
  function ServerBody(es: seq<Entry>): OrgController.RegisterBody {
    var days := IndexedDays(es);
    OrgController.RegisterBody(
      Lookup(es, "name"),
      Lookup(es, "description"),
      if days == [] then None else Some(OrgController.DayList(seq(|days|, i requires 0 <= i < |days| => days[i].1))),
      Lookup(es, "morningAttendanceDeadline"),
      Lookup(es, "eveningAttendanceStartTime"),
      None)
  }

  /**
   * The logo is optional in the form but required by the handler: a valid form posted
   * without one is answered 400.
   */
  lemma NoLogoIsBadRequest(schema: OrgModel.Schema, orgs: seq<OrgModel.Organization>, v: Values)
    requires Valid(v)
    ensures OrgController.RegisterOrganization(schema, orgs, ServerBody(SubmitEntries(v)), None)
            == Err(Responses.Api(400))
  {
  }

  /**
   * A valid form with a logo and an unused name gets past every check of the handler and
   * then fails on creation, answered as an unhandled error.
   */
  lemma ValidFormFailsOnCreate(schema: OrgModel.Schema, orgs: seq<OrgModel.Organization>, v: Values,
                               logoPath: string)
    requires Valid(v) && v.logo.Some? && logoPath != ""
    requires !OrgController.NameTaken(orgs, v.name)
    ensures OrgController.RegisterOrganization(schema, orgs, ServerBody(SubmitEntries(v)), Some(logoPath))
            == Err(Responses.Unhandled)
  {
    var es := SubmitEntries(v);
    HeadReadsBack(v);
    DaysReadBack(v);
    var b := ServerBody(es);
    assert b.name == Some(v.name) && b.description == Some(v.description);
    assert b.workingDays.Some?;
    OrgController.RegistrationNeverSucceeds(schema, orgs, b, Some(logoPath));
  }

  /** The only file field multer accepts on the organisation route. */
  const OrgRouteField: string := "file"

  /**
   * `POST /api/v1/org` with a multipart body: `upload.single("file")`, then the handler.
   * `stored` stands for the path multer's disk storage gives an accepted file.
   */
  function PostOrganization(schema: OrgModel.Schema, orgs: seq<OrgModel.Organization>, es: seq<Entry>,
                            stored: string): (r: Result<seq<OrgModel.Organization>, Responses.Failure>)
    ensures StrayFile(es, OrgRouteField) ==> r == Err(Responses.Unhandled)
    ensures NoFiles(es) ==> r == OrgController.RegisterOrganization(schema, orgs, ServerBody(es), None)
    ensures r.Ok? ==> HasFile(es, OrgRouteField) || NoFiles(es)
  {
    match SingleFile(es, OrgRouteField)
    case Err(e) => Err(e)
    case Ok(f) =>
      assert f.Some? ==> HasFile(es, OrgRouteField);
      OrgController.RegisterOrganization(schema, orgs, ServerBody(es), if f.Some? then Some(stored) else None)
  }

  /** The page sends its logo under "logo", so a post that carries one never reaches the handler. */
  lemma LogoIsUnexpectedField(schema: OrgModel.Schema, orgs: seq<OrgModel.Organization>, v: Values, stored: string)
    requires v.logo.Some?
    ensures PostOrganization(schema, orgs, SubmitEntries(v), stored) == Err(Responses.Unhandled)
  {
    var es := SubmitEntries(v);
    assert es[2] == Entry("logo", FileValue(v.logo.value));
    assert StrayFile(es, OrgRouteField);
  }

  /** Without a logo the body holds no file, passes multer, and the handler answers 400. */
  lemma NoLogoPostIsBadRequest(schema: OrgModel.Schema, orgs: seq<OrgModel.Organization>, v: Values, stored: string)
    requires Valid(v) && v.logo.None?
    ensures PostOrganization(schema, orgs, SubmitEntries(v), stored) == Err(Responses.Api(400))
  {
    assert !HasFile(SubmitEntries(v), "logo");
    NoLogoNoFiles(v);
    NoLogoIsBadRequest(schema, orgs, v);
  }

  /** Without a logo every entry of the body is text. */
  lemma NoLogoNoFiles(v: Values)
    requires v.logo.None?
    ensures NoFiles(SubmitEntries(v))
  {
    var h := HeadEntries(v);
    var d := DayEntries(v.workingDays, 0);
    var t := TailEntries(v);
    var es := SubmitEntries(v);
    forall i | 0 <= i < |es| ensures es[i].value.TextValue? {
      if i < |h| {
        assert es[i] == h[i];
      } else if i < |h| + |d| {
        assert es[i] == d[i - |h|];
      } else {
        assert es[i] == t[i - |h| - |d|];
      }
    }
  }

  /** No form the page submits registers an organisation, with or without a logo. */
  lemma PageNeverRegisters(schema: OrgModel.Schema, orgs: seq<OrgModel.Organization>, v: Values, stored: string)
    requires Submit(v).Some?
    ensures PostOrganization(schema, orgs, Submit(v).value, stored).Err?
  {
    if v.logo.Some? {
      LogoIsUnexpectedField(schema, orgs, v, stored);
    } else {
      NoLogoPostIsBadRequest(schema, orgs, v, stored);
    }
  }

  /** The name and the description, the first two entries, read back as typed. */
  lemma HeadReadsBack(v: Values)
    ensures Lookup(SubmitEntries(v), "name") == Some(v.name)
    ensures Lookup(SubmitEntries(v), "description") == Some(v.description)
  {
    var es := SubmitEntries(v);
    assert es[0] == Entry("name", TextValue(v.name));
    assert es[1] == Entry("description", TextValue(v.description));
    LookupUnique(es, 0);
    LookupUnique(es, 1);
  }
}
