/**
 * The organisation handlers of controllers/organizations.controllers.js over the
 * organisation collection: registration with its input normalisation and defaults, lookup,
 * patching, deletion and set-add membership.
 */
module OrgController {
  import opened Wrappers
  import opened Ids
  import opened Text
  import opened Lists
  import opened OrgModel
  import opened Responses

  // ---------------------------------------------------------------- registerOrganization

  /** `workingDays` as the body carries it: a JSON array, or a comma-separated form field. */
  datatype DaysInput = DayList(days: seq<string>) | DayText(text: string)

  /** The fields `registerOrganization` reads; `None` is `undefined`. */
  datatype RegisterBody = RegisterBody(
    name: Option<string>,
    description: Option<string>,
    workingDays: Option<DaysInput>,
    morningAttendanceDeadline: Option<string>,
    eveningAttendanceStartTime: Option<string>,
    holidays: Option<seq<Millis>>)

  /** `!workingDays`: an array is always truthy, a string only when it is non-empty. */
  predicate DaysFalsy(w: Option<DaysInput>) {
    w.None? || w.value == DayText("")
  }

  /** The guard of the handler: name, description, the logo file and working days all truthy. */
  predicate MissingRequired(b: RegisterBody, logo: Option<string>) {
    Falsy(b.name) || Falsy(b.description) || Falsy(logo) || DaysFalsy(b.workingDays)
  }

  /** `.map(day => day.trim())` over the pieces of a split. */
  function TrimAll(pieces: seq<string>): (r: seq<string>)
    ensures |r| == |pieces|
    ensures forall i | 0 <= i < |r| :: r[i] == Trim(pieces[i])
  {
    if pieces == [] then [] else [Trim(pieces[0])] + TrimAll(pieces[1..])
  }

  /**
   * An array is kept as it is; a string is split on "," and every piece trimmed, so each
   * resulting day is trimmed and holds no comma.
   */
  function ProcessDays(w: DaysInput): (days: seq<string>)
    ensures w.DayList? ==> days == w.days
    ensures w.DayText? ==> |days| == |Split(w.text, ',')|
    ensures w.DayText? ==> forall i | 0 <= i < |days| :: days[i] == Trim(Split(w.text, ',')[i])
    ensures w.DayText? ==> |days| >= 1 && forall i | 0 <= i < |days| :: IsTrimmed(days[i]) && ',' !in days[i]
  {
    match w
    case DayList(days) => days
    case DayText(text) =>
      var pieces := Split(text, ',');
      var days := TrimAll(pieces);
      assert forall i | 0 <= i < |days| :: IsTrimmed(days[i]) && ',' !in days[i] by {
        forall i | 0 <= i < |days| ensures IsTrimmed(days[i]) && ',' !in days[i] {
          TrimIdempotent(pieces[i]);
          assert days[i] == Trim(pieces[i]) && ',' !in pieces[i];
          assert |days[i]| <= |pieces[i]|;
          TrimIsInfix(pieces[i]);
        }
      }
      days
  }

  /** The result of `Trim` is a slice of its input, so it holds no character the input lacks. */
  lemma TrimIsInfix(s: string)
    ensures forall c | c in Trim(s) :: c in s
  {
    var t := TrimStart(s);
    assert forall c | c in t :: c in s by {
      assert t == s[|s| - |t|..];
    }
    assert forall c | c in TrimEnd(t) :: c in t by {
      assert TrimEnd(t) == t[..|TrimEnd(t)|];
    }
  }

  /**
   * A form field built by joining trimmed, comma-free day names with "," is read back as
   * exactly those names.
   */
  lemma ProcessJoinedDays(days: seq<string>)
    requires |days| >= 1
    requires forall i | 0 <= i < |days| :: IsTrimmed(days[i]) && ',' !in days[i]
    ensures ProcessDays(DayText(Join(days, ','))) == days
  {
    JoinSplit(days, ',');
    TrimAllOfTrimmed(days);
  }

  lemma {:induction false} TrimAllOfTrimmed(days: seq<string>)
    requires forall i | 0 <= i < |days| :: IsTrimmed(days[i])
    ensures TrimAll(days) == days
  {
    if days != [] {
      TrimOfTrimmed(days[0]);
      TrimAllOfTrimmed(days[1..]);
    }
  }

  /** `value || fallback` for an optional string. */
  function OrDefault(v: Option<string>, fallback: string): (r: string)
    ensures Falsy(v) ==> r == fallback
    ensures !Falsy(v) ==> r == v.value
  {
    if Falsy(v) then fallback else v.value
  }

  /**
   * The document `registerOrganization` hands to `create`: the deadline and evening start
   * fall back to "09:30" and "17:00" when falsy, holidays to the empty list; no location, no
   * leave allowances and no users are passed.
   */
  function RegistrationDraft(b: RegisterBody, logo: Option<string>): (d: Draft)
    requires b.workingDays.Some?
    ensures d.name == b.name && d.description == b.description && d.logo == logo
    ensures d.workingDays == Some(ProcessDays(b.workingDays.value))
    ensures d.morningAttendanceDeadline == Some(OrDefault(b.morningAttendanceDeadline, DefaultDeadline))
    ensures d.eveningAttendanceStartTime == Some(OrDefault(b.eveningAttendanceStartTime, DefaultEveningStart))
    ensures d.holidays == Some(b.holidays.GetOr([]))
    ensures d.latitude.None? && d.longitude.None? && d.privilegeLeave.None? && d.otherLeave.None?
    ensures d.users.None?
  {
    Draft(b.name, b.description, logo, None, None, None, None,
          Some(OrDefault(b.morningAttendanceDeadline, DefaultDeadline)),
          Some(OrDefault(b.eveningAttendanceStartTime, DefaultEveningStart)),
          Some(ProcessDays(b.workingDays.value)), None, None, Some(b.holidays.GetOr([])))
  }

  /** `findOne({name})`: the name setter normalises the filter value. */
  predicate NameTaken(orgs: seq<Organization>, name: string) {
    exists i | 0 <= i < |orgs| :: orgs[i].name == TrimLower(name)
  }

  /** The first position whose stored name equals `name` after the setter. */
  function FindByName(orgs: seq<Organization>, name: string): (r: Option<nat>)
    ensures r.Some? ==> r.value < |orgs| && orgs[r.value].name == TrimLower(name)
    ensures r.None? <==> !NameTaken(orgs, name)
  {
    FindStoredName(orgs, TrimLower(name))
  }

  /** The first position whose name is `key` exactly. */
  function FindStoredName(orgs: seq<Organization>, key: string): (r: Option<nat>)
    ensures r.Some? ==> r.value < |orgs| && orgs[r.value].name == key
    ensures r.None? <==> forall i | 0 <= i < |orgs| :: orgs[i].name != key
  {
    if orgs == [] then None
    else if orgs[0].name == key then Some(0)
    else match FindStoredName(orgs[1..], key)
      case None =>
        assert forall i | 1 <= i < |orgs| :: orgs[i] == orgs[1..][i - 1];
        None
      case Some(k) => Some(k + 1)
  }

  /**
   * `registerOrganization` under the schema that is loaded: 400 when a required value is
   * falsy, 409 when the name is taken; then `create`, whose failures the handler does not
   * catch. On success the new organisation is appended.
   */
  function RegisterOrganization(schema: Schema, orgs: seq<Organization>, b: RegisterBody,
                                logo: Option<string>): (r: Result<seq<Organization>, Failure>)
    ensures MissingRequired(b, logo) ==> r == Err(Api(400))
    ensures !MissingRequired(b, logo) && NameTaken(orgs, b.name.value) ==> r == Err(Api(409))
    ensures (!MissingRequired(b, logo) && !NameTaken(orgs, b.name.value)
             && Validate(schema, RegistrationDraft(b, logo), NewOrgId(orgs)).Err?) ==> r == Err(Unhandled)
    ensures r.Ok? ==>
      && !MissingRequired(b, logo) && !NameTaken(orgs, b.name.value)
      && Validate(schema, RegistrationDraft(b, logo), NewOrgId(orgs)).Ok?
      && r.value == orgs + [Validate(schema, RegistrationDraft(b, logo), NewOrgId(orgs)).value]
    ensures r.Err? ==> r.error in {Api(400), Api(409), Unhandled}
  {
    if MissingRequired(b, logo) then Err(Api(400))
    else if FindByName(orgs, b.name.value).Some? then Err(Api(409))
    else
      match Validate(schema, RegistrationDraft(b, logo), NewOrgId(orgs))
      case Err(_) => Err(Unhandled)
      case Ok(o) => Ok(orgs + [o])
  }

  /**
   * Neither schema accepts what the handler creates: the organizations schema requires a
   * location and the ngo schema requires leave allowances, and the handler passes neither.
   * Every request that clears the two guards therefore ends in an uncaught validation error.
   */
  lemma RegistrationNeverSucceeds(schema: Schema, orgs: seq<Organization>, b: RegisterBody,
                                  logo: Option<string>)
    ensures RegisterOrganization(schema, orgs, b, logo).Err?
    ensures !MissingRequired(b, logo) && !NameTaken(orgs, b.name.value) ==>
      RegisterOrganization(schema, orgs, b, logo) == Err(Unhandled)
  {
    if !MissingRequired(b, logo) {
      var d := RegistrationDraft(b, logo);
      match schema
      case OrganizationsSchema =>
        assert Fails(schema, d, LatitudePath);
      case NgoSchema =>
        assert Fails(schema, d, PrivilegeLeavePath);
    }
  }

  /** A draft with the paths only one of the schemas declares filled in. */
  function WithSchemaPaths(d: Draft, lat: Coordinate, lng: Coordinate, privilege: int, other: int): (e: Draft)
    ensures e.latitude == Some(lat) && e.longitude == Some(lng)
    ensures e.privilegeLeave == Some(privilege) && e.otherLeave == Some(other)
    ensures e.(latitude := d.latitude, longitude := d.longitude,
               privilegeLeave := d.privilegeLeave, otherLeave := d.otherLeave) == d
  {
    d.(latitude := Some(lat), longitude := Some(lng), privilegeLeave := Some(privilege), otherLeave := Some(other))
  }

  /**
   * Were the schema's own paths supplied, registration would store the defaults: the
   * deadline "09:30", the evening start "17:00", no holidays and no users.
   */
  lemma RegistrationDefaults(schema: Schema, b: RegisterBody, logo: Option<string>, id: OrgId,
                             lat: Coordinate, lng: Coordinate, privilege: int, other: int)
    requires b.workingDays.Some?
    requires Falsy(b.morningAttendanceDeadline) && Falsy(b.eveningAttendanceStartTime) && b.holidays.None?
    requires Validate(schema, WithSchemaPaths(RegistrationDraft(b, logo), lat, lng, privilege, other), id).Ok?
    ensures var o := Validate(schema, WithSchemaPaths(RegistrationDraft(b, logo), lat, lng, privilege, other), id).value;
      && o.morningAttendanceDeadline == "09:30" && o.eveningAttendanceStartTime == "17:00"
      && o.holidays == [] && o.users == []
  {
  }

  // ---------------------------------------------------------------- get, update, delete

  /** `findById(id)` or a 404. */
  function GetOrganization(orgs: seq<Organization>, id: OrgId): (r: Result<Organization, Failure>)
    ensures r.Err? <==> forall i | 0 <= i < |orgs| :: orgs[i].id != id
    ensures r.Err? ==> r.error == Api(404)
    ensures r.Ok? ==> r.value.id == id && r.value in orgs
  {
    match FindById(orgs, id)
    case None => Err(Api(404))
    case Some(k) => Ok(orgs[k])
  }

  /** The body of an update: each path is either supplied or left out. */
  datatype Patch = Patch(
    name: Option<string>,
    description: Option<string>,
    logo: Option<string>,
    location: Option<OrgLocation>,
    users: Option<seq<UserId>>,
    morningAttendanceDeadline: Option<string>,
    eveningAttendanceStartTime: Option<string>,
    workingDays: Option<seq<string>>,
    leaves: Option<OrgLeaves>,
    holidays: Option<seq<Millis>>)

  const EmptyPatch: Patch := Patch(None, None, None, None, None, None, None, None, None, None)

  /**
   * `$set: updateData`. Supplied paths overwrite, the `name` setter still runs, and a path
   * the loaded schema does not declare is dropped by strict mode. Update validators are off,
   * so nothing is checked against the schema.
   */
  function ApplyPatch(schema: Schema, o: Organization, p: Patch): (r: Organization)
    ensures r.id == o.id
    ensures r.name == (if p.name.Some? then TrimLower(p.name.value) else o.name)
    ensures r.description == (if p.description.Some? then p.description else o.description)
    ensures r.logo == p.logo.GetOr(o.logo) && r.users == p.users.GetOr(o.users)
    ensures r.location == (if p.location.Some? && schema == OrganizationsSchema then p.location else o.location)
    ensures r.leaves == (if p.leaves.Some? && schema == NgoSchema then p.leaves else o.leaves)
    ensures r.morningAttendanceDeadline == p.morningAttendanceDeadline.GetOr(o.morningAttendanceDeadline)
    ensures r.eveningAttendanceStartTime == p.eveningAttendanceStartTime.GetOr(o.eveningAttendanceStartTime)
    ensures r.workingDays == p.workingDays.GetOr(o.workingDays) && r.holidays == p.holidays.GetOr(o.holidays)
  {
    o.(name := if p.name.Some? then TrimLower(p.name.value) else o.name,
       description := if p.description.Some? then p.description else o.description,
       logo := p.logo.GetOr(o.logo),
       location := if p.location.Some? && schema == OrganizationsSchema then p.location else o.location,
       users := p.users.GetOr(o.users),
       morningAttendanceDeadline := p.morningAttendanceDeadline.GetOr(o.morningAttendanceDeadline),
       eveningAttendanceStartTime := p.eveningAttendanceStartTime.GetOr(o.eveningAttendanceStartTime),
       workingDays := p.workingDays.GetOr(o.workingDays),
       leaves := if p.leaves.Some? && schema == NgoSchema then p.leaves else o.leaves,
       holidays := p.holidays.GetOr(o.holidays))
  }

  /** An empty body changes nothing. */
  lemma EmptyPatchIsIdentity(schema: Schema, o: Organization)
    ensures ApplyPatch(schema, o, EmptyPatch) == o
  {
  }

  /** Sending the same body twice has the effect of sending it once. */
  lemma PatchIdempotent(schema: Schema, o: Organization, p: Patch)
    ensures ApplyPatch(schema, ApplyPatch(schema, o, p), p) == ApplyPatch(schema, o, p)
  {
    var once := ApplyPatch(schema, o, p);
    var twice := ApplyPatch(schema, once, p);
    if p.name.Some? {
      TrimLowerIdempotent(p.name.value);
    }
    assert twice.name == once.name && twice.description == once.description && twice.logo == once.logo;
    assert twice.location == once.location && twice.leaves == once.leaves && twice.users == once.users;
    assert twice.morningAttendanceDeadline == once.morningAttendanceDeadline;
    assert twice.eveningAttendanceStartTime == once.eveningAttendanceStartTime;
    assert twice.workingDays == once.workingDays && twice.holidays == once.holidays;
  }

  /** The unique indexes of the collection: `_id` and `name`. */
  predicate UniqueKeys(orgs: seq<Organization>) {
    forall i, j | 0 <= i < j < |orgs| :: orgs[i].id != orgs[j].id && orgs[i].name != orgs[j].name
  }

  /** Whether some organisation other than position `k` holds the name `name`. */
  predicate NameHeldElsewhere(orgs: seq<Organization>, k: nat, name: string) {
    exists i | 0 <= i < |orgs| && i != k :: orgs[i].name == name
  }

  datatype Updated = Updated(orgs: seq<Organization>, organization: Organization)

  /**
   * `updateOrganization`: 404 when no organisation has the id; a new name that another
   * organisation holds violates the unique index, an error the handler does not catch;
   * otherwise the patched organisation replaces the old one in place.
   */
  function UpdateOrganization(schema: Schema, orgs: seq<Organization>, id: OrgId, p: Patch): (r: Result<Updated, Failure>)
    ensures (forall i | 0 <= i < |orgs| :: orgs[i].id != id) <==> r == Err(Api(404))
    ensures r.Err? ==> r.error in {Api(404), Unhandled}
    ensures r.Ok? ==> exists k | 0 <= k < |orgs| ::
      && orgs[k].id == id
      && !NameHeldElsewhere(orgs, k, ApplyPatch(schema, orgs[k], p).name)
      && r.value.orgs == orgs[k := ApplyPatch(schema, orgs[k], p)]
      && r.value.organization == ApplyPatch(schema, orgs[k], p)
    ensures r == Err(Unhandled) ==> exists k | 0 <= k < |orgs| ::
      orgs[k].id == id && NameHeldElsewhere(orgs, k, ApplyPatch(schema, orgs[k], p).name)
  {
    match FindById(orgs, id)
    case None => Err(Api(404))
    case Some(k) =>
      var updated := ApplyPatch(schema, orgs[k], p);
      if exists i | 0 <= i < |orgs| && i != k :: orgs[i].name == updated.name then Err(Unhandled)
      else Ok(Updated(orgs[k := updated], updated))
  }

  /** An update keeps both unique indexes and leaves every other organisation as it was. */
  lemma UpdateKeepsUniqueKeys(schema: Schema, orgs: seq<Organization>, id: OrgId, p: Patch)
    requires UniqueKeys(orgs)
    requires UpdateOrganization(schema, orgs, id, p).Ok?
    ensures UniqueKeys(UpdateOrganization(schema, orgs, id, p).value.orgs)
    ensures var next := UpdateOrganization(schema, orgs, id, p).value.orgs;
      |next| == |orgs| && forall i | 0 <= i < |orgs| && orgs[i].id != id :: next[i] == orgs[i]
  {
    var k := FindById(orgs, id).value;
    var updated := ApplyPatch(schema, orgs[k], p);
    var next := orgs[k := updated];
    assert UpdateOrganization(schema, orgs, id, p).value.orgs == next;
    forall i, j | 0 <= i < j < |next|
      ensures next[i].id != next[j].id && next[i].name != next[j].name
    {
      if i == k {
        assert orgs[j].name != updated.name;
      } else if j == k {
        assert orgs[i].name != updated.name;
      }
    }
  }

  /**
   * Updates skip schema validation, so an update can store what registration would refuse:
   * here a working day outside the enum.
   */
  lemma UpdateSkipsValidation(o: Organization)
    requires IsStored(NgoSchema, o)
    ensures var u := UpdateOrganization(NgoSchema, [o], o.id, EmptyPatch.(workingDays := Some(["Funday"])));
      u.Ok? && !IsStored(NgoSchema, u.value.organization)
  {
    var u := ApplyPatch(NgoSchema, o, EmptyPatch.(workingDays := Some(["Funday"])));
    assert u.workingDays[0] !in Weekdays;
  }

  /**
   * `deleteOrganization`: 404 when no organisation has the id, otherwise the first one that
   * has it is removed and the rest keep their order.
   */
  function DeleteOrganization(orgs: seq<Organization>, id: OrgId): (r: Result<seq<Organization>, Failure>)
    ensures (forall i | 0 <= i < |orgs| :: orgs[i].id != id) <==> r.Err?
    ensures r.Err? ==> r.error == Api(404)
    ensures r.Ok? ==> |r.value| == |orgs| - 1
    ensures r.Ok? ==> exists k | 0 <= k < |orgs| :: orgs[k].id == id && r.value == orgs[..k] + orgs[k + 1..]
  {
    match FindById(orgs, id)
    case None => Err(Api(404))
    case Some(k) => Ok(orgs[..k] + orgs[k + 1..])
  }

  /** Removing position `k` keeps the others in order and keeps both indexes unique. */
  lemma RemoveAtKeeps(orgs: seq<Organization>, k: nat)
    requires k < |orgs| && UniqueKeys(orgs)
    ensures var rest := orgs[..k] + orgs[k + 1..];
      && UniqueKeys(rest)
      && (forall i | 0 <= i < |rest| :: rest[i].id != orgs[k].id)
      && (forall i | 0 <= i < |orgs| && i != k :: orgs[i] in rest)
  {
    var rest := orgs[..k] + orgs[k + 1..];
    assert forall i | 0 <= i < |rest| :: rest[i] == if i < k then orgs[i] else orgs[i + 1];
    forall i | 0 <= i < |orgs| && i != k ensures orgs[i] in rest {
      if i < k { assert rest[i] == orgs[i]; } else { assert rest[i - 1] == orgs[i]; }
    }
  }

  /** With unique ids, deleting leaves no organisation with that id and keeps all the others. */
  lemma DeleteRemovesExactly(orgs: seq<Organization>, id: OrgId)
    requires UniqueKeys(orgs)
    requires DeleteOrganization(orgs, id).Ok?
    ensures var rest := DeleteOrganization(orgs, id).value;
      && (forall i | 0 <= i < |rest| :: rest[i].id != id)
      && (forall i | 0 <= i < |orgs| && orgs[i].id != id :: orgs[i] in rest)
      && UniqueKeys(rest)
  {
    var k := FindById(orgs, id).value;
    assert DeleteOrganization(orgs, id).value == orgs[..k] + orgs[k + 1..];
    RemoveAtKeeps(orgs, k);
  }

  // ---------------------------------------------------------------- addUserToOrganization

  /** `$addToSet`: the value is appended only when it is not there yet. */
  function AddToSet(xs: seq<UserId>, x: UserId): (r: seq<UserId>)
    ensures x in r
    ensures forall y | y in r :: y in xs || y == x
    ensures xs <= r
    ensures x in xs ==> |r| == |xs|
    ensures x !in xs ==> |r| == |xs| + 1
  {
    if x in xs then xs else xs + [x]
  }

  /** Adding twice is adding once, and a list without duplicates stays without duplicates. */
  lemma AddToSetIsSetAdd(xs: seq<UserId>, x: UserId)
    ensures AddToSet(AddToSet(xs, x), x) == AddToSet(xs, x)
    ensures NoDuplicates(xs) ==> NoDuplicates(AddToSet(xs, x))
  {
  }

  /**
   * `addUserToOrganization`: 404 when no organisation has the id, otherwise the user id is
   * set-added to that organisation's `users` and nothing else changes.
   */
  function AddUserToOrganization(orgs: seq<Organization>, orgId: OrgId, userId: UserId): (r: Result<Updated, Failure>)
    ensures (forall i | 0 <= i < |orgs| :: orgs[i].id != orgId) <==> r.Err?
    ensures r.Err? ==> r.error == Api(404)
    ensures r.Ok? ==> exists k | 0 <= k < |orgs| ::
      && orgs[k].id == orgId
      && r.value.organization == orgs[k].(users := AddToSet(orgs[k].users, userId))
      && r.value.orgs == orgs[k := r.value.organization]
  {
    match FindById(orgs, orgId)
    case None => Err(Api(404))
    case Some(k) =>
      var updated := orgs[k].(users := AddToSet(orgs[k].users, userId));
      Ok(Updated(orgs[k := updated], updated))
  }

  /** Adding a user who is already a member changes nothing at all. */
  lemma AddExistingMemberIsNoOp(orgs: seq<Organization>, orgId: OrgId, userId: UserId)
    requires AddUserToOrganization(orgs, orgId, userId).Ok?
    requires forall i | 0 <= i < |orgs| && orgs[i].id == orgId :: userId in orgs[i].users
    ensures AddUserToOrganization(orgs, orgId, userId).value.orgs == orgs
  {
    var k := FindById(orgs, orgId).value;
    assert orgs[k].(users := AddToSet(orgs[k].users, userId)) == orgs[k];
  }

  /** Membership after an add: a new member appears exactly once in a list without duplicates. */
  lemma AddedMemberOnce(orgs: seq<Organization>, orgId: OrgId, userId: UserId)
    requires AddUserToOrganization(orgs, orgId, userId).Ok?
    requires forall i | 0 <= i < |orgs| :: NoDuplicates(orgs[i].users)
    ensures var o := AddUserToOrganization(orgs, orgId, userId).value.organization;
      && NoDuplicates(o.users) && userId in o.users
  {
    var k := FindById(orgs, orgId).value;
    AddToSetIsSetAdd(orgs[k].users, userId);
  }
}
