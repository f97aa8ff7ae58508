/**
 * The organisation document. Two schema files register it: models/organizations.model.js
 * (with a required location) and models/ngo.model.js (with required leave allowances; the
 * one the absentee sweep loads). Both are modelled, over one stored shape.
 */
module OrgModel {
  import opened Wrappers
  import opened Ids
  import opened Text

  /** The two schema files. */
  datatype Schema = OrganizationsSchema | NgoSchema

  /** The seven values the `workingDays` enum allows. */
  const Weekdays: seq<string> :=
    ["Monday", "Tuesday", "Wednesday", "Thursday", "Friday", "Saturday", "Sunday"]

  const DefaultDeadline: string := "09:30"
  const DefaultEveningStart: string := "17:00"

  datatype OrgLocation = OrgLocation(latitude: Coordinate, longitude: Coordinate, address: Option<string>)

  datatype OrgLeaves = OrgLeaves(privilegeLeave: int, otherLeave: int)

  /**
   * A stored organisation. `location` is present only under the organizations schema and
   * `leaves` only under the ngo schema; strict mode drops the paths a schema does not declare.
   */
  datatype Organization = Organization(
    id: OrgId,
    name: string,
    description: Option<string>,
    logo: string,
    location: Option<OrgLocation>,
    users: seq<UserId>,
    morningAttendanceDeadline: string,
    eveningAttendanceStartTime: string,
    workingDays: seq<string>,
    leaves: Option<OrgLeaves>,
    holidays: seq<Millis>)

  /** The document handed to `Organization.create`: any path may be missing. */
  datatype Draft = Draft(
    name: Option<string>,
    description: Option<string>,
    logo: Option<string>,
    latitude: Option<Coordinate>,
    longitude: Option<Coordinate>,
    address: Option<string>,
    users: Option<seq<UserId>>,
    morningAttendanceDeadline: Option<string>,
    eveningAttendanceStartTime: Option<string>,
    workingDays: Option<seq<string>>,
    privilegeLeave: Option<int>,
    otherLeave: Option<int>,
    holidays: Option<seq<Millis>>)

  /**
   * A path validation can reject; `WorkingDayPath(i)` is element `i` of `workingDays`. The
   * list itself never fails: an array path defaults to `[]`, and `required` on an array only
   * asks for an array, so an omitted list is stored as the empty one.
   */
  datatype Path =
    NamePath | LogoPath | LatitudePath | LongitudePath
    | WorkingDayPath(index: nat) | PrivilegeLeavePath | OtherLeavePath

  const FixedPaths: set<Path> := {
    NamePath, LogoPath, LatitudePath, LongitudePath, PrivilegeLeavePath, OtherLeavePath
  }

  /** The working days a draft is stored with: the list given, or the array default `[]`. */
  function DaysOf(d: Draft): seq<string> {
    d.workingDays.GetOr([])
  }

  /** Whether path `p` of draft `d` fails under `schema`. */
  predicate Fails(schema: Schema, d: Draft, p: Path) {
    match p
    case NamePath => d.name.None? || AllSpace(d.name.value)
    case LogoPath => d.logo.None? || d.logo.value == ""
    case LatitudePath => schema == OrganizationsSchema && d.latitude.None?
    case LongitudePath => schema == OrganizationsSchema && d.longitude.None?
    case WorkingDayPath(i) => i < |DaysOf(d)| && DaysOf(d)[i] !in Weekdays
    case PrivilegeLeavePath => schema == NgoSchema && d.privilegeLeave.None?
    case OtherLeavePath => schema == NgoSchema && d.otherLeave.None?
  }

  /** Every failing path of a draft. */
  function Failures(schema: Schema, d: Draft): (f: set<Path>)
    ensures forall p :: p in f <==> Fails(schema, d, p)
  {
    var days := DaysOf(d);
    var elements := set i | 0 <= i < |days| && days[i] !in Weekdays :: WorkingDayPath(i);
    assert forall p | Fails(schema, d, p) && p.WorkingDayPath? :: p in elements by {
      forall p | Fails(schema, d, p) && p.WorkingDayPath? ensures p in elements {
        assert p == WorkingDayPath(p.index);
      }
    }
    (set p | p in FixedPaths && Fails(schema, d, p)) + elements
  }

  /** Every element of `days` is a weekday name. */
  predicate AllWeekdays(days: seq<string>) {
    forall i | 0 <= i < |days| :: days[i] in Weekdays
  }

  /**
   * Casting and validation under `schema`: `name` is trimmed and lower-cased and must then be
   * non-empty, `logo` is required, every working day must be a weekday name, the schema's own
   * required paths must be present, and the defaults apply to the deadline, the evening
   * start, `users`, `workingDays` and `holidays`.
   */
  function Validate(schema: Schema, d: Draft, id: OrgId): (r: Result<Organization, set<Path>>)
    ensures r.Ok? <==> Failures(schema, d) == {}
    ensures r.Err? ==> r.error == Failures(schema, d)
    ensures r.Ok? ==> d.name.Some? && d.logo.Some? && d.logo.value != ""
    ensures r.Ok? ==> r.value.id == id && r.value.name == TrimLower(d.name.value) && r.value.name != ""
    ensures r.Ok? ==> r.value.description == d.description
    ensures r.Ok? ==> r.value.logo == d.logo.value && r.value.workingDays == DaysOf(d)
    ensures r.Ok? ==> AllWeekdays(r.value.workingDays)
    ensures r.Ok? ==> r.value.morningAttendanceDeadline == d.morningAttendanceDeadline.GetOr(DefaultDeadline)
    ensures r.Ok? ==> r.value.eveningAttendanceStartTime == d.eveningAttendanceStartTime.GetOr(DefaultEveningStart)
    ensures r.Ok? ==> r.value.holidays == d.holidays.GetOr([]) && r.value.users == d.users.GetOr([])
    ensures r.Ok? ==> (r.value.location.Some? <==> schema == OrganizationsSchema)
    ensures r.Ok? ==> (r.value.leaves.Some? <==> schema == NgoSchema)
  {
    var failing := Failures(schema, d);
    if failing != {} then Err(failing)
    else
      NoFailureAccepts(schema, d);
      Ok(Organization(
        id, TrimLower(d.name.value), d.description, d.logo.value,
        if schema == OrganizationsSchema
        then Some(OrgLocation(d.latitude.value, d.longitude.value, d.address))
        else None,
        d.users.GetOr([]),
        d.morningAttendanceDeadline.GetOr(DefaultDeadline),
        d.eveningAttendanceStartTime.GetOr(DefaultEveningStart),
        DaysOf(d),
        if schema == NgoSchema
        then Some(OrgLeaves(d.privilegeLeave.value, d.otherLeave.value))
        else None,
        d.holidays.GetOr([])))
  }

  /** What a schema demands of a draft besides name, logo and weekday names. */
  predicate SchemaPaths(schema: Schema, d: Draft) {
    match schema
    case OrganizationsSchema => d.latitude.Some? && d.longitude.Some?
    case NgoSchema => d.privilegeLeave.Some? && d.otherLeave.Some?
  }

  /** Name and logo present, every working day a weekday, and the schema's own paths present. */
  predicate Acceptable(schema: Schema, d: Draft) {
    && d.name.Some? && !AllSpace(d.name.value) && d.logo.Some? && d.logo.value != ""
    && AllWeekdays(DaysOf(d))
    && SchemaPaths(schema, d)
  }

  lemma FailingPathRefutes(schema: Schema, d: Draft, p: Path)
    requires Fails(schema, d, p)
    ensures !Acceptable(schema, d)
  {
    match p
    case WorkingDayPath(i) =>
      assert DaysOf(d)[i] !in Weekdays;
    case _ =>
  }

  lemma NoFailureAccepts(schema: Schema, d: Draft)
    requires forall p :: !Fails(schema, d, p)
    ensures Acceptable(schema, d)
  {
    assert !Fails(schema, d, NamePath) && !Fails(schema, d, LogoPath);
    forall i | 0 <= i < |DaysOf(d)| ensures DaysOf(d)[i] in Weekdays {
      assert !Fails(schema, d, WorkingDayPath(i));
    }
    assert !Fails(schema, d, LatitudePath) && !Fails(schema, d, PrivilegeLeavePath);
    assert !Fails(schema, d, LongitudePath) && !Fails(schema, d, OtherLeavePath);
  }

  /** A draft passes exactly when it is acceptable. */
  lemma {:induction false} PassesExactly(schema: Schema, d: Draft, id: OrgId)
    ensures Validate(schema, d, id).Ok? <==> Acceptable(schema, d)
  {
    var f := Failures(schema, d);
    if f == {} {
      NoFailureAccepts(schema, d);
    } else {
      var p :| p in f;
      FailingPathRefutes(schema, d, p);
    }
  }

  /** Omitting `workingDays` and sending the empty list are the same to validation. */
  lemma OmittedDaysAreEmpty(schema: Schema, d: Draft, id: OrgId)
    ensures Validate(schema, d.(workingDays := None), id) == Validate(schema, d.(workingDays := Some([])), id)
    ensures Validate(schema, d.(workingDays := None), id).Ok? ==> Validate(schema, d.(workingDays := None), id).value.workingDays == []
  {
    var omitted := d.(workingDays := None);
    var empty := d.(workingDays := Some([]));
    assert DaysOf(omitted) == [] == DaysOf(empty);
    assert forall p :: Fails(schema, omitted, p) == Fails(schema, empty, p);
    assert Failures(schema, omitted) == Failures(schema, empty);
  }

  /** The organizations schema: name, logo and both coordinates are required, and every working day must be a weekday. */
  function ValidateOrganizations(d: Draft, id: OrgId): (r: Result<Organization, set<Path>>)
    ensures r.Ok? <==>
      && d.name.Some? && !AllSpace(d.name.value) && d.logo.Some? && d.logo.value != ""
      && AllWeekdays(DaysOf(d))
      && d.latitude.Some? && d.longitude.Some?
    ensures r.Ok? ==> r.value.location == Some(OrgLocation(d.latitude.value, d.longitude.value, d.address))
    ensures r.Ok? ==> r.value.leaves.None?
  {
    PassesExactly(OrganizationsSchema, d, id);
    Validate(OrganizationsSchema, d, id)
  }

  /** The ngo schema: name, logo and both leave allowances are required, and every working day must be a weekday. */
  function ValidateNgo(d: Draft, id: OrgId): (r: Result<Organization, set<Path>>)
    ensures r.Ok? <==>
      && d.name.Some? && !AllSpace(d.name.value) && d.logo.Some? && d.logo.value != ""
      && AllWeekdays(DaysOf(d))
      && d.privilegeLeave.Some? && d.otherLeave.Some?
    ensures r.Ok? ==> r.value.leaves == Some(OrgLeaves(d.privilegeLeave.value, d.otherLeave.value))
    ensures r.Ok? ==> r.value.location.None?
  {
    PassesExactly(NgoSchema, d, id);
    Validate(NgoSchema, d, id)
  }

  /** The stored form of one organisation under `schema`. */
  predicate IsStored(schema: Schema, o: Organization) {
    && o.name == TrimLower(o.name) && o.name != ""
    && o.logo != ""
    && AllWeekdays(o.workingDays)
    && (o.location.Some? <==> schema == OrganizationsSchema)
    && (o.leaves.Some? <==> schema == NgoSchema)
  }

  /** The collection invariant: distinct ids, the unique index on `name`, and stored form. */
  predicate WellFormed(schema: Schema, orgs: seq<Organization>) {
    && (forall i | 0 <= i < |orgs| :: IsStored(schema, orgs[i]))
    && (forall i, j | 0 <= i < j < |orgs| :: orgs[i].id != orgs[j].id && orgs[i].name != orgs[j].name)
  }

  /** A document `Validate` produced is in stored form. */
  lemma ValidatedIsStored(schema: Schema, d: Draft, id: OrgId)
    requires Validate(schema, d, id).Ok?
    ensures IsStored(schema, Validate(schema, d, id).value)
  {
    TrimLowerIdempotent(d.name.value);
  }

  /** The position of the organisation with id `id` (`findById`), if any. */
  function FindById(orgs: seq<Organization>, id: OrgId): (r: Option<nat>)
    ensures r.Some? ==> r.value < |orgs| && orgs[r.value].id == id
    ensures r.Some? ==> forall i | 0 <= i < r.value :: orgs[i].id != id
    ensures r.None? <==> forall i | 0 <= i < |orgs| :: orgs[i].id != id
  {
    if orgs == [] then None
    else if orgs[0].id == id then Some(0)
    else match FindById(orgs[1..], id)
      case None => None
      case Some(k) => Some(k + 1)
  }

  /** An id no stored organisation has. */
  function NewOrgId(orgs: seq<Organization>): OrgId {
    FreshId(orgs, (o: Organization) => o.id)
  }
}
