/**
 * The attendance record of models/attendance.model.js: one row of the ledger, the
 * three-valued status and the schema's required paths and default.
 */
module AttendanceModel {
  import opened Wrappers
  import opened Ids

  /** The `status` enum. */
  datatype Status = Present | Late | Absent

  /** The string the schema stores for a status. */
  function StatusName(s: Status): string {
    match s
    case Present => "PRESENT"
    case Late => "LATE"
    case Absent => "ABSENT"
  }

  /** The enum check: a string is accepted exactly when it is one of the three names. */
  function ParseStatus(s: string): (r: Option<Status>)
    ensures r.Some? <==> s == "PRESENT" || s == "LATE" || s == "ABSENT"
    ensures r.Some? ==> StatusName(r.value) == s
  {
    if s == "PRESENT" then Some(Present)
    else if s == "LATE" then Some(Late)
    else if s == "ABSENT" then Some(Absent)
    else None
  }

  lemma StatusRoundTrip(s: Status)
    ensures ParseStatus(StatusName(s)) == Some(s)
  {
  }

  /** A `{latitude, longitude}` sub-document; both parts are optional numbers. */
  datatype Location = Location(latitude: Option<Coordinate>, longitude: Option<Coordinate>)

  /** A stored attendance record: the three required paths, the optional check-in/out paths and the status. */
  datatype Record = Record(
    date: Millis,
    user: UserId,
    organization: OrgId,
    checkInTime: Option<Millis>,
    checkOutTime: Option<Millis>,
    checkInPhoto: Option<string>,
    checkOutPhoto: Option<string>,
    checkInLocation: Option<Location>,
    checkOutLocation: Option<Location>,
    status: Status)

  /** No check-in or check-out path is set. */
  predicate HasNoPunches(r: Record) {
    && r.checkInTime.None? && r.checkOutTime.None?
    && r.checkInPhoto.None? && r.checkOutPhoto.None?
    && r.checkInLocation.None? && r.checkOutLocation.None?
  }

  /** The document handed to `Attendance.create` or `insertMany`: every path may be missing. */
  datatype Draft = Draft(
    date: Option<Millis>,
    user: Option<UserId>,
    organization: Option<OrgId>,
    checkInTime: Option<Millis>,
    checkOutTime: Option<Millis>,
    checkInPhoto: Option<string>,
    checkOutPhoto: Option<string>,
    checkInLocation: Option<Location>,
    checkOutLocation: Option<Location>,
    status: Option<string>)

  /** A path the schema's validation can reject. */
  datatype Path = DatePath | UserPath | OrganizationPath | StatusPath

  /**
   * Mongoose validation of a draft: the failing paths are exactly the missing required
   * ones and a status outside the enum; a missing status becomes PRESENT.
   */
  function Validate(d: Draft): (r: Result<Record, set<Path>>)
    ensures r.Ok? <==> d.date.Some? && d.user.Some? && d.organization.Some?
                       && (d.status.None? || ParseStatus(d.status.value).Some?)
    ensures r.Err? ==> (DatePath in r.error <==> d.date.None?)
    ensures r.Err? ==> (UserPath in r.error <==> d.user.None?)
    ensures r.Err? ==> (OrganizationPath in r.error <==> d.organization.None?)
    ensures r.Err? ==> (StatusPath in r.error <==> d.status.Some? && ParseStatus(d.status.value).None?)
    ensures r.Ok? ==> r.value.date == d.date.value && r.value.user == d.user.value
                      && r.value.organization == d.organization.value
    ensures r.Ok? && d.status.None? ==> r.value.status == Present
    ensures r.Ok? && d.status.Some? ==> StatusName(r.value.status) == d.status.value
    ensures r.Ok? ==> r.value.checkInTime == d.checkInTime && r.value.checkOutTime == d.checkOutTime
                      && r.value.checkInPhoto == d.checkInPhoto && r.value.checkOutPhoto == d.checkOutPhoto
                      && r.value.checkInLocation == d.checkInLocation
                      && r.value.checkOutLocation == d.checkOutLocation
  {
    var status := if d.status.None? then Some(Present) else ParseStatus(d.status.value);
    var failing :=
      (if d.date.None? then {DatePath} else {})
      + (if d.user.None? then {UserPath} else {})
      + (if d.organization.None? then {OrganizationPath} else {})
      + (if status.None? then {StatusPath} else {});
    if failing != {} then Err(failing)
    else Ok(Record(d.date.value, d.user.value, d.organization.value,
                   d.checkInTime, d.checkOutTime, d.checkInPhoto, d.checkOutPhoto,
                   d.checkInLocation, d.checkOutLocation, status.value))
  }

  /** Two records for the same user and day. */
  predicate SameUserAndDay(a: Record, b: Record) {
    a.user == b.user && a.date == b.date
  }

  /**
   * The schema declares no uniqueness on `(user, date)`: two drafts for the same user and
   * day both pass validation, so at most one record a day is not a storage invariant.
   */
  lemma NoUniquenessPerDay(user: UserId, org: OrgId, day: Millis)
    ensures var d := Draft(Some(day), Some(user), Some(org), None, None, None, None, None, None, None);
            var e := Draft(Some(day), Some(user), Some(org), None, None, None, None, None, None, Some("ABSENT"));
            && Validate(d).Ok? && Validate(e).Ok?
            && SameUserAndDay(Validate(d).value, Validate(e).value)
            && Validate(d).value != Validate(e).value
  {
  }
}
