/**
 * The daily absentee sweep of service.js: the body of the scheduled callback as a pure
 * function from the ledger, the organisations, the users and the run instant to the new
 * ledger.
 */
module AbsenteeSweep {
  import opened Wrappers
  import opened Ids
  import opened AttendanceModel
  import opened Lists
  import UserModel
  import OrgModel

  type User = UserModel.User
  type Organization = OrgModel.Organization

  const MsPerSecond: int := 1000
  const MsPerMinute: int := 60 * MsPerSecond
  const MsPerHour: int := 60 * MsPerMinute
  const MsPerDay: int := 24 * MsPerHour

  /** `getUTCHours`, `getUTCMinutes`, `getUTCSeconds`, `getUTCMilliseconds`. */
  function UtcHours(t: Millis): int { (t % MsPerDay) / MsPerHour }
  function UtcMinutes(t: Millis): int { (t % MsPerHour) / MsPerMinute }
  function UtcSeconds(t: Millis): int { (t % MsPerMinute) / MsPerSecond }
  function UtcMilliseconds(t: Millis): int { t % MsPerSecond }

  /**
   * `today.setUTCHours(0, 0, 0, 0)`: the start of the UTC day holding `now`, so every
   * time-of-day component is zero and `now` falls within the following 24 hours.
   */
  function UtcMidnight(now: Millis): (today: Millis)
    ensures UtcHours(today) == 0 && UtcMinutes(today) == 0
    ensures UtcSeconds(today) == 0 && UtcMilliseconds(today) == 0
    ensures today % MsPerDay == 0 && today <= now < today + MsPerDay
  {
    var days := now / MsPerDay;
    MidnightIsWholeDay(days);
    days * MsPerDay
  }

  /** A whole number of days is a whole number of hours, minutes, seconds and milliseconds. */
  lemma MidnightIsWholeDay(days: int)
    ensures (days * MsPerDay) % MsPerDay == 0 && (days * MsPerDay) % MsPerHour == 0
    ensures (days * MsPerDay) % MsPerMinute == 0 && (days * MsPerDay) % MsPerSecond == 0
  {
    assert days * MsPerDay == days * 86400000;
    assert (days * 86400000) % 86400000 == 0;
    assert (days * 86400000) % 3600000 == 0 by {
      assert days * 86400000 == (days * 24) * 3600000;
    }
    assert (days * 86400000) % 60000 == 0 by {
      assert days * 86400000 == (days * 1440) * 60000;
    }
    assert (days * 86400000) % 1000 == 0 by {
      assert days * 86400000 == (days * 86400) * 1000;
    }
  }

  /** Two instants share a `today` exactly when they fall in the same UTC day. */
  lemma SameUtcDay(a: Millis, b: Millis)
    ensures UtcMidnight(a) == UtcMidnight(b) <==> a / MsPerDay == b / MsPerDay
  {
  }

  /** Record `r` is for `user` on `day` under `org`. */
  predicate IsRecordFor(r: Record, user: UserId, day: Millis, org: OrgId) {
    r.user == user && r.date == day && r.organization == org
  }

  /** The ledger holds some record, whatever its status, for `user` on `day` under `org`. */
  predicate HasRecord(ledger: seq<Record>, user: UserId, day: Millis, org: OrgId) {
    exists i | 0 <= i < |ledger| :: IsRecordFor(ledger[i], user, day, org)
  }

  /** How many records the ledger holds for `user` on `day` under `org`. */
  function Count(ledger: seq<Record>, user: UserId, day: Millis, org: OrgId): nat {
    if ledger == [] then 0
    else (if IsRecordFor(ledger[0], user, day, org) then 1 else 0) + Count(ledger[1..], user, day, org)
  }

  lemma {:induction false} CountAppend(a: seq<Record>, b: seq<Record>, user: UserId, day: Millis, org: OrgId)
    ensures Count(a + b, user, day, org) == Count(a, user, day, org) + Count(b, user, day, org)
  {
    if a == [] {
      assert a + b == b;
    } else {
      assert (a + b)[0] == a[0];
      assert (a + b)[1..] == a[1..] + b;
      CountAppend(a[1..], b, user, day, org);
    }
  }

  lemma {:induction false} CountPositive(ledger: seq<Record>, user: UserId, day: Millis, org: OrgId)
    ensures Count(ledger, user, day, org) > 0 <==> HasRecord(ledger, user, day, org)
  {
    if ledger != [] {
      CountPositive(ledger[1..], user, day, org);
      if HasRecord(ledger[1..], user, day, org) {
        var i :| 0 <= i < |ledger[1..]| && IsRecordFor(ledger[1..][i], user, day, org);
        assert IsRecordFor(ledger[i + 1], user, day, org);
      }
      if HasRecord(ledger, user, day, org) && !IsRecordFor(ledger[0], user, day, org) {
        var i :| 0 <= i < |ledger| && IsRecordFor(ledger[i], user, day, org);
        assert IsRecordFor(ledger[1..][i - 1], user, day, org);
      }
    }
  }

  /** A ledger only grows, so a record once present stays present. */
  lemma HasRecordExtends(ledger: seq<Record>, longer: seq<Record>, user: UserId, day: Millis, org: OrgId)
    requires ledger <= longer
    requires HasRecord(ledger, user, day, org)
    ensures HasRecord(longer, user, day, org)
  {
    var i :| 0 <= i < |ledger| && IsRecordFor(ledger[i], user, day, org);
    assert longer[i] == ledger[i];
  }

  /** `Attendance.distinct("user", {date: today, organization: org})`. */
  function AttendedUsers(ledger: seq<Record>, day: Millis, org: OrgId): (ids: set<UserId>)
    ensures forall u :: u in ids <==> HasRecord(ledger, u, day, org)
  {
    set i | 0 <= i < |ledger| && ledger[i].date == day && ledger[i].organization == org :: ledger[i].user
  }

  /** No two users share an id, as in any collection keyed by `_id`. */
  predicate UniqueIds(users: seq<User>) {
    forall i, j | 0 <= i < j < |users| :: users[i].id != users[j].id
  }

  /** Some user with id `user` has `organization == org`. */
  predicate IsMember(users: seq<User>, user: UserId, org: OrgId) {
    exists j | 0 <= j < |users| :: users[j].id == user && users[j].organization == org
  }

  /**
   * `User.find({organization: org, _id: {$nin: attended}})`: in collection order, the users
   * of `org` (by their own `organization` field) whose id was not attended.
   */
  function AbsentUsers(users: seq<User>, org: OrgId, attended: set<UserId>): (absent: seq<User>)
    ensures forall u :: u in absent <==> u in users && u.organization == org && u.id !in attended
  {
    if users == [] then []
    else
      var rest := AbsentUsers(users[1..], org, attended);
      assert forall u | u in users[1..] :: u in users;
      if users[0].organization == org && users[0].id !in attended then [users[0]] + rest else rest
  }

  /** The query answers in collection order: the absentees are a subsequence of the users. */
  lemma {:induction false} AbsentUsersInOrder(users: seq<User>, org: OrgId, attended: set<UserId>)
    ensures IsSubsequence(AbsentUsers(users, org, attended), users)
    decreases |users|
  {
    if users != [] {
      AbsentUsersInOrder(users[1..], org, attended);
      var rest := AbsentUsers(users[1..], org, attended);
      if users[0].organization == org && users[0].id !in attended {
        assert ([users[0]] + rest)[1..] == rest;
      } else if rest != [] {
        assert rest[0] in rest;
        assert rest[0] != users[0];
      }
    }
  }

  /** Distinct ids stay distinct in the query's answer. */
  lemma {:induction false} AbsentUsersKeepUniqueIds(users: seq<User>, org: OrgId, attended: set<UserId>)
    requires UniqueIds(users)
    ensures UniqueIds(AbsentUsers(users, org, attended))
    decreases |users|
  {
    if users != [] {
      var rest := AbsentUsers(users[1..], org, attended);
      assert UniqueIds(users[1..]) by {
        forall i, j | 0 <= i < j < |users[1..]| ensures users[1..][i].id != users[1..][j].id {
          assert users[1..][i] == users[i + 1] && users[1..][j] == users[j + 1];
        }
      }
      AbsentUsersKeepUniqueIds(users[1..], org, attended);
      if users[0].organization == org && users[0].id !in attended {
        forall u | u in rest ensures u.id != users[0].id {
          var j :| 0 <= j < |users[1..]| && users[1..][j] == u;
          assert users[j + 1] == u;
        }
        var r := [users[0]] + rest;
        forall i, j | 0 <= i < j < |r| ensures r[i].id != r[j].id {
          if i == 0 {
            assert r[j] in rest;
          } else {
            assert r[i] == rest[i - 1] && r[j] == rest[j - 1];
          }
        }
      }
    }
  }

  /** One of the records `insertMany` writes: the draft of service.js, validated by the schema. */
  function MarkAbsent(user: UserId, org: OrgId, today: Millis): (r: Record)
    ensures IsRecordFor(r, user, today, org)
    ensures r.status == Absent && HasNoPunches(r)
  {
    var d := Draft(Some(today), Some(user), Some(org), None, None, None, None, None, None, Some("ABSENT"));
    Validate(d).value
  }

  /** A record the sweep writes on `today`: ABSENT, with no check-in or check-out path. */
  predicate IsAbsentMark(r: Record, today: Millis) {
    r.date == today && r.status == Absent && HasNoPunches(r)
  }

  /** The documents `absentUsers.map(...)` builds, one per absent user, in order. */
  function Marks(absent: seq<User>, org: OrgId, today: Millis): (ms: seq<Record>)
    ensures |ms| == |absent|
    ensures forall i | 0 <= i < |ms| :: ms[i] == MarkAbsent(absent[i].id, org, today)
  {
    if absent == [] then [] else [MarkAbsent(absent[0].id, org, today)] + Marks(absent[1..], org, today)
  }

  /** One pass of the organisation loop. */
  function SweepOrganization(ledger: seq<Record>, org: OrgId, users: seq<User>, today: Millis): (r: seq<Record>)
    ensures ledger <= r
    ensures forall i | |ledger| <= i < |r| ::
      && IsAbsentMark(r[i], today) && r[i].organization == org
      && IsMember(users, r[i].user, org) && !HasRecord(ledger, r[i].user, today, org)
  {
    var attended := AttendedUsers(ledger, today, org);
    var absent := AbsentUsers(users, org, attended);
    if |absent| > 0 then
      var r := ledger + Marks(absent, org, today);
      assert forall i | |ledger| <= i < |r| :: r[i] == MarkAbsent(absent[i - |ledger|].id, org, today);
      assert forall i | 0 <= i < |absent| :: absent[i] in users;
      r
    else ledger
  }

  /** The organisation `org` is one of those the sweep iterates over. */
  predicate Listed(orgs: seq<Organization>, org: OrgId) {
    exists k | 0 <= k < |orgs| :: orgs[k].id == org
  }

  /**
   * The loop over every organisation, in order. The ledger only grows, and every record
   * it gains is an ABSENT mark for today under one of the organisations.
   */
  function Sweep(ledger: seq<Record>, orgs: seq<Organization>, users: seq<User>, today: Millis): (r: seq<Record>)
    ensures ledger <= r
    ensures forall i | |ledger| <= i < |r| :: IsAbsentMark(r[i], today) && Listed(orgs, r[i].organization)
    decreases |orgs|
  {
    if orgs == [] then ledger
    else
      var next := SweepOrganization(ledger, orgs[0].id, users, today);
      var r := Sweep(next, orgs[1..], users, today);
      assert forall k | 0 <= k < |orgs[1..]| :: orgs[1..][k] == orgs[k + 1];
      r
  }

  /**
   * A user is an absentee for `org` when `org` is swept, the user's own `organization` is
   * `org`, and the ledger holds no record of any status for them on `today` under `org`.
   */
  predicate Absentee(ledger: seq<Record>, orgs: seq<Organization>, users: seq<User>,
                     today: Millis, user: UserId, org: OrgId) {
    Listed(orgs, org) && IsMember(users, user, org) && !HasRecord(ledger, user, today, org)
  }

  /** The record at position `i` of a sweep's output, when `i` is past the original ledger, is for a true absentee. */
  lemma {:induction false} SweepMarkIsAbsentee(ledger: seq<Record>, orgs: seq<Organization>, users: seq<User>, today: Millis, i: nat)
    requires |ledger| <= i < |Sweep(ledger, orgs, users, today)|
    ensures var m := Sweep(ledger, orgs, users, today)[i];
            Absentee(ledger, orgs, users, today, m.user, m.organization)
    decreases |orgs|
  {
    var next := SweepOrganization(ledger, orgs[0].id, users, today);
    var r := Sweep(next, orgs[1..], users, today);
    assert r == Sweep(ledger, orgs, users, today);
    var m := r[i];
    if i < |next| {
      assert m == next[i];
      assert m.organization == orgs[0].id;
    } else {
      SweepMarkIsAbsentee(next, orgs[1..], users, today, i);
      var k :| 0 <= k < |orgs[1..]| && orgs[1..][k].id == m.organization;
      assert orgs[k + 1].id == m.organization;
      if HasRecord(ledger, m.user, today, m.organization) {
        HasRecordExtends(ledger, next, m.user, today, m.organization);
      }
    }
  }

  /** Every record the sweep adds is for a true absentee of the original ledger. */
  lemma SweepMarksOnlyAbsentees(ledger: seq<Record>, orgs: seq<Organization>, users: seq<User>, today: Millis)
    ensures var r := Sweep(ledger, orgs, users, today);
            forall i | |ledger| <= i < |r| :: Absentee(ledger, orgs, users, today, r[i].user, r[i].organization)
  {
    var r := Sweep(ledger, orgs, users, today);
    forall i | |ledger| <= i < |r|
      ensures Absentee(ledger, orgs, users, today, r[i].user, r[i].organization)
    {
      SweepMarkIsAbsentee(ledger, orgs, users, today, i);
    }
  }

  /** Count of the marks written for one organisation: one per absent user, none for anyone else. */
  lemma {:induction false} CountMarks(absent: seq<User>, org: OrgId, today: Millis, user: UserId, day: Millis, o: OrgId)
    requires UniqueIds(absent)
    ensures Count(Marks(absent, org, today), user, day, o)
            == if day == today && o == org && exists x | x in absent :: x.id == user then 1 else 0
  {
    if absent != [] {
      var ms := Marks(absent, org, today);
      assert ms[1..] == Marks(absent[1..], org, today);
      assert UniqueIds(absent[1..]) by {
        forall i, j | 0 <= i < j < |absent[1..]| ensures absent[1..][i].id != absent[1..][j].id {
          assert absent[1..][i] == absent[i + 1] && absent[1..][j] == absent[j + 1];
        }
      }
      CountMarks(absent[1..], org, today, user, day, o);
      if absent[0].id == user {
        forall x | x in absent[1..] ensures x.id != user {
          var j :| 0 <= j < |absent[1..]| && absent[1..][j] == x;
          assert absent[j + 1] == x;
        }
      }
      if exists x | x in absent :: x.id == user {
        var x :| x in absent && x.id == user;
        if x != absent[0] {
          var j :| 0 <= j < |absent| && absent[j] == x;
          assert absent[1..][j - 1] == x;
        }
      }
    }
  }

  /** One organisation pass adds exactly one record for each of its absentees and none for anyone else. */
  lemma CountAfterOrganization(ledger: seq<Record>, org: OrgId, users: seq<User>, today: Millis,
                               user: UserId, day: Millis, o: OrgId)
    requires UniqueIds(users)
    ensures Count(SweepOrganization(ledger, org, users, today), user, day, o)
            == Count(ledger, user, day, o)
               + if day == today && o == org && IsMember(users, user, org) && !HasRecord(ledger, user, today, org)
                 then 1 else 0
  {
    var attended := AttendedUsers(ledger, today, org);
    var absent := AbsentUsers(users, org, attended);
    AbsentUsersKeepUniqueIds(users, org, attended);
    CountMarks(absent, org, today, user, day, o);
    CountAppend(ledger, Marks(absent, org, today), user, day, o);
    if IsMember(users, user, org) && !HasRecord(ledger, user, today, org) {
      var j :| 0 <= j < |users| && users[j].id == user && users[j].organization == org;
      assert users[j] in absent;
    }
    if exists x | x in absent :: x.id == user {
      var x :| x in absent && x.id == user;
      var j :| 0 <= j < |users| && users[j] == x;
    }
    if |absent| == 0 {
      assert Marks(absent, org, today) == [];
      assert ledger + [] == ledger;
    }
  }

  /**
   * The sweep adds exactly one record for every absentee and nothing for anyone else:
   * on every day, for every user and organisation, the count of records grows by one
   * precisely for today's absentees.
   */
  lemma {:induction false} SweepCounts(ledger: seq<Record>, orgs: seq<Organization>, users: seq<User>, today: Millis,
                                       user: UserId, day: Millis, org: OrgId)
    requires UniqueIds(users)
    ensures Count(Sweep(ledger, orgs, users, today), user, day, org)
            == Count(ledger, user, day, org)
               + if day == today && Absentee(ledger, orgs, users, today, user, org) then 1 else 0
    decreases |orgs|
  {
    if orgs != [] {
      var o0 := orgs[0].id;
      var next := SweepOrganization(ledger, o0, users, today);
      SweepCounts(next, orgs[1..], users, today, user, day, org);
      CountAfterOrganization(ledger, o0, users, today, user, day, org);
      CountAfterOrganization(ledger, o0, users, today, user, today, org);
      CountPositive(ledger, user, today, org);
      CountPositive(next, user, today, org);
      assert Listed(orgs, org) <==> org == o0 || Listed(orgs[1..], org) by {
        if Listed(orgs, org) && org != o0 {
          var k :| 0 <= k < |orgs| && orgs[k].id == org;
          assert orgs[1..][k - 1].id == org;
        }
        if Listed(orgs[1..], org) {
          var k :| 0 <= k < |orgs[1..]| && orgs[1..][k].id == org;
          assert orgs[k + 1].id == org;
        }
      }
    }
  }

  /** After a sweep, every member of every swept organisation has a record for today. */
  lemma {:induction false} SweepCompletes(ledger: seq<Record>, orgs: seq<Organization>, users: seq<User>, today: Millis)
    ensures var r := Sweep(ledger, orgs, users, today);
            forall k, j | 0 <= k < |orgs| && 0 <= j < |users| && users[j].organization == orgs[k].id ::
              HasRecord(r, users[j].id, today, orgs[k].id)
    decreases |orgs|
  {
    if orgs != [] {
      var next := SweepOrganization(ledger, orgs[0].id, users, today);
      var r := Sweep(next, orgs[1..], users, today);
      SweepCompletes(next, orgs[1..], users, today);
      forall k, j | 0 <= k < |orgs| && 0 <= j < |users| && users[j].organization == orgs[k].id
        ensures HasRecord(r, users[j].id, today, orgs[k].id)
      {
        if k == 0 {
          OrganizationCovers(ledger, orgs[0].id, users, today, j);
          HasRecordExtends(next, r, users[j].id, today, orgs[0].id);
        } else {
          assert orgs[1..][k - 1] == orgs[k];
        }
      }
    }
  }

  /** After one organisation pass, each of its members has a record for today. */
  lemma OrganizationCovers(ledger: seq<Record>, org: OrgId, users: seq<User>, today: Millis, j: nat)
    requires j < |users| && users[j].organization == org
    ensures HasRecord(SweepOrganization(ledger, org, users, today), users[j].id, today, org)
  {
    var u := users[j];
    var r := SweepOrganization(ledger, org, users, today);
    if HasRecord(ledger, u.id, today, org) {
      HasRecordExtends(ledger, r, u.id, today, org);
    } else {
      var absent := AbsentUsers(users, org, AttendedUsers(ledger, today, org));
      assert u in absent;
      var i :| 0 <= i < |absent| && absent[i] == u;
      assert r[|ledger| + i] == MarkAbsent(u.id, org, today);
    }
  }

  /** A sweep over a ledger in which every member already has a record changes nothing. */
  lemma {:induction false} SweepOfCoveredLedger(ledger: seq<Record>, orgs: seq<Organization>, users: seq<User>, today: Millis)
    requires forall k, j | 0 <= k < |orgs| && 0 <= j < |users| && users[j].organization == orgs[k].id ::
               HasRecord(ledger, users[j].id, today, orgs[k].id)
    ensures Sweep(ledger, orgs, users, today) == ledger
    decreases |orgs|
  {
    if orgs != [] {
      var org := orgs[0].id;
      var absent := AbsentUsers(users, org, AttendedUsers(ledger, today, org));
      assert SweepOrganization(ledger, org, users, today) == ledger;
      forall k, j | 0 <= k < |orgs[1..]| && 0 <= j < |users| && users[j].organization == orgs[1..][k].id
        ensures HasRecord(ledger, users[j].id, today, orgs[1..][k].id)
      {
        assert orgs[1..][k] == orgs[k + 1];
      }
      SweepOfCoveredLedger(ledger, orgs[1..], users, today);
    }
  }

  /** A second sweep on the same day inserts nothing. */
  lemma SweepIdempotent(ledger: seq<Record>, orgs: seq<Organization>, users: seq<User>, today: Millis)
    ensures var r := Sweep(ledger, orgs, users, today);
            Sweep(r, orgs, users, today) == r
  {
    SweepCompletes(ledger, orgs, users, today);
    SweepOfCoveredLedger(Sweep(ledger, orgs, users, today), orgs, users, today);
  }

  /** At most one record per user and organisation on `day`. */
  ghost predicate AtMostOnePerDay(ledger: seq<Record>, day: Millis) {
    forall user, org :: Count(ledger, user, day, org) <= 1
  }

  /** The sweep keeps "at most one record per user, organisation and day" for today. */
  lemma SweepKeepsAtMostOne(ledger: seq<Record>, orgs: seq<Organization>, users: seq<User>, today: Millis)
    requires UniqueIds(users)
    requires AtMostOnePerDay(ledger, today)
    ensures AtMostOnePerDay(Sweep(ledger, orgs, users, today), today)
  {
    var r := Sweep(ledger, orgs, users, today);
    forall user, org ensures Count(r, user, today, org) <= 1 {
      SweepCounts(ledger, orgs, users, today, user, today, org);
      CountPositive(ledger, user, today, org);
    }
  }

  /**
   * The scheduled task. One try/catch wraps the whole organisation loop: when a store
   * call throws while organisation `k` is processed (before its insert), the organisations
   * already done keep their records, the rest are skipped, and nothing escapes.
   */
  function SweepTask(ledger: seq<Record>, orgs: seq<Organization>, users: seq<User>, today: Millis,
                     failAt: Option<nat>): (r: seq<Record>)
    ensures ledger <= r
    ensures forall i | |ledger| <= i < |r| :: IsAbsentMark(r[i], today)
    ensures failAt.Some? ==> forall i | |ledger| <= i < |r| :: Listed(orgs[..Min(failAt.value, |orgs|)], r[i].organization)
    ensures forall o, j | 0 <= o < |orgs| && (failAt.None? || o < failAt.value)
                          && 0 <= j < |users| && users[j].organization == orgs[o].id ::
              HasRecord(r, users[j].id, today, orgs[o].id)
    ensures failAt.Some? && failAt.value < |orgs| ==> r == Sweep(ledger, orgs[..failAt.value], users, today)
    ensures failAt.None? || failAt.value >= |orgs| ==> r == Sweep(ledger, orgs, users, today)
  {
    if failAt.Some? && failAt.value < |orgs| then
      var done := orgs[..failAt.value];
      SweepCompletes(ledger, done, users, today);
      assert forall o | 0 <= o < failAt.value :: done[o] == orgs[o];
      Sweep(ledger, done, users, today)
    else
      assert orgs[..|orgs|] == orgs;
      SweepCompletes(ledger, orgs, users, today);
      Sweep(ledger, orgs, users, today)
  }

  function Min(a: int, b: int): int {
    if a <= b then a else b
  }

  /** The callback: `today` is the run instant truncated to UTC midnight. */
  function RunSweepOnce(now: Millis, ledger: seq<Record>, orgs: seq<Organization>, users: seq<User>,
                        failAt: Option<nat>): (r: seq<Record>)
    ensures ledger <= r
    ensures forall i | |ledger| <= i < |r| ::
      IsAbsentMark(r[i], r[i].date) && r[i].date % MsPerDay == 0 && r[i].date <= now < r[i].date + MsPerDay
    ensures forall o, j | 0 <= o < |orgs| && (failAt.None? || o < failAt.value)
                          && 0 <= j < |users| && users[j].organization == orgs[o].id ::
              HasRecord(r, users[j].id, UtcMidnight(now), orgs[o].id)
  {
    var today := UtcMidnight(now);
    SweepTask(ledger, orgs, users, today, failAt)
  }

  /** A user document with only the two paths the sweep reads set to anything of interest. */
  function UserOf(id: UserId, org: OrgId): (u: User)
    ensures u.id == id && u.organization == org
  {
    UserModel.User(id, None, "user@example.org", "9876543210", "Field Worker", "avatar.png",
                   "volunteer", "hash", UserModel.DeviceInfo(None, None), false,
                   UserModel.Leaves(None, None), UserModel.UserRole, org, None)
  }

  /** An organisation document whose populated `users` list is `members`. */
  function OrganizationOf(id: OrgId, members: seq<UserId>): (o: Organization)
    ensures o.id == id && o.users == members
  {
    OrgModel.Organization(id, "ngo", None, "logo.png", None, members, "09:30", "17:00",
                          ["Monday"], Some(OrgModel.OrgLeaves(0, 0)), [])
  }

  function Punch(user: UserId, org: OrgId, day: Millis, status: Status): Record {
    Record(day, user, org, Some(day), None, Some("photo.jpg"), None, None, None, status)
  }

  /**
   * Attendance is checked per organisation: a record for the same user and day under
   * another organisation does not stop the mark.
   */
  lemma OtherOrganizationsRecordDoesNotCount(today: Millis)
    ensures var ledger := [Punch(1, 20, today, Present)];
            Sweep(ledger, [OrganizationOf(10, [1])], [UserOf(1, 10)], today)
              == ledger + [MarkAbsent(1, 10, today)]
  {
    var ledger := [Punch(1, 20, today, Present)];
    var users := [UserOf(1, 10)];
    assert AttendedUsers(ledger, today, 10) == {};
    assert AbsentUsers(users, 10, {}) == users;
  }

  /**
   * Membership comes from each user's own `organization` path, not from the populated
   * `users` list of the organisation: a listed user of another organisation gets nothing,
   * an unlisted member gets a mark.
   */
  lemma MembershipFromUserDocument(today: Millis)
    ensures Sweep([], [OrganizationOf(10, [2])], [UserOf(2, 20), UserOf(3, 10)], today)
              == [MarkAbsent(3, 10, today)]
  {
    var users := [UserOf(2, 20), UserOf(3, 10)];
    assert AttendedUsers([], today, 10) == {};
    assert AbsentUsers(users, 10, {}) == [UserOf(3, 10)] by {
      assert AbsentUsers(users[1..], 10, {}) == [UserOf(3, 10)] by {
        assert users[1..][1..] == [];
      }
    }
  }

  /**
   * Users A, B, C of one organisation; A punched in late today. The sweep marks B and C
   * only, and a second run the same day adds nothing.
   */
  lemma OneOfThreePunchedIn(today: Millis)
    ensures var users := [UserOf(1, 10), UserOf(2, 10), UserOf(3, 10)];
            var orgs := [OrganizationOf(10, [1, 2, 3])];
            var first := Sweep([Punch(1, 10, today, Late)], orgs, users, today);
            && first == [Punch(1, 10, today, Late), MarkAbsent(2, 10, today), MarkAbsent(3, 10, today)]
            && Sweep(first, orgs, users, today) == first
  {
    var users := [UserOf(1, 10), UserOf(2, 10), UserOf(3, 10)];
    var orgs := [OrganizationOf(10, [1, 2, 3])];
    var ledger := [Punch(1, 10, today, Late)];
    FirstRunOfThree(today);
    SweepIdempotent(ledger, orgs, users, today);
  }

  lemma FirstRunOfThree(today: Millis)
    ensures Sweep([Punch(1, 10, today, Late)], [OrganizationOf(10, [1, 2, 3])],
                  [UserOf(1, 10), UserOf(2, 10), UserOf(3, 10)], today)
            == [Punch(1, 10, today, Late), MarkAbsent(2, 10, today), MarkAbsent(3, 10, today)]
  {
    var users := [UserOf(1, 10), UserOf(2, 10), UserOf(3, 10)];
    var ledger := [Punch(1, 10, today, Late)];
    var orgs := [OrganizationOf(10, [1, 2, 3])];
    OnlyFirstAttended(today);
    TwoAndThreeAbsent();
    var ms := Marks([UserOf(2, 10), UserOf(3, 10)], 10, today);
    assert ms == [MarkAbsent(2, 10, today), MarkAbsent(3, 10, today)];
    var next := SweepOrganization(ledger, 10, users, today);
    assert next == ledger + ms;
    assert Sweep(ledger, orgs, users, today) == Sweep(next, orgs[1..], users, today);
  }

  lemma OnlyFirstAttended(today: Millis)
    ensures AttendedUsers([Punch(1, 10, today, Late)], today, 10) == {1}
  {
    var ledger := [Punch(1, 10, today, Late)];
    assert HasRecord(ledger, 1, today, 10) by {
      assert IsRecordFor(ledger[0], 1, today, 10);
    }
  }

  lemma TwoAndThreeAbsent()
    ensures AbsentUsers([UserOf(1, 10), UserOf(2, 10), UserOf(3, 10)], 10, {1}) == [UserOf(2, 10), UserOf(3, 10)]
  {
    var users := [UserOf(1, 10), UserOf(2, 10), UserOf(3, 10)];
    assert users[1..] == [UserOf(2, 10), UserOf(3, 10)];
    assert users[1..][1..] == [UserOf(3, 10)];
    assert users[1..][1..][1..] == [];
  }
}
