/**
 * The name search of the dashboard's attendance table,
 * dashboard/src/app/admin/attendance/page.tsx: a photo record is listed when its user's
 * full name, lower-cased, contains the lower-cased query.
 */
module AttendanceSearch {
  import opened Text
  import opened Lists

  /** The fields of a listed photo record the table shows. */
  datatype PhotoRecord = PhotoRecord(id: string, fullName: string, email: string, photoType: string, timestamp: string)

  /** The test the filter applies to one record. */
  predicate Matches(r: PhotoRecord, query: string) {
    Contains(Lower(r.fullName), Lower(query))
  }

  /** `attendanceData.filter(...)`: the matching records, in the order they arrived. */
  function Filter(records: seq<PhotoRecord>, query: string): (shown: seq<PhotoRecord>)
    ensures |shown| <= |records|
    ensures forall r :: r in shown <==> r in records && Matches(r, query)
  {
    if records == [] then []
    else
      var rest := Filter(records[1..], query);
      assert forall r | r in records :: r == records[0] || r in records[1..];
      if Matches(records[0], query) then [records[0]] + rest else rest
  }

  /** The records shown keep the order of the records fetched. */
  lemma {:induction false} FilterIsSubsequence(records: seq<PhotoRecord>, query: string)
    ensures IsSubsequence(Filter(records, query), records)
    decreases |records|
  {
    if records != [] {
      FilterIsSubsequence(records[1..], query);
      var rest := Filter(records[1..], query);
      if Matches(records[0], query) {
        assert ([records[0]] + rest)[1..] == rest;
      } else if rest != [] {
        assert rest[0] in rest;
        assert rest[0] != records[0];
      }
    }
  }

  /** An empty search box shows every record. */
  lemma {:induction false} EmptyQueryShowsAll(records: seq<PhotoRecord>)
    ensures Filter(records, "") == records
    decreases |records|
  {
    if records != [] {
      ContainsEmpty(Lower(records[0].fullName));
      EmptyQueryShowsAll(records[1..]);
    }
  }

  /** The search ignores the case of the query. */
  lemma {:induction false} QueryCaseIgnored(records: seq<PhotoRecord>, query: string)
    ensures Filter(records, query) == Filter(records, Lower(query))
    decreases |records|
  {
    LowerIdempotent(query);
    if records != [] {
      QueryCaseIgnored(records[1..], query);
    }
  }

  /** A record that matches a longer query matches every prefix of it. */
  lemma MatchesPrefix(r: PhotoRecord, query: string, more: string)
    requires Matches(r, query + more)
    ensures Matches(r, query)
  {
    LowerAppend(query, more);
    ContainsPrefix(Lower(r.fullName), Lower(query), Lower(more));
  }

  /**
   * Typing more narrows the list: the records shown for `query + more` are those shown for
   * `query` that also match the longer query, so they are a subsequence of them.
   */
  lemma {:induction false} TypingNarrows(records: seq<PhotoRecord>, query: string, more: string)
    ensures Filter(records, query + more) == Filter(Filter(records, query), query + more)
    ensures IsSubsequence(Filter(records, query + more), Filter(records, query))
    decreases |records|
  {
    if records != [] {
      TypingNarrows(records[1..], query, more);
      if Matches(records[0], query + more) {
        MatchesPrefix(records[0], query, more);
      }
      var rest := Filter(records[1..], query);
      if Matches(records[0], query) {
        assert ([records[0]] + rest)[1..] == rest;
      }
    }
    FilterIsSubsequence(Filter(records, query), query + more);
  }
}
