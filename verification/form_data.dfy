/**
 * The browser's `FormData` as the two registration forms fill it: an ordered list of
 * entries, each a key with a text value or a file, read back by key on the server.
 */
module FormData {
  import opened Wrappers
  import opened Text
  import opened Responses

  /** A file the user picked; only its identity matters here. */
  datatype FileRef = FileRef(name: string)

  datatype Value = TextValue(text: string) | FileValue(file: FileRef)

  datatype Entry = Entry(key: string, value: Value)

  /**
   * The text of the first entry under `key`. The bodies modelled here never repeat a key,
   * so this is what the multipart parser hands the handler; a repeated plain key would
   * arrive as an array instead.
   */
  function Lookup(entries: seq<Entry>, key: string): (r: Option<string>)
    ensures r.Some? ==> exists i | 0 <= i < |entries| :: entries[i] == Entry(key, TextValue(r.value))
    ensures (forall i | 0 <= i < |entries| :: entries[i].key != key) ==> r.None?
  {
    if entries == [] then None
    else if entries[0].key == key && entries[0].value.TextValue? then Some(entries[0].value.text)
    else
      var r := Lookup(entries[1..], key);
      assert forall i | 1 <= i < |entries| :: entries[i] == entries[1..][i - 1];
      r
  }

  /** Entries under other keys in front of the one sought do not change what is read. */
  lemma {:induction false} LookupSkip(front: seq<Entry>, back: seq<Entry>, key: string)
    requires forall i | 0 <= i < |front| :: front[i].key != key
    ensures Lookup(front + back, key) == Lookup(back, key)
    decreases |front|
  {
    if front != [] {
      assert (front + back)[1..] == front[1..] + back;
      LookupSkip(front[1..], back, key);
    } else {
      assert front + back == back;
    }
  }

  /** The first entry under `key` is the one read. */
  lemma LookupFirst(e: Entry, back: seq<Entry>)
    requires e.value.TextValue?
    ensures Lookup([e] + back, e.key) == Some(e.value.text)
  {
  }

  /** An entry whose key no earlier entry uses is the one read under that key. */
  lemma {:induction false} LookupUnique(entries: seq<Entry>, i: nat)
    requires i < |entries| && entries[i].value.TextValue?
    requires forall j | 0 <= j < i :: entries[j].key != entries[i].key
    ensures Lookup(entries, entries[i].key) == Some(entries[i].value.text)
    decreases i
  {
    if i > 0 {
      var rest := entries[1..];
      assert rest[i - 1] == entries[i];
      assert forall j | 0 <= j < i - 1 :: rest[j] == entries[j + 1];
      LookupUnique(rest, i - 1);
    }
  }

  /** Whether some entry carries a file under `key`. */
  predicate HasFile(entries: seq<Entry>, key: string) {
    exists i | 0 <= i < |entries| :: entries[i].key == key && entries[i].value.FileValue?
  }

  /** `n.toString()` for an integer. */
  function IntToString(n: int): (s: string)
    ensures n >= 0 ==> s == NatToString(n)
    ensures n < 0 ==> s == "-" + NatToString(-n)
  {
    if n < 0 then "-" + NatToString(-n) else NatToString(n)
  }

  /** The text `IntToString` writes reads back as the integer it came from. */
  function ParseInt(s: string): (r: Option<int>)
  {
    if |s| >= 2 && s[0] == '-' && AllDigits(s[1..]) then Some(-(DecimalValue(s[1..]) as int))
    else if |s| >= 1 && AllDigits(s) then Some(DecimalValue(s))
    else None
  }

  lemma IntRoundTrip(n: int)
    ensures ParseInt(IntToString(n)) == Some(n)
  {
    if n < 0 {
      NegativeRoundTrip(-n);
    } else {
      var d := NatToString(n);
      assert !(|d| >= 2 && d[0] == '-') by {
        assert IsDigit(d[0]);
      }
      DecimalRoundTrip(n);
    }
  }

  lemma NegativeRoundTrip(m: nat)
    requires m > 0
    ensures ParseInt("-" + NatToString(m)) == Some(-(m as int))
  {
    var d := NatToString(m);
    var s := "-" + d;
    assert s[1..] == d;
    assert s[0] == '-';
    DecimalRoundTrip(m);
  }

  // ---------------------------------------------------------------- upload.single

  /** No entry carries a file. */
  predicate NoFiles(entries: seq<Entry>) {
    forall i | 0 <= i < |entries| :: entries[i].value.TextValue?
  }

  /** Some entry carries a file under a key other than `field`. */
  predicate StrayFile(entries: seq<Entry>, field: string) {
    exists i | 0 <= i < |entries| :: entries[i].value.FileValue? && entries[i].key != field
  }

  /** Two entries carry a file. */
  predicate TwoFiles(entries: seq<Entry>) {
    exists i, j | 0 <= i < j < |entries| :: entries[i].value.FileValue? && entries[j].value.FileValue?
  }

  /** A non-empty body holds no file exactly when its first entry and the rest hold none. */
  lemma NoFilesCons(entries: seq<Entry>)
    requires entries != []
    ensures NoFiles(entries) <==> entries[0].value.TextValue? && NoFiles(entries[1..])
  {
    assert forall i | 1 <= i < |entries| :: entries[i] == entries[1..][i - 1];
  }

  /** A stray file of a non-empty body is its first entry or a stray file of the rest. */
  lemma StrayFileCons(entries: seq<Entry>, field: string)
    requires entries != []
    ensures StrayFile(entries, field) <==>
      (entries[0].value.FileValue? && entries[0].key != field) || StrayFile(entries[1..], field)
  {
    var rest := entries[1..];
    if StrayFile(rest, field) {
      var k :| 0 <= k < |rest| && rest[k].value.FileValue? && rest[k].key != field;
      assert entries[k + 1] == rest[k];
    }
    if StrayFile(entries, field) {
      var k :| 0 <= k < |entries| && entries[k].value.FileValue? && entries[k].key != field;
      if k > 0 {
        assert rest[k - 1] == entries[k];
      }
    }
  }

  /** Two files of a non-empty body: the first entry and a file of the rest, or two in the rest. */
  lemma TwoFilesCons(entries: seq<Entry>)
    requires entries != []
    ensures TwoFiles(entries) <==>
      (entries[0].value.FileValue? && !NoFiles(entries[1..])) || TwoFiles(entries[1..])
  {
    var rest := entries[1..];
    if TwoFiles(entries) {
      var i, j :| 0 <= i < j < |entries| && entries[i].value.FileValue? && entries[j].value.FileValue?;
      assert rest[j - 1] == entries[j];
      if i > 0 {
        assert rest[i - 1] == entries[i];
      }
    }
    if TwoFiles(rest) {
      var i, j :| 0 <= i < j < |rest| && rest[i].value.FileValue? && rest[j].value.FileValue?;
      assert entries[i + 1] == rest[i] && entries[j + 1] == rest[j];
    }
    if entries[0].value.FileValue? && !NoFiles(rest) {
      var k :| 0 <= k < |rest| && !rest[k].value.TextValue?;
      assert entries[k + 1] == rest[k];
    }
  }

  /**
   * multer's `upload.single(field)` on a multipart body: the file under `field`, if any, is
   * handed on as `req.file`. A file under any other key, or a second file, is a
   * `MulterError` ("Unexpected field") passed to `next`; with no error middleware mounted
   * in app.js it becomes express's default error reply.
   */
  function SingleFile(entries: seq<Entry>, field: string): (r: Result<Option<FileRef>, Failure>)
    ensures r.Err? ==> r.error == Unhandled
    ensures r.Err? <==> StrayFile(entries, field) || TwoFiles(entries)
    ensures r == Ok(None) <==> NoFiles(entries)
    ensures r.Ok? && r.value.Some? ==> Entry(field, FileValue(r.value.value)) in entries
  {
    if entries == [] then Ok(None)
    else
      var e := entries[0];
      var rest := SingleFile(entries[1..], field);
      NoFilesCons(entries);
      StrayFileCons(entries, field);
      TwoFilesCons(entries);
      assert entries == [e] + entries[1..];
      if e.value.TextValue? then rest
      else if e.key != field then Err(Unhandled)
      else if rest.Err? then rest
      else if rest.value.Some? then Err(Unhandled)
      else Ok(Some(e.value.file))
  }

  /** The file under `field`, alone in the body, is the one handed on. */
  lemma {:induction false} SingleFileFindsIt(front: seq<Entry>, f: FileRef, back: seq<Entry>, field: string)
    requires NoFiles(front) && NoFiles(back)
    ensures SingleFile(front + [Entry(field, FileValue(f))] + back, field) == Ok(Some(f))
    decreases |front|
  {
    var es := front + [Entry(field, FileValue(f))] + back;
    if front == [] {
      assert es[1..] == back;
    } else {
      assert es[0] == front[0];
      assert es[1..] == front[1..] + [Entry(field, FileValue(f))] + back;
      assert NoFiles(front[1..]) by {
        NoFilesCons(front);
      }
      SingleFileFindsIt(front[1..], f, back, field);
    }
  }
}
