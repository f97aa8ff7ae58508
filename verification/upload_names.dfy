/**
 * Where middlewares/multer.middleware.js stores an upload and under what name. The clock
 * and the random number are parameters: `year` and `month0` stand for `getFullYear()` and
 * `getMonth()`, `now` for `Date.now()` and `random` for the rounded random suffix.
 */
module UploadNames {
  import opened Wrappers
  import opened Text

  /** `String(month0 + 1).padStart(2, "0")`: the 1-based month, two digits wide. */
  function MonthField(month0: nat): (mm: string)
    requires month0 < 12
    ensures |mm| == 2 && AllDigits(mm)
    ensures DecimalValue(mm) == month0 + 1
    ensures month0 + 1 >= 10 ==> mm == NatToString(month0 + 1)
  {
    var s := NatToString(month0 + 1);
    assert |s| <= 2 by {
      if month0 + 1 >= 10 {
        assert NatToString(month0 + 1) == NatToString((month0 + 1) / 10) + [DigitChar((month0 + 1) % 10)];
      }
    }
    var mm := PadStart(s, 2, '0');
    var z := mm[..|mm| - |s|];
    assert mm == z + s;
    DecimalLeadingZeros(z, s);
    DecimalRoundTrip(month0 + 1);
    mm
  }

  /** The upload directory, `./public/uploads/${year}/${month}`. */
  function UploadDir(year: nat, month0: nat): (dir: string)
    requires month0 < 12
    ensures "./public/uploads/" <= dir
  {
    "./public/uploads/" + NatToString(year) + "/" + MonthField(month0)
  }

  lemma JoinCons(p: string, rest: seq<string>, sep: char)
    requires |rest| >= 1
    ensures Join([p] + rest, sep) == p + [sep] + Join(rest, sep)
  {
    assert ([p] + rest)[1..] == rest;
  }

  /** Five pieces joined with "/", one separator between each neighbouring pair. */
  lemma JoinFive(a: string, b: string, c: string, y: string, m: string)
    ensures Join([a, b, c, y, m], '/') == a + "/" + (b + "/" + (c + "/" + (y + "/" + m)))
  {
    JoinCons(y, [m], '/');
    JoinCons(c, [y, m], '/');
    JoinCons(b, [c, y, m], '/');
    JoinCons(a, [b, c, y, m], '/');
  }

  /** The same, with the upload root's three fixed pieces spelled out. */
  lemma RootPiecesJoin(y: string, m: string)
    ensures Join([".", "public", "uploads", y, m], '/') == "./public/uploads/" + y + "/" + m
  {
    JoinFive(".", "public", "uploads", y, m);
    var tail := y + "/" + m;
    assert "." + "/" + ("public" + "/" + ("uploads" + "/" + tail)) == ("." + "/" + "public" + "/" + "uploads" + "/") + tail;
    assert "." + "/" + "public" + "/" + "uploads" + "/" == "./public/uploads/";
  }

  /** The directory is its five pieces joined with "/". */
  lemma UploadDirIsJoin(year: nat, month0: nat)
    requires month0 < 12
    ensures Join([".", "public", "uploads", NatToString(year), MonthField(month0)], '/') == UploadDir(year, month0)
  {
    RootPiecesJoin(NatToString(year), MonthField(month0));
  }

  /** A string of decimal digits holds no separator. */
  lemma DigitsHaveNoSeparator(s: string, c: char)
    requires AllDigits(s) && !IsDigit(c)
    ensures c !in s
  {
  }

  /** A directory under the upload root splits back into its pieces when the last two hold no "/". */
  lemma RootPiecesSplit(y: string, m: string)
    requires '/' !in y && '/' !in m
    ensures Split("./public/uploads/" + y + "/" + m, '/') == [".", "public", "uploads", y, m]
  {
    var parts := [".", "public", "uploads", y, m];
    RootPiecesJoin(y, m);
    JoinSplit(parts, '/');
  }

  /**
   * The directory reads back: split on "/", its pieces are ".", "public", "uploads", the
   * year and the month, and the last two denote the year and the 1-based month.
   */
  lemma UploadDirReadsBack(year: nat, month0: nat)
    requires month0 < 12
    ensures var parts := Split(UploadDir(year, month0), '/');
      && parts == [".", "public", "uploads", NatToString(year), MonthField(month0)]
      && DecimalValue(parts[3]) == year && DecimalValue(parts[4]) == month0 + 1
  {
    var y := NatToString(year);
    var m := MonthField(month0);
    DigitsHaveNoSeparator(y, '/');
    DigitsHaveNoSeparator(m, '/');
    RootPiecesSplit(y, m);
    DecimalRoundTrip(year);
  }

  /** The stored file name, `originalname + "-" + Date.now() + "-" + random`. */
  function Filename(original: string, now: nat, random: nat): (name: string)
    ensures original + "-" <= name
  {
    original + "-" + NatToString(now) + "-" + NatToString(random)
  }

  /** The last `c` of `a + [c] + b` is the one after `a` when `b` holds none. */
  lemma {:induction false} LastIndexOfBefore(a: string, c: char, b: string)
    requires c !in b
    ensures LastIndexOf(a + [c] + b, c) == Some(|a|)
    decreases |b|
  {
    var s := a + [c] + b;
    if b != [] {
      assert s[|s| - 1] == b[|b| - 1];
      assert s[..|s| - 1] == a + [c] + b[..|b| - 1];
      LastIndexOfBefore(a, c, b[..|b| - 1]);
    }
  }

  /**
   * A stored file name split back from the right: the text after the last "-" is the
   * random suffix, the text between the last two is the timestamp, the rest the original.
   */
  function ParseFilename(name: string): (r: Option<(string, nat, nat)>)
  {
    match LastIndexOf(name, '-')
    case None => None
    case Some(k2) =>
      var random := name[k2 + 1..];
      var head := name[..k2];
      match LastIndexOf(head, '-')
      case None => None
      case Some(k1) =>
        var now := head[k1 + 1..];
        if random == [] || now == [] || !AllDigits(random) || !AllDigits(now) then None
        else Some((head[..k1], DecimalValue(now), DecimalValue(random)))
  }

  /** A name made of any text, "-", digits, "-", digits parses back into its three parts. */
  lemma DashedParts(original: string, t: string, r: string)
    requires t != [] && r != [] && AllDigits(t) && AllDigits(r)
    ensures ParseFilename(original + "-" + t + "-" + r) == Some((original, DecimalValue(t), DecimalValue(r)))
  {
    var head := original + "-" + t;
    var name := original + "-" + t + "-" + r;
    DigitsHaveNoSeparator(t, '-');
    DigitsHaveNoSeparator(r, '-');
    assert name == head + ['-'] + r;
    LastIndexOfBefore(head, '-', r);
    assert name[|head| + 1..] == r && name[..|head|] == head;
    assert head == original + ['-'] + t;
    LastIndexOfBefore(original, '-', t);
    assert head[|original| + 1..] == t && head[..|original|] == original;
  }

  /** Whatever the original name holds, dashes included, the stored name reads back. */
  lemma FilenameReadsBack(original: string, now: nat, random: nat)
    ensures ParseFilename(Filename(original, now, random)) == Some((original, now, random))
  {
    DashedParts(original, NatToString(now), NatToString(random));
    DecimalRoundTrip(now);
    DecimalRoundTrip(random);
  }
}
