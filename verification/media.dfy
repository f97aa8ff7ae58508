/**
 * Media-type classification of camera-app/utils/media.ts: a URI is a video or an image
 * according to the extension `path.extname` reports, compared exactly against two lists.
 */
module Media {
  import opened Wrappers
  import opened Text

  const VideoExtensions: seq<string> := [".mp4", ".m4v", ".mov"]
  const ImageExtensions: seq<string> := [".jpeg", ".jpg", ".png"]

  /** `"video" | "image" | null`. */
  datatype MediaType = Video | Image | NoMedia

  /** `p` with every trailing "/" removed. */
  function StripTrailingSlashes(p: string): (r: string)
    ensures r <= p && (r == [] || r[|r| - 1] != '/')
    ensures forall i | |r| <= i < |p| :: p[i] == '/'
  {
    if p != [] && p[|p| - 1] == '/' then StripTrailingSlashes(p[..|p| - 1]) else p
  }

  /** The last path segment, as POSIX `path` sees it: trailing slashes do not count. */
  function LastSegment(p: string): (seg: string)
    ensures '/' !in seg
    ensures forall c | c in seg :: c in p
    ensures '/' !in p ==> seg == p
  {
    var q := StripTrailingSlashes(p);
    assert forall c | c in q :: c in p by {
      assert q == p[..|q|];
    }
    match LastIndexOf(q, '/')
    case None =>
      assert '/' !in p ==> q == p;
      q
    case Some(k) =>
      assert forall c | c in q[k + 1..] :: c in q;
      q[k + 1..]
  }

  /**
   * The extension of one segment: from its last "." to its end, or "" when it has no dot,
   * when that dot is its first character, or when the segment is "..".
   */
  function SegmentExtension(seg: string): (e: string)
    ensures e == [] || (|e| <= |seg| && e[0] == '.' && '.' !in e[1..] && e == seg[|seg| - |e|..])
    ensures e == [] <==> '.' !in seg || seg == ".." || LastIndexOf(seg, '.') == Some(0)
  {
    match LastIndexOf(seg, '.')
    case None => []
    case Some(d) =>
      if d == 0 || seg == ".." then []
      else
        assert seg[d..][1..] == seg[d + 1..];
        seg[d..]
  }

  /** POSIX `path.extname`: the extension of the last segment. */
  function Extname(p: string): (e: string)
    ensures '/' !in e
  {
    SegmentExtension(LastSegment(p))
  }

  /** `getMediaType`: the video list is consulted first, then the image list. */
  function GetMediaType(uri: string): (r: MediaType)
    ensures r == Video <==> Extname(uri) in VideoExtensions
    ensures r == Image <==> Extname(uri) !in VideoExtensions && Extname(uri) in ImageExtensions
    ensures r == NoMedia <==> Extname(uri) !in VideoExtensions && Extname(uri) !in ImageExtensions
  {
    var e := Extname(uri);
    if e in VideoExtensions then Video else if e in ImageExtensions then Image else NoMedia
  }

  /**
   * The extension of a plain file name is the text from its last dot: a non-empty stem
   * without slashes followed by "." and a suffix without dots or slashes.
   */
  lemma {:induction false} ExtnameOfName(stem: string, suffix: string)
    requires stem != [] && '/' !in stem
    requires suffix != [] && '.' !in suffix && '/' !in suffix
    ensures Extname(stem + "." + suffix) == "." + suffix
  {
    var p := stem + "." + suffix;
    NameHasNoSlash(stem, suffix);
    assert p[|stem|] == '.' && p[|stem| + 1..] == suffix;
    ExtnameAtDot(p, |stem|);
    assert p[|stem|..] == "." + suffix;
  }

  /** A name built from slash-free parts around a dot holds no slash. */
  lemma NameHasNoSlash(stem: string, suffix: string)
    requires '/' !in stem && '/' !in suffix
    ensures '/' !in stem + "." + suffix
  {
    var p := stem + "." + suffix;
    assert forall c | c in p :: c in stem || c == '.' || c in suffix;
  }

  /** The dot at `d` is the last one when none follows it. */
  lemma LastDotIs(p: string, d: nat)
    requires d < |p| && p[d] == '.' && '.' !in p[d + 1..]
    ensures LastIndexOf(p, '.') == Some(d)
  {
    assert '.' in p;
  }

  /**
   * The extension of a slash-free name of three or more characters whose last dot sits
   * past its first character runs from that dot to the end.
   */
  lemma ExtnameAtDot(p: string, d: nat)
    requires '/' !in p && |p| >= 3
    requires 0 < d < |p| && p[d] == '.' && '.' !in p[d + 1..]
    ensures Extname(p) == p[d..]
  {
    LastDotIs(p, d);
    assert LastSegment(p) == p;
    assert p != "..";
  }

  /** Only the text after the last dot counts: "x.tar.mp4" is a video. */
  lemma DoubleExtensionIsVideo()
    ensures GetMediaType("x.tar.mp4") == Video
  {
    var p := "x.tar.mp4";
    assert p[6..] == "mp4";
    ExtnameAtDot(p, 5);
    assert p[5..] == ".mp4";
  }

  /** The comparison is case-sensitive: "a.JPG" is no media type. */
  lemma UpperCaseIsNoMedia()
    ensures GetMediaType("a.JPG") == NoMedia
  {
    var p := "a.JPG";
    assert p[2..] == "JPG";
    ExtnameAtDot(p, 1);
    assert p[1..] == ".JPG";
  }

  /** A name with no dot at all has no extension and no media type. */
  lemma NoDotIsNoMedia(uri: string)
    requires '.' !in uri
    ensures GetMediaType(uri) == NoMedia
  {
    assert '.' !in LastSegment(uri);
  }

  /** A dot-file such as ".mp4" has no extension: its only dot leads the name. */
  lemma DotFileIsNoMedia()
    ensures GetMediaType(".mp4") == NoMedia
  {
    var p := ".mp4";
    assert StripTrailingSlashes(p) == p;
    assert LastIndexOf(p, '/') == None;
    assert LastIndexOf(p, '.') == Some(0) by {
      assert p[1..] == "mp4";
    }
  }

  /** Putting the same dot in front of two strings keeps them equal or different. */
  lemma DotPrefixInjective(a: string, b: string)
    ensures "." + a == "." + b <==> a == b
  {
    if "." + a == "." + b {
      assert a == ("." + a)[1..];
    }
  }

  /** The video list, read without its dots. */
  lemma VideoListWithoutDots(suffix: string)
    ensures "." + suffix in VideoExtensions <==> suffix == "mp4" || suffix == "m4v" || suffix == "mov"
  {
    assert "." + "mp4" == ".mp4";
    assert "." + "m4v" == ".m4v";
    assert "." + "mov" == ".mov";
    assert VideoExtensions == ["." + "mp4", "." + "m4v", "." + "mov"];
    DotPrefixInjective(suffix, "mp4");
    DotPrefixInjective(suffix, "m4v");
    DotPrefixInjective(suffix, "mov");
  }

  /** The image list, read without its dots. */
  lemma ImageListWithoutDots(suffix: string)
    ensures "." + suffix in ImageExtensions <==> suffix == "jpeg" || suffix == "jpg" || suffix == "png"
  {
    assert "." + "jpeg" == ".jpeg";
    assert "." + "jpg" == ".jpg";
    assert "." + "png" == ".png";
    assert ImageExtensions == ["." + "jpeg", "." + "jpg", "." + "png"];
    DotPrefixInjective(suffix, "jpeg");
    DotPrefixInjective(suffix, "jpg");
    DotPrefixInjective(suffix, "png");
  }

  /** Every file named `<stem>.<ext>` is a video exactly when `ext` is one of the video extensions. */
  lemma VideoBySuffix(stem: string, suffix: string)
    requires stem != [] && '/' !in stem
    requires suffix != [] && '.' !in suffix && '/' !in suffix
    ensures GetMediaType(stem + "." + suffix) == Video <==> suffix == "mp4" || suffix == "m4v" || suffix == "mov"
  {
    ExtnameOfName(stem, suffix);
    VideoListWithoutDots(suffix);
  }

  /** Every file named `<stem>.<ext>` is an image exactly when `ext` is one of the image extensions. */
  lemma ImageBySuffix(stem: string, suffix: string)
    requires stem != [] && '/' !in stem
    requires suffix != [] && '.' !in suffix && '/' !in suffix
    ensures GetMediaType(stem + "." + suffix) == Image <==> suffix == "jpeg" || suffix == "jpg" || suffix == "png"
  {
    ExtnameOfName(stem, suffix);
    VideoListWithoutDots(suffix);
    ImageListWithoutDots(suffix);
  }
}
