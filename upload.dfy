/**
 * The upload middleware of the local-disk revision: files go to "uploads/"
 * under a name made of the arrival time, a random number and the original
 * extension; only files whose extension and mimetype mention an image format
 * are taken, and files above 3 MiB are refused. The clock and the random source
 * are parameters.
 */
module Upload {
  import opened Js
  import opened Strings

  const Destination := "uploads/"
  const MaxFileSize: nat := 3 * 1024 * 1024
  const MsgOnlyImages := "Only images are allowed"
  const MsgTooLarge := "File too large"

  /** The position of the last `c` in `s`. */
  function LastIndexOf(s: string, c: char): (r: Option<nat>)
    ensures r.Some? ==> r.value < |s| && s[r.value] == c && c !in s[r.value + 1..]
    ensures r.None? ==> c !in s
  {
    if s == [] then None
    else if s[|s| - 1] == c then Some(|s| - 1)
    else
      var r := LastIndexOf(s[..|s| - 1], c);
      assert s == s[..|s| - 1] + [s[|s| - 1]];
      if r.Some? then
        assert s[r.value + 1..] == s[..|s| - 1][r.value + 1..] + [s[|s| - 1]];
        r
      else r
  }

  /** `s` without its trailing slashes. */
  function StripSlashes(s: string): (r: string)
    ensures IsPrefix(r, s) && (r == [] || r[|r| - 1] != '/')
  {
    if s != [] && s[|s| - 1] == '/' then StripSlashes(s[..|s| - 1]) else s
  }

  /** What follows the last "/" of `t`, or all of `t` when it has none. */
  function AfterLastSlash(t: string): (r: string)
    ensures '/' !in r
  {
    match LastIndexOf(t, '/')
    case None => t
    case Some(i) => t[i + 1..]
  }

  /** The last path component, trailing slashes ignored. */
  function Basename(s: string): (r: string)
    ensures '/' !in r
  {
    AfterLastSlash(StripSlashes(s))
  }

  /** The last component is the end of the path without its trailing slashes, and a "/" stands before it. */
  lemma BasenameIsLast(s: string)
    ensures IsSuffix(Basename(s), StripSlashes(s))
    ensures |Basename(s)| < |StripSlashes(s)| ==>
      StripSlashes(s)[|StripSlashes(s)| - |Basename(s)| - 1] == '/'
  {
    var t := StripSlashes(s);
    var r := AfterLastSlash(t);
    var o := LastIndexOf(t, '/');
    if o.None? {
      assert r == t;
      assert t[0..] == t;
    } else {
      var i := o.value;
      assert r == t[i + 1..];
      assert |t| - |r| == i + 1;
    }
  }



  /**
   * `path.extname`: from the last "." of the last component to its end, or ""
   * when that component has no ".", its last "." is its first character, or it is "..".
   */
  function Extname(s: string): (r: string)
    ensures r == [] || (r[0] == '.' && '.' !in r[1..] && '/' !in r)
    ensures r != [] ==> IsSuffix(r, Basename(s)) && |r| < |Basename(s)|
  {
    var b := Basename(s);
    match LastIndexOf(b, '.')
    case None => []
    case Some(d) =>
      if d == 0 || b == ".." then []
      else
        var r := b[d..];
        assert r[1..] == b[d + 1..];
        assert '/' !in r by {
          forall j | 0 <= j < |r| ensures r[j] != '/' {
            assert r[j] == b[d + j];
          }
        }
        assert b[|b| - |r|..] == r;
        r
  }

  /** The extension is empty exactly when the last component is ".." or has no "." after its first character. */
  lemma ExtnameEmpty(s: string)
    ensures var b := Basename(s);
      Extname(s) != [] <==> b != ".." && exists d :: 0 < d < |b| && b[d] == '.'
  {
    var b := Basename(s);
    match LastIndexOf(b, '.')
    case None =>
      assert forall d :: 0 < d < |b| ==> b[d] != '.';
    case Some(last) =>
      forall d | last < d < |b| ensures b[d] != '.' {
        assert b[d] == b[last + 1..][d - last - 1];
      }
      if last > 0 {
        assert 0 < last < |b| && b[last] == '.';
      }
  }

  /** The name a file is stored under, given `Date.now()` and `Math.random()`. */
  function Filename(now: nat, random: real, original: string): (r: string)
    requires 0.0 <= random < 1.0
    ensures IsSuffix(Extname(original), r)
    ensures Extname(r) == Extname(original)
  {
    var stem := NatToString(now) + "-" + NatToString(Round(random * 1000000000.0));
    FilenameExtname(stem, Extname(original));
    stem + Extname(original)
  }

  /**
   * The stem of a stored name is the arrival time in decimal, a "-", and the
   * rounded random number in decimal; the original extension follows it.
   */
  lemma FilenameStem(now: nat, random: real, original: string) returns (k: nat)
    requires 0.0 <= random < 1.0
    ensures var r := Filename(now, random, original); var e := |Extname(original)|;
      && 0 < k < |r| - e - 1
      && r[k] == '-'
      && (forall j :: 0 <= j < k ==> '0' <= r[j] <= '9')
      && (forall j :: k < j < |r| - e ==> '0' <= r[j] <= '9')
      && DecimalValue(r[..k]) == now
      && (r[0] == '0' <==> now == 0)
      && DecimalValue(r[k + 1..|r| - e]) == Round(random * 1000000000.0)
  {
    var m := Round(random * 1000000000.0);
    var ext := Extname(original);
    var r := Filename(now, random, original);
    assert r == NatToString(now) + "-" + NatToString(m) + ext;
    k := StemValue(r, now, m, ext);
  }

  /** The text `NatToString(a) + "-" + NatToString(b) + e`, read back. */
  lemma StemValue(r: string, a: nat, b: nat, e: string) returns (k: nat)
    requires r == NatToString(a) + "-" + NatToString(b) + e
    ensures && 0 < k < |r| - |e| - 1
            && r[k] == '-'
            && (forall j :: 0 <= j < k ==> '0' <= r[j] <= '9')
            && (forall j :: k < j < |r| - |e| ==> '0' <= r[j] <= '9')
            && DecimalValue(r[..k]) == a
            && (r[0] == '0' <==> a == 0)
            && DecimalValue(r[k + 1..|r| - |e|]) == b
  {
    var t, u := NatToString(a), NatToString(b);
    k := |t|;
    StemParts(t, '-', u, e);
    NatToStringValue(a);
    NatToStringValue(b);
  }

  /** Where the parts of `t + [x] + u + e` sit, for digit texts t and u. */
  lemma StemParts(t: string, x: char, u: string, e: string)
    requires forall j :: 0 <= j < |t| ==> '0' <= t[j] <= '9'
    requires forall j :: 0 <= j < |u| ==> '0' <= u[j] <= '9'
    ensures var r := t + [x] + u + e;
      && r[..|t|] == t && r[|t|] == x && r[|t| + 1..|r| - |e|] == u
      && (forall j :: 0 <= j < |t| ==> '0' <= r[j] <= '9')
      && (forall j :: |t| < j < |r| - |e| ==> '0' <= r[j] <= '9')
  {
    var r := t + [x] + u + e;
    assert r[..|t|] == t;
    assert r[|t| + 1..|r| - |e|] == u;
    forall j | |t| < j < |r| - |e| ensures '0' <= r[j] <= '9' {
      assert r[j] == u[j - |t| - 1];
    }
  }

  /** `Math.round` on a non-negative number. */
  function Round(x: real): (n: nat)
    requires x >= 0.0
    ensures n as real <= x + 0.5 < n as real + 1.0
  {
    (x + 0.5).Floor
  }

  /** A name without "/" is its own last component. */
  lemma BasenameNoSlash(s: string)
    requires '/' !in s
    ensures Basename(s) == s
  {
    assert StripSlashes(s) == s;
  }

  /** The last "." is found where it is. */
  lemma LastIndexAt(s: string, c: char, d: nat)
    requires d < |s| && s[d] == c
    requires forall j :: d < j < |s| ==> s[j] != c
    ensures LastIndexOf(s, c) == Some(d)
  {
  }

  /** Appending an extension to a stem free of "/" and "." gives a name with that extension. */
  lemma FilenameExtname(stem: string, ext: string)
    requires stem != [] && '/' !in stem && '.' !in stem
    requires ext == [] || (ext[0] == '.' && '.' !in ext[1..] && '/' !in ext)
    ensures IsSuffix(ext, stem + ext)
    ensures Extname(stem + ext) == ext
  {
    var s := stem + ext;
    assert s[|s| - |ext|..] == ext;
    assert '/' !in s by {
      forall i | 0 <= i < |s| ensures s[i] != '/' {
        if i >= |stem| { assert s[i] == ext[i - |stem|]; }
      }
    }
    BasenameNoSlash(s);
    if ext == [] {
      assert s == stem;
    } else {
      forall j | |stem| < j < |s| ensures s[j] != '.' {
        assert s[j] == ext[1..][j - |stem| - 1];
      }
      LastIndexAt(s, '.', |stem|);
      assert s != ".." by { assert s[0] == stem[0]; }
      assert s[|stem|..] == ext;
    }
  }

  /** `/jpeg|jpg|png|gif/.test(s)`: the pattern is not anchored, so any occurrence counts. */
  ghost predicate ImageTypeMatch(s: string) {
    Contains(s, "jpeg") || Contains(s, "jpg") || Contains(s, "png") || Contains(s, "gif")
  }

  /** A decision procedure for ImageTypeMatch. */
  function MatchesImageType(s: string): (b: bool)
    ensures b <==> ImageTypeMatch(s)
  {
    Includes(s, "jpeg") || Includes(s, "jpg") || Includes(s, "png") || Includes(s, "gif")
  }

  /** Any text with "png" somewhere in it matches, whatever surrounds it. */
  lemma MatchIsUnanchored(before: string, after: string)
    ensures MatchesImageType(before + "png" + after)
  {
    var s := before + "png" + after;
    assert s[|before|..|before| + 3] == "png";
    assert OccursAt(s, "png", |before|);
  }

  datatype FilterResult = Accept | Reject(message: string)

  /**
   * `fileFilter`: the lower-cased extension and the mimetype as sent must both
   * mention an image format; otherwise the error "Only images are allowed".
   */
  function FileFilter(originalname: string, mimetype: string): (r: FilterResult)
    ensures r == Accept <==> ImageTypeMatch(ToLower(Extname(originalname))) && ImageTypeMatch(mimetype)
    ensures r != Accept ==> r == Reject(MsgOnlyImages)
  {
    if MatchesImageType(ToLower(Extname(originalname))) && MatchesImageType(mimetype) then Accept
    else Reject(MsgOnlyImages)
  }

  /** The name a file is stored under passes the extension test exactly when the original does. */
  lemma StoredNamePassesFilter(now: nat, random: real, original: string, mimetype: string)
    requires 0.0 <= random < 1.0
    ensures FileFilter(Filename(now, random, original), mimetype) == FileFilter(original, mimetype)
  {
  }

  datatype UploadResult = Stored(destination: string, filename: string) | Rejected(message: string)

  /**
   * What the middleware does with one file: the filter decides first; an
   * accepted file larger than the limit is refused; otherwise it is stored in
   * "uploads/" under its generated name.
   */
  function HandleFile(originalname: string, mimetype: string, size: nat, now: nat, random: real): (r: UploadResult)
    requires 0.0 <= random < 1.0
    ensures r.Stored? <==> FileFilter(originalname, mimetype) == Accept && size <= MaxFileSize
    ensures FileFilter(originalname, mimetype) != Accept ==> r == Rejected(MsgOnlyImages)
    ensures FileFilter(originalname, mimetype) == Accept && size > MaxFileSize ==> r == Rejected(MsgTooLarge)
    ensures r.Stored? ==> r.destination == Destination && r.filename == Filename(now, random, originalname)
    ensures r.Stored? ==> Extname(r.filename) == Extname(originalname)
  {
    match FileFilter(originalname, mimetype)
    case Reject(msg) => Rejected(msg)
    case Accept =>
      if size > MaxFileSize then Rejected(MsgTooLarge)
      else Stored(Destination, Filename(now, random, originalname))
  }

  /** The limit is inclusive: an accepted file of exactly 3 MiB is stored, one byte more is refused. */
  lemma HandleFileLimit(originalname: string, mimetype: string, now: nat, random: real)
    requires 0.0 <= random < 1.0
    requires FileFilter(originalname, mimetype) == Accept
    ensures HandleFile(originalname, mimetype, 3145728, now, random).Stored?
    ensures HandleFile(originalname, mimetype, 3145729, now, random) == Rejected(MsgTooLarge)
  {
  }
}
