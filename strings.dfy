/**
 * The string operations of JavaScript that the application relies on:
 * `split` on a one-character separator, `join`, `trim`, `toLowerCase`,
 * `includes`, `startsWith`, and the decimal rendering of integers that
 * template literals and `+` perform.
 */
module Strings {

  /** JavaScript's `WhiteSpace` and `LineTerminator` code points, which `trim` removes. */
  predicate IsSpace(c: char) {
    c == ' ' || c == '\t' || c == '\n' || c == '\r' || c == '\U{000B}' || c == '\U{000C}'
    || c == '\U{00A0}' || c == '\U{1680}' || ('\U{2000}' <= c <= '\U{200A}')
    || c == '\U{2028}' || c == '\U{2029}' || c == '\U{202F}' || c == '\U{205F}'
    || c == '\U{3000}' || c == '\U{FEFF}'
  }

  predicate IsTrimmed(s: string) {
    s == [] || (!IsSpace(s[0]) && !IsSpace(s[|s| - 1]))
  }

  predicate IsPrefix(p: string, s: string) {
    |p| <= |s| && s[..|p|] == p
  }

  predicate IsSuffix(p: string, s: string) {
    |p| <= |s| && s[|s| - |p|..] == p
  }

  /** `s.startsWith(p)` */
  predicate StartsWith(s: string, p: string) {
    IsPrefix(p, s)
  }

  /** `needle` occurs in `hay` starting at index `i`. */
  predicate OccursAt(hay: string, needle: string, i: int) {
    0 <= i && i + |needle| <= |hay| && hay[i..i + |needle|] == needle
  }

  /** `hay.includes(needle)`: some window of `hay` equals `needle`. */
  ghost predicate Contains(hay: string, needle: string) {
    exists i :: OccursAt(hay, needle, i)
  }

  /** A decision procedure for `Contains`, scanning the windows from the left. */
  function Includes(hay: string, needle: string): (b: bool)
    ensures b <==> Contains(hay, needle)
  {
    if IsPrefix(needle, hay) then
      assert OccursAt(hay, needle, 0);
      true
    else if hay == [] then
      false
    else
      var b := Includes(hay[1..], needle);
      assert b ==> Contains(hay, needle) by {
        if b {
          var i :| OccursAt(hay[1..], needle, i);
          assert hay[i + 1..i + 1 + |needle|] == hay[1..][i..i + |needle|];
          assert OccursAt(hay, needle, i + 1);
        }
      }
      assert Contains(hay, needle) ==> b by {
        if Contains(hay, needle) {
          var i :| OccursAt(hay, needle, i);
          if i > 0 {
            assert hay[1..][i - 1..i - 1 + |needle|] == hay[i..i + |needle|];
            assert OccursAt(hay[1..], needle, i - 1);
          }
        }
      }
      b
  }

  /** JavaScript's `s.split(sep)` for a separator of one character. */
  function Split(s: string, sep: char): (pieces: seq<string>)
    ensures |pieces| >= 1
    ensures forall k :: 0 <= k < |pieces| ==> sep !in pieces[k]
  {
    if s == [] then [[]]
    else if s[0] == sep then [[]] + Split(s[1..], sep)
    else
      var rest := Split(s[1..], sep);
      assert s == [s[0]] + s[1..];
      [[s[0]] + rest[0]] + rest[1..]
  }

  /** A text splits into one piece exactly when it has no separator, and that piece is the text. */
  lemma {:induction false} SplitOne(s: string, sep: char)
    ensures |Split(s, sep)| == 1 <==> sep !in s
    ensures sep !in s ==> Split(s, sep) == [s]
  {
    if s != [] {
      SplitOne(s[1..], sep);
      assert s == [s[0]] + s[1..];
    }
  }

  /** How a split begins: a separator opens an empty piece, any other character joins the first piece. */
  lemma SplitCons(c: char, t: string, sep: char)
    ensures Split([c] + t, sep) ==
      if c == sep then [[]] + Split(t, sep)
      else [[c] + Split(t, sep)[0]] + Split(t, sep)[1..]
  {
    assert ([c] + t)[1..] == t;
  }

  lemma AppendAssoc<T>(x: seq<T>, y: seq<T>, z: seq<T>)
    ensures x + (y + z) == (x + y) + z
  {
  }

  /** Extending the first piece of `l + x` by `c` extends the first piece of `l`. */
  lemma GlueFirst<T>(st: seq<seq<T>>, l: seq<seq<T>>, x: seq<seq<T>>, c: T)
    requires st == l + x && |l| >= 1
    ensures [[c] + st[0]] + st[1..] == ([[c] + l[0]] + l[1..]) + x
  {
    assert st[0] == l[0];
    assert st[1..] == l[1..] + x;
  }

  /** Splitting at one separator splits the two sides separately. */
  lemma {:induction false} SplitAppend(a: string, b: string, sep: char)
    ensures Split(a + [sep] + b, sep) == Split(a, sep) + Split(b, sep)
  {
    if a == [] {
      assert a + [sep] + b == [sep] + b;
      SplitCons(sep, b, sep);
    } else {
      var t := a[1..] + [sep] + b;
      var left := Split(a[1..], sep);
      var right := Split(b, sep);
      var c := a[0];
      assert Split(a + [sep] + b, sep) == if c == sep then [[]] + Split(t, sep)
        else [[c] + Split(t, sep)[0]] + Split(t, sep)[1..] by {
        assert a + [sep] + b == [c] + t;
        SplitCons(c, t, sep);
      }
      assert Split(a, sep) == if c == sep then [[]] + left else [[c] + left[0]] + left[1..] by {
        assert a == [c] + a[1..];
        SplitCons(c, a[1..], sep);
      }
      SplitAppend(a[1..], b, sep);
      if c == sep {
        AppendAssoc([[]], left, right);
      } else {
        GlueFirst(Split(t, sep), left, right, c);
      }
    }
  }

  /** JavaScript's `xs.join(sep)` for a separator of one character. */
  function Join(xs: seq<string>, sep: char): string {
    if |xs| == 0 then []
    else if |xs| == 1 then xs[0]
    else xs[0] + [sep] + Join(xs[1..], sep)
  }

  /** A join starts with the first text and ends with the last; between two texts stands the separator. */
  lemma {:induction false} JoinEnds(xs: seq<string>, sep: char)
    ensures xs == [] ==> Join(xs, sep) == []
    ensures |xs| >= 1 ==> IsPrefix(xs[0], Join(xs, sep)) && IsSuffix(xs[|xs| - 1], Join(xs, sep))
    ensures |xs| >= 2 ==> |Join(xs, sep)| > |xs[0]| && Join(xs, sep)[|xs[0]|] == sep
  {
    if |xs| >= 2 {
      JoinEnds(xs[1..], sep);
      var rest := Join(xs[1..], sep);
      var r := xs[0] + [sep] + rest;
      assert Join(xs, sep) == r;
      assert r[..|xs[0]|] == xs[0];
      assert r[|r| - |rest|..] == rest;
      assert xs[1..][|xs[1..]| - 1] == xs[|xs| - 1];
    }
  }

  /** Joining the pieces of a split gives the original text back. */
  lemma {:induction false} JoinSplit(s: string, sep: char)
    ensures Join(Split(s, sep), sep) == s
  {
    if s == [] {
    } else if s[0] == sep {
      JoinSplit(s[1..], sep);
    } else {
      JoinSplit(s[1..], sep);
      var rest := Split(s[1..], sep);
      if |rest| == 1 {
      } else {
        assert ([[s[0]] + rest[0]] + rest[1..])[1..] == rest[1..];
      }
    }
  }

  /** Splitting a join of separator-free pieces gives the pieces back. */
  lemma {:induction false} SplitJoin(xs: seq<string>, sep: char)
    requires |xs| >= 1
    requires forall k :: 0 <= k < |xs| ==> sep !in xs[k]
    ensures Split(Join(xs, sep), sep) == xs
  {
    if |xs| == 1 {
      SplitOne(xs[0], sep);
    } else {
      SplitJoin(xs[1..], sep);
      SplitPrefix(xs[0], Join(xs[1..], sep), sep);
      assert Join(xs, sep) == xs[0] + ([sep] + Join(xs[1..], sep));
      assert [xs[0]] + xs[1..] == xs;
    }
  }

  /** Splitting `a + [sep] + b`, where `a` has no separator, puts `a` first. */
  lemma {:induction false} SplitPrefix(a: string, b: string, sep: char)
    requires sep !in a
    ensures Split(a + ([sep] + b), sep) == [a] + Split(b, sep)
  {
    var s := a + ([sep] + b);
    if a == [] {
      assert s == [sep] + b;
      assert s[1..] == b;
    } else {
      SplitPrefix(a[1..], b, sep);
      assert s[0] == a[0] && s[1..] == a[1..] + ([sep] + b);
      var rest := Split(s[1..], sep);
      assert rest == [a[1..]] + Split(b, sep);
      assert rest[0] == a[1..] && rest[1..] == Split(b, sep);
      assert [a[0]] + a[1..] == a;
      assert Split(s, sep) == [[s[0]] + rest[0]] + rest[1..];
    }
  }

  /** The first piece of a split is the text before the first separator. */
  lemma {:induction false} FirstPiece(s: string, sep: char)
    ensures var p := Split(s, sep)[0];
      IsPrefix(p, s) && sep !in p && (|p| == |s| || s[|p|] == sep)
  {
    if s != [] && s[0] != sep {
      FirstPiece(s[1..], sep);
      var r := Split(s[1..], sep)[0];
      assert Split(s, sep)[0] == [s[0]] + r;
      assert s[..1 + |r|] == [s[0]] + s[1..][..|r|];
    }
  }

  /** The last piece of a split is the text after the last separator. */
  lemma {:induction false} LastPiece(s: string, sep: char)
    ensures var ps := Split(s, sep); var p := ps[|ps| - 1];
      IsSuffix(p, s) && sep !in p && (|p| == |s| || s[|s| - |p| - 1] == sep)
  {
    if s != [] {
      LastPiece(s[1..], sep);
      SplitOne(s[1..], sep);
      var rest := Split(s[1..], sep);
      var ps := Split(s, sep);
      if s[0] == sep {
        assert ps[|ps| - 1] == rest[|rest| - 1];
      } else if |rest| == 1 {
        assert ps == [[s[0]] + rest[0]];
        assert rest[0] == s[1..];
        assert [s[0]] + s[1..] == s;
        assert ps[|ps| - 1] == s;
      } else {
        assert ps[|ps| - 1] == rest[|rest| - 1];
      }
    }
  }

  function TrimStart(s: string): (r: string)
    ensures IsSuffix(r, s)
    ensures r == [] || !IsSpace(r[0])
    ensures forall i :: 0 <= i < |s| - |r| ==> IsSpace(s[i])
  {
    if s != [] && IsSpace(s[0]) then TrimStart(s[1..]) else s
  }

  function TrimEnd(s: string): (r: string)
    ensures IsPrefix(r, s)
    ensures r == [] || !IsSpace(r[|r| - 1])
    ensures forall i :: |r| <= i < |s| ==> IsSpace(s[i])
  {
    if s != [] && IsSpace(s[|s| - 1]) then TrimEnd(s[..|s| - 1]) else s
  }

  /**
   * `s.trim()`: the longest window of `s` that neither starts nor ends with
   * white space; everything cut away is white space.
   */
  function Trim(s: string): (r: string)
    ensures IsTrimmed(r)
    ensures exists i :: TrimmedAt(s, r, i)
  {
    var t := TrimStart(s);
    var r := TrimEnd(t);
    TrimWindow(s, t, r);
    r
  }

  lemma TrimWindow(s: string, t: string, r: string)
    requires IsSuffix(t, s) && forall k :: 0 <= k < |s| - |t| ==> IsSpace(s[k])
    requires IsPrefix(r, t) && forall k :: |r| <= k < |t| ==> IsSpace(t[k])
    ensures TrimmedAt(s, r, |s| - |t|)
  {
    var i := |s| - |t|;
    assert s[i..][..|r|] == s[i..i + |r|];
    forall k | i + |r| <= k < |s| ensures IsSpace(s[k]) {
      assert s[k] == t[k - i];
    }
  }

  /** `r` is the window of `s` at `i`, and all of `s` outside it is white space. */
  predicate TrimmedAt(s: string, r: string, i: int) {
    && OccursAt(s, r, i)
    && (forall k :: 0 <= k < i ==> IsSpace(s[k]))
    && (forall k :: i + |r| <= k < |s| ==> IsSpace(s[k]))
  }

  /** Trimming an already trimmed text changes nothing. */
  lemma TrimOfTrimmed(s: string)
    requires IsTrimmed(s)
    ensures Trim(s) == s
  {
    assert TrimStart(s) == s;
  }

  /** A character absent from a text is absent from its trimmed form. */
  lemma TrimKeepsAbsent(s: string, c: char)
    requires c !in s
    ensures c !in Trim(s)
  {
    var r := Trim(s);
    var i :| TrimmedAt(s, r, i);
    forall j | 0 <= j < |r| ensures r[j] != c {
      assert r[j] == s[i..i + |r|][j] == s[i + j];
    }
  }

  /** Trimming that changes a text makes it shorter. */
  lemma TrimShorter(s: string)
    ensures Trim(s) != s ==> |Trim(s)| < |s|
  {
    var r := Trim(s);
    var i :| TrimmedAt(s, r, i);
    if |r| >= |s| {
      assert OccursAt(s, r, i);
      assert i == 0 && |r| == |s|;
      assert s[0..|s|] == s;
    }
  }

  /** Lower-casing keeps a trimmed text trimmed: no letter is white space. */
  lemma ToLowerTrimmed(s: string)
    requires IsTrimmed(s)
    ensures IsTrimmed(ToLower(s))
  {
  }

  /** The trimmed form of every element, in order. */
  function TrimAll(xs: seq<string>): (r: seq<string>)
    ensures |r| == |xs|
    ensures forall k :: 0 <= k < |xs| ==> r[k] == Trim(xs[k])
  {
    if xs == [] then [] else [Trim(xs[0])] + TrimAll(xs[1..])
  }

  lemma TrimAllAppend(xs: seq<string>, ys: seq<string>)
    ensures TrimAll(xs + ys) == TrimAll(xs) + TrimAll(ys)
  {
  }

  /** `s.split(sep).map((t) => t.trim())` */
  function SplitTrimmed(s: string, sep: char): (r: seq<string>)
    ensures |r| == |Split(s, sep)| >= 1
    ensures forall k :: 0 <= k < |r| ==> IsTrimmed(r[k]) && sep !in r[k]
  {
    var pieces := Split(s, sep);
    forall k | 0 <= k < |pieces| ensures sep !in Trim(pieces[k]) {
      TrimKeepsAbsent(pieces[k], sep);
    }
    TrimAll(pieces)
  }

  /** Joining trimmed, separator-free texts and splitting and trimming again gives them back. */
  lemma SplitTrimmedJoin(xs: seq<string>, sep: char)
    requires |xs| >= 1
    requires forall k :: 0 <= k < |xs| ==> IsTrimmed(xs[k]) && sep !in xs[k]
    ensures SplitTrimmed(Join(xs, sep), sep) == xs
  {
    SplitJoin(xs, sep);
    forall k | 0 <= k < |xs| ensures Trim(xs[k]) == xs[k] {
      TrimOfTrimmed(xs[k]);
    }
  }

  /** ASCII case mapping; other code points are left as they are. */
  function LowerChar(c: char): char {
    if 'A' <= c <= 'Z' then (c as int + 32) as char else c
  }

  function UpperChar(c: char): char {
    if 'a' <= c <= 'z' then (c as int - 32) as char else c
  }

  /** `s.toLowerCase()`, on ASCII letters. */
  function ToLower(s: string): (r: string)
    ensures |r| == |s|
    ensures forall i :: 0 <= i < |s| ==> r[i] == LowerChar(s[i])
  {
    if s == [] then [] else [LowerChar(s[0])] + ToLower(s[1..])
  }

  /** A lower-cased text holds no capital letter. */
  lemma ToLowerNoUpper(s: string)
    ensures forall i :: 0 <= i < |ToLower(s)| ==> !('A' <= ToLower(s)[i] <= 'Z')
  {
    var r := ToLower(s);
    forall i | 0 <= i < |r| ensures !('A' <= r[i] <= 'Z') {
      assert r[i] == LowerChar(s[i]);
    }
  }

  /** Lower-casing works character by character, so it distributes over concatenation. */
  lemma ToLowerAppend(a: string, b: string)
    ensures ToLower(a + b) == ToLower(a) + ToLower(b)
  {
    var l, r := ToLower(a + b), ToLower(a) + ToLower(b);
    assert |l| == |r|;
    forall i | 0 <= i < |l| ensures l[i] == r[i] {
      if i < |a| {
        assert (a + b)[i] == a[i];
      } else {
        assert (a + b)[i] == b[i - |a|];
      }
    }
  }

  /** A text found in the first part is found in the whole. */
  lemma ContainsLeft(x: string, y: string, q: string)
    requires Contains(x, q)
    ensures Contains(x + y, q)
  {
    var i :| OccursAt(x, q, i);
    assert (x + y)[i..i + |q|] == x[i..i + |q|];
    assert OccursAt(x + y, q, i);
  }

  /** A text found in the second part is found in the whole. */
  lemma ContainsRight(x: string, y: string, q: string)
    requires Contains(y, q)
    ensures Contains(x + y, q)
  {
    var i :| OccursAt(y, q, i);
    assert (x + y)[|x| + i..|x| + i + |q|] == y[i..i + |q|];
    assert OccursAt(x + y, q, |x| + i);
  }

  /** Lower-casing twice is lower-casing once. */
  lemma ToLowerIdempotent(s: string)
    ensures ToLower(ToLower(s)) == ToLower(s)
  {
  }

  function DigitChar(d: nat): char
    requires d < 10
  {
    ('0' as int + d) as char
  }

  /** The value of a decimal digit. */
  function DigitValue(c: char): int {
    c as int - '0' as int
  }

  /** The number a text of decimal digits denotes, most significant digit first. */
  function DecimalValue(s: string): int {
    if s == [] then 0 else DecimalValue(s[..|s| - 1]) * 10 + DigitValue(s[|s| - 1])
  }

  /** Decimal text of a natural number, as JavaScript prints it. */
  function NatToString(n: nat): (r: string)
    ensures |r| >= 1
    ensures forall i :: 0 <= i < |r| ==> '0' <= r[i] <= '9'
  {
    if n < 10 then [DigitChar(n)] else NatToString(n / 10) + [DigitChar(n % 10)]
  }

  /** Decimal text of an integer, with a leading minus sign when negative. */
  function IntToString(n: int): (r: string)
    ensures |r| >= 1
    ensures '/' !in r && '.' !in r && ',' !in r
  {
    if n < 0 then "-" + NatToString(-n) else NatToString(n)
  }

  /** The decimal text of `n` denotes `n` and has no leading zero. */
  lemma {:induction false} NatToStringValue(n: nat)
    ensures DecimalValue(NatToString(n)) == n
    ensures NatToString(n)[0] == '0' <==> n == 0
  {
    if n >= 10 {
      NatToStringValue(n / 10);
      var r := NatToString(n);
      assert r[..|r| - 1] == NatToString(n / 10);
      assert r[0] == NatToString(n / 10)[0];
    }
  }

  /** The text of a negative number is "-" and the digits of its magnitude; otherwise just the digits. */
  lemma IntToStringValue(n: int)
    ensures var r := IntToString(n);
      && (r[0] == '-' <==> n < 0)
      && (n < 0 ==> DecimalValue(r[1..]) == -n && r[1] != '0')
      && (n >= 0 ==> DecimalValue(r) == n && (r[0] == '0' <==> n == 0))
  {
    var r := IntToString(n);
    if n < 0 {
      var m := -n;
      var d := NatToString(m);
      NatToStringValue(m);
      assert r == "-" + d;
      assert r[1..] == d;
    } else {
      NatToStringValue(n);
    }
  }

  /** The code-point order that stands in for `localeCompare`: lexicographic, a prefix first. */
  predicate StrLeq(a: string, b: string) {
    if a == [] then true
    else if b == [] then false
    else if a[0] != b[0] then a[0] < b[0]
    else StrLeq(a[1..], b[1..])
  }

  lemma {:induction false} StrLeqTotal(a: string, b: string)
    ensures StrLeq(a, b) || StrLeq(b, a)
  {
    if a != [] && b != [] && a[0] == b[0] {
      StrLeqTotal(a[1..], b[1..]);
    }
  }

  lemma {:induction false} StrLeqTransitive(a: string, b: string, c: string)
    requires StrLeq(a, b) && StrLeq(b, c)
    ensures StrLeq(a, c)
  {
    if a != [] && b != [] && c != [] && a[0] == b[0] && b[0] == c[0] {
      StrLeqTransitive(a[1..], b[1..], c[1..]);
    }
  }

  lemma {:induction false} StrLeqAntisymmetric(a: string, b: string)
    requires StrLeq(a, b) && StrLeq(b, a)
    ensures a == b
  {
    if a != [] && b != [] {
      StrLeqAntisymmetric(a[1..], b[1..]);
      assert a == [a[0]] + a[1..];
      assert b == [b[0]] + b[1..];
    }
  }
}
