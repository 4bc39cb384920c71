/**
 * The parts of Python's `str` that the backend relies on, restricted to ASCII:
 * `strip`, `lower`, `in`, `find`, `split(sep)`, `splitlines`, decimal digits
 * and `%0Nd` formatting.
 */
module Text {
  import opened Wrappers

  // ---------------------------------------------------------------- characters

  /** The ASCII characters `str.isspace` (and so `strip` and regex `\s`) accept. */
  predicate IsSpace(c: char) {
    c == ' ' || (9 <= c as int <= 13) || (28 <= c as int <= 31)
  }

  /** The ASCII line boundaries of `str.splitlines`: \n \v \f \r and \x1c..\x1e. */
  predicate IsLineBreak(c: char) {
    (10 <= c as int <= 13) || (28 <= c as int <= 30)
  }

  predicate IsDigit(c: char) { '0' <= c <= '9' }

  predicate IsLetter(c: char) { ('a' <= c <= 'z') || ('A' <= c <= 'Z') }

  predicate AllDigits(s: string) { forall i :: 0 <= i < |s| ==> IsDigit(s[i]) }

  predicate NoLineBreak(s: string) { forall i :: 0 <= i < |s| ==> !IsLineBreak(s[i]) }

  function LowerChar(c: char): (r: char)
    ensures IsLetter(c) ==> IsLetter(r) && 'a' <= r <= 'z'
    ensures !('A' <= c <= 'Z') ==> r == c
  {
    if 'A' <= c <= 'Z' then (c as int + 32) as char else c
  }

  /** `s.lower()` on ASCII text. */
  function Lower(s: string): (r: string)
    ensures |r| == |s|
    ensures forall i :: 0 <= i < |s| ==> r[i] == LowerChar(s[i])
  {
    seq(|s|, i requires 0 <= i < |s| => LowerChar(s[i]))
  }

  // ---------------------------------------------------------------- stripping

  /** The end of the run of whitespace that starts at `j` (`lstrip`, and regex `\s*`). */
  function SkipSpaces(s: string, j: nat): (k: nat)
    requires j <= |s|
    decreases |s| - j
    ensures j <= k <= |s|
    ensures forall i :: j <= i < k ==> IsSpace(s[i])
    ensures k < |s| ==> !IsSpace(s[k])
  {
    if j < |s| && IsSpace(s[j]) then SkipSpaces(s, j + 1) else j
  }

  /** The start of the run of whitespace, no further left than `lo`, that ends at `j` (`rstrip`). */
  function BackSpaces(s: string, lo: nat, j: nat): (k: nat)
    requires lo <= j <= |s|
    decreases j - lo
    ensures lo <= k <= j
    ensures forall i :: k <= i < j ==> IsSpace(s[i])
    ensures k > lo ==> !IsSpace(s[k - 1])
  {
    if j > lo && IsSpace(s[j - 1]) then BackSpaces(s, lo, j - 1) else j
  }

  /**
   * `s.strip()`: the slice of `s` left after removing whitespace at both ends,
   * starting where the leading whitespace ends.
   */
  function Strip(s: string): (r: string)
    ensures var i := SkipSpaces(s, 0);
      i + |r| <= |s| && r == s[i..i + |r|]
      && (forall k :: 0 <= k < i ==> IsSpace(s[k]))
      && (forall k :: i + |r| <= k < |s| ==> IsSpace(s[k]))
    ensures r != [] ==> !IsSpace(r[0]) && !IsSpace(r[|r| - 1])
  {
    var i := SkipSpaces(s, 0);
    s[i..BackSpaces(s, i, |s|)]
  }

  /** Stripping twice is stripping once. */
  lemma StripIdempotent(s: string)
    ensures Strip(Strip(s)) == Strip(s)
  {
    StripOfTrimmed(Strip(s));
  }

  /** A string with no whitespace at its ends is its own strip. */
  lemma StripOfTrimmed(s: string)
    requires s != [] ==> !IsSpace(s[0]) && !IsSpace(s[|s| - 1])
    ensures Strip(s) == s
  {
    if s != [] {
      assert SkipSpaces(s, 0) == 0;
    }
  }

  /** The end of the run of copies of `c` that starts at `j`. */
  function SkipChar(s: string, c: char, j: nat): (k: nat)
    requires j <= |s|
    decreases |s| - j
    ensures j <= k <= |s|
    ensures forall i :: j <= i < k ==> s[i] == c
    ensures k < |s| ==> s[k] != c
  {
    if j < |s| && s[j] == c then SkipChar(s, c, j + 1) else j
  }

  /** `s.lstrip(c)`: drop every leading copy of `c`. */
  function LStripChar(s: string, c: char): (r: string)
    ensures |r| <= |s| && r == s[|s| - |r|..]
    ensures forall k :: 0 <= k < |s| - |r| ==> s[k] == c
    ensures r != [] ==> r[0] != c
  {
    s[SkipChar(s, c, 0)..]
  }

  // ---------------------------------------------------------------- searching

  predicate OccursAt(s: string, p: string, i: nat) {
    i + |p| <= |s| && s[i..i + |p|] == p
  }

  /** Python's `p in s`. */
  predicate Contains(s: string, p: string) {
    exists i :: 0 <= i <= |s| && OccursAt(s, p, i)
  }

  /** The first occurrence of `p` in `s` at or after `i`. */
  function FindFrom(s: string, p: string, i: nat): (r: Option<nat>)
    decreases |s| + 1 - i
    ensures r.Some? ==> i <= r.value && OccursAt(s, p, r.value)
    ensures r.Some? ==> forall j :: i <= j < r.value ==> !OccursAt(s, p, j)
    ensures r.None? ==> forall j :: i <= j ==> !OccursAt(s, p, j)
  {
    if i + |p| > |s| then None
    else if s[i..i + |p|] == p then Some(i)
    else FindFrom(s, p, i + 1)
  }

  /** The first index at or after `j` that holds `c`. */
  function IndexFrom(s: string, c: char, j: nat): (r: Option<nat>)
    requires j <= |s|
    decreases |s| - j
    ensures r.Some? ==> j <= r.value < |s| && s[r.value] == c
    ensures forall k :: j <= k < (if r.Some? then r.value else |s|) ==> s[k] != c
  {
    if j == |s| then None else if s[j] == c then Some(j) else IndexFrom(s, c, j + 1)
  }

  /** The last index before `j` that holds `c` (`rfind`). */
  function LastIndexBefore(s: string, c: char, j: nat): (r: Option<nat>)
    requires j <= |s|
    decreases j
    ensures r.Some? ==> r.value < j && s[r.value] == c
    ensures forall k :: (if r.Some? then r.value + 1 else 0) <= k < j ==> s[k] != c
  {
    if j == 0 then None else if s[j - 1] == c then Some(j - 1) else LastIndexBefore(s, c, j - 1)
  }

  /** `s.find(p)`, with -1 as None. */
  function Find(s: string, p: string): (r: Option<nat>)
    ensures r.Some? <==> Contains(s, p)
    ensures r.Some? ==> OccursAt(s, p, r.value) && forall j :: 0 <= j < r.value ==> !OccursAt(s, p, j)
  {
    FindFrom(s, p, 0)
  }

  /** A text is at least as long as any pattern it contains. */
  lemma ContainsLength(s: string, p: string)
    requires Contains(s, p)
    ensures |p| <= |s|
  {
  }

  /** Every character of an occurring pattern occurs in the text. */
  lemma ContainsHasChar(s: string, p: string, j: nat)
    requires Contains(s, p) && j < |p|
    ensures p[j] in s
  {
    var i :| 0 <= i <= |s| && OccursAt(s, p, i);
    assert s[i + j] == p[j];
  }

  /** Two first occurrences are the same occurrence. */
  lemma FindUnique(s: string, p: string, k: nat)
    requires OccursAt(s, p, k) && forall j :: 0 <= j < k ==> !OccursAt(s, p, j)
    ensures Find(s, p) == Some(k)
  {
  }

  /** `s.split(p)[0]`: the text before the first occurrence of `p`, or all of `s`. */
  function Before(s: string, p: string): (r: string)
    ensures |r| <= |s| && r == s[..|r|]
  {
    var f := Find(s, p);
    if f.Some? then s[..f.value] else s
  }

  /** An occurrence in a prefix of `s` is an occurrence in `s`. */
  lemma OccursInPrefix(s: string, n: nat, p: string, i: nat)
    requires n <= |s| && OccursAt(s[..n], p, i)
    ensures i + |p| <= n && OccursAt(s, p, i)
  {
    assert s[..n][i..i + |p|] == s[i..i + |p|];
  }

  /** The text before the first occurrence of `p` does not contain `p`. */
  lemma BeforeLacks(s: string, p: string)
    requires p != []
    ensures !Contains(Before(s, p), p)
  {
    var b := Before(s, p);
    forall i | 0 <= i <= |b| ensures !OccursAt(b, p, i) {
      if OccursAt(b, p, i) {
        OccursInPrefix(s, |b|, p, i);
      }
    }
  }

  /** Containment survives appending. */
  lemma ContainsPrefix(a: string, b: string, p: string)
    requires Contains(a, p)
    ensures Contains(a + b, p)
  {
    var i :| 0 <= i <= |a| && OccursAt(a, p, i);
    assert (a + b)[i..i + |p|] == a[i..i + |p|];
    assert OccursAt(a + b, p, i);
  }

  /** A slice of `s` that contains `p` makes `s` contain `p`. */
  lemma ContainsSlice(s: string, i: nat, j: nat, p: string)
    requires i <= j <= |s| && Contains(s[i..j], p)
    ensures Contains(s, p)
  {
    var t := s[i..j];
    var k :| 0 <= k <= |t| && OccursAt(t, p, k);
    forall m | 0 <= m < |p| ensures s[i + k..i + k + |p|][m] == p[m] {
      assert t[k..k + |p|][m] == t[k + m] == s[i + k + m];
    }
    assert s[i + k..i + k + |p|] == p;
    assert OccursAt(s, p, i + k);
  }

  /** An occurrence in `a + b` that starts inside `a` lies inside `a` or straddles into `b`. */
  lemma NoStraddle(a: string, b: string, p: string, j: nat)
    requires !Contains(a, p)
    requires b != [] && forall k :: 0 <= k < |p| ==> p[k] != b[0]
    requires j < |a|
    ensures !OccursAt(a + b, p, j)
  {
    var s := a + b;
    if j + |p| <= |a| {
      assert a[j..j + |p|] == s[j..j + |p|];
      assert !OccursAt(a, p, j);
    } else if j + |p| <= |s| {
      assert s[j..j + |p|][|a| - j] == s[|a|] == b[0];
    }
  }

  /** Occurrences in `b` are occurrences in `a + b`, shifted by `|a|`. */
  lemma ShiftOccurs(a: string, b: string, p: string, j: nat)
    ensures OccursAt(a + b, p, |a| + j) == OccursAt(b, p, j)
  {
    if j + |p| <= |b| { assert (a + b)[|a| + j..|a| + j + |p|] == b[j..j + |p|]; }
  }

  /**
   * If `p` does not occur in `a` and cannot straddle into `b` (because `b`
   * starts with a character `p` lacks), then the first occurrence in `a + b`
   * is the first occurrence in `b`, shifted.
   */
  lemma FindAfter(a: string, b: string, p: string)
    requires p != [] && !Contains(a, p)
    requires b != [] && forall k :: 0 <= k < |p| ==> p[k] != b[0]
    ensures Find(a + b, p) == (match Find(b, p) case Some(k) => Some(|a| + k) case None => None)
  {
    match Find(b, p)
    case Some(k) => FindAfterFound(a, b, p, k);
    case None => FindAfterMissing(a, b, p);
  }

  lemma FindAfterFound(a: string, b: string, p: string, k: nat)
    requires p != [] && !Contains(a, p)
    requires b != [] && forall k :: 0 <= k < |p| ==> p[k] != b[0]
    requires Find(b, p) == Some(k)
    ensures Find(a + b, p) == Some(|a| + k)
  {
    ShiftOccurs(a, b, p, k);
    forall j | 0 <= j < |a| + k ensures !OccursAt(a + b, p, j) {
      if j < |a| { NoStraddle(a, b, p, j); } else { ShiftOccurs(a, b, p, j - |a|); }
    }
    FindUnique(a + b, p, |a| + k);
  }

  lemma FindAfterMissing(a: string, b: string, p: string)
    requires p != [] && !Contains(a, p)
    requires b != [] && forall k :: 0 <= k < |p| ==> p[k] != b[0]
    requires Find(b, p).None?
    ensures Find(a + b, p).None?
  {
    forall j: nat ensures !OccursAt(a + b, p, j) {
      if j < |a| { NoStraddle(a, b, p, j); } else { ShiftOccurs(a, b, p, j - |a|); }
    }
  }

  // ---------------------------------------------------------------- lines

  /** The first line boundary of `s` at or after `i`. */
  function LineBreakFrom(s: string, i: nat): (r: Option<nat>)
    decreases |s| - i
    ensures r.Some? ==> i <= r.value < |s| && IsLineBreak(s[r.value])
    ensures r.Some? ==> forall j :: i <= j < r.value ==> !IsLineBreak(s[j])
    ensures r.None? ==> forall j :: i <= j < |s| ==> !IsLineBreak(s[j])
  {
    if i >= |s| then None
    else if IsLineBreak(s[i]) then Some(i)
    else LineBreakFrom(s, i + 1)
  }

  /** `s.splitlines()`: "\r\n" counts as one break; no empty last line after a final break. */
  function SplitLines(s: string): (lines: seq<string>)
    decreases |s|
    ensures forall i :: 0 <= i < |lines| ==> NoLineBreak(lines[i])
  {
    if s == [] then []
    else
      match LineBreakFrom(s, 0)
      case None => [s]
      case Some(k) =>
        var skip := if s[k] == '\r' && k + 1 < |s| && s[k + 1] == '\n' then 2 else 1;
        [s[..k]] + SplitLines(s[k + skip..])
  }

  /** A non-empty line without a break is split into itself. */
  lemma SplitLinesSingle(a: string)
    requires a != [] && NoLineBreak(a)
    ensures SplitLines(a) == [a]
  {
    assert LineBreakFrom(a, 0).None?;
  }

  /** A break-free line followed by "\n" starts the list of lines. */
  lemma SplitLinesCons(a: string, b: string)
    requires NoLineBreak(a)
    ensures SplitLines(a + "\n" + b) == [a] + SplitLines(b)
  {
    var s := a + "\n" + b;
    assert IsLineBreak(s[|a|]);
    assert forall j :: 0 <= j < |a| ==> s[j] == a[j];
    assert LineBreakFrom(s, 0) == Some(|a|);
    assert s[..|a|] == a;
    assert s[|a| + 1..] == b;
  }

  // ---------------------------------------------------------------- split on a character

  /** `s.split(c)` for a one-character separator: never empty, pieces free of `c`. */
  function Split(s: string, c: char): (pieces: seq<string>)
    decreases |s|
    ensures |pieces| >= 1
    ensures forall i, k :: 0 <= i < |pieces| && 0 <= k < |pieces[i]| ==> pieces[i][k] != c
  {
    match Find(s, [c])
    case None =>
      assert forall k :: 0 <= k < |s| ==> s[k] != c by {
        forall k | 0 <= k < |s| ensures s[k] != c {
          assert !OccursAt(s, [c], k);
        }
      }
      [s]
    case Some(k) =>
      assert forall m :: 0 <= m < k ==> s[m] != c by {
        forall m | 0 <= m < k ensures s[m] != c {
          assert !OccursAt(s, [c], m);
        }
      }
      [s[..k]] + Split(s[k + 1..], c)
  }

  /** Two pieces free of the separator split back apart. */
  lemma SplitPair(a: string, b: string, c: char)
    requires c !in a && c !in b
    ensures Split(a + [c] + b, c) == [a, b]
  {
    var pieces := [a, b];
    assert pieces[1..] == [b];
    assert Join(pieces, c) == a + [c] + b;
    SplitJoin(pieces, c);
  }

  /** A text without the separator is a single piece. */
  lemma SplitNone(s: string, c: char)
    requires c !in s
    ensures Split(s, c) == [s]
  {
    SplitJoin([s], c);
  }

  /** `c.join(pieces)`. */
  function Join(pieces: seq<string>, c: char): string
    requires |pieces| >= 1
  {
    if |pieces| == 1 then pieces[0] else pieces[0] + [c] + Join(pieces[1..], c)
  }

  /** Joining undoes splitting ... */
  lemma {:induction false} JoinSplit(s: string, c: char)
    decreases |s|
    ensures Join(Split(s, c), c) == s
  {
    match Find(s, [c])
    case None =>
    case Some(k) =>
      JoinSplit(s[k + 1..], c);
      CutAt(s, k, c);
  }

  /** A text with `c` at `k` is the text before, `c`, and the text after. */
  lemma CutAt(s: string, k: nat, c: char)
    requires OccursAt(s, [c], k)
    ensures s == s[..k] + [c] + s[k + 1..]
  {
    assert s[k..k + 1] == [c];
  }

  /** ... and splitting undoes joining pieces that do not contain the separator. */
  lemma {:induction false} SplitJoin(pieces: seq<string>, c: char)
    requires |pieces| >= 1
    requires forall i, k :: 0 <= i < |pieces| && 0 <= k < |pieces[i]| ==> pieces[i][k] != c
    decreases |pieces|
    ensures Split(Join(pieces, c), c) == pieces
  {
    var s := Join(pieces, c);
    var p := pieces[0];
    if |pieces| == 1 {
      forall j: nat ensures !OccursAt(s, [c], j) {
        if j < |s| { assert s[j..j + 1][0] == s[j]; }
      }
      assert Find(s, [c]).None?;
    } else {
      assert s == p + [c] + Join(pieces[1..], c);
      forall j | 0 <= j < |p| ensures !OccursAt(s, [c], j) {
        assert s[j..j + 1][0] == s[j] == p[j];
      }
      assert s[|p|..|p| + 1] == [c];
      assert OccursAt(s, [c], |p|);
      FindUnique(s, [c], |p|);
      assert s[..|p|] == p;
      assert s[|p| + 1..] == Join(pieces[1..], c);
      SplitJoin(pieces[1..], c);
    }
  }

  // ---------------------------------------------------------------- decimal numbers

  function DigitChar(d: nat): (c: char)
    requires d < 10
    ensures IsDigit(c) && c as int - '0' as int == d
  {
    ('0' as int + d) as char
  }

  /** `int(s)` for a string of ASCII digits. */
  function Value(s: string): nat
    requires AllDigits(s)
  {
    if s == [] then 0 else Value(s[..|s| - 1]) * 10 + (s[|s| - 1] as int - '0' as int)
  }

  /** The value of a one- or two-digit string. */
  lemma ValueOfShort(t: string)
    requires AllDigits(t) && 1 <= |t| <= 2
    ensures |t| == 1 ==> Value(t) == t[0] as int - '0' as int
    ensures |t| == 2 ==> Value(t) == (t[0] as int - '0' as int) * 10 + (t[1] as int - '0' as int)
  {
    if |t| == 2 {
      assert t[..1][0] == t[0];
    }
  }

  /** The value of a four-digit string. */
  lemma ValueOfFour(t: string)
    requires AllDigits(t) && |t| == 4
    ensures Value(t) == (t[0] as int - '0' as int) * 1000 + (t[1] as int - '0' as int) * 100
                        + (t[2] as int - '0' as int) * 10 + (t[3] as int - '0' as int)
  {
    var u := t[..3];
    assert u[..2] == t[..2] && u[2] == t[2];
    ValueOfShort(t[..2]);
  }

  function Pow10(w: nat): (p: nat)
    ensures p >= 1
  {
    if w == 0 then 1 else 10 * Pow10(w - 1)
  }

  /** The last `w` decimal digits of `n`, leading zeros included. */
  function FixedDigits(n: nat, w: nat): (r: string)
    ensures |r| == w && AllDigits(r)
  {
    if w == 0 then [] else FixedDigits(n / 10, w - 1) + [DigitChar(n % 10)]
  }

  /** `str(n)`. */
  function Decimal(n: nat): (r: string)
    ensures |r| >= 1 && AllDigits(r)
  {
    if n < 10 then [DigitChar(n)] else Decimal(n / 10) + [DigitChar(n % 10)]
  }

  /** `f"{n:0{w}d}"`: `w` digits with leading zeros, or all digits of a wider number. */
  function ZeroPad(n: nat, w: nat): string {
    if n < Pow10(w) then FixedDigits(n, w) else Decimal(n)
  }

  /** Reading back `w` fixed digits gives the number. */
  lemma {:induction false} ValueOfFixedDigits(n: nat, w: nat)
    requires n < Pow10(w)
    ensures Value(FixedDigits(n, w)) == n
  {
    if w > 0 {
      var r := FixedDigits(n, w);
      assert r[..w - 1] == FixedDigits(n / 10, w - 1);
      ValueOfFixedDigits(n / 10, w - 1);
    }
  }

  /** Writing a digit string back at its own width gives the same string. */
  lemma {:induction false} FixedDigitsOfValue(t: string)
    requires AllDigits(t)
    ensures Value(t) < Pow10(|t|)
    ensures FixedDigits(Value(t), |t|) == t
  {
    if t != [] {
      var w := |t|;
      var u := t[..w - 1];
      FixedDigitsOfValue(u);
      var d := t[w - 1] as int - '0' as int;
      assert Value(t) == Value(u) * 10 + d;
      assert Value(t) / 10 == Value(u) && Value(t) % 10 == d;
      assert t == u + [t[w - 1]];
    }
  }

  /** Reading back `str(n)` gives `n`. */
  lemma {:induction false} ValueOfDecimal(n: nat)
    ensures Value(Decimal(n)) == n
  {
    if n >= 10 {
      var r := Decimal(n);
      assert r[..|r| - 1] == Decimal(n / 10);
      ValueOfDecimal(n / 10);
    }
  }

  /** `%0Nd` reads back as the number it formats. */
  lemma ValueOfZeroPad(n: nat, w: nat)
    ensures AllDigits(ZeroPad(n, w)) && Value(ZeroPad(n, w)) == n
  {
    if n < Pow10(w) { ValueOfFixedDigits(n, w); } else { ValueOfDecimal(n); }
  }
}
