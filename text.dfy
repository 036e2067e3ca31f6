/** Character classes and string operations shared by the retrieval pipeline.
    Python's str methods and regular-expression classes are modelled for ASCII
    and Latin-1 text, which covers the Portuguese vocabulary of the system. */
module Text {

  datatype Option<+T> = None | Some(value: T)

  /** `\d` of the regular expressions, restricted to ASCII digits. */
  predicate IsDigit(c: char) {
    '0' <= c <= '9'
  }

  /** Python's `str.isspace`, which is also what `\s` and `str.strip()` use. */
  predicate IsSpace(c: char) {
    var n := c as int;
    (9 <= n <= 13) || (28 <= n <= 32) || n == 0x85 || n == 0xA0 || n == 0x1680
    || (0x2000 <= n <= 0x200A) || n == 0x2028 || n == 0x2029 || n == 0x202F
    || n == 0x205F || n == 0x3000
  }

  predicate IsLetter(c: char) {
    var n := c as int;
    ('a' <= c <= 'z') || ('A' <= c <= 'Z') || n == 0xAA || n == 0xB5 || n == 0xBA
    || (0xC0 <= n <= 0xFF && n != 0xD7 && n != 0xF7)
  }

  /** `\w`: letters, numeric characters and the underscore. */
  predicate IsWordChar(c: char) {
    var n := c as int;
    IsLetter(c) || IsDigit(c) || c == '_' || n == 0xB2 || n == 0xB3 || n == 0xB9
    || (0xBC <= n <= 0xBE)
  }

  /** `str.lower()` on one character. */
  function LowerChar(c: char): (r: char)
    ensures IsDigit(r) <==> IsDigit(c)
  {
    var n := c as int;
    if ('A' <= c <= 'Z') || (0xC0 <= n <= 0xDE && n != 0xD7) then (n + 32) as char else c
  }

  /** The title case of a character, as `str.capitalize()` gives it to the first
      character: one character, except for the sharp s, whose title case is "Ss". */
  function TitleChar(c: char): (t: string)
    ensures |t| == if c == 'ß' then 2 else 1
  {
    var n := c as int;
    if c == 'ß' then "Ss"
    else if ('a' <= c <= 'z') || (0xE0 <= n <= 0xFE && n != 0xF7) then [(n - 32) as char]
    else if n == 0xFF then [0x178 as char]
    else if n == 0xB5 then [0x39C as char]
    else [c]
  }

  function Lower(s: string): (r: string)
    ensures |r| == |s|
    ensures forall i :: 0 <= i < |s| ==> r[i] == LowerChar(s[i])
  {
    seq(|s|, i requires 0 <= i < |s| => LowerChar(s[i]))
  }

  lemma LowerConcat(a: string, b: string)
    ensures Lower(a + b) == Lower(a) + Lower(b)
  {
    assert forall i :: 0 <= i < |a + b| ==> Lower(a + b)[i] == (Lower(a) + Lower(b))[i];
  }

  lemma LowerSlice(s: string, i: nat, j: nat)
    requires i <= j <= |s|
    ensures Lower(s[i..j]) == Lower(s)[i..j]
  {
  }

  /** `str.capitalize()`: the first character title-cased, the rest lower-cased. The
      result is one character longer than the input when it starts with a sharp s. */
  function Capitalize(s: string): (r: string)
    ensures |r| == |s| + (if s != [] && s[0] == 'ß' then 1 else 0)
    ensures s != [] ==> r[..|r| - |s| + 1] == TitleChar(s[0]) && r[|r| - |s| + 1..] == Lower(s[1..])
  {
    if s == [] then [] else TitleChar(s[0]) + Lower(s[1..])
  }

  /** A leading sharp s becomes "Ss". */
  lemma CapitalizeSharpS(s: string)
    requires s != [] && s[0] == 'ß'
    ensures Capitalize(s) == "Ss" + Lower(s[1..])
  {
  }

  /** `w` occurs in `s` starting at position `i`. */
  predicate StartsAt(s: string, i: nat, w: string) {
    i + |w| <= |s| && s[i..i + |w|] == w
  }

  /** A word that starts a text made of `c` then `s` is `c` followed by a word that
      starts `s`. */
  lemma StartsAtTail(c: char, s: string, w: string)
    requires w != [] && StartsAt([c] + s, 0, w)
    ensures c == w[0] && StartsAt(s, 0, w[1..])
  {
    assert ([c] + s)[0..|w|][0] == c;
    forall k | 0 <= k < |w| - 1
      ensures s[k] == w[1..][k]
    {
      assert ([c] + s)[0..|w|][k + 1] == s[k];
    }
  }

  lemma StartsAtCons(c: char, s: string, w: string)
    requires w != [] && c == w[0] && StartsAt(s, 0, w[1..])
    ensures StartsAt([c] + s, 0, w)
  {
    forall k | 0 <= k < |w|
      ensures ([c] + s)[k] == w[k]
    {
      if k > 0 {
        assert s[0..|w| - 1][k - 1] == w[1..][k - 1];
      }
    }
  }

  /** Python's `w in s` for strings. */
  predicate Occurs(s: string, w: string) {
    exists i :: 0 <= i <= |s| && StartsAt(s, i, w)
  }

  /** Each piece of `h + x + y + z + e` after `h` starts where the pieces before it end. */
  lemma PartsInPlace(h: string, x: string, y: string, z: string, e: string)
    ensures var r := h + x + y + z + e;
            |r| == |h| + |x| + |y| + |z| + |e|
            && StartsAt(r, |h|, x) && StartsAt(r, |h| + |x|, y) && StartsAt(r, |h| + |x| + |y|, z)
  {
    var r := h + x + y + z + e;
    assert r[|h|..|h| + |x|] == x;
    assert r[|h| + |x|..|h| + |x| + |y|] == y;
    assert r[|h| + |x| + |y|..|h| + |x| + |y| + |z|] == z;
  }

  /** `r` is a contiguous slice of `s`. */
  ghost predicate IsSliceOf(r: string, s: string) {
    exists i, j :: 0 <= i <= j <= |s| && r == s[i..j]
  }

  lemma SliceOfSlice(r: string, s: string, i: nat, j: nat)
    requires i <= j <= |s|
    requires IsSliceOf(r, s[i..j])
    ensures IsSliceOf(r, s)
  {
    var a, b :| 0 <= a <= b <= j - i && r == s[i..j][a..b];
    assert s[i..j][a..b] == s[i + a..i + b] by {
      forall k | 0 <= k < b - a
        ensures s[i..j][a..b][k] == s[i + a..i + b][k]
      {
        assert s[i..j][a..b][k] == s[i..j][a + k] == s[i + a + k];
      }
    }
  }

  predicate IsBlank(s: string) {
    forall k :: 0 <= k < |s| ==> IsSpace(s[k])
  }

  /** The first position at or after `i` that does not hold whitespace. */
  function SkipSpaces(s: string, i: nat): (j: nat)
    requires i <= |s|
    ensures i <= j <= |s|
    ensures forall k :: i <= k < j ==> IsSpace(s[k])
    ensures j < |s| ==> !IsSpace(s[j])
    decreases |s| - i
  {
    if i < |s| && IsSpace(s[i]) then SkipSpaces(s, i + 1) else i
  }

  /** The end of `s[lo..j]` once its trailing whitespace is dropped. */
  function TrimEnd(s: string, lo: nat, j: nat): (k: nat)
    requires lo <= j <= |s|
    ensures lo <= k <= j
    ensures forall m :: k <= m < j ==> IsSpace(s[m])
    ensures k > lo ==> !IsSpace(s[k - 1])
    decreases j
  {
    if j > lo && IsSpace(s[j - 1]) then TrimEnd(s, lo, j - 1) else j
  }

  /** `str.strip()`: drops leading and trailing whitespace. */
  function Strip(s: string): (r: string)
    ensures r == [] <==> IsBlank(s)
  {
    var a := SkipSpaces(s, 0);
    s[a..TrimEnd(s, a, |s|)]
  }

  /** What `str.strip()` keeps is a slice of its input that neither starts nor ends
      with whitespace. */
  lemma StripIsSlice(s: string)
    ensures IsSliceOf(Strip(s), s)
    ensures Strip(s) != [] ==> !IsSpace(Strip(s)[0]) && !IsSpace(Strip(s)[|Strip(s)| - 1])
  {
    var a := SkipSpaces(s, 0);
    var b := TrimEnd(s, a, |s|);
    assert Strip(s) == s[a..b];
    assert a < |s| ==> b > a;
  }

  /** Python's `str.replace(pat, rep)`: every non-overlapping occurrence, left to right. */
  function ReplaceAll(s: string, pat: string, rep: string): string
    requires pat != []
    decreases |s|
  {
    if |s| < |pat| then s
    else if s[..|pat|] == pat then rep + ReplaceAll(s[|pat|..], pat, rep)
    else [s[0]] + ReplaceAll(s[1..], pat, rep)
  }

  lemma OccursInTail(s: string, w: string)
    requires s != [] && Occurs(s[1..], w)
    ensures Occurs(s, w)
  {
    var i :| 0 <= i <= |s[1..]| && StartsAt(s[1..], i, w);
    assert s[i + 1..i + 1 + |w|] == s[1..][i..i + |w|];
    assert StartsAt(s, i + 1, w);
  }

  lemma OccursInSuffix(s: string, n: nat, w: string)
    requires n <= |s| && Occurs(s[n..], w)
    ensures Occurs(s, w)
  {
    var i :| 0 <= i <= |s[n..]| && StartsAt(s[n..], i, w);
    assert s[i + n..i + n + |w|] == s[n..][i..i + |w|];
    assert StartsAt(s, i + n, w);
  }

  /** Replacing a pattern that does not occur leaves the text unchanged. */
  lemma {:induction false} ReplaceAbsent(s: string, pat: string, rep: string)
    requires pat != [] && !Occurs(s, pat)
    ensures ReplaceAll(s, pat, rep) == s
    decreases |s|
  {
    if |s| >= |pat| {
      assert s[0..0 + |pat|] == s[..|pat|];
      assert !StartsAt(s, 0, pat);
      if Occurs(s[1..], pat) {
        OccursInTail(s, pat);
      }
      ReplaceAbsent(s[1..], pat, rep);
      assert s == [s[0]] + s[1..];
    }
  }

  /** A word that occurs in a text also occurs in any longer word around it. */
  lemma OccursWithin(s: string, w: string, u: string, k: nat)
    requires k + |w| <= |u| && u[k..k + |w|] == w && Occurs(s, u)
    ensures Occurs(s, w)
  {
    var i :| 0 <= i <= |s| && StartsAt(s, i, u);
    var v := s[i..i + |u|];
    forall m | 0 <= m < |w|
      ensures s[i + k..i + k + |w|][m] == w[m]
    {
      assert v[k + m] == w[m];
    }
    assert StartsAt(s, i + k, w);
  }

  /** A text without a word has no longer word around it either. */
  lemma AbsentWithin(s: string, w: string, u: string, k: nat)
    requires k + |w| <= |u| && u[k..k + |w|] == w && !Occurs(s, w)
    ensures !Occurs(s, u)
  {
    if Occurs(s, u) {
      OccursWithin(s, w, u, k);
    }
  }

  /** `sep.join(xs)`. */
  function Join(xs: seq<string>, sep: string): string
    decreases |xs|
  {
    if |xs| == 0 then ""
    else if |xs| == 1 then xs[0]
    else Join(xs[..|xs| - 1], sep) + sep + xs[|xs| - 1]
  }

  /** Every joined element is present, unchanged, in the joined text. */
  lemma {:induction false} JoinKeepsEach(xs: seq<string>, sep: string, i: nat)
    requires i < |xs|
    ensures Occurs(Join(xs, sep), xs[i])
    decreases |xs|
  {
    var j := Join(xs, sep);
    if |xs| == 1 {
      assert StartsAt(j, 0, xs[0]);
    } else if i == |xs| - 1 {
      var k := |j| - |xs[i]|;
      assert StartsAt(j, k, xs[i]);
    } else {
      var init := Join(xs[..|xs| - 1], sep);
      JoinKeepsEach(xs[..|xs| - 1], sep, i);
      var p :| 0 <= p <= |init| && StartsAt(init, p, xs[i]);
      assert j[p..p + |xs[i]|] == init[p..p + |xs[i]|];
      assert StartsAt(j, p, xs[i]);
    }
  }

  lemma JoinSnoc(xs: seq<string>, x: string, sep: string)
    requires xs != []
    ensures Join(xs + [x], sep) == Join(xs, sep) + sep + x
  {
    assert (xs + [x])[..|xs|] == xs;
  }

  /** Python's `s.split("\n")`: the lines of `s`, without their separators. */
  function SplitLines(s: string): (ls: seq<string>)
    ensures ls != []
    decreases |s|
  {
    if s == [] then [""]
    else
      var rest := SplitLines(s[1..]);
      if s[0] == '\n' then [""] + rest else [[s[0]] + rest[0]] + rest[1..]
  }

  /** A text without a newline is one line. */
  lemma {:induction false} SplitSingleLine(s: string)
    requires '\n' !in s
    ensures SplitLines(s) == [s]
    decreases |s|
  {
    if s != [] {
      assert s[0] in s;
      assert forall k :: 0 <= k < |s| - 1 ==> s[1..][k] == s[k + 1];
      SplitSingleLine(s[1..]);
      assert s == [s[0]] + s[1..];
    }
  }

  /** Splitting at a newline splits each side on its own. */
  lemma {:induction false} SplitAtNewline(a: string, b: string)
    ensures SplitLines(a + "\n" + b) == SplitLines(a) + SplitLines(b)
    decreases |a|
  {
    var s := a + "\n" + b;
    if a == [] {
      assert s[1..] == b;
    } else {
      assert s[1..] == a[1..] + "\n" + b;
      SplitAtNewline(a[1..], b);
    }
  }

  /** Joining lines without newlines by `"\n"` and splitting the result gives the
      lines back. */
  lemma {:induction false} SplitJoinedLines(xs: seq<string>)
    requires xs != []
    requires forall i :: 0 <= i < |xs| ==> '\n' !in xs[i]
    ensures SplitLines(Join(xs, "\n")) == xs
    decreases |xs|
  {
    if |xs| == 1 {
      SplitSingleLine(xs[0]);
    } else {
      var init := xs[..|xs| - 1];
      SplitJoinedLines(init);
      SplitAtNewline(Join(init, "\n"), xs[|xs| - 1]);
      SplitSingleLine(xs[|xs| - 1]);
      assert xs == init + [xs[|xs| - 1]];
    }
  }

  function DigitChar(d: nat): (c: char)
    requires d < 10
    ensures IsDigit(c)
  {
    ('0' as int + d) as char
  }

  function DigitValue(c: char): (d: nat)
    requires IsDigit(c)
    ensures d < 10 && DigitChar(d) == c
  {
    c as int - '0' as int
  }

  predicate AllDigits(s: string) {
    forall k :: 0 <= k < |s| ==> IsDigit(s[k])
  }

  /** Python's `int(s)` for a string of decimal digits. */
  function DecimalValue(s: string): nat
    requires AllDigits(s)
    decreases |s|
  {
    if s == [] then 0 else DecimalValue(s[..|s| - 1]) * 10 + DigitValue(s[|s| - 1])
  }

  /** Python's `str(n)` for a natural number. */
  function NatToString(n: nat): (r: string)
    ensures r != [] && AllDigits(r)
    decreases n
  {
    if n < 10 then [DigitChar(n)] else NatToString(n / 10) + [DigitChar(n % 10)]
  }

  /** `int(str(n)) == n`: the decimal rendering reads back as the same number. */
  lemma {:induction false} NatToStringRoundTrip(n: nat)
    ensures DecimalValue(NatToString(n)) == n
    decreases n
  {
    var r := NatToString(n);
    if n >= 10 {
      NatToStringRoundTrip(n / 10);
      assert r[..|r| - 1] == NatToString(n / 10);
    }
  }

  /** The least `k` in `[lo, hi)` satisfying `p`: a leftmost search. */
  function FirstIndex(lo: nat, hi: nat, p: nat -> bool): (r: Option<nat>)
    requires lo <= hi
    ensures r.Some? ==> lo <= r.value < hi && p(r.value)
    ensures r.Some? ==> forall k :: lo <= k < r.value ==> !p(k)
    ensures r.None? ==> forall k :: lo <= k < hi ==> !p(k)
    decreases hi - lo
  {
    if lo == hi then None else if p(lo) then Some(lo) else FirstIndex(lo + 1, hi, p)
  }
}
