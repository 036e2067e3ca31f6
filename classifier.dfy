/** Reading the retrieval plan off a question: explicit record identifiers
    (`extrair_ids`) and the size of a semantic search (`_escolher_top_k`). */
module Classifier {
  import opened Text

  /** At most this many identifiers are looked up per question. */
  const MaxIds := 3

  /** Keywords that qualify a year-like number as an identifier. */
  const IdKeywords: seq<string> := ["id", "ponto", "risco", "deficiência"]

  /** The length of the run of digits starting at `i`. */
  function DigitRun(s: string, i: nat): (n: nat)
    requires i <= |s|
    ensures i + n <= |s|
    ensures forall k :: i <= k < i + n ==> IsDigit(s[k])
    ensures i + n < |s| ==> !IsDigit(s[i + n])
    decreases |s| - i
  {
    if i < |s| && IsDigit(s[i]) then 1 + DigitRun(s, i + 1) else 0
  }

  /** `s[i..j]` is a match of `\b\d{3,6}\b`: three to six digits with no word
      character on either side. */
  predicate IsIdToken(s: string, i: nat, j: nat) {
    i + 3 <= j <= i + 6 && j <= |s|
    && (forall k :: i <= k < j ==> IsDigit(s[k]))
    && (i == 0 || !IsWordChar(s[i - 1]))
    && (j == |s| || !IsWordChar(s[j]))
  }

  datatype Span = Span(start: nat, end: nat)

  /** The matches `re.findall(r"\b\d{3,6}\b", s)` finds from position `p`, as spans. */
  function TokensFrom(s: string, p: nat): (ts: seq<Span>)
    requires p <= |s|
    decreases |s| - p
  {
    if p == |s| then []
    else
      var n := DigitRun(s, p);
      if n > 0 && IsIdToken(s, p, p + n) then [Span(p, p + n)] + TokensFrom(s, p + n)
      else TokensFrom(s, p + 1)
  }

  /** Every word-bounded run of three to six digits from `p` on is found. */
  lemma {:induction false} TokensComplete(s: string, p: nat, i: nat, j: nat)
    requires p <= i && IsIdToken(s, i, j)
    ensures Span(i, j) in TokensFrom(s, p)
    decreases |s| - p
  {
    if p == i {
      TokenFoundWhereItStarts(s, i, j);
    } else {
      var q := NextScan(s, p, i, j);
      TokensComplete(s, q, i, j);
      FoundLaterFoundNow(s, p, q, Span(i, j));
    }
  }

  /** Where the scan from `p` resumes: after the match at `p`, or one step on. */
  function NextScan(s: string, p: nat, i: nat, j: nat): (q: nat)
    requires p < i && IsIdToken(s, i, j)
    ensures p < q <= i
  {
    var n := DigitRun(s, p);
    RunEndsBeforeToken(s, p, i, j);
    if n > 0 && IsIdToken(s, p, p + n) then p + n else p + 1
  }

  /** What the scan finds from where it resumes, it finds from `p`. */
  lemma FoundLaterFoundNow(s: string, p: nat, q: nat, t: Span)
    requires p < q <= |s|
    requires q == (var n := DigitRun(s, p); if n > 0 && IsIdToken(s, p, p + n) then p + n else p + 1)
    requires t in TokensFrom(s, q)
    ensures t in TokensFrom(s, p)
  {
    TokensFromStep(s, p);
  }

  /** A scan reaching the start of a match reports it. */
  lemma TokenFoundWhereItStarts(s: string, i: nat, j: nat)
    requires IsIdToken(s, i, j)
    ensures Span(i, j) in TokensFrom(s, i)
  {
    DigitRunIsRun(s, i, j);
    TokensFromStep(s, i);
  }

  /** A digit run starting before a match ends before it: the match is preceded by a
      non-word character. */
  lemma RunEndsBeforeToken(s: string, p: nat, i: nat, j: nat)
    requires p < i && IsIdToken(s, i, j)
    ensures p + DigitRun(s, p) <= i
  {
    assert !IsDigit(s[i - 1]);
  }

  /** One step of the scan. */
  lemma TokensFromStep(s: string, p: nat)
    requires p < |s|
    ensures var n := DigitRun(s, p);
            TokensFrom(s, p) == if n > 0 && IsIdToken(s, p, p + n)
                                then [Span(p, p + n)] + TokensFrom(s, p + n)
                                else TokensFrom(s, p + 1)
  {
  }

  lemma {:induction false} DigitRunIsRun(s: string, i: nat, j: nat)
    requires i <= j <= |s|
    requires forall k :: i <= k < j ==> IsDigit(s[k])
    requires j == |s| || !IsDigit(s[j])
    ensures DigitRun(s, i) == j - i
    decreases j - i
  {
    if i < j {
      DigitRunIsRun(s, i + 1, j);
    }
  }

  /** Every span the scan from `p` finds is a match at or after `p`. */
  lemma {:induction false} TokensSound(s: string, p: nat)
    requires p <= |s|
    ensures forall t :: 0 <= t < |TokensFrom(s, p)| ==>
              p <= TokensFrom(s, p)[t].start && IsIdToken(s, TokensFrom(s, p)[t].start, TokensFrom(s, p)[t].end)
    decreases |s| - p
  {
    if p < |s| {
      var n := DigitRun(s, p);
      TokensFromStep(s, p);
      if n > 0 && IsIdToken(s, p, p + n) {
        var rest := TokensFrom(s, p + n);
        TokensSound(s, p + n);
        forall t | 0 <= t < |TokensFrom(s, p)|
          ensures p <= TokensFrom(s, p)[t].start
          ensures IsIdToken(s, TokensFrom(s, p)[t].start, TokensFrom(s, p)[t].end)
        {
          if t > 0 {
            assert TokensFrom(s, p)[t] == rest[t - 1];
          }
        }
      } else {
        TokensSound(s, p + 1);
      }
    }
  }

  /** The spans the scan finds come in text order and do not overlap. */
  lemma {:induction false} TokensFromOrdered(s: string, p: nat)
    requires p <= |s|
    ensures forall a, b :: 0 <= a < b < |TokensFrom(s, p)| ==> TokensFrom(s, p)[a].end <= TokensFrom(s, p)[b].start
    decreases |s| - p
  {
    if p < |s| {
      var n := DigitRun(s, p);
      TokensFromStep(s, p);
      if n > 0 && IsIdToken(s, p, p + n) {
        var ts := TokensFrom(s, p);
        var rest := TokensFrom(s, p + n);
        TokensFromOrdered(s, p + n);
        TokensSound(s, p + n);
        forall a, b | 0 <= a < b < |ts|
          ensures ts[a].end <= ts[b].start
        {
          assert ts[b] == rest[b - 1];
          if a > 0 {
            assert ts[a] == rest[a - 1];
          }
        }
      } else {
        TokensFromOrdered(s, p + 1);
      }
    }
  }

  /** The matches of `\b\d{3,6}\b` in `s`, in text order. */
  function Tokens(s: string): (ts: seq<Span>)
    ensures forall t :: 0 <= t < |ts| ==> IsIdToken(s, ts[t].start, ts[t].end)
    ensures forall a, b :: 0 <= a < b < |ts| ==> ts[a].end <= ts[b].start
  {
    TokensSound(s, 0);
    TokensFromOrdered(s, 0);
    TokensFrom(s, 0)
  }

  /** `rf"(id|ponto|risco|deficiência)[^\d]{0,5}{num}\b"` matches at `i` with the
      `kw`-th keyword and `gap` non-digit characters before the number. */
  predicate QualifiedAt(s: string, num: string, i: nat, kw: nat, gap: nat)
    requires kw < |IdKeywords|
  {
    var g := i + |IdKeywords[kw]|;
    var e := g + gap + |num|;
    StartsAt(s, i, IdKeywords[kw])
    && g + gap <= |s|
    && (forall m :: g <= m < g + gap ==> !IsDigit(s[m]))
    && StartsAt(s, g + gap, num)
    && (e == |s| || !IsWordChar(s[e]))
  }

  /** The `re.search` for a qualifying keyword before `num` succeeds. */
  predicate Qualified(s: string, num: string) {
    exists i, kw, gap :: 0 <= i < |s| && 0 <= kw < |IdKeywords| && 0 <= gap <= 5
                         && QualifiedAt(s, num, i, kw, gap)
  }

  /** A number between 1900 and 2100 reads as a year. */
  predicate YearLike(num: string)
    requires AllDigits(num)
  {
    1900 <= DecimalValue(num) <= 2100
  }

  /** The rule applied to each candidate: year-like numbers need a qualifying keyword. */
  predicate KeepId(s: string, num: string)
    requires AllDigits(num)
  {
    YearLike(num) ==> Qualified(s, num)
  }

  /** The text of token `t`. */
  function TokenText(s: string, t: Span): (num: string)
    requires IsIdToken(s, t.start, t.end)
    ensures AllDigits(num) && 3 <= |num| <= 6
  {
    s[t.start..t.end]
  }

  /** The candidates kept, in the order they were found. */
  function Kept(s: string, ts: seq<Span>): (r: seq<string>)
    requires forall t :: 0 <= t < |ts| ==> IsIdToken(s, ts[t].start, ts[t].end)
    ensures |r| <= |ts|
  {
    if ts == [] then []
    else
      var last := ts[|ts| - 1];
      var init := Kept(s, ts[..|ts| - 1]);
      if KeepId(s, TokenText(s, last)) then init + [TokenText(s, last)] else init
  }

  predicate NoDuplicates(xs: seq<string>) {
    forall a, b :: 0 <= a < b < |xs| ==> xs[a] != xs[b]
  }

  /** `list(dict.fromkeys(xs))`: the first occurrence of each element, in order. */
  function Dedup(xs: seq<string>): (r: seq<string>)
    ensures NoDuplicates(r)
    ensures forall x :: x in r <==> x in xs
    ensures |r| <= |xs|
  {
    if xs == [] then []
    else
      var init := Dedup(xs[..|xs| - 1]);
      var last := xs[|xs| - 1];
      assert forall x :: x in xs <==> x in xs[..|xs| - 1] || x == last;
      if last in init then init else init + [last]
  }

  /** The position of the first occurrence of `x` in `xs`. */
  function FirstPos(xs: seq<string>, x: string): (k: nat)
    requires x in xs
    ensures k < |xs| && xs[k] == x && x !in xs[..k]
  {
    if xs[0] == x then 0
    else
      var k := 1 + FirstPos(xs[1..], x);
      assert xs[..k] == [xs[0]] + xs[1..][..k - 1];
      k
  }

  /** The first occurrence is the only position holding `x` with no `x` before it. */
  lemma {:induction false} FirstPosUnique(xs: seq<string>, x: string, k: nat)
    requires k < |xs| && xs[k] == x && x !in xs[..k]
    ensures FirstPos(xs, x) == k
  {
    if k > 0 {
      assert xs[0] in xs[..k];
      assert xs[1..][..k - 1] == xs[1..k];
      assert xs[..k] == [xs[0]] + xs[1..k];
      FirstPosUnique(xs[1..], x, k - 1);
    }
  }

  lemma FirstPosPrefix(xs: seq<string>, n: nat, x: string)
    requires n <= |xs| && x in xs[..n]
    ensures FirstPos(xs, x) == FirstPos(xs[..n], x)
  {
    var k := FirstPos(xs[..n], x);
    assert xs[..n][..k] == xs[..k];
    FirstPosUnique(xs, x, k);
  }

  /** `dict.fromkeys` keeps elements in the order of their first occurrence. */
  lemma {:induction false} DedupFirstSeenOrder(xs: seq<string>, a: nat, b: nat)
    requires a < b < |Dedup(xs)|
    ensures FirstPos(xs, Dedup(xs)[a]) < FirstPos(xs, Dedup(xs)[b])
    decreases |xs|
  {
    var pre := xs[..|xs| - 1];
    var init := Dedup(pre);
    var last := xs[|xs| - 1];
    var r := Dedup(xs);
    assert r == if last in init then init else init + [last];
    assert r[a] == init[a];
    FirstPosPrefix(xs, |xs| - 1, r[a]);
    if b < |init| {
      assert r[b] == init[b];
      FirstPosPrefix(xs, |xs| - 1, r[b]);
      DedupFirstSeenOrder(pre, a, b);
    } else {
      assert r[b] == last && last !in pre;
      FirstPosUnique(xs, last, |xs| - 1);
    }
  }

  /** `extrair_ids`: candidates of the lower-cased question that pass the year rule,
      without repeats, at most three. */
  method ExtractIds(pergunta: string) returns (ids: seq<string>)
    ensures ids == IdsOf(pergunta)
  {
    var p := Lower(pergunta);
    var validos := KeepCandidates(p, Tokens(p));
    ids := FirstIds(validos);
  }

  /** The loop of `extrair_ids` over the candidates, in order. */
  method KeepCandidates(p: string, candidatos: seq<Span>) returns (validos: seq<string>)
    requires forall t :: 0 <= t < |candidatos| ==> IsIdToken(p, candidatos[t].start, candidatos[t].end)
    ensures validos == Kept(p, candidatos)
  {
    validos := [];
    for i := 0 to |candidatos|
      invariant validos == Kept(p, candidatos[..i])
    {
      var num := TokenText(p, candidatos[i]);
      if YearLike(num) {
        if Qualified(p, num) {
          validos := validos + [num];
        }
      } else {
        validos := validos + [num];
      }
      assert candidatos[..i + 1][..i] == candidatos[..i];
    }
    assert candidatos[..|candidatos|] == candidatos;
  }

  /** The first three distinct candidates. */
  function FirstIds(validos: seq<string>): seq<string> {
    var d := Dedup(validos);
    d[..if |d| < MaxIds then |d| else MaxIds]
  }

  /** Every kept candidate is a token of the question that passes the year rule. */
  lemma {:induction false} KeptAreQualifiedTokens(s: string, ts: seq<Span>, x: string)
    requires forall t :: 0 <= t < |ts| ==> IsIdToken(s, ts[t].start, ts[t].end)
    requires x in Kept(s, ts)
    ensures exists t :: 0 <= t < |ts| && x == TokenText(s, ts[t]) && KeepId(s, x)
    decreases |ts|
  {
    var init := ts[..|ts| - 1];
    if x in Kept(s, init) {
      KeptAreQualifiedTokens(s, init, x);
      var t :| 0 <= t < |init| && x == TokenText(s, init[t]) && KeepId(s, x);
      assert init[t] == ts[t];
    } else {
      assert x == TokenText(s, ts[|ts| - 1]);
    }
  }

  /** Every candidate that passes the year rule is kept. */
  lemma {:induction false} KeptHasEveryQualifiedToken(s: string, ts: seq<Span>, t: nat)
    requires forall u :: 0 <= u < |ts| ==> IsIdToken(s, ts[u].start, ts[u].end)
    requires t < |ts| && KeepId(s, TokenText(s, ts[t]))
    ensures TokenText(s, ts[t]) in Kept(s, ts)
    decreases |ts|
  {
    var init := ts[..|ts| - 1];
    if t < |ts| - 1 {
      assert init[t] == ts[t];
      KeptHasEveryQualifiedToken(s, init, t);
    }
  }

  /** The identifiers of a question: the first three distinct kept candidates. */
  function IdsOf(pergunta: string): (ids: seq<string>)
    ensures |ids| <= MaxIds
  {
    var p := Lower(pergunta);
    FirstIds(Kept(p, Tokens(p)))
  }

  /** What `extrair_ids` returns: at most three distinct word-bounded numbers of
      three to six digits, each either not year-like or qualified by a keyword, in
      the order of their first occurrence. */
  lemma IdsAreQualifiedTokens(pergunta: string)
    ensures |IdsOf(pergunta)| <= MaxIds && NoDuplicates(IdsOf(pergunta))
    ensures forall i :: 0 <= i < |IdsOf(pergunta)| ==>
              var p := Lower(pergunta);
              exists t :: 0 <= t < |Tokens(p)| && IdsOf(pergunta)[i] == TokenText(p, Tokens(p)[t])
                          && KeepId(p, IdsOf(pergunta)[i])
    ensures forall a, b :: 0 <= a < b < |IdsOf(pergunta)| ==>
              var ks := Kept(Lower(pergunta), Tokens(Lower(pergunta)));
              FirstPos(ks, IdsOf(pergunta)[a]) < FirstPos(ks, IdsOf(pergunta)[b])
  {
    var p := Lower(pergunta);
    var ks := Kept(p, Tokens(p));
    var d := Dedup(ks);
    var ids := IdsOf(pergunta);
    forall i | 0 <= i < |ids|
      ensures exists t :: 0 <= t < |Tokens(p)| && ids[i] == TokenText(p, Tokens(p)[t])
                          && KeepId(p, ids[i])
    {
      assert ids[i] == d[i] && d[i] in ks;
      KeptAreQualifiedTokens(p, Tokens(p), ids[i]);
    }
    forall a, b | 0 <= a < b < |ids|
      ensures FirstPos(ks, ids[a]) < FirstPos(ks, ids[b])
    {
      DedupFirstSeenOrder(ks, a, b);
    }
  }

  /** `\b<w>\b` matches at position `i` of `s`. */
  predicate WordAt(s: string, i: nat, w: string) {
    StartsAt(s, i, w)
    && (i == 0 || !IsWordChar(s[i - 1]))
    && (i + |w| == |s| || !IsWordChar(s[i + |w|]))
  }

  predicate HasWord(s: string, w: string) {
    exists i :: 0 <= i <= |s| && WordAt(s, i, w)
  }

  /** `\bquantos?\b`: a quantity question. */
  predicate AsksHowMany(s: string) {
    HasWord(s, "quanto") || HasWord(s, "quantos")
  }

  /** `\b(quais|liste?|lista|mostre?)\b`: a listing question. */
  predicate AsksForList(s: string) {
    HasWord(s, "quais") || HasWord(s, "list") || HasWord(s, "liste") || HasWord(s, "lista")
    || HasWord(s, "mostr") || HasWord(s, "mostre")
  }

  /** `_escolher_top_k`: 50 results for a quantity question, even one that also asks
      for a list; 20 for a listing question; 10 otherwise. */
  function ChooseTopK(pergunta: string): (k: nat)
    ensures k in {10, 20, 50}
    ensures k == 50 <==> AsksHowMany(Lower(pergunta))
    ensures k == 20 <==> !AsksHowMany(Lower(pergunta)) && AsksForList(Lower(pergunta))
  {
    var p := Lower(pergunta);
    if AsksHowMany(p) then 50 else if AsksForList(p) then 20 else 10
  }

  /** Conversely, every word-bounded run of three to six digits of the lower-cased
      question that passes the year rule is among the identifiers, unless the three
      identifiers were all first seen before it. */
  lemma IdsHaveEveryQualifiedToken(pergunta: string, i: nat, j: nat)
    requires IsIdToken(Lower(pergunta), i, j)
    requires KeepId(Lower(pergunta), TokenText(Lower(pergunta), Span(i, j)))
    ensures var p := Lower(pergunta);
            var ks := Kept(p, Tokens(p));
            p[i..j] in ks
            && (p[i..j] in IdsOf(pergunta)
                || (|IdsOf(pergunta)| == MaxIds
                    && forall x :: x in IdsOf(pergunta) ==> FirstPos(ks, x) < FirstPos(ks, p[i..j])))
  {
    var p := Lower(pergunta);
    TokensComplete(p, 0, i, j);
    var ts := Tokens(p);
    var t :| 0 <= t < |ts| && ts[t] == Span(i, j);
    KeptHasEveryQualifiedToken(p, ts, t);
    var ks := Kept(p, ts);
    var d := Dedup(ks);
    var x0 := p[i..j];
    assert x0 in d;
    var a :| 0 <= a < |d| && d[a] == x0;
    if a >= MaxIds {
      forall x | x in IdsOf(pergunta)
        ensures FirstPos(ks, x) < FirstPos(ks, x0)
      {
        var b :| 0 <= b < MaxIds && d[b] == x;
        DedupFirstSeenOrder(ks, b, a);
      }
    }
  }
}
