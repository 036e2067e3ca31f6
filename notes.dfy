/** The most recent dated note of an observation field, as
    `extrair_observacao_mais_recente` picks it out of free text. */
module Notes {
  import opened Text

  /** Returned for an empty or blank observation field. */
  const NoNotes := "Sem observacoes"

  /** A `\d{2}/\d{2}/\d{4}` token starts at position `i`. */
  predicate DateTokenAt(s: string, i: nat) {
    i + 10 <= |s|
    && IsDigit(s[i]) && IsDigit(s[i + 1]) && s[i + 2] == '/'
    && IsDigit(s[i + 3]) && IsDigit(s[i + 4]) && s[i + 5] == '/'
    && IsDigit(s[i + 6]) && IsDigit(s[i + 7]) && IsDigit(s[i + 8]) && IsDigit(s[i + 9])
  }

  /** The position of the first newline at or after `j`, or the end of the text. */
  function LineEnd(s: string, j: nat): (k: nat)
    requires j <= |s|
    ensures j <= k <= |s|
    ensures k < |s| ==> s[k] == '\n'
    ensures forall m :: j <= m < k ==> s[m] != '\n'
    decreases |s| - j
  {
    if j == |s| || s[j] == '\n' then j else LineEnd(s, j + 1)
  }

  predicate Increasing(ms: seq<nat>) {
    forall a, b :: 0 <= a < b < |ms| ==> ms[a] < ms[b]
  }

  /** `ms` lists positions of date tokens of `s`, in increasing order. */
  predicate IsMatchList(s: string, ms: seq<nat>) {
    Increasing(ms) && forall k :: 0 <= k < |ms| ==> DateTokenAt(s, ms[k])
  }

  /** The start positions of the matches `re.finditer` yields from position `p` for
      `(\d{2}/\d{2}/\d{4}).*?(?=\n|$)`: the lazy tail ends a match at the next
      newline and the scan resumes there, so at most one date starts on each line. */
  function MatchesFrom(s: string, p: nat): seq<nat>
    requires p <= |s|
    decreases |s| - p
  {
    if p == |s| then []
    else if DateTokenAt(s, p) then [p] + MatchesFrom(s, LineEnd(s, p + 10))
    else MatchesFrom(s, p + 1)
  }

  /** One step of the scan. */
  lemma MatchesFromStep(s: string, p: nat)
    requires p < |s|
    ensures MatchesFrom(s, p) == if DateTokenAt(s, p) then [p] + MatchesFrom(s, LineEnd(s, p + 10))
                                 else MatchesFrom(s, p + 1)
  {
  }

  /** The scan from `p` finds date tokens at or after `p`. */
  lemma {:induction false} MatchesFromAbove(s: string, p: nat)
    requires p <= |s|
    ensures forall k :: 0 <= k < |MatchesFrom(s, p)| ==>
              p <= MatchesFrom(s, p)[k] && DateTokenAt(s, MatchesFrom(s, p)[k])
    decreases |s| - p
  {
    if p < |s| {
      MatchesFromStep(s, p);
      if DateTokenAt(s, p) {
        MatchesFromAbove(s, LineEnd(s, p + 10));
      } else {
        MatchesFromAbove(s, p + 1);
      }
    }
  }

  /** The scan finds the tokens in increasing order. */
  lemma {:induction false} MatchesFromIncreasing(s: string, p: nat)
    requires p <= |s|
    ensures Increasing(MatchesFrom(s, p))
    decreases |s| - p
  {
    if p < |s| {
      MatchesFromStep(s, p);
      if DateTokenAt(s, p) {
        var e := LineEnd(s, p + 10);
        MatchesFromIncreasing(s, e);
        MatchesFromAbove(s, e);
      } else {
        MatchesFromIncreasing(s, p + 1);
      }
    }
  }

  /** The scan skips no token before its first match. */
  lemma {:induction false} MatchesFromFirst(s: string, p: nat)
    requires p <= |s|
    ensures var ms := MatchesFrom(s, p);
            forall q :: p <= q < (if ms == [] then |s| else ms[0]) ==> !DateTokenAt(s, q)
    decreases |s| - p
  {
    if p < |s| {
      MatchesFromStep(s, p);
      if !DateTokenAt(s, p) {
        MatchesFromFirst(s, p + 1);
      }
    }
  }

  /** The scan from `p` finds date tokens at or after `p`, in increasing order, and
      skips no token before its first match. */
  lemma MatchesFromSound(s: string, p: nat)
    requires p <= |s|
    ensures IsMatchList(s, MatchesFrom(s, p))
    ensures forall k :: 0 <= k < |MatchesFrom(s, p)| ==> p <= MatchesFrom(s, p)[k]
    ensures var ms := MatchesFrom(s, p);
            forall q :: p <= q < (if ms == [] then |s| else ms[0]) ==> !DateTokenAt(s, q)
  {
    MatchesFromAbove(s, p);
    MatchesFromIncreasing(s, p);
    MatchesFromFirst(s, p);
  }

  /** Consecutive matches are separated by a newline after the first one's date:
      no line holds two matches. */
  lemma {:induction false} MatchesOnSeparateLines(s: string, p: nat, k: nat)
    requires p <= |s| && k + 1 < |MatchesFrom(s, p)|
    ensures MatchesFrom(s, p)[k] + 10 <= MatchesFrom(s, p)[k + 1]
    ensures exists m :: MatchesFrom(s, p)[k] + 10 <= m < MatchesFrom(s, p)[k + 1] && m < |s| && s[m] == '\n'
    decreases |s| - p
  {
    if !DateTokenAt(s, p) {
      MatchesOnSeparateLines(s, p + 1, k);
      assert MatchesFrom(s, p) == MatchesFrom(s, p + 1);
    } else {
      var e := LineEnd(s, p + 10);
      var rest := MatchesFrom(s, e);
      assert MatchesFrom(s, p) == [p] + rest;
      if k == 0 {
        MatchesFromSound(s, e);
        assert e < |s| && s[e] == '\n' && e < rest[0];
      } else {
        MatchesOnSeparateLines(s, e, k - 1);
      }
    }
  }

  /** The matches of the date pattern in `s`, by start position. */
  function Matches(s: string): (ms: seq<nat>)
    ensures IsMatchList(s, ms)
  {
    MatchesFromSound(s, 0);
    MatchesFrom(s, 0)
  }

  /** The scan misses no match: after each match the next one is the first date token
      from the end of that match's line on, and after the line of the last match there
      is no date token left. */
  lemma {:induction false} MatchesFromComplete(s: string, p: nat, k: nat)
    requires p <= |s| && IsMatchList(s, MatchesFrom(s, p)) && k < |MatchesFrom(s, p)|
    ensures k + 1 < |MatchesFrom(s, p)| ==>
              LineEnd(s, MatchesFrom(s, p)[k] + 10) <= MatchesFrom(s, p)[k + 1]
              && forall q :: LineEnd(s, MatchesFrom(s, p)[k] + 10) <= q < MatchesFrom(s, p)[k + 1] ==>
                   !DateTokenAt(s, q)
    ensures k + 1 == |MatchesFrom(s, p)| ==>
              forall q :: LineEnd(s, MatchesFrom(s, p)[k] + 10) <= q <= |s| ==> !DateTokenAt(s, q)
    decreases |s| - p
  {
    MatchesFromStep(s, p);
    if !DateTokenAt(s, p) {
      MatchesFromComplete(s, p + 1, k);
    } else {
      var e := LineEnd(s, p + 10);
      MatchesFromSound(s, e);
      if k > 0 {
        MatchesFromComplete(s, e, k - 1);
      }
    }
  }

  /** The matches are exactly what `re.finditer` yields: the first date token of the
      text, then, after each match, the first date token from the end of its line on,
      until none is left. */
  lemma MatchesComplete(s: string)
    ensures forall q :: 0 <= q < (if Matches(s) == [] then |s| else Matches(s)[0]) ==> !DateTokenAt(s, q)
    ensures forall k :: 0 <= k < |Matches(s)| - 1 ==>
              LineEnd(s, Matches(s)[k] + 10) <= Matches(s)[k + 1]
              && forall q :: LineEnd(s, Matches(s)[k] + 10) <= q < Matches(s)[k + 1] ==> !DateTokenAt(s, q)
    ensures Matches(s) != [] ==>
              forall q :: LineEnd(s, Matches(s)[|Matches(s)| - 1] + 10) <= q <= |s| ==> !DateTokenAt(s, q)
  {
    var ms := Matches(s);
    MatchesFromSound(s, 0);
    forall k | 0 <= k < |ms| - 1
      ensures LineEnd(s, ms[k] + 10) <= ms[k + 1]
      ensures forall q :: LineEnd(s, ms[k] + 10) <= q < ms[k + 1] ==> !DateTokenAt(s, q)
    {
      MatchesFromComplete(s, 0, k);
    }
    if ms != [] {
      MatchesFromComplete(s, 0, |ms| - 1);
    }
  }

  datatype Date = Date(year: nat, month: nat, day: nat)

  predicate IsLeapYear(y: nat) {
    y % 4 == 0 && (y % 100 != 0 || y % 400 == 0)
  }

  function DaysInMonth(y: nat, m: nat): nat
    requires 1 <= m <= 12
  {
    if m == 2 then (if IsLeapYear(y) then 29 else 28)
    else if m == 4 || m == 6 || m == 9 || m == 11 then 30
    else 31
  }

  /** A date `datetime` accepts: years from 1, months 1-12, days within the month. */
  predicate IsCalendarDate(d: Date) {
    d.year >= 1 && 1 <= d.month <= 12 && 1 <= d.day <= DaysInMonth(d.year, d.month)
  }

  /** Chronological order. */
  predicate Earlier(a: Date, b: Date) {
    a.year < b.year
    || (a.year == b.year && (a.month < b.month || (a.month == b.month && a.day < b.day)))
  }

  /** The day, month and year fields of the token at `i`, read as decimal numbers. */
  function TokenFields(s: string, i: nat): Date
    requires DateTokenAt(s, i)
  {
    Date(1000 * DigitValue(s[i + 6]) + 100 * DigitValue(s[i + 7])
         + 10 * DigitValue(s[i + 8]) + DigitValue(s[i + 9]),
         10 * DigitValue(s[i + 3]) + DigitValue(s[i + 4]),
         10 * DigitValue(s[i]) + DigitValue(s[i + 1]))
  }

  /** `datetime.strptime(token, "%d/%m/%Y")`: `None` where it raises `ValueError`. */
  function ParseDate(s: string, i: nat): (r: Option<Date>)
    requires DateTokenAt(s, i)
    ensures r.Some? <==> IsCalendarDate(TokenFields(s, i))
    ensures r.Some? ==> r.value == TokenFields(s, i)
  {
    var d := TokenFields(s, i);
    if IsCalendarDate(d) then Some(d) else None
  }

  /** The outcome of `strptime` for every match, in text order. */
  function MatchDates(s: string, ms: seq<nat>): (ds: seq<Option<Date>>)
    requires IsMatchList(s, ms)
    ensures |ds| == |ms|
    ensures forall k :: 0 <= k < |ms| ==> ds[k] == ParseDate(s, ms[k])
  {
    seq(|ms|, k requires 0 <= k < |ms| => ParseDate(s, ms[k]))
  }

  /** `next((m.start() for m in matches if m.start() > x), n)`. */
  function FirstAfter(ms: seq<nat>, x: nat, n: nat): (r: nat)
    ensures r == n || (r in ms && r > x)
  {
    if ms == [] then n else if ms[0] > x then ms[0] else FirstAfter(ms[1..], x, n)
  }

  /** The span of a match ends where the following match starts, or at the end of the text. */
  lemma {:induction false} FirstAfterIsNext(ms: seq<nat>, k: nat, n: nat)
    requires Increasing(ms) && k < |ms|
    ensures FirstAfter(ms, ms[k], n) == if k + 1 < |ms| then ms[k + 1] else n
  {
    if k > 0 {
      assert Increasing(ms[1..]);
      FirstAfterIsNext(ms[1..], k - 1, n);
    } else if |ms| > 1 {
      assert ms[1..][0] == ms[1];
    } else {
      assert ms[1..] == [];
    }
  }

  /** The stripped text from the `k`-th date token up to the next one. */
  function Span(s: string, ms: seq<nat>, k: nat): (r: string)
    requires IsMatchList(s, ms) && k < |ms|
  {
    var e := FirstAfter(ms, ms[k], |s|);
    assert e == |s| || e in ms;
    Strip(s[ms[k]..e])
  }

  lemma SpanIsSlice(s: string, ms: seq<nat>, k: nat)
    requires IsMatchList(s, ms) && k < |ms|
    ensures IsSliceOf(Span(s, ms, k), s)
  {
    var e := FirstAfter(ms, ms[k], |s|);
    assert e == |s| || e in ms;
    StripIsSlice(s[ms[k]..e]);
    SliceOfSlice(Span(s, ms, k), s, ms[k], e);
  }

  /** Entry `k` carries the latest date among the first `n` entries, and every
      earlier entry carries a strictly earlier date. */
  ghost predicate IsLatestIn(ds: seq<Option<Date>>, k: nat, n: nat)
    requires n <= |ds|
  {
    k < n && ds[k].Some?
    && forall j :: 0 <= j < n && ds[j].Some? ==>
         !Earlier(ds[k].value, ds[j].value) && (j < k ==> Earlier(ds[j].value, ds[k].value))
  }

  /** The entry a stable descending sort on dates puts first. */
  ghost predicate IsLatest(ds: seq<Option<Date>>, k: nat) {
    IsLatestIn(ds, k, |ds|)
  }

  /** The dates of the matches of `s`. */
  function DatesOf(s: string): seq<Option<Date>> {
    MatchDates(s, Matches(s))
  }

  ghost predicate HasDatedNote(s: string) {
    exists k :: 0 <= k < |DatesOf(s)| && DatesOf(s)[k].Some?
  }

  function LatestIndex(ds: seq<Option<Date>>, n: nat): (r: Option<nat>)
    requires n <= |ds|
    ensures r.None? <==> forall j :: 0 <= j < n ==> ds[j].None?
    ensures r.Some? ==> IsLatestIn(ds, r.value, n)
  {
    if n == 0 then None
    else
      var b := LatestIndex(ds, n - 1);
      if ds[n - 1].None? then b
      else if b.None? || Earlier(ds[b.value].value, ds[n - 1].value) then Some(n - 1)
      else b
  }

  /** Ties go to the earliest span, so the latest entry is unique. */
  lemma LatestUnique(ds: seq<Option<Date>>, k1: nat, k2: nat)
    requires IsLatest(ds, k1) && IsLatest(ds, k2)
    ensures k1 == k2
  {
  }

  /** The note `extrair_observacao_mais_recente` returns. */
  function LatestNote(s: string): (r: string)
    ensures IsBlank(s) ==> r == NoNotes
    ensures !IsBlank(s) && !HasDatedNote(s) ==> r == Strip(s)
  {
    if Strip(s) == [] then NoNotes
    else
      var ms := Matches(s);
      if ms == [] then Strip(s)
      else match LatestIndex(MatchDates(s, ms), |ms|)
        case None => Strip(s)
        case Some(k) =>
          assert DatesOf(s)[k].Some?;
          Span(s, ms, k)
  }

  /** A text with a parseable date has a latest dated span. */
  lemma LatestExists(s: string)
    requires HasDatedNote(s)
    ensures exists k :: IsLatest(DatesOf(s), k)
  {
    var ds := DatesOf(s);
    var r := LatestIndex(ds, |ds|);
    var j :| 0 <= j < |ds| && ds[j].Some?;
    assert r.Some?;
    assert IsLatest(ds, r.value);
  }

  /** The note is the span of the latest date: the one a stable sort on descending
      dates puts first. */
  lemma LatestNoteIsSpan(s: string, k: nat)
    requires IsLatest(DatesOf(s), k)
    ensures !IsBlank(s) && LatestNote(s) == Span(s, Matches(s), k)
  {
    var ms := Matches(s);
    var ds := DatesOf(s);
    assert DateTokenAt(s, ms[k]) && !IsSpace(s[ms[k]]);
    var r := LatestIndex(ds, |ds|);
    LatestUnique(ds, k, r.value);
  }

  /** The note is always taken from the text itself. */
  lemma LatestNoteIsSlice(s: string)
    requires !IsBlank(s)
    ensures IsSliceOf(LatestNote(s), s)
  {
    var ms := Matches(s);
    if ms != [] && LatestIndex(MatchDates(s, ms), |ms|).Some? {
      SpanIsSlice(s, ms, LatestIndex(MatchDates(s, ms), |ms|).value);
    } else {
      StripIsSlice(s);
    }
  }

  /** The position `partes.sort(key=date, reverse=True)` moves to the front: the
      first entry with the latest date, since Python's sort is stable. */
  method PickLatest(partes: seq<(Date, string)>) returns (best: nat)
    requires partes != []
    ensures best < |partes|
    ensures forall p :: 0 <= p < |partes| ==> !Earlier(partes[best].0, partes[p].0)
    ensures forall p :: 0 <= p < best ==> Earlier(partes[p].0, partes[best].0)
  {
    best := 0;
    for j := 1 to |partes|
      invariant best < j
      invariant forall p :: 0 <= p < j ==> !Earlier(partes[best].0, partes[p].0)
      invariant forall p :: 0 <= p < best ==> Earlier(partes[p].0, partes[best].0)
    {
      if Earlier(partes[best].0, partes[j].0) {
        best := j;
      }
    }
  }

  /** The entries whose date parses, in text order. */
  ghost function ValidIndices(ds: seq<Option<Date>>, n: nat): (r: seq<nat>)
    requires n <= |ds|
    ensures forall p :: 0 <= p < |r| ==> r[p] < n && ds[r[p]].Some?
    ensures forall p, q :: 0 <= p < q < |r| ==> r[p] < r[q]
    ensures forall j :: 0 <= j < n && ds[j].Some? ==> j in r
  {
    if n == 0 then []
    else if ds[n - 1].Some? then ValidIndices(ds, n - 1) + [n - 1]
    else ValidIndices(ds, n - 1)
  }

  /** The `(date, span)` pairs collected for the given matches. */
  ghost function Entries(s: string, ms: seq<nat>, idx: seq<nat>): (r: seq<(Date, string)>)
    requires IsMatchList(s, ms)
    requires forall p :: 0 <= p < |idx| ==> idx[p] < |ms| && ParseDate(s, ms[idx[p]]).Some?
    ensures |r| == |idx|
  {
    seq(|idx|, p requires 0 <= p < |idx| => (ParseDate(s, ms[idx[p]]).value, Span(s, ms, idx[p])))
  }

  lemma EntriesSnoc(s: string, ms: seq<nat>, idx: seq<nat>, k: nat)
    requires IsMatchList(s, ms)
    requires forall p :: 0 <= p < |idx| ==> idx[p] < |ms| && ParseDate(s, ms[idx[p]]).Some?
    requires k < |ms| && ParseDate(s, ms[k]).Some?
    ensures Entries(s, ms, idx + [k])
            == Entries(s, ms, idx) + [(ParseDate(s, ms[k]).value, Span(s, ms, k))]
  {
  }

  /** The entry picked among all collected entries comes from the latest match:
      `from` lists, in increasing order, every match whose date parses, and `dates`
      their dates. */
  lemma PickedIsLatest(ds: seq<Option<Date>>, from: seq<nat>, partes: seq<(Date, string)>, best: nat)
    requires |partes| == |from|
    requires forall p :: 0 <= p < |from| ==> from[p] < |ds| && ds[from[p]] == Some(partes[p].0)
    requires forall p, q :: 0 <= p < q < |from| ==> from[p] < from[q]
    requires forall j :: 0 <= j < |ds| && ds[j].Some? ==> j in from
    requires best < |partes|
    requires forall p :: 0 <= p < |partes| ==> !Earlier(partes[best].0, partes[p].0)
    requires forall p :: 0 <= p < best ==> Earlier(partes[p].0, partes[best].0)
    ensures IsLatest(ds, from[best])
  {
    var k := from[best];
    forall j | 0 <= j < |ds| && ds[j].Some?
      ensures !Earlier(ds[k].value, ds[j].value)
      ensures j < k ==> Earlier(ds[j].value, ds[k].value)
    {
      var p :| 0 <= p < |from| && from[p] == j;
      assert j < k ==> p < best;
    }
  }

  /** The loop of `extrair_observacao_mais_recente` that collects a `(date, span)`
      pair for every match whose date parses, in text order. */
  method CollectDated(texto: string, ms: seq<nat>) returns (partes: seq<(Date, string)>)
    requires IsMatchList(texto, ms)
    ensures partes == Entries(texto, ms, ValidIndices(MatchDates(texto, ms), |ms|))
  {
    ghost var ds := MatchDates(texto, ms);
    partes := [];
    ghost var from: seq<nat> := [];
    for k := 0 to |ms|
      invariant from == ValidIndices(ds, k)
      invariant partes == Entries(texto, ms, from)
    {
      var d := ParseDate(texto, ms[k]);
      if d.Some? {
        var inicio := ms[k];
        var fim := FirstAfter(ms, inicio, |texto|);
        EntriesSnoc(texto, ms, from, k);
        partes := partes + [(d.value, Strip(texto[inicio..fim]))];
        from := from + [k];
      }
    }
  }

  /** `extrair_observacao_mais_recente`: collects the spans whose date parses, then
      keeps the one a stable sort on descending dates would put first. */
  method MostRecentNote(texto: string) returns (note: string)
    ensures note == LatestNote(texto)
  {
    if texto == [] || Strip(texto) == [] {
      return NoNotes;
    }
    var ms := Matches(texto);
    if ms == [] {
      return Strip(texto);
    }
    var partes := CollectDated(texto, ms);
    if partes == [] {
      NoneCollectedMeansUndated(texto);
      return Strip(texto);
    }
    var best := PickLatest(partes);
    note := partes[best].1;
    PickIsLatestNote(texto, partes, best);
  }

  /** With no parseable date among the matches, no match is the latest. */
  lemma NoneCollectedMeansUndated(texto: string)
    requires Matches(texto) != []
    requires Entries(texto, Matches(texto), ValidIndices(DatesOf(texto), |Matches(texto)|)) == []
    ensures LatestIndex(DatesOf(texto), |DatesOf(texto)|).None?
  {
  }

  /** The entry `PickLatest` chooses among the collected entries holds the note. */
  lemma PickIsLatestNote(texto: string, partes: seq<(Date, string)>, best: nat)
    requires !IsBlank(texto) && Matches(texto) != []
    requires partes == Entries(texto, Matches(texto), ValidIndices(DatesOf(texto), |Matches(texto)|))
    requires best < |partes|
    requires forall p :: 0 <= p < |partes| ==> !Earlier(partes[best].0, partes[p].0)
    requires forall p :: 0 <= p < best ==> Earlier(partes[p].0, partes[best].0)
    ensures partes[best].1 == LatestNote(texto)
  {
    var ms := Matches(texto);
    var ds := DatesOf(texto);
    var from := ValidIndices(ds, |ds|);
    PickedIsLatest(ds, from, partes, best);
    LatestNoteIsSpan(texto, from[best]);
  }
}
