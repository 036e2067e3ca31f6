/** The counting answer of the question page: the contexts that pass every present
    filter are counted, and the total is rendered into a fixed sentence. */
module Counting {
  import opened Text
  import opened Filters
  import Records
  import Notes

  const ClosingLabel := "Encerramento:"

  /** `Encerramento:\s*\d{2}/\d{2}/<ano>` matches at `i`; `\s*` takes every space. */
  predicate ClosingAt(ctx: string, i: nat, ano: string) {
    StartsAt(ctx, i, ClosingLabel)
    && var j := SkipSpaces(ctx, i + 13);
       j + 6 <= |ctx|
       && IsDigit(ctx[j]) && IsDigit(ctx[j + 1]) && ctx[j + 2] == '/'
       && IsDigit(ctx[j + 3]) && IsDigit(ctx[j + 4]) && ctx[j + 5] == '/'
       && StartsAt(ctx, j + 6, ano)
  }

  /** The year filter's `re.search`, case-sensitive, with the year as a literal. */
  predicate ClosedInYear(ctx: string, ano: string) {
    exists i :: 0 <= i <= |ctx| && ClosingAt(ctx, i, ano)
  }

  /** The three `continue` conditions of the loop, negated: the context passes every
      filter present. */
  predicate Passes(ctx: string, f: FilterMap) {
    (YearKey in f ==> ClosedInYear(ctx, f[YearKey]))
    && (AreaKey in f ==> Occurs(Lower(ctx), "área: " + f[AreaKey]))
    && (ResponsibleKey in f ==> Occurs(Lower(ctx), "responsável: " + f[ResponsibleKey]))
  }

  /** The number of contexts that pass the filters. */
  function Count(ctxs: seq<string>, f: FilterMap): (n: nat)
    ensures n <= |ctxs|
    decreases |ctxs|
  {
    if ctxs == [] then 0
    else Count(ctxs[..|ctxs| - 1], f) + (if Passes(ctxs[|ctxs| - 1], f) then 1 else 0)
  }

  /** Without filters every context is counted. */
  lemma {:induction false} NoFiltersCountsAll(ctxs: seq<string>, f: FilterMap)
    requires YearKey !in f && AreaKey !in f && ResponsibleKey !in f
    ensures Count(ctxs, f) == |ctxs|
    decreases |ctxs|
  {
    if ctxs != [] {
      NoFiltersCountsAll(ctxs[..|ctxs| - 1], f);
    }
  }

  /** `g` holds every filter of `f`, with the same value. */
  predicate Extends(g: FilterMap, f: FilterMap) {
    forall k :: k in f ==> k in g && g[k] == f[k]
  }

  /** Adding filters never increases the count. */
  lemma {:induction false} MoreFiltersCountLess(ctxs: seq<string>, f: FilterMap, g: FilterMap)
    requires Extends(g, f)
    ensures Count(ctxs, g) <= Count(ctxs, f)
    decreases |ctxs|
  {
    if ctxs != [] {
      MoreFiltersCountLess(ctxs[..|ctxs| - 1], f, g);
      var c := ctxs[|ctxs| - 1];
      assert Passes(c, g) ==> Passes(c, f);
    }
  }

  /** The positions of the contexts that pass. */
  function PassingPositions(ctxs: seq<string>, f: FilterMap): set<nat> {
    set i: nat | i < |ctxs| && Passes(ctxs[i], f)
  }

  lemma PassingPositionsSnoc(ctxs: seq<string>, f: FilterMap)
    requires ctxs != []
    ensures var n := |ctxs| - 1;
            n !in PassingPositions(ctxs[..n], f)
            && PassingPositions(ctxs, f)
               == PassingPositions(ctxs[..n], f) + (if Passes(ctxs[n], f) then {n} else {})
  {
    var n := |ctxs| - 1;
    assert forall i :: 0 <= i < n ==> ctxs[..n][i] == ctxs[i];
  }

  /** The count is the number of contexts that pass. */
  lemma {:induction false} CountIsNumberPassing(ctxs: seq<string>, f: FilterMap)
    ensures Count(ctxs, f) == |PassingPositions(ctxs, f)|
    decreases |ctxs|
  {
    if ctxs != [] {
      CountIsNumberPassing(ctxs[..|ctxs| - 1], f);
      PassingPositionsSnoc(ctxs, f);
    } else {
      assert PassingPositions(ctxs, f) == {};
    }
  }

  /** The answer sentence for `total` counted contexts. */
  function Sentence(total: nat, f: FilterMap): string {
    SentenceHead + NatToString(total) + " pontos encerrados"
    + YearClause(f) + AreaClause(f) + ResponsibleClause(f) + "."
  }

  const SentenceHead := "Foram encontrados "

  function YearClause(f: FilterMap): string {
    if YearKey in f then " em " + f[YearKey] else ""
  }

  function AreaClause(f: FilterMap): string {
    if AreaKey in f then " na área " + Capitalize(f[AreaKey]) else ""
  }

  function ResponsibleClause(f: FilterMap): string {
    if ResponsibleKey in f then " com responsável " + Capitalize(f[ResponsibleKey]) else ""
  }

  /** The sentence opens with the total, which reads back as that number. */
  lemma SentenceStatesTotal(total: nat, f: FilterMap)
    ensures var r := Sentence(total, f);
            var n := NatToString(total);
            |SentenceHead| + |n| < |r|
            && r[..|SentenceHead|] == SentenceHead
            && AllDigits(r[|SentenceHead|..|SentenceHead| + |n|])
            && DecimalValue(r[|SentenceHead|..|SentenceHead| + |n|]) == total
  {
    var n := NatToString(total);
    var h := SentenceHead + n;
    var r := Sentence(total, f);
    assert r[..|h|] == h;
    assert r[|SentenceHead|..|h|] == h[|SentenceHead|..] == n;
    NatToStringRoundTrip(total);
  }

  /** The sentence ends with a full stop. */
  lemma SentenceEndsWithStop(total: nat, f: FilterMap)
    ensures Sentence(total, f) != [] && Sentence(total, f)[|Sentence(total, f)| - 1] == '.'
  {
  }

  /** Each present filter is named in the sentence, in the order year, area,
      responsible person. */
  lemma SentenceNamesFilters(total: nat, f: FilterMap)
    ensures var r := Sentence(total, f);
            var h := SentenceHead + NatToString(total) + " pontos encerrados";
            var y := YearClause(f);
            var a := AreaClause(f);
            var p := ResponsibleClause(f);
            (YearKey in f <==> y != []) && (AreaKey in f <==> a != []) && (ResponsibleKey in f <==> p != [])
            && StartsAt(r, |h|, y) && StartsAt(r, |h| + |y|, a) && StartsAt(r, |h| + |y| + |a|, p)
            && |r| == |h| + |y| + |a| + |p| + 1
  {
    var h := SentenceHead + NatToString(total) + " pontos encerrados";
    PartsInPlace(h, YearClause(f), AreaClause(f), ResponsibleClause(f), ".");
  }

  /** The loop of the counting branch: a context is skipped by the first filter it
      fails, and counted otherwise. */
  method CountPassing(contextos: seq<string>, filtros: FilterMap) returns (total: nat)
    ensures total == Count(contextos, filtros)
  {
    total := 0;
    for i := 0 to |contextos|
      invariant total == Count(contextos[..i], filtros)
    {
      assert contextos[..i + 1][..i] == contextos[..i];
      var ctx := contextos[i];
      if YearKey in filtros && !ClosedInYear(ctx, filtros[YearKey]) {
        continue;
      }
      if AreaKey in filtros && !Occurs(Lower(ctx), "área: " + filtros[AreaKey]) {
        continue;
      }
      if ResponsibleKey in filtros && !Occurs(Lower(ctx), "responsável: " + filtros[ResponsibleKey]) {
        continue;
      }
      total := total + 1;
    }
    assert contextos[..|contextos|] == contextos;
  }

  /** The sentence grown clause by clause. */
  method RenderSentence(total: nat, filtros: FilterMap) returns (resposta: string)
    ensures resposta == Sentence(total, filtros)
  {
    var head := SentenceHead + NatToString(total) + " pontos encerrados";
    resposta := head;
    if YearKey in filtros {
      resposta := resposta + (" em " + filtros[YearKey]);
    }
    assert resposta == head + YearClause(filtros);
    if AreaKey in filtros {
      resposta := resposta + (" na área " + Capitalize(filtros[AreaKey]));
    }
    assert resposta == head + YearClause(filtros) + AreaClause(filtros);
    if ResponsibleKey in filtros {
      resposta := resposta + (" com responsável " + Capitalize(filtros[ResponsibleKey]));
    }
    assert resposta == head + YearClause(filtros) + AreaClause(filtros) + ResponsibleClause(filtros);
    resposta := resposta + ".";
  }

  /** The counting branch of the page. */
  method CountClosed(contextos: seq<string>, filtros: FilterMap) returns (total: nat, resposta: string)
    ensures total == Count(contextos, filtros)
    ensures resposta == Sentence(total, filtros)
  {
    total := CountPassing(contextos, filtros);
    resposta := RenderSentence(total, filtros);
  }

  /** `Occurs` survives lower-casing both sides. */
  lemma OccursLower(s: string, w: string)
    requires Occurs(s, w)
    ensures Occurs(Lower(s), Lower(w))
  {
    var i :| 0 <= i <= |s| && StartsAt(s, i, w);
    LowerSlice(s, i, i + |w|);
    assert StartsAt(Lower(s), i, Lower(w));
  }

  /** A rendered record passes the year filter of its own closing date. */
  lemma RenderedRecordClosedInItsYear(d: Records.Document)
    requires |d.closing| == 10 && Notes.DateTokenAt(d.closing, 0)
    ensures ClosedInYear(Records.Render(d), Records.ExtractYear(d.closing))
  {
    var ctx := Records.Render(d);
    Records.YearOfDate(d.closing);
    Records.RenderHasLine(d, 9);
    var line := "Encerramento: " + d.closing;
    assert Records.Labels[9] + ": " + Records.Values(d)[9] == line;
    var i :| 0 <= i <= |ctx| && StartsAt(ctx, i, line);
    ClosingLineMatches(ctx, i, d.closing);
  }

  lemma ClosingLineMatches(ctx: string, i: nat, closing: string)
    requires |closing| == 10 && Notes.DateTokenAt(closing, 0)
    requires StartsAt(ctx, i, "Encerramento: " + closing)
    ensures ClosingAt(ctx, i, closing[6..])
  {
    var line := "Encerramento: " + closing;
    assert ctx[i..i + 24] == line;
    assert ctx[i..i + 13] == line[..13] == ClosingLabel;
    assert IsSpace(ctx[i + 13]) && ctx[i + 14] == closing[0];
    assert SkipSpaces(ctx, i + 14) == i + 14;
    assert SkipSpaces(ctx, i + 13) == i + 14;
    assert ctx[i + 20..i + 24] == line[20..24] == closing[6..];
  }

  /** A rendered record passes the area filter of any prefix of its lower-cased
      area. */
  lemma RenderedRecordInItsArea(d: Records.Document, v: string)
    requires StartsAt(Lower(d.area), 0, v)
    ensures Occurs(Lower(Records.Render(d)), "área: " + v)
  {
    var ctx := Records.Render(d);
    Records.RenderHasLine(d, 1);
    var aline := "Área: " + d.area;
    assert Records.Labels[1] + ": " + Records.Values(d)[1] == aline;
    OccursLower(ctx, aline);
    LowerConcat("Área: ", d.area);
    assert Lower("Área: ") == "área: ";
    assert Lower(aline)[..6 + |v|] == "área: " + v;
    OccursWithin(Lower(ctx), "área: " + v, Lower(aline), 0);
  }
}
