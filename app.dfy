/** The question page: normalise the question, retrieve contexts, then either count
    closed items or ask the chat backend. */
module App {
  import opened Text
  import opened Corpus
  import Records
  import Retrieval
  import Generation
  import Normalization
  import Filters
  import Counting

  /** `quantos?\s+pontos?.*encerrados?` matches at `i` of the lower-cased question:
      `quanto`, an optional `s`, whitespace, `ponto`, then `encerrado` later on the
      same line. The `\s+` takes every space, and a trailing `s` after `ponto` or
      `encerrado` is optional, so it adds nothing to the match. */
  predicate CountingAt(l: string, i: nat) {
    StartsAt(l, i, "quanto")
    && var a := if i + 6 < |l| && l[i + 6] == 's' then i + 7 else i + 6;
       var j := SkipSpaces(l, a);
       j > a && StartsAt(l, j, "ponto")
       && exists k :: j + 5 <= k <= |l| && StartsAt(l, k, "encerrado") && NoNewline(l, j + 5, k)
  }

  /** `.*` spans `l[lo..hi]`: no newline in between. */
  predicate NoNewline(l: string, lo: nat, hi: nat)
    requires lo <= hi <= |l|
  {
    forall m :: lo <= m < hi ==> l[m] != '\n'
  }

  /** The test that selects the counting branch. */
  predicate IsCountingQuestion(q: string) {
    exists i :: 0 <= i <= |q| && CountingAt(Lower(q), i)
  }

  /** The answer the page shows for the normalised question `qn` and its contexts. */
  function Reply(qn: string, ctxs: seq<string>, backend: string -> string): string {
    var filtros := Filters.ExtractFilters(qn);
    if IsCountingQuestion(qn) then Counting.Sentence(Counting.Count(ctxs, filtros), filtros)
    else Generation.Ask(ctxs, qn, backend)
  }

  /** A counting question is answered from the contexts alone, without the chat
      backend; any other question with only blank contexts is answered with the
      not-found message, also without the backend. */
  lemma BackendOnlyForOtherQuestions(qn: string, ctxs: seq<string>, b1: string -> string,
                                     b2: string -> string)
    ensures IsCountingQuestion(qn) || Generation.NoContext(ctxs) ==> Reply(qn, ctxs, b1) == Reply(qn, ctxs, b2)
    ensures !IsCountingQuestion(qn) && Generation.NoContext(ctxs) ==>
              Reply(qn, ctxs, b1) == Generation.ContextNotFound
    ensures !IsCountingQuestion(qn) && !Generation.NoContext(ctxs) ==>
              Reply(qn, ctxs, b1) == b1(Generation.UserMessage(ctxs, qn))
  {
  }

  /** The test runs on the lower-cased question, so it ignores case. */
  lemma CountingIgnoresCase(q: string)
    ensures IsCountingQuestion(Lower(q)) <==> IsCountingQuestion(q)
  {
    LowerIdempotent(q);
  }

  lemma LowerIdempotent(q: string)
    ensures Lower(Lower(q)) == Lower(q)
  {
  }

  /** A counting question speaks of `ponto` and, later on the same line, of
      `encerrado`. */
  lemma CountingQuestionMentionsClosed(q: string)
    requires IsCountingQuestion(q)
    ensures exists j, k :: 0 <= j && j + 5 <= k <= |q| && StartsAt(Lower(q), j, "ponto")
                           && StartsAt(Lower(q), k, "encerrado") && NoNewline(Lower(q), j + 5, k)
  {
    var l := Lower(q);
    var i :| 0 <= i <= |q| && CountingAt(l, i);
    var a := if i + 6 < |l| && l[i + 6] == 's' then i + 7 else i + 6;
    var j := SkipSpaces(l, a);
    var k :| j + 5 <= k <= |l| && StartsAt(l, k, "encerrado") && NoNewline(l, j + 5, k);
    assert StartsAt(l, j, "ponto");
  }

  /** A search asking for more neighbours than the corpus holds is padded with -1,
      which reads the last document again: without filters the counting branch then
      reports the size of the search rather than the number of distinct documents. */
  lemma PaddedSearchCountsRequestedSize(docs: seq<string>, hits: seq<nat>, pad: nat,
                                        f: Filters.FilterMap)
    requires docs != [] && forall j :: 0 <= j < |hits| ==> hits[j] < |docs|
    requires Filters.YearKey !in f && Filters.AreaKey !in f && Filters.ResponsibleKey !in f
    ensures var positions := seq(|hits|, j requires 0 <= j < |hits| => hits[j] as int) + seq(pad, _ => -1);
            var r := Retrieval.AtPositions(docs, positions);
            r.Ok? && Counting.Count(r.value, f) == |hits| + pad
  {
    var positions := seq(|hits|, j requires 0 <= j < |hits| => hits[j] as int) + seq(pad, _ => -1);
    Retrieval.PaddingReadsLastDocument(docs, hits, pad);
    Counting.NoFiltersCountsAll(Retrieval.AtPositions(docs, positions).value, f);
  }

  /** A `POST` of the question page. The retrieval can raise, which the model returns
      as its failure. */
  method HandleQuestion(cache: CorpusCache, pergunta: string, current: Fingerprint,
                        records: seq<Records.Record>, encoder: string -> Vector,
                        search: (FlatIndex, Vector, nat) -> seq<int>, backend: string -> string)
    returns (r: Retrieval.Result<string>)
    modifies cache
    ensures var qn := Normalization.ApplyRules(pergunta, Normalization.Replacements);
            var (t, refresh) := Step(old(cache.State()), current, records, encoder);
            var found := Retrieval.Answer(refresh, t, qn, records, encoder, search);
            cache.State() == t
            && (found.Err? ==> r == Retrieval.Err(found.error))
            && (found.Ok? ==> r == Retrieval.Ok(Reply(qn, found.value, backend)))
  {
    var qn := Normalization.NormalizeQuestion(pergunta);
    var contextos := Retrieval.Retrieve(cache, qn, current, records, encoder, search);
    if contextos.Err? {
      return Retrieval.Err(contextos.error);
    }
    var filtros := Filters.ExtractFilters(qn);
    if IsCountingQuestion(qn) {
      var total, resposta := Counting.CountClosed(contextos.value, filtros);
      return Retrieval.Ok(resposta);
    }
    return Retrieval.Ok(Generation.Ask(contextos.value, qn, backend));
  }
}
