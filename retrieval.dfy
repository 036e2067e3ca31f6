/** `buscar_documento`: refresh the corpus, then either look the question's explicit
    identifiers up in the records or run a semantic search over the corpus. */
module Retrieval {
  import opened Text
  import opened Records
  import opened Corpus
  import Classifier

  /** Why a retrieval raised instead of returning contexts. */
  datatype Failure =
    | EmptyCorpus          // the refresh found no records to embed
    | NoIndex              // a semantic search before any index was built
    | PositionOutOfRange   // the index returned a position the document list lacks

  datatype Result<T> = Ok(value: T) | Err(error: Failure)

  /** `str(entry.get("id_deficiencia", ""))`: JSON `null` prints as `None`. */
  function IdText(entry: Record): string {
    if "id_deficiencia" !in entry then ""
    else match entry["id_deficiencia"]
      case None => "None"
      case Some(v) => v
  }

  /** The comparison key of an identifier: stripped and lower-cased. */
  function IdKey(s: string): string {
    Lower(Strip(s))
  }

  predicate HasId(entry: Record, id: string) {
    IdKey(IdText(entry)) == IdKey(id)
  }


  function NotFound(id: string): string {
    "ID " + id + " não encontrado"
  }

  /** The comparison keys of the records' identifiers. */
  function RecordKeys(records: seq<Record>): (keys: seq<string>)
    ensures |keys| == |records|
    ensures forall m :: 0 <= m < |records| ==> keys[m] == IdKey(IdText(records[m]))
  {
    seq(|records|, m requires 0 <= m < |records| => IdKey(IdText(records[m])))
  }

  /** The first position from `k` on holding `key`. */
  function FirstFrom(keys: seq<string>, key: string, k: nat): (r: Option<nat>)
    requires k <= |keys|
    ensures r.Some? ==> k <= r.value < |keys| && keys[r.value] == key
                        && forall j :: k <= j < r.value ==> keys[j] != key
    ensures r.None? ==> forall j :: k <= j < |keys| ==> keys[j] != key
    decreases |keys| - k
  {
    if k == |keys| then None
    else if keys[k] == key then Some(k)
    else FirstFrom(keys, key, k + 1)
  }

  /** The result for one identifier: the first record carrying it, formatted, or the
      not-found marker. */
  function LookupId(records: seq<Record>, id: string): string {
    match FirstFrom(RecordKeys(records), IdKey(id), 0)
    case Some(k) => FormatEntry(records[k])
    case None => NotFound(id)
  }

  /** The result for an identifier some record carries is the first such record,
      formatted. */
  lemma LookupIdFindsFirst(records: seq<Record>, id: string, m: nat)
    requires m < |records| && HasId(records[m], id)
    requires forall j :: 0 <= j < m ==> !HasId(records[j], id)
    ensures LookupId(records, id) == FormatEntry(records[m])
  {
    var keys := RecordKeys(records);
    var r := FirstFrom(keys, IdKey(id), 0);
    assert keys[m] == IdKey(id);
    assert r.Some? && r.value == m;
  }

  /** An identifier no record carries gets the not-found marker. */
  lemma LookupIdNotFound(records: seq<Record>, id: string)
    requires forall m :: 0 <= m < |records| ==> !HasId(records[m], id)
    ensures LookupId(records, id) == NotFound(id)
  {
    var keys := RecordKeys(records);
    assert forall m :: 0 <= m < |records| ==> keys[m] != IdKey(id);
  }

  /** The results for a list of identifiers, one per identifier. */
  function LookupAll(records: seq<Record>, ids: seq<string>): (found: seq<string>)
    ensures |found| == |ids|
  {
    if ids == [] then []
    else LookupAll(records, ids[..|ids| - 1]) + [LookupId(records, ids[|ids| - 1])]
  }

  /** Entry `i` of the results is the lookup of identifier `i`. */
  lemma {:induction false} LookupAllInOrder(records: seq<Record>, ids: seq<string>, i: nat)
    requires i < |ids|
    ensures LookupAll(records, ids)[i] == LookupId(records, ids[i])
    decreases |ids|
  {
    if i < |ids| - 1 {
      LookupAllInOrder(records, ids[..|ids| - 1], i);
    }
  }

  /** The identifier path of `buscar_documento`: one result per identifier, in order. */
  method LookupIds(records: seq<Record>, ids: seq<string>) returns (found: seq<string>)
    ensures found == LookupAll(records, ids)
  {
    found := [];
    for i := 0 to |ids|
      invariant found == LookupAll(records, ids[..i])
    {
      assert ids[..i + 1][..i] == ids[..i];
      found := found + [LookupId(records, ids[i])];
    }
    assert ids[..|ids|] == ids;
  }

  /** Python's `docs[i]`: a negative position counts from the end. */
  function PyIndex(docs: seq<string>, i: int): (r: Option<string>)
    ensures 0 <= i < |docs| ==> r == Some(docs[i])
    ensures -|docs| <= i < 0 ==> r == Some(docs[|docs| + i])
    ensures r.None? <==> !(-|docs| <= i < |docs|)
  {
    if 0 <= i < |docs| then Some(docs[i])
    else if -|docs| <= i < 0 then Some(docs[|docs| + i])
    else None
  }

  /** `[DOCUMENTOS[i] for i in idx[0]]`: fails on the first position out of range. */
  function AtPositions(docs: seq<string>, positions: seq<int>): (r: Result<seq<string>>)
    ensures r.Ok? <==> forall j :: 0 <= j < |positions| ==> PyIndex(docs, positions[j]).Some?
    ensures r.Ok? ==> |r.value| == |positions|
                      && forall j :: 0 <= j < |positions| ==> r.value[j] == PyIndex(docs, positions[j]).value
    ensures r.Err? ==> r.error == PositionOutOfRange
  {
    if positions == [] then Ok([])
    else
      var init := AtPositions(docs, positions[..|positions| - 1]);
      var last := PyIndex(docs, positions[|positions| - 1]);
      if init.Err? then init
      else if last.None? then Err(PositionOutOfRange)
      else Ok(init.value + [last.value])
  }

  /** When the search asks for more neighbours than the corpus holds, the index pads
      its answer with -1, which Python reads as the last document. */
  lemma PaddingReadsLastDocument(docs: seq<string>, hits: seq<nat>, pad: nat)
    requires docs != [] && forall j :: 0 <= j < |hits| ==> hits[j] < |docs|
    ensures var positions := seq(|hits|, j requires 0 <= j < |hits| => hits[j] as int) + seq(pad, _ => -1);
            var r := AtPositions(docs, positions);
            r.Ok? && |r.value| == |hits| + pad
            && (forall j :: 0 <= j < |hits| ==> r.value[j] == docs[hits[j]])
            && (forall j :: |hits| <= j < |hits| + pad ==> r.value[j] == docs[|docs| - 1])
  {
    var positions := seq(|hits|, j requires 0 <= j < |hits| => hits[j] as int) + seq(pad, _ => -1);
    assert forall j :: 0 <= j < |positions| ==> PyIndex(docs, positions[j]).Some?;
  }

  /** The outcome of `buscar_documento` on the corpus state `s` left by the refresh:
      the identifier path whenever the question names identifiers, the semantic path
      otherwise, through the abstract `search` of the index. */
  function Answer(refresh: Refresh, s: CacheState, pergunta: string, records: seq<Record>,
                  encoder: string -> Vector, search: (FlatIndex, Vector, nat) -> seq<int>)
    : Result<seq<string>>
  {
    var ids := Classifier.IdsOf(pergunta);
    if refresh == BuildFailed then Err(EmptyCorpus)
    else if ids != [] then Ok(LookupAll(records, ids))
    else if s.index.None? then Err(NoIndex)
    else AtPositions(s.documents, search(s.index.value, encoder(pergunta), Classifier.ChooseTopK(pergunta)))
  }

  /** A question naming identifiers gets exactly one result per identifier, in order,
      and never consults the index. */
  lemma IdPathIsLookup(refresh: Refresh, s: CacheState, pergunta: string, records: seq<Record>,
                       encoder: string -> Vector, search: (FlatIndex, Vector, nat) -> seq<int>,
                       other: (FlatIndex, Vector, nat) -> seq<int>)
    requires refresh != BuildFailed && Classifier.IdsOf(pergunta) != []
    ensures var r := Answer(refresh, s, pergunta, records, encoder, search);
            var ids := Classifier.IdsOf(pergunta);
            r.Ok? && |r.value| == |ids| && |r.value| <= Classifier.MaxIds
            && (forall i :: 0 <= i < |ids| ==> r.value[i] == LookupId(records, ids[i]))
            && r == Answer(refresh, s, pergunta, records, encoder, other)
  {
    var ids := Classifier.IdsOf(pergunta);
    forall i | 0 <= i < |ids|
      ensures LookupAll(records, ids)[i] == LookupId(records, ids[i])
    {
      LookupAllInOrder(records, ids, i);
    }
  }

  /** After a successful refresh, a question without identifiers gets the documents at
      the positions the index returns for a search of the chosen size. This holds
      whenever a recorded fingerprint comes with an index, also after a failed
      rebuild left documents and index misaligned. */
  lemma SemanticPathUsesIndex(s: CacheState, current: Fingerprint, pergunta: string,
                              records: seq<Record>, encoder: string -> Vector,
                              search: (FlatIndex, Vector, nat) -> seq<int>)
    requires s.lastHash.Some? ==> s.index.Some?
    requires Classifier.IdsOf(pergunta) == []
    ensures var (t, refresh) := Step(s, current, records, encoder);
            refresh != BuildFailed ==>
              t.index.Some?
              && Answer(refresh, t, pergunta, records, encoder, search)
                 == AtPositions(t.documents, search(t.index.value, encoder(pergunta),
                                                   Classifier.ChooseTopK(pergunta)))
  {
  }

  /** `buscar_documento`: the refresh always runs first. */
  method Retrieve(cache: CorpusCache, pergunta: string, current: Fingerprint, records: seq<Record>,
                  encoder: string -> Vector, search: (FlatIndex, Vector, nat) -> seq<int>)
    returns (r: Result<seq<string>>)
    modifies cache
    ensures var (t, refresh) := Step(old(cache.State()), current, records, encoder);
            cache.State() == t && r == Answer(refresh, t, pergunta, records, encoder, search)
  {
    var refresh := cache.EnsureFresh(current, records, encoder);
    if refresh == BuildFailed {
      return Err(EmptyCorpus);
    }
    var ids := Classifier.ExtractIds(pergunta);
    if ids != [] {
      var found := LookupIds(records, ids);
      return Ok(found);
    }
    if cache.index.None? {
      return Err(NoIndex);
    }
    var k := Classifier.ChooseTopK(pergunta);
    var positions := search(cache.index.value, encoder(pergunta), k);
    r := AtPositions(cache.documents, positions);
  }
}
