/** The in-memory corpus of `rag_utils.py`: the formatted documents, the flat L2
    index built from their embeddings, and the fingerprint of the data file they
    were built from (`carregar_index_if_needed`). The embedding model, the file
    reader and the fingerprint function are parameters. */
module Corpus {
  import opened Text
  import opened Records

  /** An embedding vector. */
  type Vector = seq<real>

  /** A fingerprint of the data file's bytes. */
  type Fingerprint = string

  /** A flat L2 index: its dimension and the vectors added to it, in order. */
  datatype FlatIndex = FlatIndex(dim: nat, vectors: seq<Vector>)

  /** What one refresh did. `BuildFailed` is the exception raised when the data file
      holds no records (`embeddings[0]` of an empty batch). */
  datatype Refresh = CacheHit | Rebuilt | BuildFailed

  /** The three module-level globals `DOCUMENTOS`, `INDEX` and `ULTIMO_HASH`. */
  datatype CacheState = CacheState(documents: seq<string>, index: Option<FlatIndex>,
                                   lastHash: Option<Fingerprint>)

  const Initial := CacheState([], None, None)

  /** `[format_entry(entry) for entry in data]`. */
  function FormatAll(records: seq<Record>): (docs: seq<string>)
    ensures |docs| == |records|
  {
    seq(|records|, i requires 0 <= i < |records| => FormatEntry(records[i]))
  }

  /** `modelo.encode(DOCUMENTOS)`: one embedding per document. */
  function EncodeAll(docs: seq<string>, encoder: string -> Vector): (vs: seq<Vector>)
    ensures |vs| == |docs|
  {
    seq(|docs|, i requires 0 <= i < |docs| => encoder(docs[i]))
  }

  /** One call of `carregar_index_if_needed` on the state `s`, when the data file
      has fingerprint `current` and decodes to `records`. The documents are
      replaced before the embeddings are taken, so a failed build keeps the new
      documents beside the old index and fingerprint. */
  function Step(s: CacheState, current: Fingerprint, records: seq<Record>,
                encoder: string -> Vector): (CacheState, Refresh)
  {
    if s.lastHash == Some(current) then (s, CacheHit)
    else
      var docs := FormatAll(records);
      var embeddings := EncodeAll(docs, encoder);
      if embeddings == [] then (s.(documents := docs), BuildFailed)
      else (CacheState(docs, Some(FlatIndex(|embeddings[0]|, embeddings)), Some(current)), Rebuilt)
  }

  /** The index holds exactly one vector per document, the embedding of that document. */
  predicate Aligned(s: CacheState, encoder: string -> Vector) {
    s.index.Some? && |s.index.value.vectors| == |s.documents|
    && forall i :: 0 <= i < |s.documents| ==> s.index.value.vectors[i] == encoder(s.documents[i])
  }

  /** An unchanged fingerprint leaves every global as it was. */
  lemma UnchangedFileIsCacheHit(s: CacheState, current: Fingerprint, records: seq<Record>,
                                encoder: string -> Vector)
    requires s.lastHash == Some(current)
    ensures Step(s, current, records, encoder) == (s, CacheHit)
  {
  }

  /** A changed fingerprint with at least one record rebuilds everything: the
      documents are the formatted records in order, the index holds their
      embeddings, and the fingerprint is recorded. */
  lemma ChangedFileRebuilds(s: CacheState, current: Fingerprint, records: seq<Record>,
                            encoder: string -> Vector)
    requires s.lastHash != Some(current) && records != []
    ensures var (t, r) := Step(s, current, records, encoder);
            r == Rebuilt
            && |t.documents| == |records|
            && (forall i :: 0 <= i < |records| ==> t.documents[i] == FormatEntry(records[i]))
            && Aligned(t, encoder)
            && t.lastHash == Some(current)
  {
  }

  /** A changed fingerprint with no records fails half-way: the documents are
      already replaced (by the empty list), the index and fingerprint are not. */
  lemma EmptyFileFailsHalfway(s: CacheState, current: Fingerprint, encoder: string -> Vector)
    requires s.lastHash != Some(current)
    ensures var (t, r) := Step(s, current, [], encoder);
            r == BuildFailed && t.documents == [] && t.index == s.index && t.lastHash == s.lastHash
  {
  }

  /** The refresh is not atomic: a failed rebuild can leave an index that no longer
      matches the documents, although it matched before. */
  lemma FailedRebuildBreaksAlignment(encoder: string -> Vector)
    ensures var s := CacheState(["d"], Some(FlatIndex(|encoder("d")|, [encoder("d")])), Some("a"));
            var (t, r) := Step(s, "b", [], encoder);
            Aligned(s, encoder) && r == BuildFailed && !Aligned(t, encoder)
  {
  }

  /** Calling again with the same fingerprint after a successful call is a cache hit
      that changes nothing, whatever the file now decodes to; after a failed call the
      rebuild is attempted again. */
  lemma SecondCallIsCacheHit(s: CacheState, current: Fingerprint, records: seq<Record>,
                             again: seq<Record>, encoder: string -> Vector)
    ensures var (t, r) := Step(s, current, records, encoder);
            r != BuildFailed ==> Step(t, current, again, encoder) == (t, CacheHit)
    ensures var (t, r) := Step(s, current, records, encoder);
            r == BuildFailed ==> Step(t, current, again, encoder).1 != CacheHit
  {
  }

  /** Once a fingerprint is recorded the globals are aligned, and every refresh keeps
      them so unless it fails. */
  lemma StepKeepsAlignment(s: CacheState, current: Fingerprint, records: seq<Record>,
                           encoder: string -> Vector)
    requires s.lastHash.Some? ==> Aligned(s, encoder)
    ensures var (t, r) := Step(s, current, records, encoder);
            r != BuildFailed ==> t.lastHash.Some? && Aligned(t, encoder)
    ensures var (t, r) := Step(s, current, records, encoder);
            r == BuildFailed ==> t.lastHash == s.lastHash
  {
  }

  /** The corpus globals, updated in place. */
  class CorpusCache {
    var documents: seq<string>
    var index: Option<FlatIndex>
    var lastHash: Option<Fingerprint>

    function State(): CacheState
      reads this
    {
      CacheState(documents, index, lastHash)
    }

    /** The globals at import time: no documents, no index, no fingerprint. */
    constructor ()
      ensures State() == Initial
    {
      documents := [];
      index := None;
      lastHash := None;
    }

    /** `carregar_index_if_needed`. */
    method EnsureFresh(current: Fingerprint, records: seq<Record>, encoder: string -> Vector)
      returns (outcome: Refresh)
      modifies this
      ensures (State(), outcome) == Step(old(State()), current, records, encoder)
    {
      if lastHash == Some(current) {
        return CacheHit;
      }
      documents := FormatAll(records);
      var embeddings := EncodeAll(documents, encoder);
      if embeddings == [] {
        return BuildFailed;
      }
      index := Some(FlatIndex(|embeddings[0]|, embeddings));
      lastHash := Some(current);
      return Rebuilt;
    }
  }
}
