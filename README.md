# Doroteia retrieval pipeline in Dafny

A model of the text-level logic of the Doroteia question-answering service over
deficiency/risk records: how a raw record becomes its canonical twelve-line
document (`format_entry`, with the most recent dated note picked out by
`extrair_observacao_mais_recente`), how a question is classified
(`extrair_ids`, `_escolher_top_k`), how the in-memory corpus is refreshed when
the data file's fingerprint changes (`carregar_index_if_needed`), how
`buscar_documento` answers by identifier lookup or by semantic search, the
blank-context short-circuit and context blocks of `perguntar_ollama`, and the
question page of `app.py`: phrase normalisation, filter extraction and the
counting answer.

Modules follow the program's components:

- `Text`: Python string built-ins the code relies on (`strip`, `lower`,
  `capitalize`, `replace`, `join`, `str(int)`, `in`), the regular-expression
  character classes `\d`, `\s`, `\w`, and a line splitter used to read a
  rendered document back into its lines.
- `Notes`: the date scan, calendar validity (leap years included) and the
  choice of the latest dated span, both as a specification function and as the
  source's loop (`MostRecentNote`).
- `Records`: ordered key fallbacks, year extraction and the fixed rendering.
- `Classifier`: identifier tokens, the year rule, first-seen deduplication, the
  cap of three, and the result size of a semantic search.
- `Corpus`: the three module globals as a class `CorpusCache`, whose
  `EnsureFresh` is proved against the pure transition `Step`.
- `Retrieval`: identifier lookup and the semantic path over an abstract search.
- `Generation`: the short-circuit and numbered context blocks.
- `Normalization`, `Filters`, `Counting`, `App`: the question page.

The embedding model, the nearest-neighbour index's search, the fingerprint of
the data file, the decoded JSON records and the chat backend are parameters
(`encoder`, `search`, `current`, `records`, `backend`).

Behaviours of the code worth knowing, all of which the model keeps:

- The refresh is not atomic. `DOCUMENTOS` is replaced before the embeddings are
  computed (rag_utils.py:123-126), so a data file with no records raises at
  `embeddings[0]` after the documents were replaced and before the index and
  fingerprint were (`Corpus.EmptyFileFailsHalfway`,
  `Corpus.FailedRebuildBreaksAlignment`).
- A note span ends at the start of the next *match*, not of the next date-shaped
  token: the lazy pattern ends each match at the next newline and the scan
  resumes there, so a second date on the same line is not a token of its own
  (`Notes.MatchesFrom`, `Notes.MatchesOnSeparateLines`).
- When a search asks for more neighbours than the corpus holds, the index pads
  with -1 and Python reads the last document again, so the last document is
  repeated instead of the result being cut to the corpus
  (`Retrieval.PaddingReadsLastDocument`). The counting answer then counts the
  copies (`App.PaddedSearchCountsRequestedSize`).
- The area and responsible filters are substring tests on the lower-cased
  document text, not equality with the field: an area filter matches every area
  it is a prefix of (`Counting.RenderedRecordInItsArea`).
- `str.capitalize()` title-cases the first character, so an area or responsible
  name starting with "ß" is echoed with "Ss" (`Text.CapitalizeSharpS`).

## Model

| member | source | states |
|---|---|---|
| Notes.MatchesFromSound | rag_utils.py:39-40 | the scan finds date tokens at or after its start, in increasing order, and skips no token before its first match |
| Notes.MatchesOnSeparateLines | rag_utils.py:39-40 | consecutive matches are separated by a newline after the first one's date, so each line holds at most one match |
| Notes.MatchesFrom | rag_utils.py:39-40 | `re.finditer` from a position: a date token found at the scan position is a match and the scan resumes at the next newline after its date; otherwise the scan moves one character on |
| Notes.Matches | rag_utils.py:39-40 | the matches of the date pattern are increasing positions of `\d{2}/\d{2}/\d{4}` tokens |
| Notes.MatchesFromComplete | rag_utils.py:39-40 | after each match the next one is the first date token from the end of its line on, and after the last match's line no date token is left |
| Notes.MatchesComplete | rag_utils.py:39-40 | the matches are exactly the first date token, then after each match the first date token from the end of its line on, until none is left |
| Notes.ParseDate | rag_utils.py:47-54 | `strptime` succeeds exactly when the day, month and year fields form a calendar date (leap years included), and then yields those fields |
| Notes.FirstAfterIsNext | rag_utils.py:51 | the end of a span is the start of the following match, or the end of the text for the last match |
| Notes.FirstAfter | rag_utils.py:51 | the start of a later match, or the length of the text |
| Notes.Span | rag_utils.py:50-52 | the stripped slice from a match to the start of the following match or the end of the text |
| Notes.SpanIsSlice | rag_utils.py:50-52 | every span is a contiguous slice of the input |
| Notes.LatestIndex | rag_utils.py:56-58 | picks no entry iff no date parses; otherwise an entry whose date no other date exceeds and every earlier entry's date is strictly earlier |
| Notes.LatestUnique | rag_utils.py:57 | the entry a stable descending sort puts first is unique |
| Notes.LatestNote | rag_utils.py:35-60 | blank input gives "Sem observacoes"; input with no parseable date gives the stripped input |
| Notes.LatestExists | rag_utils.py:56-58 | a text with a parseable date has a latest dated span |
| Notes.LatestNoteIsSpan | rag_utils.py:45-58 | the note is the span of the chronologically latest date, ties going to the earliest span |
| Notes.LatestNoteIsSlice | rag_utils.py:36-60 | the note of a non-blank text is a substring of it |
| Notes.PickLatest | rag_utils.py:56-58 | the loop returns the first entry with the latest date: no entry is later, every earlier entry is strictly earlier |
| Notes.CollectDated | rag_utils.py:45-54 | the loop collects a (date, stripped span) pair for every match whose date parses, in text order |
| Notes.MostRecentNote | rag_utils.py:35-60 | the imperative extraction returns exactly the note of the specification `LatestNote` |
| Records.FirstTruthy | rag_utils.py:63-73 | the chained `or` over candidate keys: the first value that is present, not null and not empty, else the fallback |
| Records.FirstTruthyPicksFirst | rag_utils.py:63-73 | the value of the first key whose value is truthy is used |
| Records.FirstTruthyFallback | rag_utils.py:63-73 | with no truthy value under any candidate key, the placeholder is used |
| Records.ExtractYear | rag_utils.py:77-80 | the last four characters of a string of length at least four containing `/`, otherwise "Ano não informado" |
| Records.PlaceholdersHaveNoYear | rag_utils.py:72-83 | the placeholders "Não informado" and "Data não informada" map to "Ano não informado" |
| Records.YearOfDate | rag_utils.py:77-80 | a `DD/MM/YYYY` date yields its `YYYY` |
| Records.Normalize | rag_utils.py:62-83 | "Prazo da área" is always "Não informado" and both years are extracted from the resolved dates |
| Records.Lines | rag_utils.py:85-98 | twelve lines, line i being label i, ": " and value i, in the fixed order |
| Records.Render | rag_utils.py:85-98 | the twelve lines joined by newlines |
| Records.FormatEntry | rag_utils.py:62-98 | `format_entry`: the rendering of the normalised record |
| Records.RenderSplitsIntoLines | rag_utils.py:85-98 | splitting the rendering at newlines gives back the twelve labelled lines when no value spans several lines |
| Records.RenderNotEmpty | rag_utils.py:85-98 | a rendered record is never empty, so a found match is always truthy at line 155 |
| Records.RenderHasLine | rag_utils.py:85-98 | every `Label: value` line appears whole in the rendering |
| Records.MissingFieldsUsePlaceholders | rag_utils.py:67-83 | a record with no note or date fields gets "Sem observacoes", "Data não informada" and "Ano não informado" for both years |
| Records.CanonicalKeyWins | rag_utils.py:64-65 | a truthy canonical key wins over its alternates |
| Records.RiskFallsThrough | rag_utils.py:65 | with both risk keys falsy, the risk comes from `RISCO` if truthy, else is "Não informado" |
| Classifier.TokensFrom | rag_utils.py:102 | `re.findall` from a position: a word-bounded run of three to six digits at the scan position is a match and the scan resumes after it; otherwise it moves one character on |
| Classifier.TokensFromOrdered | rag_utils.py:102 | the spans found come in text order and do not overlap |
| Classifier.TokensSound | rag_utils.py:102 | every span the scan finds is a word-bounded run of three to six digits |
| Classifier.TokensComplete | rag_utils.py:102 | every word-bounded run of three to six digits is found by the scan |
| Classifier.Tokens | rag_utils.py:102 | the candidates of `re.findall` are word-bounded runs of three to six digits, in text order |
| Classifier.QualifiedAt | rag_utils.py:107 | a keyword `id`, `ponto`, `risco` or `deficiência` (not word-bounded) at a position, then 0 to 5 non-digits, then the number followed by a word boundary |
| Classifier.KeepId | rag_utils.py:106-110 | a candidate is kept when it is not in 1900..2100, or when the keyword search succeeds |
| Classifier.Kept | rag_utils.py:105-110 | the kept candidates, in order, never more than the candidates |
| Classifier.KeepCandidates | rag_utils.py:103-110 | the loop keeps, in order, the candidates passing the year rule |
| Classifier.KeptAreQualifiedTokens | rag_utils.py:105-110 | every kept value is a candidate that is not year-like or is preceded by a keyword and at most five non-digits |
| Classifier.KeptHasEveryQualifiedToken | rag_utils.py:105-110 | every candidate passing the year rule is kept |
| Classifier.Dedup | rag_utils.py:112 | the deduplicated list has no repeats and the same elements |
| Classifier.DedupFirstSeenOrder | rag_utils.py:112 | deduplication keeps elements in the order of their first occurrence |
| Classifier.IdsOf | rag_utils.py:100-112 | at most three identifiers |
| Classifier.IdsAreQualifiedTokens | rag_utils.py:100-112 | at most three distinct qualifying tokens of the lower-cased question, in first-seen order |
| Classifier.IdsHaveEveryQualifiedToken | rag_utils.py:100-112 | every qualifying token is kept, and is an identifier unless the three identifiers were all first seen before it |
| Classifier.ExtractIds | rag_utils.py:100-112 | the imperative extraction returns exactly `IdsOf` |
| Classifier.ChooseTopK | rag_utils.py:131-137 | k is 10, 20 or 50; 50 iff `quanto`/`quantos` is a word of the question; 20 iff not that but a listing word is |
| Corpus.FormatAll | rag_utils.py:123 | one document per record, in order |
| Corpus.EncodeAll | rag_utils.py:124 | one embedding per document |
| Corpus.Step | rag_utils.py:114-129 | one refresh: no change on an unchanged fingerprint; else documents replaced, then on an empty batch a failure, otherwise index and fingerprint replaced |
| Corpus.UnchangedFileIsCacheHit | rag_utils.py:116-118 | an unchanged fingerprint changes no state |
| Corpus.ChangedFileRebuilds | rag_utils.py:118-127 | a changed fingerprint with records gives the formatted records in order, one vector per document, and the new fingerprint |
| Corpus.EmptyFileFailsHalfway | rag_utils.py:123-125 | a changed fingerprint with no records fails after replacing the documents and before the index and fingerprint |
| Corpus.FailedRebuildBreaksAlignment | rag_utils.py:123-127 | the refresh is not atomic: a failed rebuild can leave the index misaligned with the documents |
| Corpus.SecondCallIsCacheHit | rag_utils.py:116-129 | a second call with the same fingerprint after a successful one is a no-op; after a failed one it rebuilds again |
| Corpus.StepKeepsAlignment | rag_utils.py:116-127 | every successful refresh leaves documents and index aligned and a fingerprint recorded |
| Corpus.CorpusCache.constructor | rag_utils.py:15-17 | no documents, no index, no fingerprint at import time |
| Corpus.CorpusCache.EnsureFresh | rag_utils.py:114-129 | the globals after the call, and its outcome, are those of `Step` |
| Retrieval.RecordKeys | rag_utils.py:153 | the comparison key of each record is its stripped, lower-cased `str(id_deficiencia)` |
| Retrieval.FirstFrom | rag_utils.py:151-154 | the first position holding the key, or none when no position does |
| Retrieval.LookupId | rag_utils.py:149-155 | the first record whose key equals the identifier's, formatted, or the not-found marker |
| Retrieval.LookupIdFindsFirst | rag_utils.py:149-155 | an identifier some record carries yields the first such record, formatted |
| Retrieval.LookupIdNotFound | rag_utils.py:155 | an identifier no record carries yields "ID <id> não encontrado" |
| Retrieval.LookupAll | rag_utils.py:148-157 | one result per identifier |
| Retrieval.LookupAllInOrder | rag_utils.py:148-157 | result i is the lookup of identifier i |
| Retrieval.LookupIds | rag_utils.py:148-157 | the imperative loop returns exactly `LookupAll` |
| Retrieval.PyIndex | rag_utils.py:162 | Python indexing: non-negative positions from the start, negative ones from the end, anything else fails |
| Retrieval.AtPositions | rag_utils.py:162 | succeeds iff every position indexes the documents, and then yields the document at each position in order |
| Retrieval.PaddingReadsLastDocument | rag_utils.py:161-162 | -1 padding of the search reads the last document once per padded slot |
| Retrieval.IdPathIsLookup | rag_utils.py:139-157 | a question naming identifiers gets one result per identifier, in order, independent of the search |
| Retrieval.Answer | rag_utils.py:139-162 | a failed refresh raises; identifiers found give the lookups; otherwise the documents at the positions of a search of the chosen size |
| Retrieval.SemanticPathUsesIndex | rag_utils.py:159-162 | after a successful refresh from any state whose recorded fingerprint comes with an index, a question without identifiers gets the documents at the positions of a search of the chosen size |
| Retrieval.Retrieve | rag_utils.py:139-162 | the refresh runs first; the new state is that of `Step` and the result that of `Answer` |
| Generation.Blocks | rag_utils.py:169 | block i is `[Contexto do ponto i+1]`, a newline and context i |
| Generation.UserMessage | rag_utils.py:169-177 | the numbered blocks joined by blank lines, then "Pergunta: " and the question |
| Generation.Ask | rag_utils.py:164-171 | the not-found text when every context is blank, else the backend's reply to the user message |
| Generation.AskShortCircuits | rag_utils.py:165-166 | blank or no contexts give "Contexto não encontrado." whatever the backend; otherwise the backend's reply to the user message |
| Generation.BlockNumberedFromOne | rag_utils.py:169 | the header of block i reads back as the number i + 1 |
| Generation.FormatContextsSnoc | rag_utils.py:169 | one more context appends one block after a blank line and leaves earlier blocks unchanged |
| Generation.MessageHoldsEachContext | rag_utils.py:169-177 | every context and its block appear whole in the user message |
| Generation.MessageEndsWithQuestion | rag_utils.py:177 | the user message ends with "Pergunta: " and the question |
| Normalization.ApplyRules | app.py:8-15 | the rules applied in table order, each replacing every occurrence of its phrase |
| Normalization.NormalizeQuestion | app.py:7-16 | the loop applies the replacement table in its order |
| Normalization.ApplyAbsent | app.py:14-15 | rules whose phrases are absent leave the text unchanged |
| Normalization.UntouchedQuestionUnchanged | app.py:7-16 | a question with none of the four phrases is returned unchanged |
| Normalization.ReplaceRemoves | app.py:15 | after replacing a phrase that cannot re-form, it no longer occurs |
| Normalization.RuleOrder | app.py:8-15 | after the first rule no "fechado" is left, so "foi fechado" rewrites nothing; after the third no "fechou" is left |
| Filters.FirstWindow | app.py:22 | the first position holding four consecutive digits, or none |
| Filters.YearSearch | app.py:22 | `re.search` for `(?:em\s+)?(\d{4})`: the group of the leftmost match, the optional prefix tried first |
| Filters.YearSearchIsFirstWindow | app.py:22 | the optional `em\s+` prefix never moves the group: it is the first run of four digits, not word-bounded |
| Filters.YearFilter | app.py:21-24 | present iff the question holds four consecutive digits, and then the first such run |
| Filters.AreaGroupIsMatch | app.py:27 | the group at a position is the word run after `área` and whitespace, both ways |
| Filters.AreaSearch | app.py:27 | the leftmost position where the area pattern matches |
| Filters.AreaFilter | app.py:27-29 | the lower-cased group of the leftmost area match, when there is one |
| Filters.AreaFilterIsLeftmostMatch | app.py:26-29 | present iff the area pattern matches, and then the lower-cased group of the leftmost match |
| Filters.ResponsibleGroupAt | app.py:32 | the group after `responsável` and whitespace is a maximal run of word and space characters |
| Filters.ResponsibleMatch | app.py:32 | the match the backtracking engine picks: the most spaces that still leave a group, then the longest run of word and space characters |
| Filters.ResponsibleGroupIsMatch | app.py:32 | the group at a position is exactly the match `ResponsibleMatch` describes, both ways |
| Filters.ResponsibleSearch | app.py:32 | the leftmost position where the responsible pattern matches |
| Filters.ResponsibleValue | app.py:34 | the group, stripped and lower-cased |
| Filters.ResponsibleFilter | app.py:31-34 | present iff the responsible pattern matches somewhere |
| Filters.ResponsibleFilterIsLeftmostMatch | app.py:31-34 | present iff the pattern matches, and then the stripped, lower-cased group of the leftmost match |
| Filters.ResponsibleValueTrimmed | app.py:32-34 | the value never starts or ends with whitespace, and is empty when only spaces follow the keyword |
| Filters.ExtractFilters | app.py:18-36 | keys are among `ano`, `área`, `responsável`, each present iff its search succeeds |
| Filters.FilterValues | app.py:18-36 | each present key holds the value its search found |
| Filters.FiltersWellFormed | app.py:22-24 | a year filter is always four digits |
| Counting.ClosingAt | app.py:55 | `Encerramento:`, every following space, two digits, `/`, two digits, `/`, then the year, case-sensitive |
| Counting.Passes | app.py:55-60 | a context passes when each present filter's test succeeds: closing year, `área: <v>` and `responsável: <v>` in the lower-cased context |
| Counting.Count | app.py:53-61 | the count never exceeds the number of contexts |
| Counting.NoFiltersCountsAll | app.py:53-61 | without filters every context is counted |
| Counting.MoreFiltersCountLess | app.py:55-60 | adding filters never increases the count |
| Counting.CountIsNumberPassing | app.py:53-61 | the count is the number of contexts passing every present filter |
| Counting.CountPassing | app.py:53-61 | the imperative loop returns exactly `Count` |
| Counting.Sentence | app.py:62-69 | the head with the total, the clause of each present filter with capitalised values, a full stop |
| Text.Capitalize | app.py:66-68 | `str.capitalize()`: the first character title-cased, one character longer for a leading "ß", and the rest lower-cased |
| Counting.SentenceStatesTotal | app.py:62 | the sentence opens with "Foram encontrados " and the total, which reads back as that number |
| Counting.SentenceEndsWithStop | app.py:69 | the sentence ends with a full stop |
| Counting.SentenceNamesFilters | app.py:62-69 | the year, area and responsible clauses appear in that order, each non-empty iff its filter is present |
| Counting.RenderSentence | app.py:62-69 | the sentence grown clause by clause equals `Sentence` |
| Counting.CountClosed | app.py:53-69 | the counting branch returns the count and its sentence |
| Counting.RenderedRecordClosedInItsYear | app.py:55 | a rendered record with a `DD/MM/YYYY` closing date passes the year filter of that year |
| Counting.RenderedRecordInItsArea | app.py:57 | a rendered record passes the area filter of any prefix of its lower-cased area |
| App.CountingAt | app.py:52 | `quantos?\s+pontos?.*encerrados?` matches at a position of the lower-cased question |
| App.IsCountingQuestion | app.py:52 | the counting pattern matches somewhere in the lower-cased question |
| App.Reply | app.py:49-71 | the counting sentence for a counting question, else the generation answer |
| App.BackendOnlyForOtherQuestions | app.py:52-71 | counting questions and blank contexts never reach the backend; other questions get the backend's reply |
| App.CountingIgnoresCase | app.py:52 | the counting test ignores case |
| App.CountingQuestionMentionsClosed | app.py:52 | a counting question mentions `ponto` and later, on the same line, `encerrado` |
| App.PaddedSearchCountsRequestedSize | app.py:53-61 | with padded search results and no filters, the count is the size of the search, not of the corpus |
| App.HandleQuestion | app.py:44-71 | the page normalises, retrieves, then answers by `Reply`; a retrieval that raises is returned as its failure |

## Left out

- The embedding model (rag_utils.py:14, 124, 160) is the parameter `encoder`; its float numerics are not modelled, and an encoder that raises is not modelled.
- The flat L2 index's search (rag_utils.py:125-126, 161) is the parameter `search`, returning positions; distances and ranking are not modelled.
- The MD5 fingerprint of the data file (rag_utils.py:31-33) is the parameter `current`.
- Reading and decoding the JSON file (rag_utils.py:120-121, 145-146) is the parameter `records`; the model assumes both reads of one request see the same file, and a missing or malformed file is not modelled.
- Records hold only string values or JSON `null`; numbers, booleans and nested values, and their `str()` renderings, are not modelled.
- The HTTP request to the chat backend, the system prompt and the response decoding (rag_utils.py:20-28, 173-184) are the parameter `backend` applied to the user message.
- Flask routing, form access, templates and the runner (app.py:1-5, 38-47, 73-76) are web plumbing.
- `print` logging and the environment variable (rag_utils.py:11, 119, 129, 144) have no behaviour to state.
- Character classes: `\d` is ASCII digits; `\w`, `str.lower`, `str.capitalize` (its "ß" to "Ss" included) and case-insensitive matching cover ASCII and Latin-1 only; `\s` and `str.strip` use Python's whitespace set.
- Counting.Passes: the year value is matched as literal text, which is what the pattern does for the four-digit values `ExtractFilters` produces; a year value holding pattern metacharacters is not modelled.
