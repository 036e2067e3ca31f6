/** Normalisation of a raw deficiency record into its canonical text document
    (`format_entry` and its inner `extrair_ano`). */
module Records {
  import opened Text
  import Notes

  /** A decoded JSON record: field name to value, `None` standing for JSON `null`.
      Only string values are modelled. */
  type Record = map<string, Option<string>>

  const NotInformed := "Não informado"
  const DateNotInformed := "Data não informada"
  const YearNotInformed := "Ano não informado"

  /** Candidate keys of each field, in the order `format_entry` tries them. */
  const IdKeys: seq<string> := ["id_deficiencia", "ID DEFICIÊNCIA"]
  const AreaKeys: seq<string> := ["area_de_origem", "ÁREA DE ORIGEM"]
  const RiskKeys: seq<string> := ["deficiencia", "DEFICIÊNCIA", "RISCO"]
  const StatusKeys: seq<string> := ["status", "STATUS"]
  const NoteKeys: seq<string> := ["observacao", "OBSERVAÇÃO", "update"]
  const ResponsibleKeys: seq<string> := ["gerente_responsavel", "GERENTE RESPONSÁVEL"]
  const CriticalityKeys: seq<string> := ["criticidade", "CRITICIDADE"]
  const OpeningKeys: seq<string> := ["data_abertura_deficiencia", "DATA ABERTURA DEFICIÊNCIA"]
  const ClosingKeys: seq<string> := ["data_encerramento", "DATA ENCERRAMENTO"]

  /** `entry.get(key)` is truthy: present, not `null` and not the empty string. */
  predicate Truthy(entry: Record, key: string) {
    key in entry && entry[key].Some? && entry[key].value != ""
  }

  /** `entry.get(k1) or entry.get(k2) or ... or fallback`. */
  function FirstTruthy(entry: Record, keys: seq<string>, fallback: string): string {
    if keys == [] then fallback
    else if Truthy(entry, keys[0]) then entry[keys[0]].value
    else FirstTruthy(entry, keys[1..], fallback)
  }

  /** The value of the first key whose value is truthy wins. */
  lemma {:induction false} FirstTruthyPicksFirst(entry: Record, keys: seq<string>, fallback: string, i: nat)
    requires i < |keys| && Truthy(entry, keys[i])
    requires forall j :: 0 <= j < i ==> !Truthy(entry, keys[j])
    ensures FirstTruthy(entry, keys, fallback) == entry[keys[i]].value
  {
    if i > 0 {
      assert !Truthy(entry, keys[0]);
      assert forall j :: 0 <= j < i - 1 ==> keys[1..][j] == keys[j + 1];
      FirstTruthyPicksFirst(entry, keys[1..], fallback, i - 1);
    }
  }

  /** With no truthy value under any key, the fallback is used. */
  lemma {:induction false} FirstTruthyFallback(entry: Record, keys: seq<string>, fallback: string)
    requires forall j :: 0 <= j < |keys| ==> !Truthy(entry, keys[j])
    ensures FirstTruthy(entry, keys, fallback) == fallback
  {
    if keys != [] {
      assert !Truthy(entry, keys[0]);
      assert forall j :: 0 <= j < |keys| - 1 ==> keys[1..][j] == keys[j + 1];
      FirstTruthyFallback(entry, keys[1..], fallback);
    }
  }

  /** `extrair_ano`: the last four characters of a string of at least four
      characters that contains `/`; the year placeholder otherwise. */
  function ExtractYear(data: string): (r: string)
    ensures |data| >= 4 && '/' in data ==> r == data[|data| - 4..] && |r| == 4
    ensures !(|data| >= 4 && '/' in data) ==> r == YearNotInformed
  {
    if |data| >= 4 && '/' in data then data[|data| - 4..] else YearNotInformed
  }

  /** A field left blank renders a placeholder, which has no year. */
  lemma PlaceholdersHaveNoYear()
    ensures ExtractYear(NotInformed) == YearNotInformed
    ensures ExtractYear(DateNotInformed) == YearNotInformed
  {
    assert forall k :: 0 <= k < |NotInformed| ==> NotInformed[k] != '/';
    assert forall k :: 0 <= k < |DateNotInformed| ==> DateNotInformed[k] != '/';
  }

  /** A `DD/MM/YYYY` date yields its `YYYY`. */
  lemma YearOfDate(d: string)
    requires |d| == 10 && d[2] == '/'
    ensures ExtractYear(d) == d[6..]
  {
    assert d[2] in d;
  }

  /** The fields of the canonical document, in their rendering order. */
  datatype Document = Document(
    id: string, area: string, responsible: string, risk: string, status: string,
    criticality: string, deadline: string, opening: string, openingYear: string,
    closing: string, closingYear: string, note: string)

  /** The field resolution of `format_entry`. */
  function Normalize(entry: Record): (d: Document)
    ensures d.deadline == NotInformed
    ensures d.openingYear == ExtractYear(d.opening) && d.closingYear == ExtractYear(d.closing)
  {
    Document(
      FirstTruthy(entry, IdKeys, NotInformed),
      FirstTruthy(entry, AreaKeys, NotInformed),
      FirstTruthy(entry, ResponsibleKeys, NotInformed),
      FirstTruthy(entry, RiskKeys, NotInformed),
      FirstTruthy(entry, StatusKeys, NotInformed),
      FirstTruthy(entry, CriticalityKeys, NotInformed),
      NotInformed,
      FirstTruthy(entry, OpeningKeys, DateNotInformed),
      ExtractYear(FirstTruthy(entry, OpeningKeys, DateNotInformed)),
      FirstTruthy(entry, ClosingKeys, NotInformed),
      ExtractYear(FirstTruthy(entry, ClosingKeys, NotInformed)),
      Notes.LatestNote(FirstTruthy(entry, NoteKeys, "")))
  }

  const Labels: seq<string> := [
    "ID", "Área", "Responsável", "Risco", "Status", "Criticidade", "Prazo da área",
    "Abertura", "Ano de abertura", "Encerramento", "Ano de encerramento", "Observação"]

  function Values(d: Document): seq<string> {
    [d.id, d.area, d.responsible, d.risk, d.status, d.criticality, d.deadline,
     d.opening, d.openingYear, d.closing, d.closingYear, d.note]
  }

  /** The twelve `Label: value` lines. */
  function Lines(d: Document): (ls: seq<string>)
    ensures |ls| == |Labels| == 12
    ensures forall i :: 0 <= i < 12 ==> ls[i] == Labels[i] + ": " + Values(d)[i]
  {
    seq(12, i requires 0 <= i < 12 => Labels[i] + ": " + Values(d)[i])
  }

  function Render(d: Document): string {
    Join(Lines(d), "\n")
  }

  /** `format_entry`. */
  function FormatEntry(entry: Record): string {
    Render(Normalize(entry))
  }

  /** A rendering is never empty, so a found record is always truthy. */
  lemma RenderNotEmpty(d: Document)
    ensures Render(d) != ""
  {
    var ls := Lines(d);
    assert ls == ls[..11] + [ls[11]];
    JoinSnoc(ls[..11], ls[11], "\n");
  }

  /** Every labelled line of the document appears, whole, in its rendering. */
  lemma RenderHasLine(d: Document, i: nat)
    requires i < 12
    ensures Occurs(Render(d), Labels[i] + ": " + Values(d)[i])
  {
    JoinKeepsEach(Lines(d), "\n", i);
  }

  /** The rendering reads back, by `split("\n")`, as the twelve labelled lines in
      their fixed order, provided no value spans several lines. */
  lemma RenderSplitsIntoLines(d: Document)
    requires forall i :: 0 <= i < 12 ==> '\n' !in Values(d)[i]
    ensures SplitLines(Render(d)) == Lines(d)
  {
    var ls := Lines(d);
    forall i | 0 <= i < 12
      ensures '\n' !in ls[i]
    {
      assert forall k :: 0 <= k < |Labels[i]| ==> Labels[i][k] != '\n';
      assert ls[i] == (Labels[i] + ": ") + Values(d)[i];
    }
    SplitJoinedLines(ls);
  }

  /** A record without any note field gets the "no observations" placeholder, and
      one without opening or closing dates gets no years. */
  lemma MissingFieldsUsePlaceholders(entry: Record)
    requires forall k :: k in NoteKeys + OpeningKeys + ClosingKeys ==> !Truthy(entry, k)
    ensures Normalize(entry).note == Notes.NoNotes
    ensures Normalize(entry).opening == DateNotInformed
    ensures Normalize(entry).openingYear == YearNotInformed
    ensures Normalize(entry).closingYear == YearNotInformed
  {
    assert forall i :: 0 <= i < |NoteKeys| ==> NoteKeys[i] in NoteKeys + OpeningKeys + ClosingKeys;
    assert forall i :: 0 <= i < |OpeningKeys| ==> OpeningKeys[i] in NoteKeys + OpeningKeys + ClosingKeys;
    assert forall i :: 0 <= i < |ClosingKeys| ==> ClosingKeys[i] in NoteKeys + OpeningKeys + ClosingKeys;
    FirstTruthyFallback(entry, NoteKeys, "");
    FirstTruthyFallback(entry, OpeningKeys, DateNotInformed);
    FirstTruthyFallback(entry, ClosingKeys, NotInformed);
    PlaceholdersHaveNoYear();
  }

  /** The canonical key wins over its alternates whenever its value is truthy. */
  lemma CanonicalKeyWins(entry: Record)
    requires Truthy(entry, "area_de_origem") && Truthy(entry, "deficiencia")
    ensures Normalize(entry).area == entry["area_de_origem"].value
    ensures Normalize(entry).risk == entry["deficiencia"].value
  {
    FirstTruthyPicksFirst(entry, AreaKeys, NotInformed, 0);
    FirstTruthyPicksFirst(entry, RiskKeys, NotInformed, 0);
  }

  /** A falsy value falls through: the risk comes from `RISCO` when both risk keys
      before it are missing, null or empty, and is the placeholder when all three are. */
  lemma RiskFallsThrough(entry: Record)
    requires !Truthy(entry, "deficiencia") && !Truthy(entry, "DEFICIÊNCIA")
    ensures Truthy(entry, "RISCO") ==> Normalize(entry).risk == entry["RISCO"].value
    ensures !Truthy(entry, "RISCO") ==> Normalize(entry).risk == NotInformed
  {
    if Truthy(entry, "RISCO") {
      FirstTruthyPicksFirst(entry, RiskKeys, NotInformed, 2);
    } else {
      FirstTruthyFallback(entry, RiskKeys, NotInformed);
    }
  }
}
