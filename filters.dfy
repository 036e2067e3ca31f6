/** `extrair_filtros`: the year, area and responsible-person filters a counting
    question carries, read with the three regular-expression searches of the
    source, whose greedy and leftmost semantics are written out here. */
module Filters {
  import opened Text

  type FilterMap = map<string, string>

  const YearKey := "ano"
  const AreaKey := "área"
  const ResponsibleKey := "responsável"

  /** `\d{4}` matches at `i`. */
  predicate FourDigitsAt(s: string, i: nat) {
    i + 4 <= |s| && IsDigit(s[i]) && IsDigit(s[i + 1]) && IsDigit(s[i + 2]) && IsDigit(s[i + 3])
  }

  /** The first four-digit window at or after `i`. */
  function FirstWindow(s: string, i: nat): (r: Option<nat>)
    requires i <= |s|
    ensures r.Some? ==> i <= r.value && FourDigitsAt(s, r.value)
                        && forall k :: i <= k < r.value ==> !FourDigitsAt(s, k)
    ensures r.None? ==> forall k :: i <= k <= |s| ==> !FourDigitsAt(s, k)
    decreases |s| - i
  {
    if i == |s| then None else if FourDigitsAt(s, i) then Some(i) else FirstWindow(s, i + 1)
  }

  /** Where the group of `(?:em\s+)?(\d{4})` starts when a match starts at `i`: the
      optional prefix is tried first, its `\s+` taking every space. */
  function YearGroupAt(s: string, i: nat): Option<nat>
    requires i <= |s|
  {
    if StartsAt(s, i, "em") && SkipSpaces(s, i + 2) > i + 2 && FourDigitsAt(s, SkipSpaces(s, i + 2))
    then Some(SkipSpaces(s, i + 2))
    else if FourDigitsAt(s, i) then Some(i)
    else None
  }

  /** `re.search`: the group of the leftmost match at or after `i`. */
  function YearSearch(s: string, i: nat): Option<nat>
    requires i <= |s|
    decreases |s| - i
  {
    if i == |s| then None
    else if YearGroupAt(s, i).Some? then YearGroupAt(s, i)
    else YearSearch(s, i + 1)
  }

  /** The optional `em\s+` prefix never changes the group: the search finds the
      first four consecutive digits of the question, word-bounded or not. */
  lemma {:induction false} YearSearchIsFirstWindow(s: string, i: nat)
    requires i <= |s|
    ensures YearSearch(s, i) == FirstWindow(s, i)
    decreases |s| - i
  {
    if i < |s| {
      var g := YearGroupAt(s, i);
      if g.Some? && g.value != i {
        var j := g.value;
        assert !IsDigit(s[i]) && !IsDigit(s[i + 1]);
        assert forall m :: i + 2 <= m < j ==> !IsDigit(s[m]);
        assert forall m :: i <= m < j ==> !FourDigitsAt(s, m);
        var r := FirstWindow(s, i);
        assert r.Some? && r.value == j;
      } else if g.None? {
        YearSearchIsFirstWindow(s, i + 1);
      }
    }
  }

  /** The case-insensitive keyword `w`, given in lower case, at `i`. */
  predicate KeywordAt(s: string, i: nat, w: string) {
    i + |w| <= |s| && Lower(s[i..i + |w|]) == w
  }

  /** The end of the run of `\w` characters from `j`. */
  function WordEnd(s: string, j: nat): (k: nat)
    requires j <= |s|
    ensures j <= k <= |s|
    ensures forall m :: j <= m < k ==> IsWordChar(s[m])
    ensures k < |s| ==> !IsWordChar(s[k])
    decreases |s| - j
  {
    if j < |s| && IsWordChar(s[j]) then WordEnd(s, j + 1) else j
  }

  /** `área\s+(\w+)` matches at `i` with its group at `s[j..k]`: spaces up to `j`, then
      a maximal run of word characters. */
  predicate AreaMatch(s: string, i: nat, j: nat, k: nat) {
    KeywordAt(s, i, AreaKey) && i + 4 < j < k <= |s|
    && (forall m :: i + 4 <= m < j ==> IsSpace(s[m]))
    && (forall m :: j <= m < k ==> IsWordChar(s[m]))
    && (k == |s| || !IsWordChar(s[k]))
  }

  /** The group of `área\s+(\w+)` when a match starts at `i`. */
  function AreaGroupAt(s: string, i: nat): Option<string>
    requires i <= |s|
  {
    if KeywordAt(s, i, AreaKey) then
      var j := SkipSpaces(s, i + 4);
      if j > i + 4 && j < |s| && IsWordChar(s[j]) then Some(s[j..WordEnd(s, j)]) else None
    else None
  }

  /** No character is both a word character and whitespace. */
  lemma WordCharIsNotSpace(c: char)
    ensures IsWordChar(c) ==> !IsSpace(c)
  {
  }

  /** The scan of `AreaGroupAt` finds exactly the matches `AreaMatch` describes, both
      ways: a match has one group, the one the scan returns. */
  lemma AreaGroupIsMatch(s: string, i: nat, j: nat, k: nat)
    requires i <= |s|
    ensures AreaMatch(s, i, j, k) ==> AreaGroupAt(s, i) == Some(s[j..k])
    ensures AreaGroupAt(s, i).Some? ==>
              var j' := SkipSpaces(s, i + 4);
              AreaMatch(s, i, j', WordEnd(s, j')) && AreaGroupAt(s, i).value == s[j'..WordEnd(s, j')]
  {
    if AreaMatch(s, i, j, k) {
      WordCharIsNotSpace(s[j]);
      assert SkipSpaces(s, i + 4) == j;
      assert WordEnd(s, j) == k;
    }
  }

  /** `re.search(r"área\s+(\w+)", s, re.IGNORECASE)`: the leftmost match position at
      or after `i`. */
  function AreaSearch(s: string, i: nat): (r: Option<nat>)
    requires i <= |s|
    ensures r.Some? ==> i <= r.value <= |s| && AreaGroupAt(s, r.value).Some?
                        && forall m :: i <= m < r.value ==> AreaGroupAt(s, m).None?
    ensures r.None? ==> forall m :: i <= m <= |s| ==> AreaGroupAt(s, m).None?
    decreases |s| - i
  {
    if i == |s| then None
    else if AreaGroupAt(s, i).Some? then Some(i)
    else AreaSearch(s, i + 1)
  }

  /** `[\w\s]`. */
  predicate IsRunChar(c: char) {
    IsWordChar(c) || IsSpace(c)
  }

  /** The end of the run of `[\w\s]` characters from `j`. */
  function RunEnd(s: string, j: nat): (k: nat)
    requires j <= |s|
    ensures j <= k <= |s|
    ensures forall m :: j <= m < k ==> IsRunChar(s[m])
    ensures k < |s| ==> !IsRunChar(s[k])
    decreases |s| - j
  {
    if j < |s| && IsRunChar(s[j]) then RunEnd(s, j + 1) else j
  }

  /** The bounds of the group of `responsável\s+([\w\s]+)` when a match starts at `i`.
      `\s+` takes every space; when nothing of `[\w\s]` follows them it gives one back,
      and that space alone is the group. */
  function ResponsibleGroupAt(s: string, i: nat): (r: Option<(nat, nat)>)
    requires i <= |s|
    ensures r.Some? ==> KeywordAt(s, i, ResponsibleKey) && i + 11 < r.value.0 < r.value.1 <= |s|
                        && (forall m :: i + 11 <= m < r.value.0 ==> IsSpace(s[m]))
                        && (forall m :: r.value.0 <= m < r.value.1 ==> IsRunChar(s[m]))
                        && (r.value.1 == |s| || !IsRunChar(s[r.value.1]))
    ensures r.None? ==> !KeywordAt(s, i, ResponsibleKey) || SkipSpaces(s, i + 11) <= i + 12
  {
    if KeywordAt(s, i, ResponsibleKey) then
      var e := SkipSpaces(s, i + 11);
      if e > i + 11 && e < |s| && IsWordChar(s[e]) then Some((e, RunEnd(s, e)))
      else if e > i + 12 then Some((e - 1, e))
      else None
    else None
  }

  /** `responsável\s+([\w\s]+)` matches at `i` with its group at `s[j..k]`, as the
      backtracking engine picks it: `\s+` keeps as many spaces as still leave the
      group a character (so it gives one space back when nothing of `[\w\s]` follows
      them), and the group runs on as far as `[\w\s]` does. */
  predicate ResponsibleMatch(s: string, i: nat, j: nat, k: nat) {
    KeywordAt(s, i, ResponsibleKey) && i + 11 < j < k <= |s|
    && (forall m :: i + 11 <= m < j ==> IsSpace(s[m]))
    && (forall m :: j <= m < k ==> IsRunChar(s[m]))
    && (k == |s| || !IsRunChar(s[k]))
    && (!IsSpace(s[j]) || j + 1 == |s| || !IsRunChar(s[j + 1]))
  }

  /** The scan of `ResponsibleGroupAt` finds exactly the matches `ResponsibleMatch`
      describes, both ways. */
  lemma ResponsibleGroupIsMatch(s: string, i: nat, j: nat, k: nat)
    requires i <= |s|
    ensures ResponsibleMatch(s, i, j, k) ==> ResponsibleGroupAt(s, i) == Some((j, k))
    ensures ResponsibleGroupAt(s, i).Some? ==>
              ResponsibleMatch(s, i, ResponsibleGroupAt(s, i).value.0, ResponsibleGroupAt(s, i).value.1)
  {
    if ResponsibleMatch(s, i, j, k) {
      if IsSpace(s[j]) {
        assert k == j + 1;
        assert SkipSpaces(s, i + 11) == j + 1;
        WordCharIsNotSpace(s[j]);
      } else {
        assert SkipSpaces(s, i + 11) == j;
        assert RunEnd(s, j) == k;
      }
    }
    var r := ResponsibleGroupAt(s, i);
    if r.Some? {
      var e := SkipSpaces(s, i + 11);
      if e > i + 11 && e < |s| && IsWordChar(s[e]) {
        WordCharIsNotSpace(s[e]);
      }
    }
  }

  /** `re.search(r"responsável\s+([\w\s]+)", s, re.IGNORECASE)`: the leftmost match
      position at or after `i`. */
  function ResponsibleSearch(s: string, i: nat): (r: Option<nat>)
    requires i <= |s|
    ensures r.Some? ==> i <= r.value <= |s| && ResponsibleGroupAt(s, r.value).Some?
                        && forall m :: i <= m < r.value ==> ResponsibleGroupAt(s, m).None?
    ensures r.None? ==> forall m :: i <= m <= |s| ==> ResponsibleGroupAt(s, m).None?
    decreases |s| - i
  {
    if i == |s| then None
    else if ResponsibleGroupAt(s, i).Some? then Some(i)
    else ResponsibleSearch(s, i + 1)
  }

  /** The filter value of `responsável`: the group, stripped and lower-cased. */
  function ResponsibleValue(s: string, i: nat): string
    requires i <= |s| && ResponsibleGroupAt(s, i).Some?
  {
    var g := ResponsibleGroupAt(s, i).value;
    Lower(Strip(s[g.0..g.1]))
  }

  /** The value of the year filter: the group of the leftmost match, which is the
      first run of four digits. */
  function YearFilter(s: string): (r: Option<string>)
    ensures r.None? <==> forall k :: 0 <= k <= |s| ==> !FourDigitsAt(s, k)
    ensures r.Some? ==> exists k :: FirstWindow(s, 0) == Some(k) && r.value == s[k..k + 4]
    ensures r.Some? ==> |r.value| == 4 && AllDigits(r.value)
  {
    YearSearchIsFirstWindow(s, 0);
    match FirstWindow(s, 0)
    case Some(k) =>
      assert YearSearch(s, 0) == Some(k);
      Some(s[k..k + 4])
    case None => None
  }

  /** The value of the area filter: the group of the leftmost match, lower-cased. */
  function AreaFilter(s: string): Option<string> {
    match AreaSearch(s, 0)
    case Some(i) => Some(Lower(AreaGroupAt(s, i).value))
    case None => None
  }

  /** The area filter is present exactly when `área\s+(\w+)` matches somewhere, and it
      is the lower-cased group of the leftmost match. */
  lemma AreaFilterIsLeftmostMatch(s: string)
    ensures AreaFilter(s).Some? <==> exists i: nat, j: nat, k: nat :: i <= |s| && AreaMatch(s, i, j, k)
    ensures AreaFilter(s).Some? ==>
              exists i: nat, j: nat, k: nat :: i <= |s| && AreaMatch(s, i, j, k) && AreaFilter(s).value == Lower(s[j..k])
                && forall m :: 0 <= m < i ==> AreaGroupAt(s, m).None?
  {
    match AreaSearch(s, 0)
    case Some(i) =>
      var j := SkipSpaces(s, i + 4);
      AreaGroupIsMatch(s, i, j, WordEnd(s, j));
    case None =>
      forall i: nat, j: nat, k: nat | i <= |s|
        ensures !AreaMatch(s, i, j, k)
      {
        AreaGroupIsMatch(s, i, j, k);
      }
  }

  /** The value of the responsible filter: the group of the leftmost match, stripped
      and lower-cased. */
  function ResponsibleFilter(s: string): (r: Option<string>)
    ensures r.Some? <==> exists i :: 0 <= i <= |s| && ResponsibleGroupAt(s, i).Some?
  {
    match ResponsibleSearch(s, 0)
    case Some(i) => Some(ResponsibleValue(s, i))
    case None => None
  }

  /** The responsible filter is present exactly when `responsável\s+([\w\s]+)` matches
      somewhere, and it is the stripped, lower-cased group of the leftmost match. */
  lemma ResponsibleFilterIsLeftmostMatch(s: string)
    ensures ResponsibleFilter(s).Some? <==>
              exists i: nat, j: nat, k: nat :: i <= |s| && ResponsibleMatch(s, i, j, k)
    ensures ResponsibleFilter(s).Some? ==>
              exists i: nat, j: nat, k: nat :: i <= |s| && ResponsibleMatch(s, i, j, k)
                && ResponsibleFilter(s).value == Lower(Strip(s[j..k]))
                && forall m: nat, j': nat, k': nat :: m < i ==> !ResponsibleMatch(s, m, j', k')
  {
    match ResponsibleSearch(s, 0)
    case Some(i) =>
      var g := ResponsibleGroupAt(s, i).value;
      ResponsibleGroupIsMatch(s, i, g.0, g.1);
      forall m: nat, j': nat, k': nat | m < i
        ensures !ResponsibleMatch(s, m, j', k')
      {
        ResponsibleGroupIsMatch(s, m, j', k');
      }
    case None =>
      forall i: nat, j: nat, k: nat | i <= |s|
        ensures !ResponsibleMatch(s, i, j, k)
      {
        ResponsibleGroupIsMatch(s, i, j, k);
      }
  }

  /** `extrair_filtros`. */
  function ExtractFilters(s: string): (f: FilterMap)
    ensures f.Keys <= {YearKey, AreaKey, ResponsibleKey}
    ensures YearKey in f <==> YearFilter(s).Some?
    ensures AreaKey in f <==> AreaFilter(s).Some?
    ensures ResponsibleKey in f <==> ResponsibleFilter(s).Some?
  {
    var f1: FilterMap := if YearFilter(s).Some? then map[YearKey := YearFilter(s).value] else map[];
    var f2 := if AreaFilter(s).Some? then f1[AreaKey := AreaFilter(s).value] else f1;
    if ResponsibleFilter(s).Some? then f2[ResponsibleKey := ResponsibleFilter(s).value] else f2
  }

  /** Each present filter holds the value its search found. */
  lemma FilterValues(s: string)
    ensures var f := ExtractFilters(s);
            (YearKey in f ==> f[YearKey] == YearFilter(s).value)
            && (AreaKey in f ==> f[AreaKey] == AreaFilter(s).value)
            && (ResponsibleKey in f ==> f[ResponsibleKey] == ResponsibleFilter(s).value)
  {
  }

  /** Filter values as `extrair_filtros` produces them: a four-digit year. */
  predicate WellFormed(f: FilterMap) {
    YearKey in f ==> |f[YearKey]| == 4 && AllDigits(f[YearKey])
  }

  lemma FiltersWellFormed(s: string)
    ensures WellFormed(ExtractFilters(s))
  {
  }

  /** Lower-casing neither creates nor removes whitespace. */
  lemma LowerKeepsSpaces(t: string)
    ensures forall m :: 0 <= m < |t| ==> (IsSpace(Lower(t)[m]) <==> IsSpace(t[m]))
  {
  }

  /** The responsible filter never starts or ends with whitespace; when the keyword is
      followed by two spaces or more and then by nothing of `[\w\s]`, it is empty. */
  lemma ResponsibleValueTrimmed(s: string, i: nat)
    requires i <= |s| && ResponsibleGroupAt(s, i).Some?
    ensures var v := ResponsibleValue(s, i);
            v != [] ==> !IsSpace(v[0]) && !IsSpace(v[|v| - 1])
    ensures var e := SkipSpaces(s, i + 11);
            (e == |s| || !IsRunChar(s[e])) ==> ResponsibleValue(s, i) == []
  {
    var g := ResponsibleGroupAt(s, i).value;
    var t := Strip(s[g.0..g.1]);
    StripIsSlice(s[g.0..g.1]);
    LowerKeepsSpaces(t);
    var e := SkipSpaces(s, i + 11);
    if e == |s| || !IsRunChar(s[e]) {
      assert g == (e - 1, e);
      assert IsBlank(s[g.0..g.1]);
    }
  }
}
