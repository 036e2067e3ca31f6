/** `normalizar_pergunta`: the question's "fechado" vocabulary is rewritten to the
    "encerrado" vocabulary of the records, one phrase after another. */
module Normalization {
  import opened Text

  /** The replacement table, in the order the loop visits it. */
  const Replacements: seq<(string, string)> := [
    ("fechado", "encerrado"),
    ("foi fechado", "foi encerrado"),
    ("fechou", "encerrado"),
    ("data de fechamento", "data de encerramento")]

  predicate NonEmptyPatterns(rules: seq<(string, string)>) {
    forall i :: 0 <= i < |rules| ==> rules[i].0 != []
  }

  /** The question after the rules have run in order, each replacing every occurrence
      of its phrase. */
  function ApplyRules(q: string, rules: seq<(string, string)>): string
    requires NonEmptyPatterns(rules)
    decreases |rules|
  {
    if rules == [] then q
    else ReplaceAll(ApplyRules(q, rules[..|rules| - 1]), rules[|rules| - 1].0, rules[|rules| - 1].1)
  }

  /** `normalizar_pergunta`. */
  method NormalizeQuestion(pergunta: string) returns (r: string)
    ensures r == ApplyRules(pergunta, Replacements)
  {
    r := pergunta;
    for i := 0 to |Replacements|
      invariant r == ApplyRules(pergunta, Replacements[..i])
    {
      assert Replacements[..i + 1][..i] == Replacements[..i];
      r := ReplaceAll(r, Replacements[i].0, Replacements[i].1);
    }
    assert Replacements[..|Replacements|] == Replacements;
  }

  /** Rules whose phrases are all absent leave the question unchanged. */
  lemma {:induction false} ApplyAbsent(q: string, rules: seq<(string, string)>)
    requires NonEmptyPatterns(rules)
    requires forall i :: 0 <= i < |rules| ==> !Occurs(q, rules[i].0)
    ensures ApplyRules(q, rules) == q
    decreases |rules|
  {
    if rules != [] {
      ApplyAbsent(q, rules[..|rules| - 1]);
      ReplaceAbsent(q, rules[|rules| - 1].0, rules[|rules| - 1].1);
    }
  }

  /** A question without any of the four phrases is returned unchanged. */
  lemma UntouchedQuestionUnchanged(q: string)
    requires !Occurs(q, "fechado") && !Occurs(q, "foi fechado")
    requires !Occurs(q, "fechou") && !Occurs(q, "data de fechamento")
    ensures ApplyRules(q, Replacements) == q
  {
    ApplyAbsent(q, Replacements);
  }

  /** A replacement can never re-form the phrase it replaces: `rep` lacks the
      phrase's first character, and no proper suffix of the phrase agrees with the
      start of `rep`. */
  predicate CannotReform(pat: string, rep: string) {
    pat != []
    && (forall k :: 0 <= k < |rep| ==> rep[k] != pat[0])
    && forall m :: 1 <= m < |pat| ==> Disagrees(pat, rep, m)
  }

  /** The suffix of `pat` from `m` and the start of `rep` differ somewhere. */
  predicate Disagrees(pat: string, rep: string, m: nat) {
    exists j :: 0 <= j < |rep| && j < |pat| - m && rep[j] != pat[m + j]
  }

  /** A replaced text that starts with a proper suffix of the phrase comes from a
      text that starts with the same suffix. */
  lemma {:induction false} ReplacedStartsBack(t: string, pat: string, rep: string, m: nat)
    requires CannotReform(pat, rep) && 1 <= m <= |pat|
    ensures StartsAt(ReplaceAll(t, pat, rep), 0, pat[m..]) ==> StartsAt(t, 0, pat[m..])
    decreases |t|
  {
    var w := pat[m..];
    var r := ReplaceAll(t, pat, rep);
    if m < |pat| && |t| >= |pat| {
      if t[..|pat|] == pat {
        assert Disagrees(pat, rep, m);
        var j :| 0 <= j < |rep| && j < |pat| - m && rep[j] != pat[m + j];
        assert r == rep + ReplaceAll(t[|pat|..], pat, rep);
        assert r[j] != w[j];
      } else {
        var rt := ReplaceAll(t[1..], pat, rep);
        assert r == [t[0]] + rt;
        ReplacedStartsBack(t[1..], pat, rep, m + 1);
        if StartsAt(r, 0, w) {
          StartsAtTail(t[0], rt, w);
          assert w[1..] == pat[m + 1..];
          assert t == [t[0]] + t[1..];
          StartsAtCons(t[0], t[1..], w);
        }
      }
    }
  }

  /** After replacing a phrase that cannot re-form, the phrase no longer occurs. */
  lemma {:induction false} ReplaceRemoves(s: string, pat: string, rep: string)
    requires CannotReform(pat, rep)
    ensures !Occurs(ReplaceAll(s, pat, rep), pat)
    decreases |s|
  {
    var r := ReplaceAll(s, pat, rep);
    if |s| >= |pat| {
      if s[..|pat|] == pat {
        var rt := ReplaceAll(s[|pat|..], pat, rep);
        ReplaceRemoves(s[|pat|..], pat, rep);
        assert r == rep + rt;
        forall i | 0 <= i <= |r|
          ensures !StartsAt(r, i, pat)
        {
          if i + |pat| <= |r| {
            if i < |rep| {
              assert r[i..i + |pat|][0] == rep[i];
            } else {
              assert r[i..i + |pat|] == rt[i - |rep|..i - |rep| + |pat|];
              assert !StartsAt(rt, i - |rep|, pat);
            }
          }
        }
      } else {
        var rt := ReplaceAll(s[1..], pat, rep);
        ReplaceRemoves(s[1..], pat, rep);
        ReplacedStartsBack(s[1..], pat, rep, 1);
        assert r == [s[0]] + rt;
        forall i | 0 <= i <= |r|
          ensures !StartsAt(r, i, pat)
        {
          if i + |pat| <= |r| {
            if i == 0 {
              assert s[..|pat|] == [s[0]] + s[1..][..|pat| - 1];
              assert r[..|pat|] == [s[0]] + rt[..|pat| - 1];
            } else {
              assert r[i..i + |pat|] == rt[i - 1..i - 1 + |pat|];
              assert !StartsAt(rt, i - 1, pat);
            }
          }
        }
      }
    }
  }

  /** Neither "encerrado" rule can re-form the phrase it replaces. */
  lemma ClosingPhrasesCannotReform()
    ensures CannotReform("fechado", "encerrado")
    ensures CannotReform("fechou", "encerrado")
  {
    var rep := "encerrado";
    forall pat, m | pat in {"fechado", "fechou"} && 1 <= m < |pat|
      ensures Disagrees(pat, rep, m)
    {
      if m == 1 {
        assert rep[1] != pat[2];
      } else {
        assert rep[0] != pat[m];
      }
    }
  }

  /** The table's order matters: every "fechado" is already gone when the
      "foi fechado" rule runs, so that rule never rewrites anything; and once its rule
      has run, no "fechou" is left. */
  lemma RuleOrder(q: string)
    ensures !Occurs(ApplyRules(q, Replacements[..1]), "fechado")
    ensures ApplyRules(q, Replacements[..2]) == ApplyRules(q, Replacements[..1])
    ensures !Occurs(ApplyRules(q, Replacements[..3]), "fechou")
  {
    assert Replacements[..1][..0] == [];
    assert Replacements[..2][..1] == Replacements[..1];
    assert Replacements[..3][..2] == Replacements[..2];
    var s1 := ApplyRules(q, Replacements[..1]);
    assert |Replacements[..1]| == 1 && Replacements[..1][0] == ("fechado", "encerrado");
    assert ApplyRules(q, Replacements[..1][..0]) == q;
    assert s1 == ReplaceAll(q, "fechado", "encerrado");
    ClosingPhrasesCannotReform();
    ReplaceRemoves(q, "fechado", "encerrado");
    AbsentWithin(s1, "fechado", "foi fechado", 4);
    ReplaceAbsent(s1, "foi fechado", "foi encerrado");
    assert Replacements[..3][2] == ("fechou", "encerrado");
    ReplaceRemoves(ApplyRules(q, Replacements[..2]), "fechou", "encerrado");
  }
}
