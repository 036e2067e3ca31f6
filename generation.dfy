/** The part of `perguntar_ollama` that runs before the chat request: the blank-context
    short-circuit and the numbered context blocks of the user message. The chat
    backend is a parameter. */
module Generation {
  import opened Text

  /** The answer given when there is no usable context. */
  const ContextNotFound := "Contexto não encontrado."

  const BlockHeader := "[Contexto do ponto "
  const QuestionLabel := "\n\nPergunta: "

  /** `not contextos or all(c.strip() == "" for c in contextos)`. */
  predicate NoContext(ctxs: seq<string>) {
    forall i :: 0 <= i < |ctxs| ==> IsBlank(ctxs[i])
  }

  /** `f"[Contexto do ponto {i+1}]\n{ctx}"`: the block of the `i`-th context, numbered
      from one. */
  function Block(i: nat, ctx: string): string {
    BlockHeader + NatToString(i + 1) + "]\n" + ctx
  }

  function Blocks(ctxs: seq<string>): (bs: seq<string>)
    ensures |bs| == |ctxs|
    ensures forall i :: 0 <= i < |ctxs| ==> bs[i] == Block(i, ctxs[i])
  {
    seq(|ctxs|, i requires 0 <= i < |ctxs| => Block(i, ctxs[i]))
  }

  /** The blocks joined by blank lines. */
  function FormatContexts(ctxs: seq<string>): string {
    Join(Blocks(ctxs), "\n\n")
  }

  /** The content of the user message sent to the chat backend. */
  function UserMessage(ctxs: seq<string>, pergunta: string): string {
    FormatContexts(ctxs) + QuestionLabel + pergunta
  }

  /** `perguntar_ollama`: the backend is asked only when some context is not blank. */
  function Ask(ctxs: seq<string>, pergunta: string, backend: string -> string): string {
    if NoContext(ctxs) then ContextNotFound else backend(UserMessage(ctxs, pergunta))
  }

  /** Blank contexts short-circuit whatever the backend would say; otherwise the
      backend's reply to the user message is the answer. */
  lemma AskShortCircuits(ctxs: seq<string>, pergunta: string, backend: string -> string)
    ensures NoContext(ctxs) ==> Ask(ctxs, pergunta, backend) == ContextNotFound
    ensures !NoContext(ctxs) ==> Ask(ctxs, pergunta, backend) == backend(UserMessage(ctxs, pergunta))
  {
  }

  /** The header of block `i` reads back as the number `i + 1`. */
  lemma BlockNumberedFromOne(i: nat, ctx: string)
    ensures var n := NatToString(i + 1);
            var b := Block(i, ctx);
            |BlockHeader| + |n| + 2 <= |b|
            && b[..|BlockHeader|] == BlockHeader
            && AllDigits(b[|BlockHeader|..|BlockHeader| + |n|])
            && DecimalValue(b[|BlockHeader|..|BlockHeader| + |n|]) == i + 1
            && b[|BlockHeader| + |n|..] == "]\n" + ctx
  {
    var n := NatToString(i + 1);
    var b := Block(i, ctx);
    assert b[|BlockHeader|..|BlockHeader| + |n|] == n;
    NatToStringRoundTrip(i + 1);
  }

  /** Appending a context appends one block and leaves the earlier blocks and their
      numbers untouched. */
  lemma FormatContextsSnoc(ctxs: seq<string>, ctx: string)
    requires ctxs != []
    ensures FormatContexts(ctxs + [ctx]) == FormatContexts(ctxs) + "\n\n" + Block(|ctxs|, ctx)
  {
    assert Blocks(ctxs + [ctx]) == Blocks(ctxs) + [Block(|ctxs|, ctx)];
    JoinSnoc(Blocks(ctxs), Block(|ctxs|, ctx), "\n\n");
  }

  /** Every context, and its numbered block, appears whole in the user message. */
  lemma MessageHoldsEachContext(ctxs: seq<string>, pergunta: string, i: nat)
    requires i < |ctxs|
    ensures Occurs(UserMessage(ctxs, pergunta), Block(i, ctxs[i]))
    ensures Occurs(UserMessage(ctxs, pergunta), ctxs[i])
  {
    var f := FormatContexts(ctxs);
    var m := UserMessage(ctxs, pergunta);
    var b := Block(i, ctxs[i]);
    JoinKeepsEach(Blocks(ctxs), "\n\n", i);
    var p :| 0 <= p <= |f| && StartsAt(f, p, b);
    assert m[p..p + |b|] == f[p..p + |b|];
    assert StartsAt(m, p, b);
    assert b[|b| - |ctxs[i]|..] == ctxs[i];
    OccursWithin(m, ctxs[i], b, |b| - |ctxs[i]|);
  }

  /** The user message ends with the labelled question. */
  lemma MessageEndsWithQuestion(ctxs: seq<string>, pergunta: string)
    ensures var m := UserMessage(ctxs, pergunta);
            |QuestionLabel + pergunta| <= |m|
            && m[|m| - |QuestionLabel + pergunta|..] == QuestionLabel + pergunta
  {
    var m := UserMessage(ctxs, pergunta);
    assert m == FormatContexts(ctxs) + (QuestionLabel + pergunta);
  }
}
