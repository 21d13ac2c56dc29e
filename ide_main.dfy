/**
  The checking binary (`crates/ide/src/main.rs`): its `markup`, which also renders the
  closing-brace hints after all the others, and the choice of the folder to scan.
*/
module IdeMain {
  import opened Basics
  import opened Config
  import opened Hints
  import opened Engine
  import CliMain
  import Paths

  /** The inner loops of `markup`, in the order they run: closing-brace hints come last. */
  const Order: seq<Category> := [TypeHint, ChainingHint, ParameterHint, BindingModeHint, LifetimeHint, ClosingBraceHint]

  lemma OrderHasNoDuplicates()
    ensures NoDuplicates(Order)
  {
  }

  /** At each offset: type, chaining, parameter, binding-mode, lifetime and closing-brace fragments, in that order. */
  lemma InsertionOrder(h: HintLists, i: nat)
    ensures InsertionsAt(h, Order, i)
            == FragmentsAt(h.typeHints, TypeHint, i) + FragmentsAt(h.chainingHints, ChainingHint, i)
               + FragmentsAt(h.parameterHints, ParameterHint, i) + FragmentsAt(h.bindingModeHints, BindingModeHint, i)
               + FragmentsAt(h.lifetimeHints, LifetimeHint, i) + FragmentsAt(h.closingBraceHints, ClosingBraceHint, i)
  {
    ExtendsCliOrder(h, i);
    CliMain.InsertionOrder(h, i);
  }

  /** The six inner loops at one offset append exactly the insertions for that offset. */
  lemma EmitStep(before: seq<byte>, h: HintLists, i: nat)
    ensures before + FragmentsAt(h.typeHints, TypeHint, i) + FragmentsAt(h.chainingHints, ChainingHint, i)
            + FragmentsAt(h.parameterHints, ParameterHint, i) + FragmentsAt(h.bindingModeHints, BindingModeHint, i)
            + FragmentsAt(h.lifetimeHints, LifetimeHint, i) + FragmentsAt(h.closingBraceHints, ClosingBraceHint, i)
            == before + InsertionsAt(h, Order, i)
  {
    CliMain.EmitStep(before, h, i);
    ExtendsCliOrder(h, i);
  }

  /**
    `markup`: the six `inlay_hints` calls, then one pass over the source bytes that appends,
    before each byte, the fragments of all six categories anchored there.
  */
  method Markup(source: seq<byte>, analysis: InlayHintsConfig -> seq<Hint>) returns (output: seq<byte>)
    ensures output == Annotated(source, CollectHints(analysis), Order)
  {
    var hints := CollectHints(analysis);
    output := EmitAll(source, hints);
  }

  /** The byte loop of `markup` over the hint lists it has collected. */
  method EmitAll(source: seq<byte>, h: HintLists) returns (output: seq<byte>)
    ensures output == Annotated(source, h, Order)
  {
    output := [];
    for i := 0 to |source|
      invariant output + AnnotatedFrom(source, h, Order, i) == Annotated(source, h, Order)
    {
      ghost var before := output;
      output := EmitCategory(output, h.typeHints, TypeHint, i);
      output := EmitCategory(output, h.chainingHints, ChainingHint, i);
      output := EmitCategory(output, h.parameterHints, ParameterHint, i);
      output := EmitCategory(output, h.bindingModeHints, BindingModeHint, i);
      output := EmitCategory(output, h.lifetimeHints, LifetimeHint, i);
      output := EmitCategory(output, h.closingBraceHints, ClosingBraceHint, i);
      EmitStep(before, h, i);
      AnnotatedStep(source, h, Order, i, before);
      output := output + [source[i]];
    }
  }

  /** A closing-brace hint is anchored and rendered exactly like a binding-mode hint. */
  lemma ClosingBraceLikeBindingMode(r: TextRange, text: seq<byte>)
    ensures Anchor(ClosingBraceHint, r) == Anchor(BindingModeHint, r) == r.end
    ensures Render(ClosingBraceHint, text) == Render(BindingModeHint, text) == Bytes(" /* ") + text + Bytes(" */")
  {
  }

  /** This loop nest is the other binary's followed by the closing-brace loop. */
  lemma ExtendsCliOrder(h: HintLists, i: nat)
    ensures InsertionsAt(h, Order, i) == InsertionsAt(h, CliMain.Order, i) + FragmentsAt(h.closingBraceHints, ClosingBraceHint, i)
  {
    assert Order == CliMain.Order + [ClosingBraceHint];
    InsertionsAppend(h, CliMain.Order, ClosingBraceHint, i);
  }

  /**
    The two binaries annotate alike when this one has no closing-brace hints; the other
    ignores its closing-brace hints whatever they are.
  */
  lemma AgreesWithoutClosingBraceHints(src: seq<byte>, h: HintLists)
    ensures Annotated(src, h.(closingBraceHints := []), Order) == Annotated(src, h, CliMain.Order)
  {
    var h' := h.(closingBraceHints := []);
    forall j: nat | j < |src|
      ensures InsertionsAt(h', Order, j) == InsertionsAt(h, CliMain.Order, j)
    {
      ExtendsCliOrder(h', j);
      InsertionsCongruent(h', h, CliMain.Order, j);
    }
    SameInsertions(src, h', Order, h, CliMain.Order);
  }

  /** The closing brace of a two-line block gets its hint just after it: `{\n}\n` gives `{\n} /* fn f */\n`. */
  lemma ClosingBraceHintExample()
    ensures Annotated(Bytes("{\n}\n"), NoHints.With(ClosingBraceHint, [Hint(TextRange(2, 3), Bytes("fn f"))]), Order)
            == Bytes("{\n} /* fn f */\n")
  {
    assert "{\n}" + "\n" == "{\n}\n";
    BytesAppend(" /* ", "fn f");
    BytesAppend4("{\n}", " /* " + "fn f", " */", "\n");
    assert "{\n}" + (" /* " + "fn f") + " */" + "\n" == "{\n} /* fn f */\n";
    OrderHasNoDuplicates();
    HintBetween(Order, "{\n}", "\n", ClosingBraceHint, Hint(TextRange(2, 3), Bytes("fn f")), "{\n} /* fn f */\n");
  }

  // ---------------------------------------------------------------------------
  // The folder to scan

  /** `main`'s argument handling: the folder is the user argument when there is exactly one. */
  method ScanFolder(args: seq<string>) returns (folder: string)
    ensures |args| == 2 ==> folder == args[1]
    ensures |args| != 2 ==> folder == "."
  {
    folder := ".";
    if |args| == 2 {
      folder := args[1];
    }
  }
}
