/**
  The mirroring binary (`src/main.rs`): its `markup`, whose closing-brace loop is commented
  out, the choice of source and output folders from the command line, and what the walk
  does with each path it finds.
*/
module CliMain {
  import opened Basics
  import opened Config
  import opened Hints
  import opened Engine
  import Paths

  /** The inner loops of `markup`, in the order they run. Closing-brace hints have none. */
  const Order: seq<Category> := [TypeHint, ChainingHint, ParameterHint, BindingModeHint, LifetimeHint]

  /** At each offset: type, chaining, parameter, binding-mode and lifetime fragments, in that order. */
  lemma InsertionOrder(h: HintLists, i: nat)
    ensures InsertionsAt(h, Order, i)
            == FragmentsAt(h.typeHints, TypeHint, i) + FragmentsAt(h.chainingHints, ChainingHint, i)
               + FragmentsAt(h.parameterHints, ParameterHint, i) + FragmentsAt(h.bindingModeHints, BindingModeHint, i)
               + FragmentsAt(h.lifetimeHints, LifetimeHint, i)
  {
    InsertionsOfFive(h, TypeHint, ChainingHint, ParameterHint, BindingModeHint, LifetimeHint, i);
  }

  /** A nest of five inner loops inserts their fragments one after the other. */
  lemma InsertionsOfFive(h: HintLists, c1: Category, c2: Category, c3: Category, c4: Category, c5: Category, i: nat)
    ensures InsertionsAt(h, [c1, c2, c3, c4, c5], i)
            == FragmentsAt(h.Of(c1), c1, i) + FragmentsAt(h.Of(c2), c2, i) + FragmentsAt(h.Of(c3), c3, i)
               + FragmentsAt(h.Of(c4), c4, i) + FragmentsAt(h.Of(c5), c5, i)
  {
    var f1, f2, f3, f4, f5 := FragmentsAt(h.Of(c1), c1, i), FragmentsAt(h.Of(c2), c2, i), FragmentsAt(h.Of(c3), c3, i),
                              FragmentsAt(h.Of(c4), c4, i), FragmentsAt(h.Of(c5), c5, i);
    assert InsertionsAt(h, [c1], i) == f1 by {
      InsertionsAppend(h, [], c1, i);
      assert [] + [c1] == [c1];
    }
    assert InsertionsAt(h, [c1, c2], i) == f1 + f2 by {
      InsertionsAppend(h, [c1], c2, i);
      assert [c1] + [c2] == [c1, c2];
    }
    assert InsertionsAt(h, [c1, c2, c3], i) == f1 + f2 + f3 by {
      InsertionsAppend(h, [c1, c2], c3, i);
      assert [c1, c2] + [c3] == [c1, c2, c3];
    }
    assert InsertionsAt(h, [c1, c2, c3, c4], i) == f1 + f2 + f3 + f4 by {
      InsertionsAppend(h, [c1, c2, c3], c4, i);
      assert [c1, c2, c3] + [c4] == [c1, c2, c3, c4];
    }
    InsertionsAppend(h, [c1, c2, c3, c4], c5, i);
    assert [c1, c2, c3, c4] + [c5] == [c1, c2, c3, c4, c5];
  }

  /** The five inner loops at one offset append exactly the insertions for that offset. */
  lemma EmitStep(before: seq<byte>, h: HintLists, i: nat)
    ensures before + FragmentsAt(h.typeHints, TypeHint, i) + FragmentsAt(h.chainingHints, ChainingHint, i)
            + FragmentsAt(h.parameterHints, ParameterHint, i) + FragmentsAt(h.bindingModeHints, BindingModeHint, i)
            + FragmentsAt(h.lifetimeHints, LifetimeHint, i)
            == before + InsertionsAt(h, Order, i)
  {
    InsertionOrder(h, i);
    AppendFive(before, FragmentsAt(h.typeHints, TypeHint, i), FragmentsAt(h.chainingHints, ChainingHint, i),
               FragmentsAt(h.parameterHints, ParameterHint, i), FragmentsAt(h.bindingModeHints, BindingModeHint, i),
               FragmentsAt(h.lifetimeHints, LifetimeHint, i));
  }

  lemma AppendFive(a: seq<byte>, b: seq<byte>, c: seq<byte>, d: seq<byte>, e: seq<byte>, f: seq<byte>)
    ensures a + b + c + d + e + f == a + (b + c + d + e + f)
  {
  }

  /**
    `markup`: the six `inlay_hints` calls, then one pass over the source bytes that appends,
    before each byte, the fragments of the five visited categories anchored there.
  */
  method Markup(source: seq<byte>, analysis: InlayHintsConfig -> seq<Hint>) returns (output: seq<byte>)
    ensures output == Annotated(source, CollectHints(analysis), Order)
  {
    var hints := CollectHints(analysis);
    output := EmitAll(source, hints);
  }

  /** The byte loop of `markup` over the hint lists it has collected. */
  method EmitAll(source: seq<byte>, h: HintLists) returns (output: seq<byte>)
    ensures output == Annotated(source, h, Order)
  {
    output := [];
    for i := 0 to |source|
      invariant output + AnnotatedFrom(source, h, Order, i) == Annotated(source, h, Order)
    {
      ghost var before := output;
      output := EmitCategory(output, h.typeHints, TypeHint, i);
      output := EmitCategory(output, h.chainingHints, ChainingHint, i);
      output := EmitCategory(output, h.parameterHints, ParameterHint, i);
      output := EmitCategory(output, h.bindingModeHints, BindingModeHint, i);
      output := EmitCategory(output, h.lifetimeHints, LifetimeHint, i);
      EmitStep(before, h, i);
      AnnotatedStep(source, h, Order, i, before);
      output := output + [source[i]];
    }
  }

  /** The closing-brace hints are computed but cannot change the output, whatever they are. */
  lemma ClosingBraceHintsIgnored(src: seq<byte>, h: HintLists, closingBraceHints: seq<Hint>)
    ensures Annotated(src, h.(closingBraceHints := closingBraceHints), Order) == Annotated(src, h, Order)
  {
    assert h.(closingBraceHints := closingBraceHints) == h.With(ClosingBraceHint, closingBraceHints);
    CategoryNotInOrderIgnored(src, h, Order, ClosingBraceHint, closingBraceHints);
  }

  lemma OrderHasNoDuplicates()
    ensures NoDuplicates(Order)
  {
  }

  /** A type hint on the pattern `x` of `let x = 1;` gives `let x: i32 = 1;`. */
  lemma TypeHintExample()
    ensures Annotated(Bytes("let x = 1;"), NoHints.With(TypeHint, [Hint(TextRange(4, 5), Bytes("i32"))]), Order)
            == Bytes("let x: i32 = 1;")
  {
    assert "let x" + " = 1;" == "let x = 1;";
    BytesAppend4("let x", ": ", "i32", " = 1;");
    assert "let x" + ": " + "i32" + " = 1;" == "let x: i32 = 1;";
    OrderHasNoDuplicates();
    HintBetween(Order, "let x", " = 1;", TypeHint, Hint(TextRange(4, 5), Bytes("i32")), "let x: i32 = 1;");
  }

  /** A parameter hint on the argument of `f(1)` gives `f(x: 1)`: it is anchored at the start of its range. */
  lemma ParameterHintExample()
    ensures Annotated(Bytes("f(1)"), NoHints.With(ParameterHint, [Hint(TextRange(2, 3), Bytes("x"))]), Order)
            == Bytes("f(x: 1)")
  {
    assert "f(" + "1)" == "f(1)";
    BytesAppend4("f(", "x", ": ", "1)");
    assert "f(" + "x" + ": " + "1)" == "f(x: 1)";
    OrderHasNoDuplicates();
    HintBetween(Order, "f(", "1)", ParameterHint, Hint(TextRange(2, 3), Bytes("x")), "f(x: 1)");
  }

  // ---------------------------------------------------------------------------
  // Folders and paths

  const DefaultOutputFolder := "./inlay-hints"

  /**
    The folders `main` settles on, as written. `args` is the whole argument list, the program
    path first. `args.nth(1)` consumes two arguments, so the later `args.len() >= 1` counts the
    arguments left after them; when the first test fails nothing has been consumed and the
    program path itself is left.
  */
  function FoldersAsWritten(args: seq<string>): (string, string) {
    (if |args| >= 2 then args[1] else ".",
     if |args| >= 3 then args[2] else if |args| == 1 then args[0] else DefaultOutputFolder)
  }

  /** `main`'s argument handling, one iterator step at a time. */
  method ChooseFolders(args: seq<string>) returns (sourceFolder: string, outputFolder: string)
    ensures (sourceFolder, outputFolder) == FoldersAsWritten(args)
  {
    var next := 0;  // how many arguments the iterator has consumed
    sourceFolder := ".";
    if |args| - next >= 2 {
      sourceFolder := args[next + 1];
      next := next + 2;
    }
    outputFolder := DefaultOutputFolder;
    if |args| - next >= 1 {
      outputFolder := args[next];
      next := next + 1;
    }
  }

  /** Run with no argument, the program takes its own path for the output folder. */
  lemma NoArgumentsOutputIsProgramPath(program: string)
    ensures FoldersAsWritten([program]) == (".", program)
    ensures program != DefaultOutputFolder ==> FoldersAsWritten([program]) != IntendedFolders([program])
  {
  }

  /** The evidently intended choice: the output folder is the second user argument or the default. */
  function IntendedFolders(args: seq<string>): (r: (string, string))
    ensures r.0 == FoldersAsWritten(args).0
    ensures r.1 == DefaultOutputFolder || exists k :: 1 <= k < |args| && r.1 == args[k]
  {
    (if |args| >= 2 then args[1] else ".",
     if |args| >= 3 then args[2] else DefaultOutputFolder)
  }

  /** The two choices differ only when no user argument is given. */
  lemma IntendedDiffersOnlyWithoutArguments(args: seq<string>)
    ensures |args| != 1 ==> FoldersAsWritten(args) == IntendedFolders(args)
    ensures |args| >= 2 ==> FoldersAsWritten(args) == (args[1], if |args| >= 3 then args[2] else DefaultOutputFolder)
  {
  }

  /**
    What the walk does with a path it finds: skip it unless it is an `.rs` file, otherwise
    write the annotated text to its mirrored path (`None` also stands for the `unwrap` panic
    of a path outside the source folder).
  */
  function Target(p: string, sourceFolder: string, outputFolder: string): Option<string> {
    if !Paths.IsFileWithExt(p, "rs") then None else Paths.OutputPath(outputFolder, p, sourceFolder)
  }

  /** A Rust file under the source folder is written to the same relative path under the output folder. */
  lemma RustFileIsMirrored(sourceFolder: string, outputFolder: string, dirs: seq<string>, stem: string)
    requires sourceFolder != "" && stem != ""
    requires forall k :: 0 <= k < |dirs| ==> Paths.PlainName(dirs[k])
    requires Paths.PlainName(stem)
    ensures var rel := Paths.Join(dirs + [stem + ".rs"]);
            Target(sourceFolder + "/" + rel, sourceFolder, outputFolder) == Some(outputFolder + "/" + rel)
  {
    var names := dirs + [stem + ".rs"];
    RustFileNamePlain(stem);
    assert forall k :: 0 <= k < |names| ==> Paths.PlainName(names[k]);
    Paths.OutputPathMirrors(outputFolder, sourceFolder, names);
    RustFilePasses(sourceFolder, dirs, stem);
  }

  lemma RustFileNamePlain(stem: string)
    requires Paths.PlainName(stem)
    ensures Paths.PlainName(stem + ".rs")
  {
    var name := stem + ".rs";
    forall k | 0 <= k < |name| ensures name[k] != '/' {
      if k >= |stem| { assert name[k] in ".rs"; }
    }
    assert |name| >= 4;
  }

  lemma RustFilePasses(sourceFolder: string, dirs: seq<string>, stem: string)
    requires sourceFolder != "" && Paths.PlainName(stem)
    ensures Paths.IsFileWithExt(sourceFolder + "/" + Paths.Join(dirs + [stem + ".rs"]), "rs")
  {
    var name := stem + ".rs";
    JoinLast(dirs, name);
    var dir := if dirs == [] then sourceFolder else sourceFolder + "/" + Paths.Join(dirs);
    assert sourceFolder + "/" + Paths.Join(dirs + [name]) == dir + "/" + stem + "." + "rs";
    Paths.IsFileWithExtOfName(dir, stem, "rs", "rs");
  }

  lemma {:induction false} JoinLast(dirs: seq<string>, name: string)
    ensures Paths.Join(dirs + [name]) == if dirs == [] then name else Paths.Join(dirs) + "/" + name
    decreases |dirs|
  {
    if |dirs| > 1 {
      assert (dirs + [name])[1..] == dirs[1..] + [name];
      JoinLast(dirs[1..], name);
    } else if |dirs| == 1 {
      assert dirs + [name] == [dirs[0], name];
    }
  }

  /**
    A file whose extension is not `rs` is never written, whatever dots its stem holds
    (`a.b.txt`, `foo.test.js`) and even when the extension is empty (`a.`).
  */
  lemma OtherFilesSkipped(sourceFolder: string, outputFolder: string, dir: string, stem: string, ext: string)
    requires dir != "" && stem != "" && ext != "rs"
    requires forall k :: 0 <= k < |stem| ==> stem[k] != '/'
    requires forall k :: 0 <= k < |ext| ==> ext[k] != '/' && ext[k] != '.'
    ensures Target(dir + "/" + stem + "." + ext, sourceFolder, outputFolder) == None
  {
    Paths.OtherExtensionRejected(dir, stem, ext);
  }

  /**
    A file without an extension is never written: a name without a dot (`Makefile`), or a
    name whose only dot is its first character (`.gitignore`, `.rs`).
  */
  lemma FilesWithoutExtensionSkipped(sourceFolder: string, outputFolder: string, dir: string, name: string)
    requires dir != "" && name != ""
    requires forall k :: 0 <= k < |name| ==> name[k] != '/' && name[k] != '.'
    ensures Target(dir + "/" + name, sourceFolder, outputFolder) == None
    ensures Target(dir + "/." + name, sourceFolder, outputFolder) == None
  {
    Paths.NoDotNoExtension(dir, name, "rs");
    Paths.DotFileNoExtension(dir, name, "rs");
  }
}
