/**
  The annotation engine shared by both copies of `markup`: hint categories, their anchors
  and templates, the annotated text as a function of the source and the hint lists, the
  inner loop that emits one category's fragments at one offset, and the properties of the
  annotated text (exact length, position of every source byte, deleting the fragments gives
  the source back, hints anchored past the end are never emitted).
*/
module Engine {
  import opened Basics
  import opened Config
  import opened Hints

  datatype Category = TypeHint | ChainingHint | ParameterHint | BindingModeHint | LifetimeHint | ClosingBraceHint

  /** The preset that `markup` passes to `inlay_hints` to obtain the hints of each category. */
  function Preset(c: Category): InlayHintsConfig {
    match c
    case TypeHint => TypeHintsConfig()
    case ChainingHint => ChainingHintsConfig()
    case ParameterHint => ParameterHintsConfig()
    case BindingModeHint => BindingModeHintsConfig()
    case LifetimeHint => LifetimeHintsConfig()
    case ClosingBraceHint => ClosingBraceHintsConfig()
  }

  /**
    The kinds of hint a configuration switches on. This is a reading of what each
    `InlayHintsConfig` field enables in rust-analyzer, not a mapping the program defines.
  */
  function Switches(cfg: InlayHintsConfig): set<Category> {
    (if cfg.typeHints || cfg.closureReturnTypeHints != ClosureReturnTypeHints.Never then {TypeHint} else {})
    + (if cfg.chainingHints then {ChainingHint} else {})
    + (if cfg.parameterHints then {ParameterHint} else {})
    + (if cfg.bindingModeHints then {BindingModeHint} else {})
    + (if cfg.lifetimeElisionHints != LifetimeElisionHints.Never then {LifetimeHint} else {})
    + (if cfg.closingBraceHintsMinLines.Some? then {ClosingBraceHint} else {})
  }

  /** The baseline switches nothing on, and each preset switches on exactly its own category. */
  lemma PresetSwitchesOnlyItsCategory(c: Category)
    ensures Switches(DisabledConfig()) == {}
    ensures Switches(Preset(c)) == {c}
  {
  }

  /** The byte offset a hint is inserted before: the start of its range for parameter hints, the end otherwise. */
  function Anchor(c: Category, r: TextRange): nat {
    if c == ParameterHint then r.start else r.end
  }

  /** The text inserted for a hint of category `c` whose label is `text` (the `format!` templates). */
  function Render(c: Category, text: seq<byte>): seq<byte> {
    match c
    case TypeHint => Bytes(": ") + text
    case ChainingHint => Bytes(" // <- ") + text
    case ParameterHint => text + Bytes(": ")
    case BindingModeHint => Bytes(" /* ") + text + Bytes(" */")
    case LifetimeHint => text
    case ClosingBraceHint => Bytes(" /* ") + text + Bytes(" */")
  }

  /** The six hint lists `markup` obtains from `inlay_hints`, one per category. */
  datatype HintLists = HintLists(
    typeHints: seq<Hint>,
    chainingHints: seq<Hint>,
    parameterHints: seq<Hint>,
    bindingModeHints: seq<Hint>,
    closingBraceHints: seq<Hint>,
    lifetimeHints: seq<Hint>)
  {
    function Of(c: Category): seq<Hint> {
      match c
      case TypeHint => typeHints
      case ChainingHint => chainingHints
      case ParameterHint => parameterHints
      case BindingModeHint => bindingModeHints
      case LifetimeHint => lifetimeHints
      case ClosingBraceHint => closingBraceHints
    }

    /** The same lists with the one of category `c` replaced by `hs`. */
    function With(c: Category, hs: seq<Hint>): (r: HintLists)
      ensures r.Of(c) == hs
      ensures forall c' :: c' != c ==> r.Of(c') == Of(c')
    {
      match c
      case TypeHint => this.(typeHints := hs)
      case ChainingHint => this.(chainingHints := hs)
      case ParameterHint => this.(parameterHints := hs)
      case BindingModeHint => this.(bindingModeHints := hs)
      case LifetimeHint => this.(lifetimeHints := hs)
      case ClosingBraceHint => this.(closingBraceHints := hs)
    }
  }

  const NoHints := HintLists([], [], [], [], [], [])

  /** The six calls of `inlay_hints` at the top of `markup`, one per preset. */
  function CollectHints(analysis: InlayHintsConfig -> seq<Hint>): HintLists {
    HintLists(
      InlayHints(Preset(TypeHint), analysis),
      InlayHints(Preset(ChainingHint), analysis),
      InlayHints(Preset(ParameterHint), analysis),
      InlayHints(Preset(BindingModeHint), analysis),
      InlayHints(Preset(ClosingBraceHint), analysis),
      InlayHints(Preset(LifetimeHint), analysis))
  }

  /** The fragments one category's inner loop appends before byte `i`: every hint anchored at `i`, in list order. */
  function FragmentsAt(hs: seq<Hint>, c: Category, i: nat): seq<byte>
    decreases |hs|
  {
    if hs == [] then []
    else (if Anchor(c, hs[0].range) == i then Render(c, hs[0].text) else []) + FragmentsAt(hs[1..], c, i)
  }

  /** Everything inserted before byte `i`: the categories' fragments in the order the inner loops run. */
  function InsertionsAt(h: HintLists, order: seq<Category>, i: nat): seq<byte>
    decreases |order|
  {
    if order == [] then []
    else FragmentsAt(h.Of(order[0]), order[0], i) + InsertionsAt(h, order[1..], i)
  }

  /** The annotated text from source offset `i` on: at each offset its insertions, then the source byte. */
  function AnnotatedFrom(src: seq<byte>, h: HintLists, order: seq<Category>, i: nat): seq<byte>
    requires i <= |src|
    decreases |src| - i
  {
    if i == |src| then []
    else InsertionsAt(h, order, i) + [src[i]] + AnnotatedFrom(src, h, order, i + 1)
  }

  /** What `markup` returns for source bytes `src`, hint lists `h` and inner-loop order `order`. */
  function Annotated(src: seq<byte>, h: HintLists, order: seq<Category>): seq<byte> {
    AnnotatedFrom(src, h, order, 0)
  }

  /** One category's inner loop: `for (range, label) in hints { if i == anchor { output.extend(template) } }`. */
  method EmitCategory(output: seq<byte>, hs: seq<Hint>, c: Category, i: nat) returns (out: seq<byte>)
    ensures out == output + FragmentsAt(hs, c, i)
  {
    out := output;
    for j := 0 to |hs|
      invariant out + FragmentsAt(hs[j..], c, i) == output + FragmentsAt(hs, c, i)
    {
      assert hs[j..][1..] == hs[j + 1..];
      if Anchor(c, hs[j].range) == i {
        out := out + Render(c, hs[j].text);
      }
    }
  }

  /** One step of the byte loop: the insertions at `i` and then `src[i]` extend a prefix of the output. */
  lemma AnnotatedStep(src: seq<byte>, h: HintLists, order: seq<Category>, i: nat, output: seq<byte>)
    requires i < |src|
    requires output + AnnotatedFrom(src, h, order, i) == Annotated(src, h, order)
    ensures output + InsertionsAt(h, order, i) + [src[i]] + AnnotatedFrom(src, h, order, i + 1) == Annotated(src, h, order)
  {
  }

  // ---------------------------------------------------------------------------
  // Exact length and the position of every source byte

  /** Total length of the fragments of the hints in `hs` anchored in `[lo, hi)`. */
  function ListSpan(hs: seq<Hint>, c: Category, lo: nat, hi: nat): nat
    decreases |hs|
  {
    if hs == [] then 0
    else (if lo <= Anchor(c, hs[0].range) < hi then |Render(c, hs[0].text)| else 0) + ListSpan(hs[1..], c, lo, hi)
  }

  /** Total length of the fragments of every category in `order` anchored in `[lo, hi)`. */
  function Span(h: HintLists, order: seq<Category>, lo: nat, hi: nat): nat
    decreases |order|
  {
    if order == [] then 0
    else ListSpan(h.Of(order[0]), order[0], lo, hi) + Span(h, order[1..], lo, hi)
  }

  lemma {:induction false} FragmentsLength(hs: seq<Hint>, c: Category, i: nat)
    ensures |FragmentsAt(hs, c, i)| == ListSpan(hs, c, i, i + 1)
    decreases |hs|
  {
    if hs != [] {
      FragmentsLength(hs[1..], c, i);
    }
  }

  lemma {:induction false} ListSpanSplit(hs: seq<Hint>, c: Category, lo: nat, mid: nat, hi: nat)
    requires lo <= mid <= hi
    ensures ListSpan(hs, c, lo, hi) == ListSpan(hs, c, lo, mid) + ListSpan(hs, c, mid, hi)
    decreases |hs|
  {
    if hs != [] {
      ListSpanSplit(hs[1..], c, lo, mid, hi);
    }
  }

  lemma {:induction false} InsertionsLength(h: HintLists, order: seq<Category>, i: nat)
    ensures |InsertionsAt(h, order, i)| == Span(h, order, i, i + 1)
    decreases |order|
  {
    if order != [] {
      FragmentsLength(h.Of(order[0]), order[0], i);
      InsertionsLength(h, order[1..], i);
    }
  }

  lemma {:induction false} SpanSplit(h: HintLists, order: seq<Category>, lo: nat, mid: nat, hi: nat)
    requires lo <= mid <= hi
    ensures Span(h, order, lo, hi) == Span(h, order, lo, mid) + Span(h, order, mid, hi)
    decreases |order|
  {
    if order != [] {
      ListSpanSplit(h.Of(order[0]), order[0], lo, mid, hi);
      SpanSplit(h, order[1..], lo, mid, hi);
    }
  }

  lemma {:induction false} SpanEmpty(h: HintLists, order: seq<Category>, lo: nat)
    ensures Span(h, order, lo, lo) == 0
    decreases |order|
  {
    if order != [] {
      ListSpanSplit(h.Of(order[0]), order[0], lo, lo, lo);
      SpanEmpty(h, order[1..], lo);
    }
  }

  lemma {:induction false} AnnotatedFromLength(src: seq<byte>, h: HintLists, order: seq<Category>, i: nat)
    requires i <= |src|
    ensures |AnnotatedFrom(src, h, order, i)| == |src| - i + Span(h, order, i, |src|)
    decreases |src| - i
  {
    if i == |src| {
      SpanEmpty(h, order, i);
    } else {
      AnnotatedFromLength(src, h, order, i + 1);
      InsertionsLength(h, order, i);
      SpanSplit(h, order, i, i + 1, |src|);
    }
  }

  /**
    Exact length: the annotated text is the source plus every fragment of a hint whose
    anchor lies inside the source (`Span(h, order, 0, |src|)` sums the fragment lengths of
    the hints anchored before `|src|`).
  */
  lemma AnnotatedLength(src: seq<byte>, h: HintLists, order: seq<Category>)
    ensures |Annotated(src, h, order)| == |src| + Span(h, order, 0, |src|)
  {
    AnnotatedFromLength(src, h, order, 0);
  }

  lemma {:induction false} AnnotatedSuffix(src: seq<byte>, h: HintLists, order: seq<Category>, i: nat)
    requires i <= |src|
    ensures i + Span(h, order, 0, i) <= |Annotated(src, h, order)|
    ensures Annotated(src, h, order)[i + Span(h, order, 0, i)..] == AnnotatedFrom(src, h, order, i)
    decreases i
  {
    if i == 0 {
      SpanEmpty(h, order, 0);
    } else {
      var j := i - 1;
      AnnotatedSuffix(src, h, order, j);
      var out := Annotated(src, h, order);
      var p := j + Span(h, order, 0, j);
      var f := InsertionsAt(h, order, j);
      InsertionsLength(h, order, j);
      SpanSplit(h, order, 0, j, i);
      assert out[p..] == f + [src[j]] + AnnotatedFrom(src, h, order, i);
      assert out[p..][|f| + 1..] == AnnotatedFrom(src, h, order, i);
      assert p + |f| + 1 == i + Span(h, order, 0, i);
    }
  }

  /**
    Insertions are placed against original offsets: the fragments for offset `i` start right
    after the `i` source bytes before it and the fragments anchored before `i`, and are
    followed immediately by the unchanged source byte `src[i]`.
  */
  lemma AnnotatedPlacement(src: seq<byte>, h: HintLists, order: seq<Category>, i: nat)
    requires i < |src|
    ensures var p, f := i + Span(h, order, 0, i), InsertionsAt(h, order, i);
            var out := Annotated(src, h, order);
            p + |f| < |out| && out[p..p + |f|] == f && out[p + |f|] == src[i]
  {
    AnnotatedSuffix(src, h, order, i);
    var p, f := i + Span(h, order, 0, i), InsertionsAt(h, order, i);
    var out := Annotated(src, h, order);
    assert out[p..] == f + [src[i]] + AnnotatedFrom(src, h, order, i + 1);
    assert out[p..][..|f|] == f;
    assert out[p..][|f|] == src[i];
  }

  // ---------------------------------------------------------------------------
  // Byte preservation: deleting the inserted fragments gives the source back

  /**
    Deletes the inserted fragments from an annotated text, reading it as `markup` wrote it:
    at offset `i` (counting from 0) the fragments expected there, then one source byte.
    `None` when the text does not have that shape.
  */
  function Unmark(out: seq<byte>, h: HintLists, order: seq<Category>, i: nat): Option<seq<byte>>
    decreases |out|
  {
    if out == [] then Some([])
    else
      var f := InsertionsAt(h, order, i);
      if |f| < |out| && out[..|f|] == f then
        match Unmark(out[|f| + 1..], h, order, i + 1)
        case None => None
        case Some(rest) => Some([out[|f|]] + rest)
      else None
  }

  lemma {:induction false} UnmarkAnnotatedFrom(src: seq<byte>, h: HintLists, order: seq<Category>, i: nat)
    requires i <= |src|
    ensures Unmark(AnnotatedFrom(src, h, order, i), h, order, i) == Some(src[i..])
    decreases |src| - i
  {
    if i < |src| {
      var out := AnnotatedFrom(src, h, order, i);
      var f := InsertionsAt(h, order, i);
      var rest := AnnotatedFrom(src, h, order, i + 1);
      assert out == f + [src[i]] + rest;
      assert out[..|f|] == f && out[|f|] == src[i] && out[|f| + 1..] == rest;
      UnmarkAnnotatedFrom(src, h, order, i + 1);
      assert Unmark(out, h, order, i) == Some([src[i]] + src[i + 1..]);
      assert src[i..] == [src[i]] + src[i + 1..];
    } else {
      assert src[i..] == [];
    }
  }

  /** Byte preservation: removing every inserted fragment from `markup`'s output yields exactly the source. */
  lemma AnnotatedRoundTrip(src: seq<byte>, h: HintLists, order: seq<Category>)
    ensures Unmark(Annotated(src, h, order), h, order, 0) == Some(src)
  {
    UnmarkAnnotatedFrom(src, h, order, 0);
  }

  // ---------------------------------------------------------------------------
  // What the output depends on

  lemma {:induction false} InsertionsCongruent(h1: HintLists, h2: HintLists, order: seq<Category>, i: nat)
    requires forall c :: c in order ==> FragmentsAt(h1.Of(c), c, i) == FragmentsAt(h2.Of(c), c, i)
    ensures InsertionsAt(h1, order, i) == InsertionsAt(h2, order, i)
    decreases |order|
  {
    if order != [] {
      assert order[0] in order;
      forall c | c in order[1..] ensures c in order { }
      InsertionsCongruent(h1, h2, order[1..], i);
    }
  }

  lemma {:induction false} AnnotatedFromCongruent(src: seq<byte>, h1: HintLists, h2: HintLists, order: seq<Category>, i: nat)
    requires i <= |src|
    requires forall c, j: nat :: c in order && i <= j < |src| ==> FragmentsAt(h1.Of(c), c, j) == FragmentsAt(h2.Of(c), c, j)
    ensures AnnotatedFrom(src, h1, order, i) == AnnotatedFrom(src, h2, order, i)
    decreases |src| - i
  {
    if i < |src| {
      InsertionsCongruent(h1, h2, order, i);
      AnnotatedFromCongruent(src, h1, h2, order, i + 1);
    }
  }

  /** The output depends on the hint lists only through the fragments each category emits at each source offset. */
  lemma AnnotatedCongruent(src: seq<byte>, h1: HintLists, h2: HintLists, order: seq<Category>)
    requires forall c, j: nat :: c in order && j < |src| ==> FragmentsAt(h1.Of(c), c, j) == FragmentsAt(h2.Of(c), c, j)
    ensures Annotated(src, h1, order) == Annotated(src, h2, order)
  {
    AnnotatedFromCongruent(src, h1, h2, order, 0);
  }

  lemma {:induction false} FragmentsAppend(xs: seq<Hint>, ys: seq<Hint>, c: Category, i: nat)
    ensures FragmentsAt(xs + ys, c, i) == FragmentsAt(xs, c, i) + FragmentsAt(ys, c, i)
    decreases |xs|
  {
    if xs == [] {
      assert xs + ys == ys;
    } else {
      assert (xs + ys)[0] == xs[0];
      assert (xs + ys)[1..] == xs[1..] + ys;
      FragmentsAppend(xs[1..], ys, c, i);
    }
  }

  lemma {:induction false} FragmentsNoneAnchored(hs: seq<Hint>, c: Category, i: nat)
    requires forall k :: 0 <= k < |hs| ==> Anchor(c, hs[k].range) != i
    ensures FragmentsAt(hs, c, i) == []
    decreases |hs|
  {
    if hs != [] {
      FragmentsNoneAnchored(hs[1..], c, i);
    }
  }

  /**
    Hints anchored at or past the end of the source are never emitted, wherever they stand
    in their list: the byte loop only visits offsets of existing bytes, so an anchor equal to
    `|src|` is not flushed after the last byte.
  */
  lemma BeyondEndHintsIgnored(src: seq<byte>, h: HintLists, order: seq<Category>, c: Category,
                              before: seq<Hint>, extra: seq<Hint>, after: seq<Hint>)
    requires forall k :: 0 <= k < |extra| ==> Anchor(c, extra[k].range) >= |src|
    ensures Annotated(src, h.With(c, before + extra + after), order) == Annotated(src, h.With(c, before + after), order)
  {
    forall c', j: nat | c' in order && j < |src|
      ensures FragmentsAt(h.With(c, before + extra + after).Of(c'), c', j)
           == FragmentsAt(h.With(c, before + after).Of(c'), c', j)
    {
      if c' == c {
        FragmentsAppend(before + extra, after, c, j);
        FragmentsAppend(before, extra, c, j);
        FragmentsAppend(before, after, c, j);
        FragmentsNoneAnchored(extra, c, j);
      }
    }
    AnnotatedCongruent(src, h.With(c, before + extra + after), h.With(c, before + after), order);
  }

  /** A category the inner loops do not visit has no effect on the output, whatever its hints. */
  lemma CategoryNotInOrderIgnored(src: seq<byte>, h: HintLists, order: seq<Category>, c: Category, hs: seq<Hint>)
    requires c !in order
    ensures Annotated(src, h.With(c, hs), order) == Annotated(src, h, order)
  {
    AnnotatedCongruent(src, h.With(c, hs), h, order);
  }

  lemma {:induction false} NoHintsFrom(src: seq<byte>, order: seq<Category>, i: nat)
    requires i <= |src|
    ensures AnnotatedFrom(src, NoHints, order, i) == src[i..]
    decreases |src| - i
  {
    if i < |src| {
      NoInsertions(order, i);
      NoHintsFrom(src, order, i + 1);
      assert src[i..] == [src[i]] + src[i + 1..];
    }
  }

  lemma {:induction false} NoInsertions(order: seq<Category>, i: nat)
    ensures InsertionsAt(NoHints, order, i) == []
    decreases |order|
  {
    if order != [] {
      NoInsertions(order[1..], i);
    }
  }

  /** With every hint list empty the output is the source; an empty source gives an empty output whatever the hints. */
  lemma NeutralInputs(src: seq<byte>, h: HintLists, order: seq<Category>)
    ensures Annotated(src, NoHints, order) == src
    ensures Annotated([], h, order) == []
  {
    NoHintsFrom(src, order, 0);
  }

  // ---------------------------------------------------------------------------
  // A single hint

  predicate NoDuplicates(order: seq<Category>) {
    forall i, j :: 0 <= i < j < |order| ==> order[i] != order[j]
  }

  lemma {:induction false} SingleHintInsertions(order: seq<Category>, c: Category, x: Hint, i: nat)
    requires NoDuplicates(order)
    ensures InsertionsAt(NoHints.With(c, [x]), order, i)
            == if c in order && i == Anchor(c, x.range) then Render(c, x.text) else []
    decreases |order|
  {
    if order != [] {
      var h := NoHints.With(c, [x]);
      assert NoDuplicates(order[1..]);
      SingleHintInsertions(order[1..], c, x, i);
      assert order == [order[0]] + order[1..];
      if order[0] == c {
        assert c !in order[1..] by {
          forall k | 0 <= k < |order[1..]| ensures order[1..][k] != c {
            assert order[1..][k] == order[k + 1];
          }
        }
        assert [x][1..] == [];
        assert FragmentsAt(h.Of(c), c, i) == if i == Anchor(c, x.range) then Render(c, x.text) else [];
      } else {
        assert h.Of(order[0]) == [];
      }
    }
  }

  /** A text where only offset `a` receives an insertion `r` is the source with `r` spliced in at `a`. */
  lemma {:induction false} OneInsertionFrom(src: seq<byte>, h: HintLists, order: seq<Category>, a: nat, r: seq<byte>, i: nat)
    requires a < |src| && i <= |src|
    requires forall j: nat :: i <= j < |src| ==> InsertionsAt(h, order, j) == if j == a then r else []
    ensures AnnotatedFrom(src, h, order, i) == if i <= a then src[i..a] + r + src[a..] else src[i..]
    decreases |src| - i
  {
    if i == |src| {
      assert src[i..] == [];
    } else {
      OneInsertionFrom(src, h, order, a, r, i + 1);
      SpliceStep(src, a, r, i, InsertionsAt(h, order, i), AnnotatedFrom(src, h, order, i + 1));
    }
  }

  /** One step of `OneInsertionFrom`, on sequences alone. */
  lemma SpliceStep(src: seq<byte>, a: nat, r: seq<byte>, i: nat, ins: seq<byte>, rest: seq<byte>)
    requires a < |src| && i < |src|
    requires ins == if i == a then r else []
    requires rest == if i + 1 <= a then src[i + 1..a] + r + src[a..] else src[i + 1..]
    ensures ins + [src[i]] + rest == if i <= a then src[i..a] + r + src[a..] else src[i..]
  {
    if i < a {
      assert ins + [src[i]] + rest == [src[i]] + rest;
      SpliceBefore(src, a, r, i);
    } else if i == a {
      SpliceAt(src, a, r);
    } else {
      assert ins + [src[i]] + rest == [src[i]] + rest;
      assert src[i..] == [src[i]] + src[i + 1..];
    }
  }

  lemma SpliceBefore(src: seq<byte>, a: nat, r: seq<byte>, i: nat)
    requires i < a < |src|
    ensures [src[i]] + (src[i + 1..a] + r + src[a..]) == src[i..a] + r + src[a..]
  {
    assert src[i..a] == [src[i]] + src[i + 1..a];
  }

  lemma SpliceAt(src: seq<byte>, a: nat, r: seq<byte>)
    requires a < |src|
    ensures r + [src[a]] + src[a + 1..] == src[a..a] + r + src[a..]
  {
    assert src[a..a] == [];
    assert src[a..] == [src[a]] + src[a + 1..];
  }

  /**
    One hint on its own: its rendered template is inserted into the source exactly at its
    anchor, for any category the inner loops visit once.
  */
  lemma SingleHint(src: seq<byte>, order: seq<Category>, c: Category, x: Hint)
    requires NoDuplicates(order) && c in order
    requires Anchor(c, x.range) < |src|
    ensures var a := Anchor(c, x.range);
            Annotated(src, NoHints.With(c, [x]), order) == src[..a] + Render(c, x.text) + src[a..]
  {
    forall j: nat | j < |src|
      ensures InsertionsAt(NoHints.With(c, [x]), order, j)
              == if j == Anchor(c, x.range) then Render(c, x.text) else []
    {
      SingleHintInsertions(order, c, x, j);
    }
    OneInsertionFrom(src, NoHints.With(c, [x]), order, Anchor(c, x.range), Render(c, x.text), 0);
  }

  /** A hint anchored at the boundary between two pieces of source text is inserted between them. */
  lemma HintBetween(order: seq<Category>, pre: string, post: string, c: Category, x: Hint, out: string)
    requires NoDuplicates(order) && c in order
    requires post != [] && Anchor(c, x.range) == |pre|
    requires Bytes(pre) + Render(c, x.text) + Bytes(post) == Bytes(out)
    ensures Annotated(Bytes(pre + post), NoHints.With(c, [x]), order) == Bytes(out)
  {
    BytesAppend(pre, post);
    var src := Bytes(pre + post);
    SingleHint(src, order, c, x);
    assert src[..|pre|] == Bytes(pre);
    assert src[|pre|..] == Bytes(post);
  }

  lemma BytesAppend4(a: string, b: string, c: string, d: string)
    ensures Bytes(a) + Bytes(b) + Bytes(c) + Bytes(d) == Bytes(a + b + c + d)
  {
    BytesAppend(a, b);
    BytesAppend(a + b, c);
    BytesAppend(a + b + c, d);
  }

  // ---------------------------------------------------------------------------
  // Two inner-loop orders with the same insertions

  lemma {:induction false} SameInsertionsFrom(src: seq<byte>, h1: HintLists, o1: seq<Category>,
                                              h2: HintLists, o2: seq<Category>, i: nat)
    requires i <= |src|
    requires forall j: nat :: i <= j < |src| ==> InsertionsAt(h1, o1, j) == InsertionsAt(h2, o2, j)
    ensures AnnotatedFrom(src, h1, o1, i) == AnnotatedFrom(src, h2, o2, i)
    decreases |src| - i
  {
    if i < |src| {
      SameInsertionsFrom(src, h1, o1, h2, o2, i + 1);
    }
  }

  /** Two loop nests that insert the same text before every source byte produce the same output. */
  lemma SameInsertions(src: seq<byte>, h1: HintLists, o1: seq<Category>, h2: HintLists, o2: seq<Category>)
    requires forall j: nat :: j < |src| ==> InsertionsAt(h1, o1, j) == InsertionsAt(h2, o2, j)
    ensures Annotated(src, h1, o1) == Annotated(src, h2, o2)
  {
    SameInsertionsFrom(src, h1, o1, h2, o2, 0);
  }

  /** The insertions of a loop nest extended by one more inner loop: the old ones, then that loop's fragments. */
  lemma {:induction false} InsertionsAppend(h: HintLists, order: seq<Category>, c: Category, i: nat)
    ensures InsertionsAt(h, order + [c], i) == InsertionsAt(h, order, i) + FragmentsAt(h.Of(c), c, i)
    decreases |order|
  {
    if order == [] {
      assert [c][1..] == [];
    } else {
      assert (order + [c])[0] == order[0];
      assert (order + [c])[1..] == order[1..] + [c];
      InsertionsAppend(h, order[1..], c, i);
    }
  }
}
