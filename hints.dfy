/**
  Hints as `inlay_hints` hands them to the annotation engine: (range, label) pairs,
  stably sorted by the start of the range.
*/
module Hints {
  import opened Basics
  import opened Config

  /** A byte range `[start, end)` of the source text, as the analysis reports it. */
  datatype TextRange = TextRange(start: nat, end: nat)

  /** One hint: the range it annotates and the UTF-8 bytes of its label (`text`; `label` is a Dafny keyword), which the model treats as opaque. */
  datatype Hint = Hint(range: TextRange, text: seq<byte>)

  predicate SortedByStart(hs: seq<Hint>) {
    forall i, j :: 0 <= i < j < |hs| ==> hs[i].range.start <= hs[j].range.start
  }

  /** The hints of `hs` whose range starts at `k`, in their order in `hs`. */
  function StartingAt(hs: seq<Hint>, k: nat): seq<Hint>
    decreases |hs|
  {
    if hs == [] then []
    else (if hs[0].range.start == k then [hs[0]] else []) + StartingAt(hs[1..], k)
  }

  /** Puts `x` into `s` ahead of the first hint whose start is not smaller. */
  function Insert(x: Hint, s: seq<Hint>): seq<Hint>
    decreases |s|
  {
    if s == [] || x.range.start <= s[0].range.start then [x] + s
    else [s[0]] + Insert(x, s[1..])
  }

  lemma {:induction false} InsertPermutes(x: Hint, s: seq<Hint>)
    ensures multiset(Insert(x, s)) == multiset(s) + multiset{x}
    decreases |s|
  {
    if !(s == [] || x.range.start <= s[0].range.start) {
      InsertPermutes(x, s[1..]);
      assert s == [s[0]] + s[1..];
    }
  }

  /** Inserting into a sorted sequence keeps it sorted. */
  lemma {:induction false} InsertSorted(x: Hint, s: seq<Hint>)
    requires SortedByStart(s)
    ensures SortedByStart(Insert(x, s))
    decreases |s|
  {
    if !(s == [] || x.range.start <= s[0].range.start) {
      InsertSorted(x, s[1..]);
      InsertPermutes(x, s[1..]);
      SortedCons(s[0], Insert(x, s[1..]), s[1..] + [x]);
    }
  }

  /** `x` joins the hints of its start in front of them; every other start is untouched. */
  lemma {:induction false} InsertStable(x: Hint, s: seq<Hint>)
    ensures forall k :: StartingAt(Insert(x, s), k) == (if x.range.start == k then [x] else []) + StartingAt(s, k)
    decreases |s|
  {
    if s == [] || x.range.start <= s[0].range.start {
      StartingAtCons(x, s);
    } else {
      InsertStable(x, s[1..]);
      assert s == [s[0]] + s[1..];
      StartingAtCons(s[0], Insert(x, s[1..]));
      StartingAtCons(s[0], s[1..]);
    }
  }

  /** A hint no later than every hint of a sorted sequence can go in front of it. */
  lemma SortedCons(y: Hint, t: seq<Hint>, u: seq<Hint>)
    requires SortedByStart(t) && multiset(t) == multiset(u)
    requires forall k :: 0 <= k < |u| ==> y.range.start <= u[k].range.start
    ensures SortedByStart([y] + t)
  {
    forall k | 0 <= k < |t| ensures y.range.start <= t[k].range.start {
      assert t[k] in multiset(u);
    }
  }

  lemma StartingAtCons(x: Hint, s: seq<Hint>)
    ensures forall k :: StartingAt([x] + s, k) == (if x.range.start == k then [x] else []) + StartingAt(s, k)
  {
    assert ([x] + s)[1..] == s;
  }

  /**
    The sort in `inlay_hints` (`sorted_by_key(|(range, _)| range.start())`): a stable sort
    by range start. The result is ordered, a permutation of the input, and hints with equal
    starts keep their input order.
  */
  function SortByStart(hs: seq<Hint>): (r: seq<Hint>)
    ensures SortedByStart(r)
    ensures multiset(r) == multiset(hs)
    ensures forall k :: StartingAt(r, k) == StartingAt(hs, k)
    decreases |hs|
  {
    if hs == [] then []
    else
      assert hs == [hs[0]] + hs[1..];
      var rest := SortByStart(hs[1..]);
      InsertSorted(hs[0], rest);
      InsertPermutes(hs[0], rest);
      InsertStable(hs[0], rest);
      Insert(hs[0], rest)
  }

  /** A sorted sequence starts with a hint whose start is the smallest of every start in it. */
  lemma {:induction false} SortedHeadIsMinimal(s: seq<Hint>, k: nat)
    requires SortedByStart(s)
    requires StartingAt(s, k) != []
    ensures s != [] && s[0].range.start <= k
  {
    if s != [] && s[0].range.start != k {
      SortedHeadIsMinimal(s[1..], k);
    }
  }

  /** Two sorted sequences with the same hints at every start begin with the same hint. */
  lemma SameHead(a: seq<Hint>, b: seq<Hint>)
    requires SortedByStart(a) && SortedByStart(b) && a != []
    requires forall k :: StartingAt(a, k) == StartingAt(b, k)
    ensures b != [] && a[0] == b[0]
    ensures forall k :: StartingAt(a[1..], k) == StartingAt(b[1..], k)
  {
    var k := a[0].range.start;
    assert StartingAt(a, k) == [a[0]] + StartingAt(a[1..], k);
    SortedHeadIsMinimal(b, k);
    var kb := b[0].range.start;
    assert StartingAt(b, kb) == [b[0]] + StartingAt(b[1..], kb);
    SortedHeadIsMinimal(a, kb);
    var restA, restB := StartingAt(a[1..], k), StartingAt(b[1..], k);
    assert ([a[0]] + restA)[1..] == restA;
    assert ([b[0]] + restB)[1..] == restB;
    forall k' ensures StartingAt(a[1..], k') == StartingAt(b[1..], k') {
      if k' != k {
        assert StartingAt(a, k') == StartingAt(a[1..], k');
        assert StartingAt(b, k') == StartingAt(b[1..], k');
      }
    }
  }

  /**
    A stable sort by start is determined by its input: two sorted sequences with the same
    hints at every start, in the same order, are equal.
  */
  lemma {:induction false} StableSortUnique(a: seq<Hint>, b: seq<Hint>)
    requires SortedByStart(a) && SortedByStart(b)
    requires forall k :: StartingAt(a, k) == StartingAt(b, k)
    ensures a == b
    decreases |a|
  {
    if a != [] {
      SameHead(a, b);
      StableSortUnique(a[1..], b[1..]);
      assert a == [a[0]] + a[1..] && b == [b[0]] + b[1..];
    } else if b != [] {
      SameHead(b, a);
    }
  }

  /**
    `inlay_hints`: ask the analysis for the hints of one configuration and sort them by start.
    The analysis itself is outside the model; `analysis` stands for its answer on the source.
  */
  function InlayHints(config: InlayHintsConfig, analysis: InlayHintsConfig -> seq<Hint>): (r: seq<Hint>)
    ensures SortedByStart(r) && multiset(r) == multiset(analysis(config))
    ensures forall k :: StartingAt(r, k) == StartingAt(analysis(config), k)
  {
    SortByStart(analysis(config))
  }

  /** Any sorted rearrangement that keeps the order of equal starts is what `inlay_hints` returns. */
  lemma InlayHintsCharacterized(config: InlayHintsConfig, analysis: InlayHintsConfig -> seq<Hint>, r: seq<Hint>)
    requires SortedByStart(r)
    requires forall k :: StartingAt(r, k) == StartingAt(analysis(config), k)
    ensures r == InlayHints(config, analysis)
  {
    StableSortUnique(r, InlayHints(config, analysis));
  }
}
