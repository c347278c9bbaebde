/**
 * Generic sequence operations: concatenation of a run of sequences, and
 * duplicate removal in first-occurrence order, which is the iteration
 * order of a JavaScript `Set` built from a list.
 */
module Sequences {

  /** All the inner sequences, one after another. */
  function Flatten<T>(gs: seq<seq<T>>): (r: seq<T>)
    ensures |gs| == 1 ==> r == gs[0]
  {
    if |gs| == 0 then [] else gs[0] + Flatten(gs[1..])
  }

  /** No value occurs twice. */
  predicate NoDuplicates<T(==)>(xs: seq<T>)
  {
    forall i, j :: 0 <= i < j < |xs| ==> xs[i] != xs[j]
  }

  /** The position of the first occurrence of `x` in `xs`. */
  function FirstIndex<T(==)>(xs: seq<T>, x: T): (k: nat)
    requires x in xs
    ensures k < |xs| && xs[k] == x
    ensures x !in xs[..k]
  {
    if xs[0] == x then 0 else 1 + FirstIndex(xs[1..], x)
  }

  /** A first occurrence inside a prefix is the first occurrence in the whole. */
  lemma {:induction false} FirstIndexPrefix<T>(xs: seq<T>, n: nat, x: T)
    requires n <= |xs| && x in xs[..n]
    ensures x in xs && FirstIndex(xs, x) == FirstIndex(xs[..n], x)
  {
  }

  /**
   * `[...new Set(xs)]`: each distinct value once. A `Set` built from `xs`
   * is the `Set` built from all but the last element, with the last
   * element added when it is new; `DedupOrder` states the resulting order.
   */
  function Dedup<T(==)>(xs: seq<T>): (r: seq<T>)
    ensures NoDuplicates(r)
    ensures forall i :: 0 <= i < |r| ==> r[i] in xs
    ensures forall i :: 0 <= i < |xs| ==> xs[i] in r
    ensures |r| <= |xs|
    decreases |xs|
  {
    if |xs| == 0 then []
    else
      var seen := Dedup(xs[..|xs| - 1]);
      var last := xs[|xs| - 1];
      if last in seen then seen else seen + [last]
  }

  /** The last element, when new, first occurs at the end. */
  lemma FirstIndexOfNew<T>(xs: seq<T>)
    requires |xs| >= 1 && xs[|xs| - 1] !in xs[..|xs| - 1]
    ensures FirstIndex(xs, xs[|xs| - 1]) == |xs| - 1
  {
  }

  /** `Dedup` lists the distinct values in order of first occurrence. */
  lemma {:induction false} DedupOrder<T>(xs: seq<T>)
    ensures forall i, j :: 0 <= i < j < |Dedup(xs)| ==>
      FirstIndex(xs, Dedup(xs)[i]) < FirstIndex(xs, Dedup(xs)[j])
    decreases |xs|
  {
    if |xs| > 0 {
      var prefix := xs[..|xs| - 1];
      var seen := Dedup(prefix);
      DedupOrder(prefix);
      AppendKeepsOrder(xs, seen);
      assert Dedup(xs) == if xs[|xs| - 1] in seen then seen else seen + [xs[|xs| - 1]];
    }
  }

  /** One step of `Dedup` keeps first-occurrence order. */
  lemma AppendKeepsOrder<T>(xs: seq<T>, seen: seq<T>)
    requires |xs| >= 1
    requires forall i :: 0 <= i < |seen| ==> seen[i] in xs[..|xs| - 1]
    requires forall i :: 0 <= i < |xs| - 1 ==> xs[i] in seen
    requires forall i, j :: 0 <= i < j < |seen| ==>
      FirstIndex(xs[..|xs| - 1], seen[i]) < FirstIndex(xs[..|xs| - 1], seen[j])
    ensures var r := if xs[|xs| - 1] in seen then seen else seen + [xs[|xs| - 1]];
      forall i, j :: 0 <= i < j < |r| ==> r[i] in xs && r[j] in xs && FirstIndex(xs, r[i]) < FirstIndex(xs, r[j])
  {
    var n := |xs| - 1;
    SeenKeepsIndex(xs, seen);
    var last := xs[n];
    if last !in seen {
      assert last !in xs[..n];
      FirstIndexOfNew(xs);
      var r := seen + [last];
      forall i, j | 0 <= i < j < |r|
        ensures r[i] in xs && r[j] in xs && FirstIndex(xs, r[i]) < FirstIndex(xs, r[j])
      {
        assert r[i] == seen[i];
        if j < |seen| {
          assert r[j] == seen[j];
        }
      }
    }
  }

  /** Values already seen in the prefix keep their first index. */
  lemma SeenKeepsIndex<T>(xs: seq<T>, seen: seq<T>)
    requires |xs| >= 1
    requires forall i :: 0 <= i < |seen| ==> seen[i] in xs[..|xs| - 1]
    ensures forall i :: 0 <= i < |seen| ==>
      seen[i] in xs && FirstIndex(xs, seen[i]) == FirstIndex(xs[..|xs| - 1], seen[i]) < |xs| - 1
  {
    var n := |xs| - 1;
    forall i | 0 <= i < |seen|
      ensures seen[i] in xs && FirstIndex(xs, seen[i]) == FirstIndex(xs[..n], seen[i]) < n
    {
      var x := seen[i];
      assert x in xs[..n];
      FirstIndexPrefix(xs, n, x);
    }
  }

  /** A list holding one value only, however often, keeps it once. */
  lemma DedupConstant<T>(xs: seq<T>, x: T)
    requires forall k :: 0 <= k < |xs| ==> xs[k] == x
    ensures |xs| == 0 ==> Dedup(xs) == []
    ensures |xs| > 0 ==> Dedup(xs) == [x]
  {
    var r := Dedup(xs);
    if |xs| > 0 {
      assert xs[0] in r;
    }
  }
}
