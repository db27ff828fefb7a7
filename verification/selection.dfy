/**
 Boolean-mask indexing, `df[mask]`: the rows at the positions where the
 mask is true, in their original order.

 `Select` builds the result; `TrueIndices` is the independent description
 of it as a strictly increasing list of source positions. `SelectByIndices`
 connects the two, which makes "order-preserving subsequence, nothing
 duplicated or changed" a statement about positions.
 */
module Selection {

  /** Number of `true` entries. */
  function CountTrue(mask: seq<bool>): (n: nat)
    ensures n <= |mask|
    decreases |mask|
  {
    if |mask| == 0 then 0
    else CountTrue(mask[..|mask| - 1]) + (if mask[|mask| - 1] then 1 else 0)
  }

  predicate StrictlyIncreasing(idx: seq<nat>) {
    forall j, k :: 0 <= j < k < |idx| ==> idx[j] < idx[k]
  }

  /** The positions where `mask` is true, in increasing order. */
  function TrueIndices(mask: seq<bool>): (idx: seq<nat>)
    ensures |idx| == CountTrue(mask)
    ensures StrictlyIncreasing(idx)
    ensures forall k :: 0 <= k < |idx| ==> idx[k] < |mask| && mask[idx[k]]
    ensures forall i :: 0 <= i < |mask| && mask[i] ==> i in idx
    decreases |mask|
  {
    if |mask| == 0 then []
    else
      var init := mask[..|mask| - 1];
      TrueIndices(init) + (if mask[|mask| - 1] then [|mask| - 1] else [])
  }

  /** `xs[mask]` for a mask of the same length. */
  function Select<T>(xs: seq<T>, mask: seq<bool>): (r: seq<T>)
    requires |mask| == |xs|
    ensures |r| == CountTrue(mask)
    decreases |xs|
  {
    if |xs| == 0 then []
    else
      Select(xs[..|xs| - 1], mask[..|mask| - 1])
        + (if mask[|mask| - 1] then [xs[|xs| - 1]] else [])
  }

  /**
   The k-th selected element is the element at the k-th true position:
   the selection is the subsequence of `xs` picked out by the increasing
   positions `TrueIndices(mask)`.
   */
  lemma {:induction false} SelectByIndices<T>(xs: seq<T>, mask: seq<bool>)
    requires |mask| == |xs|
    ensures |Select(xs, mask)| == |TrueIndices(mask)| == CountTrue(mask)
    ensures forall k :: 0 <= k < |Select(xs, mask)| ==>
              Select(xs, mask)[k] == xs[TrueIndices(mask)[k]]
    decreases |xs|
  {
    if |xs| > 0 {
      var init := xs[..|xs| - 1];
      var initMask := mask[..|mask| - 1];
      SelectByIndices(init, initMask);
      forall k | 0 <= k < |Select(xs, mask)|
        ensures Select(xs, mask)[k] == xs[TrueIndices(mask)[k]]
      {
        if k < |Select(init, initMask)| {
          assert Select(xs, mask)[k] == Select(init, initMask)[k];
          assert TrueIndices(mask)[k] == TrueIndices(initMask)[k];
        }
      }
    }
  }

  /** An element is selected exactly when it sits at some true position. */
  lemma SelectMembership<T>(xs: seq<T>, mask: seq<bool>, x: T)
    requires |mask| == |xs|
    ensures x in Select(xs, mask) <==> exists i :: 0 <= i < |xs| && mask[i] && xs[i] == x
  {
    SelectByIndices(xs, mask);
    var r := Select(xs, mask);
    var idx := TrueIndices(mask);
    if x in r {
      var k :| 0 <= k < |r| && r[k] == x;
      assert mask[idx[k]] && xs[idx[k]] == x;
    }
    if exists i :: 0 <= i < |xs| && mask[i] && xs[i] == x {
      var i :| 0 <= i < |xs| && mask[i] && xs[i] == x;
      var k :| 0 <= k < |idx| && idx[k] == i;
      assert r[k] == x;
    }
  }

  /** An all-true mask selects everything. */
  lemma {:induction false} SelectAllTrue<T>(xs: seq<T>, mask: seq<bool>)
    requires |mask| == |xs|
    requires forall i :: 0 <= i < |mask| ==> mask[i]
    ensures Select(xs, mask) == xs
    decreases |xs|
  {
    if |xs| > 0 {
      SelectAllTrue(xs[..|xs| - 1], mask[..|mask| - 1]);
      assert xs[..|xs| - 1] + [xs[|xs| - 1]] == xs;
    }
  }

  /** The selection is empty exactly when the mask has no true entry. */
  lemma SelectEmptyIff<T>(xs: seq<T>, mask: seq<bool>)
    requires |mask| == |xs|
    ensures Select(xs, mask) == [] <==> forall i :: 0 <= i < |mask| ==> !mask[i]
  {
    SelectByIndices(xs, mask);
    var idx := TrueIndices(mask);
    if exists i :: 0 <= i < |mask| && mask[i] {
      var i :| 0 <= i < |mask| && mask[i];
      assert i in idx;
    }
  }
}
