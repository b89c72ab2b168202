/** Boolean-mask selection as numpy and pandas perform it: `np.isin` /
    `Series.isin` build one flag per element, and indexing an array (or a
    table) with such a flag sequence keeps the flagged elements in their
    original order. */
module Masks {

  /** `np.isin(xs, targets)`: one flag per element of `xs`, set when that
      element equals one of `targets`. */
  function IsIn<T(==)>(xs: seq<T>, targets: seq<T>): (mask: seq<bool>)
    ensures |mask| == |xs|
    ensures forall j :: 0 <= j < |xs| ==> (mask[j] <==> xs[j] in targets)
  {
    seq(|xs|, j requires 0 <= j < |xs| => xs[j] in targets)
  }

  /** The positions of the set flags of `mask`, in increasing order: the
      index sequence a boolean index stands for. */
  function TrueIndices(mask: seq<bool>): seq<nat>
  {
    if |mask| == 0 then []
    else
      var rest := TrueIndices(mask[..|mask| - 1]);
      if mask[|mask| - 1] then rest + [|mask| - 1] else rest
  }

  /** `xs[mask]`: the elements of `xs` whose flag is set, in order. numpy
      and pandas refuse a mask of another length (IndexError), so a mask of
      the same length is what every caller supplies. */
  function Compress<T>(xs: seq<T>, mask: seq<bool>): seq<T>
    requires |mask| == |xs|
  {
    if |xs| == 0 then []
    else
      var rest := Compress(xs[..|xs| - 1], mask[..|mask| - 1]);
      if mask[|mask| - 1] then rest + [xs[|xs| - 1]] else rest
  }

  /** The indices are strictly increasing, all in range, and an index is
      listed exactly when its flag is set. */
  ghost predicate SelectsExactly(idx: seq<nat>, mask: seq<bool>)
  {
    && (forall a, b :: 0 <= a < b < |idx| ==> idx[a] < idx[b])
    && (forall k :: 0 <= k < |idx| ==> idx[k] < |mask| && mask[idx[k]])
    && (forall j :: 0 <= j < |mask| && mask[j] ==> j in idx)
  }

  /** TrueIndices lists exactly the set positions, in increasing order. */
  lemma {:induction false} TrueIndicesSpec(mask: seq<bool>)
    ensures SelectsExactly(TrueIndices(mask), mask)
  {
    if |mask| > 0 {
      var init := mask[..|mask| - 1];
      TrueIndicesSpec(init);
      var rest := TrueIndices(init);
      var idx := TrueIndices(mask);
      forall k | 0 <= k < |rest|
        ensures rest[k] < |mask| - 1 && mask[rest[k]]
      {
        assert init[rest[k]] == mask[rest[k]];
      }
      forall j | 0 <= j < |mask| && mask[j]
        ensures j in idx
      {
        if j < |mask| - 1 {
          assert init[j];
          assert j in rest;
        }
      }
    }
  }

  /** No set flag, no index. */
  lemma {:induction false} TrueIndicesNone(mask: seq<bool>)
    requires forall j :: 0 <= j < |mask| ==> !mask[j]
    ensures TrueIndices(mask) == []
  {
    if |mask| > 0 {
      TrueIndicesNone(mask[..|mask| - 1]);
    }
  }

  /** A single set flag, a single index. */
  lemma {:induction false} TrueIndicesSingle(mask: seq<bool>, j: nat)
    requires j < |mask| && mask[j]
    requires forall i :: 0 <= i < |mask| && i != j ==> !mask[i]
    ensures TrueIndices(mask) == [j]
  {
    var init := mask[..|mask| - 1];
    if j == |mask| - 1 {
      TrueIndicesNone(init);
    } else {
      TrueIndicesSingle(init, j);
    }
  }

  /** Every flag set, every index: `TrueIndices` of an all-true mask is
      0, 1, ..., |mask| - 1. */
  lemma {:induction false} TrueIndicesAll(mask: seq<bool>)
    requires forall j :: 0 <= j < |mask| ==> mask[j]
    ensures |TrueIndices(mask)| == |mask|
    ensures forall k :: 0 <= k < |mask| ==> TrueIndices(mask)[k] == k
  {
    if |mask| > 0 {
      TrueIndicesAll(mask[..|mask| - 1]);
    }
  }

  /** Boolean indexing keeps exactly the flagged elements: the k-th kept
      element is the element at the k-th set position. */
  lemma {:induction false} CompressAt<T>(xs: seq<T>, mask: seq<bool>)
    requires |mask| == |xs|
    ensures |Compress(xs, mask)| == |TrueIndices(mask)|
    ensures forall k :: 0 <= k < |TrueIndices(mask)| ==>
              TrueIndices(mask)[k] < |xs| && Compress(xs, mask)[k] == xs[TrueIndices(mask)[k]]
  {
    TrueIndicesSpec(mask);
    if |xs| > 0 {
      var init, minit := xs[..|xs| - 1], mask[..|mask| - 1];
      CompressAt(init, minit);
      TrueIndicesSpec(minit);
      forall k | 0 <= k < |TrueIndices(minit)|
        ensures init[TrueIndices(minit)[k]] == xs[TrueIndices(minit)[k]]
      {
      }
    }
  }
}
