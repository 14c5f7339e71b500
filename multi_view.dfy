/**
  A multi-dimensional, row-major view of a one-dimensional linear range
  (class `hhxx::multi_view`). The range's iterator is modelled as an integer
  position `base`; an iterator plus an offset is integer addition.
 */
module Hhxx {
  import opened RowMajorLayout

  /** Maximum number of dimensions supported. */
  const MaxDim: nat := 10

  class MultiView {
    /** Position of the first element of the linear range. */
    const base: nat
    /** Strides of the dimensions, then a zero sentinel in every slot beyond
        the last dimension (capacity MaxDim + 1). */
    const steps: array<nat>
    /** Number of elements addressed by the view. */
    const numElements: nat
    /** The extents the view was built from; the source keeps only the
        strides derived from them. */
    ghost const extents: seq<nat>

    ghost predicate Valid()
      reads steps
    {
      0 < |extents| <= MaxDim &&
      steps.Length == MaxDim + 1 &&
      (forall j :: 0 <= j < |extents| ==> steps[j] == Stride(extents, j)) &&
      (forall j :: |extents| <= j < steps.Length ==> steps[j] == 0) &&
      numElements == Product(extents) && numElements != 0
    }

    /** Copies the extents into a zeroed stride array and turns them, right to
        left, into strides with a running product; the final product is the
        element count, which must be nonzero. */
    constructor (base: nat, extents: seq<nat>)
      requires 0 < |extents| <= MaxDim
      requires Product(extents) != 0
      ensures Valid() && fresh(steps)
      ensures this.base == base && this.extents == extents
      ensures steps[|extents| - 1] == 1
      ensures forall j :: 0 <= j < |extents| - 1 ==> steps[j] == extents[j + 1] * steps[j + 1]
      ensures numElements == extents[0] * steps[0]
    {
      var n := |extents|;
      var s := new nat[MaxDim + 1](_ => 0);
      forall j | 0 <= j < n {
        s[j] := extents[j];
      }
      var i, acc := n, 1;
      while i > 0
        invariant 0 <= i <= n
        invariant acc == Product(extents[i..])
        invariant forall j :: 0 <= j < i ==> s[j] == extents[j]
        invariant forall j :: i <= j < n ==> s[j] == Stride(extents, j)
        invariant forall j :: n <= j < s.Length ==> s[j] == 0
      {
        i := i - 1;
        SliceTail(extents, i);
        assert Product(extents[i..]) == acc * extents[i];
        var e := s[i];
        s[i] := acc;
        acc := acc * e;
      }
      forall j | 0 <= j < n - 1 {
        StrideRecurrence(extents, j);
      }
      StrideRecurrence(extents, n - 1);
      this.base := base;
      this.extents := extents;
      steps := s;
      numElements := acc;
    }

    /** Begin of the sub-object at the index prefix `idx` (an empty prefix
        gives the begin of the whole object). The loop stops at the zero
        sentinel, so indices beyond the last dimension are ignored. */
    method Begin(idx: seq<nat>) returns (p: nat)
      requires Valid()
      ensures p == base + Offset(extents, idx)
      ensures idx == [] ==> p == base
    {
      var offset: nat, i := 0, 0;
      while i < |idx| && steps[i] != 0
        invariant i <= |idx| && i <= |extents|
        invariant offset + Offset(extents[i..], idx[i..]) == Offset(extents, idx)
        decreases |idx| - i
      {
        SliceTail(extents, i);
        SliceTail(idx, i);
        offset := offset + idx[i] * steps[i];
        i := i + 1;
      }
      if i < |extents| {
        StridePositive(extents, i);
      }
      p := base + offset;
    }

    /** End of the sub-object at the index prefix `idx`: the begin of the same
        prefix with its last index incremented (an empty prefix gives the end
        of the whole object). */
    method End(idx: seq<nat>) returns (p: nat)
      requires Valid()
      ensures idx == [] ==> p == base + numElements
      ensures idx != [] ==> p == base + Offset(extents, Bump(idx))
      ensures 0 < |idx| <= |extents| ==> p == base + Offset(extents, idx) + Stride(extents, |idx| - 1)
      ensures |idx| > |extents| ==> p == base + Offset(extents, idx)
    {
      if idx == [] {
        p := base + numElements;
      } else {
        p := Begin(Bump(idx));
        EndSpan(extents, idx);
      }
    }

    /** The element at the index prefix `idx` of the linear range `data`
        (missing indices are zero-filled). */
    method At<T>(data: seq<T>, idx: seq<nat>) returns (x: T)
      requires Valid()
      requires base + Offset(extents, idx) < |data|
      ensures x == data[base + Offset(extents, idx)]
    {
      var p := Begin(idx);
      x := data[p];
    }
  }

  /** Makes a view of the range beginning at `base` with the given extents. */
  method MakeMultiView(base: nat, extents: seq<nat>) returns (v: MultiView)
    requires 0 < |extents| <= MaxDim
    requires Product(extents) != 0
    ensures fresh(v) && v.Valid() && v.base == base && v.extents == extents
  {
    v := new MultiView(base, extents);
  }

  /** A 2 x 3 view over the range 0, 1, ..., 5. */
  method TwoByThree()
  {
    var data := [0, 1, 2, 3, 4, 5];
    var v := MakeMultiView(0, [2, 3]);
    var first := v.At(data, [0, 0]);
    var last := v.At(data, [1, 2]);
    var row := v.At(data, [1]);
    var b := v.Begin([1]);
    var e := v.End([1]);
    var whole := v.End([]);
    assert first == 0 && last == 5 && row == 3;
    assert b == 3 && e == 6 && whole == 6;
  }
}
