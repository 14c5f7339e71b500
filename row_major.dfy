/**
  Row-major (C-order) layout of a multi-dimensional index space over a flat
  linear range: the last dimension varies fastest. These functions are the
  specification that the multi_view class is proved against.
 */
module RowMajorLayout {

  /** Number of elements of an object with the given extents. */
  function Product(extents: seq<nat>): nat
  {
    if extents == [] then 1 else extents[0] * Product(extents[1..])
  }

  /** No dimension is empty. */
  predicate AllPositive(extents: seq<nat>)
  {
    forall j :: 0 <= j < |extents| ==> extents[j] > 0
  }

  /** Stride of dimension j: the number of linear elements spanned by one
      increment of index j, i.e. the product of the extents after j. */
  function Stride(extents: seq<nat>, j: nat): nat
    requires j < |extents|
  {
    Product(extents[j + 1..])
  }

  /** Linear offset of the sub-object addressed by the index prefix `idx`:
      the first index times the size of a sub-object, plus the offset inside
      that sub-object. Indices beyond the last dimension are ignored; missing
      trailing indices contribute nothing, as if they were zero. */
  function Offset(extents: seq<nat>, idx: seq<nat>): nat
  {
    if extents == [] || idx == [] then 0
    else idx[0] * Product(extents[1..]) + Offset(extents[1..], idx[1..])
  }

  /** `idx` is a prefix (possibly a full tuple) of in-extent indices. */
  predicate InBounds(extents: seq<nat>, idx: seq<nat>)
  {
    |idx| <= |extents| && forall j :: 0 <= j < |idx| ==> idx[j] < extents[j]
  }

  /** `k` zero indices. */
  function Zeros(k: nat): (z: seq<nat>)
    ensures |z| == k && forall j :: 0 <= j < k ==> z[j] == 0
  {
    seq(k, _ => 0)
  }

  /** The index tuple made explicit for an object of rank n: extra indices
      dropped, missing trailing indices filled with zeros. */
  function Padded(idx: seq<nat>, n: nat): (r: seq<nat>)
    ensures |r| == n
    ensures forall j :: 0 <= j < n ==> r[j] == if j < |idx| then idx[j] else 0
  {
    if |idx| >= n then idx[..n] else idx + Zeros(n - |idx|)
  }

  /** The index tuple whose last supplied index is incremented by one. */
  function Bump(idx: seq<nat>): seq<nat>
    requires idx != []
  {
    idx[..|idx| - 1] + [idx[|idx| - 1] + 1]
  }

  /** Strict lexicographic order on index tuples (row-major enumeration order). */
  predicate LexLess(t: seq<nat>, u: seq<nat>)
  {
    t != [] && u != [] && (t[0] < u[0] || (t[0] == u[0] && LexLess(t[1..], u[1..])))
  }

  /** The full index tuple of the element at linear offset `off`: the inverse
      of Offset on in-bounds full tuples. */
  function Unravel(extents: seq<nat>, off: nat): (t: seq<nat>)
    requires AllPositive(extents)
    ensures |t| == |extents|
  {
    if extents == [] then []
    else
      var p := Product(extents[1..]);
      ProductPositive(extents[1..]);
      [off / p] + Unravel(extents[1..], off % p)
  }

  // ---------------------------------------------------------------------
  // Arithmetic helpers

  lemma MulLeMono(a: nat, b: nat, c: nat)
    requires a <= b
    ensures a * c <= b * c
  {
  }

  lemma DivModUnique(q: nat, r: nat, d: nat)
    requires r < d
    ensures (q * d + r) / d == q && (q * d + r) % d == r
  {
    var n := q * d + r;
    var q', r' := n / d, n % d;
    assert q' * d + r' == q * d + r;
    if q' > q {
      MulLeMono(q + 1, q', d);
      assert false;
    } else if q' < q {
      MulLeMono(q' + 1, q, d);
      assert false;
    }
  }

  lemma DivBelow(n: nat, p: nat, e: nat)
    requires p > 0 && n < e * p
    ensures n / p < e
  {
  }

  lemma Distribute(x: nat, a: nat, b: nat, c: nat)
    ensures x * (a * c) + b * c == (x * a + b) * c
  {
  }

  lemma SameBlock(a: nat, b: nat, sz: nat, off: nat)
    requires a * sz <= off < a * sz + sz
    requires b * sz <= off < b * sz + sz
    ensures a == b
  {
    DivModUnique(a, off - a * sz, sz);
    DivModUnique(b, off - b * sz, sz);
  }

  lemma SliceTail(s: seq<nat>, i: nat)
    requires i < |s|
    ensures s[i..][1..] == s[i + 1..] && s[i..][0] == s[i]
  {
  }

  // ---------------------------------------------------------------------
  // Properties of the layout

  /** The element count is nonzero exactly when no extent is zero. */
  lemma {:induction false} ProductPositive(extents: seq<nat>)
    ensures Product(extents) > 0 <==> AllPositive(extents)
  {
    if extents != [] {
      var rest := extents[1..];
      ProductPositive(rest);
      assert AllPositive(extents) <==> extents[0] > 0 && AllPositive(rest) by {
        if extents[0] > 0 && AllPositive(rest) {
          forall j | 0 <= j < |extents| ensures extents[j] > 0 {
            if j > 0 { assert extents[j] == rest[j - 1]; }
          }
        }
        if AllPositive(extents) {
          forall j | 0 <= j < |rest| ensures rest[j] > 0 {
            assert rest[j] == extents[j + 1];
          }
        }
      }
      if extents[0] > 0 && Product(rest) > 0 {
        MulLeMono(1, extents[0], Product(rest));
      }
    }
  }

  /** When the element count is nonzero, so is every stride; the zero
      sentinel after the last stride is therefore the first zero. */
  lemma StridePositive(extents: seq<nat>, j: nat)
    requires j < |extents| && Product(extents) != 0
    ensures Stride(extents, j) > 0
  {
    ProductPositive(extents);
    var suffix := extents[j + 1..];
    assert AllPositive(suffix) by {
      forall k | 0 <= k < |suffix| ensures suffix[k] > 0 {
        assert suffix[k] == extents[j + 1 + k];
      }
    }
    ProductPositive(suffix);
  }

  /** The stride of the last dimension is one, each other stride is the next
      extent times the next stride, and the first extent times the first
      stride is the element count. */
  lemma StrideRecurrence(extents: seq<nat>, j: nat)
    requires j < |extents|
    ensures j == |extents| - 1 ==> Stride(extents, j) == 1
    ensures j < |extents| - 1 ==> Stride(extents, j) == extents[j + 1] * Stride(extents, j + 1)
    ensures Product(extents) == extents[0] * Stride(extents, 0)
  {
    if j < |extents| - 1 {
      SliceTail(extents, j + 1);
    }
  }

  /** Missing trailing indices are zero-filled and extra indices are ignored:
      the offset of any tuple equals that of the tuple padded or truncated to
      the rank. */
  lemma {:induction false} OffsetPadded(extents: seq<nat>, idx: seq<nat>)
    ensures Offset(extents, idx) == Offset(extents, Padded(idx, |extents|))
  {
    var n := |extents|;
    var padded := Padded(idx, n);
    if extents != [] {
      var rest := Padded(if idx == [] then [] else idx[1..], n - 1);
      assert padded[1..] == rest;
      OffsetPadded(extents[1..], if idx == [] then [] else idx[1..]);
      if idx == [] {
        OffsetZeros(extents[1..], rest);
      }
    }
  }

  /** A tuple of zeros addresses the first element. */
  lemma {:induction false} OffsetZeros(extents: seq<nat>, z: seq<nat>)
    requires forall j :: 0 <= j < |z| ==> z[j] == 0
    ensures Offset(extents, z) == 0
  {
    if extents != [] && z != [] {
      OffsetZeros(extents[1..], z[1..]);
    }
  }

  /** The offset of a tuple is the offset of its first k indices plus the
      offset of the rest inside the addressed sub-object. */
  lemma {:induction false} OffsetSplit(extents: seq<nat>, t: seq<nat>, k: nat)
    requires k <= |extents| && k <= |t|
    ensures Offset(extents, t) == Offset(extents, t[..k]) + Offset(extents[k..], t[k..])
  {
    if k > 0 {
      OffsetSplit(extents[1..], t[1..], k - 1);
      assert t[..k][1..] == t[1..][..k - 1];
      assert extents[1..][k - 1..] == extents[k..];
      assert t[1..][k - 1..] == t[k..];
    }
  }

  /** An in-bounds prefix addresses a sub-object that lies wholly inside the
      object: its offset plus the sub-object's size is at most the element
      count. */
  lemma {:induction false} OffsetBound(extents: seq<nat>, idx: seq<nat>)
    requires InBounds(extents, idx)
    ensures Offset(extents, idx) + Product(extents[|idx|..]) <= Product(extents)
  {
    if idx != [] {
      var rest := extents[1..];
      assert InBounds(rest, idx[1..]) by {
        forall j | 0 <= j < |idx| - 1 ensures idx[1..][j] < rest[j] {
          assert idx[j + 1] < extents[j + 1];
        }
      }
      OffsetBound(rest, idx[1..]);
      assert rest[|idx| - 1..] == extents[|idx|..];
      var p := Product(rest);
      assert Offset(extents, idx) == idx[0] * p + Offset(rest, idx[1..]);
      assert (idx[0] + 1) * p == idx[0] * p + p;
      MulLeMono(idx[0] + 1, extents[0], p);
    }
  }

  /** Every in-bounds full index tuple maps into [0, element count). */
  lemma OffsetInRange(extents: seq<nat>, t: seq<nat>)
    requires InBounds(extents, t) && |t| == |extents|
    ensures Offset(extents, t) < Product(extents)
  {
    OffsetBound(extents, t);
    assert extents[|t|..] == [];
  }

  /** The end of the sub-object at a prefix of k indices (the last one bumped)
      is its begin plus the stride of dimension k-1; bumping an index beyond
      the rank changes nothing, so the range is empty. */
  lemma {:induction false} EndSpan(extents: seq<nat>, idx: seq<nat>)
    requires idx != []
    ensures |idx| <= |extents| ==>
      Offset(extents, Bump(idx)) == Offset(extents, idx) + Stride(extents, |idx| - 1)
    ensures |idx| > |extents| ==> Offset(extents, Bump(idx)) == Offset(extents, idx)
  {
    if extents != [] {
      if |idx| == 1 {
        assert Bump(idx) == [idx[0] + 1];
        assert Bump(idx)[1..] == [];
      } else {
        assert Bump(idx)[0] == idx[0];
        assert Bump(idx)[1..] == Bump(idx[1..]);
        EndSpan(extents[1..], idx[1..]);
        if |idx| <= |extents| {
          assert extents[1..][|idx| - 1..] == extents[|idx|..];
        }
      }
    }
  }

  /** The element at an in-bounds full tuple t lies in the half-open range of
      every prefix of t: [Offset(prefix), Offset(prefix) + sub-object size). */
  lemma SubRangeContains(extents: seq<nat>, t: seq<nat>, k: nat)
    requires InBounds(extents, t) && |t| == |extents| && k <= |t|
    ensures Offset(extents, t[..k]) <= Offset(extents, t)
    ensures Offset(extents, t) < Offset(extents, t[..k]) + Product(extents[k..])
  {
    OffsetSplit(extents, t, k);
    var rest, tail := extents[k..], t[k..];
    assert InBounds(rest, tail) by {
      forall j | 0 <= j < |tail| ensures tail[j] < rest[j] {
        assert t[k + j] < extents[k + j];
      }
    }
    OffsetInRange(rest, tail);
  }

  /** The element count splits at any dimension. */
  lemma {:induction false} ProductSplit(extents: seq<nat>, k: nat)
    requires k <= |extents|
    ensures Product(extents) == Product(extents[..k]) * Product(extents[k..])
  {
    if k > 0 {
      var rest := extents[1..];
      ProductSplit(rest, k - 1);
      assert extents[..k][1..] == rest[..k - 1];
      assert rest[k - 1..] == extents[k..];
      var a, b := Product(rest[..k - 1]), Product(extents[k..]);
      assert Product(extents) == extents[0] * (a * b);
      assert Product(extents[..k]) == extents[0] * a;
      assert extents[0] * (a * b) == (extents[0] * a) * b;
    }
  }

  /** The offset of a prefix of k indices is the row-major offset of that
      prefix among the leading k dimensions, scaled by the size of the
      addressed sub-object. */
  lemma {:induction false} OffsetScale(extents: seq<nat>, p: seq<nat>)
    requires |p| <= |extents|
    ensures Offset(extents, p) == Offset(extents[..|p|], p) * Product(extents[|p|..])
  {
    if p != [] {
      var k, rest := |p|, extents[1..];
      OffsetScale(rest, p[1..]);
      assert rest[..k - 1] == extents[..k][1..];
      assert rest[k - 1..] == extents[k..];
      ProductSplit(rest, k - 1);
      var a, b, sz := Product(rest[..k - 1]), Offset(rest[..k - 1], p[1..]), Product(extents[k..]);
      assert Offset(extents, p) == p[0] * (a * sz) + b * sz;
      assert Offset(extents[..k], p) == p[0] * a + b;
      Distribute(p[0], a, b, sz);
    }
  }

  /** The half-open range [Offset(p), Offset(p) + sub-object size) of an
      in-bounds prefix p holds exactly the elements whose full index tuples
      start with p. */
  lemma SubRangeExact(extents: seq<nat>, p: seq<nat>, off: nat)
    requires AllPositive(extents) && InBounds(extents, p)
    requires Offset(extents, p) <= off < Offset(extents, p) + Product(extents[|p|..])
    ensures off < Product(extents) && Unravel(extents, off)[..|p|] == p
  {
    var k := |p|;
    OffsetBound(extents, p);
    var t := Unravel(extents, off);
    OffsetUnravel(extents, off);
    var q := t[..k];
    SubRangeContains(extents, t, k);
    var sz := Product(extents[k..]);
    OffsetScale(extents, p);
    OffsetScale(extents, q);
    SameBlock(Offset(extents[..k], p), Offset(extents[..k], q), sz, off);
    OffsetInjective(extents[..k], p, q);
  }

  /** Unravel inverts Offset on in-bounds full tuples. */
  lemma {:induction false} UnravelOffset(extents: seq<nat>, t: seq<nat>)
    requires InBounds(extents, t) && |t| == |extents|
    ensures AllPositive(extents) && Unravel(extents, Offset(extents, t)) == t
  {
    assert AllPositive(extents) by {
      forall j | 0 <= j < |extents| ensures extents[j] > 0 {
        assert t[j] < extents[j];
      }
    }
    if extents != [] {
      var rest, tail := extents[1..], t[1..];
      assert InBounds(rest, tail) by {
        forall j | 0 <= j < |tail| ensures tail[j] < rest[j] {
          assert t[j + 1] < extents[j + 1];
        }
      }
      OffsetInRange(rest, tail);
      DivModUnique(t[0], Offset(rest, tail), Product(rest));
      UnravelOffset(rest, tail);
      assert t == [t[0]] + tail;
    }
  }

  /** Offset inverts Unravel on [0, element count): every element of the
      linear range is addressed by an in-bounds full tuple. */
  lemma {:induction false} OffsetUnravel(extents: seq<nat>, off: nat)
    requires AllPositive(extents) && off < Product(extents)
    ensures InBounds(extents, Unravel(extents, off))
    ensures Offset(extents, Unravel(extents, off)) == off
  {
    if extents != [] {
      var rest := extents[1..];
      var p := Product(rest);
      ProductPositive(rest);
      assert AllPositive(rest) by {
        forall j | 0 <= j < |rest| ensures rest[j] > 0 {
          assert rest[j] == extents[j + 1];
        }
      }
      var q, r := off / p, off % p;
      DivBelow(off, p, extents[0]);
      OffsetUnravel(rest, r);
      var t := Unravel(extents, off);
      assert t[0] == q && t[1..] == Unravel(rest, r);
      forall j | 0 <= j < |t| ensures t[j] < extents[j] {
        if j > 0 { assert t[j] == Unravel(rest, r)[j - 1]; }
      }
    }
  }

  /** Distinct in-bounds full tuples have distinct offsets. */
  lemma OffsetInjective(extents: seq<nat>, t: seq<nat>, u: seq<nat>)
    requires InBounds(extents, t) && |t| == |extents|
    requires InBounds(extents, u) && |u| == |extents|
    requires Offset(extents, t) == Offset(extents, u)
    ensures t == u
  {
    UnravelOffset(extents, t);
    UnravelOffset(extents, u);
  }

  /** Offsets follow row-major order: a lexicographically smaller in-bounds
      full tuple has a smaller offset. */
  lemma {:induction false} OffsetMonotone(extents: seq<nat>, t: seq<nat>, u: seq<nat>)
    requires InBounds(extents, t) && |t| == |extents|
    requires InBounds(extents, u) && |u| == |extents|
    requires LexLess(t, u)
    ensures Offset(extents, t) < Offset(extents, u)
  {
    var rest := extents[1..];
    assert InBounds(rest, t[1..]) && InBounds(rest, u[1..]) by {
      forall j | 0 <= j < |rest| ensures t[1..][j] < rest[j] && u[1..][j] < rest[j] {
        assert t[j + 1] < extents[j + 1] && u[j + 1] < extents[j + 1];
      }
    }
    var p := Product(rest);
    assert Offset(extents, t) == t[0] * p + Offset(rest, t[1..]);
    assert Offset(extents, u) == u[0] * p + Offset(rest, u[1..]);
    if t[0] < u[0] {
      OffsetInRange(rest, t[1..]);
      assert (t[0] + 1) * p == t[0] * p + p;
      MulLeMono(t[0] + 1, u[0], p);
    } else {
      OffsetMonotone(rest, t[1..], u[1..]);
    }
  }
}
