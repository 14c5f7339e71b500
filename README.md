# multi_view: a row-major multi-dimensional view over a linear range

This project models `hhxx::multi_view` from the Happy Hacking CXX library
(`hhxx/multi_view.hpp`). The view lays a row-major index space of 1 to 10
dimensions over a flat linear range that the caller owns. Row-major means
the last dimension varies fastest. The view keeps only the start of the
range and a stride per dimension, and it turns an index prefix into a
position in the range.

The model has two modules.

- `RowMajorLayout` (`row_major.dfy`) is the specification, written as pure
  functions:
  - `Product` is the element count of a list of extents.
  - `Stride(extents, j)` is the product of the extents after `j`.
  - `Offset(extents, idx)` is the linear offset of the sub-object at an index
    prefix. It is the first index times the size of a sub-object, plus the
    offset inside that sub-object. Extra indices are ignored and missing
    ones count as zero.
  - `Unravel` is the inverse of `Offset`: it maps an offset back to its full
    index tuple.
  - The lemmas prove the layout properties: zero-fill, the half-open
    sub-ranges, and that in-bounds full tuples map one-to-one and in
    row-major order onto `[0, element count)`.
- `Hhxx` (`multi_view.dfy`) is the class `MultiView` itself.
  - Its fields mirror the source: `base` (the iterator, modelled as an
    integer position), `steps` (an array of capacity 11 whose slots after
    the last dimension stay zero), and `numElements`.
  - The ghost `extents` records what the view was built from.
  - The constructor runs the source's right-to-left running-product loop
    over the array.
  - `Begin` runs the source's offset loop, which stops at the zero
    sentinel. It is proved equal to `base + Offset(extents, idx)`.
  - `End` and `At` are built on `Begin`, as in the source.
  - All fields are `const` and no query has a `modifies` clause, so no
    query changes the view. This matches the C++ `const` members.

`begin()` and `end()` with no indices are the empty-prefix cases of `Begin`
and `End`. For `end`, the source picks the non-variadic overload, which
returns `base + num_elements`. A consequence of the code: `end` with more
indices than the view has dimensions bumps an index that `begin` ignores.
The result is an empty range `[begin, begin)`. `End`'s contract states this
outright.

## Model

| member | source | states |
|---|---|---|
| `Hhxx.MultiView.constructor` | hhxx/multi_view.hpp:32-47 | Requires 1 to 10 extents with a nonzero product. Afterwards `steps[n-1] == 1`, `steps[j] == extents[j+1] * steps[j+1]`, every slot from `n` on is 0, and `numElements` is the product of all extents (`extents[0] * steps[0]`). |
| `Hhxx.MultiView.Begin` | hhxx/multi_view.hpp:52-66 | The sentinel-terminated loop over the stride array returns `base + Offset(extents, idx)`, which is `base` for no indices. |
| `Hhxx.MultiView.End` | hhxx/multi_view.hpp:71-79 | With no indices it returns `base + numElements`. Otherwise it returns `begin` of the prefix with the last index bumped. For 1 ≤ k ≤ n indices that is `begin + Stride(k-1)`. With more than n indices it equals `begin`. |
| `Hhxx.MultiView.At` | hhxx/multi_view.hpp:81-86 | Reads exactly the element of the range at `Begin(idx)`, with missing indices zero-filled. |
| `Hhxx.MakeMultiView` | hhxx/multi_view.hpp:99-104 | Returns a new valid view with the given start and extents, under the constructor's requirements. |
| `RowMajorLayout.ProductPositive` | hhxx/multi_view.hpp:41-46 | The element count is nonzero if and only if no extent is zero, so a zero extent violates the constructor's contract. |
| `RowMajorLayout.StrideRecurrence` | hhxx/multi_view.hpp:39-44 | The last stride is 1. Each other stride is the next extent times the next stride. The first extent times the first stride is the element count. |
| `RowMajorLayout.StridePositive` | hhxx/multi_view.hpp:59-64 | Every real stride is nonzero when the element count is, so the zero sentinel at slot n is where the offset loop stops. |
| `RowMajorLayout.OffsetPadded` | hhxx/multi_view.hpp:81-82 | The offset of any index tuple equals that of the same tuple padded with zeros, or truncated, to the rank. Missing indices are zero-filled and extra ones are ignored. |
| `RowMajorLayout.OffsetZeros` | hhxx/multi_view.hpp:49-50 | An all-zero prefix addresses the first element, the same as the begin of the whole object. |
| `RowMajorLayout.OffsetSplit` | hhxx/multi_view.hpp:58-66 | The offset of a tuple is the offset of its first k indices plus the offset of the rest inside the addressed sub-object. |
| `RowMajorLayout.OffsetBound` | hhxx/multi_view.hpp:49-50 | The sub-object at an in-bounds prefix of length k lies inside the object: offset plus `Product(extents[k..])` is at most the element count. |
| `RowMajorLayout.OffsetInRange` | hhxx/multi_view.hpp:58-66 | Every in-bounds full index tuple maps into `[0, element count)`. |
| `RowMajorLayout.EndSpan` | hhxx/multi_view.hpp:89-92 | Bumping the last of k ≤ n indices moves the offset by exactly `Stride(k-1)`. Bumping an index beyond the rank does not move it. |
| `RowMajorLayout.SubRangeContains` | hhxx/multi_view.hpp:68-69 | The element at an in-bounds full tuple lies in the half-open range `[Offset(prefix), Offset(prefix) + sub-object size)` of each of its prefixes. |
| `RowMajorLayout.SubRangeExact` | hhxx/multi_view.hpp:68-69 | Every offset in the half-open range of an in-bounds prefix belongs to a full tuple that starts with that prefix, so the range is exactly that sub-object. |
| `RowMajorLayout.ProductSplit` | hhxx/multi_view.hpp:39-46 | The element count is the product of the counts of the leading and trailing dimensions, at any split point. |
| `RowMajorLayout.OffsetScale` | hhxx/multi_view.hpp:58-66 | The offset of a k-index prefix is its row-major offset among the leading k dimensions, times the size of the addressed sub-object. |
| `RowMajorLayout.UnravelOffset` | hhxx/multi_view.hpp:58-66 | `Unravel(Offset(t)) == t` for every in-bounds full tuple. |
| `RowMajorLayout.OffsetUnravel` | hhxx/multi_view.hpp:58-66 | Every offset below the element count is `Offset` of an in-bounds full tuple, namely its `Unravel`. |
| `RowMajorLayout.OffsetInjective` | hhxx/multi_view.hpp:58-66 | Distinct in-bounds full tuples have distinct offsets. |
| `RowMajorLayout.OffsetMonotone` | hhxx/multi_view.hpp:58-66 | A lexicographically smaller in-bounds full tuple has a smaller offset. Enumerating tuples in row-major order therefore visits offsets 0, 1, 2, … in order. |

## Left out

- The `Iterator` template parameter: `base_` is an integer position. Dereferencing is indexing a sequence `data` that the caller passes to `At`. The view does not own the range, and `At` requires the position to lie inside it.
- Variadic templates, `std::index_sequence`, `std::initializer_list`, `std::copy` and `std::exchange`: extents and indices are `seq<nat>`. The array copy is a `forall` statement, and the exchange is a read followed by a write.
- The `static_assert` on the dimension count becomes the constructor's precondition `0 < |extents| <= MaxDim`.
- `assert(acc)` becomes the precondition `Product(extents) != 0`. Debug and release assertion behaviour is not modelled.
- Hhxx.MultiView.constructor: does not model `std::size_t` wrap-around of the extent product, because all arithmetic is on unbounded naturals. With wrap-around, all-positive extents could still give a zero product.
- Hhxx.MultiView.Begin: does not model `std::size_t` wrap-around of `idxes[i] * steps_[i]` or of the offset sum, nor signed/unsigned conversion of the index values, because all arithmetic is on unbounded naturals.
- `assert(idxes[i] >= 0)`: indices are `nat`, so a negative index cannot be expressed.
- Out-of-extent indices are not checked by the code. The range and bijection lemmas therefore assume in-bounds indices (`InBounds`).
- `test/algorithm.cpp` tests `cppu::swap`, and `cppu/algorithm.hpp` is not part of this model.
