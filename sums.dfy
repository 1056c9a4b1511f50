/** What `Sum` computes, checked against direct definitions on matrices, and where the source
    stores each total. */
module Sums {
  import opened Arith
  import opened Shapes
  import opened Axes
  import opened Arrays

  // ---------------------------------------------------------------------------------------
  // Matrices: row and column totals

  /** The total of the first `n` elements of row `i` of a matrix with `c` columns stored row by row. */
  function RowTotal(data: seq<real>, c: int, i: int, n: int): real
    requires 0 <= i && 0 <= n <= c && i * c + c <= |data|
  {
    if n == 0 then 0.0 else RowTotal(data, c, i, n - 1) + data[i * c + n - 1]
  }

  /** The total of the first `n` elements of column `j` of a matrix with `c` columns stored row
      by row. */
  function ColumnTotal(data: seq<real>, c: int, j: int, n: int): real
    requires 0 <= j < c && 0 <= n && n * c <= |data|
  {
    if n == 0 then 0.0 else ColumnTotal(data, c, j, n - 1) + data[(n - 1) * c + j]
  }

  /** Row `i` ends inside an `r` by `c` matrix. */
  lemma RowInside(r: int, c: int, i: int)
    requires 0 <= i < r && c > 0
    ensures i * c + c <= r * c
  {
    MulMonotone(r, i + 1, c);
  }

  /** Summing the last axis of a matrix keeps its rows. */
  lemma LastAxisMask(r: int, c: int)
    requires r > 0 && c > 0
    ensures Mask(2, [1]) == [false, true]
    ensures Count([false, true], false) == 1 && Count([false, true], true) == 1
    ensures Along([r, c], [false, true], false) == [r] && Along([r, c], [false, true], true) == [c]
  {
    var m := [false, true];
    assert m[..1] == [false] && [false][..0] == [];
    assert Positions(m, false) == [0] && Positions(m, true) == [1];
  }

  /** Summing the first axis of a matrix keeps its columns. */
  lemma FirstAxisMask(r: int, c: int)
    requires r > 0 && c > 0
    ensures Mask(2, [0]) == [true, false]
    ensures Count([true, false], false) == 1 && Count([true, false], true) == 1
    ensures Along([r, c], [true, false], false) == [c] && Along([r, c], [true, false], true) == [r]
  {
    var m := [true, false];
    assert m[..1] == [true] && [true][..0] == [];
    assert Positions(m, false) == [1] && Positions(m, true) == [0];
  }

  /** The element counts of a matrix, of one of its rows and of one of its columns. */
  lemma MatrixProducts(r: int, c: int)
    requires r > 0 && c > 0
    ensures Positive([r, c]) && Product([r, c]) == r * c && Product([r]) == r && Product([c]) == c
  {
    assert [r][..0] == [] && [c][..0] == [];
    assert Product([r]) == r && Product([c]) == c;
    assert [r, c][..1] == [r];
  }

  /** The two masks of a matrix, and the kept and summed dimensions each selects. */
  lemma MatrixMasks(r: int, c: int)
    requires r > 0 && c > 0
    ensures Mask(2, [1]) == [false, true] && Mask(2, [0]) == [true, false]
    ensures Count([false, true], false) == 1 && Count([false, true], true) == 1
    ensures Count([true, false], false) == 1 && Count([true, false], true) == 1
    ensures Along([r, c], [false, true], false) == [r] && Along([r, c], [false, true], true) == [c]
    ensures Along([r, c], [true, false], false) == [c] && Along([r, c], [true, false], true) == [r]
    ensures Positive([r, c]) && Product([r, c]) == r * c && Product([r]) == r && Product([c]) == c
  {
    LastAxisMask(r, c);
    FirstAxisMask(r, c);
    MatrixProducts(r, c);
  }

  /** The coordinate of a flat index inside one dimension is the index itself. */
  lemma UnflattenOne(d: int, x: int)
    requires 0 <= x < d
    ensures Unflatten([d], x) == [x]
  {
    DivModUnique(x, d, 0, x);
    assert [d][..0] == [];
  }

  /** The full index with kept coordinate `i` and summed coordinate `t`, summing the last axis. */
  lemma MergeLast(i: int, t: int)
    ensures Count([false, true], false) == 1 && Count([false, true], true) == 1
    ensures Merge([false, true], [i], [t]) == [i, t]
  {
    assert [false, true][..1] == [false] && [false][..0] == [];
    assert [t][..0] == [] && [i][..0] == [];
    assert Merge([false], [i], []) == [i];
  }

  /** The full index with kept coordinate `j` and summed coordinate `t`, summing the first axis. */
  lemma MergeFirst(j: int, t: int)
    ensures Count([true, false], false) == 1 && Count([true, false], true) == 1
    ensures Merge([true, false], [j], [t]) == [t, j]
  {
    assert [true, false][..1] == [true] && [true][..0] == [];
    assert [t][..0] == [] && [j][..0] == [];
    assert Merge([true], [], [t]) == [t];
  }

  /** The flat offset of element `(a, b)` of a matrix with `c` columns. */
  lemma PairOffset(a: int, b: int, r: int, c: int)
    ensures Offset([a, b], [r, c]) == a * c + b
  {
    assert [a, b][..1] == [a] && [r, c][..1] == [r] && [a][..0] == [] && [r][..0] == [];
    assert Offset([a], [r]) == a;
  }

  /** The `t`-th element of the slice of row `i`, summing the last axis, is `data[i * c + t]`. */
  lemma RowItem(data: seq<real>, r: int, c: int, i: int, t: int)
    requires r > 0 && c > 0 && |data| == r * c && 0 <= i < r && 0 <= t < c
    ensures (LastAxisMask(r, c); MatrixProducts(r, c); RowInside(r, c, i);
      SliceItem(data, [r, c], [false, true], [i], t) == data[i * c + t])
  {
    LastAxisMask(r, c);
    MatrixProducts(r, c);
    RowInside(r, c, i);
    UnflattenOne(c, t);
    MergeLast(i, t);
    PairOffset(i, t, r, c);
  }

  /** The `t`-th element of the slice of column `j`, summing the first axis, is `data[t * c + j]`. */
  lemma ColumnItem(data: seq<real>, r: int, c: int, j: int, t: int)
    requires r > 0 && c > 0 && |data| == r * c && 0 <= j < c && 0 <= t < r
    ensures (FirstAxisMask(r, c); MatrixProducts(r, c); RowInside(r, c, t);
      SliceItem(data, [r, c], [true, false], [j], t) == data[t * c + j])
  {
    FirstAxisMask(r, c);
    MatrixProducts(r, c);
    RowInside(r, c, t);
    UnflattenOne(r, t);
    MergeFirst(j, t);
    PairOffset(t, j, r, c);
  }

  /** Row `i`'s slice sum, summing the last axis, is its row total; the mask facts about the
      matrix are taken as given, so each step only adds one element. */
  lemma {:induction false} RowSlice(data: seq<real>, r: int, c: int, i: int, n: int)
    requires r > 0 && c > 0 && |data| == r * c && 0 <= i < r && 0 <= n <= c
    requires Positive([r, c]) && Product([r, c]) == r * c && Product([c]) == c && i * c + c <= r * c
    requires Along([r, c], [false, true], false) == [r] && Along([r, c], [false, true], true) == [c]
    ensures SliceSum(data, [r, c], [false, true], [i], n) == RowTotal(data, c, i, n)
  {
    if n > 0 {
      RowSlice(data, r, c, i, n - 1);
      RowItem(data, r, c, i, n - 1);
    }
  }

  /** Column `j`'s slice sum, summing the first axis, is its column total; the mask facts about
      the matrix are taken as given, so each step only adds one element. */
  lemma {:induction false} ColumnSlice(data: seq<real>, r: int, c: int, j: int, n: int)
    requires r > 0 && c > 0 && |data| == r * c && 0 <= j < c && 0 <= n <= r
    requires Positive([r, c]) && Product([r, c]) == r * c && Product([r]) == r && n * c <= r * c
    requires Along([r, c], [true, false], false) == [c] && Along([r, c], [true, false], true) == [r]
    ensures SliceSum(data, [r, c], [true, false], [j], n) == ColumnTotal(data, c, j, n)
  {
    if n > 0 {
      MulMonotone(n, n - 1, c);
      ColumnSlice(data, r, c, j, n - 1);
      ColumnItem(data, r, c, j, n - 1);
    }
  }

  /** `Sum(1)` of an `r` by `c` matrix is the vector of its row totals. */
  lemma SumRows(data: seq<real>, r: int, c: int)
    requires r > 0 && c > 0 && |data| == r * c
    ensures (MatrixMasks(r, c); DivModUnique(r * c, r * c, 1, 0);
      var s := SumOf(data, [r, c], [1]);
      s.Success? && |s.value| == r &&
      forall i :: 0 <= i < r ==> (RowInside(r, c, i); s.value[i] == RowTotal(data, c, i, c)))
  {
    MatrixMasks(r, c);
    DivModUnique(r * c, r * c, 1, 0);
    var mask := [false, true];
    assert SumError(|data|, 2, [1]).None?;
    forall i | 0 <= i < r ensures (RowInside(r, c, i); Totals(data, [r, c], mask)[i] == RowTotal(data, c, i, c)) {
      RowInside(r, c, i);
      UnflattenOne(r, i);
      RowSlice(data, r, c, i, c);
    }
  }

  /** `Sum(0)` of an `r` by `c` matrix is the vector of its column totals. */
  lemma SumColumns(data: seq<real>, r: int, c: int)
    requires r > 0 && c > 0 && |data| == r * c
    ensures (MatrixMasks(r, c); DivModUnique(r * c, r * c, 1, 0);
      var s := SumOf(data, [r, c], [0]);
      s.Success? && |s.value| == c &&
      forall j :: 0 <= j < c ==> s.value[j] == ColumnTotal(data, c, j, r))
  {
    MatrixMasks(r, c);
    DivModUnique(r * c, r * c, 1, 0);
    var mask := [true, false];
    assert SumError(|data|, 2, [0]).None?;
    forall j | 0 <= j < c ensures Totals(data, [r, c], mask)[j] == ColumnTotal(data, c, j, r) {
      UnflattenOne(c, j);
      ColumnSlice(data, r, c, j, r);
    }
  }

  // ---------------------------------------------------------------------------------------
  // Where a total is stored

  /** The slot the source stores the total of kept multi-index `kc` in: the offset computed by
      the summed array's own `GetIndex`, which reads the kept coordinates in the radices of its
      leading dimensions instead of the result's dimensions. */
  function WrittenSlot(shape: seq<int>, kc: seq<int>): int
    requires |kc| <= |shape|
  {
    Offset(kc, shape[..|kc|])
  }

  /** Summing the middle axis of a 2 by 2 by 3 array keeps its first and last dimensions. */
  lemma MiddleAxisMask()
    ensures Mask(3, [1]) == [false, true, false] && Along([2, 2, 3], [false, true, false], false) == [2, 3]
  {
    var mask := [false, true, false];
    assert mask[..2] == [false, true] && mask[..1] == [false] && mask[..0] == [];
    assert Positions(mask, false) == [0, 2];
  }

  /** As written, summing the middle axis of a 2 by 2 by 3 array: the kept multi-indices (0, 2)
      and (1, 0) of the 2 by 3 result are both stored in slot 2, and no kept multi-index is
      stored in slot 5, which keeps its initial 0. */
  lemma WrittenSlotsCollide()
    ensures Mask(3, [1]) == [false, true, false] && Along([2, 2, 3], [false, true, false], false) == [2, 3]
    ensures InBounds([0, 2], [2, 3]) && InBounds([1, 0], [2, 3])
    ensures WrittenSlot([2, 2, 3], [0, 2]) == 2 && WrittenSlot([2, 2, 3], [1, 0]) == 2
    ensures forall kc :: InBounds(kc, [2, 3]) ==> WrittenSlot([2, 2, 3], kc) != 5
  {
    MiddleAxisMask();
    assert [2, 2, 3][..2] == [2, 2];
    PairOffset(0, 2, 2, 2);
    PairOffset(1, 0, 2, 2);
    forall kc | InBounds(kc, [2, 3]) ensures WrittenSlot([2, 2, 3], kc) == 2 * kc[0] + kc[1] {
      assert kc == [kc[0], kc[1]];
      PairOffset(kc[0], kc[1], 2, 2);
    }
  }

  /** As written, summing the first axis of a 1 by 5 by 2 array: the outer loop visits the kept
      multi-indices of the 5 by 2 result in row-major order, and the first four of them, (0, 0)
      to (1, 1), are stored inside its 10-element buffer, but the fifth, (2, 0), is sent to slot
      10, one past the end, where the private indexer fails with an index failure although the
      call is valid. */
  lemma WrittenSlotOutside()
    ensures Mask(3, [0]) == [true, false, false] && Along([1, 5, 2], [true, false, false], false) == [5, 2]
    ensures Product([5, 2]) == 10 && InBounds([2, 0], [5, 2]) && Offset([2, 0], [5, 2]) == 4
    ensures forall kc :: InBounds(kc, [5, 2]) && Offset(kc, [5, 2]) < 4 ==> 0 <= WrittenSlot([1, 5, 2], kc) < 10
    ensures WrittenSlot([1, 5, 2], [2, 0]) == 10
  {
    var mask := [true, false, false];
    assert mask[..2] == [true, false] && mask[..1] == [true] && mask[..0] == [];
    assert Positions(mask, false)[0] == 1 && Positions(mask, false)[1] == 2;
    assert [1, 5, 2][..2] == [1, 5] && [5, 2][..1] == [5] && [5][..0] == [];
    PairOffset(2, 0, 5, 2);
    PairOffset(2, 0, 1, 5);
    forall kc | InBounds(kc, [5, 2]) && Offset(kc, [5, 2]) < 4 ensures 0 <= WrittenSlot([1, 5, 2], kc) < 10 {
      assert kc == [kc[0], kc[1]];
      PairOffset(kc[0], kc[1], 5, 2);
      PairOffset(kc[0], kc[1], 1, 5);
    }
  }

  /** No more dimensions of a kind than dimensions. */
  lemma {:induction false} CountAtMost(mask: seq<bool>, b: bool)
    ensures Count(mask, b) <= |mask|
  {
    if |mask| > 0 {
      CountAtMost(mask[..|mask| - 1], b);
    }
  }

  /** Where the source's slot is right: when the kept dimensions are the leading ones, or there is
      only one of them, the slot line 120 computes is the kept multi-index's offset in the
      result's own dimensions, so on those inputs the model's `Sum` stores where the source does. */
  lemma WrittenSlotAgrees(shape: seq<int>, mask: seq<bool>, kc: seq<int>)
    requires |mask| == |shape| && |kc| == Count(mask, false)
    requires (forall j :: 0 <= j < |kc| ==> Positions(mask, false)[j] == j) || |kc| == 1
    ensures |kc| <= |shape| && WrittenSlot(shape, kc) == Offset(kc, Along(shape, mask, false))
  {
    CountAtMost(mask, false);
    var kept := Along(shape, mask, false);
    if |kc| == 1 {
      assert kc[..0] == [] && kept[..0] == [] && shape[..1][..0] == [];
    } else {
      forall j | 0 <= j < |kc| ensures kept[j] == shape[j] {
        assert Positions(mask, false)[j] == j;
      }
      assert kept == shape[..|kc|];
    }
  }

  /** Corrected (the slot `Sum` and its `Store` use): the offset of a kept multi-index in the
      result's own dimensions lies inside the result, and different kept multi-indices get
      different slots, so every total survives. */
  lemma KeptSlotsDistinct(kept: seq<int>, a: seq<int>, b: seq<int>)
    requires Positive(kept) && InBounds(a, kept) && InBounds(b, kept) && a != b
    ensures 0 <= Offset(a, kept) < Product(kept) && 0 <= Offset(b, kept) < Product(kept)
    ensures Offset(a, kept) != Offset(b, kept)
  {
    OffsetBounds(a, kept);
    OffsetBounds(b, kept);
    UnflattenOffset(a, kept, 0);
    UnflattenOffset(b, kept, 0);
  }

  /** Corrected: every slot of the result is the offset of exactly the kept multi-index
      `Unflatten(kept, p)`, so the outer loop, which visits them all, fills every slot. */
  lemma KeptSlotsCovered(kept: seq<int>, p: int)
    requires Positive(kept) && 0 <= p < Product(kept)
    ensures InBounds(Unflatten(kept, p), kept) && Offset(Unflatten(kept, p), kept) == p
  {
    UnflattenInBounds(kept, p);
    OffsetUnflatten(kept, p);
    DivModUnique(p, Product(kept), 0, p);
  }
}
