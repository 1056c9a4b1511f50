/** Row-major index arithmetic of the n-dimensional array engine, as pure functions.
    These are the specifications the imperative members of `Arrays` are proved against.
    Products, offsets and coordinates are defined from the last dimension backwards, the order in
    which the source's loops take them. */
module Shapes {
  import opened Arith
  import opened Wrappers

  predicate Positive(s: seq<int>) { forall i :: 0 <= i < |s| ==> s[i] > 0 }

  predicate NonNegative(s: seq<int>) { forall i :: 0 <= i < |s| ==> s[i] >= 0 }

  function Max(a: int, b: int): int { if a >= b then a else b }

  /** Number of elements an array of shape `s` holds. */
  function Product(s: seq<int>): (p: int)
    ensures NonNegative(s) ==> p >= 0
    ensures Positive(s) ==> p > 0
  {
    if |s| == 0 then 1
    else
      var init, last := Product(s[..|s| - 1]), s[|s| - 1];
      assert NonNegative(s) ==> init * last >= 0 by {
        if NonNegative(s) { MulMonotone(last, 0, init); }
      }
      assert Positive(s) ==> init * last > 0 by {
        if Positive(s) { MulMonotone(last, 1, init); }
      }
      init * last
  }

  lemma {:induction false} ProductAppend(a: seq<int>, b: seq<int>)
    ensures Product(a + b) == Product(a) * Product(b)
  {
    if |b| == 0 {
      assert a + b == a;
    } else {
      var b', d := b[..|b| - 1], b[|b| - 1];
      assert (a + b)[..|a + b| - 1] == a + b';
      ProductAppend(a, b');
      MulAssoc(Product(a), Product(b'), d);
    }
  }

  /** A zero dimension empties the array: sizes with a positive product are all positive. */
  lemma {:induction false} ProductZero(s: seq<int>)
    requires NonNegative(s) && !Positive(s)
    ensures Product(s) == 0
  {
    var init, last := s[..|s| - 1], s[|s| - 1];
    if last != 0 {
      assert !Positive(init) by {
        var k :| 0 <= k < |s| && s[k] <= 0;
        assert init[k] == s[k];
      }
      ProductZero(init);
    }
  }

  /** Extending a slice of dimensions by one more multiplies its product by that dimension. */
  lemma ProductExtend(s: seq<int>, k: int, i: int)
    requires 0 <= k <= i < |s|
    ensures Product(s[k..i + 1]) == Product(s[k..i]) * s[i]
  {
    assert s[k..i + 1][..i - k] == s[k..i];
  }

  /** A multi-index inside the shape, coordinate by coordinate. */
  predicate InBounds(c: seq<int>, s: seq<int>)
  {
    |c| == |s| && forall i :: 0 <= i < |c| ==> 0 <= c[i] < s[i]
  }

  /** Row-major flat offset of a multi-index, by Horner's rule: the offset of all but the last
      coordinate, scaled by the last dimension, plus the last coordinate. */
  function Offset(c: seq<int>, s: seq<int>): int
    requires |c| == |s|
  {
    if |c| == 0 then 0 else Offset(c[..|c| - 1], s[..|s| - 1]) * s[|s| - 1] + c[|c| - 1]
  }

  /** One step of Horner's rule: appending a coordinate multiplies by its dimension and adds it. */
  lemma HornerStep(c: seq<int>, s: seq<int>, x: int, d: int)
    requires |c| == |s|
    ensures Offset(c + [x], s + [d]) == Offset(c, s) * d + x
  {
    assert (c + [x])[..|c|] == c && (s + [d])[..|s|] == s;
  }

  /** Horner's rule on prefixes: one more coordinate scales the prefix offset by its dimension. */
  lemma HornerPrefix(c: seq<int>, s: seq<int>, i: int)
    requires |c| == |s| && 0 <= i < |c|
    ensures Offset(c[..i + 1], s[..i + 1]) == Offset(c[..i], s[..i]) * s[i] + c[i]
  {
    assert c[..i + 1][..i] == c[..i] && s[..i + 1][..i] == s[..i];
  }

  /** Offsets of non-negative coordinates over non-negative dimensions are non-negative. */
  lemma {:induction false} OffsetNonNegative(c: seq<int>, s: seq<int>)
    requires |c| == |s| && NonNegative(c) && NonNegative(s)
    ensures Offset(c, s) >= 0
  {
    if |c| > 0 {
      var n := |c|;
      OffsetNonNegative(c[..n - 1], s[..n - 1]);
      MulMonotone(s[n - 1], 0, Offset(c[..n - 1], s[..n - 1]));
    }
  }

  /** An in-bounds multi-index has an offset below the element count. */
  lemma {:induction false} OffsetBounds(c: seq<int>, s: seq<int>)
    requires InBounds(c, s)
    ensures 0 <= Offset(c, s) < Product(s)
  {
    if |c| > 0 {
      var n := |c|;
      var c', s' := c[..n - 1], s[..n - 1];
      assert InBounds(c', s');
      OffsetBounds(c', s');
      var o, d := Offset(c', s'), s[n - 1];
      MulMonotone(Product(s') - 1, o, d);
      MulMonotone(o, 0, d);
      assert (Product(s') - 1) * d == Product(s') * d - d;
    }
  }

  /** Offsets of a concatenated index: the prefix selects a block of `Product(s2)` elements. */
  lemma {:induction false} OffsetConcat(p: seq<int>, q: seq<int>, s1: seq<int>, s2: seq<int>)
    requires |p| == |s1| && |q| == |s2|
    ensures Offset(p + q, s1 + s2) == Offset(p, s1) * Product(s2) + Offset(q, s2)
  {
    if |q| == 0 {
      assert p + q == p && s1 + s2 == s1;
    } else {
      var m := |q|;
      var q', s2' := q[..m - 1], s2[..m - 1];
      assert (p + q)[..|p + q| - 1] == p + q';
      assert (s1 + s2)[..|s1 + s2| - 1] == s1 + s2';
      OffsetConcat(p, q', s1, s2');
      Distrib(Offset(p, s1), Product(s2'), Offset(q', s2'), s2[m - 1]);
    }
  }

  /** The element at coordinates `d` of the block that prefix `c` selects is the element at
      coordinates `c + d` of the whole array: the block starts at `Offset(c) * Product(rest)`. */
  lemma SliceElement(c: seq<int>, d: seq<int>, s: seq<int>)
    requires |c| <= |s| && InBounds(d, s[|c|..])
    ensures 0 <= Offset(d, s[|c|..]) < Product(s[|c|..])
    ensures Offset(c, s[..|c|]) * Product(s[|c|..]) + Offset(d, s[|c|..]) == Offset(c + d, s)
  {
    OffsetBounds(d, s[|c|..]);
    assert s == s[..|c|] + s[|c|..];
    OffsetConcat(c, d, s[..|c|], s[|c|..]);
  }

  /** Coordinates of a flat index (the source's `GetIndexes`): the last coordinate is the index
      modulo the last dimension, the others those of the quotient in the leading dimensions.
      Dimensions are positive wherever it is used; a non-positive one is given coordinate 0 so
      that the function needs no precondition. */
  function Unflatten(s: seq<int>, x: int): (c: seq<int>)
    ensures |c| == |s|
  {
    if |s| == 0 then []
    else
      var d := s[|s| - 1];
      if d > 0 then Unflatten(s[..|s| - 1], x / d) + [x % d] else Unflatten(s[..|s| - 1], x) + [0]
  }

  /** The coordinates of `x` in the dimensions `s[lo..hi]`, the last one first, as the source's
      loops take them; bounds in place of a slice. */
  function Digits(s: seq<int>, lo: int, hi: int, x: int): (c: seq<int>)
    requires 0 <= lo <= hi <= |s|
    ensures |c| == hi - lo
    decreases hi
  {
    if hi == lo then []
    else
      var d := s[hi - 1];
      if d > 0 then Digits(s, lo, hi - 1, x / d) + [x % d] else Digits(s, lo, hi - 1, x) + [0]
  }

  /** The digits of a range of dimensions are the coordinates in that slice of the shape. */
  lemma {:induction false} DigitsSlice(s: seq<int>, lo: int, hi: int, x: int)
    requires 0 <= lo <= hi <= |s|
    ensures Digits(s, lo, hi, x) == Unflatten(s[lo..hi], x)
    decreases hi
  {
    if hi > lo {
      var d := s[hi - 1];
      assert s[lo..hi][..hi - lo - 1] == s[lo..hi - 1];
      DigitsSlice(s, lo, hi - 1, if d > 0 then x / d else x);
    }
  }

  lemma {:induction false} UnflattenInBounds(s: seq<int>, x: int)
    requires Positive(s) && x >= 0
    ensures InBounds(Unflatten(s, x), s)
  {
    if |s| > 0 {
      UnflattenInBounds(s[..|s| - 1], x / s[|s| - 1]);
    }
  }

  /** Flattening the coordinates of `x` gives `x` back, modulo the element count. */
  lemma {:induction false} OffsetUnflatten(s: seq<int>, x: int)
    requires Positive(s) && x >= 0
    ensures Offset(Unflatten(s, x), s) == x % Product(s)
  {
    if |s| > 0 {
      var n := |s|;
      var s', d := s[..n - 1], s[n - 1];
      var c := Unflatten(s, x);
      assert c[..n - 1] == Unflatten(s', x / d);
      OffsetUnflatten(s', x / d);
      DivDiv(x, Product(s'), d);
    }
  }

  /** Unflattening an offset recovers the in-bounds multi-index, whatever whole multiple of the
      element count is added to it. */
  lemma {:induction false} UnflattenOffset(c: seq<int>, s: seq<int>, k: int)
    requires Positive(s) && InBounds(c, s) && k >= 0
    ensures Offset(c, s) >= 0
    ensures Unflatten(s, k * Product(s) + Offset(c, s)) == c
  {
    OffsetBounds(c, s);
    if |s| > 0 {
      var n := |s|;
      var c', s', d := c[..n - 1], s[..n - 1], s[n - 1];
      assert InBounds(c', s');
      var o, p := Offset(c', s'), Product(s');
      var x := k * Product(s) + Offset(c, s);
      HornerCarry(k, p, o, d, c[n - 1]);
      assert k * p + o >= 0 by {
        OffsetBounds(c', s');
        MulMonotone(k, 0, p);
      }
      DivModUnique(x, d, k * p + o, c[n - 1]);
      UnflattenOffset(c', s', k);
    }
  }

  /** The coordinates of a flat index split into those of the leading and the trailing dimensions. */
  lemma {:induction false} UnflattenConcat(p: seq<int>, q: seq<int>, x: int)
    requires Positive(p) && Positive(q) && x >= 0
    ensures x / Product(q) >= 0
    ensures Unflatten(p + q, x) == Unflatten(p, x / Product(q)) + Unflatten(q, x)
  {
    if |q| == 0 {
      assert p + q == p;
    } else {
      var m := |q|;
      var q', d := q[..m - 1], q[m - 1];
      assert (p + q)[..|p + q| - 1] == p + q';
      UnflattenConcat(p, q', x / d);
      DivDiv(x, Product(q'), d);
    }
  }

  // ---------------------------------------------------------------------------------------
  // Shape resolution (the `Shape` setter)

  /** Number of `-1` placeholders in a shape. */
  function Placeholders(s: seq<int>): nat
  {
    if |s| == 0 then 0 else Placeholders(s[..|s| - 1]) + (if s[|s| - 1] == -1 then 1 else 0)
  }

  /** Product of the dimensions that are not placeholders (the setter's `shapeRes`). */
  function KnownProduct(s: seq<int>): int
  {
    if |s| == 0 then 1 else KnownProduct(s[..|s| - 1]) * (if s[|s| - 1] == -1 then 1 else s[|s| - 1])
  }

  /** Every placeholder of `s` replaced by `q`. */
  function Fill(s: seq<int>, q: int): (r: seq<int>)
    ensures |r| == |s| && forall i :: 0 <= i < |s| ==> r[i] == (if s[i] == -1 then q else s[i])
  {
    seq(|s|, i requires 0 <= i < |s| => if s[i] == -1 then q else s[i])
  }

  /** Dimensions are sizes, or the placeholder `-1`. */
  predicate Dims(s: seq<int>) { forall i :: 0 <= i < |s| ==> s[i] >= -1 }

  /** What the shape setter leaves in `_shape`, or the exception it throws. `len` is the length of
      the buffer, `None` when there is none; `shape` is `None` when the caller passed none. */
  function ResolveShape(len: Option<int>, shape: Option<seq<int>>): Result<seq<int>>
    requires len.Some? ==> len.value >= 0
    requires shape.Some? ==> Dims(shape.value)
  {
    if len.None? && shape.None? then Failure(UndefinedShape)
    else
      var s := if shape.Some? then shape.value else [len.value];
      var p := KnownProduct(s);
      if Placeholders(s) > 1 || (Placeholders(s) == 1 && len.None?) then Failure(AutoShape)
      else if len.Some? && p == 0 then Failure(DivideByZero)
      else if len.Some? && len.value % p != 0 then Failure(ShapeMismatch)
      else if Placeholders(s) == 1 then Success(Fill(s, len.value / p))
      else Success(s)
  }

  lemma {:induction false} KnownProductNonNegative(s: seq<int>)
    requires Dims(s)
    ensures KnownProduct(s) >= 0
  {
    if |s| > 0 {
      KnownProductNonNegative(s[..|s| - 1]);
      MulMonotone(if s[|s| - 1] == -1 then 1 else s[|s| - 1], 0, KnownProduct(s[..|s| - 1]));
    }
  }

  /** Without placeholders the setter's running product is the element count. */
  lemma {:induction false} KnownProductIsProduct(s: seq<int>)
    requires Placeholders(s) == 0
    ensures KnownProduct(s) == Product(s)
  {
    if |s| > 0 {
      KnownProductIsProduct(s[..|s| - 1]);
    }
  }

  /** With one placeholder filled by `q`, the element count is `q` times the running product. */
  lemma {:induction false} FillProduct(s: seq<int>, q: int)
    requires Placeholders(s) == 1
    ensures Product(Fill(s, q)) == q * KnownProduct(s)
  {
    var n := |s|;
    var init, last := s[..n - 1], s[n - 1];
    var filled := Fill(s, q);
    assert filled[..n - 1] == Fill(init, q);
    if last == -1 {
      NoPlaceholderEntries(init);
      assert Fill(init, q) == init;
      KnownProductIsProduct(init);
      assert Product(filled) == Product(init) * q;
    } else {
      FillProduct(init, q);
      assert Product(filled) == (q * KnownProduct(init)) * last;
      MulAssoc(q, KnownProduct(init), last);
    }
  }

  /** Filling the one placeholder with `len / KnownProduct(s)` covers `len` elements exactly. */
  lemma FilledCovers(len: int, s: seq<int>, p: int)
    requires len >= 0 && Dims(s) && Placeholders(s) == 1
    requires p == KnownProduct(s) && p > 0 && len % p == 0
    ensures Product(Fill(s, len / p)) == len && NonNegative(Fill(s, len / p))
    ensures Placeholders(Fill(s, len / p)) == 0
  {
    var q := len / p;
    FillProduct(s, q);
    DivExact(len, p);
    FillRemovesPlaceholders(s, q);
  }

  /** With a buffer and one placeholder, the resolved shape covers the buffer exactly. */
  lemma ResolvedPlaceholderCovers(len: int, s: seq<int>)
    requires len >= 0 && Dims(s) && Placeholders(s) == 1
    requires ResolveShape(Some(len), Some(s)).Success?
    ensures var r := ResolveShape(Some(len), Some(s)).value;
      Product(r) == len && NonNegative(r) && Placeholders(r) == 0
  {
    var p := KnownProduct(s);
    KnownProductNonNegative(s);
    FilledCovers(len, s, p);
  }

  /** With a buffer and no placeholder, the shape is kept and divides the buffer. */
  lemma ResolvedDivides(len: int, s: seq<int>)
    requires len >= 0 && Dims(s) && Placeholders(s) == 0
    requires ResolveShape(Some(len), Some(s)).Success?
    ensures var r := ResolveShape(Some(len), Some(s)).value;
      r == s && NonNegative(r) && Product(r) > 0 && len % Product(r) == 0
  {
    KnownProductIsProduct(s);
    KnownProductNonNegative(s);
    NoPlaceholderEntries(s);
  }

  /** Without a buffer, the shape is kept; it has no placeholder and sizes the new buffer. */
  lemma ResolvedWithoutBuffer(s: seq<int>)
    requires Dims(s) && ResolveShape(None, Some(s)).Success?
    ensures var r := ResolveShape(None, Some(s)).value;
      r == s && NonNegative(r) && Product(r) == KnownProduct(s)
  {
    KnownProductIsProduct(s);
    NoPlaceholderEntries(s);
  }

  /** Without a shape, the buffer becomes one dimension of its own length; an empty buffer makes
      the setter divide by zero. */
  lemma ResolvedWithoutShape(len: int)
    requires len >= 0
    ensures ResolveShape(Some(len), None) == if len == 0 then Failure(DivideByZero) else Success([len])
    ensures len > 0 ==> Product([len]) == len
  {
    assert [len][..0] == [];
    assert Placeholders([len]) == 0;
    assert KnownProduct([len]) == len;
    assert Product([len]) == len * Product([]);
  }

  /** What the shape setter guarantees between a buffer of `len` elements and the shape it keeps:
      non-negative dimensions whose product divides the length (and is 0 only for an empty
      buffer). The two need not be equal. */
  predicate Covers(len: int, r: seq<int>)
  {
    NonNegative(r) &&
    (Product(r) == 0 ==> len == 0) &&
    (Product(r) > 0 ==> len % Product(r) == 0) &&
    (len > 0 ==> len >= Product(r))
  }

  /** Every shape the setter accepts for a buffer covers that buffer. */
  lemma ResolvedCovers(len: int, shape: Option<seq<int>>)
    requires len >= 0 && (shape.Some? ==> Dims(shape.value))
    requires ResolveShape(Some(len), shape).Success?
    ensures Covers(len, ResolveShape(Some(len), shape).value)
  {
    var r := ResolveShape(Some(len), shape).value;
    if shape.None? {
      ResolvedWithoutShape(len);
      DivModUnique(len, len, 1, 0);
    } else if Placeholders(shape.value) == 0 {
      ResolvedDivides(len, shape.value);
      if len > 0 { MultipleAtLeast(len, Product(r)); }
    } else {
      ResolvedPlaceholderCovers(len, shape.value);
      if len > 0 { DivModUnique(len, len, 1, 0); }
    }
  }

  /** Without a buffer, the accepted shape covers a buffer of its own size. */
  lemma ResolvedSizesBuffer(s: seq<int>)
    requires Dims(s) && ResolveShape(None, Some(s)).Success?
    ensures ResolveShape(None, Some(s)).value == s && Covers(Product(s), s)
  {
    ResolvedWithoutBuffer(s);
    if Product(s) > 0 { DivModUnique(Product(s), Product(s), 1, 0); }
  }

  lemma {:induction false} NoPlaceholderEntries(s: seq<int>)
    requires Placeholders(s) == 0
    ensures forall i :: 0 <= i < |s| ==> s[i] != -1
  {
    if |s| > 0 { NoPlaceholderEntries(s[..|s| - 1]); }
  }

  lemma {:induction false} FillRemovesPlaceholders(s: seq<int>, q: int)
    requires q >= 0
    ensures Placeholders(Fill(s, q)) == 0
  {
    if |s| > 0 {
      assert Fill(s, q)[..|s| - 1] == Fill(s[..|s| - 1], q);
      FillRemovesPlaceholders(s[..|s| - 1], q);
    }
  }

  /** A prefix has no more placeholders than the whole shape. */
  lemma {:induction false} PlaceholdersPrefix(s: seq<int>, j: int)
    requires 0 <= j <= |s|
    ensures Placeholders(s[..j]) <= Placeholders(s)
  {
    if j < |s| {
      var init := s[..|s| - 1];
      assert init[..j] == s[..j];
      PlaceholdersPrefix(init, j);
    } else {
      assert s[..j] == s;
    }
  }

  /** A placeholder at `k` is counted. */
  lemma {:induction false} PlaceholderCounted(s: seq<int>, k: int)
    requires 0 <= k < |s| && s[k] == -1
    ensures Placeholders(s) >= 1
  {
    if k < |s| - 1 {
      PlaceholderCounted(s[..|s| - 1], k);
    }
  }

  /** With exactly one placeholder, it is the only `-1`: filling it is one update. */
  lemma {:induction false} FillAt(s: seq<int>, k: int, q: int)
    requires Placeholders(s) == 1 && 0 <= k < |s| && s[k] == -1
    ensures Fill(s, q) == s[k := q]
  {
    forall j | 0 <= j < |s| && j != k ensures s[j] != -1 {
      if s[j] == -1 {
        var lo, hi := if j < k then j else k, if j < k then k else j;
        PlaceholderCounted(s[..hi], lo);
        assert s[..hi + 1][..hi] == s[..hi];
        assert Placeholders(s[..hi + 1]) >= 2;
        PlaceholdersPrefix(s, hi + 1);
        assert false;
      }
    }
  }

  /** A placeholder-free shape against a buffer of exactly its own size: refused when the size is 0,
      kept otherwise. */
  lemma ResolveOwnSize(s: seq<int>)
    requires NonNegative(s)
    ensures ResolveShape(Some(Product(s)), Some(s)) ==
      if Product(s) == 0 then Failure(DivideByZero) else Success(s)
  {
    NoPlaceholders(s);
    KnownProductIsProduct(s);
    if Product(s) > 0 {
      DivModUnique(Product(s), Product(s), 1, 0);
    }
  }

  /** A valid shape resolves to itself against any buffer it divides: reshaping back to the
      original shape is accepted and restores it. */
  lemma ResolveValidShape(len: int, s: seq<int>)
    requires len >= 0 && NonNegative(s) && Product(s) > 0 && len % Product(s) == 0
    ensures ResolveShape(Some(len), Some(s)) == Success(s)
  {
    assert Placeholders(s) == 0 by { NoPlaceholders(s); }
    KnownProductIsProduct(s);
  }

  lemma {:induction false} NoPlaceholders(s: seq<int>)
    requires NonNegative(s)
    ensures Placeholders(s) == 0
  {
    if |s| > 0 { NoPlaceholders(s[..|s| - 1]); }
  }

  /** Worked cases: a divisor shape smaller than the buffer is accepted as it is; a placeholder is
      inferred; two placeholders, or a placeholder without a buffer, are refused. */
  lemma ResolveExamples()
    ensures ResolveShape(Some(6), Some([3])) == Success([3])
    ensures ResolveShape(Some(6), Some([-1, 2])) == Success([3, 2])
    ensures ResolveShape(Some(5), Some([2, -1])) == Failure(ShapeMismatch)
    ensures ResolveShape(Some(6), Some([-1, -1])) == Failure(AutoShape)
    ensures ResolveShape(None, Some([-1, 2])) == Failure(AutoShape)
    ensures ResolveShape(Some(6), Some([0, 2])) == Failure(DivideByZero)
    ensures ResolveShape(None, Some([0, 2])) == Success([0, 2])
    ensures ResolveShape(None, None) == Failure(UndefinedShape)
  {
    assert [3][..0] == [] && [-1, 2][..1] == [-1] && [-1][..0] == [];
    assert [2, -1][..1] == [2] && [2][..0] == [];
    assert [-1, -1][..1] == [-1];
    assert [0, 2][..1] == [0] && [0][..0] == [];
    assert Fill([-1, 2], 3) == [3, 2];
  }

  // ---------------------------------------------------------------------------------------
  // Broadcasting

  /** Dimension `i` counted from the end (1-based); dimensions beyond the rank count as 1. */
  function Dim(s: seq<int>, i: int): int
  {
    if 1 <= i <= |s| then s[|s| - i] else 1
  }

  /** Every trailing-aligned pair of dimensions is equal or has a 1. */
  predicate Broadcastable(a: seq<int>, b: seq<int>)
  {
    forall i :: 1 <= i <= Max(|a|, |b|) ==> Dim(a, i) == 1 || Dim(b, i) == 1 || Dim(a, i) == Dim(b, i)
  }

  /** Each dimension the larger of the pair aligned with it from the end. */
  function Aligned(a: seq<int>, b: seq<int>): (out: seq<int>)
    ensures |out| == Max(|a|, |b|)
    ensures forall k :: 0 <= k < |out| ==> out[k] == Max(Dim(a, |out| - k), Dim(b, |out| - k))
  {
    var p := Max(|a|, |b|);
    seq(p, k => Max(Dim(a, p - k), Dim(b, p - k)))
  }

  /** NumPy-style broadcast shape: rank of the longer shape, each dimension the larger of the
      aligned pair. Two positive shapes both fit into their broadcast shape. */
  function Broadcast(a: seq<int>, b: seq<int>): (r: Result<seq<int>>)
    ensures r.Success? <==> Broadcastable(a, b)
    ensures r.Success? ==> |r.value| == Max(|a|, |b|)
    ensures r.Success? && Positive(a) && Positive(b) ==>
      Positive(r.value) && Fits(a, r.value) && Fits(b, r.value)
    ensures r.Success? && NonNegative(a) && NonNegative(b) ==> NonNegative(r.value)
  {
    if Broadcastable(a, b) then
      var out := Aligned(a, b);
      assert NonNegative(a) && NonNegative(b) ==> NonNegative(out) by {
        if NonNegative(a) && NonNegative(b) {
          AlignedNonNegative(a, b, out);
        }
      }
      assert Positive(a) && Positive(b) ==> Positive(out) && Fits(a, out) && Fits(b, out) by {
        if Positive(a) && Positive(b) {
          AlignedFits(a, b, out);
          AlignedFits(b, a, out);
        }
      }
      Success(out)
    else Failure(BroadcastIncompatible)
  }

  /** `comp` broadcasts into `out`: aligned from the end, each dimension is 1 or equal. */
  predicate Fits(comp: seq<int>, out: seq<int>)
  {
    |comp| <= |out| && forall j :: 0 <= j < |comp| ==> comp[j] == 1 || comp[j] == out[|out| - |comp| + j]
  }

  /** Each dimension of `out` the larger of an aligned compatible pair: `a` fits into it. */
  lemma AlignedFits(a: seq<int>, b: seq<int>, out: seq<int>)
    requires Positive(a) && Positive(b) && Broadcastable(a, b)
    requires |out| == Max(|a|, |b|)
    requires forall k :: 0 <= k < |out| ==> out[k] == Max(Dim(a, |out| - k), Dim(b, |out| - k))
    ensures Fits(a, out) && Positive(out)
  {
    var p := |out|;
    forall j | 0 <= j < |a| ensures a[j] == 1 || a[j] == out[p - |a| + j] {
      var i := |a| - j;
      assert out[p - i] == Max(Dim(a, i), Dim(b, i));
      assert Dim(a, i) == 1 || Dim(b, i) == 1 || Dim(a, i) == Dim(b, i);
    }
    forall k | 0 <= k < p ensures out[k] > 0 {
      assert Dim(a, p - k) > 0;
    }
  }

  /** Each dimension of `out` the larger of an aligned pair of sizes is a size. */
  lemma AlignedNonNegative(a: seq<int>, b: seq<int>, out: seq<int>)
    requires NonNegative(a) && NonNegative(b) && |out| == Max(|a|, |b|)
    requires forall k :: 0 <= k < |out| ==> out[k] == Max(Dim(a, |out| - k), Dim(b, |out| - k))
    ensures NonNegative(out)
  {
    forall k | 0 <= k < |out| ensures out[k] >= 0 {
      assert Dim(a, |out| - k) >= 0;
    }
  }

  /** Broadcasting does not depend on the order of the operands. */
  lemma BroadcastSymmetric(a: seq<int>, b: seq<int>)
    ensures Broadcast(a, b) == Broadcast(b, a)
  {
    var p := Max(|a|, |b|);
    assert p == Max(|b|, |a|);
    assert Broadcastable(a, b) == Broadcastable(b, a);
    assert seq(p, k => Max(Dim(a, p - k), Dim(b, p - k))) == seq(p, k => Max(Dim(b, p - k), Dim(a, p - k)));
  }

  /** A shape broadcast with itself is itself. */
  lemma BroadcastSelf(a: seq<int>)
    ensures Broadcast(a, a) == Success(a)
  {
    var p := |a|;
    assert Broadcastable(a, a);
    assert seq(p, k => Max(Dim(a, p - k), Dim(a, p - k))) == a;
  }

  /** `[3]` broadcasts with `[2, 3]` to `[2, 3]`; `[2, 3]` and `[4]` do not broadcast. */
  lemma BroadcastExamples()
    ensures Broadcast([3], [2, 3]) == Success([2, 3])
    ensures Broadcast([2, 3], [4]) == Failure(BroadcastIncompatible)
  {
    assert Broadcastable([3], [2, 3]);
    assert seq(2, k => Max(Dim([3], 2 - k), Dim([2, 3], 2 - k))) == [2, 3];
    assert !(Dim([2, 3], 1) == 1 || Dim([4], 1) == 1 || Dim([2, 3], 1) == Dim([4], 1));
  }

  /** Each coordinate reduced modulo the component's dimension (`% componentShape[^i]`), against
      the dimensions from `from` on, front to back: the order in which the source pops them. */
  function Reduce(c: seq<int>, comp: seq<int>, from: int): (r: seq<int>)
    requires 0 <= from && from + |c| <= |comp| && Positive(comp)
    ensures |r| == |c|
  {
    if |c| == 0 then [] else [c[0] % comp[from]] + Reduce(c[1..], comp, from + 1)
  }

  /** Each reduced coordinate is the coordinate modulo its dimension. */
  lemma {:induction false} ReduceAt(c: seq<int>, comp: seq<int>, from: int, j: int)
    requires 0 <= from && from + |c| <= |comp| && Positive(comp) && 0 <= j < |c|
    ensures Reduce(c, comp, from)[j] == c[j] % comp[from + j]
  {
    if j > 0 {
      ReduceAt(c[1..], comp, from + 1, j - 1);
    }
  }

  /** Flat index into a broadcast operand of shape `comp` for flat output index `x`: the trailing
      coordinates of `x` in `out`, each reduced modulo the operand's dimension, flattened row-major. */
  function BroadcastIndex(x: int, out: seq<int>, comp: seq<int>): int
    requires Positive(comp) && |comp| <= |out|
  {
    Offset(Reduce(Digits(out, |out| - |comp|, |out|, x), comp, 0), comp)
  }

  /** Reducing in-bounds coordinates modulo dimensions that are 1 or equal zeroes the size-1 axes
      and keeps the others. */
  lemma ReduceFitting(c: seq<int>, tail: seq<int>, comp: seq<int>)
    requires InBounds(c, tail) && Positive(comp) && |comp| == |tail|
    requires forall j :: 0 <= j < |comp| ==> comp[j] == 1 || comp[j] == tail[j]
    ensures InBounds(Reduce(c, comp, 0), comp)
    ensures forall j :: 0 <= j < |comp| ==> Reduce(c, comp, 0)[j] == if comp[j] == 1 then 0 else c[j]
  {
    forall j | 0 <= j < |comp| ensures Reduce(c, comp, 0)[j] == if comp[j] == 1 then 0 else c[j] {
      ReduceAt(c, comp, 0, j);
      if comp[j] != 1 {
        DivModUnique(c[j], comp[j], 0, c[j]);
      }
    }
  }

  /** The trailing coordinates of a flat index are its coordinates in the trailing dimensions. */
  lemma UnflattenTail(out: seq<int>, k: int, x: int)
    requires Positive(out) && 0 <= k <= |out| && x >= 0
    ensures Positive(out[k..]) && Unflatten(out[k..], x) == Unflatten(out, x)[k..]
  {
    var head, tail := out[..k], out[k..];
    assert out == head + tail;
    assert Positive(head) && Positive(tail);
    UnflattenConcat(head, tail, x);
  }

  /** The coordinates an operand of shape `comp` is read at, for output coordinates `oc`:
      0 on the operand's size-1 axes, the aligned output coordinate elsewhere. */
  function AlignedCoordinates(oc: seq<int>, comp: seq<int>): (d: seq<int>)
    requires |comp| <= |oc|
    ensures |d| == |comp|
  {
    seq(|comp|, j requires 0 <= j < |comp| => if comp[j] == 1 then 0 else oc[|oc| - |comp| + j])
  }

  /** The digits of the last dimensions are the trailing coordinates, inside those dimensions. */
  lemma TrailingDigits(out: seq<int>, off: int, x: int)
    requires Positive(out) && 0 <= off <= |out| && x >= 0
    ensures Digits(out, off, |out|, x) == Unflatten(out, x)[off..]
    ensures InBounds(Digits(out, off, |out|, x), out[off..])
  {
    DigitsSlice(out, off, |out|, x);
    assert out[off..|out|] == out[off..];
    UnflattenTail(out, off, x);
    UnflattenInBounds(out[off..], x);
  }

  /** Reducing the trailing coordinates `c` of `oc` against a fitting operand shape gives the
      aligned coordinates, inside the operand. */
  lemma AlignedReduce(c: seq<int>, oc: seq<int>, out: seq<int>, comp: seq<int>)
    requires |comp| <= |out| == |oc| && Positive(comp) && Fits(comp, out)
    requires c == oc[|oc| - |comp|..] && InBounds(c, out[|out| - |comp|..])
    ensures InBounds(Reduce(c, comp, 0), comp)
    ensures Reduce(c, comp, 0) == AlignedCoordinates(oc, comp)
  {
    var tail := out[|out| - |comp|..];
    forall j | 0 <= j < |comp| ensures comp[j] == 1 || comp[j] == tail[j] {
      assert Dim(comp, |comp| - j) == comp[j] && Dim(out, |comp| - j) == tail[j];
    }
    ReduceFitting(c, tail, comp);
  }

  /** For an operand that fits the output shape, the mapped index is inside the operand, and its
      coordinates are 0 on the operand's size-1 axes and the output's coordinates elsewhere. */
  lemma BroadcastIndexCoordinates(x: int, out: seq<int>, comp: seq<int>)
    requires Positive(out) && Positive(comp) && Fits(comp, out) && 0 <= x < Product(out)
    ensures 0 <= BroadcastIndex(x, out, comp) < Product(comp)
    ensures Unflatten(comp, BroadcastIndex(x, out, comp)) == AlignedCoordinates(Unflatten(out, x), comp)
  {
    var off := |out| - |comp|;
    var c := Digits(out, off, |out|, x);
    TrailingDigits(out, off, x);
    AlignedReduce(c, Unflatten(out, x), out, comp);
    var d := Reduce(c, comp, 0);
    OffsetBounds(d, comp);
    UnflattenOffset(d, comp, 0);
  }

  /** An operand with the output's own shape is read at the output index itself. */
  lemma BroadcastIndexIdentity(x: int, out: seq<int>)
    requires Positive(out) && 0 <= x < Product(out)
    ensures BroadcastIndex(x, out, out) == x
  {
    DigitsSlice(out, 0, |out|, x);
    assert out[0..|out|] == out;
    var c := Unflatten(out, x);
    UnflattenInBounds(out, x);
    forall j | 0 <= j < |c| ensures Reduce(c, out, 0)[j] == c[j] {
      ReduceAt(c, out, 0, j);
      DivModUnique(c[j], out[j], 0, c[j]);
    }
    assert Reduce(c, out, 0) == c;
    OffsetUnflatten(out, x);
    DivModUnique(x, Product(out), 0, x);
  }

  /** `[3] + [2, 3]`: output element `(i, j)` reads `a[j]` and `b[i, j]`. */
  lemma BroadcastIndexExample(i: int, j: int)
    requires 0 <= i < 2 && 0 <= j < 3
    ensures BroadcastIndex(3 * i + j, [2, 3], [3]) == j
    ensures BroadcastIndex(3 * i + j, [2, 3], [2, 3]) == 3 * i + j
  {
    DivModUnique(3 * i + j, 3, i, j);
    assert Digits([2, 3], 1, 2, 3 * i + j) == [j];
    DivModUnique(j, 3, 0, j);
    assert Reduce([j], [3], 0) == [j] by { assert [j][1..] == []; }
    assert Offset([j], [3]) == j by { assert [j][..0] == [] && [3][..0] == []; }
    assert Product([2, 3]) == 6 by { assert [2, 3][..1] == [2] && [2][..0] == []; }
    BroadcastIndexIdentity(3 * i + j, [2, 3]);
  }
}
