/** The n-dimensional array engine: a flat buffer of numbers viewed through a row-major shape.
    Numbers are `real`; the element-wise operation is a parameter. */
module Arrays {
  import opened Wrappers
  import opened Arith
  import opened Shapes
  import opened Axes

  /** The buffer length the shape setter sees: `None` when no buffer was given. */
  function BufferLength(arr: array?<real>): Option<int>
  {
    if arr == null then None else Some(arr.Length)
  }

  /** The operations the arithmetic operators pass to the element-wise loop. Division is not
      modelled: it is the one operator whose `double` result (an infinity or NaN on a zero divisor)
      has no counterpart in `real`. */
  function Plus(x: real, y: real): real { x + y }
  function Minus(x: real, y: real): real { x - y }
  function Times(x: real, y: real): real { x * y }

  /** The first exception the element-wise loop meets, on its first element: computing an
      operand's index takes a remainder by each of its dimensions, and reading the operand fails
      on an empty buffer; the left operand is read first. */
  function OperandError(len1: int, s1: seq<int>, len2: int, s2: seq<int>): (e: Option<Error>)
    ensures e.None? <==> Positive(s1) && Positive(s2) && len1 > 0 && len2 > 0
  {
    if !Positive(s1) then Some(DivideByZero)
    else if len1 <= 0 then Some(IndexOutOfRange)
    else if !Positive(s2) then Some(DivideByZero)
    else if len2 <= 0 then Some(IndexOutOfRange)
    else None
  }

  /** The element of operand `x` (shape `sx`) that element `i` of the broadcast output reads. */
  function ReadBroadcast(x: seq<real>, sx: seq<int>, out: seq<int>, i: int): real
    requires Positive(sx) && Positive(out) && Fits(sx, out) && Covers(|x|, sx) && |x| > 0
    requires 0 <= i < Product(out)
  {
    BroadcastIndexCoordinates(i, out, sx);
    x[BroadcastIndex(i, out, sx)]
  }

  /** The buffer the element-wise loop fills: element `i` of the output of shape `out` combines
      the operands' elements it reads. An empty output reads nothing. */
  function Elementwise(op: (real, real) -> real, x: seq<real>, sx: seq<int>, y: seq<real>, sy: seq<int>,
                       out: seq<int>): (r: seq<real>)
    requires Broadcast(sx, sy) == Success(out) && Covers(|x|, sx) && Covers(|y|, sy)
    requires Product(out) > 0 ==> OperandError(|x|, sx, |y|, sy).None?
    ensures |r| == Product(out)
  {
    if Product(out) == 0 then []
    else
      assert Positive(out) by { assert Positive(sx) && Positive(sy); }
      seq(Product(out), i requires 0 <= i < Product(out) =>
        op(ReadBroadcast(x, sx, out, i), ReadBroadcast(y, sy, out, i)))
  }

  /** Broadcasting semantics: the output element at in-bounds coordinates `c` combines the left
      operand at `c` aligned to its shape with the right operand at `c` aligned to its shape. */
  lemma ElementwiseAt(op: (real, real) -> real, x: seq<real>, sx: seq<int>, y: seq<real>, sy: seq<int>,
                      out: seq<int>, c: seq<int>)
    requires Broadcast(sx, sy) == Success(out) && Covers(|x|, sx) && Covers(|y|, sy)
    requires OperandError(|x|, sx, |y|, sy).None? && InBounds(c, out)
    ensures 0 <= Offset(c, out) < Product(out)
    ensures 0 <= Offset(AlignedCoordinates(c, sx), sx) < |x|
    ensures 0 <= Offset(AlignedCoordinates(c, sy), sy) < |y|
    ensures Elementwise(op, x, sx, y, sy, out)[Offset(c, out)] ==
      op(x[Offset(AlignedCoordinates(c, sx), sx)], y[Offset(AlignedCoordinates(c, sy), sy)])
  {
    var i := Offset(c, out);
    OffsetBounds(c, out);
    UnflattenOffset(c, out, 0);
    assert Unflatten(out, i) == c;
    AlignedIndex(i, out, sx, |x|);
    AlignedIndex(i, out, sy, |y|);
    ElementwiseIndex(op, x, sx, y, sy, out, i);
  }

  lemma ElementwiseIndex(op: (real, real) -> real, x: seq<real>, sx: seq<int>, y: seq<real>, sy: seq<int>,
                         out: seq<int>, i: int)
    requires Broadcast(sx, sy) == Success(out) && Covers(|x|, sx) && Covers(|y|, sy)
    requires OperandError(|x|, sx, |y|, sy).None? && Positive(out) && 0 <= i < Product(out)
    ensures Fits(sx, out) && Fits(sy, out)
    ensures Elementwise(op, x, sx, y, sy, out)[i] == op(ReadBroadcast(x, sx, out, i), ReadBroadcast(y, sy, out, i))
  {
  }

  /** Element `i` of the output combines the operand elements at the flat indices the loop
      computes, and both reads are inside the buffers. */
  lemma ElementwiseStep(op: (real, real) -> real, x: seq<real>, sx: seq<int>, y: seq<real>, sy: seq<int>,
                        out: seq<int>, i: int)
    requires Broadcast(sx, sy) == Success(out) && Covers(|x|, sx) && Covers(|y|, sy)
    requires OperandError(|x|, sx, |y|, sy).None? && Positive(out) && 0 <= i < Product(out)
    ensures Positive(sx) && Positive(sy) && |sx| <= |out| && |sy| <= |out|
    ensures 0 <= BroadcastIndex(i, out, sx) < |x| && 0 <= BroadcastIndex(i, out, sy) < |y|
    ensures Elementwise(op, x, sx, y, sy, out)[i] == op(x[BroadcastIndex(i, out, sx)], y[BroadcastIndex(i, out, sy)])
  {
    ElementwiseIndex(op, x, sx, y, sy, out, i);
    AlignedIndex(i, out, sx, |x|);
    AlignedIndex(i, out, sy, |y|);
  }

  /** A row added to each row of a matrix: `[1, 2, 3] + [[10, 20, 30], [40, 50, 60]]` is
      `[[11, 22, 33], [41, 52, 63]]`. */
  lemma ElementwiseExample()
    ensures Broadcast([3], [2, 3]) == Success([2, 3]) && Covers(3, [3]) && Covers(6, [2, 3])
    ensures Elementwise(Plus, [1.0, 2.0, 3.0], [3], [10.0, 20.0, 30.0, 40.0, 50.0, 60.0], [2, 3], [2, 3]) ==
      [11.0, 22.0, 33.0, 41.0, 52.0, 63.0]
  {
    var x, y := [1.0, 2.0, 3.0], [10.0, 20.0, 30.0, 40.0, 50.0, 60.0];
    ExampleOperands();
    var r := Elementwise(Plus, x, [3], y, [2, 3], [2, 3]);
    forall i | 0 <= i < 6 ensures r[i] == [11.0, 22.0, 33.0, 41.0, 52.0, 63.0][i] {
      ExampleElement(i / 3, i % 3);
    }
  }

  lemma ExampleOperands()
    ensures Broadcast([3], [2, 3]) == Success([2, 3]) && Covers(3, [3]) && Covers(6, [2, 3])
    ensures Product([3]) == 3 && Product([2, 3]) == 6
  {
    BroadcastExamples();
    assert Product([3]) == 3 by { assert [3][..0] == []; }
    assert Product([2, 3]) == 6 by { assert [2, 3][..1] == [2] && [2][..0] == []; }
    DivModUnique(3, 3, 1, 0);
    DivModUnique(6, 6, 1, 0);
  }

  /** Element `(a, b)` of the example adds the row's `b` to the matrix's `(a, b)`. */
  lemma ExampleElement(a: int, b: int)
    requires 0 <= a < 2 && 0 <= b < 3
    ensures Broadcast([3], [2, 3]) == Success([2, 3]) && Covers(3, [3]) && Covers(6, [2, 3])
    ensures Elementwise(Plus, [1.0, 2.0, 3.0], [3], [10.0, 20.0, 30.0, 40.0, 50.0, 60.0], [2, 3], [2, 3])[3 * a + b]
      == [1.0, 2.0, 3.0][b] + [10.0, 20.0, 30.0, 40.0, 50.0, 60.0][3 * a + b]
  {
    ExampleOperands();
    BroadcastIndexExample(a, b);
    ElementwiseIndex(Plus, [1.0, 2.0, 3.0], [3], [10.0, 20.0, 30.0, 40.0, 50.0, 60.0], [2, 3], [2, 3], 3 * a + b);
  }

  /** The flat index an operand is read at is the offset of the aligned coordinates. */
  lemma AlignedIndex(i: int, out: seq<int>, comp: seq<int>, len: int)
    requires Positive(out) && Positive(comp) && Fits(comp, out) && Covers(len, comp) && len > 0
    requires 0 <= i < Product(out)
    ensures BroadcastIndex(i, out, comp) == Offset(AlignedCoordinates(Unflatten(out, i), comp), comp)
    ensures 0 <= BroadcastIndex(i, out, comp) < len
  {
    var b := BroadcastIndex(i, out, comp);
    BroadcastIndexCoordinates(i, out, comp);
    OffsetUnflatten(comp, b);
    DivModUnique(b, Product(comp), 0, b);
  }

  /** What an arithmetic operator returns: the broadcast failure, the first exception of its
      loop when the output is not empty, or a fresh array of the broadcast shape holding the
      element-wise results. */
  ghost predicate Operated(arr1: ArrayWrapper, arr2: ArrayWrapper, op: (real, real) -> real,
                           r: Result<ArrayWrapper>)
    requires arr1.Valid() && arr2.Valid()
    reads arr1.data, arr2.data, if r.Success? then {r.value.data} else {}
  {
    var b := Broadcast(arr1.shape, arr2.shape);
    var e := OperandError(arr1.data.Length, arr1.shape, arr2.data.Length, arr2.shape);
    if b.Failure? then r == Failure(BroadcastIncompatible)
    else if Product(b.value) > 0 && e.Some? then r == Failure(e.value)
    else
      r.Success? && r.value.Valid() && r.value.shape == b.value &&
      r.value.data[..] == Elementwise(op, arr1.data[..], arr1.shape, arr2.data[..], arr2.shape, b.value)
  }

  /** The failures of `Sum(axis)`, in the order the source meets them: reading the greatest of
      no axes, an axis past the last dimension, then (all as index failures) no kept dimension to
      start the outer loop on, a negative axis to start the inner loop on, and an empty buffer
      to read the first element from. */
  function SumError(len: nat, rank: nat, axis: seq<int>): (e: Option<Error>)
    ensures e.None? <==> (|axis| > 0 && Count(Mask(rank, axis), false) > 0 && len > 0 &&
                          forall j :: 0 <= j < |axis| ==> 0 <= axis[j] < rank)
  {
    if |axis| == 0 then Some(IndexOutOfRange)
    else if exists j :: 0 <= j < |axis| && axis[j] >= rank then Some(AxisOutOfRange)
    else if Count(Mask(rank, axis), false) == 0 then Some(IndexOutOfRange)
    else if exists j :: 0 <= j < |axis| && axis[j] < 0 then Some(IndexOutOfRange)
    else if len == 0 then Some(IndexOutOfRange)
    else None
  }

  /** The total of the slice that the `q`-th kept multi-index (row-major) selects. */
  function TotalAt(data: seq<real>, shape: seq<int>, mask: seq<bool>, q: int): real
    requires Positive(shape) && |mask| == |shape| && |data| >= Product(shape)
    requires 0 <= q < Product(Along(shape, mask, false))
  {
    UnflattenInBounds(Along(shape, mask, false), q);
    SliceSum(data, shape, mask, Unflatten(Along(shape, mask, false), q), Product(Along(shape, mask, true)))
  }

  /** The totals of `Sum` over a mask of summed dimensions: one per kept multi-index, in
      row-major order, each the total of the slice of the buffer that multi-index selects. */
  function Totals(data: seq<real>, shape: seq<int>, mask: seq<bool>): (r: seq<real>)
    requires Positive(shape) && |mask| == |shape| && |data| >= Product(shape)
    ensures |r| == Product(Along(shape, mask, false))
    ensures forall q :: 0 <= q < |r| ==> r[q] == TotalAt(data, shape, mask, q)
  {
    seq(Product(Along(shape, mask, false)), q requires 0 <= q < Product(Along(shape, mask, false)) =>
      TotalAt(data, shape, mask, q))
  }

  /** Writing the `p`-th element of `t` into a sequence that agrees with `t` below `p` extends
      the agreement by one. */
  lemma PrefixUpdate(b: seq<real>, t: seq<real>, p: int)
    requires 0 <= p < |t| == |b| && b[..p] == t[..p]
    ensures b[p := t[p]][..p + 1] == t[..p + 1]
  {
    assert forall i :: 0 <= i < p ==> b[i] == b[..p][i];
  }

  /** What `Sum(axis)` returns for a buffer and its shape: the first failure the source meets,
      or the totals over the kept dimensions. */
  function SumOf(data: seq<real>, shape: seq<int>, axis: seq<int>): (r: Result<seq<real>>)
    requires Positive(shape) && Covers(|data|, shape)
    ensures r.Failure? <==> SumError(|data|, |shape|, axis).Some?
    ensures r.Failure? ==> r.error == SumError(|data|, |shape|, axis).value
    ensures r.Success? ==> |r.value| == Product(Along(shape, Mask(|shape|, axis), false))
  {
    var e := SumError(|data|, |shape|, axis);
    if e.Some? then Failure(e.value) else Success(Totals(data, shape, Mask(|shape|, axis)))
  }

  class ArrayWrapper {
    /** The flat buffer (`_array`). */
    const data: array<real>
    /** The resolved shape (`_shape`); no placeholder is left in it. */
    const shape: seq<int>

    /** What the shape setter guarantees: non-negative dimensions whose product divides the buffer
        length (and is 0 only for an empty buffer). The two need not be equal. */
    ghost predicate Valid()
    {
      Covers(data.Length, shape)
    }

    constructor Init(data: array<real>, shape: seq<int>)
      ensures this.data == data && this.shape == shape
    {
      this.data := data;
      this.shape := shape;
    }

    /** The `Shape` setter's loop: the placeholder position and the product of the other
        dimensions, then the divisibility check and the placeholder's value. */
    static method SetShape(len: Option<int>, value: Option<seq<int>>) returns (r: Result<seq<int>>)
      requires len.Some? ==> len.value >= 0
      requires value.Some? ==> Dims(value.value)
      ensures r == ResolveShape(len, value)
    {
      if len.None? && value.None? {
        return Failure(UndefinedShape);
      }
      var s := if value.Some? then value.value else [len.value];
      var shapeRes, autoIndex, i := 1, -1, 0;
      while i < |s|
        invariant 0 <= i <= |s|
        invariant shapeRes == KnownProduct(s[..i])
        invariant -1 <= autoIndex < i
        invariant Placeholders(s[..i]) == if autoIndex == -1 then 0 else 1
        invariant autoIndex != -1 ==> s[autoIndex] == -1 && len.Some?
      {
        assert s[..i + 1][..i] == s[..i];
        if s[i] == -1 {
          if len.None? || autoIndex != -1 {
            PlaceholdersPrefix(s, i + 1);
            return Failure(AutoShape);
          }
          autoIndex := i;
        } else {
          shapeRes := shapeRes * s[i];
        }
        i := i + 1;
      }
      assert s[..i] == s;
      if len.Some? && shapeRes == 0 {
        return Failure(DivideByZero);
      }
      if len.Some? && len.value % shapeRes != 0 {
        return Failure(ShapeMismatch);
      }
      if autoIndex != -1 {
        FillAt(s, autoIndex, len.value / shapeRes);
        return Success(s[autoIndex := len.value / shapeRes]);
      }
      return Success(s);
    }

    /** The first constructor: keeps the given buffer (aliased, not copied) or, without one,
        allocates a zero-filled buffer of the shape's size. */
    static method Create(arr: array?<real>, shape: Option<seq<int>>) returns (r: Result<ArrayWrapper>)
      requires shape.Some? ==> Dims(shape.value)
      ensures ResolveShape(BufferLength(arr), shape).Failure? ==>
        r == Failure(ResolveShape(BufferLength(arr), shape).error)
      ensures ResolveShape(BufferLength(arr), shape).Success? ==>
        r.Success? && fresh(r.value) && r.value.Valid() &&
        r.value.shape == ResolveShape(BufferLength(arr), shape).value
      ensures r.Success? && arr != null ==> r.value.data == arr
      ensures r.Success? && arr == null ==>
        fresh(r.value.data) && r.value.data.Length == Product(r.value.shape) &&
        forall i :: 0 <= i < r.value.data.Length ==> r.value.data[i] == 0.0
    {
      var s := SetShape(BufferLength(arr), shape);
      if s.Failure? {
        return Failure(s.error);
      }
      var sh := s.value;
      var buf: array<real>;
      if arr == null {
        ResolvedSizesBuffer(shape.value);
        buf := new real[Product(sh)](_ => 0.0);
      } else {
        ResolvedCovers(arr.Length, shape);
        buf := arr;
      }
      var w := new ArrayWrapper.Init(buf, sh);
      return Success(w);
    }

    /** The second constructor: a zero-filled array of the given shape; a placeholder is refused,
        as there is no buffer to infer it from. */
    static method FromShape(shape: seq<int>) returns (r: Result<ArrayWrapper>)
      requires Dims(shape)
      ensures r.Success? <==> Placeholders(shape) == 0
      ensures r.Failure? ==> r.error == AutoShape
      ensures r.Success? ==>
        fresh(r.value) && fresh(r.value.data) && r.value.Valid() && r.value.shape == shape &&
        r.value.data.Length == Product(shape) &&
        forall i :: 0 <= i < r.value.data.Length ==> r.value.data[i] == 0.0
    {
      r := Create(null, Some(shape));
      if Placeholders(shape) == 0 {
        ResolvedWithoutBuffer(shape);
      }
    }

    /** A bare buffer becomes a one-dimensional array over it; an empty buffer divides by zero. */
    static method FromArray(val: array<real>) returns (r: Result<ArrayWrapper>)
      ensures r.Success? <==> val.Length > 0
      ensures r.Failure? ==> r.error == DivideByZero
      ensures r.Success? ==> fresh(r.value) && r.value.Valid() && r.value.data == val && r.value.shape == [val.Length]
    {
      ResolvedWithoutShape(val.Length);
      r := Create(val, None);
    }

    /** A number becomes a shape-`[1]` array holding it; converting back gives the number. */
    static method FromScalar(x: real) returns (r: Result<ArrayWrapper>)
      ensures r.Success? && fresh(r.value) && r.value.Valid() && r.value.shape == [1]
      ensures r.Success? ==> r.value.data[..] == [x] && r.value.ToScalar() == Success(x)
    {
      var buf := new real[1](_ => x);
      ResolvedWithoutShape(1);
      r := Create(buf, None);
    }

    /** Conversion to a number: only a single-element buffer converts, to its element. */
    function ToScalar(): (r: Result<real>)
      reads data
      ensures r.Success? <==> data.Length == 1
      ensures r.Success? ==> r.value == data[0]
      ensures r.Failure? ==> r.error == InvalidOperation
    {
      if data.Length != 1 then Failure(InvalidOperation) else Success(data[0])
    }

    function Length(): nat
    {
      data.Length
    }

    /** A copy of the buffer under a new shape. The copy is fresh storage, so the two arrays do not
        share elements; the source array is not changed. */
    method Reshape(newShape: seq<int>) returns (r: Result<ArrayWrapper>)
      requires Valid() && Dims(newShape)
      ensures r.Failure? <==> ResolveShape(Some(data.Length), Some(newShape)).Failure?
      ensures r.Failure? ==> r.error == ResolveShape(Some(data.Length), Some(newShape)).error
      ensures r.Success? ==>
        fresh(r.value) && fresh(r.value.data) && r.value.Valid() &&
        r.value.shape == ResolveShape(Some(data.Length), Some(newShape)).value &&
        r.value.data[..] == data[..]
    {
      var copy := new real[data.Length](i reads data => if 0 <= i < data.Length then data[i] else 0.0);
      assert copy[..] == data[..];
      r := Create(copy, Some(newShape));
    }

    /** Flat offset of a multi-index prefix: Horner's rule over the leading dimensions. */
    method GetIndex(indexes: seq<int>) returns (r: Result<int>)
      ensures r.Failure? <==> |indexes| > |shape|
      ensures r.Failure? ==> r.error == IndexOutOfRange
      ensures r.Success? ==> r.value == Offset(indexes, shape[..|indexes|])
    {
      if |indexes| > |shape| {
        return Failure(IndexOutOfRange);
      }
      var res, i := 0, 0;
      while i < |indexes|
        invariant 0 <= i <= |indexes|
        invariant res == Offset(indexes[..i], shape[..i])
      {
        HornerPrefix(indexes, shape[..|indexes|], i);
        assert shape[..|indexes|][..i] == shape[..i] && shape[..|indexes|][..i + 1] == shape[..i + 1];
        res := res * shape[i] + indexes[i];
        i := i + 1;
      }
      assert indexes[..i] == indexes;
      return Success(res);
    }

    /** The flat range `[start, end)` of the block a multi-index prefix selects: the prefix's offset
        scaled by the size of the remaining dimensions. */
    method GetRange(indexes: seq<int>) returns (r: Result<(int, int)>)
      ensures r.Failure? <==> |indexes| > |shape|
      ensures r.Failure? ==> r.error == IndexOutOfRange
      ensures r.Success? ==>
        var block := Product(shape[|indexes|..]);
        var start := Offset(indexes, shape[..|indexes|]);
        r.value == (start * block, (start + 1) * block)
    {
      var first := GetIndex(indexes);
      if first.Failure? {
        return Failure(first.error);
      }
      var k := |indexes|;
      var s0 := first.value;
      var start, end, i := s0, s0, k;
      assert shape[k..k] == [];
      while i < |shape|
        invariant k <= i <= |shape|
        invariant start == s0 * Product(shape[k..i])
        invariant end == (s0 + 1) * Product(shape[k..i]) - 1
      {
        ProductExtend(shape, k, i);
        BlockStep(s0, Product(shape[k..i]), shape[i]);
        start := start * shape[i];
        end := end * shape[i] + (shape[i] - 1);
        i := i + 1;
      }
      assert shape[k..i] == shape[k..];
      return Success((start, end + 1));
    }

    /** Reshaping to another shape and back to this one restores the shape and the elements. */
    method ReshapeRoundTrip(other: seq<int>) returns (back: Result<ArrayWrapper>)
      requires Valid() && Dims(other) && Product(shape) > 0
      requires ResolveShape(Some(data.Length), Some(other)).Success?
      ensures back.Success? && back.value.shape == shape && back.value.data[..] == data[..]
    {
      var there := Reshape(other);
      NoPlaceholders(shape);
      NoPlaceholderEntries(shape);
      ResolveValidShape(there.value.data.Length, shape);
      back := there.value.Reshape(shape);
    }

    /** The public indexer. More indices than dimensions fail. A full multi-index reads one element,
        returned as a shape-`[1]` array. A shorter prefix copies out the contiguous block it selects,
        with the remaining dimensions as its shape; the copy fails when the block runs past the
        buffer, and an empty block makes the new array's shape setter divide by zero. */
    method Get(indexes: seq<int>) returns (r: Result<ArrayWrapper>)
      requires Valid() && NonNegative(indexes)
      ensures |indexes| > |shape| ==> r == Failure(IndexOutOfRange)
      ensures |indexes| == |shape| ==>
        var off := Offset(indexes, shape);
        if 0 <= off < data.Length then
          r.Success? && fresh(r.value) && r.value.shape == [1] && r.value.data[..] == [data[off]]
        else r == Failure(IndexOutOfRange)
      ensures |indexes| < |shape| ==>
        var k := |indexes|;
        var block := Product(shape[k..]);
        var start := Offset(indexes, shape[..k]) * block;
        if !(0 <= start <= start + block <= data.Length) then r == Failure(ArgumentOutOfRange)
        else if block == 0 then r == Failure(DivideByZero)
        else
          r.Success? && fresh(r.value) && fresh(r.value.data) && r.value.Valid() &&
          r.value.shape == shape[k..] && r.value.data[..] == data[start..start + block]
    {
      var k := |indexes|;
      if k > |shape| {
        return Failure(IndexOutOfRange);
      }
      OffsetNonNegative(indexes, shape[..k]);
      if k == |shape| {
        var off := GetIndex(indexes);
        assert shape[..k] == shape;
        if off.value >= data.Length {
          return Failure(IndexOutOfRange);
        }
        r := FromScalar(data[off.value]);
        return;
      }
      var range := GetRange(indexes);
      var start, end := range.value.0, range.value.1;
      var block := Product(shape[k..]);
      assert end == start + block;
      MulMonotone(Offset(indexes, shape[..k]), 0, block);
      if end > data.Length {
        return Failure(ArgumentOutOfRange);
      }
      var slice := new real[end - start](i reads data => if 0 <= start + i < data.Length then data[start + i] else 0.0);
      assert slice[..] == data[start..end];
      ResolveOwnSize(shape[k..]);
      r := Create(slice, Some(shape[k..]));
    }

    /** The private indexer's getter: one element of the flat buffer. */
    function At(index: int): (r: Result<real>)
      reads data
      ensures r.Success? <==> 0 <= index < data.Length
      ensures r.Success? ==> r.value == data[index]
      ensures r.Failure? ==> r.error == IndexOutOfRange
    {
      if 0 <= index < data.Length then Success(data[index]) else Failure(IndexOutOfRange)
    }

    /** Writing one total of `Sum` into the result: the slot is the offset of the kept
        coordinates, found with this array's own indexer. */
    method Store(kept: seq<int>, value: real, ghost p: int)
      requires |kept| == |shape| && InBounds(kept, shape) && Offset(kept, shape) == p && 0 <= p < data.Length
      modifies data
      ensures data[..] == old(data[..])[p := value]
    {
      var slot := GetIndex(kept);
      assert shape[..|kept|] == shape;
      var _ := SetAt(slot.value, value);
    }

    /** The private indexer's setter: overwrites one element of the flat buffer. */
    method SetAt(index: int, value: real) returns (r: Result<()>)
      modifies data
      ensures r.Success? <==> 0 <= index < data.Length
      ensures r.Failure? ==> r.error == IndexOutOfRange && data[..] == old(data[..])
      ensures r.Success? ==> data[..] == old(data[..])[index := value]
    {
      if 0 <= index < data.Length {
        data[index] := value;
        return Success(());
      }
      return Failure(IndexOutOfRange);
    }

    /** The element-wise loop behind the arithmetic operators: a zero-filled array of the
        broadcast shape, each element combining the operand elements it reads. The exceptions the
        loop can throw all arise on its first element, before anything is written; they are
        checked there, in the order the first element meets them. */
    static method DoOperator(arr1: ArrayWrapper, arr2: ArrayWrapper, op: (real, real) -> real)
      returns (r: Result<ArrayWrapper>)
      requires arr1.Valid() && arr2.Valid()
      ensures Operated(arr1, arr2, op, r)
      ensures r.Success? ==> fresh(r.value) && fresh(r.value.data)
    {
      var bs := BroadcastShape(arr1, arr2);
      if bs.Failure? {
        return Failure(bs.error);
      }
      var out := bs.value;
      NoPlaceholders(out);
      var created := FromShape(out);
      var res := created.value;
      var n := res.data.Length;
      if n > 0 {
        var e := OperandError(arr1.data.Length, arr1.shape, arr2.data.Length, arr2.shape);
        if e.Some? {
          return Failure(e.value);
        }
      } else {
        OperatedEmpty(arr1, arr2, op, res);
        return Success(res);
      }
      assert Positive(out) by {
        if !Positive(out) { ProductZero(out); }
      }
      ghost var x, y := arr1.data[..], arr2.data[..];
      OperateInto(arr1, arr2, op, res, x, y);
      assert arr1.data[..] == x && arr2.data[..] == y;
      OperatedFull(arr1, arr2, op, res);
      return Success(res);
    }

    /** The loop of `DoOperator`: element `i` of the result combines the operand elements at the
        flat indices `GetIndexFromBroadcast` computes for `i`. */
    static method OperateInto(arr1: ArrayWrapper, arr2: ArrayWrapper, op: (real, real) -> real, res: ArrayWrapper,
                              ghost x: seq<real>, ghost y: seq<real>)
      requires x == arr1.data[..] && y == arr2.data[..] && res.data != arr1.data && res.data != arr2.data
      requires Broadcast(arr1.shape, arr2.shape) == Success(res.shape) && Covers(|x|, arr1.shape) && Covers(|y|, arr2.shape)
      requires OperandError(|x|, arr1.shape, |y|, arr2.shape).None? && Positive(res.shape)
      requires res.data.Length == Product(res.shape)
      modifies res.data
      ensures res.data[..] == Elementwise(op, x, arr1.shape, y, arr2.shape, res.shape)
    {
      var out := res.shape;
      ghost var full := Elementwise(op, x, arr1.shape, y, arr2.shape, out);
      var n := res.data.Length;
      var i := 0;
      while i < n
        invariant 0 <= i <= n && |full| == n && arr1.data[..] == x && arr2.data[..] == y
        invariant res.data[..i] == full[..i]
      {
        var j1 := GetIndexFromBroadcast(i, out, arr1.shape);
        var j2 := GetIndexFromBroadcast(i, out, arr2.shape);
        ElementwiseStep(op, x, arr1.shape, y, arr2.shape, out, i);
        var v1 := arr1.At(j1);
        var v2 := arr2.At(j2);
        ghost var before := res.data[..];
        var _ := res.SetAt(i, op(v1.value, v2.value));
        assert res.data[..] == before[i := full[i]];
        PrefixUpdate(before, full, i);
        i := i + 1;
      }
      assert res.data[..] == res.data[..n];
    }

    static lemma OperatedEmpty(arr1: ArrayWrapper, arr2: ArrayWrapper, op: (real, real) -> real, res: ArrayWrapper)
      requires arr1.Valid() && arr2.Valid() && res.Valid()
      requires Broadcast(arr1.shape, arr2.shape) == Success(res.shape) && res.data.Length == Product(res.shape) == 0
      ensures Operated(arr1, arr2, op, Success(res))
    {
    }

    static lemma OperatedFull(arr1: ArrayWrapper, arr2: ArrayWrapper, op: (real, real) -> real, res: ArrayWrapper)
      requires arr1.Valid() && arr2.Valid() && res.Valid()
      requires Broadcast(arr1.shape, arr2.shape) == Success(res.shape)
      requires OperandError(arr1.data.Length, arr1.shape, arr2.data.Length, arr2.shape).None?
      requires res.data[..] == Elementwise(op, arr1.data[..], arr1.shape, arr2.data[..], arr2.shape, res.shape)
      ensures Operated(arr1, arr2, op, Success(res))
    {
    }

    /** `operator +`: element-wise sum under broadcasting. */
    static method Add(arr1: ArrayWrapper, arr2: ArrayWrapper) returns (r: Result<ArrayWrapper>)
      requires arr1.Valid() && arr2.Valid()
      ensures Operated(arr1, arr2, Plus, r)
      ensures r.Success? ==> fresh(r.value) && fresh(r.value.data)
    {
      r := DoOperator(arr1, arr2, Plus);
    }

    /** `operator -`: element-wise difference under broadcasting. */
    static method Subtract(arr1: ArrayWrapper, arr2: ArrayWrapper) returns (r: Result<ArrayWrapper>)
      requires arr1.Valid() && arr2.Valid()
      ensures Operated(arr1, arr2, Minus, r)
      ensures r.Success? ==> fresh(r.value) && fresh(r.value.data)
    {
      r := DoOperator(arr1, arr2, Minus);
    }

    /** `operator *`: element-wise product under broadcasting. */
    static method Multiply(arr1: ArrayWrapper, arr2: ArrayWrapper) returns (r: Result<ArrayWrapper>)
      requires arr1.Valid() && arr2.Valid()
      ensures Operated(arr1, arr2, Times, r)
      ensures r.Success? ==> fresh(r.value) && fresh(r.value.data)
    {
      r := DoOperator(arr1, arr2, Times);
    }

    /** The least and the greatest axis: what `Array.Sort(axis)` leaves at `axis[0]` and
        `axis[^1]`, the only entries `Sum` reads back as such. */
    static method Extremes(axis: seq<int>) returns (lo: int, hi: int)
      requires |axis| > 0
      ensures forall j :: 0 <= j < |axis| ==> lo <= axis[j] <= hi
      ensures lo in axis && hi in axis
    {
      lo, hi := axis[0], axis[0];
      var j := 1;
      while j < |axis|
        invariant 1 <= j <= |axis|
        invariant forall i :: 0 <= i < j ==> lo <= axis[i] <= hi
        invariant lo in axis && hi in axis
      {
        if axis[j] < lo {
          lo := axis[j];
        }
        if axis[j] > hi {
          hi := axis[j];
        }
        j := j + 1;
      }
    }

    /** `Sum(axis)`: a fresh array over the kept dimensions whose every element is the total of
        the slice it selects. An outer odometer runs over the kept coordinates and an inner one
        over the summed coordinates of one running multi-index; each total is stored at the
        kept multi-index's offset in the result. The failures the loops would raise at their
        first step (no kept dimension, a negative axis, an empty buffer) are checked before the
        loops, which changes nothing observable since nothing is written before them. */
    method Sum(axis: seq<int>) returns (r: Result<ArrayWrapper>)
      requires Valid() && Positive(shape)
      requires forall i, j :: 0 <= i < j < |axis| ==> axis[i] != axis[j]
      ensures r.Failure? <==> SumOf(data[..], shape, axis).Failure?
      ensures r.Failure? ==> r.error == SumOf(data[..], shape, axis).error
      ensures r.Success? ==>
        fresh(r.value) && fresh(r.value.data) && r.value.Valid() &&
        r.value.shape == Along(shape, Mask(|shape|, axis), false) &&
        r.value.data[..] == SumOf(data[..], shape, axis).value
    {
      if |axis| == 0 {
        return Failure(IndexOutOfRange);
      }
      var lo, hi := Extremes(axis);
      if hi >= |shape| {
        return Failure(AxisOutOfRange);
      }
      var mask := Mask(|shape|, axis);
      var keptDims := Along(shape, mask, false);
      NoPlaceholders(keptDims);
      var created := FromShape(keptDims);
      var res := created.value;
      if Count(mask, false) == 0 || lo < 0 || data.Length == 0 {
        return Failure(IndexOutOfRange);
      }
      PositionOf(mask, true, axis[0]);
      SumInto(res, mask);
      return Success(res);
    }

    /** The two loops of `Sum`: an outer odometer over the kept coordinates of one running
        multi-index, and for each of them the total of its slice written to the result at the
        kept coordinates' offset. */
    method SumInto(res: ArrayWrapper, mask: seq<bool>)
      requires Positive(shape) && data.Length >= Product(shape) && |mask| == |shape|
      requires Count(mask, true) >= 1 && Count(mask, false) >= 1
      requires res.data != data && res.shape == Along(shape, mask, false) && res.data.Length == Product(res.shape)
      modifies res.data
      ensures res.data[..] == Totals(data[..], shape, mask)
    {
      ghost var d := data[..];
      ghost var total := Totals(d, shape, mask);
      var keptDims := res.shape;
      ghost var sumDims := Along(shape, mask, true);
      var kept := Positions(mask, false);
      var cur := Zeros(|shape|);
      LeadZero(keptDims);
      LeadZero(sumDims);
      MergeZeros(mask);
      ghost var p := 0;
      OdometerGuard(mask, shape, false, Zeros(|sumDims|), p);
      while cur[kept[0]] < shape[kept[0]]
        invariant 0 <= p <= Product(keptDims) && data[..] == d
        invariant cur == Merge(mask, Lead(keptDims, p), Zeros(|sumDims|))
        invariant res.data[..p] == total[..p]
        invariant cur[kept[0]] < shape[kept[0]] <==> p < Product(keptDims)
        decreases Product(keptDims) - p
      {
        LeadUnflatten(keptDims, p);
        UnflattenInBounds(keptDims, p);
        OffsetUnflatten(keptDims, p);
        ghost var kc := Unflatten(keptDims, p);
        AlongMerge(mask, kc, Zeros(|sumDims|), false);
        DivModUnique(p, Product(keptDims), 0, p);
        UnflattenInBounds(keptDims, p);
        assert total[p] == SliceSum(d, shape, mask, kc, Product(sumDims));
        ghost var before := res.data[..];
        cur := SumRound(res, mask, kc, d, p, cur);
        assert data[..] == d;
        assert res.data[..] == before[p := total[p]];
        PrefixUpdate(before, total, p);
        OdometerMerge(mask, shape, false, Zeros(|sumDims|), p);
        p := p + 1;
        OdometerGuard(mask, shape, false, Zeros(|sumDims|), p);
      }
      assert res.data[..] == res.data[..p];
    }

    /** One round of the outer loop of `Sum`: the slice selected by the kept coordinates `kc`
        of the running multi-index is summed into the result at those coordinates' offset `p`,
        and the kept coordinates step on by one. */
    method SumRound(res: ArrayWrapper, mask: seq<bool>, ghost kc: seq<int>, ghost d: seq<real>, ghost p: int,
                    cur: seq<int>) returns (next: seq<int>)
      requires d == data[..] && Positive(shape) && |d| >= Product(shape) && |mask| == |shape| && Count(mask, true) >= 1
      requires Count(mask, false) >= 1 && res.data != data && res.shape == Along(shape, mask, false)
      requires InBounds(kc, res.shape) && Offset(kc, res.shape) == p && 0 <= p < res.data.Length
      requires cur == Merge(mask, kc, Zeros(Count(mask, true)))
      modifies res.data
      ensures res.data[..] == old(res.data[..])[p := SliceSum(d, shape, mask, kc, Product(Along(shape, mask, true)))]
      ensures next == Replace(mask, false, cur, Inc(kc, res.shape, Count(mask, false)))
    {
      var sum, back := SliceTotal(mask, kc, d, cur);
      AlongMerge(mask, kc, Zeros(Count(mask, true)), false);
      res.Store(Along(back, mask, false), sum, p);
      next := Advance(back, mask, false, shape);
    }

    /** The inner loop of `Sum` and the reset after it: with the kept coordinates of the
        running multi-index fixed at `kc`, its summed coordinates run through all their
        multi-indices in row-major order, each element read is added, and the first summed
        coordinate is set back to 0. */
    method SliceTotal(mask: seq<bool>, ghost kc: seq<int>, ghost d: seq<real>, start: seq<int>)
      returns (sum: real, cur: seq<int>)
      requires d == data[..] && Positive(shape) && |d| >= Product(shape) && |mask| == |shape| && Count(mask, true) >= 1
      requires InBounds(kc, Along(shape, mask, false))
      requires start == Merge(mask, kc, Zeros(Count(mask, true)))
      ensures sum == SliceSum(d, shape, mask, kc, Product(Along(shape, mask, true)))
      ensures cur == start
    {
      var summed := Positions(mask, true);
      LeadZero(Along(shape, mask, true));
      cur := start;
      sum := 0.0;
      ghost var t := 0;
      SummingGuard(d, shape, mask, kc, t, cur, sum, summed);
      while cur[summed[0]] < shape[summed[0]]
        invariant data[..] == d && Summing(d, shape, mask, kc, t, cur, sum)
        invariant cur[summed[0]] < shape[summed[0]] <==> t < Product(Along(shape, mask, true))
        decreases Product(Along(shape, mask, true)) - t
      {
        sum, cur := SliceRound(mask, kc, d, t, cur, sum);
        t := t + 1;
        SummingGuard(d, shape, mask, kc, t, cur, sum, summed);
      }
      SummingDone(d, shape, mask, kc, t, cur, sum, summed);
      cur := cur[summed[0] := 0];
    }

    /** One round of the inner loop of `Sum`: the element at the running multi-index is added
        to the total and the summed coordinates step on by one. */
    method SliceRound(mask: seq<bool>, ghost kc: seq<int>, ghost d: seq<real>, ghost t: int, cur: seq<int>, sum: real)
      returns (sum': real, cur': seq<int>)
      requires d == data[..] && Summing(d, shape, mask, kc, t, cur, sum) && t < Product(Along(shape, mask, true))
      ensures Summing(d, shape, mask, kc, t + 1, cur', sum')
    {
      SummingStep(d, shape, mask, kc, t, cur, sum);
      // `this[curIndex]` with a full multi-index reads `_array[GetIndex(curIndex)]`; its
      // conversion to an array and back to a number returns that element unchanged.
      var off := GetIndex(cur);
      var x := At(off.value);
      cur' := Advance(cur, mask, true, shape);
      sum' := sum + x.value;
    }

    /** The odometer step of `Sum`, over the entries of the multi-index `cur` along the
        dimensions of mark `b` (the summed axes, or the kept ones): the last one goes up by one,
        and each entry that reaches its dimension is reset to 0 with a carry into the one before
        it. The first entry is never reset. */
    static method Advance(cur: seq<int>, mask: seq<bool>, b: bool, shape: seq<int>) returns (next: seq<int>)
      requires |mask| == |shape| == |cur| && Count(mask, b) >= 1
      ensures next == Replace(mask, b, cur, Inc(Along(cur, mask, b), Along(shape, mask, b), Count(mask, b)))
    {
      var pos := Positions(mask, b);
      // `k` is the source's `axis.Length - i`: the entry the carry has reached.
      var k := |pos| - 1;
      AdvanceStart(mask, b, cur, shape, pos, k);
      next := cur[pos[k] := cur[pos[k]] + 1];
      ghost var g := Along(cur, mask, b)[k := Along(cur, mask, b)[k] + 1];
      AdvanceTest(mask, b, cur, shape, pos, g, k, next);
      while k > 0 && next[pos[k]] == shape[pos[k]]
        invariant Advancing(mask, b, cur, shape, g, k, next)
        invariant 0 <= pos[k] < |next| && (next[pos[k]] == shape[pos[k]] <==> g[k] == Along(shape, mask, b)[k])
      {
        AdvanceStep(mask, b, cur, shape, pos, g, k, next);
        next := next[pos[k - 1] := next[pos[k - 1]] + 1][pos[k] := 0];
        g, k := g[k - 1 := g[k - 1] + 1][k := 0], k - 1;
        AdvanceTest(mask, b, cur, shape, pos, g, k, next);
      }
      AdvanceStop(mask, b, cur, shape, g, k, next);
    }

    /** Coordinates of a flat index, least significant dimension first: the inverse of `GetIndex`
        on the whole shape. */
    static method GetIndexes(shape: seq<int>, index: int) returns (res: array<int>)
      requires Positive(shape) && index >= 0
      ensures fresh(res) && res[..] == Unflatten(shape, index)
    {
      var n := |shape|;
      res := new int[n];
      var x, i := index, n - 1;
      ghost var digits: seq<int> := [];
      ghost var full := Digits(shape, 0, n, index);
      while i >= 0
        invariant -1 <= i < n && |digits| == n - 1 - i
        invariant forall t :: i < t < n ==> res[t] == digits[t - i - 1]
        invariant full == Digits(shape, 0, i + 1, x) + digits
      {
        res[i] := x % shape[i];
        digits := [x % shape[i]] + digits;
        x := x / shape[i];
        i := i - 1;
      }
      assert res[..] == digits;
      DigitsSlice(shape, 0, n, index);
      assert shape[0..n] == shape;
    }

    /** Flat index into an operand of shape `componentShape` for flat index `broadcastIndex` of the
        broadcast output: the trailing output coordinates are pushed on a stack, each reduced modulo
        the operand's dimension, then popped and combined by Horner's rule. */
    static method GetIndexFromBroadcast(broadcastIndex: int, broadcastShape: seq<int>, componentShape: seq<int>)
      returns (res: int)
      requires broadcastIndex >= 0 && Positive(broadcastShape) && Positive(componentShape)
      requires |componentShape| <= |broadcastShape|
      ensures res == BroadcastIndex(broadcastIndex, broadcastShape, componentShape)
    {
      var out, comp, n, k := broadcastShape, componentShape, |broadcastShape|, |componentShape|;
      var stack: seq<int> := [];
      var x, i := broadcastIndex, 1;
      ghost var taken: seq<int> := [];
      ghost var full := Digits(out, n - k, n, broadcastIndex);
      while i <= k
        invariant 1 <= i <= k + 1 && |taken| == i - 1 && |stack| == i - 1
        invariant full == Digits(out, n - k, n - (i - 1), x) + taken
        invariant stack == Reduce(taken, comp, k - (i - 1))
      {
        stack := [(x % out[n - i]) % comp[k - i]] + stack;
        assert ([x % out[n - i]] + taken)[1..] == taken;
        taken := [x % out[n - i]] + taken;
        x := x / out[n - i];
        i := i + 1;
      }
      assert Digits(out, n - k, n - k, x) == [];
      assert taken == full;
      res := PopCombine(stack, comp);
    }

    /** The second half of `GetIndexFromBroadcast`: pops the stack of coordinates, most
        significant first, and combines them by Horner's rule. */
    static method PopCombine(stack: seq<int>, comp: seq<int>) returns (res: int)
      requires |stack| == |comp|
      ensures res == Offset(stack, comp)
    {
      var full, rest, k := stack, stack, |comp|;
      var i := 0;
      res := 0;
      while i < k
        invariant 0 <= i <= k
        invariant rest == full[i..]
        invariant res == Offset(full[..i], comp[..i])
      {
        HornerPrefix(full, comp, i);
        res := res * comp[i] + rest[0];
        rest := rest[1..];
        i := i + 1;
      }
      assert full[..k] == full && comp[..k] == comp;
    }

    /** The broadcast shape of two arrays, dimension by dimension from the end; the first
        incompatible pair fails. */
    static method BroadcastShape(arr1: ArrayWrapper, arr2: ArrayWrapper) returns (r: Result<seq<int>>)
      ensures r == Broadcast(arr1.shape, arr2.shape)
    {
      var a, b := arr1.shape, arr2.shape;
      var p := Max(|a|, |b|);
      var resShape := new int[p];
      var i := 1;
      while i <= p
        invariant 1 <= i <= p + 1
        invariant forall t :: 1 <= t < i ==> Dim(a, t) == 1 || Dim(b, t) == 1 || Dim(a, t) == Dim(b, t)
        invariant forall t :: 1 <= t < i ==> resShape[p - t] == Max(Dim(a, t), Dim(b, t))
      {
        var aDim := if |a| - i >= 0 then a[|a| - i] else 1;
        var bDim := if |b| - i >= 0 then b[|b| - i] else 1;
        assert aDim == Dim(a, i) && bDim == Dim(b, i);
        if aDim != 1 && bDim != 1 && aDim != bDim {
          return Failure(BroadcastIncompatible);
        }
        resShape[p - i] := Max(aDim, bDim);
        i := i + 1;
      }
      assert Broadcastable(a, b);
      forall k | 0 <= k < p ensures resShape[k] == Max(Dim(a, p - k), Dim(b, p - k)) {
        assert 1 <= p - k < i;
      }
      assert resShape[..] == seq(p, k => Max(Dim(a, p - k), Dim(b, p - k)));
      return Success(resShape[..]);
    }
  }
}
