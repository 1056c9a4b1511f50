/** Summing over axes: which dimensions are summed and which are kept, how a full multi-index is
    assembled from kept and summed coordinates, and the odometer that enumerates coordinates. */
module Axes {
  import opened Arith
  import opened Shapes

  // Summed and kept axes

  /** Dimension `d` of a rank-`rank` array is summed when it is one of the requested axes. */
  function Mask(rank: nat, axis: seq<int>): (m: seq<bool>)
    ensures |m| == rank && forall d :: 0 <= d < rank ==> (m[d] <==> d in axis)
  {
    seq(rank, d => d in axis)
  }

  /** Number of dimensions with mark `b`. */
  function Count(mask: seq<bool>, b: bool): nat
  {
    if |mask| == 0 then 0 else Count(mask[..|mask| - 1], b) + (if mask[|mask| - 1] == b then 1 else 0)
  }

  /** The dimensions with mark `b`, ascending: the summed axes in sorted order (`Array.Sort(axis)`)
      for `true`, the kept ones (`Enumerable.Range(0, rank).Except(axis)`) for `false`. */
  function Positions(mask: seq<bool>, b: bool): (p: seq<int>)
    ensures |p| == Count(mask, b)
  {
    if |mask| == 0 then []
    else Positions(mask[..|mask| - 1], b) + (if mask[|mask| - 1] == b then [|mask| - 1] else [])
  }

  /** How many dimensions before `d` carry mark `b`: `d`'s place among them. */
  function Rank(mask: seq<bool>, d: int, b: bool): nat
    requires 0 <= d <= |mask|
  {
    Count(mask[..d], b)
  }

  /** The `j`-th position with mark `b` lies inside the mask, carries mark `b`, and has `j` such
      dimensions before it. */
  lemma {:induction false} PositionsAt(mask: seq<bool>, b: bool, j: int)
    requires 0 <= j < Count(mask, b)
    ensures 0 <= Positions(mask, b)[j] < |mask|
    ensures mask[Positions(mask, b)[j]] == b && Rank(mask, Positions(mask, b)[j], b) == j
  {
    var n := |mask|;
    var init := mask[..n - 1];
    var p := Positions(mask, b);
    if j < Count(init, b) {
      PositionsAt(init, b, j);
      var q := Positions(init, b)[j];
      assert p[j] == q;
      assert mask[..q] == init[..q];
    } else {
      assert mask[n - 1] == b && p[j] == n - 1;
      assert mask[..n - 1] == init;
    }
  }

  /** Every position of either kind is a dimension of the mask. */
  predicate PositionsInside(mask: seq<bool>)
  {
    forall b: bool, j :: 0 <= j < Count(mask, b) ==> 0 <= Positions(mask, b)[j] < |mask|
  }

  lemma PositionsInMask(mask: seq<bool>)
    ensures PositionsInside(mask)
  {
    forall b: bool, j | 0 <= j < Count(mask, b) ensures 0 <= Positions(mask, b)[j] < |mask| {
      PositionsAt(mask, b, j);
    }
  }

  /** A dimension with mark `b` is the position its rank names. */
  lemma {:induction false} PositionOf(mask: seq<bool>, b: bool, d: int)
    requires 0 <= d < |mask| && mask[d] == b
    ensures Rank(mask, d, b) < Count(mask, b) && Positions(mask, b)[Rank(mask, d, b)] == d
  {
    var n := |mask|;
    var init := mask[..n - 1];
    if d < n - 1 {
      PositionOf(init, b, d);
      assert init[..d] == mask[..d];
    } else {
      assert mask[..d] == init;
    }
  }

  /** The coordinates at the given positions (`positions.Select(x => c[x])`). */
  function Gather(c: seq<int>, positions: seq<int>): (g: seq<int>)
    requires forall j :: 0 <= j < |positions| ==> 0 <= positions[j] < |c|
    ensures |g| == |positions|
  {
    seq(|positions|, j requires 0 <= j < |positions| => c[positions[j]])
  }

  /** The full multi-index whose kept dimensions hold `kc` and whose summed dimensions hold `sc`,
      each in ascending order of dimension. */
  function Merge(mask: seq<bool>, kc: seq<int>, sc: seq<int>): (c: seq<int>)
    requires |kc| == Count(mask, false) && |sc| == Count(mask, true)
    ensures |c| == |mask|
  {
    var n := |mask|;
    if n == 0 then []
    else if mask[n - 1] then Merge(mask[..n - 1], kc, sc[..|sc| - 1]) + [sc[|sc| - 1]]
    else Merge(mask[..n - 1], kc[..|kc| - 1], sc) + [kc[|kc| - 1]]
  }

  /** Dimension `d` of the merged index holds the coordinate of its rank among its kind. */
  lemma {:induction false} MergeAt(mask: seq<bool>, kc: seq<int>, sc: seq<int>, d: int)
    requires |kc| == Count(mask, false) && |sc| == Count(mask, true) && 0 <= d < |mask|
    ensures Rank(mask, d, mask[d]) < Count(mask, mask[d])
    ensures Merge(mask, kc, sc)[d] == if mask[d] then sc[Rank(mask, d, true)] else kc[Rank(mask, d, false)]
  {
    var n := |mask|;
    var init := mask[..n - 1];
    if d < n - 1 {
      assert init[..d] == mask[..d];
      if mask[n - 1] {
        MergeAt(init, kc, sc[..|sc| - 1], d);
      } else {
        MergeAt(init, kc[..|kc| - 1], sc, d);
      }
    } else {
      assert mask[..d] == init;
    }
  }

  /** The coordinates of one kind read back from a merged index are the ones merged in. */
  lemma {:induction false} GatherMerge(mask: seq<bool>, kc: seq<int>, sc: seq<int>, b: bool)
    requires |kc| == Count(mask, false) && |sc| == Count(mask, true)
    ensures forall j :: 0 <= j < Count(mask, b) ==> 0 <= Positions(mask, b)[j] < |mask|
    ensures Gather(Merge(mask, kc, sc), Positions(mask, b)) == if b then sc else kc
  {
    var p := Positions(mask, b);
    forall j | 0 <= j < |p| ensures 0 <= p[j] < |mask| && Merge(mask, kc, sc)[p[j]] == (if b then sc else kc)[j] {
      PositionsAt(mask, b, j);
      MergeAt(mask, kc, sc, p[j]);
    }
  }

  /** A merged index of in-bounds kept and summed coordinates is inside the whole shape. */
  lemma {:induction false} MergeInBounds(mask: seq<bool>, shape: seq<int>, kc: seq<int>, sc: seq<int>)
    requires |mask| == |shape| && |kc| == Count(mask, false) && |sc| == Count(mask, true)
    requires PositionsInside(mask)
    requires InBounds(kc, Gather(shape, Positions(mask, false)))
    requires InBounds(sc, Gather(shape, Positions(mask, true)))
    ensures InBounds(Merge(mask, kc, sc), shape)
  {
    forall d | 0 <= d < |shape| ensures 0 <= Merge(mask, kc, sc)[d] < shape[d] {
      MergeAt(mask, kc, sc, d);
      PositionOf(mask, mask[d], d);
    }
  }

  // The odometer

  function Zeros(k: nat): (z: seq<int>)
    ensures |z| == k && forall j :: 0 <= j < k ==> z[j] == 0
  {
    seq(k, _ => 0)
  }

  /** One step of the odometer over the first `k` digits, against dimensions `s`: the last digit
      goes up by one and a digit that reaches its dimension is reset to 0 with a carry into the
      digit before it. The first digit is never reset, so after the last multi-index it holds
      `s[0]`. */
  function Inc(c: seq<int>, s: seq<int>, k: int): (r: seq<int>)
    requires 1 <= k <= |c| == |s|
    ensures |r| == k
  {
    if k == 1 then [c[0] + 1]
    else if c[k - 1] + 1 == s[k - 1] then Inc(c, s, k - 1) + [0]
    else c[..k - 1] + [c[k - 1] + 1]
  }

  /** A step over the first `k` digits looks at nothing beyond them. */
  lemma {:induction false} IncPrefix(c: seq<int>, s: seq<int>, k: int, c': seq<int>, s': seq<int>)
    requires 1 <= k <= |c| == |s| && k <= |c'| == |s'| && c[..k] == c'[..k] && s[..k] == s'[..k]
    ensures Inc(c, s, k) == Inc(c', s', k)
  {
    assert c[k - 1] == c'[k - 1] && s[k - 1] == s'[k - 1] && c[0] == c'[0];
    if k > 1 {
      assert c[..k - 1] == c[..k][..k - 1] == c'[..k][..k - 1] == c'[..k - 1];
      assert s[..k - 1] == s'[..k - 1] by { assert s[..k - 1] == s[..k][..k - 1]; assert s'[..k - 1] == s'[..k][..k - 1]; }
      IncPrefix(c, s, k - 1, c', s');
    }
  }

  /** What the odometer shows after `t` steps from all zeros: the mixed-radix digits of `t`, with
      the first digit not reduced. */
  function Lead(s: seq<int>, t: int): (c: seq<int>)
    requires |s| >= 1 && Positive(s)
    ensures |c| == |s|
  {
    var n := |s|;
    if n == 1 then [t]
    else Lead(s[..n - 1], t / s[n - 1]) + [t % s[n - 1]]
  }

  /** A step of the odometer counts one further. */
  lemma {:induction false} IncLead(s: seq<int>, t: int)
    requires |s| >= 1 && Positive(s) && t >= 0
    ensures Inc(Lead(s, t), s, |s|) == Lead(s, t + 1)
  {
    var n := |s|;
    if n > 1 {
      var s', d := s[..n - 1], s[n - 1];
      var c, l := Lead(s, t), Lead(s', t / d);
      assert c == l + [t % d];
      assert c[..n - 1] == l;
      assert Lead(s, t + 1) == Lead(s', (t + 1) / d) + [(t + 1) % d];
      if t % d + 1 == d {
        DivModUnique(t + 1, d, t / d + 1, 0);
        assert Inc(c, s, n) == Inc(c, s, n - 1) + [0];
        IncLead(s', t / d);
        IncPrefix(c, s, n - 1, l, s');
      } else {
        DivModUnique(t + 1, d, t / d, t % d + 1);
        assert Inc(c, s, n) == l + [t % d + 1];
      }
    }
  }

  /** Before the end, the odometer shows the coordinates of the count. */
  lemma {:induction false} LeadUnflatten(s: seq<int>, t: int)
    requires |s| >= 1 && Positive(s) && 0 <= t < Product(s)
    ensures Lead(s, t) == Unflatten(s, t)
  {
    var n := |s|;
    var s', d := s[..n - 1], s[n - 1];
    if n == 1 {
      assert s' == [];
      DivModUnique(t, d, 0, t);
    } else {
      DivLess(t, d, Product(s'));
      LeadUnflatten(s', t / d);
    }
  }

  /** The first digit stays below the first dimension exactly until every multi-index is counted:
      the odometer loops' exit test. */
  lemma {:induction false} LeadFirst(s: seq<int>, t: int)
    requires |s| >= 1 && Positive(s) && t >= 0
    ensures Lead(s, t)[0] < s[0] <==> t < Product(s)
  {
    var n := |s|;
    var s', d := s[..n - 1], s[n - 1];
    if n == 1 {
      assert s' == [];
    } else {
      DivLess(t, d, Product(s'));
      LeadFirst(s', t / d);
    }
  }

  /** The odometer starts at all zeros. */
  lemma {:induction false} LeadZero(s: seq<int>)
    requires |s| >= 1 && Positive(s)
    ensures Lead(s, 0) == Zeros(|s|)
  {
    if |s| > 1 {
      LeadZero(s[..|s| - 1]);
    }
  }

  /** After every multi-index, the first digit holds the first dimension and the others are 0. */
  lemma {:induction false} LeadEnd(s: seq<int>)
    requires |s| >= 1 && Positive(s)
    ensures Lead(s, Product(s)) == [s[0]] + Zeros(|s| - 1)
  {
    var n := |s|;
    var s', d := s[..n - 1], s[n - 1];
    if n == 1 {
      assert s' == [];
    } else {
      DivModUnique(Product(s), d, Product(s'), 0);
      LeadEnd(s');
    }
  }

  /** Where the carry stops, at digit `h - 1` (which has not reached its dimension) or at the
      first digit, after running through the digits behind it (each of which had reached its
      dimension), the step has raised that digit and zeroed the ones after it. */
  lemma {:induction false} IncCarried(c: seq<int>, s: seq<int>, h: int)
    requires |c| == |s| && 1 <= h <= |c| && (h == 1 || c[h - 1] + 1 != s[h - 1])
    requires forall q :: h <= q < |c| ==> c[q] + 1 == s[q]
    ensures forall j :: 0 <= j < |c| ==>
      Inc(c, s, |c|)[j] == if j < h - 1 then c[j] else if j == h - 1 then c[j] + 1 else 0
  {
    var r, l := Inc(c, s, |c|), Inc(c, s, h);
    CarryRun(c, s, |c|, h);
    var z := Zeros(|c| - h);
    assert r == l + z;
    if h == 1 {
      assert l == [c[0] + 1];
      assert c[..0] + [c[0] + 1] == [c[0] + 1];
    } else {
      assert l == c[..h - 1] + [c[h - 1] + 1];
    }
    RaisedThenZeros(c, h, l + z);
  }

  /** Midway through the step: the entry at `k` has been raised, the entries before it are
      untouched, and the ones after it have been reset after reaching their dimensions. */
  ghost predicate Carrying(c: seq<int>, s: seq<int>, g: seq<int>, k: int)
  {
    |c| == |s| == |g| && 0 <= k < |c| &&
    (forall j :: 0 <= j < k ==> g[j] == c[j]) && g[k] == c[k] + 1 &&
    (forall j :: k < j < |g| ==> g[j] == 0) && (forall q :: k < q < |c| ==> c[q] + 1 == s[q])
  }

  lemma {:induction false} CarryStart(c: seq<int>, s: seq<int>, k: int)
    requires |c| == |s| == k + 1 && k >= 0
    ensures Carrying(c, s, c[k := c[k] + 1], k)
  {
  }

  /** An entry that reached its dimension is reset and carries into the one before it. */
  lemma {:induction false} CarryStep(c: seq<int>, s: seq<int>, g: seq<int>, k: int)
    requires Carrying(c, s, g, k) && k >= 1 && g[k] == s[k]
    ensures Carrying(c, s, g[k - 1 := g[k - 1] + 1][k := 0], k - 1)
  {
  }

  /** Once the carry stops, the entries are the step's. */
  lemma {:induction false} CarryStop(c: seq<int>, s: seq<int>, g: seq<int>, k: int)
    requires Carrying(c, s, g, k) && (k == 0 || g[k] != s[k])
    ensures g == Inc(c, s, |c|)
  {
    IncCarried(c, s, k + 1);
  }

  lemma {:induction false} RaisedThenZeros(c: seq<int>, h: int, r: seq<int>)
    requires 1 <= h <= |c| && r == c[..h - 1] + [c[h - 1] + 1] + Zeros(|c| - h)
    ensures forall j :: 0 <= j < |c| ==> r[j] == if j < h - 1 then c[j] else if j == h - 1 then c[j] + 1 else 0
  {
  }

  /** With the carry running through digits `k - 1` down to `h`, the step over the first `k`
      digits is the step over the first `h`, followed by zeros. */
  lemma {:induction false} CarryRun(c: seq<int>, s: seq<int>, k: int, h: int)
    requires |c| == |s| && 1 <= h <= k <= |c|
    requires forall q :: h <= q < k ==> c[q] + 1 == s[q]
    ensures Inc(c, s, k) == Inc(c, s, h) + Zeros(k - h)
  {
    if k > h {
      CarryRun(c, s, k - 1, h);
      assert Zeros(k - 1 - h) + [0] == Zeros(k - h);
    } else {
      assert Zeros(0) == [];
    }
  }

  /** The entries of `v` (a shape or a multi-index) along the dimensions with mark `b`, in
      ascending order of dimension: `Along(shape, mask, false)` is the result shape of a sum
      (`axisDimensions.Select(x => Shape[x])`). */
  function Along(v: seq<int>, mask: seq<bool>, b: bool): (r: seq<int>)
    requires |mask| == |v|
    ensures |r| == Count(mask, b) && (Positive(v) ==> Positive(r))
    ensures forall j :: 0 <= j < |r| ==> 0 <= Positions(mask, b)[j] < |v| && r[j] == v[Positions(mask, b)[j]]
  {
    PositionsInMask(mask);
    Gather(v, Positions(mask, b))
  }

  /** `c` with the entries along the dimensions of mark `b` overwritten, in order, by `v`. */
  function Replace(mask: seq<bool>, b: bool, c: seq<int>, v: seq<int>): (r: seq<int>)
    requires |c| == |mask| && |v| == Count(mask, b)
    ensures |r| == |c|
    ensures forall d :: 0 <= d < |c| && mask[d] != b ==> r[d] == c[d]
  {
    seq(|c|, d => if 0 <= d < |c| && mask[d] == b && Rank(mask, d, b) < |v| then v[Rank(mask, d, b)]
                  else if 0 <= d < |c| then c[d] else 0)
  }

  /** The `j`-th dimension of mark `b` holds `v[j]` after the overwrite. */
  lemma {:induction false} ReplaceAt(mask: seq<bool>, b: bool, c: seq<int>, v: seq<int>, j: int)
    requires |c| == |mask| && |v| == Count(mask, b) && 0 <= j < |v|
    ensures 0 <= Positions(mask, b)[j] < |c| && Replace(mask, b, c, v)[Positions(mask, b)[j]] == v[j]
  {
    PositionsAt(mask, b, j);
  }

  /** Overwriting with the entries already there changes nothing. */
  lemma {:induction false} ReplaceSelf(mask: seq<bool>, b: bool, c: seq<int>)
    requires |c| == |mask|
    ensures Replace(mask, b, c, Along(c, mask, b)) == c
  {
    var r := Replace(mask, b, c, Along(c, mask, b));
    forall d | 0 <= d < |c| && mask[d] == b ensures r[d] == c[d] {
      PositionOf(mask, b, d);
    }
  }

  /** Writing `x` at the `j`-th dimension of mark `b` is overwriting with `v[j := x]`. */
  lemma {:induction false} ReplaceUpdate(mask: seq<bool>, b: bool, c: seq<int>, v: seq<int>, j: int, x: int)
    requires |c| == |mask| && |v| == Count(mask, b) && 0 <= j < |v|
    ensures 0 <= Positions(mask, b)[j] < |c|
    ensures Replace(mask, b, c, v)[Positions(mask, b)[j] := x] == Replace(mask, b, c, v[j := x])
  {
    PositionsAt(mask, b, j);
    var p := Positions(mask, b)[j];
    var r, r' := Replace(mask, b, c, v)[p := x], Replace(mask, b, c, v[j := x]);
    forall d | 0 <= d < |c| && mask[d] == b ensures r[d] == r'[d] {
      PositionOf(mask, b, d);
    }
  }

  /** The first move of the odometer on the whole multi-index: raising its last entry of mark
      `b` starts a carry there. */
  lemma {:induction false} CarryBegin(mask: seq<bool>, b: bool, cur: seq<int>, k: int)
    requires |cur| == |mask| && k == Count(mask, b) - 1 && k >= 0
    ensures 0 <= Positions(mask, b)[k] < |cur|
    ensures cur[Positions(mask, b)[k] := cur[Positions(mask, b)[k]] + 1] ==
      Replace(mask, b, cur, Along(cur, mask, b)[k := Along(cur, mask, b)[k] + 1])
  {
    ReplaceSelf(mask, b, cur);
    ReplaceUpdate(mask, b, cur, Along(cur, mask, b), k, Along(cur, mask, b)[k] + 1);
  }

  /** One carry of the odometer on the whole multi-index: raising the entry before `k` and
      resetting the one at `k` moves the carry one place to the front. */
  lemma {:induction false} CarryWrite(mask: seq<bool>, b: bool, cur: seq<int>, c: seq<int>, s: seq<int>, g: seq<int>, k: int,
                                       g': seq<int>)
    requires |cur| == |mask| && |g| == Count(mask, b) && Carrying(c, s, g, k) && k >= 1 && g[k] == s[k]
    requires g' == g[k - 1 := g[k - 1] + 1][k := 0]
    ensures 0 <= Positions(mask, b)[k - 1] < |cur| && 0 <= Positions(mask, b)[k] < |cur|
    ensures Replace(mask, b, cur, g)[Positions(mask, b)[k - 1]] == g[k - 1]
    ensures Replace(mask, b, cur, g)[Positions(mask, b)[k - 1] := g[k - 1] + 1][Positions(mask, b)[k] := 0]
      == Replace(mask, b, cur, g')
    ensures Carrying(c, s, g', k - 1)
  {
    var g1 := g[k - 1 := g[k - 1] + 1];
    ReplaceAt(mask, b, cur, g, k - 1);
    ReplaceUpdate(mask, b, cur, g, k - 1, g1[k - 1]);
    ReplaceUpdate(mask, b, cur, g1, k, 0);
    CarryStep(c, s, g, k);
  }

  /** The state of `Advance`'s carry loop on the whole multi-index: `next` is `cur` with the
      entries of mark `b` overwritten by the carry state `g`, which has reached entry `k`. */
  ghost predicate Advancing(mask: seq<bool>, b: bool, cur: seq<int>, shape: seq<int>, g: seq<int>, k: int,
                            next: seq<int>)
  {
    |mask| == |shape| == |cur| && |g| == Count(mask, b) &&
    Carrying(Along(cur, mask, b), Along(shape, mask, b), g, k) && next == Replace(mask, b, cur, g)
  }

  /** Raising the last entry of mark `b` starts the carry there. */
  lemma {:induction false} AdvanceStart(mask: seq<bool>, b: bool, cur: seq<int>, shape: seq<int>, pos: seq<int>, k: int)
    requires |mask| == |shape| == |cur| && pos == Positions(mask, b) && k == |pos| - 1 && k >= 0
    ensures 0 <= pos[k] < |cur|
    ensures Advancing(mask, b, cur, shape, Along(cur, mask, b)[k := Along(cur, mask, b)[k] + 1], k,
                      cur[pos[k] := cur[pos[k]] + 1])
  {
    CarryBegin(mask, b, cur, k);
    CarryStart(Along(cur, mask, b), Along(shape, mask, b), k);
  }

  /** The loop's test reads the entry the carry has reached: it equals its dimension exactly when
      the carry state does. */
  lemma {:induction false} AdvanceTest(mask: seq<bool>, b: bool, cur: seq<int>, shape: seq<int>, pos: seq<int>,
                                       g: seq<int>, k: int, next: seq<int>)
    requires pos == Positions(mask, b) && Advancing(mask, b, cur, shape, g, k, next)
    ensures 0 <= k < |pos| && 0 <= pos[k] < |next|
    ensures next[pos[k]] == shape[pos[k]] <==> g[k] == Along(shape, mask, b)[k]
  {
    ReplaceAt(mask, b, cur, g, k);
  }

  /** An entry that reached its dimension is reset, with a carry into the entry before it. */
  lemma {:induction false} AdvanceStep(mask: seq<bool>, b: bool, cur: seq<int>, shape: seq<int>, pos: seq<int>,
                                       g: seq<int>, k: int, next: seq<int>)
    requires pos == Positions(mask, b) && Advancing(mask, b, cur, shape, g, k, next)
    requires k >= 1 && g[k] == Along(shape, mask, b)[k]
    ensures 0 <= pos[k - 1] < |next| && 0 <= pos[k] < |next|
    ensures Advancing(mask, b, cur, shape, g[k - 1 := g[k - 1] + 1][k := 0], k - 1,
                      next[pos[k - 1] := next[pos[k - 1]] + 1][pos[k] := 0])
  {
    var g' := g[k - 1 := g[k - 1] + 1][k := 0];
    CarryWrite(mask, b, cur, Along(cur, mask, b), Along(shape, mask, b), g, k, g');
    assert next[pos[k - 1] := next[pos[k - 1]] + 1][pos[k] := 0] == Replace(mask, b, cur, g');
  }

  /** Once the carry stops, the whole multi-index holds the odometer's next value. */
  lemma {:induction false} AdvanceStop(mask: seq<bool>, b: bool, cur: seq<int>, shape: seq<int>, g: seq<int>,
                                       k: int, next: seq<int>)
    requires Advancing(mask, b, cur, shape, g, k, next) && (k == 0 || g[k] != Along(shape, mask, b)[k])
    ensures next == Replace(mask, b, cur, Inc(Along(cur, mask, b), Along(shape, mask, b), Count(mask, b)))
  {
    CarryStop(Along(cur, mask, b), Along(shape, mask, b), g, k);
  }

  /** Overwriting one kind of coordinate of a merged index merges the new coordinates in. */
  lemma {:induction false} ReplaceMerge(mask: seq<bool>, kc: seq<int>, sc: seq<int>, v: seq<int>, b: bool)
    requires |kc| == Count(mask, false) && |sc| == Count(mask, true) && |v| == Count(mask, b)
    ensures Replace(mask, b, Merge(mask, kc, sc), v) == if b then Merge(mask, kc, v) else Merge(mask, v, sc)
  {
    var kc', sc' := if b then kc else v, if b then v else sc;
    var r := Replace(mask, b, Merge(mask, kc, sc), v);
    forall d | 0 <= d < |mask| ensures r[d] == Merge(mask, kc', sc')[d] {
      MergeAt(mask, kc', sc', d);
      MergeAt(mask, kc, sc, d);
    }
  }

  /** Reading back one kind of coordinate of a merged index gives the coordinates merged in. */
  lemma {:induction false} AlongMerge(mask: seq<bool>, kc: seq<int>, sc: seq<int>, b: bool)
    requires |kc| == Count(mask, false) && |sc| == Count(mask, true)
    ensures Along(Merge(mask, kc, sc), mask, b) == if b then sc else kc
  {
    GatherMerge(mask, kc, sc, b);
  }

  /** The all-zero multi-index merges all-zero coordinates of both kinds. */
  lemma {:induction false} MergeZeros(mask: seq<bool>)
    ensures Merge(mask, Zeros(Count(mask, false)), Zeros(Count(mask, true))) == Zeros(|mask|)
  {
    var m := Merge(mask, Zeros(Count(mask, false)), Zeros(Count(mask, true)));
    forall d | 0 <= d < |mask| ensures m[d] == 0 {
      MergeAt(mask, Zeros(Count(mask, false)), Zeros(Count(mask, true)), d);
    }
  }

  /** The odometer over the coordinates of mark `b` of a merged index whose coordinates of that
      kind are the `t`-th multi-index of their dimensions moves them on to the `t + 1`-th. */
  lemma {:induction false} OdometerMerge(mask: seq<bool>, shape: seq<int>, b: bool, other: seq<int>, t: int)
    requires |mask| == |shape| && Positive(shape) && Count(mask, b) >= 1 && t >= 0
    requires |other| == Count(mask, !b)
    ensures var d := Along(shape, mask, b);
      var m := if b then Merge(mask, other, Lead(d, t)) else Merge(mask, Lead(d, t), other);
      Replace(mask, b, m, Inc(Along(m, mask, b), d, Count(mask, b))) ==
        if b then Merge(mask, other, Lead(d, t + 1)) else Merge(mask, Lead(d, t + 1), other)
  {
    var d := Along(shape, mask, b);
    var kc, sc := if b then other else Lead(d, t), if b then Lead(d, t) else other;
    AlongMerge(mask, kc, sc, b);
    IncLead(d, t);
    ReplaceMerge(mask, kc, sc, Lead(d, t + 1), b);
  }

  /** The odometer's loop test: the first coordinate of mark `b` is still below its dimension
      exactly while the multi-index of that kind has not run past the last one. */
  lemma {:induction false} OdometerGuard(mask: seq<bool>, shape: seq<int>, b: bool, other: seq<int>, t: int)
    requires |mask| == |shape| && Positive(shape) && Count(mask, b) >= 1 && t >= 0
    requires |other| == Count(mask, !b)
    ensures var d := Along(shape, mask, b);
      var m := if b then Merge(mask, other, Lead(d, t)) else Merge(mask, Lead(d, t), other);
      0 <= Positions(mask, b)[0] < |m| &&
      (m[Positions(mask, b)[0]] < shape[Positions(mask, b)[0]] <==> t < Product(d))
  {
    var d := Along(shape, mask, b);
    var kc, sc := if b then other else Lead(d, t), if b then Lead(d, t) else other;
    AlongMerge(mask, kc, sc, b);
    LeadFirst(d, t);
  }

  /** Once the summed coordinates have run through all their multi-indices, resetting the first
      of them zeroes them all. */
  lemma {:induction false} OdometerReset(mask: seq<bool>, shape: seq<int>, kc: seq<int>)
    requires |mask| == |shape| && Positive(shape) && Count(mask, true) >= 1
    requires |kc| == Count(mask, false)
    ensures var d := Along(shape, mask, true);
      var m := Merge(mask, kc, Lead(d, Product(d)));
      0 <= Positions(mask, true)[0] < |m| && m[Positions(mask, true)[0] := 0] == Merge(mask, kc, Zeros(|d|))
  {
    var d := Along(shape, mask, true);
    var m := Merge(mask, kc, Lead(d, Product(d)));
    AlongMerge(mask, kc, Lead(d, Product(d)), true);
    LeadEnd(d);
    ReplaceSelf(mask, true, m);
    ReplaceUpdate(mask, true, m, Along(m, mask, true), 0, 0);
    assert Along(m, mask, true)[0 := 0] == Zeros(|d|);
    ReplaceMerge(mask, kc, Lead(d, Product(d)), Zeros(|d|), true);
  }

  /** An element whose kept coordinates are `kc` and whose summed ones are the `t`-th summed
      multi-index lies inside the array. */
  lemma {:induction false} MergedOffset(shape: seq<int>, mask: seq<bool>, kc: seq<int>, t: int)
    requires Positive(shape) && |mask| == |shape| && InBounds(kc, Along(shape, mask, false))
    requires 0 <= t < Product(Along(shape, mask, true))
    ensures InBounds(Merge(mask, kc, Unflatten(Along(shape, mask, true), t)), shape)
    ensures 0 <= Offset(Merge(mask, kc, Unflatten(Along(shape, mask, true), t)), shape) < Product(shape)
  {
    var sc := Unflatten(Along(shape, mask, true), t);
    PositionsInMask(mask);
    UnflattenInBounds(Along(shape, mask, true), t);
    MergeInBounds(mask, shape, kc, sc);
    OffsetBounds(Merge(mask, kc, sc), shape);
  }

  /** The element whose kept coordinates are `kc` and whose summed coordinates are the `t`-th
      summed multi-index in row-major order. */
  function SliceItem(data: seq<real>, shape: seq<int>, mask: seq<bool>, kc: seq<int>, t: int): real
    requires Positive(shape) && |mask| == |shape| && |data| >= Product(shape)
    requires InBounds(kc, Along(shape, mask, false))
    requires 0 <= t < Product(Along(shape, mask, true))
  {
    MergedOffset(shape, mask, kc, t);
    data[Offset(Merge(mask, kc, Unflatten(Along(shape, mask, true), t)), shape)]
  }

  /** The sum of the elements whose kept coordinates are `kc`, over the first `n` summed
      multi-indices in row-major order (the order the odometer visits them, and the order in
      which the source adds them). */
  function SliceSum(data: seq<real>, shape: seq<int>, mask: seq<bool>, kc: seq<int>, n: int): real
    requires Positive(shape) && |mask| == |shape| && |data| >= Product(shape)
    requires InBounds(kc, Along(shape, mask, false))
    requires 0 <= n <= Product(Along(shape, mask, true))
  {
    if n == 0 then 0.0 else SliceSum(data, shape, mask, kc, n - 1) + SliceItem(data, shape, mask, kc, n - 1)
  }

  /** The odometer's element read: the merged index it reads is inside the array, and adding the
      element there extends the slice sum by one multi-index. */
  lemma {:induction false} SliceStep(data: seq<real>, shape: seq<int>, mask: seq<bool>, kc: seq<int>, t: int)
    requires Positive(shape) && |mask| == |shape| && |data| >= Product(shape) && Count(mask, true) >= 1
    requires InBounds(kc, Along(shape, mask, false))
    requires 0 <= t < Product(Along(shape, mask, true))
    ensures var m := Merge(mask, kc, Lead(Along(shape, mask, true), t));
      NonNegative(m) && |m| == |shape| && 0 <= Offset(m, shape) < Product(shape) &&
      SliceSum(data, shape, mask, kc, t + 1) == SliceSum(data, shape, mask, kc, t) + data[Offset(m, shape)]
  {
    LeadUnflatten(Along(shape, mask, true), t);
    MergedOffset(shape, mask, kc, t);
  }

  /** The state of the inner odometer of a sum after `t` reads: the running multi-index holds the
      kept coordinates `kc` and the `t`-th summed multi-index, and `sum` totals the first `t`
      elements of the slice. */
  ghost predicate Summing(data: seq<real>, shape: seq<int>, mask: seq<bool>, kc: seq<int>, t: int,
                          cur: seq<int>, sum: real)
  {
    Positive(shape) && |mask| == |shape| && |data| >= Product(shape) && Count(mask, true) >= 1 &&
    InBounds(kc, Along(shape, mask, false)) && 0 <= t <= Product(Along(shape, mask, true)) &&
    cur == Merge(mask, kc, Lead(Along(shape, mask, true), t)) && sum == SliceSum(data, shape, mask, kc, t)
  }

  /** The inner loop's test reads the first summed coordinate: it is below its dimension exactly
      while some summed multi-index is left. */
  lemma {:induction false} SummingGuard(data: seq<real>, shape: seq<int>, mask: seq<bool>, kc: seq<int>, t: int,
                                         cur: seq<int>, sum: real, summed: seq<int>)
    requires Summing(data, shape, mask, kc, t, cur, sum) && summed == Positions(mask, true)
    ensures |cur| == |shape| && |summed| >= 1 && 0 <= summed[0] < |cur|
    ensures cur[summed[0]] < shape[summed[0]] <==> t < Product(Along(shape, mask, true))
  {
    OdometerGuard(mask, shape, true, kc, t);
  }

  /** One round of the inner loop: the element the running multi-index points at is inside the
      buffer, and adding it and stepping the odometer reaches the state after `t + 1` reads. */
  lemma {:induction false} SummingStep(data: seq<real>, shape: seq<int>, mask: seq<bool>, kc: seq<int>, t: int,
                                        cur: seq<int>, sum: real)
    requires Summing(data, shape, mask, kc, t, cur, sum) && t < Product(Along(shape, mask, true))
    ensures |cur| == |shape| && shape[..|cur|] == shape && 0 <= Offset(cur, shape) < |data|
    ensures Summing(data, shape, mask, kc, t + 1,
      Replace(mask, true, cur, Inc(Along(cur, mask, true), Along(shape, mask, true), Count(mask, true))),
      sum + data[Offset(cur, shape)])
  {
    SliceStep(data, shape, mask, kc, t);
    OdometerMerge(mask, shape, true, kc, t);
  }

  /** After the last read the slice is summed, and resetting the first summed coordinate leaves
      the kept coordinates with all summed ones zero. */
  lemma {:induction false} SummingDone(data: seq<real>, shape: seq<int>, mask: seq<bool>, kc: seq<int>, t: int,
                                        cur: seq<int>, sum: real, summed: seq<int>)
    requires Summing(data, shape, mask, kc, t, cur, sum) && summed == Positions(mask, true)
    requires t == Product(Along(shape, mask, true))
    ensures |summed| >= 1 && 0 <= summed[0] < |cur|
    ensures cur[summed[0] := 0] == Merge(mask, kc, Zeros(Count(mask, true)))
    ensures sum == SliceSum(data, shape, mask, kc, Product(Along(shape, mask, true)))
  {
    OdometerReset(mask, shape, kc);
  }
}
