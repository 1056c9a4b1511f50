/** The labelled 2-D table: a header of column names, the name-to-column map setting the header
    builds, rows of cells, and optional row labels; projection onto named columns and the
    per-column statistics table of `Describe`. */
module DataTypes {
  import opened Wrappers
  import opened Statistics

  /** A table. Every property of the source's class is init-only, so a table is a value; the
      cells are generic so that the statistics table (whose cells may be undefined) is one too. */
  datatype DataType<T> = DataType(header: seq<string>, helper: map<string, int>, data: seq<seq<T>>,
                                  rows: Option<seq<string>>)

  // ---------------------------------------------------------------------------------------
  // The header map

  /** The map setting `Header` builds: every name to a column, the later column winning when a
      name occurs twice. */
  function HelperOf(header: seq<string>): (m: map<string, int>)
    ensures forall k :: k in m <==> k in header
  {
    if |header| == 0 then map[]
    else
      var init := header[..|header| - 1];
      var m := HelperOf(init);
      assert forall k :: k in header <==> k in init || k == header[|header| - 1];
      m[header[|header| - 1] := |header| - 1]
  }

  /** Each name of the header is mapped to its last occurrence. */
  lemma {:induction false} HelperLastOccurrence(header: seq<string>, k: string)
    requires k in header
    ensures 0 <= HelperOf(header)[k] < |header| && header[HelperOf(header)[k]] == k
    ensures forall j :: HelperOf(header)[k] < j < |header| ==> header[j] != k
  {
    var n := |header|;
    var init := header[..n - 1];
    if header[n - 1] != k {
      assert k in init by {
        var i :| 0 <= i < n && header[i] == k;
        assert init[i] == k;
      }
      HelperLastOccurrence(init, k);
    }
  }

  /** The `Header` init loop: the dictionary is filled column by column, each name overwriting
      what an earlier column with the same name stored. */
  method BuildHelper(header: seq<string>) returns (helper: map<string, int>)
    ensures helper == HelperOf(header)
  {
    helper := map[];
    var i := 0;
    while i < |header|
      invariant 0 <= i <= |header| && helper == HelperOf(header[..i])
    {
      assert header[..i + 1][..i] == header[..i];
      helper := helper[header[i] := i];
      i := i + 1;
    }
    assert header[..|header|] == header;
  }

  /** A table as an object initializer builds it: setting `Header` also builds its map. */
  function Table<T>(header: seq<string>, data: seq<seq<T>>, rows: Option<seq<string>>): (t: DataType<T>)
    ensures Valid(t)
  {
    DataType(header, HelperOf(header), data, rows)
  }

  /** The map of a table is the one its header determines. */
  predicate Valid<T>(t: DataType<T>)
  {
    t.helper == HelperOf(t.header)
  }

  // ---------------------------------------------------------------------------------------
  // Projection

  /** One row projected onto the keys, key by key: the first key the map lacks fails with that
      key, and one whose column is past the end of the row fails with an index failure. */
  function PickRow<T>(row: seq<T>, keys: seq<string>, helper: map<string, int>): (r: Result<seq<T>>)
    ensures r.Success? <==> forall c :: 0 <= c < |keys| ==> keys[c] in helper && 0 <= helper[keys[c]] < |row|
    ensures r.Success? ==> (|r.value| == |keys| &&
      forall c :: 0 <= c < |keys| ==> keys[c] in helper && 0 <= helper[keys[c]] < |row| && r.value[c] == row[helper[keys[c]]])
    ensures r.Failure? ==>
      exists c :: 0 <= c < |keys| && r.error == (if keys[c] in helper then IndexOutOfRange else KeyNotFound(keys[c]))
  {
    if |keys| == 0 then Success([])
    else if keys[0] !in helper then Failure(KeyNotFound(keys[0]))
    else if !(0 <= helper[keys[0]] < |row|) then Failure(IndexOutOfRange)
    else
      var rest := PickRow(row, keys[1..], helper);
      assert forall c :: 1 <= c < |keys| ==> keys[1..][c - 1] == keys[c];
      match rest
      case Failure(e) => Failure(e)
      case Success(cells) => Success([row[helper[keys[0]]]] + cells)
  }

  /** Every row projected in order; the first row that fails decides the failure. */
  function PickRows<T>(data: seq<seq<T>>, keys: seq<string>, helper: map<string, int>): (r: Result<seq<seq<T>>>)
    ensures r.Success? <==> forall i :: 0 <= i < |data| ==> PickRow(data[i], keys, helper).Success?
    ensures r.Success? ==> (|r.value| == |data| &&
      forall i :: 0 <= i < |data| ==> r.value[i] == PickRow(data[i], keys, helper).value)
    ensures r.Failure? ==> exists i :: 0 <= i < |data| && PickRow(data[i], keys, helper) == Failure(r.error)
  {
    if |data| == 0 then Success([])
    else
      var rest := PickRows(data[1..], keys, helper);
      assert forall i :: 1 <= i < |data| ==> data[1..][i - 1] == data[i];
      match PickRow(data[0], keys, helper)
      case Failure(e) => Failure(e)
      case Success(row) =>
        match rest
        case Failure(e) => Failure(e)
        case Success(rows) => Success([row] + rows)
  }

  /** `t[keys]`: a table headed by the keys whose every row holds, for each key, the cell of the
      column the key names; the row labels are not carried over. */
  function Project<T>(t: DataType<T>, keys: seq<string>): Result<DataType<T>>
  {
    match PickRows(t.data, keys, t.helper)
    case Failure(e) => Failure(e)
    case Success(rows) => Success(Table(keys, rows, None))
  }

  /** What a projection returns: on success a table over the keys with one row per row, each cell
      taken from the last column of that name; a key missing from the header fails as soon as
      there is a row to read, and a table without rows never looks its keys up. */
  lemma ProjectSpec<T>(t: DataType<T>, keys: seq<string>)
    requires Valid(t)
    ensures var r := Project(t, keys);
      r.Success? ==> (r.value.header == keys && Valid(r.value) && r.value.rows == None &&
        |r.value.data| == |t.data| &&
        forall i, c :: 0 <= i < |t.data| && 0 <= c < |keys| ==>
          keys[c] in t.header && |r.value.data[i]| == |keys| && 0 <= HelperOf(t.header)[keys[c]] < |t.data[i]| &&
          r.value.data[i][c] == t.data[i][HelperOf(t.header)[keys[c]]])
    ensures |t.data| == 0 ==> Project(t, keys) == Success(Table(keys, [], None))
    ensures |t.data| > 0 && (exists c :: 0 <= c < |keys| && keys[c] !in t.header) ==> Project(t, keys).Failure?
    ensures ((forall c :: 0 <= c < |keys| ==> keys[c] in t.header) &&
      (forall i :: 0 <= i < |t.data| ==> |t.data[i]| >= |t.header|)) ==> Project(t, keys).Success?
  {
    var r := PickRows(t.data, keys, t.helper);
    if |t.data| > 0 && (exists c :: 0 <= c < |keys| && keys[c] !in t.header) {
      assert !PickRow(t.data[0], keys, t.helper).Success?;
    }
    if (forall c :: 0 <= c < |keys| ==> keys[c] in t.header) &&
       (forall i :: 0 <= i < |t.data| ==> |t.data[i]| >= |t.header|) {
      forall i, c | 0 <= i < |t.data| && 0 <= c < |keys|
        ensures keys[c] in t.helper && 0 <= t.helper[keys[c]] < |t.data[i]|
      {
        HelperLastOccurrence(t.header, keys[c]);
      }
    }
  }

  // ---------------------------------------------------------------------------------------
  // Describe

  /** The statistic names `Describe` uses: the ones asked for, or all of them in the default order. */
  function DescribeNames(names: seq<string>): seq<string>
  {
    if |names| == 0 then StatisticNames else names
  }

  /** The first `k` cells of a row whose cell `j` is computed by `cell`, column by column; the
      first failure decides. */
  function Cells(cell: nat -> Result<Num>, k: nat): Result<seq<Num>>
  {
    if k == 0 then Success([])
    else match Cells(cell, k - 1)
      case Failure(e) => Failure(e)
      case Success(row) =>
        match cell(k - 1)
        case Failure(e) => Failure(e)
        case Success(v) => Success(row + [v])
  }

  /** The cells of the statistics row `name`. */
  function StatCell(name: string, data: seq<seq<real>>, sqrt: real -> real): nat -> Result<Num>
  {
    (j: nat) => Statistic(name, data, j, sqrt)
  }

  /** The first `k` cells of the statistics row `name`. */
  function StatRow(data: seq<seq<real>>, name: string, k: nat, sqrt: real -> real): Result<seq<Num>>
  {
    Cells(StatCell(name, data, sqrt), k)
  }

  /** The first `k` statistics rows over `width` columns, row by row; the first failure decides. */
  function StatRows(data: seq<seq<real>>, width: nat, names: seq<string>, k: nat, sqrt: real -> real): Result<seq<seq<Num>>>
    requires k <= |names|
  {
    if k == 0 then Success([])
    else match StatRows(data, width, names, k - 1, sqrt)
      case Failure(e) => Failure(e)
      case Success(rows) =>
        match StatRow(data, names[k - 1], width, sqrt)
        case Failure(e) => Failure(e)
        case Success(row) => Success(rows + [row])
  }

  /** What `Describe(names)` returns: the table of the statistics, one row per name, labelled
      with the names, under the same header; or the first failure in row-major order. */
  function DescribeOf(t: DataType<real>, names: seq<string>, sqrt: real -> real): Result<DataType<Num>>
  {
    var ns := DescribeNames(names);
    match StatRows(t.data, |t.header|, ns, |ns|, sqrt)
    case Failure(e) => Failure(e)
    case Success(res) => Success(Table(t.header, res, Some(ns)))
  }

  /** Once a row has failed, computing more of its cells keeps that failure. */
  lemma {:induction false} CellsFailureStays(cell: nat -> Result<Num>, k: nat, m: nat)
    requires k <= m && Cells(cell, k).Failure?
    ensures Cells(cell, m) == Cells(cell, k)
    decreases m
  {
    if m > k {
      CellsFailureStays(cell, k, m - 1);
    }
  }

  /** Once a row has failed, computing more rows keeps that failure. */
  lemma {:induction false} StatRowsFailureStays(data: seq<seq<real>>, width: nat, names: seq<string>, k: nat, m: nat,
                                                sqrt: real -> real)
    requires k <= m <= |names| && StatRows(data, width, names, k, sqrt).Failure?
    ensures StatRows(data, width, names, m, sqrt) == StatRows(data, width, names, k, sqrt)
    decreases m
  {
    if m > k {
      StatRowsFailureStays(data, width, names, k, m - 1, sqrt);
    }
  }

  /** One row of `Describe`: the statistic `name` of each of the first `width` columns, left to
      right; the first failure ends it. */
  method DescribeRow(data: seq<seq<real>>, name: string, width: nat, sqrt: real -> real) returns (r: Result<seq<Num>>)
    ensures r == StatRow(data, name, width, sqrt)
  {
    var row: seq<Num> := [];
    var j := 0;
    while j < width
      invariant 0 <= j <= width && Cells(StatCell(name, data, sqrt), j) == Success(row)
    {
      var v := Statistic(name, data, j, sqrt);
      if v.Failure? {
        CellsFailureStays(StatCell(name, data, sqrt), j + 1, width);
        return Failure(v.error);
      }
      row := row + [v.value];
      j := j + 1;
    }
    return Success(row);
  }

  /** `Describe`: the default names when none is given, then for each name and each column the
      statistic, computed in row-major order; an unknown name or a failing statistic ends it. */
  method Describe(t: DataType<real>, names: seq<string>, sqrt: real -> real) returns (r: Result<DataType<Num>>)
    ensures r == DescribeOf(t, names, sqrt)
  {
    var rows := names;
    if |rows| == 0 {
      rows := StatisticNames;
    }
    var res: seq<seq<Num>> := [];
    var i := 0;
    while i < |rows|
      invariant rows == DescribeNames(names) && 0 <= i <= |rows|
      invariant StatRows(t.data, |t.header|, rows, i, sqrt) == Success(res)
    {
      var row := DescribeRow(t.data, rows[i], |t.header|, sqrt);
      if row.Failure? {
        StatRowsFailureStays(t.data, |t.header|, rows, i + 1, |rows|, sqrt);
        return Failure(row.error);
      }
      res := res + [row.value];
      i := i + 1;
    }
    var helper := BuildHelper(t.header);
    return Success(DataType(t.header, helper, res, Some(rows)));
  }

  /** A row succeeds exactly when every one of its cells does, and then holds them. */
  lemma {:induction false} CellsSpec(cell: nat -> Result<Num>, k: nat)
    ensures Cells(cell, k).Success? <==> forall j :: 0 <= j < k ==> cell(j).Success?
    ensures Cells(cell, k).Success? ==> (|Cells(cell, k).value| == k &&
      forall j :: 0 <= j < k ==> Cells(cell, k).value[j] == cell(j).value)
  {
    if k > 0 {
      CellsSpec(cell, k - 1);
    }
  }

  /** The statistics rows succeed exactly when every row does, and then hold them. */
  lemma {:induction false} StatRowsCells(data: seq<seq<real>>, width: nat, names: seq<string>, k: nat, sqrt: real -> real)
    requires k <= |names|
    ensures StatRows(data, width, names, k, sqrt).Success? <==>
      forall i :: 0 <= i < k ==> StatRow(data, names[i], width, sqrt).Success?
    ensures StatRows(data, width, names, k, sqrt).Success? ==> (|StatRows(data, width, names, k, sqrt).value| == k &&
      forall i :: 0 <= i < k ==> StatRows(data, width, names, k, sqrt).value[i] == StatRow(data, names[i], width, sqrt).value)
  {
    if k > 0 {
      StatRowsCells(data, width, names, k - 1, sqrt);
    }
  }

  /** `Describe` succeeds exactly when every statistic asked for (the eight defaults when none
      is given) succeeds on every column. */
  lemma DescribeSucceeds(t: DataType<real>, names: seq<string>, sqrt: real -> real)
    ensures var ns := DescribeNames(names);
      DescribeOf(t, names, sqrt).Success? <==>
      forall i, j :: 0 <= i < |ns| && 0 <= j < |t.header| ==> Statistic(ns[i], t.data, j, sqrt).Success?
  {
    var ns := DescribeNames(names);
    StatRowsCells(t.data, |t.header|, ns, |ns|, sqrt);
    forall i | 0 <= i < |ns| {
      CellsSpec(StatCell(ns[i], t.data, sqrt), |t.header|);
    }
  }

  /** What a successful `Describe` returns: one row per statistic name, labelled with the names,
      each with one cell per column holding that statistic of that column, under the same
      header. */
  lemma DescribeSpec(t: DataType<real>, names: seq<string>, sqrt: real -> real)
    requires DescribeOf(t, names, sqrt).Success?
    ensures var ns := DescribeNames(names);
      var d := DescribeOf(t, names, sqrt).value;
      d.header == t.header && Valid(d) && d.rows == Some(ns) && |d.data| == |ns| &&
      forall i, j :: 0 <= i < |ns| && 0 <= j < |t.header| ==>
        |d.data[i]| == |t.header| && Statistic(ns[i], t.data, j, sqrt) == Success(d.data[i][j])
  {
    var ns := DescribeNames(names);
    StatRowsCells(t.data, |t.header|, ns, |ns|, sqrt);
    forall i | 0 <= i < |ns| {
      CellsSpec(StatCell(ns[i], t.data, sqrt), |t.header|);
    }
  }

  /** Without names `Describe` uses the eight defaults; a name outside them fails as soon as the
      table has a column, and is never looked up when it has none. */
  lemma DescribeNamesSpec(t: DataType<real>, names: seq<string>, sqrt: real -> real)
    ensures |names| == 0 ==> DescribeNames(names) == StatisticNames
    ensures |t.header| > 0 && (exists i :: 0 <= i < |names| && names[i] !in StatisticNames) ==> DescribeOf(t, names, sqrt).Failure?
    ensures |t.header| == 0 ==> DescribeOf(t, names, sqrt).Success?
  {
    var ns := DescribeNames(names);
    DescribeSucceeds(t, names, sqrt);
    if |t.header| > 0 && (exists i :: 0 <= i < |names| && names[i] !in StatisticNames) {
      var i :| 0 <= i < |names| && names[i] !in StatisticNames;
      UnknownStatistic(ns[i], t.data, 0, sqrt);
    }
  }
}
