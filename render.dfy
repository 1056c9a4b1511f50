/** The text form of a table (`ToString` and `GetTable`): a label column and one column per
    header name, every field centred in its column's width and fields separated by tabs, one
    line for the header and one per data row. How a cell is written as text and how a line ends
    are parameters. */
module Rendering {
  import opened Wrappers
  import opened Statistics
  import opened DataTypes
  import opened Strings

  // ---------------------------------------------------------------------------------------
  // Decimal text of integers (`int.ToString()`)

  function DigitChar(d: nat): (c: char)
    requires d < 10
    ensures '0' <= c <= '9' && c as int - '0' as int == d
  {
    ('0' as int + d) as char
  }

  /** The decimal digits of `n`, most significant first, without leading zeros. */
  function Digits(n: nat): (s: string)
    ensures |s| >= 1 && forall c :: 0 <= c < |s| ==> '0' <= s[c] <= '9'
    ensures |s| > 1 ==> s[0] != '0'
  {
    if n < 10 then [DigitChar(n)] else Digits(n / 10) + [DigitChar(n % 10)]
  }

  /** The number a string of decimal digits denotes: the reference reading of `Digits`. */
  function DecimalValue(s: string): int
  {
    if |s| == 0 then 0 else DecimalValue(s[..|s| - 1]) * 10 + (s[|s| - 1] as int - '0' as int)
  }

  /** Reading the digits of `n` back gives `n`. */
  lemma {:induction false} DigitsValue(n: nat)
    ensures DecimalValue(Digits(n)) == n
  {
    if n >= 10 {
      DigitsValue(n / 10);
      var s := Digits(n);
      assert s[..|s| - 1] == Digits(n / 10);
    }
  }

  /** A larger number never has fewer digits. */
  lemma {:induction false} DigitsMonotone(a: nat, b: nat)
    requires a <= b
    ensures |Digits(a)| <= |Digits(b)|
  {
    if a >= 10 {
      DigitsMonotone(a / 10, b / 10);
    }
  }

  /** The text of an integer: a minus sign before the digits of a negative one. */
  function IntString(i: int): string
  {
    if i < 0 then "-" + Digits(-i) else Digits(i)
  }

  /** The text of an integer starts with a minus sign exactly when it is negative, and reads
      back as that integer. */
  lemma IntStringValue(i: int)
    ensures var s := IntString(i);
      |s| >= 1 && (s[0] == '-' <==> i < 0) &&
      (if i < 0 then -DecimalValue(s[1..]) else DecimalValue(s)) == i
  {
    if i < 0 {
      DigitsValue(-i);
      assert IntString(i)[1..] == Digits(-i);
    } else {
      DigitsValue(i);
    }
  }

  // ---------------------------------------------------------------------------------------
  // Padding and centring

  function Spaces(k: nat): (s: string)
    ensures |s| == k && forall c :: 0 <= c < k ==> s[c] == ' '
  {
    seq(k, _ => ' ')
  }

  /** `string.PadLeft`: spaces before `s` up to `total` characters; a longer `s` is kept. */
  function PadLeft(s: string, total: nat): string
  {
    if total <= |s| then s else Spaces(total - |s|) + s
  }

  /** `string.PadRight`: spaces after `s` up to `total` characters; a longer `s` is kept. */
  function PadRight(s: string, total: nat): string
  {
    if total <= |s| then s else s + Spaces(total - |s|)
  }

  /** `GetCenterString`: `str` centred in `length` characters; a string longer than `length` is
      returned as it is. */
  function CenterString(str: string, length: nat): (r: string)
    ensures length >= |str| ==> |r| == length
    ensures length < |str| ==> r == str
  {
    var leftPad := Quot(length - |str|, 2) + |str|;
    assert leftPad >= 0 && (length < |str| ==> leftPad <= |str|);
    PadRight(PadLeft(str, leftPad), length)
  }

  /** A string that fits is preceded by half the spare room (rounded down) and followed by the
      rest, so the odd space goes to the right. */
  lemma CenterLayout(str: string, length: nat)
    requires length >= |str|
    ensures var left := (length - |str|) / 2;
      var right := length - |str| - left;
      CenterString(str, length) == Spaces(left) + str + Spaces(right) && left <= right <= left + 1
  {
    var left := (length - |str|) / 2;
    assert Quot(length - |str|, 2) == left;
    if left + |str| < length {
      assert Spaces(left) + str + Spaces(length - |str| - left) == PadLeft(str, left + |str|) + Spaces(length - (left + |str|));
    }
  }

  // ---------------------------------------------------------------------------------------
  // Column widths

  function Max(a: nat, b: nat): nat
  {
    if a >= b then a else b
  }

  /** Every row has a cell under every header name. */
  predicate RowsCover<T>(t: DataType<T>)
  {
    forall j :: 0 <= j < |t.data| ==> |t.data[j]| >= |t.header|
  }

  /** The widest text in column `i` among its name and the cells of the first `k` rows, before
      the margin is added (a row without a cell there, which `GetTable` fails on, adds nothing). */
  function ColumnMax<T>(name: string, data: seq<seq<T>>, fmt: T -> string, i: nat, k: nat): (w: nat)
    requires k <= |data|
    ensures w >= |name| && forall j :: 0 <= j < k && i < |data[j]| ==> w >= |fmt(data[j][i])|
    ensures w == |name| || exists j :: 0 <= j < k && i < |data[j]| && w == |fmt(data[j][i])|
  {
    if k == 0 then |name|
    else if i < |data[k - 1]| then Max(ColumnMax(name, data, fmt, i, k - 1), |fmt(data[k - 1][i])|)
    else ColumnMax(name, data, fmt, i, k - 1)
  }

  /** The width of the label column: the text of the last row index plus a margin of two on
      each side. */
  function LabelWidth(n: nat): nat
  {
    |IntString(n - 1)| + 4
  }

  /** The widths `GetTable` lays the table out with: the label column first, then every data
      column as wide as its widest text plus two. */
  function Widths<T>(t: DataType<T>, fmt: T -> string): (w: seq<nat>)
    ensures |w| == |t.header| + 1 && w[0] == LabelWidth(|t.data|)
    ensures forall c :: 1 <= c <= |t.header| ==> w[c] == ColumnMax(t.header[c - 1], t.data, fmt, c - 1, |t.data|) + 2
  {
    seq(|t.header| + 1, (c: int) requires 0 <= c <= |t.header| =>
      if c == 0 then LabelWidth(|t.data|) else ColumnMax(t.header[c - 1], t.data, fmt, c - 1, |t.data|) + 2)
  }

  /** Each data column is wider by two than its name and than every one of its cells' texts,
      and as narrow as that allows; the label column is four wider than the last row index. */
  lemma WidthsSpec<T>(t: DataType<T>, fmt: T -> string)
    requires RowsCover(t)
    ensures Widths(t, fmt)[0] == |IntString(|t.data| - 1)| + 4
    ensures forall c :: 1 <= c <= |t.header| ==> Widths(t, fmt)[c] >= |t.header[c - 1]| + 2
    ensures forall c, j :: 1 <= c <= |t.header| && 0 <= j < |t.data| ==> Widths(t, fmt)[c] >= |fmt(t.data[j][c - 1])| + 2
    ensures forall c :: 1 <= c <= |t.header| ==>
      Widths(t, fmt)[c] == |t.header[c - 1]| + 2 ||
      exists j :: 0 <= j < |t.data| && Widths(t, fmt)[c] == |fmt(t.data[j][c - 1])| + 2
  {
  }

  // ---------------------------------------------------------------------------------------
  // Lines and the whole text

  /** A label and the first `k` cells, each centred in its width, the cells each after a tab. */
  function Fields(title: string, cells: seq<string>, w: seq<nat>, k: nat): string
    requires k <= |cells| && |w| == |cells| + 1
  {
    if k == 0 then CenterString(title, w[0])
    else Fields(title, cells, w, k - 1) + ("\t" + CenterString(cells[k - 1], w[k]))
  }

  /** The texts of the first `m` cells of a row. */
  function Texts<T>(row: seq<T>, fmt: T -> string, m: nat): (r: seq<string>)
    requires m <= |row|
    ensures |r| == m && forall j :: 0 <= j < m ==> r[j] == fmt(row[j])
  {
    seq(m, (j: int) requires 0 <= j < m => fmt(row[j]))
  }

  /** The fields of line `i` of the table: the header line first, then the rows. */
  function LineFields<T>(t: DataType<T>, labels: seq<string>, fmt: T -> string, w: seq<nat>, i: nat): string
    requires RowsCover(t) && i <= |t.data| && i <= |labels| && |w| == |t.header| + 1
  {
    if i == 0 then Fields("", t.header, w, |t.header|)
    else Fields(labels[i - 1], Texts(t.data[i - 1], fmt, |t.header|), w, |t.header|)
  }

  /** The header line and the lines of the first `k` rows, each line its fields and the line
      terminator. */
  function LinesOf<T>(t: DataType<T>, labels: seq<string>, fmt: T -> string, w: seq<nat>, eol: string, k: nat)
    : (ls: seq<string>)
    requires RowsCover(t) && k <= |t.data| && k <= |labels| && |w| == |t.header| + 1
    ensures |ls| == k + 1
    ensures forall i :: 0 <= i <= k ==> ls[i] == LineFields(t, labels, fmt, w, i) + eol
  {
    seq(k + 1, (i: int) requires 0 <= i <= k => LineFields(t, labels, fmt, w, i) + eol)
  }

  /** What `GetTable(labels)` returns: the text of the table, or an index failure when a row has
      fewer cells than there are header names or there are fewer labels than rows. */
  function TableOf<T>(t: DataType<T>, labels: seq<string>, fmt: T -> string, eol: string): Result<string>
  {
    if !RowsCover(t) || |labels| < |t.data| then Failure(IndexOutOfRange)
    else Success(Concat(LinesOf(t, labels, fmt, Widths(t, fmt), eol, |t.data|)))
  }

  /** The labels `ToString` uses: the table's own, or the row indices. */
  function LabelsOf<T>(t: DataType<T>): seq<string>
  {
    match t.rows
    case Some(rows) => rows
    case None => DefaultLabels(|t.data|)
  }

  function DefaultLabels(n: nat): (r: seq<string>)
    ensures |r| == n && forall i :: 0 <= i < n ==> r[i] == IntString(i)
  {
    seq(n, (i: int) => IntString(i))
  }

  // ---------------------------------------------------------------------------------------
  // The layout

  /** The text of the header line alone. */
  lemma FirstLine<T>(t: DataType<T>, labels: seq<string>, fmt: T -> string, w: seq<nat>, eol: string)
    requires RowsCover(t) && |w| == |t.header| + 1
    ensures Concat(LinesOf(t, labels, fmt, w, eol, 0)) == LineFields(t, labels, fmt, w, 0) + eol
  {
    var line := LineFields(t, labels, fmt, w, 0) + eol;
    assert LinesOf(t, labels, fmt, w, eol, 0) == [] + [line];
    ConcatSnoc([], line);
  }

  /** One more row adds its line at the end of the text. */
  lemma LinesOfStep<T>(t: DataType<T>, labels: seq<string>, fmt: T -> string, w: seq<nat>, eol: string, k: nat)
    requires RowsCover(t) && k < |t.data| && k < |labels| && |w| == |t.header| + 1
    ensures Concat(LinesOf(t, labels, fmt, w, eol, k + 1))
         == Concat(LinesOf(t, labels, fmt, w, eol, k)) + (LineFields(t, labels, fmt, w, k + 1) + eol)
  {
    var ls := LinesOf(t, labels, fmt, w, eol, k);
    var line := LineFields(t, labels, fmt, w, k + 1) + eol;
    assert LinesOf(t, labels, fmt, w, eol, k + 1) == ls + [line];
    ConcatSnoc(ls, line);
  }

  /** The table text is its `1 + |data|` lines in order, each ending with the line terminator. */
  lemma TableLines<T>(t: DataType<T>, labels: seq<string>, fmt: T -> string, eol: string)
    requires TableOf(t, labels, fmt, eol).Success?
    ensures var ls := LinesOf(t, labels, fmt, Widths(t, fmt), eol, |t.data|);
      TableOf(t, labels, fmt, eol).value == Concat(ls) && |ls| == |t.data| + 1 &&
      forall i :: 0 <= i < |ls| ==> ls[i][|ls[i]| - |eol|..] == eol
  {
    var ls := LinesOf(t, labels, fmt, Widths(t, fmt), eol, |t.data|);
    forall i | 0 <= i < |ls|
      ensures ls[i][|ls[i]| - |eol|..] == eol
    {
      var f := LineFields(t, labels, fmt, Widths(t, fmt), i);
      assert ls[i] == f + eol;
      assert (f + eol)[|f|..] == eol;
    }
  }

  /** The width of a line whose first `k` fields fit: the label column, then a tab and the
      width of each data column. */
  function RowWidth(w: seq<nat>, k: nat): nat
    requires k < |w|
  {
    if k == 0 then w[0] else RowWidth(w, k - 1) + 1 + w[k]
  }

  /** The label and every cell are no longer than their columns' widths. */
  predicate Fits(title: string, cells: seq<string>, w: seq<nat>)
    requires |w| == |cells| + 1
  {
    |title| <= w[0] && forall c :: 1 <= c <= |cells| ==> |cells[c - 1]| <= w[c]
  }

  /** When every field fits, the fields take exactly their columns' widths and the tabs. */
  lemma {:induction false} FieldsLength(title: string, cells: seq<string>, w: seq<nat>, k: nat)
    requires k <= |cells| && |w| == |cells| + 1 && Fits(title, cells, w)
    ensures |Fields(title, cells, w, k)| == RowWidth(w, k)
  {
    if k > 0 {
      FieldsLength(title, cells, w, k - 1);
    }
  }

  /** Row `j` labelled with its index fits the widths. */
  lemma IndexRowFits<T>(t: DataType<T>, fmt: T -> string, j: nat)
    requires RowsCover(t) && j < |t.data|
    ensures Fits(IntString(j), Texts(t.data[j], fmt, |t.header|), Widths(t, fmt))
  {
    var w := Widths(t, fmt);
    var cells := Texts(t.data[j], fmt, |t.header|);
    LabelFits(j, |t.data|);
    forall c | 1 <= c <= |t.header|
      ensures |cells[c - 1]| <= w[c]
    {
      assert cells[c - 1] == fmt(t.data[j][c - 1]);
      assert ColumnMax(t.header[c - 1], t.data, fmt, c - 1, |t.data|) >= |fmt(t.data[j][c - 1])|;
    }
  }

  /** The index of a row is no longer than the index of the last row. */
  lemma LabelFits(j: nat, n: nat)
    requires j < n
    ensures |IntString(j)| + 4 <= LabelWidth(n)
  {
    DigitsMonotone(j, n - 1);
  }

  /** The header line takes the full width. */
  lemma HeaderLineWidth<T>(t: DataType<T>, fmt: T -> string)
    requires RowsCover(t)
    ensures var w := Widths(t, fmt);
      |LineFields(t, DefaultLabels(|t.data|), fmt, w, 0)| == RowWidth(w, |t.header|)
  {
    var w := Widths(t, fmt);
    WidthsSpec(t, fmt);
    FieldsLength("", t.header, w, |t.header|);
  }

  /** The line of row `j`, labelled with its index, takes the full width. */
  lemma RowLineWidth<T>(t: DataType<T>, fmt: T -> string, j: nat)
    requires RowsCover(t) && j < |t.data|
    ensures var w := Widths(t, fmt);
      |LineFields(t, DefaultLabels(|t.data|), fmt, w, j + 1)| == RowWidth(w, |t.header|)
  {
    var w := Widths(t, fmt);
    var labels := DefaultLabels(|t.data|);
    assert labels[j] == IntString(j);
    IndexRowFits(t, fmt, j);
    FieldsLength(IntString(j), Texts(t.data[j], fmt, |t.header|), w, |t.header|);
  }

  /** With the row indices as labels every line of the table is equally long: the index labels
      fit the label column (it is sized for the longest of them) and every header name and
      cell fits its column. */
  lemma DefaultLayout<T>(t: DataType<T>, fmt: T -> string, eol: string)
    requires RowsCover(t)
    ensures var w := Widths(t, fmt);
      var ls := LinesOf(t, DefaultLabels(|t.data|), fmt, w, eol, |t.data|);
      forall i :: 0 <= i < |ls| ==> |ls[i]| == RowWidth(w, |t.header|) + |eol|
  {
    var w := Widths(t, fmt);
    var labels := DefaultLabels(|t.data|);
    var ls := LinesOf(t, labels, fmt, w, eol, |t.data|);
    forall i | 0 <= i < |ls|
      ensures |ls[i]| == RowWidth(w, |t.header|) + |eol|
    {
      if i == 0 {
        HeaderLineWidth(t, fmt);
      } else {
        RowLineWidth(t, fmt, i - 1);
      }
    }
  }

  /** How many tabs a string holds. */
  function TabCount(s: string): nat
  {
    if |s| == 0 then 0 else TabCount(s[..|s| - 1]) + (if s[|s| - 1] == '\t' then 1 else 0)
  }

  predicate TabFree(s: string)
  {
    forall c :: 0 <= c < |s| ==> s[c] != '\t'
  }

  lemma {:induction false} TabCountAppend(a: string, b: string)
    ensures TabCount(a + b) == TabCount(a) + TabCount(b)
    decreases |b|
  {
    if |b| == 0 {
      assert a + b == a;
    } else {
      assert (a + b)[..|a + b| - 1] == a + b[..|b| - 1];
      TabCountAppend(a, b[..|b| - 1]);
    }
  }

  /** A tab-free string centred is still tab-free, so it holds no tab. */
  lemma {:induction false} CenteredTabs(s: string, length: nat)
    requires TabFree(s)
    ensures TabCount(CenterString(s, length)) == 0
  {
    var r := CenterString(s, length);
    if length >= |s| {
      CenterLayout(s, length);
    }
    assert TabFree(r);
    TabFreeCount(r);
  }

  lemma {:induction false} TabFreeCount(s: string)
    requires TabFree(s)
    ensures TabCount(s) == 0
  {
    if |s| > 0 {
      TabFreeCount(s[..|s| - 1]);
    }
  }

  /** A tab between two strings adds one to their tabs. */
  lemma Separated(f: string, x: string)
    ensures TabCount(f + ("\t" + x)) == TabCount(f) + 1 + TabCount(x)
  {
    TabCountAppend("\t", x);
    TabCountAppend(f, "\t" + x);
    assert "\t"[..0] == [];
  }

  /** When the label and the cells hold no tab, the first `k` fields hold exactly `k` tabs, the
      separators. */
  lemma {:induction false} FieldsTabs(title: string, cells: seq<string>, w: seq<nat>, k: nat)
    requires k <= |cells| && |w| == |cells| + 1
    requires TabFree(title) && forall c :: 0 <= c < |cells| ==> TabFree(cells[c])
    ensures TabCount(Fields(title, cells, w, k)) == k
  {
    if k == 0 {
      CenteredTabs(title, w[0]);
    } else {
      FieldsTabs(title, cells, w, k - 1);
      CenteredTabs(cells[k - 1], w[k]);
      Separated(Fields(title, cells, w, k - 1), CenterString(cells[k - 1], w[k]));
    }
  }

  /** When no label, header name or cell text holds a tab, every line of the table holds exactly
      as many tabs as there are header names. */
  lemma TableTabs<T>(t: DataType<T>, labels: seq<string>, fmt: T -> string, w: seq<nat>)
    requires RowsCover(t) && |t.data| <= |labels| && |w| == |t.header| + 1
    requires forall i :: 0 <= i < |labels| ==> TabFree(labels[i])
    requires forall c :: 0 <= c < |t.header| ==> TabFree(t.header[c])
    requires forall j, c :: 0 <= j < |t.data| && 0 <= c < |t.data[j]| ==> TabFree(fmt(t.data[j][c]))
    ensures forall i :: 0 <= i <= |t.data| ==> TabCount(LineFields(t, labels, fmt, w, i)) == |t.header|
  {
    forall i | 0 <= i <= |t.data|
      ensures TabCount(LineFields(t, labels, fmt, w, i)) == |t.header|
    {
      if i == 0 {
        FieldsTabs("", t.header, w, |t.header|);
      } else {
        FieldsTabs(labels[i - 1], Texts(t.data[i - 1], fmt, |t.header|), w, |t.header|);
      }
    }
  }

  /** The row indices hold only digits (and a minus sign), so no tab. */
  lemma DefaultLabelsTabFree(n: nat)
    ensures forall i :: 0 <= i < n ==> TabFree(DefaultLabels(n)[i])
  {
    forall i | 0 <= i < n
      ensures TabFree(DefaultLabels(n)[i])
    {
      var d := Digits(i);
      assert DefaultLabels(n)[i] == d;
      assert forall c :: 0 <= c < |d| ==> '0' <= d[c] <= '9';
    }
  }

  // ---------------------------------------------------------------------------------------
  // The methods

  /** The fields of one line, appended one after the other. */
  method AppendFields(title: string, cells: seq<string>, w: array<nat>) returns (line: string)
    requires w.Length == |cells| + 1
    ensures line == Fields(title, cells, w[..], |cells|)
  {
    line := CenterString(title, w[0]);
    var c := 0;
    while c < |cells|
      invariant 0 <= c <= |cells| && line == Fields(title, cells, w[..], c)
    {
      line := line + ("\t" + CenterString(cells[c], w[c + 1]));
      c := c + 1;
    }
  }

  /** Measuring data column `i`: its width starts at its name's length and grows to the longest
      text of its cells; a row too short for the column fails. */
  method MeasureColumn<T>(t: DataType<T>, fmt: T -> string, columnLength: array<nat>, i: nat) returns (ok: bool)
    requires i < |t.header| && columnLength.Length == |t.header| + 1
    modifies columnLength
    ensures ok <==> forall j :: 0 <= j < |t.data| ==> i < |t.data[j]|
    ensures ok ==> columnLength[..] == old(columnLength[..])[i + 1 := ColumnMax(t.header[i], t.data, fmt, i, |t.data|)]
  {
    ghost var before := columnLength[..];
    columnLength[i + 1] := |t.header[i]|;
    var j := 0;
    while j < |t.data|
      invariant 0 <= j <= |t.data| && forall jj :: 0 <= jj < j ==> i < |t.data[jj]|
      invariant columnLength[..] == before[i + 1 := ColumnMax(t.header[i], t.data, fmt, i, j)]
    {
      if |t.data[j]| <= i {
        return false;
      }
      columnLength[i + 1] := Max(columnLength[i + 1], |fmt(t.data[j][i])|);
      j := j + 1;
    }
    return true;
  }

  /** Measuring every data column, left to right; a row too short for a column fails. */
  method MeasureColumns<T>(t: DataType<T>, fmt: T -> string, columnLength: array<nat>) returns (ok: bool)
    requires columnLength.Length == |t.header| + 1
    modifies columnLength
    ensures ok <==> RowsCover(t)
    ensures ok ==> (columnLength[0] == old(columnLength[0]) &&
      forall c :: 1 <= c <= |t.header| ==> columnLength[c] == ColumnMax(t.header[c - 1], t.data, fmt, c - 1, |t.data|))
  {
    var i := 0;
    while i < |t.header|
      invariant 0 <= i <= |t.header| && columnLength[0] == old(columnLength[0])
      invariant forall j :: 0 <= j < |t.data| ==> i <= |t.data[j]|
      invariant forall c :: 1 <= c <= i ==> columnLength[c] == ColumnMax(t.header[c - 1], t.data, fmt, c - 1, |t.data|)
    {
      ok := MeasureColumn(t, fmt, columnLength, i);
      if !ok {
        return;
      }
      i := i + 1;
    }
    return true;
  }

  /** Adding the margin of two to every width. */
  method AddMargins(columnLength: array<nat>)
    modifies columnLength
    ensures forall c :: 0 <= c < columnLength.Length ==> columnLength[c] == old(columnLength[c]) + 2
  {
    var c := 0;
    while c < columnLength.Length
      invariant 0 <= c <= columnLength.Length
      invariant forall k :: 0 <= k < c ==> columnLength[k] == old(columnLength[k]) + 2
      invariant forall k :: c <= k < columnLength.Length ==> columnLength[k] == old(columnLength[k])
    {
      columnLength[c] := columnLength[c] + 2;
      c := c + 1;
    }
  }

  /** The measuring half of `GetTable`: the label column sized for the last row index, the data
      columns measured, then the margins added. */
  method Layout<T>(t: DataType<T>, fmt: T -> string) returns (columnLength: array<nat>, ok: bool)
    ensures columnLength.Length == |t.header| + 1
    ensures ok <==> RowsCover(t)
    ensures ok ==> columnLength[..] == Widths(t, fmt)
  {
    columnLength := new nat[|t.header| + 1];
    columnLength[0] := |IntString(|t.data| - 1)| + 2;
    ok := MeasureColumns(t, fmt, columnLength);
    if ok {
      AddMargins(columnLength);
      assert forall c :: 0 <= c < columnLength.Length ==> columnLength[..][c] == Widths(t, fmt)[c];
    }
  }

  /** The line of row `i`: its label, its cells under the header, the line terminator. */
  method WriteRow<T>(t: DataType<T>, labels: seq<string>, fmt: T -> string, columnLength: array<nat>, eol: string,
                     i: nat) returns (line: string)
    requires RowsCover(t) && i < |t.data| && i < |labels| && columnLength.Length == |t.header| + 1
    ensures line == LineFields(t, labels, fmt, columnLength[..], i + 1) + eol
  {
    var fields := AppendFields(labels[i], Texts(t.data[i], fmt, |t.header|), columnLength);
    line := fields + eol;
  }

  /** The writing half of `GetTable`: the header line, then one line per row; a row without a
      label fails. */
  method WriteLines<T>(t: DataType<T>, labels: seq<string>, fmt: T -> string, columnLength: array<nat>, eol: string)
    returns (r: Result<string>)
    requires RowsCover(t) && columnLength.Length == |t.header| + 1
    ensures |labels| < |t.data| ==> r == Failure(IndexOutOfRange)
    ensures |labels| >= |t.data| ==> r == Success(Concat(LinesOf(t, labels, fmt, columnLength[..], eol, |t.data|)))
  {
    if |labels| < |t.data| {
      return Failure(IndexOutOfRange);
    }
    ghost var w := columnLength[..];
    var res := AppendFields("", t.header, columnLength);
    res := res + eol;
    FirstLine(t, labels, fmt, w, eol);
    var i := 0;
    while i < |t.data|
      invariant 0 <= i <= |t.data|
      invariant res == Concat(LinesOf(t, labels, fmt, w, eol, i))
    {
      var line := WriteRow(t, labels, fmt, columnLength, eol, i);
      LinesOfStep(t, labels, fmt, w, eol, i);
      res := res + line;
      i := i + 1;
    }
    return Success(res);
  }

  /** `GetTable(labels)`: measure the columns, add the margins, then write the header line and
      one line per row. */
  method GetTable<T>(t: DataType<T>, labels: seq<string>, fmt: T -> string, eol: string) returns (r: Result<string>)
    ensures r == TableOf(t, labels, fmt, eol)
  {
    var columnLength, ok := Layout(t, fmt);
    if !ok {
      return Failure(IndexOutOfRange);
    }
    r := WriteLines(t, labels, fmt, columnLength, eol);
  }

  /** `ToString`: the table with its own labels, or the row indices when it has none. */
  method ToString<T>(t: DataType<T>, fmt: T -> string, eol: string) returns (r: Result<string>)
    ensures r == TableOf(t, LabelsOf(t), fmt, eol)
  {
    var labels := if t.rows.Some? then t.rows.value else DefaultLabels(|t.data|);
    r := GetTable(t, labels, fmt, eol);
  }
}
