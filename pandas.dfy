/** The text-to-table step of `ReadCsv`: the text is cut into lines at line feeds and every line
    into tokens at tabs, empty pieces dropped; the first line's tokens are the header and every
    other line's tokens, each read as a number, a row. Reading the file or URL is not part of
    this model: the text is a parameter, and so is the number parser. */
module Pandas {
  import opened Wrappers
  import opened DataTypes
  import opened Strings

  // ---------------------------------------------------------------------------------------
  // Splitting with empty entries removed

  /** The pieces of `s` between separators, after the piece `cur` already gathered; empty pieces
      are dropped. */
  function SplitFrom(s: string, sep: char, cur: string): (r: seq<string>)
    requires sep !in cur
    ensures forall i :: 0 <= i < |r| ==> |r[i]| > 0 && sep !in r[i]
    ensures forall i, k :: 0 <= i < |r| && 0 <= k < |r[i]| ==> r[i][k] in cur || r[i][k] in s
    ensures Concat(r) == cur + Remove(s, sep)
    decreases |s|
  {
    if |s| == 0 then
      (if |cur| == 0 then [] else assert Concat([cur]) == cur by { assert [cur][..0] == []; } [cur])
    else if s[0] == sep then
      var rest := SplitFrom(s[1..], sep, []);
      ConcatAppend(if |cur| == 0 then [] else [cur], rest);
      assert Concat([cur]) == cur by { assert [cur][..0] == []; }
      (if |cur| == 0 then [] else [cur]) + rest
    else
      var r := SplitFrom(s[1..], sep, cur + [s[0]]);
      assert forall ch :: ch in s[1..] ==> ch in s;
      r
  }

  /** `s` without its separators: the reference for what the pieces of `Split` hold. */
  function Remove(s: string, sep: char): string
  {
    if |s| == 0 then [] else (if s[0] == sep then [] else [s[0]]) + Remove(s[1..], sep)
  }

  /** `s.Split(sep, StringSplitOptions.RemoveEmptyEntries)`: the maximal runs of characters other
      than `sep`, in order. No piece is empty or holds `sep`, every character of a piece comes
      from `s`, and the pieces written end to end are `s` without its separators. */
  function Split(s: string, sep: char): (r: seq<string>)
    ensures forall i :: 0 <= i < |r| ==> |r[i]| > 0 && sep !in r[i]
    ensures forall i, k :: 0 <= i < |r| && 0 <= k < |r[i]| ==> r[i][k] in s
    ensures Concat(r) == Remove(s, sep)
  {
    SplitFrom(s, sep, [])
  }

  /** The pieces separated by single separators: the inverse `Split` undoes. */
  function Join(ts: seq<string>, sep: char): string
  {
    if |ts| == 0 then [] else if |ts| == 1 then ts[0] else ts[0] + ([sep] + Join(ts[1..], sep))
  }

  /** A piece free of separators joins the piece being gathered. */
  lemma {:induction false} SplitPiece(x: string, s: string, sep: char, cur: string)
    requires sep !in cur && sep !in x
    ensures SplitFrom(x + s, sep, cur) == SplitFrom(s, sep, cur + x)
    decreases |x|
  {
    if |x| == 0 {
      assert x + s == s && cur + x == cur;
    } else {
      assert (x + s)[0] == x[0] && (x + s)[1..] == x[1..] + s;
      assert (cur + [x[0]]) + x[1..] == cur + x;
      SplitPiece(x[1..], s, sep, cur + [x[0]]);
    }
  }

  /** Splitting the pieces joined back gives the same pieces, when none is empty or holds the
      separator. */
  lemma {:induction false} SplitJoin(ts: seq<string>, sep: char)
    requires forall i :: 0 <= i < |ts| ==> |ts[i]| > 0 && sep !in ts[i]
    ensures Split(Join(ts, sep), sep) == ts
  {
    if |ts| == 1 {
      SplitPiece(ts[0], [], sep, []);
      assert ts[0] + [] == ts[0] && [] + ts[0] == ts[0];
    } else if |ts| > 1 {
      var rest := Join(ts[1..], sep);
      SplitJoin(ts[1..], sep);
      SplitPiece(ts[0], [sep] + rest, sep, []);
      assert [] + ts[0] == ts[0];
      assert ([sep] + rest)[1..] == rest;
      assert [ts[0]] + ts[1..] == ts;
    }
  }

  // ---------------------------------------------------------------------------------------
  // From text to table

  /** The tokens of every non-empty line of the text, in order. */
  function TokenLines(text: string): (r: seq<seq<string>>)
    ensures |r| == |Split(text, '\n')|
    ensures forall i :: 0 <= i < |r| ==> r[i] == Split(Split(text, '\n')[i], '\t')
  {
    var lines := Split(text, '\n');
    seq(|lines|, (i: int) requires 0 <= i < |lines| => Split(lines[i], '\t'))
  }

  /** Reading the tokens of one row as numbers; the first token the parser rejects fails. */
  function ParseRow(tokens: seq<string>, parse: string -> Option<real>): (r: Result<seq<real>>)
    ensures r.Success? <==> forall k :: 0 <= k < |tokens| ==> parse(tokens[k]).Some?
    ensures r.Success? ==> (|r.value| == |tokens| &&
      forall k :: 0 <= k < |tokens| ==> Some(r.value[k]) == parse(tokens[k]))
    ensures r.Failure? ==> exists k :: 0 <= k < |tokens| && parse(tokens[k]).None? && r.error == ParseError(tokens[k])
  {
    if |tokens| == 0 then Success([])
    else match parse(tokens[0])
      case None => Failure(ParseError(tokens[0]))
      case Some(x) =>
        var rest := ParseRow(tokens[1..], parse);
        assert forall k :: 1 <= k < |tokens| ==> tokens[1..][k - 1] == tokens[k];
        match rest
        case Failure(e) => Failure(e)
        case Success(xs) => Success([x] + xs)
  }

  /** Reading every row, in order; the first row that fails decides. */
  function ParseRows(rows: seq<seq<string>>, parse: string -> Option<real>): (r: Result<seq<seq<real>>>)
    ensures r.Success? <==> forall i :: 0 <= i < |rows| ==> ParseRow(rows[i], parse).Success?
    ensures r.Success? ==> (|r.value| == |rows| &&
      forall i :: 0 <= i < |rows| ==> Success(r.value[i]) == ParseRow(rows[i], parse))
    ensures r.Failure? ==> exists i :: 0 <= i < |rows| && ParseRow(rows[i], parse) == Failure(r.error)
  {
    if |rows| == 0 then Success([])
    else match ParseRow(rows[0], parse)
      case Failure(e) => Failure(e)
      case Success(row) =>
        var rest := ParseRows(rows[1..], parse);
        assert forall i :: 1 <= i < |rows| ==> rows[1..][i - 1] == rows[i];
        match rest
        case Failure(e) => Failure(e)
        case Success(more) => Success([row] + more)
  }

  /** What `ReadCsv` makes of the text: the first line's tokens as the header and the other
      lines' tokens read as numbers as the rows, without row labels. A text without a non-empty
      line has no first line and fails with an index failure; a token the parser rejects fails
      with that token. */
  function ReadCsv(text: string, parse: string -> Option<real>): Result<DataType<real>>
  {
    var lines := TokenLines(text);
    if |lines| == 0 then Failure(IndexOutOfRange)
    else match ParseRows(lines[1..], parse)
      case Failure(e) => Failure(e)
      case Success(rows) => Success(Table(lines[0], rows, None))
  }

  /** Reading fails for want of a header exactly when the text has no non-empty line. */
  lemma ReadCsvEmpty(text: string, parse: string -> Option<real>)
    ensures |Split(text, '\n')| == 0 <==> ReadCsv(text, parse) == Failure(IndexOutOfRange)
  {
  }

  /** A successful read: the header is the first non-empty line's tokens and there is one row
      per further non-empty line, holding its tokens read as numbers; nothing compares a row's
      length with the header's. */
  lemma ReadCsvSuccess(text: string, parse: string -> Option<real>)
    requires ReadCsv(text, parse).Success?
    ensures var lines := Split(text, '\n');
      var d := ReadCsv(text, parse).value;
      Valid(d) && d.rows == None && d.header == Split(lines[0], '\t') && |d.data| == |lines| - 1 &&
      forall i :: 0 <= i < |d.data| ==>
        var tokens := Split(lines[i + 1], '\t');
        |d.data[i]| == |tokens| &&
        forall k :: 0 <= k < |tokens| ==> Some(d.data[i][k]) == parse(tokens[k])
  {
    var lines := TokenLines(text);
    var d := ReadCsv(text, parse).value;
    forall i | 0 <= i < |d.data|
      ensures d.data[i] == ParseRow(lines[i + 1], parse).value
    {
      assert lines[1..][i] == lines[i + 1];
    }
  }

  /** A failed read of a non-empty text: some token of a row is not a number, and the failure
      names it. */
  lemma ReadCsvFailure(text: string, parse: string -> Option<real>)
    requires |Split(text, '\n')| > 0 && ReadCsv(text, parse).Failure?
    ensures var lines := Split(text, '\n');
      exists i, k :: 1 <= i < |lines| && 0 <= k < |Split(lines[i], '\t')| &&
        parse(Split(lines[i], '\t')[k]).None? &&
        ReadCsv(text, parse).error == ParseError(Split(lines[i], '\t')[k])
  {
    var lines := TokenLines(text);
    var i :| 0 <= i < |lines[1..]| && ParseRow(lines[1..][i], parse) == Failure(ReadCsv(text, parse).error);
    assert lines[1..][i] == lines[i + 1];
    var k :| 0 <= k < |lines[i + 1]| && parse(lines[i + 1][k]).None? &&
      ReadCsv(text, parse).error == ParseError(lines[i + 1][k]);
    assert 1 <= i + 1 < |lines|;
  }

  /** Every token of the text holds neither a tab nor a line feed and is not empty. */
  lemma TokensClean(text: string)
    ensures forall i, k :: 0 <= i < |TokenLines(text)| && 0 <= k < |TokenLines(text)[i]| ==>
      |TokenLines(text)[i][k]| > 0 && '\t' !in TokenLines(text)[i][k] && '\n' !in TokenLines(text)[i][k]
  {
    var lines := Split(text, '\n');
    forall i, k | 0 <= i < |TokenLines(text)| && 0 <= k < |TokenLines(text)[i]|
      ensures '\n' !in TokenLines(text)[i][k]
    {
      var token := TokenLines(text)[i][k];
      assert forall c :: 0 <= c < |token| ==> token[c] in lines[i];
    }
  }

  /** A separator at the end adds no piece. */
  lemma {:induction false} SplitTrailing(s: string, sep: char, cur: string)
    requires sep !in cur
    ensures SplitFrom(s + [sep], sep, cur) == SplitFrom(s, sep, cur)
    decreases |s|
  {
    if |s| == 0 {
      assert s + [sep] == [sep] && [sep][1..] == [];
    } else {
      assert (s + [sep])[1..] == s[1..] + [sep];
      if s[0] == sep {
        SplitTrailing(s[1..], sep, []);
      } else {
        SplitTrailing(s[1..], sep, cur + [s[0]]);
      }
    }
  }

  /** The lines of the example text. */
  lemma ExampleLines(text: string, lines: seq<string>)
    requires lines == ["a\tb", "1\t2", "3\t4", "5\t6"] && text == Join(lines, '\n') + ['\n']
    ensures Split(text, '\n') == lines
  {
    SplitTrailing(Join(lines, '\n'), '\n', []);
    SplitJoin(lines, '\n');
  }

  /** The tokens of one line of the example text. */
  lemma ExampleTokens(line: string, tokens: seq<string>)
    requires |tokens| == 2 && |tokens[0]| == 1 && |tokens[1]| == 1 && tokens[0][0] != '\t' && tokens[1][0] != '\t'
    requires line == tokens[0] + ['\t'] + tokens[1]
    ensures Split(line, '\t') == tokens
  {
    assert line == Join(tokens, '\t');
    SplitJoin(tokens, '\t');
  }

  /** The tokens of every line of the example text. */
  lemma ExampleAllTokens(lines: seq<string>, cells: seq<seq<string>>)
    requires lines == ["a\tb", "1\t2", "3\t4", "5\t6"]
    requires cells == [["a", "b"], ["1", "2"], ["3", "4"], ["5", "6"]]
    ensures forall i :: 0 <= i < 4 ==> Split(lines[i], '\t') == cells[i]
  {
    forall i | 0 <= i < 4
      ensures Split(lines[i], '\t') == cells[i]
    {
      ExampleTokens(lines[i], cells[i]);
    }
  }

  /** The token lines of a text, from its lines and their tokens. */
  lemma TokenLinesFrom(text: string, lines: seq<string>, cells: seq<seq<string>>)
    requires Split(text, '\n') == lines && |cells| == |lines|
    requires forall i :: 0 <= i < |lines| ==> Split(lines[i], '\t') == cells[i]
    ensures TokenLines(text) == cells
  {
  }

  /** The shape of a table read from a text, from the text's token lines. */
  lemma ReadCsvShape(text: string, parse: string -> Option<real>, cells: seq<seq<string>>)
    requires TokenLines(text) == cells && |cells| > 0
    ensures var r := ReadCsv(text, parse);
      r.Success? ==> (r.value.header == cells[0] && |r.value.data| == |cells| - 1 &&
        forall i :: 0 <= i < |cells| - 1 ==> |r.value.data[i]| == |cells[i + 1]|)
  {
    if ReadCsv(text, parse).Success? {
      ReadCsvSuccess(text, parse);
    }
  }

  /** A text with a header line and three rows of two tokens, ending in a line feed. */
  lemma ExampleTokenLines(text: string)
    requires text == "a\tb\n1\t2\n3\t4\n5\t6\n"
    ensures TokenLines(text) == [["a", "b"], ["1", "2"], ["3", "4"], ["5", "6"]]
  {
    var lines := ["a\tb", "1\t2", "3\t4", "5\t6"];
    var cells := [["a", "b"], ["1", "2"], ["3", "4"], ["5", "6"]];
    ExampleLines(text, lines);
    ExampleAllTokens(lines, cells);
    TokenLinesFrom(text, lines, cells);
  }

  /** Reading that text gives the header `a`, `b` and three rows of two numbers. */
  lemma Example(text: string, parse: string -> Option<real>)
    requires text == "a\tb\n1\t2\n3\t4\n5\t6\n"
    ensures var r := ReadCsv(text, parse);
      r.Success? ==> (r.value.header == ["a", "b"] && |r.value.data| == 3 &&
        forall i :: 0 <= i < 3 ==> |r.value.data[i]| == 2)
  {
    ExampleTokenLines(text);
    ReadCsvShape(text, parse, [["a", "b"], ["1", "2"], ["3", "4"], ["5", "6"]]);
  }
}
