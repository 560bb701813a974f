/** What exported text looks like byte by byte, and what the parser makes of bytes that no export
    writes: escapes, missing line ends, open quotes, rows of the wrong width. */
module TextForms {
  import opened Bytes
  import opened TextFormat
  import opened TextRoundTrip

  //// Printed text

  /** Tabs, line ends and NUL bytes never appear in a TSV cell, and text without them and without
      backslashes is printed as it is. */
  lemma {:induction false} TsvIsPlain(s: seq<byte>)
    ensures forall i :: 0 <= i < |TsvEscape(s)| ==> TsvEscape(s)[i] !in [0, 9, 10, 13]
    ensures TsvEscape(s) == s <==> forall i :: 0 <= i < |s| ==> s[i] !in [0, 9, 10, 13, 92]
    ensures |s| <= |TsvEscape(s)|
  {
    if s != [] {
      TsvIsPlain(s[1..]);
      var head, tail := TsvEscapeByte(s[0]), TsvEscape(s[1..]);
      assert s == [s[0]] + s[1..];
      if |head| == 1 {
        assert (head + tail)[1..] == tail;
        assert head + tail == s <==> tail == s[1..];
      }
    }
  }

  /** CSV text is quoted exactly if it has a quote, a comma or a line end, or is the mark for NULL. */
  lemma CsvIsQuoted(s: seq<byte>)
    ensures CsvEscape(s) == s <==> s != [92, 78] && forall i :: 0 <= i < |s| ==> s[i] !in [34, 44, 10, 13]
    ensures CsvEscape(s) != s ==> CsvEscape(s) == [34] + CsvDoubleQuotes(s) + [34]
  {
    DoubledIsLonger(s);
    if CsvNeedsQuoting(s) { assert |CsvEscape(s)| > |s|; }
  }

  lemma {:induction false} DoubledIsLonger(s: seq<byte>)
    ensures |s| <= |CsvDoubleQuotes(s)|
  {
    if s != [] { DoubledIsLonger(s[1..]); }
  }

  lemma {:induction false} TsvCellsArePlain(row: Row)
    ensures forall i :: 0 <= i < |PrintCells(false, row)| ==> PrintCells(false, row)[i] !in [0, 10, 13]
  {
    if row != [] {
      if row[0].Text? { TsvIsPlain(row[0].bytes); }
      TsvCellsArePlain(row[1..]);
    }
  }

  function Count(s: seq<byte>, b: byte): nat {
    if s == [] then 0 else (if s[0] == b then 1 else 0) + Count(s[1..], b)
  }

  lemma {:induction false} CountConcat(s: seq<byte>, t: seq<byte>, b: byte)
    ensures Count(s + t, b) == Count(s, b) + Count(t, b)
  {
    if s == [] {
      assert s + t == t;
    } else {
      assert (s + t)[1..] == s[1..] + t;
      CountConcat(s[1..], t, b);
    }
  }

  lemma {:induction false} CountNone(s: seq<byte>, b: byte)
    requires forall i :: 0 <= i < |s| ==> s[i] != b
    ensures Count(s, b) == 0
  {
    if s != [] { CountNone(s[1..], b); }
  }

  /** A TSV file has a line feed for every row, and no carriage return and no NUL byte at all. */
  lemma {:induction false} TsvLines(rows: seq<Row>)
    ensures Count(ExportRows(false, rows), 10) == |rows|
    ensures Count(ExportRows(false, rows), 13) == 0 && Count(ExportRows(false, rows), 0) == 0
  {
    var ends := seq(|rows|, _ => ExportLineEnd(false));
    if rows != [] {
      TsvCellsArePlain(rows[0]);
      TsvLines(rows[1..]);
      assert ends[1..] == seq(|rows[1..]|, _ => ExportLineEnd(false));
      var cells, later := PrintCells(false, rows[0]), ExportRows(false, rows[1..]);
      forall b: byte | b == 0 || b == 10 || b == 13
        ensures Count(cells + [10] + later, b) == (if b == 10 then 1 else 0) + Count(later, b)
      {
        CountNone(cells, b);
        CountConcat(cells, [10], b);
        CountConcat(cells + [10], later, b);
      }
      assert ExportRows(false, rows) == cells + [10] + later;
    }
  }

  /** A CSV file ends every line with a carriage return and a line feed. */
  lemma CsvLines(rows: seq<Row>)
    requires rows != []
    ensures ExportRows(true, rows) == PrintCells(true, rows[0]) + [13, 10] + ExportRows(true, rows[1..])
  {
    var ends := seq(|rows|, _ => ExportLineEnd(true));
    assert ends[1..] == seq(|rows[1..]|, _ => ExportLineEnd(true));
  }

  //// Escapes

  /** The character that a backslash and a letter stand for in C; any other byte is itself. */
  function InC(n: byte): byte {
    match n
    case 48 => 0
    case 97 => 7
    case 98 => 8
    case 116 => 9
    case 110 => 10
    case 118 => 11
    case 102 => 12
    case 114 => 13
    case _ => n
  }

  /** In a TSV cell a backslash and any byte but N add one byte. */
  lemma EscapeIsRead(cfg: Config, st: State, n: byte)
    requires !cfg.csv && InPlainCell(st) && n != UPPER_N
    ensures Fold(cfg, Running(st), [BACKSLASH, n]) == Running(WithContent(st, [InC(n)]))
  {
    FoldTwo(cfg, st, BACKSLASH, n);
  }

  /** A backslash and an N are NULL at the start of a cell, and then the cell must end; behind other
      content they are themselves. */
  lemma NullIsRead(cfg: Config, st: State, n: byte)
    requires !cfg.csv && InPlainCell(st)
    ensures st.cellBuf != [] ==>
              Fold(cfg, Running(st), [BACKSLASH, UPPER_N])
              == Running(st.(phase := InCell, cellBuf := st.cellBuf + [BACKSLASH, UPPER_N], prevCR := false))
    ensures st.cellBuf == [] && n != TAB && n != LF && n != CR ==>
              Fold(cfg, Running(st), [BACKSLASH, UPPER_N, n]) == Failed(st.rows, DataAfterNull)
  {
    FoldTwo(cfg, st, BACKSLASH, UPPER_N);
    if st.cellBuf != [] {
      assert st.cellBuf + [BACKSLASH] + [UPPER_N] == st.cellBuf + [BACKSLASH, UPPER_N];
    } else {
      FoldConcat(cfg, Running(st), [BACKSLASH, UPPER_N], [n]);
      assert [BACKSLASH, UPPER_N] + [n] == [BACKSLASH, UPPER_N, n];
      FoldOne(cfg, Fold(cfg, Running(st), [BACKSLASH, UPPER_N]), n);
    }
  }

  //// Quotes

  /** Behind a quoted CSV cell only a separator or a line end may come. */
  lemma QuoteThenByte(cfg: Config, st: State, s: seq<byte>, b: byte)
    requires cfg.csv && AtCellStart(st) && b !in [34, 44, 10, 13]
    ensures Fold(cfg, Running(st), [QUOTE] + CsvDoubleQuotes(s) + [QUOTE] + [b]) == Failed(st.rows, ByteAfterClosingQuote)
  {
    OpenQuote(cfg, st, s);
    var inside := [QUOTE] + CsvDoubleQuotes(s);
    FoldConcat(cfg, Running(st), inside, [QUOTE]);
    FoldOne(cfg, Fold(cfg, Running(st), inside), QUOTE);
    FoldConcat(cfg, Running(st), inside + [QUOTE], [b]);
    FoldOne(cfg, Fold(cfg, Running(st), inside + [QUOTE]), b);
  }

  lemma OpenQuote(cfg: Config, st: State, s: seq<byte>)
    requires cfg.csv && AtCellStart(st)
    ensures Fold(cfg, Running(st), [QUOTE] + CsvDoubleQuotes(s))
         == Running(st.(phase := InQuoted, cellBuf := s, quoted := true, prevCR := false))
  {
    var inside := st.(phase := InQuoted, quoted := true, prevCR := false);
    FoldOne(cfg, Running(st), QUOTE);
    FoldConcat(cfg, Running(st), [QUOTE], CsvDoubleQuotes(s));
    CsvQuotedContent(cfg, inside, s);
    assert st.cellBuf + s == s;
  }

  /** Input that ends inside quotes fails, with the rows before it taken. */
  lemma UnterminatedQuoteFails(cfg: Config, data: seq<byte>, s: seq<byte>)
    requires cfg.csv && Fold(cfg, Running(INITIAL), data).Running? && AtCellStart(Fold(cfg, Running(INITIAL), data).st)
    ensures Parse(cfg, data + ([QUOTE] + CsvDoubleQuotes(s)))
         == Failed(Fold(cfg, Running(INITIAL), data).st.rows, UnterminatedQuote)
  {
    FoldConcat(cfg, Running(INITIAL), data, [QUOTE] + CsvDoubleQuotes(s));
    OpenQuote(cfg, Fold(cfg, Running(INITIAL), data).st, s);
  }

  //// Lines

  /** A row of the right width is taken, any other one ends the import. */
  lemma WidthDecides(cfg: Config, st: State, row: Row, end: LineEnd)
    requires AtLineStart(st) && row != [] && !IsBlank(row) && TakesEverything(cfg) && (cfg.header ==> st.headerDone)
    requires !(end != CarriageReturn && st.prevCR && AllEmpty(row))
    ensures var o := Fold(cfg, Running(st), PrintRow(cfg.csv, row, end));
            if |row| == cfg.width then o.Running? && o.st.rows == st.rows + [row] else o == Failed(st.rows, RowWidth)
  {
    var first := LineEndBytes(end)[0];
    var line := PrintCells(cfg.csv, row) + [first];
    var clean := st.(blanks := 0);
    FirstByteIsNoLineFeed(cfg.csv, row, [first]);
    BlanksForgotten(cfg, st, line);
    LineBytes(cfg, clean, row, first);
    assert [] + row == row;
    var o := Fold(cfg, Running(st), line);
    if end == CarriageReturnLineFeed {
      assert PrintRow(cfg.csv, row, end) == line + [LF];
      FoldConcat(cfg, Running(st), line, [LF]);
      LineEndTail(cfg, o, end);
    } else {
      assert PrintRow(cfg.csv, row, end) == line;
    }
  }

  lemma {:induction false} CellsAreRead(cfg: Config, st: State, row: Row) returns (prevCR: bool)
    requires AtCellStart(st) && row != []
    ensures var last := |row| - 1;
            Fold(cfg, Running(st), PrintCells(cfg.csv, row))
            == Running(CellRead(cfg, st.(cells := st.cells + row[..last], prevCR := prevCR), row[last]))
    decreases |row|
  {
    hide PrintCell, CellRead;
    if |row| == 1 {
      CellBytes(cfg, st, row[0]);
      prevCR := st.prevCR;
      assert st.cells + row[..0] == st.cells && st.(prevCR := st.prevCR, cells := st.cells) == st;
    } else {
      var first := PrintCell(cfg.csv, row[0]) + [Separator(cfg.csv)];
      var rest := PrintCells(cfg.csv, row[1..]);
      CellThenSeparator(cfg, st, row[0]);
      FoldConcat(cfg, Running(st), first, rest);
      var st' := st.(cells := st.cells + [row[0]], prevCR := StillCR(st, row[0]));
      prevCR := CellsAreRead(cfg, st', row[1..]);
      assert PrintCells(cfg.csv, row) == first + rest;
      assert row[1..][|row| - 2] == row[|row| - 1];
      assert st.cells + [row[0]] + row[1..][..|row| - 2] == st.cells + row[..|row| - 1];
    }
  }

  /** The last line of the input needs no line end: without one it is taken, or refused, exactly as
      with one. */
  lemma LastLineNeedsNoEnd(cfg: Config, data: seq<byte>, row: Row)
    requires Fold(cfg, Running(INITIAL), data).Running? && AtLineStart(Fold(cfg, Running(INITIAL), data).st)
    requires row != [] && !IsBlank(row)
    ensures var unended, ended := Parse(cfg, data + PrintCells(cfg.csv, row)), Parse(cfg, data + (PrintCells(cfg.csv, row) + [CR]));
            && (unended.Running? <==> ended.Running?)
            && (if unended.Running? then unended.st.rows == ended.st.rows else unended == ended)
  {
    hide TextFormat.Finish, FinishRow, CellRead, PrintCell;
    var st, cells := Fold(cfg, Running(INITIAL), data).st, PrintCells(cfg.csv, row);
    var clean, last := st.(blanks := 0), |row| - 1;
    FirstByteIsNoLineFeed(cfg.csv, row, []);
    FirstByteIsNoLineFeed(cfg.csv, row, [CR]);
    assert cells + [] == cells;
    FoldConcat(cfg, Running(INITIAL), data, cells);
    FoldConcat(cfg, Running(INITIAL), data, cells + [CR]);
    BlanksForgotten(cfg, st, cells);
    BlanksForgotten(cfg, st, cells + [CR]);
    var prevCR := CellsAreRead(cfg, clean, row);
    LineBytes(cfg, clean, row, CR);
    LastCellFinishes(cfg, clean.(cells := clean.cells + row[..last], prevCR := prevCR), row[last]);
    assert clean.cells + row == row && row[..last] + [row[last]] == row && clean.cells + row[..last] == row[..last];
  }

  lemma LastCellFinishes(cfg: Config, st: State, cell: Cell)
    requires AtCellStart(st) && !(st.cells == [] && cell == Text([]))
    ensures Finish(cfg, Running(CellRead(cfg, st, cell))).Running?
       <==> FinishRow(cfg, LineRead(st, st.cells + [cell], CR)).Running?
    ensures var f, r := Finish(cfg, Running(CellRead(cfg, st, cell))), FinishRow(cfg, LineRead(st, st.cells + [cell], CR));
            if f.Running? then r.Running? && f.st.rows == r.st.rows && Finish(cfg, r).Running? && Finish(cfg, r).st.rows == r.st.rows
            else f == r && Finish(cfg, r) == r
  {
    CellReadBack(cfg, st, cell);
  }
}
