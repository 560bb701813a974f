/** What the parser makes of what the printer writes: every list of rows, either format,
    any mixture of line ends. */
module TextRoundTrip {
  import opened Bytes
  import opened TextFormat

  predicate IsBlank(row: Row) {
    row == [Text([])]
  }

  /** A one-cell row holding the empty string prints as a blank line, which is skipped. */
  function NonBlank(rows: seq<Row>): seq<Row> {
    if rows == [] then []
    else (if IsBlank(rows[0]) then [] else [rows[0]]) + NonBlank(rows[1..])
  }

  predicate AllEmpty(row: Row) {
    forall i :: 0 <= i < |row| ==> row[i] == Text([])
  }

  /** The line feed after row j is taken for the second half of a CRLF: the row before it
      ended in a bare carriage return, and row j printed nothing but separators, which do
      not clear the parser's memory of that carriage return. It shows only when another
      row follows. */
  predicate SwallowsLineFeed(rows: seq<Row>, ends: seq<LineEnd>, j: int)
    requires |rows| == |ends|
  {
    && 0 < j < |rows| - 1
    && ends[j - 1] == CarriageReturn
    && ends[j] == LineFeed
    && |rows[j]| > 1
    && AllEmpty(rows[j])
  }

  predicate SwallowsNothing(rows: seq<Row>, ends: seq<LineEnd>)
    requires |rows| == |ends|
  {
    forall j :: 0 <= j < |rows| ==> !SwallowsLineFeed(rows, ends, j)
  }

  /** A row handler that never throws. */
  ghost predicate TakesEverything(cfg: Config) {
    forall rows, row :: cfg.takes(rows, row)
  }

  /** Between two cells of a line: nothing of the next cell has been read. */
  predicate AtCellStart(st: State) {
    && st.phase == CellStart && st.cellBuf == []
    && !st.quoted && !st.isNull && !st.pendingBackslash && st.blanks == 0
  }

  lemma FoldOne(cfg: Config, o: Outcome, b: byte)
    ensures Fold(cfg, o, [b]) == if o.Failed? then o else Step(cfg, o.st, b)
  {
    assert [b][1..] == [];
  }

  lemma FoldTwo(cfg: Config, st: State, a: byte, b: byte)
    ensures Fold(cfg, Running(st), [a, b]) ==
            var o := Step(cfg, st, a); if o.Failed? then o else Step(cfg, o.st, b)
  {
    assert [a, b][1..] == [b];
    FoldOne(cfg, Step(cfg, st, a), b);
  }

  //// One cell

  /** The state after s more content bytes of an unquoted cell. */
  function WithContent(st: State, s: seq<byte>): State {
    if s == [] then st else st.(phase := InCell, cellBuf := st.cellBuf + s, prevCR := false)
  }

  predicate InPlainCell(st: State) {
    && (st.phase == CellStart || st.phase == InCell)
    && !st.isNull && !st.pendingBackslash && st.blanks == 0
  }

  lemma {:induction false} TsvContent(cfg: Config, st: State, s: seq<byte>)
    requires !cfg.csv && InPlainCell(st)
    ensures Fold(cfg, Running(st), TsvEscape(s)) == Running(WithContent(st, s))
    decreases |s|
  {
    if s != [] {
      var head := TsvEscapeByte(s[0]);
      var st' := WithContent(st, [s[0]]);
      assert Fold(cfg, Running(st), head) == Running(st') by {
        if |head| == 1 { FoldOne(cfg, Running(st), s[0]); } else { FoldTwo(cfg, st, head[0], head[1]); }
      }
      FoldConcat(cfg, Running(st), head, TsvEscape(s[1..]));
      TsvContent(cfg, st', s[1..]);
      MoveHead(st.cellBuf, s);
    }
  }

  lemma {:induction false} CsvContent(cfg: Config, st: State, s: seq<byte>)
    requires cfg.csv && InPlainCell(st)
    requires forall i :: 0 <= i < |s| ==> !CsvSpecial(s[i])
    ensures Fold(cfg, Running(st), s) == Running(WithContent(st, s))
    decreases |s|
  {
    if s != [] {
      var st' := WithContent(st, [s[0]]);
      assert !CsvSpecial(s[0]);
      assert Step(cfg, st, s[0]) == Running(st');
      CsvContent(cfg, st', s[1..]);
      MoveHead(st.cellBuf, s);
    }
  }

  lemma {:induction false} CsvQuotedContent(cfg: Config, st: State, s: seq<byte>)
    requires cfg.csv && st.phase == InQuoted && !st.pendingBackslash && st.blanks == 0
    ensures Fold(cfg, Running(st), CsvDoubleQuotes(s)) == Running(st.(cellBuf := st.cellBuf + s))
    decreases |s|
  {
    if s == [] {
      assert st.cellBuf + s == st.cellBuf;
    } else {
      var head := if s[0] == QUOTE then [QUOTE, QUOTE] else [s[0]];
      var st' := st.(cellBuf := st.cellBuf + [s[0]]);
      assert Fold(cfg, Running(st), head) == Running(st') by {
        if |head| == 1 { FoldOne(cfg, Running(st), s[0]); } else { FoldTwo(cfg, st, QUOTE, QUOTE); }
      }
      FoldConcat(cfg, Running(st), head, CsvDoubleQuotes(s[1..]));
      CsvQuotedContent(cfg, st', s[1..]);
      MoveHead(st.cellBuf, s);
    }
  }

  /** The state after all the bytes of a printed cell, before what ends it. */
  function CellRead(cfg: Config, st: State, cell: Cell): State {
    match cell
    case Null => st.(phase := InCell, cellBuf := NULL_MARK, isNull := !cfg.csv, prevCR := false)
    case Text(s) =>
      if cfg.csv && CsvNeedsQuoting(s)
      then st.(phase := QuotePending, cellBuf := s, quoted := true, prevCR := false)
      else WithContent(st, s)
  }

  lemma CellBytes(cfg: Config, st: State, cell: Cell)
    requires AtCellStart(st)
    ensures Fold(cfg, Running(st), PrintCell(cfg.csv, cell)) == Running(CellRead(cfg, st, cell))
  {
    match cell
    case Null =>
      FoldTwo(cfg, st, BACKSLASH, UPPER_N);
      assert st.cellBuf + [BACKSLASH] + [UPPER_N] == NULL_MARK;
    case Text(s) =>
      assert st.cellBuf + s == s;
      if !cfg.csv {
        TsvContent(cfg, st, s);
      } else if !CsvNeedsQuoting(s) {
        CsvContent(cfg, st, s);
      } else {
        var inside := st.(phase := InQuoted, quoted := true, prevCR := false);
        FoldOne(cfg, Running(st), QUOTE);
        FoldConcat(cfg, Running(st), [QUOTE], CsvDoubleQuotes(s));
        CsvQuotedContent(cfg, inside, s);
        FoldConcat(cfg, Running(st), [QUOTE] + CsvDoubleQuotes(s), [QUOTE]);
        FoldOne(cfg, Running(inside.(cellBuf := s)), QUOTE);
      }
  }

  /** The carriage return of the previous line end is still remembered after a cell
      exactly when the cell printed nothing. */
  function StillCR(st: State, cell: Cell): bool {
    st.prevCR && cell == Text([])
  }

  lemma CellReadBack(cfg: Config, st: State, cell: Cell)
    requires AtCellStart(st)
    ensures var read := CellRead(cfg, st, cell);
            && CellOf(cfg, read) == cell
            && read.prevCR == StillCR(st, cell)
            && (read.phase == QuotePending ==> cfg.csv)
            && (read.phase == CellStart <==> cell == Text([]))
            && read.phase != InQuoted
            && FinishCell(cfg, read).(phase := CellStart)
            == st.(cells := st.cells + [cell], prevCR := StillCR(st, cell))
  {
    match cell
    case Null =>
    case Text(s) => assert st.cellBuf + s == s;
  }

  /** A separator after a printed cell adds that very cell, NULL apart from the text \N. */
  lemma CellThenSeparator(cfg: Config, st: State, cell: Cell)
    requires AtCellStart(st)
    ensures Fold(cfg, Running(st), PrintCell(cfg.csv, cell) + [Separator(cfg.csv)])
         == Running(st.(cells := st.cells + [cell], prevCR := StillCR(st, cell)))
  {
    var sep := Separator(cfg.csv);
    CellBytes(cfg, st, cell);
    CellReadBack(cfg, st, cell);
    FoldConcat(cfg, Running(st), PrintCell(cfg.csv, cell), [sep]);
    FoldOne(cfg, Running(CellRead(cfg, st, cell)), sep);
  }

  /** The state in which a complete line is handed to FinishRow. */
  function LineRead(st: State, cells: Row, b: byte): State {
    st.(cells := cells, phase := CellStart, prevCR := b == CR)
  }

  lemma FinishRowIgnoresPhase(cfg: Config, st: State, phase: Phase)
    ensures FinishRow(cfg, st.(phase := CellStart)) ==
              match FinishRow(cfg, st.(phase := phase))
              case Running(st') => Running(st'.(phase := CellStart))
              case Failed(rows, e) => Failed(rows, e)
  {
    hide NameRow;
  }

  lemma LineEndStep(cfg: Config, read: State, b: byte)
    requires read.phase != InQuoted && (read.phase == QuotePending ==> cfg.csv)
    requires !read.pendingBackslash && read.blanks == 0
    requires b == CR || (b == LF && !read.prevCR)
    requires !(read.phase == CellStart && read.cells == [] && read.cellBuf == [])
    ensures Step(cfg, read, b)
         == FinishRow(cfg, FinishCell(cfg, read).(phase := CellStart, prevCR := b == CR))
  {
    hide FinishRow;
    var phase := if read.phase == QuotePending then InCell else read.phase;
    FinishRowIgnoresPhase(cfg, FinishCell(cfg, read.(prevCR := b == CR)), phase);
    assert Step(cfg, read, b) == EndLine(cfg, read.(phase := phase), b);
    assert FinishCell(cfg, read.(phase := phase, prevCR := b == CR)).(phase := CellStart)
        == FinishCell(cfg, read).(phase := CellStart, prevCR := b == CR);
  }

  lemma CellThenLineEnd(cfg: Config, st: State, cell: Cell, b: byte)
    requires AtCellStart(st) && (b == LF || b == CR)
    requires !(b == LF && StillCR(st, cell))
    requires !(st.cells == [] && cell == Text([]))
    ensures Fold(cfg, Running(st), PrintCell(cfg.csv, cell) + [b])
         == FinishRow(cfg, LineRead(st, st.cells + [cell], b))
  {
    var read := CellRead(cfg, st, cell);
    CellBytes(cfg, st, cell);
    CellReadBack(cfg, st, cell);
    LineEndStep(cfg, read, b);
    FoldConcat(cfg, Running(st), PrintCell(cfg.csv, cell), [b]);
    FoldOne(cfg, Running(read), b);
  }

  //// One line

  lemma {:induction false} LineBytes(cfg: Config, st: State, row: Row, b: byte)
    requires AtCellStart(st) && row != [] && (b == LF || b == CR)
    requires !(b == LF && st.prevCR && AllEmpty(row))
    requires !(st.cells == [] && IsBlank(row))
    ensures Fold(cfg, Running(st), PrintCells(cfg.csv, row) + [b])
         == FinishRow(cfg, LineRead(st, st.cells + row, b))
    decreases |row|
  {
    if |row| == 1 {
      assert row == [row[0]];
      CellThenLineEnd(cfg, st, row[0], b);
    } else {
      var first := PrintCell(cfg.csv, row[0]) + [Separator(cfg.csv)];
      var rest := PrintCells(cfg.csv, row[1..]) + [b];
      assert PrintCells(cfg.csv, row) + [b] == first + rest;
      CellThenSeparator(cfg, st, row[0]);
      FoldConcat(cfg, Running(st), first, rest);
      var st' := st.(cells := st.cells + [row[0]], prevCR := StillCR(st, row[0]));
      assert st'.prevCR && AllEmpty(row[1..]) ==> st.prevCR && AllEmpty(row) by {
        assert row == [row[0]] + row[1..];
      }
      LineBytes(cfg, st', row[1..], b);
      MoveHead(st.cells, row);
    }
  }

  /** All the cells of a line of empty texts but the last: only separators were read. */
  lemma {:induction false} EmptyCells(cfg: Config, st: State, row: Row)
    requires AtCellStart(st) && row != [] && AllEmpty(row)
    ensures Fold(cfg, Running(st), PrintCells(cfg.csv, row)) == Running(st.(cells := st.cells + row[1..]))
    decreases |row|
  {
    assert row[0] == Text([]);
    assert PrintCell(cfg.csv, row[0]) == [];
    if |row| == 1 {
      assert st.cells + row[1..] == st.cells;
    } else {
      var sep := [Separator(cfg.csv)];
      var rest := PrintCells(cfg.csv, row[1..]);
      assert PrintCells(cfg.csv, row) == sep + rest;
      CellThenSeparator(cfg, st, row[0]);
      assert PrintCell(cfg.csv, row[0]) + sep == sep;
      FoldConcat(cfg, Running(st), sep, rest);
      EmptyCells(cfg, st.(cells := st.cells + [row[0]]), row[1..]);
      assert row[1..] == [row[1]] + row[2..] && row[0] == row[1] && row[1..][1..] == row[2..];
      assert st.cells + [row[0]] + row[1..][1..] == st.cells + row[1..];
    }
  }

  //// Whole files

  /** Between two lines. */
  predicate AtLineStart(st: State) {
    AtCellStart(st.(blanks := 0)) && st.cells == []
  }

  function After(st: State, rows: seq<Row>, end: LineEnd): State {
    st.(rows := rows, prevCR := end == CarriageReturn, blanks := 0)
  }

  /** The first byte of a line forgets the blank lines before it. */
  lemma BlanksForgotten(cfg: Config, st: State, data: seq<byte>)
    requires data != [] && !st.pendingBackslash && !(st.prevCR && data[0] == LF)
    ensures Fold(cfg, Running(st), data) == Fold(cfg, Running(st.(blanks := 0)), data)
  {
  }

  lemma FirstByteIsNoLineFeed(csv: bool, row: Row, rest: seq<byte>)
    requires row != [] && !IsBlank(row)
    ensures var data := PrintCells(csv, row) + rest; data != [] && data[0] != LF
  {
    if |row| == 1 { assert row == [row[0]]; }
  }

  ghost predicate DataLines(cfg: Config, st: State) {
    && 0 < cfg.width && TakesEverything(cfg) && (cfg.header ==> st.headerDone)
  }

  lemma LineEndTail(cfg: Config, o: Outcome, end: LineEnd)
    requires o.Running? ==> !o.st.pendingBackslash && o.st.prevCR && o.st.phase == CellStart
    ensures end == CarriageReturnLineFeed && o.Running? ==>
              Fold(cfg, o, [LF]) == Running(o.st.(prevCR := false))
  {
    FoldOne(cfg, o, LF);
  }

  lemma PrintedLine(cfg: Config, st: State, row: Row, end: LineEnd)
    requires AtLineStart(st) && DataLines(cfg, st) && |row| == cfg.width && !IsBlank(row)
    requires !(end == LineFeed && st.prevCR && AllEmpty(row))
    ensures Fold(cfg, Running(st), PrintRow(cfg.csv, row, end)) == Running(After(st, st.rows + [row], end))
  {
    var first := LineEndBytes(end)[0];
    var line := PrintCells(cfg.csv, row) + [first];
    FirstByteIsNoLineFeed(cfg.csv, row, [first]);
    BlanksForgotten(cfg, st, line);
    var st0 := st.(blanks := 0);
    LineBytes(cfg, st0, row, first);
    assert [] + row == row;
    var o := Running(st0.(rows := st.rows + [row], prevCR := first == CR));
    assert Fold(cfg, Running(st), line) == o;
    if end == CarriageReturnLineFeed {
      assert PrintRow(cfg.csv, row, end) == line + [LF];
      FoldConcat(cfg, Running(st), line, [LF]);
      LineEndTail(cfg, o, end);
    } else {
      assert PrintRow(cfg.csv, row, end) == line;
    }
  }

  lemma BlankLine(cfg: Config, st: State, end: LineEnd)
    requires AtLineStart(st)
    ensures var o := Fold(cfg, Running(st), PrintRow(cfg.csv, [Text([])], end));
            o.Running? && o.st.(blanks := 0) == After(st, st.rows, end)
  {
    assert PrintRow(cfg.csv, [Text([])], end) == LineEndBytes(end);
    match end
    case LineFeed => FoldOne(cfg, Running(st), LF);
      assert st.prevCR ==> Step(cfg, st, LF) == Running(After(st, st.rows, end).(blanks := st.blanks));
    case CarriageReturn => FoldOne(cfg, Running(st), CR);
    case CarriageReturnLineFeed => FoldTwo(cfg, st, CR, LF);
  }

  function FileFrom(csv: bool, rows: seq<Row>, ends: seq<LineEnd>, i: nat): seq<byte>
    requires |rows| == |ends| && i <= |rows|
  {
    PrintRows(csv, rows[i..], ends[i..])
  }

  lemma FileSplit(csv: bool, rows: seq<Row>, ends: seq<LineEnd>, i: nat)
    requires |rows| == |ends| && i < |rows|
    ensures FileFrom(csv, rows, ends, i) == PrintRow(csv, rows[i], ends[i]) + FileFrom(csv, rows, ends, i + 1)
    ensures NonBlank(rows[i..]) == (if IsBlank(rows[i]) then [] else [rows[i]]) + NonBlank(rows[i + 1..])
  {
    assert rows[i..][1..] == rows[i + 1..] && ends[i..][1..] == ends[i + 1..];
  }

  predicate SwallowsFrom(rows: seq<Row>, ends: seq<LineEnd>, i: nat)
    requires |rows| == |ends|
  {
    exists j :: i <= j < |rows| && SwallowsLineFeed(rows, ends, j)
  }

  /** The parser stands at the start of line i of a file of rows of the declared width. */
  ghost predicate ReadyFor(cfg: Config, st: State, rows: seq<Row>, ends: seq<LineEnd>, i: nat) {
    && |rows| == |ends| && i <= |rows|
    && (forall j :: 0 <= j < |rows| ==> |rows[j]| == cfg.width)
    && AtLineStart(st) && DataLines(cfg, st)
    && (st.prevCR <==> (0 < i && ends[i - 1] == CarriageReturn))
  }

  predicate LosesLineFeed(st: State, rows: seq<Row>, ends: seq<LineEnd>, i: nat)
    requires i < |rows| == |ends|
  {
    st.prevCR && ends[i] == LineFeed && AllEmpty(rows[i]) && !IsBlank(rows[i])
  }

  ghost predicate RestDelivered(cfg: Config, st: State, rows: seq<Row>, ends: seq<LineEnd>, i: nat)
    requires |rows| == |ends| && i <= |rows|
  {
    var o := Finish(cfg, Fold(cfg, Running(st), FileFrom(cfg.csv, rows, ends, i)));
    if SwallowsFrom(rows, ends, i) then o.Failed? else Delivers(o, st.rows + NonBlank(rows[i..]))
  }

  /** Reading line i brings the parser from the start of line i to the start of line i + 1. */
  lemma OneRow(cfg: Config, st: State, rows: seq<Row>, ends: seq<LineEnd>, i: nat) returns (st': State)
    requires ReadyFor(cfg, st, rows, ends, i) && i < |rows| && !LosesLineFeed(st, rows, ends, i)
    ensures Fold(cfg, Running(st), FileFrom(cfg.csv, rows, ends, i))
         == Fold(cfg, Running(st'), FileFrom(cfg.csv, rows, ends, i + 1))
    ensures ReadyFor(cfg, st', rows, ends, i + 1)
    ensures st'.rows == st.rows + if IsBlank(rows[i]) then [] else [rows[i]]
  {
    var line := PrintRow(cfg.csv, rows[i], ends[i]);
    FileSplit(cfg.csv, rows, ends, i);
    FoldConcat(cfg, Running(st), line, FileFrom(cfg.csv, rows, ends, i + 1));
    if IsBlank(rows[i]) {
      BlankLine(cfg, st, ends[i]);
      st' := Fold(cfg, Running(st), line).st;
    } else {
      PrintedLine(cfg, st, rows[i], ends[i]);
      st' := After(st, st.rows + [rows[i]], ends[i]);
    }
  }

  /** From row i on: the rest of the file yields the rest of the rows, or, if some line
      feed is swallowed and a row follows it, an error. */
  lemma {:induction false} RowsFrom(cfg: Config, st: State, rows: seq<Row>, ends: seq<LineEnd>, i: nat)
    requires ReadyFor(cfg, st, rows, ends, i)
    ensures RestDelivered(cfg, st, rows, ends, i)
    decreases |rows| - i
  {
    if i == |rows| {
      assert FileFrom(cfg.csv, rows, ends, i) == [];
    } else if LosesLineFeed(st, rows, ends, i) {
      LostLineFeed(cfg, st, rows, ends, i);
    } else {
      SwallowsLater(cfg, st, rows, ends, i);
      var st' := OneRow(cfg, st, rows, ends, i);
      RowsFrom(cfg, st', rows, ends, i + 1);
      OneMoreRow(st.rows, st'.rows, rows, i);
    }
  }

  lemma OneMoreRow(before: seq<Row>, after: seq<Row>, rows: seq<Row>, i: nat)
    requires i < |rows| && after == before + if IsBlank(rows[i]) then [] else [rows[i]]
    ensures after + NonBlank(rows[i + 1..]) == before + NonBlank(rows[i..])
  {
    assert rows[i..][1..] == rows[i + 1..];
  }

  lemma SwallowsLater(cfg: Config, st: State, rows: seq<Row>, ends: seq<LineEnd>, i: nat)
    requires ReadyFor(cfg, st, rows, ends, i) && i < |rows| && !LosesLineFeed(st, rows, ends, i)
    ensures SwallowsFrom(rows, ends, i) <==> SwallowsFrom(rows, ends, i + 1)
  {
    assert IsBlank(rows[i]) ==> |rows[i]| == 1;
    assert !SwallowsLineFeed(rows, ends, i);
  }

  lemma OneCellNonBlank(row: Row)
    requires row != [] && !IsBlank(row) && AllEmpty(row)
    ensures |row| > 1
  {
    assert row[0] == Text([]);
    assert row == [row[0]] + row[1..];
  }

  lemma LostLineFeed(cfg: Config, st: State, rows: seq<Row>, ends: seq<LineEnd>, i: nat)
    requires ReadyFor(cfg, st, rows, ends, i) && i < |rows| && LosesLineFeed(st, rows, ends, i)
    ensures RestDelivered(cfg, st, rows, ends, i)
  {
    var line, rest := PrintRow(cfg.csv, rows[i], ends[i]), FileFrom(cfg.csv, rows, ends, i + 1);
    OneCellNonBlank(rows[i]);
    FileSplit(cfg.csv, rows, ends, i);
    FoldConcat(cfg, Running(st), line, rest);
    SwallowedLine(cfg, st, rows[i]);
    if i == |rows| - 1 {
      LastLineSwallowed(cfg, st, rows[i]);
      assert NonBlank(rows[i..]) == [rows[i]];
      assert !SwallowsFrom(rows, ends, i);
    } else {
      assert SwallowsLineFeed(rows, ends, i);
      FileSplit(cfg.csv, rows, ends, i + 1);
      var st' := Fold(cfg, Running(st), line).st;
      NextLineTooWide(cfg, st', rows[i + 1], ends[i + 1], FileFrom(cfg.csv, rows, ends, i + 2));
    }
  }

  /** The state in which a swallowed line feed leaves the parser: one cell short of a row. */
  lemma SwallowedLine(cfg: Config, st: State, row: Row)
    requires AtLineStart(st) && st.prevCR && |row| > 1 && AllEmpty(row)
    ensures Fold(cfg, Running(st), PrintRow(cfg.csv, row, LineFeed))
         == Running(st.(cells := row[1..], prevCR := false, blanks := 0))
  {
    var cells := PrintCells(cfg.csv, row);
    FirstByteIsNoLineFeed(cfg.csv, row, []);
    assert cells + [] == cells;
    BlanksForgotten(cfg, st, cells);
    EmptyCells(cfg, st.(blanks := 0), row);
    assert [] + row[1..] == row[1..];
    FoldConcat(cfg, Running(st), cells, [LF]);
    FoldOne(cfg, Fold(cfg, Running(st), cells), LF);
  }

  lemma LastLineSwallowed(cfg: Config, st: State, row: Row)
    requires AtLineStart(st) && DataLines(cfg, st) && |row| == cfg.width > 1 && AllEmpty(row)
    ensures Delivers(Finish(cfg, Running(st.(cells := row[1..], prevCR := false, blanks := 0))), st.rows + [row])
  {
    assert row[1..] + [Text([])] == row;
  }

  lemma SplitLine(csv: bool, row: Row, end: LineEnd, rest: seq<byte>)
    ensures PrintRow(csv, row, end) + rest
         == (PrintCells(csv, row) + [LineEndBytes(end)[0]]) + (LineEndBytes(end)[1..] + rest)
  {
  }

  /** The cells of the next line join the unfinished row, which is then too wide. */
  lemma NextLineTooWide(cfg: Config, st: State, row: Row, end: LineEnd, rest: seq<byte>)
    requires AtCellStart(st) && !st.prevCR && |st.cells| == cfg.width - 1 > 0 && |row| == cfg.width
    requires cfg.header ==> st.headerDone
    ensures Fold(cfg, Running(st), PrintRow(cfg.csv, row, end) + rest).Failed?
  {
    var first := LineEndBytes(end)[0];
    var line := PrintCells(cfg.csv, row) + [first];
    LineBytes(cfg, st, row, first);
    assert |st.cells + row| != cfg.width;
    SplitLine(cfg.csv, row, end, rest);
    FoldConcat(cfg, Running(st), line, LineEndBytes(end)[1..] + rest);
  }

  /** The round trip, for both formats and any line ends: the rows come back unchanged and
      in order, NULL apart from the text \N, blank lines skipped. It fails exactly when a
      line feed is swallowed. */
  lemma RoundTrip(cfg: Config, rows: seq<Row>, ends: seq<LineEnd>)
    requires !cfg.header && 0 < cfg.width && TakesEverything(cfg) && |rows| == |ends|
    requires forall j :: 0 <= j < |rows| ==> |rows[j]| == cfg.width
    ensures Delivers(Parse(cfg, PrintRows(cfg.csv, rows, ends)), NonBlank(rows))
       <==> SwallowsNothing(rows, ends)
    ensures !SwallowsNothing(rows, ends) ==> Parse(cfg, PrintRows(cfg.csv, rows, ends)).Failed?
  {
    assert rows[0..] == rows && ends[0..] == ends;
    RowsFrom(cfg, INITIAL, rows, ends, 0);
    assert [] + NonBlank(rows) == NonBlank(rows);
  }

  lemma {:induction false} NonBlankKeepsAll(rows: seq<Row>)
    ensures NonBlank(rows) == rows <==> (forall j :: 0 <= j < |rows| ==> !IsBlank(rows[j]))
    ensures |NonBlank(rows)| <= |rows|
  {
    if rows != [] {
      NonBlankKeepsAll(rows[1..]);
      assert rows == [rows[0]] + rows[1..];
      if IsBlank(rows[0]) {
        assert |NonBlank(rows)| < |rows|;
      }
    }
  }

  lemma ExportRowsRead(cfg: Config, st: State, rows: seq<Row>)
    requires AtLineStart(st) && DataLines(cfg, st) && !st.prevCR
    requires forall j :: 0 <= j < |rows| ==> |rows[j]| == cfg.width
    ensures Delivers(Finish(cfg, Fold(cfg, Running(st), ExportRows(cfg.csv, rows))), st.rows + NonBlank(rows))
  {
    var ends := seq(|rows|, _ => ExportLineEnd(cfg.csv));
    assert rows[0..] == rows && ends[0..] == ends;
    RowsFrom(cfg, st, rows, ends, 0);
  }

  /** What selectToStream writes, insertFromStream reads back: every row unchanged and in
      order, whatever bytes the cells hold, if and only if no row is a single empty text. */
  lemma ExportImport(cfg: Config, names: seq<seq<byte>>, rows: seq<Row>)
    requires 0 < |names| == cfg.width && TakesEverything(cfg)
    requires cfg.header ==> cfg.names == Some(names) && names != [[]]
    requires forall j :: 0 <= j < |rows| ==> |rows[j]| == cfg.width
    ensures var data := Export(cfg.csv, cfg.header, names, rows);
            Delivers(Parse(cfg, data), rows) <==> (forall j :: 0 <= j < |rows| ==> !IsBlank(rows[j]))
  {
    NonBlankKeepsAll(rows);
    assert [] + NonBlank(rows) == NonBlank(rows);
    if cfg.header {
      ExportSplit(cfg.csv, names, rows);
      var header := PrintRow(cfg.csv, NameRow(names), ExportLineEnd(cfg.csv));
      HeaderLine(cfg, names, ExportLineEnd(cfg.csv));
      FoldConcat(cfg, Running(INITIAL), header, ExportRows(cfg.csv, rows));
      ExportRowsRead(cfg, INITIAL.(headerDone := true), rows);
    } else {
      assert [] + rows == rows;
      ExportRowsRead(cfg, INITIAL, rows);
    }
  }

  lemma ExportSplit(csv: bool, names: seq<seq<byte>>, rows: seq<Row>)
    ensures Export(csv, true, names, rows)
         == PrintRow(csv, NameRow(names), ExportLineEnd(csv)) + ExportRows(csv, rows)
  {
    var all := [NameRow(names)] + rows;
    var ends := seq(|all|, _ => ExportLineEnd(csv));
    assert all[1..] == rows && ends[1..] == seq(|rows|, _ => ExportLineEnd(csv));
  }

  /** A matching header line, ended in any way, is checked, dropped and never delivered. After a
      bare carriage return the parser is ready to pass over one line feed. */
  lemma HeaderLine(cfg: Config, names: seq<seq<byte>>, end: LineEnd)
    requires cfg.header && cfg.names == Some(names) && names != [] && names != [[]]
    ensures Fold(cfg, Running(INITIAL), PrintRow(cfg.csv, NameRow(names), end))
         == Running(INITIAL.(headerDone := true, prevCR := end == CarriageReturn))
  {
    var row := NameRow(names);
    assert names == [names[0]] ==> row[0] == Text(names[0]) && names[0] != [];
    FirstLine(cfg, names, row, end);
  }

  /** The first line of an import with a header, whatever cells it has: it is taken if and only if
      its cells are the declared names in order; otherwise the import fails, and says whether it is
      the number of the cells or one of them. */
  lemma FirstLine(cfg: Config, names: seq<seq<byte>>, row: Row, end: LineEnd)
    requires cfg.header && cfg.names == Some(names) && row != [] && !IsBlank(row)
    ensures Fold(cfg, Running(INITIAL), PrintRow(cfg.csv, row, end))
         == if row == NameRow(names) then Running(INITIAL.(headerDone := true, prevCR := end == CarriageReturn))
            else Failed([], if |row| != |names| then HeaderWidth else HeaderName)
  {
    var first := LineEndBytes(end)[0];
    var line := PrintCells(cfg.csv, row) + [first];
    LineBytes(cfg, INITIAL, row, first);
    assert [] + row == row;
    if end == CarriageReturnLineFeed {
      assert PrintRow(cfg.csv, row, end) == line + [LF];
      FoldConcat(cfg, Running(INITIAL), line, [LF]);
      LineEndTail(cfg, Fold(cfg, Running(INITIAL), line), end);
    } else {
      assert PrintRow(cfg.csv, row, end) == line;
    }
  }
}
