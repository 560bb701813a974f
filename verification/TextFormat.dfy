/** The TSV and CSV text formats: the printer used by selectToStream and, as a fold
    of a one-byte step, the meaning of the parser used by insertFromStream. */
module TextFormat {
  import opened Bytes

  datatype Cell = Null | Text(bytes: seq<byte>)
  type Row = seq<Cell>

  const NULL_MARK: seq<byte> := [BACKSLASH, UPPER_N]

  function Separator(csv: bool): byte {
    if csv then COMMA else TAB
  }

  //// Printing

  function TsvEscapeByte(c: byte): seq<byte> {
    if c == BACKSLASH then [BACKSLASH, BACKSLASH]
    else if c == TAB then [BACKSLASH, LOWER_T]
    else if c == LF then [BACKSLASH, LOWER_N]
    else if c == CR then [BACKSLASH, LOWER_R]
    else if c == NUL then [BACKSLASH, DIGIT_ZERO]
    else [c]
  }

  function TsvEscape(s: seq<byte>): seq<byte> {
    if s == [] then [] else TsvEscapeByte(s[0]) + TsvEscape(s[1..])
  }

  predicate CsvSpecial(c: byte) {
    c == QUOTE || c == COMMA || c == LF || c == CR
  }

  predicate CsvNeedsQuoting(s: seq<byte>) {
    s == NULL_MARK || exists i :: 0 <= i < |s| && CsvSpecial(s[i])
  }

  function CsvDoubleQuotes(s: seq<byte>): seq<byte> {
    if s == [] then []
    else (if s[0] == QUOTE then [QUOTE, QUOTE] else [s[0]]) + CsvDoubleQuotes(s[1..])
  }

  function CsvEscape(s: seq<byte>): seq<byte> {
    if CsvNeedsQuoting(s) then [QUOTE] + CsvDoubleQuotes(s) + [QUOTE] else s
  }

  function EscapeText(csv: bool, s: seq<byte>): seq<byte> {
    if csv then CsvEscape(s) else TsvEscape(s)
  }

  function PrintCell(csv: bool, cell: Cell): seq<byte> {
    match cell
    case Null => NULL_MARK
    case Text(s) => EscapeText(csv, s)
  }

  /** The cells of a row with a separator before every cell but the first. */
  function PrintCells(csv: bool, row: Row): seq<byte> {
    if row == [] then []
    else if |row| == 1 then PrintCell(csv, row[0])
    else PrintCell(csv, row[0]) + [Separator(csv)] + PrintCells(csv, row[1..])
  }

  /** A line end. The exporter writes LineFeed for TSV and CarriageReturnLineFeed for CSV;
      the parser takes all three. */
  datatype LineEnd = LineFeed | CarriageReturnLineFeed | CarriageReturn

  function LineEndBytes(e: LineEnd): seq<byte> {
    match e
    case LineFeed => [LF]
    case CarriageReturnLineFeed => [CR, LF]
    case CarriageReturn => [CR]
  }

  function PrintRow(csv: bool, row: Row, end: LineEnd): seq<byte> {
    PrintCells(csv, row) + LineEndBytes(end)
  }

  function PrintRows(csv: bool, rows: seq<Row>, ends: seq<LineEnd>): seq<byte>
    requires |rows| == |ends|
  {
    if rows == [] then []
    else PrintRow(csv, rows[0], ends[0]) + PrintRows(csv, rows[1..], ends[1..])
  }

  function ExportLineEnd(csv: bool): LineEnd {
    if csv then CarriageReturnLineFeed else LineFeed
  }

  function ExportRows(csv: bool, rows: seq<Row>): seq<byte> {
    PrintRows(csv, rows, seq(|rows|, _ => ExportLineEnd(csv)))
  }

  function NameRow(names: seq<seq<byte>>): Row {
    seq(|names|, i requires 0 <= i < |names| => Text(names[i]))
  }

  /** Everything one export writes: the optional header line, then the rows. */
  function Export(csv: bool, header: bool, names: seq<seq<byte>>, rows: seq<Row>): seq<byte> {
    ExportRows(csv, (if header then [NameRow(names)] else []) + rows)
  }

  //// Parsing

  datatype ParseError =
    | ByteAfterClosingQuote
    | DataAfterNull
    | HeaderWidth
    | HeaderName
    | RowWidth
    | RowRefused(row: Row)
    | UnterminatedQuote

  /** What a parser is told once: the format, the header names to insist on (if any),
      the number of cells of a row, and when the row handler throws, given the rows
      it has already taken and the next row. */
  datatype Config = Config(
    csv: bool,
    header: bool,
    names: Option<seq<seq<byte>>>,
    width: nat,
    takes: (seq<Row>, Row) -> bool)

  datatype Phase = CellStart | InCell | InQuoted | QuotePending

  datatype State = State(
    phase: Phase,
    cellBuf: seq<byte>,
    quoted: bool,
    isNull: bool,
    cells: Row,
    headerDone: bool,
    prevCR: bool,
    pendingBackslash: bool,
    blanks: nat,
    rows: seq<Row>)

  const INITIAL: State := State(CellStart, [], false, false, [], false, false, false, 0, [])

  datatype Outcome = Running(st: State) | Failed(rows: seq<Row>, error: ParseError)

  function CellOf(cfg: Config, st: State): Cell {
    if st.isNull then Null
    else if cfg.csv && !st.quoted && st.cellBuf == NULL_MARK then Null
    else Text(st.cellBuf)
  }

  function FinishCell(cfg: Config, st: State): State {
    st.(cells := st.cells + [CellOf(cfg, st)], cellBuf := [], quoted := false, isNull := false)
  }

  /** The header line is checked and dropped; any other row goes to the row handler. */
  function FinishRow(cfg: Config, st: State): Outcome {
    if cfg.header && !st.headerDone then
      if cfg.names.Some? && |st.cells| != |cfg.names.value| then Failed(st.rows, HeaderWidth)
      else if cfg.names.Some? && st.cells != NameRow(cfg.names.value) then Failed(st.rows, HeaderName)
      else Running(st.(cells := [], headerDone := true))
    else if |st.cells| != cfg.width then Failed(st.rows, RowWidth)
    else if !cfg.takes(st.rows, st.cells) then Failed(st.rows, RowRefused(st.cells))
    else Running(st.(cells := [], rows := st.rows + [st.cells]))
  }

  function EscapeValue(b: byte): byte {
    if b == LOWER_T then TAB
    else if b == LOWER_N then LF
    else if b == LOWER_R then CR
    else if b == DIGIT_ZERO then NUL
    else if b == LOWER_B then BACKSPACE
    else if b == LOWER_F then FORMFEED
    else if b == LOWER_A then BELL
    else if b == LOWER_V then VTAB
    else b
  }

  /** The byte after a TSV backslash. An N after cell content is not consumed:
      the backslash becomes content and the N is read again as an ordinary byte. */
  predicate EscapeConsumes(st: State, b: byte) {
    b != UPPER_N || st.cellBuf == []
  }

  function DecodeEscape(st: State, b: byte): State {
    if b == UPPER_N then
      if st.cellBuf == [] then st.(cellBuf := NULL_MARK, isNull := true)
      else st.(cellBuf := st.cellBuf + [BACKSLASH])
    else st.(cellBuf := st.cellBuf + [EscapeValue(b)])
  }

  function EndLine(cfg: Config, st: State, b: byte): Outcome {
    if b == LF && st.prevCR then Running(st.(prevCR := false))
    else
      var st := if b == CR then st.(prevCR := true) else st;
      if st.phase == CellStart && st.cells == [] && st.cellBuf == [] then
        Running(st.(blanks := st.blanks + 1))
      else
        FinishLine(cfg, st)
  }

  function FinishLine(cfg: Config, st: State): Outcome {
    match FinishRow(cfg, FinishCell(cfg, st))
    case Running(st') => Running(st'.(phase := CellStart))
    case Failed(rows, e) => Failed(rows, e)
  }

  function PlainByte(cfg: Config, st: State, b: byte): Outcome {
    var st := st.(prevCR := false);
    if st.isNull then Failed(st.rows, DataAfterNull)
    else if st.phase == CellStart && cfg.csv && b == QUOTE then
      Running(st.(phase := InQuoted, quoted := true))
    else
      var st := if st.phase == CellStart then st.(phase := InCell) else st;
      if !cfg.csv && b == BACKSLASH then Running(st.(pendingBackslash := true))
      else Running(st.(cellBuf := st.cellBuf + [b]))
  }

  function Unquoted(cfg: Config, st: State, b: byte): Outcome {
    if b == Separator(cfg.csv) then Running(FinishCell(cfg, st).(phase := CellStart))
    else if b == LF || b == CR then EndLine(cfg, st, b)
    else PlainByte(cfg, st, b)
  }

  function AnyByte(cfg: Config, st: State, b: byte): Outcome {
    var st := if st.prevCR && b == LF then st else st.(blanks := 0);
    if cfg.csv && st.phase == InQuoted then
      if b == QUOTE then Running(st.(phase := QuotePending))
      else Running(st.(cellBuf := st.cellBuf + [b]))
    else if cfg.csv && st.phase == QuotePending then
      if b == QUOTE then Running(st.(phase := InQuoted, cellBuf := st.cellBuf + [QUOTE]))
      else if b != Separator(cfg.csv) && b != LF && b != CR then Failed(st.rows, ByteAfterClosingQuote)
      else Unquoted(cfg, st.(phase := InCell), b)
    else Unquoted(cfg, st, b)
  }

  /** One byte, never looking at the next one: an escape waits for its second byte. */
  function Step(cfg: Config, st: State, b: byte): Outcome {
    if st.pendingBackslash then
      var st := st.(pendingBackslash := false, phase := if st.phase == CellStart then InCell else st.phase);
      var decoded := DecodeEscape(st, b);
      if EscapeConsumes(st, b) then Running(decoded) else AnyByte(cfg, decoded, b)
    else AnyByte(cfg, st, b)
  }

  function Fold(cfg: Config, o: Outcome, data: seq<byte>): Outcome
    decreases |data|
  {
    if data == [] || o.Failed? then o
    else Fold(cfg, Step(cfg, o.st, data[0]), data[1..])
  }

  /** End of input: a dangling backslash is content, an open quote is an error, and a
      last line without a line end is a row. */
  function Finish(cfg: Config, o: Outcome): Outcome {
    match o
    case Failed(_, _) => o
    case Running(st) =>
      var st := if st.pendingBackslash
                then st.(cellBuf := st.cellBuf + [BACKSLASH], pendingBackslash := false,
                         phase := if st.phase == CellStart then InCell else st.phase)
                else st;
      var st := if st.phase == QuotePending then st.(phase := InCell) else st;
      if st.phase == InQuoted then Failed(st.rows, UnterminatedQuote)
      else
        var st := st.(blanks := 0);
        if st.cellBuf != [] || st.cells != [] || st.quoted then FinishRow(cfg, FinishCell(cfg, st))
        else Running(st)
  }

  function Parse(cfg: Config, data: seq<byte>): Outcome {
    Finish(cfg, Fold(cfg, Running(INITIAL), data))
  }

  /** The input delivered exactly these rows and ended without an error. */
  predicate Delivers(o: Outcome, rows: seq<Row>) {
    o.Running? && o.st.rows == rows
  }

  //// Chunks

  lemma {:induction false} FoldConcat(cfg: Config, o: Outcome, a: seq<byte>, b: seq<byte>)
    ensures Fold(cfg, o, a + b) == Fold(cfg, Fold(cfg, o, a), b)
    decreases |a|
  {
    if a == [] || o.Failed? {
      assert a == [] ==> a + b == b;
    } else {
      assert (a + b)[0] == a[0] && (a + b)[1..] == a[1..] + b;
      FoldConcat(cfg, Step(cfg, o.st, a[0]), a[1..], b);
    }
  }

  function FoldChunks(cfg: Config, o: Outcome, chunks: seq<seq<byte>>): Outcome
    decreases |chunks|
  {
    if chunks == [] then o else FoldChunks(cfg, Fold(cfg, o, chunks[0]), chunks[1..])
  }

  /** Cutting the input at any bytes changes nothing: not the rows, not the state, not the error. */
  lemma {:induction false} ChunkIndependence(cfg: Config, o: Outcome, chunks: seq<seq<byte>>)
    ensures FoldChunks(cfg, o, chunks) == Fold(cfg, o, Flatten(chunks))
    decreases |chunks|
  {
    if chunks != [] {
      FoldConcat(cfg, o, chunks[0], Flatten(chunks[1..]));
      ChunkIndependence(cfg, Fold(cfg, o, chunks[0]), chunks[1..]);
    }
  }

  /** Two ways of cutting the same bytes cannot be told apart. */
  lemma AnyTwoCuts(cfg: Config, o: Outcome, cut: seq<seq<byte>>, other: seq<seq<byte>>)
    requires Flatten(cut) == Flatten(other)
    ensures FoldChunks(cfg, o, cut) == FoldChunks(cfg, o, other)
  {
    ChunkIndependence(cfg, o, cut);
    ChunkIndependence(cfg, o, other);
  }
}
