/** insertFromStream: the row batcher, the incremental parser in the form of the source
    (an object whose fields change byte by byte), and the import loop over both. */
module StreamImport {
  import opened Bytes
  import opened TextFormat
  import opened TextRoundTrip

  //// Batches

  /** A block of an insert, column by column. */
  type Block = seq<seq<Cell>>

  /** How one flush_batch ends: zvalToBlock throws, SendInsertBlock throws, or it is sent. */
  datatype FlushResult = ConversionFails | SendFails | Sent

  /** An insert of width columns; flush(k) is what happens to the k-th block. */
  datatype Plan = Plan(width: nat, batchRows: nat, nullable: seq<bool>, flush: nat -> FlushResult)
  {
    predicate Valid() {
      0 < width == |nullable| && 0 < batchRows
    }
  }

  predicate NullsAllowed(plan: Plan, row: Row) {
    forall c :: 0 <= c < |row| && c < |plan.nullable| && row[c] == Null ==> plan.nullable[c]
  }

  /** The rows taken so far: whole batches, and the rows waiting for the next one. */
  datatype Progress = Progress(batches: seq<seq<Row>>, waiting: seq<Row>)

  function Advance(plan: Plan, p: Progress, row: Row): Progress {
    if |p.waiting| + 1 >= plan.batchRows then Progress(p.batches + [p.waiting + [row]], [])
    else p.(waiting := p.waiting + [row])
  }

  function ProgressOf(plan: Plan, rows: seq<Row>): Progress {
    if rows == [] then Progress([], [])
    else Advance(plan, ProgressOf(plan, rows[..|rows| - 1]), rows[|rows| - 1])
  }

  /** Whether on_row returns normally for the next row. */
  predicate Takes(plan: Plan, rows: seq<Row>, row: Row) {
    && NullsAllowed(plan, row)
    && var p := ProgressOf(plan, rows);
       (|p.waiting| + 1 >= plan.batchRows ==> plan.flush(|p.batches|) == Sent)
  }

  function RowHandler(plan: Plan): (seq<Row>, Row) -> bool {
    (rows, row) => Takes(plan, rows, row)
  }

  predicate IsTable(rows: seq<Row>, width: nat) {
    forall r :: 0 <= r < |rows| ==> |rows[r]| == width
  }

  function Columns(rows: seq<Row>, width: nat): Block
    requires IsTable(rows, width)
  {
    seq(width, c requires 0 <= c < width =>
      seq(|rows|, r requires 0 <= r < |rows| => rows[r][c]))
  }

  lemma NoRowsYet(width: nat)
    ensures forall columns: Block ::
              |columns| == width && (forall c :: 0 <= c < width ==> columns[c] == []) ==> columns == Columns([], width)
  {
    forall columns: Block | |columns| == width && (forall c :: 0 <= c < width ==> columns[c] == [])
      ensures columns == Columns([], width)
    {
      forall c | 0 <= c < width ensures columns[c] == Columns([], width)[c] {
        assert |Columns([], width)[c]| == 0;
      }
    }
  }

  /** The rows a server reads out of a block of n rows. */
  function RowsOfBlock(block: Block, n: nat): seq<Row>
    requires forall c :: 0 <= c < |block| ==> |block[c]| == n
  {
    seq(n, r requires 0 <= r < n => seq(|block|, c requires 0 <= c < |block| => block[c][r]))
  }

  lemma BlockHoldsRows(rows: seq<Row>, width: nat)
    requires IsTable(rows, width)
    ensures RowsOfBlock(Columns(rows, width), |rows|) == rows
  {
    var back := RowsOfBlock(Columns(rows, width), |rows|);
    forall r | 0 <= r < |rows| ensures back[r] == rows[r] {
      assert |back[r]| == width;
    }
  }

  /** Every batch has exactly batchRows rows, and fewer wait. */
  lemma {:induction false} BatchesAreFull(plan: Plan, rows: seq<Row>)
    requires plan.Valid() && IsTable(rows, plan.width)
    ensures var p := ProgressOf(plan, rows);
            && |p.waiting| < plan.batchRows
            && IsTable(p.waiting, plan.width)
            && forall k :: 0 <= k < |p.batches| ==>
                 |p.batches[k]| == plan.batchRows && IsTable(p.batches[k], plan.width)
  {
    if rows != [] {
      BatchesAreFull(plan, rows[..|rows| - 1]);
    }
  }

  /** Batching loses, repeats and reorders nothing. */
  lemma {:induction false} BatchesHoldRows(plan: Plan, rows: seq<Row>)
    ensures var p := ProgressOf(plan, rows); Flatten(p.batches) + p.waiting == rows
  {
    if rows != [] {
      var init, last := rows[..|rows| - 1], rows[|rows| - 1];
      BatchesHoldRows(plan, init);
      var p := ProgressOf(plan, init);
      FlattenSnoc(p.batches, p.waiting + [last]);
      assert Flatten(p.batches) + (p.waiting + [last]) == rows by {
        assert (Flatten(p.batches) + p.waiting) + [last] == rows;
      }
    }
  }

  /** How many rows are in whole batches, and how many are waiting, by number alone. */
  lemma {:induction false} BatchesByNumber(plan: Plan, rows: seq<Row>)
    requires 0 < plan.batchRows
    ensures var p := ProgressOf(plan, rows);
            |p.batches| == |rows| / plan.batchRows && |p.waiting| == |rows| % plan.batchRows
  {
    if rows != [] {
      BatchesByNumber(plan, rows[..|rows| - 1]);
      OneMore(|rows| - 1, plan.batchRows);
    }
  }

  lemma OneMore(n: nat, k: nat)
    requires 0 < k
    ensures if n % k + 1 == k then (n + 1) / k == n / k + 1 && (n + 1) % k == 0
            else (n + 1) / k == n / k && (n + 1) % k == n % k + 1
  {
    var q, r := n / k, n % k;
    assert n == q * k + r;
    if r + 1 == k {
      assert n + 1 == (q + 1) * k;
      Quotient(n + 1, k, q + 1, 0);
    } else {
      Quotient(n + 1, k, q, r + 1);
    }
  }

  lemma Quotient(n: nat, k: nat, q: nat, r: nat)
    requires n == q * k + r && r < k
    ensures n / k == q && n % k == r
  {
    var d := n / k - q;
    assert n == n / k * k + n % k;
    assert d * k == n / k * k - q * k;
    assert (-d) * k == -(d * k);
    if 0 < d { Multiple(d, k); } else if d < 0 { Multiple(-d, k); }
  }

  lemma Multiple(d: int, k: nat)
    requires 0 < d
    ensures k <= d * k
  {
  }

  /** A row is taken exactly if it has no NULL where none is allowed and, when it fills a batch, that
      batch is sent; batches are counted off from the first row. */
  lemma TakesDecides(plan: Plan, rows: seq<Row>, row: Row)
    requires plan.Valid() && |row| == plan.width
    ensures RowHandler(plan)(rows, row)
       <==> && (forall c :: 0 <= c < plan.width && row[c] == Null ==> plan.nullable[c])
            && ((|rows| + 1) % plan.batchRows == 0 ==> plan.flush(|rows| / plan.batchRows) == Sent)
  {
    BatchesByNumber(plan, rows);
    OneMore(|rows|, plan.batchRows);
  }

  class RowBatcher {
    const plan: Plan
    var columns: Block
    var pendingRows: nat
    var totalRows: nat
    var sent: seq<Block>
    var blockDirty: bool
    var sentAnyBlock: bool
    ghost var taken: seq<Row>

    ghost function Now(): Progress
      reads this
    {
      ProgressOf(plan, taken)
    }

    ghost predicate Sentby(batches: seq<seq<Row>>)
      reads this
    {
      && |sent| == |batches|
      && forall k :: 0 <= k < |sent| ==>
           plan.flush(k) == Sent && IsTable(batches[k], plan.width) && sent[k] == Columns(batches[k], plan.width)
    }

    /** What holds between two rows. */
    ghost predicate Valid()
      reads this
    {
      && plan.Valid() && IsTable(taken, plan.width)
      && IsTable(Now().waiting, plan.width)
      && columns == Columns(Now().waiting, plan.width)
      && pendingRows == |Now().waiting| < plan.batchRows
      && totalRows == |taken|
      && Sentby(Now().batches)
      && !blockDirty && (sentAnyBlock <==> sent != [])
    }

    constructor (plan: Plan)
      requires plan.Valid()
      ensures Valid() && this.plan == plan && taken == []
    {
      this.plan := plan;
      columns := seq(plan.width, _ => []);
      pendingRows, totalRows, sent, taken := 0, 0, [], [];
      blockDirty, sentAnyBlock := false, false;
      new;
      assert columns == Columns([], plan.width) by { NoRowsYet(plan.width); }
    }

    /** Sends the waiting rows as one block. A block is dirty from the moment the send starts
        until it has succeeded. */
    method FlushBatch(ghost rows: seq<Row>) returns (ok: bool)
      requires plan.Valid() && IsTable(rows, plan.width) && !blockDirty
      requires columns == Columns(rows, plan.width) && pendingRows == |rows|
      requires sentAnyBlock <==> sent != []
      modifies this
      ensures taken == old(taken) && totalRows == old(totalRows)
      ensures rows == [] ==> ok && sent == old(sent) && columns == old(columns)
      ensures rows != [] ==> (ok <==> plan.flush(|old(sent)|) == Sent)
      ensures rows != [] && ok ==>
                && sent == old(sent) + [Columns(rows, plan.width)]
                && columns == Columns([], plan.width)
      ensures !ok ==> sent == old(sent)
      ensures blockDirty <==> rows != [] && plan.flush(|old(sent)|) == SendFails
      ensures ok ==> pendingRows == 0
      ensures sentAnyBlock <==> sent != []
    {
      if pendingRows == 0 {
        return true;
      }
      var k := |sent|;
      if plan.flush(k) == ConversionFails {
        return false;
      }
      var block := columns;
      columns := seq(plan.width, _ => []);
      assert columns == Columns([], plan.width) by { NoRowsYet(plan.width); }
      blockDirty := true;
      if plan.flush(k) == SendFails {
        return false;
      }
      sent := sent + [block];
      blockDirty := false;
      sentAnyBlock := true;
      pendingRows := 0;
      ok := true;
    }

    /** The on_row handler. */
    method OnRow(row: Row) returns (ok: bool)
      requires Valid() && |row| == plan.width
      modifies this
      ensures ok <==> Takes(plan, old(taken), row)
      ensures ok ==> Valid() && taken == old(taken) + [row]
      ensures !ok ==> taken == old(taken) && sent == old(sent) && (sentAnyBlock <==> sent != [])
      ensures !ok ==> blockDirty == SendBroke(plan, Some(Unparsed(RowRefused(row))), taken)
      ensures Sentby(ProgressOf(plan, taken).batches)
    {
      ghost var before := Now();
      ghost var rows := before.waiting + [row];
      ok := AddCells(row, before.waiting);
      if !ok {
        return;
      }
      pendingRows := pendingRows + 1;
      totalRows := totalRows + 1;
      if pendingRows >= plan.batchRows {
        ok := FlushBatch(rows);
        if !ok {
          return;
        }
      }
      taken := taken + [row];
      assert taken[..|taken| - 1] == old(taken);
      assert Now() == Advance(plan, before, row);
    }

    method AddCells(row: Row, ghost waiting: seq<Row>) returns (ok: bool)
      requires |row| == plan.width == |plan.nullable| && IsTable(waiting, plan.width)
      requires columns == Columns(waiting, plan.width)
      modifies this`columns
      ensures ok <==> NullsAllowed(plan, row)
      ensures ok ==> columns == Columns(waiting + [row], plan.width)
    {
      var c := 0;
      while c < plan.width
        invariant 0 <= c <= plan.width == |columns|
        invariant forall d :: 0 <= d < c ==> row[d] == Null ==> plan.nullable[d]
        invariant forall d :: 0 <= d < c ==> columns[d] == Columns(waiting + [row], plan.width)[d]
        invariant forall d :: c <= d < plan.width ==> columns[d] == Columns(waiting, plan.width)[d]
      {
        if row[c] == Null && !plan.nullable[c] {
          return false;
        }
        columns := columns[c := columns[c] + [row[c]]];
        c := c + 1;
      }
      ok := true;
    }
  }

  //// The parser

  datatype ByteResult = Consumed | EscapeStarts | Throws(error: ParseError)

  function LastRow(cfg: Config, st: State): Outcome {
    if st.cellBuf != [] || st.cells != [] || st.quoted then FinishRow(cfg, FinishCell(cfg, st))
    else Running(st)
  }

  lemma FoldHead(cfg: Config, st: State, data: seq<byte>, i: nat)
    requires i < |data|
    ensures Fold(cfg, Running(st), data[i..]) == Fold(cfg, Step(cfg, st, data[i]), data[i + 1..])
  {
    assert data[i..][0] == data[i] && data[i..][1..] == data[i + 1..];
  }

  class InsertStreamParser {
    const cfg: Config
    var phase: Phase
    var cellBuf: seq<byte>
    var cellIsQuoted: bool
    var rowCells: Row
    var firstRowSkipped: bool
    var prevWasCR: bool
    var pendingEmptyRows: nat
    var pendingBackslash: bool
    var cellIsNull: bool

    constructor (cfg: Config)
      ensures this.cfg == cfg && Model([]) == INITIAL
    {
      this.cfg := cfg;
      phase, cellBuf, cellIsQuoted, rowCells := CellStart, [], false, [];
      firstRowSkipped, prevWasCR, pendingEmptyRows := false, false, 0;
      pendingBackslash, cellIsNull := false, false;
    }

    /** The fields and the rows handed over so far, as a value. */
    ghost function Model(rows: seq<Row>): State
      reads this
    {
      State(phase, cellBuf, cellIsQuoted, cellIsNull, rowCells, firstRowSkipped,
            prevWasCR, pendingBackslash, pendingEmptyRows, rows)
    }

    ghost predicate Serves(onRow: RowBatcher) {
      cfg.takes == RowHandler(onRow.plan) && cfg.width == onRow.plan.width
    }

    /** The object is in the state an outcome describes. */
    ghost predicate Reached(o: Outcome, error: Option<ParseError>, onRow: RowBatcher)
      reads this, onRow
    {
      match error
      case None => o == Running(Model(onRow.taken)) && onRow.Valid()
      case Some(e) =>
        && o == Failed(onRow.taken, e)
        && onRow.Sentby(ProgressOf(onRow.plan, onRow.taken).batches)
        && (onRow.sentAnyBlock <==> onRow.sent != [])
        && onRow.blockDirty == SendBroke(onRow.plan, Some(Unparsed(e)), onRow.taken)
    }

    method FinishCell(ghost rows: seq<Row>)
      modifies this
      ensures Model(rows) == TextFormat.FinishCell(cfg, old(Model(rows)))
    {
      if cellIsNull {
        rowCells := rowCells + [Null];
      } else if cfg.csv && !cellIsQuoted && cellBuf == NULL_MARK {
        rowCells := rowCells + [Null];
      } else {
        rowCells := rowCells + [Text(cellBuf)];
      }
      cellBuf := [];
      cellIsQuoted := false;
      cellIsNull := false;
    }

    method FinishRow(onRow: RowBatcher) returns (error: Option<ParseError>)
      requires Serves(onRow) && onRow.Valid()
      modifies this, onRow
      ensures Reached(TextFormat.FinishRow(cfg, old(Model(onRow.taken))), error, onRow)
    {
      if cfg.header && !firstRowSkipped {
        if cfg.names.Some? {
          var names := cfg.names.value;
          if |rowCells| != |names| {
            rowCells := [];
            return Some(HeaderWidth);
          }
          var c := 0;
          while c < |rowCells|
            invariant 0 <= c <= |rowCells| == |names|
            invariant forall d :: 0 <= d < c ==> rowCells[d] == Text(names[d])
          {
            if rowCells[c] != Text(names[c]) {
              assert rowCells != NameRow(names) by { assert NameRow(names)[c] == Text(names[c]); }
              rowCells := [];
              return Some(HeaderName);
            }
            c := c + 1;
          }
          assert rowCells == NameRow(names);
        }
        rowCells := [];
        firstRowSkipped := true;
        return None;
      }
      if |rowCells| != cfg.width {
        rowCells := [];
        return Some(RowWidth);
      }
      var ok := onRow.OnRow(rowCells);
      if !ok {
        return Some(RowRefused(rowCells));
      }
      rowCells := [];
      error := None;
    }

    /** Returns true when the escape consumed the byte; false asks for it to be read again. */
    method DecodeEscapeByte(n: byte, ghost rows: seq<Row>) returns (consumed: bool)
      modifies this`cellBuf, this`cellIsNull
      ensures consumed == EscapeConsumes(old(Model(rows)), n)
      ensures Model(rows) == DecodeEscape(old(Model(rows)), n)
    {
      if n == UPPER_N {
        if cellBuf == [] {
          cellBuf := cellBuf + [BACKSLASH];
          cellBuf := cellBuf + [UPPER_N];
          cellIsNull := true;
          return true;
        }
        cellBuf := cellBuf + [BACKSLASH];
        return false;
      }
      cellBuf := cellBuf + [EscapeValue(n)];
      consumed := true;
    }

    method EndLine(b: byte, onRow: RowBatcher) returns (error: Option<ParseError>)
      requires b == CR || b == LF
      requires Serves(onRow) && onRow.Valid()
      modifies this, onRow
      ensures Reached(TextFormat.EndLine(cfg, old(Model(onRow.taken)), b), error, onRow)
    {
      hide TextFormat.FinishLine;
      if b == CR {
        prevWasCR := true;
      } else if prevWasCR {
        prevWasCR := false;
        return None;
      }
      if phase == CellStart && rowCells == [] && cellBuf == [] {
        pendingEmptyRows := pendingEmptyRows + 1;
        return None;
      }
      error := FinishLine(onRow);
    }

    method FinishLine(onRow: RowBatcher) returns (error: Option<ParseError>)
      requires Serves(onRow) && onRow.Valid()
      modifies this, onRow
      ensures Reached(TextFormat.FinishLine(cfg, old(Model(onRow.taken))), error, onRow)
    {
      hide TextFormat.FinishRow, TextFormat.FinishCell;
      FinishCell(onRow.taken);
      ghost var o := TextFormat.FinishRow(cfg, Model(onRow.taken));
      error := FinishRow(onRow);
      assert Reached(o, error, onRow);
      phase := CellStart;
    }

    /** What a result that did not involve the row handler says about the fields. */
    ghost predicate Means(r: ByteResult, o: Outcome, rows: seq<Row>)
      reads this
    {
      match r
      case Consumed => o == Running(Model(rows))
      case Throws(e) => o == Failed(rows, e) && !e.RowRefused?
      case EscapeStarts =>
        phase != CellStart && !pendingBackslash && o == Running(Model(rows).(pendingBackslash := true))
    }

    /** Blank lines are forgotten; quoted CSV cells are read. None asks for the byte to be
        read as an unquoted one. */
    method ReadQuotedByte(b: byte, ghost rows: seq<Row>) returns (r: Option<ByteResult>)
      requires !pendingBackslash
      modifies this
      ensures !pendingBackslash
      ensures r.Some? ==> Means(r.value, AnyByte(cfg, old(Model(rows)), b), rows)
      ensures r.None? ==> AnyByte(cfg, old(Model(rows)), b) == Unquoted(cfg, Model(rows), b)
    {
      hide Unquoted;
      if pendingEmptyRows > 0 && !(prevWasCR && b == LF) {
        pendingEmptyRows := 0;
      }
      if cfg.csv && phase == InQuoted {
        if b == QUOTE {
          phase := QuotePending;
        } else {
          cellBuf := cellBuf + [b];
        }
        return Some(Consumed);
      }
      if cfg.csv && phase == QuotePending {
        if b == QUOTE {
          cellBuf := cellBuf + [QUOTE];
          phase := InQuoted;
          return Some(Consumed);
        }
        if b != Separator(cfg.csv) && b != LF && b != CR {
          return Some(Throws(ByteAfterClosingQuote));
        }
        phase := InCell;
      }
      r := None;
    }

    /** A content byte. A TSV backslash is left to the caller, which alone can look ahead. */
    method ReadContentByte(b: byte, ghost rows: seq<Row>) returns (r: ByteResult)
      requires !pendingBackslash
      modifies this
      ensures Means(r, PlainByte(cfg, old(Model(rows)), b), rows)
    {
      prevWasCR := false;
      if cellIsNull {
        return Throws(DataAfterNull);
      }
      if phase == CellStart {
        if cfg.csv && b == QUOTE {
          phase := InQuoted;
          cellIsQuoted := true;
          return Consumed;
        }
        phase := InCell;
      }
      if !cfg.csv && b == BACKSLASH {
        return EscapeStarts;
      }
      cellBuf := cellBuf + [b];
      r := Consumed;
    }

    ghost predicate After(r: ByteResult, o: Outcome, onRow: RowBatcher)
      reads this, onRow
    {
      match r
      case Consumed => Reached(o, None, onRow)
      case Throws(e) => Reached(o, Some(e), onRow)
      case EscapeStarts => onRow.Valid() && Means(r, o, onRow.taken)
    }

    /** The part of the loop body after a pending escape: quotes, separators, line ends and
        content. */
    method ReadByte(b: byte, onRow: RowBatcher) returns (r: ByteResult)
      requires Serves(onRow) && onRow.Valid() && !pendingBackslash
      modifies this, onRow
      ensures After(r, AnyByte(cfg, old(Model(onRow.taken)), b), onRow)
    {
      var quoted := ReadQuotedByte(b, onRow.taken);
      if quoted.Some? {
        return quoted.value;
      }
      if b == Separator(cfg.csv) {
        FinishCell(onRow.taken);
        phase := CellStart;
        return Consumed;
      }
      if b == LF || b == CR {
        var error := EndLine(b, onRow);
        return if error.Some? then Throws(error.value) else Consumed;
      }
      r := ReadContentByte(b, onRow.taken);
    }

    /** An escape put off at the end of the last chunk. */
    method ResumeEscape(c: byte, ghost rows: seq<Row>) returns (consumed: bool)
      requires pendingBackslash
      modifies this
      ensures !pendingBackslash
      ensures Step(cfg, old(Model(rows)), c) ==
                if consumed then Running(Model(rows)) else AnyByte(cfg, Model(rows), c)
    {
      pendingBackslash := false;
      if phase == CellStart {
        phase := InCell;
      }
      consumed := DecodeEscapeByte(c, rows);
    }

    /** An escape whose second byte is in the same chunk. */
    method LookAhead(n: byte, ghost rows: seq<Row>) returns (consumed: bool)
      requires !pendingBackslash && phase != CellStart
      modifies this
      ensures Step(cfg, old(Model(rows)).(pendingBackslash := true), n) ==
                if consumed then Running(Model(rows)) else Step(cfg, Model(rows), n)
    {
      consumed := DecodeEscapeByte(n, rows);
      assert old(Model(rows)) == old(Model(rows)).(pendingBackslash := true).(pendingBackslash := false);
    }

    ghost function Rest(rows: seq<Row>, data: seq<byte>, i: nat): Outcome
      requires i <= |data|
      reads this
    {
      Fold(cfg, Running(Model(rows)), data[i..])
    }

    /** What is left to do from byte i on has not changed, or the parser has thrown. */
    ghost predicate Progressed(goal: Outcome, data: seq<byte>, j: nat, error: Option<ParseError>, onRow: RowBatcher)
      requires j <= |data|
      reads this, onRow
    {
      if error.None? then onRow.Valid() && Rest(onRow.taken, data, j) == goal
      else Reached(goal, error, onRow)
    }

    method ReadPastEscape(data: seq<byte>, i: nat, onRow: RowBatcher) returns (j: nat, error: Option<ParseError>)
      requires Serves(onRow) && onRow.Valid() && i < |data| && !pendingBackslash
      modifies this, onRow
      ensures i < j <= |data|
      ensures Progressed(old(Rest(onRow.taken, data, i)), data, j, error, onRow)
    {
      ghost var o := AnyByte(cfg, Model(onRow.taken), data[i]);
      FoldHead(cfg, Model(onRow.taken), data, i);
      var r := ReadByte(data[i], onRow);
      assert After(r, o, onRow);
      j, error := i + 1, None;
      match r {
        case Throws(e) =>
          error := Some(e);
        case EscapeStarts =>
          if i + 1 >= |data| {
            pendingBackslash := true;
          } else {
            FoldHead(cfg, o.st, data, i + 1);
            var consumed := LookAhead(data[i + 1], onRow.taken);
            if consumed {
              j := i + 2;
            } else {
              FoldHead(cfg, Model(onRow.taken), data, i + 1);
            }
          }
        case Consumed =>
      }
    }

    /** One chunk of input. Inside the chunk an escape looks at its second byte; at the end
        it is put off to the next chunk. Either way the result is the fold of the one-byte
        step, which knows nothing of chunks. */
    method Feed(data: seq<byte>, onRow: RowBatcher) returns (error: Option<ParseError>)
      requires Serves(onRow) && onRow.Valid()
      modifies this, onRow
      ensures Reached(Fold(cfg, Running(old(Model(onRow.taken))), data), error, onRow)
    {
      ghost var goal := Fold(cfg, Running(Model(onRow.taken)), data);
      assert data[0..] == data;
      var i := 0;
      error := None;
      while i < |data|
        invariant 0 <= i <= |data|
        invariant error == None && Progressed(goal, data, i, None, onRow)
      {
        if pendingBackslash {
          FoldHead(cfg, Model(onRow.taken), data, i);
          var consumed := ResumeEscape(data[i], onRow.taken);
          if consumed {
            i := i + 1;
            continue;
          }
          FoldHead(cfg, Model(onRow.taken), data, i);
        }
        i, error := ReadPastEscape(data, i, onRow);
        if error.Some? {
          return;
        }
      }
    }

    method Finish(onRow: RowBatcher) returns (error: Option<ParseError>)
      requires Serves(onRow) && onRow.Valid()
      modifies this, onRow
      ensures Reached(TextFormat.Finish(cfg, Running(old(Model(onRow.taken)))), error, onRow)
    {
      hide TextFormat.FinishRow, TextFormat.FinishCell;
      if pendingBackslash {
        cellBuf := cellBuf + [BACKSLASH];
        pendingBackslash := false;
        if phase == CellStart {
          phase := InCell;
        }
      }
      if phase == QuotePending {
        phase := InCell;
      }
      if phase == InQuoted {
        return Some(UnterminatedQuote);
      }
      pendingEmptyRows := 0;
      assert TextFormat.Finish(cfg, Running(old(Model(onRow.taken)))) == LastRow(cfg, Model(onRow.taken));
      if cellBuf != [] || rowCells != [] || cellIsQuoted {
        FinishCell(onRow.taken);
        error := FinishRow(onRow);
        return;
      }
      error := None;
    }
  }

  //// The import

  /** What php_stream_read returns call by call, and how it stops: at end of file, with no
      bytes before end of file, or with an error. */
  datatype ReadEnd = EndOfFile | NoBytes | ReadError
  datatype Reads = Reads(chunks: seq<seq<byte>>, end: ReadEnd)

  /** What the reading of an input throws: the stream stopped otherwise than at its end, or its
      bytes do not parse. */
  datatype ImportError = Unread(end: ReadEnd) | Unparsed(error: ParseError)

  /** What a failed import does to the open insert. */
  datatype Recovery = NothingToRecover | ResetConnection | EndInsertElseReset

  function ImportConfig(plan: Plan, csv: bool, header: bool, names: seq<seq<byte>>): Config {
    Config(csv, header, Some(names), plan.width, RowHandler(plan))
  }

  /** A block was on its way when the import failed: the send of a full batch threw on its last
      row, or that of the last batch at the end of the input. */
  predicate SendBroke(plan: Plan, problem: Option<ImportError>, taken: seq<Row>) {
    var p := ProgressOf(plan, taken);
    && plan.flush(|p.batches|) == SendFails
    && match problem
       case None => p.waiting != []
       case Some(Unparsed(RowRefused(row))) => NullsAllowed(plan, row) && |p.waiting| + 1 >= plan.batchRows
       case _ => false
  }

  /** How the sending of an import ends: the blocks sent, whether a further one was on its way, and
      whether all the input has been sent. */
  datatype ImportEnd = ImportEnd(sent: nat, dirty: bool, clean: bool)

  function EndOf(plan: Plan, problem: Option<ImportError>, taken: seq<Row>): ImportEnd {
    var p := ProgressOf(plan, taken);
    var clean := problem.None? && LastBatchSent(plan, taken);
    ImportEnd(|p.batches| + (if clean && p.waiting != [] then 1 else 0), SendBroke(plan, problem, taken), clean)
  }

  function RecoveryOf(end: ImportEnd, endInsertOk: bool): Recovery {
    if end.clean && endInsertOk then NothingToRecover
    else if end.dirty || 0 < end.sent then ResetConnection
    else EndInsertElseReset
  }

  /** The end of an import in numbers: the blocks that were sent are the whole batches of the rows taken,
      and the rest of a clean import; a block was on its way if sending it failed, at the end or with the
      row that completed it. */
  lemma EndDecides(plan: Plan, problem: Option<ImportError>, taken: seq<Row>)
    requires plan.Valid()
    ensures var end, whole, rest := EndOf(plan, problem, taken), |taken| / plan.batchRows, |taken| % plan.batchRows;
            && (end.clean <==> problem == None && (rest != 0 ==> plan.flush(whole) == Sent))
            && end.sent == whole + (if end.clean && rest != 0 then 1 else 0)
            && (problem == None ==> (end.dirty <==> rest != 0 && plan.flush(whole) == SendFails))
            && (forall row: Row :: |row| == plan.width && problem == Some(Unparsed(RowRefused(row))) ==>
                  (end.dirty <==> && (|taken| + 1) % plan.batchRows == 0 && plan.flush(whole) == SendFails
                                  && forall c :: 0 <= c < plan.width && row[c] == Null ==> plan.nullable[c]))
            && (problem.Some? && !(problem.value.Unparsed? && problem.value.error.RowRefused?) ==> !end.dirty)
  {
    BatchesByNumber(plan, taken);
    OneMore(|taken|, plan.batchRows);
  }

  function AllBatches(plan: Plan, rows: seq<Row>): seq<seq<Row>> {
    var p := ProgressOf(plan, rows);
    if p.waiting == [] then p.batches else p.batches + [p.waiting]
  }

  predicate LastBatchSent(plan: Plan, rows: seq<Row>) {
    var p := ProgressOf(plan, rows);
    p.waiting != [] ==> plan.flush(|p.batches|) == Sent
  }

  /** The blocks of an import are its rows, cut every batchRows rows and at the end. */
  lemma ImportConservesRows(plan: Plan, rows: seq<Row>)
    requires plan.Valid() && IsTable(rows, plan.width)
    ensures var batches := AllBatches(plan, rows);
            && Flatten(batches) == rows
            && forall k :: 0 <= k < |batches| ==>
                 && 1 <= |batches[k]| <= plan.batchRows
                 && IsTable(batches[k], plan.width)
                 && RowsOfBlock(Columns(batches[k], plan.width), |batches[k]|) == batches[k]
  {
    BatchesAreFull(plan, rows);
    BatchesHoldRows(plan, rows);
    var p := ProgressOf(plan, rows);
    var batches := AllBatches(plan, rows);
    FlattenSnoc(p.batches, p.waiting);
    forall k | 0 <= k < |batches|
      ensures RowsOfBlock(Columns(batches[k], plan.width), |batches[k]|) == batches[k]
    {
      BlockHoldsRows(batches[k], plan.width);
    }
  }

  lemma {:induction false} FoldChunksFailed(cfg: Config, o: Outcome, chunks: seq<seq<byte>>)
    requires o.Failed?
    ensures FoldChunks(cfg, o, chunks) == o
    decreases |chunks|
  {
    if chunks != [] {
      FoldChunksFailed(cfg, Fold(cfg, o, chunks[0]), chunks[1..]);
    }
  }

  /** How the reading of an input stops: with what the parser threw, if it threw, and then
      nothing of what follows matters; with the failure of the stream; or at its end. The rows
      taken go with it. Only the concatenation of the chunks is spoken of, not their cut. */
  ghost predicate StopsAs(cfg: Config, input: Reads, problem: Option<ImportError>, taken: seq<Row>) {
    var read := Fold(cfg, Running(INITIAL), Flatten(input.chunks));
    if read.Failed? then problem == Some(Unparsed(read.error)) && taken == read.rows
    else if input.end != EndOfFile then problem == Some(Unread(input.end)) && taken == read.st.rows
    else
      match TextFormat.Finish(cfg, read)
      case Running(st) => problem == None && taken == st.rows
      case Failed(rows, e) => problem == Some(Unparsed(e)) && taken == rows
  }

  /** Every chunk in turn, then the end of the input. */
  method ReadAll(input: Reads, parser: InsertStreamParser, onRow: RowBatcher) returns (problem: Option<ImportError>)
    requires parser.Serves(onRow) && onRow.Valid()
    requires parser.Model(onRow.taken) == INITIAL
    modifies parser, onRow
    ensures StopsAs(parser.cfg, input, problem, onRow.taken)
    ensures problem == None ==> onRow.Valid()
    ensures onRow.Sentby(ProgressOf(onRow.plan, onRow.taken).batches)
    ensures onRow.sentAnyBlock <==> onRow.sent != []
    ensures problem.Some? ==> onRow.blockDirty == SendBroke(onRow.plan, problem, onRow.taken)
  {
    hide Fold, ProgressOf, IsTable, Columns;
    ghost var goal := FoldChunks(parser.cfg, Running(INITIAL), input.chunks);
    ChunkIndependence(parser.cfg, Running(INITIAL), input.chunks);
    assert input.chunks[0..] == input.chunks;
    var k := 0;
    while k < |input.chunks|
      invariant 0 <= k <= |input.chunks|
      invariant onRow.Valid()
      invariant FoldChunks(parser.cfg, Running(parser.Model(onRow.taken)), input.chunks[k..]) == goal
    {
      ghost var o := Fold(parser.cfg, Running(parser.Model(onRow.taken)), input.chunks[k]);
      assert input.chunks[k..][1..] == input.chunks[k + 1..];
      assert goal == FoldChunks(parser.cfg, o, input.chunks[k + 1..]);
      var error := parser.Feed(input.chunks[k], onRow);
      assert parser.Reached(o, error, onRow);
      if error.Some? {
        FoldChunksFailed(parser.cfg, o, input.chunks[k + 1..]);
        return Some(Unparsed(error.value));
      }
      k := k + 1;
    }
    if input.end != EndOfFile {
      return Some(Unread(input.end));
    }
    ghost var o := TextFormat.Finish(parser.cfg, Running(parser.Model(onRow.taken)));
    var error := parser.Finish(onRow);
    assert parser.Reached(o, error, onRow);
    problem := if error.Some? then Some(Unparsed(error.value)) else None;
  }

  /** An import with a header stops at the first line, with nothing taken, unless that line is the
      declared names in order. */
  lemma WrongHeaderStops(plan: Plan, csv: bool, names: seq<seq<byte>>, row: Row, end: LineEnd, rest: seq<byte>, input: Reads,
                         problem: Option<ImportError>, taken: seq<Row>)
    requires row != [] && !IsBlank(row) && Flatten(input.chunks) == PrintRow(csv, row, end) + rest
    requires StopsAs(ImportConfig(plan, csv, true, names), input, problem, taken)
    ensures row != NameRow(names) ==>
              taken == [] && problem == Some(Unparsed(if |row| != |names| then HeaderWidth else HeaderName))
    ensures problem.None? ==> row == NameRow(names)
  {
    hide Fold, NameRow;
    var cfg := ImportConfig(plan, csv, true, names);
    FirstLine(cfg, names, row, end);
    FoldConcat(cfg, Running(INITIAL), PrintRow(csv, row, end), rest);
    if row != NameRow(names) { FoldOfFailed(cfg, Fold(cfg, Running(INITIAL), PrintRow(csv, row, end)), rest); }
  }

  lemma FoldOfFailed(cfg: Config, o: Outcome, data: seq<byte>)
    requires o.Failed?
    ensures Fold(cfg, o, data) == o
  {
  }

  lemma StoppedParse(cfg: Config, input: Reads, problem: Option<ImportError>, taken: seq<Row>)
    requires StopsAs(cfg, input, problem, taken)
    ensures var o := Parse(cfg, Flatten(input.chunks));
            && (problem.None? <==> input.end == EndOfFile && o.Running?)
            && (problem.None? ==> taken == o.st.rows)
  {
    hide Fold;
  }

  /** After a successful BeginInsert: read, parse, send in batches, end the insert, or decide
      how to recover. */
  method InsertFromStream(plan: Plan, csv: bool, header: bool, names: seq<seq<byte>>, input: Reads, endInsertOk: bool)
    returns (total: Option<nat>, problem: Option<ImportError>, onRow: RowBatcher, recovery: Recovery)
    requires plan.Valid() && |names| == plan.width
    ensures onRow.plan == plan && fresh(onRow)
    ensures StopsAs(ImportConfig(plan, csv, header, names), input, problem, onRow.taken)
    ensures onRow.Sentby(if problem.None? && LastBatchSent(plan, onRow.taken) then AllBatches(plan, onRow.taken)
                         else ProgressOf(plan, onRow.taken).batches)
    ensures var o := Parse(ImportConfig(plan, csv, header, names), Flatten(input.chunks));
            && (total.Some? <==> input.end == EndOfFile && o.Running? && LastBatchSent(plan, o.st.rows) && endInsertOk)
            && (total.Some? ==>
                  && IsTable(o.st.rows, plan.width)
                  && total.value == |o.st.rows|
                  && onRow.Sentby(AllBatches(plan, o.st.rows)))
    ensures var end := EndOf(plan, problem, onRow.taken);
            && |onRow.sent| == end.sent && onRow.blockDirty == end.dirty
            && (total.Some? <==> end.clean && endInsertOk)
            && recovery == RecoveryOf(end, endInsertOk)
  {
    hide StopsAs, Parse, ProgressOf, Columns, NullsAllowed;
    onRow := new RowBatcher(plan);
    var parser := new InsertStreamParser(ImportConfig(plan, csv, header, names));
    problem := ReadAll(input, parser, onRow);
    StoppedParse(parser.cfg, input, problem, onRow.taken);
    if problem.None? {
      ghost var p := onRow.Now();
      var ok := onRow.FlushBatch(p.waiting);
      if ok && endInsertOk {
        return Some(onRow.totalRows), None, onRow, NothingToRecover;
      }
    }
    total := None;
    recovery := if onRow.blockDirty || onRow.sentAnyBlock then ResetConnection else EndInsertElseReset;
  }

  //// From export to import

  /** The same parser with a row handler that never throws. */
  function Unrefusing(cfg: Config): Config {
    cfg.(takes := (_, _) => true)
  }

  /** From one row list to a longer one, the handler takes every row in turn. */
  ghost predicate TakesFromTo(cfg: Config, rows: seq<Row>, more: seq<Row>) {
    && rows <= more
    && forall i :: |rows| <= i < |more| ==> cfg.takes(more[..i], more[i])
  }

  /** An outcome of the unrefusing parser is also that of the real one, as long as the
      handler takes the rows that are new in it. */
  ghost predicate Agrees(cfg: Config, before: seq<Row>, unrefusing: Outcome, actual: Outcome) {
    unrefusing.Running? ==>
      && before <= unrefusing.st.rows
      && (TakesFromTo(cfg, before, unrefusing.st.rows) ==> actual == unrefusing)
  }

  lemma FinishRowAgrees(cfg: Config, st: State)
    ensures Agrees(cfg, st.rows, FinishRow(Unrefusing(cfg), st), FinishRow(cfg, st))
  {
    var o := FinishRow(Unrefusing(cfg), st);
    if o.Running? && o.st.rows != st.rows {
      var more := st.rows + [st.cells];
      assert more[..|st.rows|] == st.rows && more[|st.rows|] == st.cells;
    }
  }

  lemma EndLineAgrees(cfg: Config, st: State, b: byte)
    ensures Agrees(cfg, st.rows, EndLine(Unrefusing(cfg), st, b), EndLine(cfg, st, b))
  {
    var st' := if b == CR then st.(prevCR := true) else st;
    FinishRowAgrees(cfg, FinishCell(cfg, st'));
    assert FinishCell(Unrefusing(cfg), st') == FinishCell(cfg, st');
  }

  /** Only finished rows meet the handler. */
  lemma CellsAgree(cfg: Config, st: State, b: byte)
    ensures FinishCell(Unrefusing(cfg), st) == FinishCell(cfg, st) && FinishCell(cfg, st).rows == st.rows
    ensures PlainByte(Unrefusing(cfg), st, b) == PlainByte(cfg, st, b)
    ensures PlainByte(cfg, st, b).Running? ==> PlainByte(cfg, st, b).st.rows == st.rows
  {
  }

  lemma UnquotedAgrees(cfg: Config, st: State, b: byte)
    ensures Agrees(cfg, st.rows, Unquoted(Unrefusing(cfg), st, b), Unquoted(cfg, st, b))
  {
    hide EndLine, PlainByte, FinishCell;
    EndLineAgrees(cfg, st, b);
    CellsAgree(cfg, st, b);
  }

  lemma AnyByteAgrees(cfg: Config, st: State, b: byte)
    ensures Agrees(cfg, st.rows, AnyByte(Unrefusing(cfg), st, b), AnyByte(cfg, st, b))
  {
    hide EndLine, PlainByte;
    var st' := if st.prevCR && b == LF then st else st.(blanks := 0);
    if cfg.csv && st.phase == InQuoted {
    } else if cfg.csv && st.phase == QuotePending {
      if b == Separator(cfg.csv) || b == LF || b == CR {
        UnquotedAgrees(cfg, st'.(phase := InCell), b);
      }
    } else {
      UnquotedAgrees(cfg, st', b);
    }
  }

  lemma StepAgrees(cfg: Config, st: State, b: byte)
    ensures Agrees(cfg, st.rows, Step(Unrefusing(cfg), st, b), Step(cfg, st, b))
  {
    var st' := st.(pendingBackslash := false, phase := if st.phase == CellStart then InCell else st.phase);
    AnyByteAgrees(cfg, DecodeEscape(st', b), b);
    AnyByteAgrees(cfg, st, b);
  }

  lemma TakesInTwoParts(cfg: Config, a: seq<Row>, b: seq<Row>, c: seq<Row>)
    requires a <= b <= c && TakesFromTo(cfg, a, c)
    ensures TakesFromTo(cfg, a, b) && TakesFromTo(cfg, b, c)
  {
    forall i | |a| <= i < |b| ensures cfg.takes(b[..i], b[i]) {
      assert b[..i] == c[..i] && b[i] == c[i];
    }
  }

  lemma {:induction false} FoldAgrees(cfg: Config, st: State, data: seq<byte>)
    ensures Agrees(cfg, st.rows, Fold(Unrefusing(cfg), Running(st), data), Fold(cfg, Running(st), data))
    decreases |data|
  {
    if data != [] {
      var o := Step(Unrefusing(cfg), st, data[0]);
      StepAgrees(cfg, st, data[0]);
      if o.Running? {
        FoldAgrees(cfg, o.st, data[1..]);
        var end := Fold(Unrefusing(cfg), o, data[1..]);
        if end.Running? && TakesFromTo(cfg, st.rows, end.st.rows) {
          TakesInTwoParts(cfg, st.rows, o.st.rows, end.st.rows);
        }
      }
    }
  }

  lemma FinishAgrees(cfg: Config, st: State)
    ensures Agrees(cfg, st.rows, Finish(Unrefusing(cfg), Running(st)), Finish(cfg, Running(st)))
  {
    var read := if st.pendingBackslash
                then st.(cellBuf := st.cellBuf + [BACKSLASH], pendingBackslash := false,
                         phase := if st.phase == CellStart then InCell else st.phase)
                else st;
    var last := read.(phase := if read.phase == QuotePending then InCell else read.phase, blanks := 0);
    FinishRowAgrees(cfg, FinishCell(cfg, last));
    assert FinishCell(Unrefusing(cfg), last) == FinishCell(cfg, last);
  }

  /** Rows the handler takes one after the other are delivered as if it took everything. */
  lemma ParseAgrees(cfg: Config, data: seq<byte>, rows: seq<Row>)
    requires Delivers(Parse(Unrefusing(cfg), data), rows) && TakesFromTo(cfg, [], rows)
    ensures Delivers(Parse(cfg, data), rows)
  {
    var o := Fold(Unrefusing(cfg), Running(INITIAL), data);
    FoldAgrees(cfg, INITIAL, data);
    FinishAgrees(cfg, o.st);
    TakesInTwoParts(cfg, [], o.st.rows, rows);
  }

  /** Exporting a table and importing the text again sends exactly the rows of the table:
      whatever bytes they hold, whichever format, however the stream cuts the text, as long
      as no row is a lone empty text, NULLs meet nullable columns and every block is sent. */
  lemma ExportThenImport(plan: Plan, csv: bool, header: bool, names: seq<seq<byte>>, rows: seq<Row>, chunks: seq<seq<byte>>)
    requires plan.Valid() && IsTable(rows, plan.width) && |names| == plan.width && names != [[]]
    requires forall j :: 0 <= j < |rows| ==> !IsBlank(rows[j]) && NullsAllowed(plan, rows[j])
    requires forall k: nat :: plan.flush(k) == Sent
    requires Flatten(chunks) == Export(csv, header, names, rows)
    ensures Delivers(Parse(ImportConfig(plan, csv, header, names), Flatten(chunks)), rows)
    ensures LastBatchSent(plan, rows)
    ensures Flatten(AllBatches(plan, rows)) == rows
  {
    ImportConservesRows(plan, rows);
    var cfg := ImportConfig(plan, csv, header, names);
    ExportImport(Unrefusing(cfg), names, rows);
    ParseAgrees(cfg, Flatten(chunks), rows);
  }
}
