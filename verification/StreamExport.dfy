/** selectToStream: rows are appended to a buffer cell by cell, and the buffer is written out
    after every block by a stream that may take only part of it. */
module StreamExport {
  import opened Bytes
  import opened TextFormat

  lemma {:induction false} PrintRowsConcat(csv: bool, a: seq<Row>, b: seq<Row>, ea: seq<LineEnd>, eb: seq<LineEnd>)
    requires |a| == |ea| && |b| == |eb|
    ensures PrintRows(csv, a + b, ea + eb) == PrintRows(csv, a, ea) + PrintRows(csv, b, eb)
  {
    if a == [] {
      assert a + b == b && ea + eb == eb;
    } else {
      assert (a + b)[1..] == a[1..] + b && (ea + eb)[1..] == ea[1..] + eb;
      PrintRowsConcat(csv, a[1..], b, ea[1..], eb);
    }
  }

  lemma ExportSnoc(csv: bool, header: bool, names: seq<seq<byte>>, rows: seq<Row>, row: Row)
    ensures Export(csv, header, names, rows + [row])
         == Export(csv, header, names, rows) + PrintRow(csv, row, ExportLineEnd(csv))
  {
    var lines := (if header then [NameRow(names)] else []) + rows;
    var end := ExportLineEnd(csv);
    assert (if header then [NameRow(names)] else []) + (rows + [row]) == lines + [row];
    assert seq(|lines + [row]|, _ => end) == seq(|lines|, _ => end) + [end];
    PrintRowsConcat(csv, lines, [row], seq(|lines|, _ => end), [end]);
    assert PrintRows(csv, [row], [end]) == PrintRow(csv, row, end);
  }

  /** What a line still prints from cell c on. */
  function CellsFrom(csv: bool, row: Row, c: nat): seq<byte>
    requires c <= |row|
  {
    (if 0 < c < |row| then [Separator(csv)] else []) + PrintCells(csv, row[c..])
  }

  lemma CellsFromStep(csv: bool, row: Row, c: nat)
    requires c < |row|
    ensures CellsFrom(csv, row, c)
         == (if 0 < c then [Separator(csv)] else []) + (PrintCell(csv, row[c]) + CellsFrom(csv, row, c + 1))
  {
    hide PrintCell;
    assert row[c..][1..] == row[c + 1..];
    if |row| == c + 1 {
      assert CellsFrom(csv, row, c + 1) == [];
    } else {
      Assoc(PrintCell(csv, row[c]), [Separator(csv)], PrintCells(csv, row[c + 1..]));
    }
  }

  lemma OneMoreCell(csv: bool, buf: seq<byte>, row: Row, c: nat)
    requires c < |row|
    ensures (if 0 < c then buf + [Separator(csv)] else buf) + PrintCell(csv, row[c]) + CellsFrom(csv, row, c + 1)
         == buf + CellsFrom(csv, row, c)
  {
    var rest := PrintCell(csv, row[c]) + CellsFrom(csv, row, c + 1);
    CellsFromStep(csv, row, c);
    Assoc(buf, [Separator(csv)], rest);
    Assoc(if 0 < c then buf + [Separator(csv)] else buf, PrintCell(csv, row[c]), CellsFrom(csv, row, c + 1));
    assert [] + rest == rest;
  }

  lemma EscapeNothing(buf: seq<byte>)
    ensures buf + TsvEscape([]) == buf
  {
  }

  lemma DoubleStep(buf: seq<byte>, s: seq<byte>, i: nat)
    requires i < |s|
    ensures buf + CsvDoubleQuotes(s[i..])
         == (buf + (if s[i] == QUOTE then [QUOTE, QUOTE] else [s[i]])) + CsvDoubleQuotes(s[i + 1..])
  {
    assert s[i..][1..] == s[i + 1..];
    Assoc(buf, if s[i] == QUOTE then [QUOTE, QUOTE] else [s[i]], CsvDoubleQuotes(s[i + 1..]));
  }

  lemma EscapeStep(buf: seq<byte>, s: seq<byte>, i: nat)
    requires i < |s|
    ensures buf + TsvEscape(s[i..]) == (buf + TsvEscapeByte(s[i])) + TsvEscape(s[i + 1..])
  {
    assert s[i..][1..] == s[i + 1..];
    Assoc(buf, TsvEscapeByte(s[i]), TsvEscape(s[i + 1..]));
  }

  class StreamPrinter {
    const csv: bool
    const header: bool
    var headerWritten: bool
    var buf: seq<byte>
    var written: seq<byte>
    var reactions: seq<int>
    var totalRows: nat

    constructor (csv: bool, header: bool, reactions: seq<int>)
      ensures this.csv == csv && this.header == header && this.reactions == reactions
      ensures !headerWritten && buf == [] && written == [] && totalRows == 0
    {
      this.csv, this.header, this.reactions := csv, header, reactions;
      headerWritten, buf, written, totalRows := false, [], [], 0;
    }

    method TsvAppendEscaped(s: seq<byte>)
      modifies this`buf
      ensures buf == old(buf) + TsvEscape(s)
    {
      hide TsvEscape;
      var i := 0;
      assert s[0..] == s;
      while i < |s|
        invariant 0 <= i <= |s|
        invariant buf + TsvEscape(s[i..]) == old(buf) + TsvEscape(s)
      {
        var c := s[i];
        EscapeStep(buf, s, i);
        if c == BACKSLASH {
          buf := buf + [BACKSLASH, BACKSLASH];
        } else if c == TAB {
          buf := buf + [BACKSLASH, LOWER_T];
        } else if c == LF {
          buf := buf + [BACKSLASH, LOWER_N];
        } else if c == CR {
          buf := buf + [BACKSLASH, LOWER_R];
        } else if c == NUL {
          buf := buf + [BACKSLASH, DIGIT_ZERO];
        } else {
          buf := buf + [c];
        }
        i := i + 1;
      }
      assert s[i..] == [];
      EscapeNothing(buf);
    }

    method CsvAppendEscaped(s: seq<byte>)
      modifies this`buf
      ensures buf == old(buf) + CsvEscape(s)
    {
      var needsQuoting := s == NULL_MARK;
      var i := 0;
      while i < |s|
        invariant 0 <= i <= |s|
        invariant needsQuoting ==> CsvNeedsQuoting(s)
        invariant !needsQuoting ==> s != NULL_MARK && forall j :: 0 <= j < i ==> !CsvSpecial(s[j])
      {
        if CsvSpecial(s[i]) {
          needsQuoting := true;
          break;
        }
        i := i + 1;
      }
      if !needsQuoting {
        assert !CsvNeedsQuoting(s);
        buf := buf + s;
        return;
      }
      hide CsvDoubleQuotes;
      buf := buf + [QUOTE];
      AppendDoubled(s);
      buf := buf + [QUOTE];
    }

    method AppendDoubled(s: seq<byte>)
      modifies this`buf
      ensures buf == old(buf) + CsvDoubleQuotes(s)
    {
      var i := 0;
      assert s[0..] == s;
      while i < |s|
        invariant 0 <= i <= |s|
        invariant buf + CsvDoubleQuotes(s[i..]) == old(buf) + CsvDoubleQuotes(s)
      {
        hide CsvDoubleQuotes;
        DoubleStep(buf, s, i);
        if s[i] == QUOTE {
          buf := buf + [QUOTE, QUOTE];
        } else {
          buf := buf + [s[i]];
        }
        i := i + 1;
      }
      assert s[i..] == [] && buf + [] == buf;
    }

    method AppendCell(cell: Cell)
      modifies this`buf
      ensures buf == old(buf) + PrintCell(csv, cell)
    {
      match cell
      case Null =>
        buf := buf + NULL_MARK;
      case Text(s) =>
        if csv {
          CsvAppendEscaped(s);
        } else {
          TsvAppendEscaped(s);
        }
    }

    method AppendCells(row: Row)
      modifies this`buf
      ensures buf == old(buf) + PrintCells(csv, row)
    {
      var c := 0;
      ghost var goal := CellsFrom(csv, row, 0);
      assert row[0..] == row && goal == PrintCells(csv, row);
      while c < |row|
        invariant 0 <= c <= |row|
        invariant buf + CellsFrom(csv, row, c) == old(buf) + goal
      {
        ghost var before := buf;
        if c > 0 {
          buf := buf + [Separator(csv)];
        }
        AppendCell(row[c]);
        OneMoreCell(csv, before, row, c);
        c := c + 1;
      }
      assert CellsFrom(csv, row, c) == [] && buf + [] == buf;
    }

    /** One line: the header names and the rows of a block are printed by the same loop. */
    method AppendLine(row: Row)
      modifies this`buf
      ensures buf == old(buf) + PrintRow(csv, row, ExportLineEnd(csv))
    {
      AppendCells(row);
      Assoc(old(buf), PrintCells(csv, row), LineEndBytes(ExportLineEnd(csv)));
      buf := buf + LineEndBytes(ExportLineEnd(csv));
    }

    /** What has been printed, written out or not. */
    ghost function Printed(): seq<byte>
      reads this
    {
      written + buf
    }

    method AppendRows(names: seq<seq<byte>>, rows: seq<Row>, ghost before: seq<Row>)
      requires Printed() == Export(csv, header, names, before)
      modifies this`buf, this`totalRows
      ensures Printed() == Export(csv, header, names, before + rows)
      ensures totalRows == old(totalRows) + |rows|
    {
      var r := 0;
      assert before + rows[..0] == before;
      while r < |rows|
        invariant 0 <= r <= |rows| && totalRows == old(totalRows) + r
        invariant Printed() == Export(csv, header, names, before + rows[..r])
      {
        ghost var buffered := buf;
        AppendLine(rows[r]);
        Assoc(written, buffered, PrintRow(csv, rows[r], ExportLineEnd(csv)));
        ExportSnoc(csv, header, names, before + rows[..r], rows[r]);
        assert before + rows[..r + 1] == before + rows[..r] + [rows[r]];
        totalRows := totalRows + 1;
        r := r + 1;
      }
      assert rows[..r] == rows;
    }

    /** The callback for one block of the result: its text, after the header if it is the first, is
        written, or as much of it as the stream takes before it reports an error. */
    method OnData(names: seq<seq<byte>>, rows: seq<Row>, ghost before: seq<Row>) returns (ok: bool)
      requires if headerWritten then written == Export(csv, header, names, before) && buf == []
               else written == [] && buf == [] && before == []
      modifies this
      ensures names == [] ==> ok && written == old(written) && buf == old(buf) && headerWritten == old(headerWritten)
                              && reactions == old(reactions)
      ensures names != [] ==>
                var text := Export(csv, header && !old(headerWritten), names, rows);
                && headerWritten && (ok <==> |text| <= Room(old(reactions))) && reactions == Left(old(reactions), |text|)
                && written == old(written) + text[..if ok then |text| else Room(old(reactions))]
      ensures ok && names != [] ==> buf == [] && written == Export(csv, header, names, before + rows)
      ensures ok && names != [] ==> totalRows == old(totalRows) + |rows|
    {
      if |names| == 0 {
        return true;
      }
      ghost var text := Export(csv, header && !headerWritten, names, rows);
      BlockTextFollows(csv, header, names, before, rows, headerWritten);
      if !headerWritten {
        if header {
          AppendLine(NameRow(names));
          ExportSnoc(csv, false, names, [], NameRow(names));
          assert [] + [NameRow(names)] == [NameRow(names)] + [] == [NameRow(names)];
        }
        headerWritten := true;
        assert Printed() == Export(csv, header, names, []);
      }
      AppendRows(names, rows, before);
      assert buf == text by { SameTail(written, buf, text); }
      ok := FlushStreamBuf();
      assert text[..|text|] == text;
    }

    /** The stream takes some bytes off the front, or reports an error with a result <= 0: it follows a
        list of results, and reports an error when that is used up. */
    method PhpStreamWrite(data: seq<byte>) returns (w: int)
      modifies this`written, this`reactions
      ensures w == if old(reactions) == [] then -1 else if old(reactions)[0] <= |data| then old(reactions)[0] else |data|
      ensures written == old(written) + data[..if w > 0 then w else 0]
      ensures reactions == if old(reactions) == [] then [] else old(reactions)[1..]
    {
      w := -1;
      if reactions != [] {
        w := if reactions[0] <= |data| then reactions[0] else |data|;
        reactions := reactions[1..];
      }
      written := written + data[..if w > 0 then w else 0];
    }

    /** Everything is written exactly if the stream takes it before it reports an error; otherwise what it
        takes until then. */
    method FlushStreamBuf() returns (ok: bool)
      modifies this`written, this`buf, this`reactions
      ensures ok <==> |old(buf)| <= Room(old(reactions))
      ensures written == old(written) + old(buf)[..if ok then |old(buf)| else Room(old(reactions))]
      ensures reactions == Left(old(reactions), |old(buf)|)
      ensures ok ==> buf == []
    {
      var n := |buf|;
      var off := 0;
      assert buf[..n] == buf;
      while off < n
        invariant 0 <= off <= n && buf == old(buf)
        invariant written == old(written) + buf[..off]
        invariant off + Room(reactions) == Room(old(reactions)) || (off == n && n <= Room(old(reactions)))
        invariant Left(reactions, n - off) == Left(old(reactions), n)
      {
        ghost var before := reactions;
        var w := PhpStreamWrite(buf[off..]);
        assert w > 0 ==> buf[..off + w] == buf[..off] + buf[off..][..w];
        if w <= 0 {
          assert Room(before) == 0;
          return false;
        }
        off := off + w;
      }
      buf := [];
      ok := true;
    }
  }

  /** How many bytes a stream takes before it reports an error. */
  function Room(reactions: seq<int>): nat {
    if reactions == [] || reactions[0] <= 0 then 0 else reactions[0] + Room(reactions[1..])
  }

  /** The results behind those that writing n bytes uses up. */
  function Left(reactions: seq<int>, n: nat): seq<int> {
    if n == 0 || reactions == [] then reactions
    else if reactions[0] <= 0 || n <= reactions[0] then reactions[1..]
    else Left(reactions[1..], n - reactions[0])
  }

  lemma BlockTextFollows(csv: bool, header: bool, names: seq<seq<byte>>, before: seq<Row>, rows: seq<Row>, written: bool)
    requires !written ==> before == []
    ensures Export(csv, header, names, before + rows)
         == (if written then Export(csv, header, names, before) else []) + Export(csv, header && !written, names, rows)
  {
    if written {
      ExportConcat(csv, header, names, before, rows);
    } else {
      assert before + rows == rows && [] + Export(csv, header, names, rows) == Export(csv, header, names, rows);
    }
  }

  lemma ExportConcat(csv: bool, header: bool, names: seq<seq<byte>>, a: seq<Row>, b: seq<Row>)
    ensures Export(csv, header, names, a + b) == Export(csv, header, names, a) + Export(csv, false, names, b)
  {
    var lines := (if header then [NameRow(names)] else []) + a;
    var end := ExportLineEnd(csv);
    assert (if header then [NameRow(names)] else []) + (a + b) == lines + b && [] + b == b;
    assert seq(|lines + b|, _ => end) == seq(|lines|, _ => end) + seq(|b|, _ => end);
    PrintRowsConcat(csv, lines, b, seq(|lines|, _ => end), seq(|b|, _ => end));
  }

  lemma SameTail(a: seq<byte>, b: seq<byte>, c: seq<byte>)
    requires a + b == a + c
    ensures b == c
  {
    assert (a + b)[|a|..] == b && (a + c)[|a|..] == c;
  }

  /** The texts of the blocks, of which the first has the header. */
  function Texts(csv: bool, header: bool, names: seq<seq<byte>>, blocks: seq<seq<Row>>): seq<seq<byte>> {
    if blocks == [] then [] else [Export(csv, header, names, blocks[0])] + Texts(csv, false, names, blocks[1..])
  }

  /** Every text is taken whole, one after the other. */
  predicate AllTaken(reactions: seq<int>, texts: seq<seq<byte>>)
    decreases |texts|
  {
    texts == [] || (|texts[0]| <= Room(reactions) && AllTaken(Left(reactions, |texts[0]|), texts[1..]))
  }

  /** A whole export: one callback per block, each block flushed. It succeeds exactly if the stream takes
      the text of every block; then it holds the printed table, and otherwise the beginning of it. */
  method SelectToStream(csv: bool, header: bool, names: seq<seq<byte>>, blocks: seq<seq<Row>>, reactions: seq<int>)
    returns (ok: bool, total: nat, written: seq<byte>)
    requires names != []
    ensures ok <==> AllTaken(reactions, Texts(csv, header, names, blocks))
    ensures ok ==> written == if blocks == [] then [] else Export(csv, header, names, Flatten(blocks))
    ensures ok ==> total == |Flatten(blocks)|
    ensures written <= Export(csv, header, names, Flatten(blocks))
  {
    hide Export, Texts, AllTaken, Room, Left;
    var printer := new StreamPrinter(csv, header, reactions);
    var b := 0;
    assert blocks[0..] == blocks;
    while b < |blocks|
      invariant 0 <= b <= |blocks| && printer.csv == csv && printer.header == header
      invariant printer.headerWritten == (b > 0) && printer.buf == []
      invariant printer.written == if b == 0 then [] else Export(csv, header, names, Flatten(blocks[..b]))
      invariant printer.totalRows == |Flatten(blocks[..b])|
      invariant AllTaken(printer.reactions, Texts(csv, header && b == 0, names, blocks[b..]))
                == AllTaken(reactions, Texts(csv, header, names, blocks))
    {
      ghost var before, text := printer.written, Export(csv, header && b == 0, names, blocks[b]);
      BlockTextFollows(csv, header, names, Flatten(blocks[..b]), blocks[b], b > 0);
      RestFollows(csv, header, names, blocks, b);
      TextsStep(csv, header && b == 0, names, blocks, b, printer.reactions);
      ok := printer.OnData(names, blocks[b], Flatten(blocks[..b]));
      assert printer.written <= before + text;
      if !ok {
        return false, 0, printer.written;
      }
      b := b + 1;
    }
    assert blocks[..b] == blocks;
    NoBlocksLeft(csv, header && b == 0, names, blocks[b..], printer.reactions);
    return true, printer.totalRows, printer.written;
  }

  lemma NoBlocksLeft(csv: bool, header: bool, names: seq<seq<byte>>, none: seq<seq<Row>>, reactions: seq<int>)
    requires none == []
    ensures AllTaken(reactions, Texts(csv, header, names, none)) && Flatten(none) == []
  {
  }

  lemma TextsStep(csv: bool, header: bool, names: seq<seq<byte>>, blocks: seq<seq<Row>>, b: nat, reactions: seq<int>)
    requires b < |blocks|
    ensures var text := Export(csv, header, names, blocks[b]);
            AllTaken(reactions, Texts(csv, header, names, blocks[b..]))
            <==> |text| <= Room(reactions) && AllTaken(Left(reactions, |text|), Texts(csv, false, names, blocks[b + 1..]))
  {
    hide Export;
    assert blocks[b..][1..] == blocks[b + 1..];
  }

  /** The text up to and with a block is the beginning of the whole. */
  lemma RestFollows(csv: bool, header: bool, names: seq<seq<byte>>, blocks: seq<seq<Row>>, b: nat)
    requires b < |blocks|
    ensures Flatten(blocks[..b + 1]) == Flatten(blocks[..b]) + blocks[b]
    ensures Export(csv, header, names, Flatten(blocks[..b]) + blocks[b]) <= Export(csv, header, names, Flatten(blocks))
  {
    hide Export, Flatten;
    assert blocks[..b + 1] == blocks[..b] + [blocks[b]];
    FlattenSnoc(blocks[..b], blocks[b]);
    FlattenSplit(blocks, b + 1);
    ExportConcat(csv, header, names, Flatten(blocks[..b + 1]), Flatten(blocks[b + 1..]));
  }

  lemma FlattenSplit(blocks: seq<seq<Row>>, k: nat)
    requires k <= |blocks|
    ensures Flatten(blocks) == Flatten(blocks[..k]) + Flatten(blocks[k..])
  {
    hide Flatten;
    FlattenConcat(blocks[..k], blocks[k..]);
    assert blocks[..k] + blocks[k..] == blocks;
  }
}
