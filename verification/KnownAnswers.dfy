/** Known answers: small values with their bytes written out, from the formats' own definitions. They
    fix what laws that relate a writer to its reader leave open. */
module KnownAnswers {
  import opened Bytes
  import W = WireFormat
  import C = ColumnTree
  import T = TextFormat
  import S = SqlText
  import Q = QuotedString
  import D = DateTime64
  import N = DecimalText
  import L = Int128Text

  /** Base 128, the lowest seven bits first, the high bit on all bytes but the last. */
  lemma Varints()
    ensures W.Varint(0) == [0] && W.Varint(127) == [127] && W.Varint(128) == [128, 1] && W.Varint(300) == [172, 2]
    ensures W.Varint(624485) == [229, 142, 38]
    ensures W.StringBytes([72, 105]) == [2, 72, 105]
  {
    assert W.Varint(1) == [1] && W.Varint(2) == [2] && W.Varint(38) == [38];
    assert W.Varint(4878) == [142, 38];
  }

  /** Little endian. */
  lemma FixedWidths()
    ensures W.Fixed(2, 258) == [2, 1] && W.Fixed(4, 16909060) == [4, 3, 2, 1]
    ensures W.Fixed(8, 1) == [1, 0, 0, 0, 0, 0, 0, 0]
  {
    assert W.Fixed(2, 258) == [2] + W.Fixed(1, 1) && W.Fixed(1, 1) == [1] + W.Fixed(0, 0);
    assert W.Fixed(3, 66051) == [3] + W.Fixed(2, 258);
    assert W.Fixed(4, 16909060) == [4] + W.Fixed(3, 66051);
    Low(1);
  }

  /** A small number in eight bytes. */
  lemma Low(v: byte)
    ensures W.Fixed(8, v) == [v, 0, 0, 0, 0, 0, 0, 0]
  {
    Zeros(7);
    assert W.Fixed(8, v) == [v] + W.Fixed(7, 0);
  }

  lemma {:induction false} Zeros(n: nat)
    ensures W.Fixed(n, 0) == seq(n, _ => 0)
  {
    if n > 0 {
      Zeros(n - 1);
      assert W.Fixed(n, 0) == [0] + W.Fixed(n - 1, 0);
    }
  }

  /** Cells end to end; counted strings. */
  lemma Cells()
    ensures C.Save(C.FixedColumn(2, [[1, 2], [3, 4]])) == [1, 2, 3, 4]
    ensures C.Save(C.StringColumn([[65], [66, 67]])) == [1, 65, 2, 66, 67]
  {
    ShortStrings();
    Two([1, 2], [3, 4]);
  }

  /** Null map before values. */
  lemma NullColumn()
    ensures C.Save(C.NullableColumn(C.StringColumn([[], [65]]), [1, 0])) == [1, 0, 0, 1, 65]
  {
    ShortStrings();
    assert C.SaveBody(C.StringColumn([[], [65]])) == [0, 1, 65];
  }

  /** Fields one after the other. */
  lemma Fields()
    ensures C.Save(C.TupleColumn([C.FixedColumn(1, [[7]]), C.StringColumn([[65]])])) == [7, 1, 65]
  {
    ShortStrings();
    var f, t := C.FixedColumn(1, [[7]]), C.StringColumn([[65]]);
    assert Flatten([[7]]) == [7] && C.SaveBody(f) == [7];
    Pair(f, t);
    assert C.SaveBody(t) == [1, 65] && C.SavePrefix(f) == [] && C.SavePrefix(t) == [];
    assert C.Save(C.TupleColumn([f, t])) == [] + ([7] + [1, 65]);
  }

  /** Both prefixes, then both bodies. */
  lemma Pair(f: C.Column, t: C.Column)
    ensures C.Save(C.TupleColumn([f, t])) == (C.SavePrefix(f) + C.SavePrefix(t)) + (C.SaveBody(f) + C.SaveBody(t))
  {
    Prefixes(f, t);
    Bodies(f, t);
  }

  lemma Prefixes(f: C.Column, t: C.Column)
    ensures C.SavePrefixes([f, t]) == C.SavePrefix(f) + C.SavePrefix(t)
  {
    assert [f, t][1..] == [t] && [t][1..] == [];
    assert C.SavePrefixes([t]) == C.SavePrefix(t) + C.SavePrefixes([]);
    assert C.SavePrefixes([f, t]) == C.SavePrefix(f) + C.SavePrefixes([t]);
  }

  lemma Bodies(f: C.Column, t: C.Column)
    ensures C.SaveBodies([f, t]) == C.SaveBody(f) + C.SaveBody(t)
  {
    assert [f, t][1..] == [t] && [t][1..] == [];
    assert C.SaveBodies([t]) == C.SaveBody(t) + C.SaveBodies([]);
    assert C.SaveBodies([f, t]) == C.SaveBody(f) + C.SaveBodies([t]);
  }

  /** Offsets before data. */
  lemma Arrays()
    ensures C.Save(C.ArrayColumn(C.FixedColumn(1, [[7], [8], [9]]), [2, 3]))
         == [2, 0, 0, 0, 0, 0, 0, 0] + [3, 0, 0, 0, 0, 0, 0, 0] + [7, 8, 9]
  {
    var d := C.FixedColumn(1, [[7], [8], [9]]);
    assert [[7], [8], [9]][1..] == [[8], [9]];
    Two([8], [9]);
    assert C.SaveBody(d) == [7, 8, 9];
    Low(2);
    Low(3);
    assert [2, 3][1..] == [3];
    assert C.SaveNumbers(8, [3]) == W.Fixed(8, 3);
    assert C.SaveNumbers(8, [2, 3]) == W.Fixed(8, 2) + W.Fixed(8, 3);
  }

  lemma Two(a: seq<byte>, b: seq<byte>)
    ensures Flatten([a, b]) == a + b
  {
    assert [a, b][1..] == [b] && Flatten([b]) == b;
  }

  lemma ShortStrings()
    ensures C.SaveStrings([[65]]) == [1, 65] && C.SaveStrings([[], [65]]) == [0, 1, 65]
    ensures C.SaveStrings([[65], [66, 67]]) == [1, 65, 2, 66, 67]
    ensures C.SaveStrings([[66]]) == [1, 66]
  {
    assert W.Varint(0) == [0] && W.Varint(1) == [1] && W.Varint(2) == [2];
    assert [[], [65]][1..] == [[65]] && [[65], [66, 67]][1..] == [[66, 67]];
    assert C.SaveStrings([[66, 67]]) == [2, 66, 67];
  }

  /** All versions first, then the bodies. */
  lemma VersionsComeFirst()
    ensures C.Save(C.TupleColumn([C.JsonColumn([[65]]), C.JsonColumn([[66]])]))
         == ([1, 0, 0, 0, 0, 0, 0, 0] + [1, 0, 0, 0, 0, 0, 0, 0]) + ([1, 65] + [1, 66])
  {
    ShortStrings();
    Low(1);
    Pair(C.JsonColumn([[65]]), C.JsonColumn([[66]]));
  }

  /** Version; index type and flag; number of values; values; number of rows; indexes. */
  lemma Dictionary()
    ensures var c := C.LowCardinalityColumn(false, C.StringColumn([[], [65]]), 1, [1, 0, 1]);
      && C.SavePrefix(c) == [1, 0, 0, 0, 0, 0, 0, 0]
      && C.SaveBody(c) == [0, 2, 0, 0, 0, 0, 0, 0] + ([2, 0, 0, 0, 0, 0, 0, 0] + ([0, 1, 65]
        + ([3, 0, 0, 0, 0, 0, 0, 0] + [1, 0, 1])))
  {
    var d := C.StringColumn([[], [65]]);
    Low(1);
    Low(2);
    Low(3);
    Head();
    Indexes();
    assert C.SaveBody(d) == [0, 1, 65] by { ShortStrings(); }
    assert C.IndexTypeCode(1) + C.HAS_ADDITIONAL_KEYS == 0x200 && C.Size(d) == 2;
  }

  lemma Indexes()
    ensures C.SaveNumbers(1, [1, 0, 1]) == [1, 0, 1]
  {
    assert [1, 0, 1][1..] == [0, 1] && [0, 1][1..] == [1] && [1][1..] == [];
    assert W.Fixed(1, 1) == [1] && W.Fixed(1, 0) == [0];
    assert C.SaveNumbers(1, [1]) == [1];
    assert C.SaveNumbers(1, [0, 1]) == [0, 1];
  }

  lemma Head()
    ensures W.Fixed(8, 0x200) == [0, 2, 0, 0, 0, 0, 0, 0]
  {
    Zeros(6);
    assert W.Fixed(7, 2) == [2] + W.Fixed(6, 0);
    assert W.Fixed(8, 0x200) == [0] + W.Fixed(7, 2);
  }

  /** a, NULL and b: tabs and a line feed. */
  lemma TsvLine()
    ensures T.PrintRow(false, [T.Text([97]), T.Null, T.Text([98])], T.ExportLineEnd(false))
         == [97, 9, 92, 78, 9, 98] + [10]
  {
    var t := [T.Text([97]), T.Null, T.Text([98])];
    assert t[1..] == [T.Null, T.Text([98])] && t[1..][1..] == [T.Text([98])];
    assert T.TsvEscape([97]) == [97] && T.TsvEscape([98]) == [98];
    assert T.PrintCells(false, t[1..]) == [92, 78, 9, 98];
  }

  /** a, NULL and a text with a comma: commas, quotes and CR LF. */
  lemma CsvLine()
    ensures T.PrintRow(true, [T.Text([97]), T.Null, T.Text([98, 44])], T.ExportLineEnd(true))
         == [97, 44, 92, 78, 44, 34, 98, 44, 34] + [13, 10]
  {
    var c := [T.Text([97]), T.Null, T.Text([98, 44])];
    assert c[1..] == [T.Null, T.Text([98, 44])] && c[1..][1..] == [T.Text([98, 44])];
    CsvCells();
    assert T.PrintCells(true, c[1..]) == [92, 78, 44, 34, 98, 44, 34];
  }

  lemma CsvCells()
    ensures T.CsvEscape([97]) == [97] && T.CsvEscape([98, 44]) == [34, 98, 44, 34] && T.CsvEscape([34]) == [34, 34, 34, 34]
  {
    var s: seq<byte> := [98, 44];
    assert s[1] == COMMA && T.CsvNeedsQuoting(s);
    assert s[1..] == [44] && T.CsvDoubleQuotes([44]) == [44];
    var q: seq<byte> := [34];
    assert q[0] == QUOTE && T.CsvNeedsQuoting(q) && T.CsvDoubleQuotes(q) == [34, 34];
  }

  lemma Escapes()
    ensures T.TsvEscape([9, 10, 13, 0, 92]) == [92, 116, 92, 110, 92, 114, 92, 48, 92, 92]
  {
    var s: seq<byte> := [9, 10, 13, 0, 92];
    assert s[1..] == [10, 13, 0, 92] && s[2..] == [13, 0, 92] && s[3..] == [0, 92] && s[4..] == [92];
    assert s[1..][1..] == s[2..] && s[2..][1..] == s[3..] && s[3..][1..] == s[4..] && s[4..][1..] == [];
    assert T.TsvEscape(s[4..]) == [92, 92];
    assert T.TsvEscape(s[3..]) == [92, 48, 92, 92];
    assert T.TsvEscape(s[2..]) == [92, 114, 92, 48, 92, 92];
  }

  /** it's, as a literal, and a backquote in an identifier. */
  lemma Sql()
    ensures S.StringLiteral([105, 116, 39, 115]) == [39, 105, 116, 92, 39, 115, 39]
    ensures S.QuotedIdentifier([97, 96]) == [96, 97, 92, 96, 96]
  {
    var s: seq<byte> := [105, 116, 39, 115];
    assert s[1..] == [116, 39, 115] && s[1..][1..] == [39, 115] && s[1..][1..][1..] == [115];
    assert S.Escaped([115]) == [115] && S.Escaped([39, 115]) == [92, 39, 115];
    assert S.Escaped(s) == [105, 116, 92, 39, 115];
    var i: seq<byte> := [97, 96];
    assert i[1..] == [96] && S.EscapedIdentifier([96]) == [92, 96];
  }

  /** a'b'c is logged as a'?'c. */
  lemma Redacted()
    ensures S.Redact([97, 39, 98, 39, 99]) == [97, 39, 63, 39, 99]
  {
    var r: seq<byte> := [97, 39, 98, 39, 99];
    assert r[1..] == [39, 98, 39, 99] && r[1..][1..] == [98, 39, 99] && r[1..][1..][1..] == [39, 99];
    assert [39, 99][1..] == [99];
    assert S.AfterLiteral([39, 99]) == [99];
    assert S.AfterLiteral([98, 39, 99]) == [99];
    assert S.Redact([99]) == [99];
  }

  /** a'b as a query parameter. */
  lemma Parameter()
    ensures Q.Quoted([97, 39, 98]) == [39, 97, 92, 120, 50, 55, 98, 39]
    ensures Q.Quoted([9]) == [39, 92, 92, 92, 116, 39]
  {
    var s: seq<byte> := [97, 39, 98];
    assert s[1..] == [39, 98] && s[1..][1..] == [98];
    assert Q.Coded([98]) == [98] && Q.Coded([39, 98]) == [92, 120, 50, 55, 98];
    assert Q.Coded([9]) == [92, 92, 92, 116];
  }

  /** The widths and limits that decimals and integers are measured by. */
  lemma Limits()
    ensures L.TWO_127 == 170141183460469231731687303715884105728 && L.TWO_128 == 2 * L.TWO_127
    ensures L.MIN_INT128 == -170141183460469231731687303715884105728
    ensures D.MAX_INT64 == 9223372036854775807 && D.MIN_INT64 == -9223372036854775808
    ensures W.TWO_64 == 18446744073709551616
    ensures N.Narrow(2147483647, N.StoreOf(9)) == 2147483647 && N.Narrow(2147483648, N.StoreOf(9)) == -2147483648
    ensures N.Narrow(2147483648, N.StoreOf(10)) == 2147483648
    ensures N.Narrow(9223372036854775807, N.StoreOf(18)) == 9223372036854775807
    ensures N.Narrow(9223372036854775808, N.StoreOf(18)) == -9223372036854775808
    ensures N.Narrow(9223372036854775808, N.StoreOf(19)) == 9223372036854775808
  {
  }
}
