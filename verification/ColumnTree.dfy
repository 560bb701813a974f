/** Native serialization of nested columns: all the prefixes of the tree, then all the bodies. */
module ColumnTree {
  import opened Bytes
  import opened WireFormat

  datatype Type =
    | FixedType(width: nat)       // numbers, dates and FixedString: width bytes a row
    | StringType
    | JsonType
    | NullableType(of: Type)
    | TupleType(fields: seq<Type>)
    | ArrayType(of: Type)
    | MapType(entries: Type)      // an Array of two-field Tuples
    | LowCardinalityType(of: Type)

  /** A column's contents. Fixed-width cells are kept as their bytes. The null map of a
      LowCardinality dictionary is not kept: nullable says whether position 0 is NULL. */
  datatype Column =
    | FixedColumn(width: nat, cells: seq<seq<byte>>)
    | StringColumn(items: seq<seq<byte>>)
    | JsonColumn(items: seq<seq<byte>>)
    | NullableColumn(nested: Column, nulls: seq<byte>)
    | TupleColumn(columns: seq<Column>)
    | ArrayColumn(data: Column, offsets: seq<nat>)
    | MapColumn(entries: Column)
    | LowCardinalityColumn(nullable: bool, dictionary: Column, indexWidth: nat, index: seq<nat>)

  function TypeOf(c: Column): Type
    decreases c, 0
  {
    match c
    case FixedColumn(w, _) => FixedType(w)
    case StringColumn(_) => StringType
    case JsonColumn(_) => JsonType
    case NullableColumn(n, _) => NullableType(TypeOf(n))
    case TupleColumn(cs) => TupleType(TypesOf(cs))
    case ArrayColumn(d, _) => ArrayType(TypeOf(d))
    case MapColumn(e) => MapType(TypeOf(e))
    case LowCardinalityColumn(nullable, d, _, _) =>
      LowCardinalityType(if nullable then NullableType(TypeOf(d)) else TypeOf(d))
  }

  function TypesOf(cs: seq<Column>): seq<Type>
    decreases cs, 1
  {
    if cs == [] then [] else [TypeOf(cs[0])] + TypesOf(cs[1..])
  }

  function Size(c: Column): nat {
    match c
    case FixedColumn(_, cells) => |cells|
    case StringColumn(items) => |items|
    case JsonColumn(items) => |items|
    case NullableColumn(_, nulls) => |nulls|
    case TupleColumn(cs) => if cs == [] then 0 else Size(cs[0])
    case ArrayColumn(_, offsets) => |offsets|
    case MapColumn(e) => Size(e)
    case LowCardinalityColumn(_, _, _, index) => |index|
  }

  //// Saving

  function SaveStrings(items: seq<seq<byte>>): seq<byte> {
    if items == [] then [] else StringBytes(items[0]) + SaveStrings(items[1..])
  }

  function SaveNumbers(width: nat, ns: seq<nat>): seq<byte> {
    if ns == [] then [] else Fixed(width, ns[0]) + SaveNumbers(width, ns[1..])
  }

  const VERSION: nat := 1
  const HAS_ADDITIONAL_KEYS: nat := 0x200

  predicate IsIndexWidth(w: nat) {
    w == 1 || w == 2 || w == 4 || w == 8
  }

  function IndexTypeCode(w: nat): nat {
    if w == 1 then 0 else if w == 2 then 1 else if w == 4 then 2 else 3
  }

  function SavePrefix(c: Column): seq<byte>
    decreases c, 0
  {
    match c
    case JsonColumn(_) => Fixed(8, VERSION)
    case NullableColumn(n, _) => SavePrefix(n)
    case TupleColumn(cs) => SavePrefixes(cs)
    case ArrayColumn(d, _) => SavePrefix(d)
    case MapColumn(e) => SavePrefix(e)
    case LowCardinalityColumn(_, _, _, _) => Fixed(8, VERSION)
    case _ => []
  }

  function SavePrefixes(cs: seq<Column>): seq<byte>
    decreases cs, 1
  {
    if cs == [] then [] else SavePrefix(cs[0]) + SavePrefixes(cs[1..])
  }

  function SaveBody(c: Column): seq<byte>
    decreases c, 0
  {
    match c
    case FixedColumn(_, cells) => Flatten(cells)
    case StringColumn(items) => SaveStrings(items)
    case JsonColumn(items) => SaveStrings(items)
    case NullableColumn(n, nulls) => nulls + SaveBody(n)
    case TupleColumn(cs) => SaveBodies(cs)
    case ArrayColumn(d, offsets) => SaveNumbers(8, offsets) + (if Size(d) > 0 then SaveBody(d) else [])
    case MapColumn(e) => SaveBody(e)
    case LowCardinalityColumn(_, d, w, index) =>
      Fixed(8, IndexTypeCode(w) + HAS_ADDITIONAL_KEYS) + (Fixed(8, Size(d)) + (SaveBody(d)
        + (Fixed(8, |index|) + SaveNumbers(w, index))))
  }

  function SaveBodies(cs: seq<Column>): seq<byte>
    decreases cs, 1
  {
    if cs == [] then [] else SaveBody(cs[0]) + SaveBodies(cs[1..])
  }

  function Save(c: Column): seq<byte> {
    SavePrefix(c) + SaveBody(c)
  }

  //// Loading

  function LoadCells(input: seq<byte>, width: nat, rows: nat): Option<Read<seq<seq<byte>>>> {
    if rows == 0 then Some(Read([], input))
    else
      match ReadBytes(input, width)
      case None => None
      case Some(Read(cell, rest)) =>
        match LoadCells(rest, width, rows - 1)
        case None => None
        case Some(Read(cells, rest)) => Some(Read([cell] + cells, rest))
  }

  function LoadStrings(input: seq<byte>, rows: nat): Option<Read<seq<seq<byte>>>>
    decreases rows
  {
    if rows == 0 then Some(Read([], input))
    else
      match ReadCounted(input)
      case None => None
      case Some(Read(s, rest)) =>
        match LoadStrings(rest, rows - 1)
        case None => None
        case Some(Read(items, rest)) => Some(Read([s] + items, rest))
  }

  function LoadNumbers(input: seq<byte>, width: nat, rows: nat): (r: Option<Read<seq<nat>>>)
    ensures r.Some? ==> |r.value.value| == rows
    decreases rows
  {
    if rows == 0 then Some(Read([], input))
    else
      match ReadFixed(input, width)
      case None => None
      case Some(Read(n, rest)) =>
        match LoadNumbers(rest, width, rows - 1)
        case None => None
        case Some(Read(ns, rest)) => Some(Read([n] + ns, rest))
  }

  /** The index column of a LowCardinality is loaded without a look at the result: bytes the
      input does not have are left zero. */
  function LoadIndex(input: seq<byte>, width: nat, rows: nat): Read<seq<nat>> {
    match LoadNumbers(input, width, rows)
    case Some(r) => r
    case None =>
      match LoadNumbers(input + seq(width * rows, _ => 0), width, rows)
      case Some(Read(ns, _)) => Read(ns, [])
      case None => Read([], [])
  }

  function Empty(t: Type): Column
    decreases t, 0
  {
    match t
    case FixedType(w) => FixedColumn(w, [])
    case StringType => StringColumn([])
    case JsonType => JsonColumn([])
    case NullableType(of) => NullableColumn(Empty(of), [])
    case TupleType(ts) => TupleColumn(Empties(ts))
    case ArrayType(of) => ArrayColumn(Empty(of), [])
    case MapType(e) => MapColumn(Empty(e))
    case LowCardinalityType(of) =>
      LowCardinalityColumn(of.NullableType?, DefaultDictionary(if of.NullableType? then of.of else of), 4, [])
  }

  /** A new dictionary holds the default value. */
  function DefaultDictionary(t: Type): Column {
    match t
    case FixedType(w) => FixedColumn(w, [seq(w, _ => 0)])
    case _ => StringColumn([[]])
  }

  function Empties(ts: seq<Type>): seq<Column>
    decreases ts, 1
  {
    if ts == [] then [] else [Empty(ts[0])] + Empties(ts[1..])
  }

  function LoadVersion(input: seq<byte>): Option<seq<byte>> {
    match ReadFixed(input, 8)
    case None => None
    case Some(Read(v, rest)) => if v == VERSION then Some(rest) else None
  }

  /** LoadPrefix into an empty column; None stands for false and for an exception. */
  function LoadPrefix(t: Type, input: seq<byte>, rows: nat): Option<seq<byte>>
    decreases t, 0
  {
    match t
    case JsonType => LoadVersion(input)
    case NullableType(of) => LoadPrefix(of, input, rows)
    case TupleType(ts) => LoadPrefixes(ts, input, rows)
    case ArrayType(of) => if rows == 0 then Some(input) else LoadPrefix(of, input, rows)
    case MapType(e) => LoadPrefix(e, input, rows)
    case LowCardinalityType(_) => LoadVersion(input)
    case _ => Some(input)
  }

  function LoadPrefixes(ts: seq<Type>, input: seq<byte>, rows: nat): Option<seq<byte>>
    decreases ts, 1
  {
    if ts == [] then Some(input)
    else
      match LoadPrefix(ts[0], input, rows)
      case None => None
      case Some(rest) => LoadPrefixes(ts[1..], rest, rows)
  }

  /** LoadBody into an empty column. */
  function LoadBody(t: Type, input: seq<byte>, rows: nat): Option<Read<Column>>
    decreases t, 0
  {
    match t
    case FixedType(w) =>
      (match LoadCells(input, w, rows)
       case None => None
       case Some(Read(cells, rest)) => Some(Read(FixedColumn(w, cells), rest)))
    case StringType =>
      (match LoadStrings(input, rows)
       case None => None
       case Some(Read(items, rest)) => Some(Read(StringColumn(items), rest)))
    case JsonType =>
      (match LoadStrings(input, rows)
       case None => None
       case Some(Read(items, rest)) => Some(Read(JsonColumn(items), rest)))
    case NullableType(of) =>
      (match ReadBytes(input, rows)
       case None => None
       case Some(Read(nulls, rest)) =>
         match LoadBody(of, rest, rows)
         case None => None
         case Some(Read(nested, rest)) => Some(Read(NullableColumn(nested, nulls), rest)))
    case TupleType(ts) =>
      (match LoadBodies(ts, input, rows)
       case None => None
       case Some(Read(cs, rest)) => Some(Read(TupleColumn(cs), rest)))
    case ArrayType(of) => LoadArray(of, input, rows)
    case MapType(e) =>
      (match LoadBody(e, input, rows)
       case None => None
       case Some(Read(entries, rest)) => Some(Read(MapColumn(entries), rest)))
    case LowCardinalityType(of) =>
      var nullable := of.NullableType?;
      LoadLowCardinality(nullable, if nullable then of.of else of, input, rows)
  }

  function LoadBodies(ts: seq<Type>, input: seq<byte>, rows: nat): Option<Read<seq<Column>>>
    decreases ts, 1
  {
    if ts == [] then Some(Read([], input))
    else
      match LoadBody(ts[0], input, rows)
      case None => None
      case Some(Read(c, rest)) =>
        match LoadBodies(ts[1..], rest, rows)
        case None => None
        case Some(Read(cs, rest)) => Some(Read([c] + cs, rest))
  }

  function LoadArray(of: Type, input: seq<byte>, rows: nat): Option<Read<Column>>
    decreases of, 1
  {
    if rows == 0 then Some(Read(ArrayColumn(Empty(of), []), input))
    else
      match LoadNumbers(input, 8, rows)
      case None => None
      case Some(Read(offsets, rest)) =>
        if offsets[rows - 1] == 0 then Some(Read(ArrayColumn(Empty(of), offsets), rest))
        else
          match LoadBody(of, rest, offsets[rows - 1])
          case None => None
          case Some(Read(data, rest)) => Some(Read(ArrayColumn(data, offsets), rest))
  }

  function LoadLowCardinality(nullable: bool, of: Type, input: seq<byte>, rows: nat): Option<Read<Column>>
    decreases of, 1
  {
    match ReadFixed(input, 8)
    case None => None
    case Some(Read(head, rest)) =>
      if head % 256 > 3 || head / 256 % 2 == 1 || head / 512 % 2 == 0 then None
      else
        var width := if head % 256 == 0 then 1 else if head % 256 == 1 then 2 else if head % 256 == 2 then 4 else 8;
        match ReadFixed(rest, 8)
        case None => None
        case Some(Read(keys, rest)) =>
          match LoadBody(of, rest, keys)
          case None => None
          case Some(Read(dictionary, rest)) => LoadIndexes(nullable, dictionary, width, rest, rows)
  }

  function LoadIndexes(nullable: bool, dictionary: Column, width: nat, input: seq<byte>, rows: nat): Option<Read<Column>> {
    match ReadFixed(input, 8)
    case None => None
    case Some(Read(n, rest)) =>
      if n != rows then None
      else
        var r := LoadIndex(rest, width, rows);
        Some(Read(LowCardinalityColumn(nullable, dictionary, width, r.value), r.rest))
  }

  function Load(t: Type, input: seq<byte>, rows: nat): Option<Read<Column>> {
    match LoadPrefix(t, input, rows)
    case None => None
    case Some(rest) => LoadBody(t, rest, rows)
  }

  //// Which columns there are

  predicate AllBelow(ns: seq<nat>, bound: nat) {
    forall i :: 0 <= i < |ns| ==> ns[i] < bound
  }

  predicate Strings64(items: seq<seq<byte>>) {
    forall i :: 0 <= i < |items| ==> |items[i]| < TWO_64
  }

  /** A dictionary holds strings, fixed or not, and has room for its default. */
  predicate IsDictionary(c: Column) {
    (c.StringColumn? || c.FixedColumn?) && 0 < Size(c) < TWO_64
  }

  predicate Valid(c: Column)
    decreases c, 0
  {
    match c
    case FixedColumn(w, cells) => forall i :: 0 <= i < |cells| ==> |cells[i]| == w
    case StringColumn(items) => Strings64(items)
    case JsonColumn(items) => Strings64(items)
    case NullableColumn(n, nulls) => Valid(n) && Size(n) == |nulls|
    case TupleColumn(cs) => cs != [] && AllValid(cs, Size(cs[0]))
    case ArrayColumn(d, offsets) =>
      && Valid(d) && Monotone(offsets) && AllBelow(offsets, TWO_64)
      && Size(d) == (if offsets == [] then 0 else offsets[|offsets| - 1])
    case MapColumn(e) => e.ArrayColumn? && e.data.TupleColumn? && |e.data.columns| == 2 && Valid(e)
    case LowCardinalityColumn(_, d, w, index) =>
      && Valid(d) && IsDictionary(d) && IsIndexWidth(w)
      && |index| < TWO_64 && AllBelow(index, Size(d)) && Size(d) <= Pow256(w)
  }

  predicate AllValid(cs: seq<Column>, rows: nat)
    decreases cs, 1
  {
    cs == [] || (Valid(cs[0]) && Size(cs[0]) == rows && AllValid(cs[1..], rows))
  }

  //// Rows

  datatype Value = Cell(bytes: seq<byte>) | Null | Fields(values: seq<Value>) | Elements(values: seq<Value>)

  /** Row r of a column, as a value. */
  function RowAt(c: Column, r: nat): Value
    requires Valid(c) && r < Size(c)
    decreases c, 0
  {
    match c
    case FixedColumn(_, cells) => Cell(cells[r])
    case StringColumn(items) => Cell(items[r])
    case JsonColumn(items) => Cell(items[r])
    case NullableColumn(n, nulls) => if nulls[r] != 0 then Null else RowAt(n, r)
    case TupleColumn(cs) => Fields(FieldsAt(cs, Size(cs[0]), r))
    case ArrayColumn(d, offsets) =>
      var begin := if r == 0 then 0 else offsets[r - 1];
      Elements(RowsAt(d, begin, offsets[r]))
    case MapColumn(e) => RowAt(e, r)
    case LowCardinalityColumn(nullable, d, _, index) =>
      if nullable && index[r] == 0 then Null else RowAt(d, index[r])
  }

  function FieldsAt(cs: seq<Column>, rows: nat, r: nat): seq<Value>
    requires AllValid(cs, rows) && r < rows
    decreases cs, 1
  {
    if cs == [] then [] else [RowAt(cs[0], r)] + FieldsAt(cs[1..], rows, r)
  }

  function RowsAt(c: Column, begin: nat, end: nat): seq<Value>
    requires Valid(c) && begin <= end <= Size(c)
    decreases c, 1, end - begin
  {
    if begin == end then [] else [RowAt(c, begin)] + RowsAt(c, begin + 1, end)
  }

  //// Round trip

  /** The column without what no row can show: the data of an array column whose arrays are
      all empty (a LowCardinality dictionary, say) does not travel. */
  function Trim(c: Column): Column
    decreases c, 0
  {
    match c
    case NullableColumn(n, nulls) => NullableColumn(Trim(n), nulls)
    case TupleColumn(cs) => TupleColumn(TrimAll(cs))
    case ArrayColumn(d, offsets) => ArrayColumn(if Size(d) == 0 then Empty(TypeOf(d)) else Trim(d), offsets)
    case MapColumn(e) => MapColumn(Trim(e))
    case _ => c
  }

  function TrimAll(cs: seq<Column>): seq<Column>
    decreases cs, 1
  {
    if cs == [] then [] else [Trim(cs[0])] + TrimAll(cs[1..])
  }

  lemma {:induction false} CellsRoundTrip(cells: seq<seq<byte>>, width: nat, rest: seq<byte>)
    requires forall i :: 0 <= i < |cells| ==> |cells[i]| == width
    ensures LoadCells(Flatten(cells) + rest, width, |cells|) == Some(Read(cells, rest))
  {
    if cells == [] {
      assert Flatten(cells) + rest == rest;
    } else {
      Assoc(cells[0], Flatten(cells[1..]), rest);
      BytesRoundTrip(cells[0], Flatten(cells[1..]) + rest);
      CellsRoundTrip(cells[1..], width, rest);
      assert cells == [cells[0]] + cells[1..];
    }
  }

  lemma {:induction false} StringsRoundTrip(items: seq<seq<byte>>, rest: seq<byte>)
    requires Strings64(items)
    ensures LoadStrings(SaveStrings(items) + rest, |items|) == Some(Read(items, rest))
  {
    hide StringBytes, ReadCounted;
    if items == [] {
      assert SaveStrings(items) + rest == rest;
    } else {
      Assoc(StringBytes(items[0]), SaveStrings(items[1..]), rest);
      CountedRoundTrip(items[0], SaveStrings(items[1..]) + rest);
      StringsRoundTrip(items[1..], rest);
      assert items == [items[0]] + items[1..];
    }
  }

  lemma {:induction false} NumbersRoundTrip(width: nat, ns: seq<nat>, rest: seq<byte>)
    requires AllBelow(ns, Pow256(width))
    ensures LoadNumbers(SaveNumbers(width, ns) + rest, width, |ns|) == Some(Read(ns, rest))
  {
    if ns == [] {
      assert SaveNumbers(width, ns) + rest == rest;
    } else {
      Assoc(Fixed(width, ns[0]), SaveNumbers(width, ns[1..]), rest);
      FixedRoundTrip(width, ns[0], SaveNumbers(width, ns[1..]) + rest);
      NumbersRoundTrip(width, ns[1..], rest);
      assert ns == [ns[0]] + ns[1..];
    }
  }

  lemma {:induction false} PrefixRoundTrip(c: Column, rest: seq<byte>, rows: nat)
    requires 0 < rows
    ensures LoadPrefix(TypeOf(c), SavePrefix(c) + rest, rows) == Some(rest)
    decreases c, 0
  {
    match c
    case JsonColumn(_) => VersionRoundTrip(rest);
    case LowCardinalityColumn(_, _, _, _) => VersionRoundTrip(rest);
    case NullableColumn(n, _) => PrefixRoundTrip(n, rest, rows);
    case TupleColumn(cs) => PrefixesRoundTrip(cs, rest, rows);
    case ArrayColumn(d, _) => PrefixRoundTrip(d, rest, rows);
    case MapColumn(e) => PrefixRoundTrip(e, rest, rows);
    case FixedColumn(_, _) => assert SavePrefix(c) + rest == rest;
    case StringColumn(_) => assert SavePrefix(c) + rest == rest;
  }

  lemma VersionRoundTrip(rest: seq<byte>)
    ensures LoadVersion(Fixed(8, VERSION) + rest) == Some(rest)
  {
    Pow256Of8();
    FixedRoundTrip(8, VERSION, rest);
  }

  lemma {:induction false} PrefixesRoundTrip(cs: seq<Column>, rest: seq<byte>, rows: nat)
    requires 0 < rows
    ensures LoadPrefixes(TypesOf(cs), SavePrefixes(cs) + rest, rows) == Some(rest)
    decreases cs, 1
  {
    if cs == [] {
      assert SavePrefixes(cs) + rest == rest;
    } else {
      Assoc(SavePrefix(cs[0]), SavePrefixes(cs[1..]), rest);
      PrefixRoundTrip(cs[0], SavePrefixes(cs[1..]) + rest, rows);
      PrefixesRoundTrip(cs[1..], rest, rows);
    }
  }

  /** The body of a column that has rows, with anything after it, loads back. */
  ghost predicate BodyLoads(c: Column, rest: seq<byte>) {
    LoadBody(TypeOf(c), SaveBody(c) + rest, Size(c)) == Some(Read(Trim(c), rest))
  }

  lemma {:induction false} BodyRoundTrip(c: Column, rest: seq<byte>)
    requires Valid(c) && 0 < Size(c)
    ensures BodyLoads(c, rest)
    decreases c, 0
  {
    hide LoadBody, SaveBody, TypeOf, Trim, BodyLoads;
    match c
    case FixedColumn(_, _) => PlainBody(c, rest);
    case StringColumn(_) => PlainBody(c, rest);
    case JsonColumn(_) => PlainBody(c, rest);
    case NullableColumn(n, nulls) => NullableBody(n, nulls, rest);
    case TupleColumn(cs) => TupleBody(cs, rest);
    case ArrayColumn(d, offsets) => ArrayBody(d, offsets, rest);
    case MapColumn(e) => MapBody(e, rest);
    case LowCardinalityColumn(_, d, _, _) => LowCardinalityBody(c, d, rest);
  }

  lemma PlainBody(c: Column, rest: seq<byte>)
    requires Valid(c) && (c.FixedColumn? || c.StringColumn? || c.JsonColumn?)
    ensures BodyLoads(c, rest)
  {
    match c
    case FixedColumn(w, cells) => CellsRoundTrip(cells, w, rest);
    case StringColumn(items) => StringsRoundTrip(items, rest);
    case JsonColumn(items) => StringsRoundTrip(items, rest);
  }

  lemma {:induction false} NullableBody(n: Column, nulls: seq<byte>, rest: seq<byte>)
    requires Valid(n) && Size(n) == |nulls| > 0
    ensures BodyLoads(NullableColumn(n, nulls), rest)
    decreases n, 1
  {
    Assoc(nulls, SaveBody(n), rest);
    BytesRoundTrip(nulls, SaveBody(n) + rest);
    BodyRoundTrip(n, rest);
  }

  lemma {:induction false} TupleBody(cs: seq<Column>, rest: seq<byte>)
    requires Valid(TupleColumn(cs)) && 0 < Size(cs[0])
    ensures BodyLoads(TupleColumn(cs), rest)
    decreases cs, 2
  {
    BodiesRoundTrip(cs, Size(cs[0]), rest);
  }

  lemma {:induction false} MapBody(e: Column, rest: seq<byte>)
    requires Valid(e) && 0 < Size(e)
    ensures BodyLoads(MapColumn(e), rest)
    decreases e, 1
  {
    BodyRoundTrip(e, rest);
  }

  lemma {:induction false} BodiesRoundTrip(cs: seq<Column>, rows: nat, rest: seq<byte>)
    requires AllValid(cs, rows) && 0 < rows
    ensures LoadBodies(TypesOf(cs), SaveBodies(cs) + rest, rows) == Some(Read(TrimAll(cs), rest))
    decreases cs, 1
  {
    if cs == [] {
      assert SaveBodies(cs) + rest == rest;
    } else {
      Assoc(SaveBody(cs[0]), SaveBodies(cs[1..]), rest);
      BodyRoundTrip(cs[0], SaveBodies(cs[1..]) + rest);
      BodiesRoundTrip(cs[1..], rows, rest);
    }
  }

  lemma ArrayLoads(of: Type, input: seq<byte>, offsets: seq<nat>, mid: seq<byte>, data: Column, rest: seq<byte>)
    requires offsets != [] && LoadNumbers(input, 8, |offsets|) == Some(Read(offsets, mid))
    requires var size := offsets[|offsets| - 1];
             if size == 0 then data == Empty(of) && rest == mid else LoadBody(of, mid, size) == Some(Read(data, rest))
    ensures LoadBody(ArrayType(of), input, |offsets|) == Some(Read(ArrayColumn(data, offsets), rest))
  {
  }

  lemma {:induction false} ArrayBody(d: Column, offsets: seq<nat>, rest: seq<byte>)
    requires Valid(ArrayColumn(d, offsets)) && offsets != []
    ensures BodyLoads(ArrayColumn(d, offsets), rest)
    decreases d, 1
  {
    var body := if Size(d) > 0 then SaveBody(d) else [];
    Pow256Of8();
    Assoc(SaveNumbers(8, offsets), body, rest);
    NumbersRoundTrip(8, offsets, body + rest);
    var input := SaveNumbers(8, offsets) + body + rest;
    if Size(d) == 0 {
      assert body + rest == rest;
      ArrayLoads(TypeOf(d), input, offsets, body + rest, Empty(TypeOf(d)), rest);
    } else {
      BodyRoundTrip(d, rest);
      ArrayLoads(TypeOf(d), input, offsets, body + rest, Trim(d), rest);
    }
  }

  lemma HeadDecodes(w: nat)
    requires IsIndexWidth(w)
    ensures var head := IndexTypeCode(w) + HAS_ADDITIONAL_KEYS;
            && head % 256 == IndexTypeCode(w) && head / 256 % 2 == 0 && head / 512 % 2 == 1
            && head < TWO_64
  {
  }

  function SaveIndexes(c: Column): seq<byte>
    requires c.LowCardinalityColumn?
  {
    Fixed(8, |c.index|) + SaveNumbers(c.indexWidth, c.index)
  }

  lemma {:induction false} LowCardinalityBody(c: Column, d: Column, rest: seq<byte>)
    requires c.LowCardinalityColumn? && c.dictionary == d && Valid(c) && 0 < |c.index|
    ensures BodyLoads(c, rest)
    decreases d, 1
  {
    var head := IndexTypeCode(c.indexWidth) + HAS_ADDITIONAL_KEYS;
    var tail := SaveIndexes(c) + rest;
    SplitLowCardinality(c, rest);
    HeadDecodes(c.indexWidth);
    Pow256Of8();
    FixedRoundTrip(8, head, Fixed(8, Size(d)) + (SaveBody(d) + tail));
    FixedRoundTrip(8, Size(d), SaveBody(d) + tail);
    BodyRoundTrip(d, tail);
    IndexesRoundTrip(c, rest);
    LowCardinalityLoads(c, rest);
  }

  lemma SplitLowCardinality(c: Column, rest: seq<byte>)
    requires c.LowCardinalityColumn?
    ensures SaveBody(c) + rest == Fixed(8, IndexTypeCode(c.indexWidth) + HAS_ADDITIONAL_KEYS)
         + (Fixed(8, Size(c.dictionary)) + (SaveBody(c.dictionary) + (SaveIndexes(c) + rest)))
  {
    var head, keys := Fixed(8, IndexTypeCode(c.indexWidth) + HAS_ADDITIONAL_KEYS), Fixed(8, Size(c.dictionary));
    var body := SaveBody(c.dictionary);
    Assoc(head, keys + (body + SaveIndexes(c)), rest);
    Assoc(keys, body + SaveIndexes(c), rest);
    Assoc(body, SaveIndexes(c), rest);
  }

  /** The steps of loading a LowCardinality body, put together. */
  lemma LowCardinalityLoads(c: Column, rest: seq<byte>)
    requires c.LowCardinalityColumn? && IsIndexWidth(c.indexWidth) && IsDictionary(c.dictionary)
    requires var d := c.dictionary;
             var head := IndexTypeCode(c.indexWidth) + HAS_ADDITIONAL_KEYS;
             var tail := SaveIndexes(c) + rest;
             var keys := Fixed(8, Size(d)) + (SaveBody(d) + tail);
             && ReadFixed(SaveBody(c) + rest, 8) == Some(Read(head, keys))
             && ReadFixed(keys, 8) == Some(Read(Size(d), SaveBody(d) + tail))
             && BodyLoads(d, tail)
             && LoadIndexes(c.nullable, d, c.indexWidth, tail, |c.index|) == Some(Read(c, rest))
    ensures BodyLoads(c, rest)
  {
    hide SaveBody, ReadFixed, LoadIndexes;
    HeadDecodes(c.indexWidth);
    var d := c.dictionary;
    assert Trim(d) == d && !TypeOf(d).NullableType?;
    assert LoadLowCardinality(c.nullable, TypeOf(d), SaveBody(c) + rest, |c.index|) == Some(Read(c, rest));
  }

  lemma IndexesRoundTrip(c: Column, rest: seq<byte>)
    requires c.LowCardinalityColumn? && Valid(c)
    ensures LoadIndexes(c.nullable, c.dictionary, c.indexWidth, SaveIndexes(c) + rest, |c.index|)
         == Some(Read(c, rest))
  {
    Pow256Of8();
    Assoc(Fixed(8, |c.index|), SaveNumbers(c.indexWidth, c.index), rest);
    FixedRoundTrip(8, |c.index|, SaveNumbers(c.indexWidth, c.index) + rest);
    NumbersRoundTrip(c.indexWidth, c.index, rest);
  }

  /** Loading a saved column of any nesting gives the column back, up to data no row shows,
      and consumes exactly the bytes that were saved. */
  lemma SaveLoad(c: Column, rest: seq<byte>)
    requires Valid(c) && 0 < Size(c)
    ensures Load(TypeOf(c), Save(c) + rest, Size(c)) == Some(Read(Trim(c), rest))
  {
    Assoc(SavePrefix(c), SaveBody(c), rest);
    PrefixRoundTrip(c, SaveBody(c) + rest, Size(c));
    BodyRoundTrip(c, rest);
  }

  //// Trimming shows in no row

  lemma {:induction false} EmptyLike(c: Column)
    requires Valid(c)
    ensures var e := Empty(TypeOf(c)); Size(e) == 0 && TypeOf(e) == TypeOf(c) && Valid(e)
    decreases c, 0
  {
    match c
    case NullableColumn(n, _) => EmptyLike(n);
    case ArrayColumn(d, _) => EmptyLike(d);
    case MapColumn(e) => EmptyLike(e); EmptyEntries(e);
    case TupleColumn(cs) => EmptyLikeAll(cs, Size(cs[0]));
    case LowCardinalityColumn(_, d, _, _) =>
    case _ =>
  }

  lemma EmptyEntries(e: Column)
    requires Valid(MapColumn(e))
    decreases e, 2
    ensures var m := Empty(TypeOf(e)); m.ArrayColumn? && m.data.TupleColumn? && |m.data.columns| == 2
  {
    var cs := e.data.columns;
    assert Valid(e) && Valid(e.data);
    EmptyLikeAll(cs, Size(cs[0]));
  }

  lemma {:induction false} EmptyLikeAll(cs: seq<Column>, rows: nat)
    requires AllValid(cs, rows)
    ensures var es := Empties(TypesOf(cs));
            && |es| == |cs| && TypesOf(es) == TypesOf(cs) && AllValid(es, 0)
    decreases cs, 1
  {
    if cs != [] {
      EmptyLike(cs[0]);
      EmptyLikeAll(cs[1..], rows);
      var es := Empties(TypesOf(cs));
      assert TypesOf(cs)[1..] == TypesOf(cs[1..]);
      assert es[1..] == Empties(TypesOf(cs[1..]));
    }
  }

  lemma {:induction false} TrimShape(c: Column)
    requires Valid(c)
    ensures Size(Trim(c)) == Size(c) && TypeOf(Trim(c)) == TypeOf(c) && Valid(Trim(c))
    decreases c, 0
  {
    match c
    case NullableColumn(n, _) => TrimShape(n);
    case ArrayColumn(d, _) => TrimShape(d); EmptyLike(d);
    case MapColumn(e) => TrimShape(e); TrimEntries(e);
    case TupleColumn(cs) => TrimShapes(cs, Size(cs[0]));
    case _ =>
  }

  lemma TrimEntries(e: Column)
    requires Valid(MapColumn(e))
    decreases e, 2
    ensures var m := Trim(e); m.ArrayColumn? && m.data.TupleColumn? && |m.data.columns| == 2
  {
    var cs := e.data.columns;
    assert Valid(e) && Valid(e.data);
    EmptyLikeAll(cs, Size(cs[0]));
    TrimShapes(cs, Size(cs[0]));
  }

  lemma {:induction false} TrimShapes(cs: seq<Column>, rows: nat)
    requires AllValid(cs, rows)
    ensures var ts := TrimAll(cs);
            && |ts| == |cs| && TypesOf(ts) == TypesOf(cs) && AllValid(ts, rows)
    decreases cs, 1
  {
    if cs != [] {
      TrimShape(cs[0]);
      TrimShapes(cs[1..], rows);
      assert TrimAll(cs)[1..] == TrimAll(cs[1..]);
    }
  }

  /** Every row of the loaded column is the row that was saved. */
  lemma {:induction false} TrimKeepsRow(c: Column, r: nat)
    requires Valid(c) && r < Size(c) && Valid(Trim(c)) && Size(Trim(c)) == Size(c)
    ensures RowAt(Trim(c), r) == RowAt(c, r)
    decreases c, 0
  {
    match c
    case NullableColumn(n, nulls) => if nulls[r] == 0 { TrimShape(n); TrimKeepsRow(n, r); }
    case TupleColumn(cs) =>
      TrimShapes(cs, Size(cs[0]));
      TrimKeepsFields(cs, Size(cs[0]), r);
    case ArrayColumn(d, offsets) =>
      if Size(d) != 0 {
        TrimShape(d);
        TrimKeepsRows(d, if r == 0 then 0 else offsets[r - 1], offsets[r]);
      }
    case MapColumn(e) => TrimShape(e); TrimKeepsRow(e, r);
    case _ =>
  }

  lemma {:induction false} TrimKeepsFields(cs: seq<Column>, rows: nat, r: nat)
    requires AllValid(cs, rows) && AllValid(TrimAll(cs), rows) && r < rows
    ensures FieldsAt(TrimAll(cs), rows, r) == FieldsAt(cs, rows, r)
    decreases cs, 1
  {
    if cs != [] {
      assert TrimAll(cs)[1..] == TrimAll(cs[1..]);
      TrimKeepsRow(cs[0], r);
      TrimKeepsFields(cs[1..], rows, r);
    }
  }

  lemma {:induction false} TrimKeepsRows(c: Column, begin: nat, end: nat)
    requires Valid(c) && Valid(Trim(c)) && Size(Trim(c)) == Size(c) && begin <= end <= Size(c)
    ensures RowsAt(Trim(c), begin, end) == RowsAt(c, begin, end)
    decreases c, 1, end - begin
  {
    if begin < end {
      TrimKeepsRow(c, begin);
      TrimKeepsRows(c, begin + 1, end);
    }
  }

  /** Saved and loaded, a column has the same type, the same number of rows and the same rows,
      and the input after it is left for the next column. */
  lemma LoadedRows(c: Column, rest: seq<byte>)
    requires Valid(c) && 0 < Size(c)
    ensures var r := Load(TypeOf(c), Save(c) + rest, Size(c));
            && r.Some? && r.value.rest == rest
            && Valid(r.value.value) && TypeOf(r.value.value) == TypeOf(c) && Size(r.value.value) == Size(c)
            && RowsAt(r.value.value, 0, Size(c)) == RowsAt(c, 0, Size(c))
  {
    SaveLoad(c, rest);
    TrimShape(c);
    TrimKeepsRows(c, 0, Size(c));
  }
}
