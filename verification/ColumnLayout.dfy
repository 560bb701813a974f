/** Columns byte by byte: the version and the flags on the wire, and that a column that is cut short
    is never loaded, apart from one with a dictionary. */
module ColumnLayout {
  import opened Bytes
  import opened WireFormat
  import opened ColumnTree

  /** The version is one, in eight bytes, for JSON and for LowCardinality; no other is accepted. */
  lemma VersionBytes(items: seq<seq<byte>>, c: Column, v: nat, rest: seq<byte>)
    requires c.LowCardinalityColumn? && v < TWO_64
    ensures SavePrefix(JsonColumn(items)) == SavePrefix(c) == [1, 0, 0, 0, 0, 0, 0, 0]
    ensures LoadVersion(Fixed(8, v) + rest) == if v == 1 then Some(rest) else None
  {
    SmallNumber(1);
    Pow256Of8();
    FixedRoundTrip(8, v, rest);
  }

  lemma SmallNumber(v: byte)
    ensures Fixed(8, v) == [v, 0, 0, 0, 0, 0, 0, 0]
  {
    ZeroBytes(7);
    assert Fixed(7, 0) == [0, 0, 0, 0, 0, 0, 0];
  }

  lemma {:induction false} ZeroBytes(n: nat)
    ensures Fixed(n, 0) == seq(n, _ => 0)
  {
    if n != 0 { ZeroBytes(n - 1); }
  }

  /** A dictionary's body begins with the code of the index width and the flag for additional keys. */
  lemma HeadBytes(c: Column)
    requires c.LowCardinalityColumn? && IsIndexWidth(c.indexWidth)
    ensures var code := if c.indexWidth == 1 then 0 else if c.indexWidth == 2 then 1 else if c.indexWidth == 4 then 2 else 3;
            8 <= |SaveBody(c)| && SaveBody(c)[..8] == [code, 2, 0, 0, 0, 0, 0, 0]
  {
    var code: byte := if c.indexWidth == 1 then 0 else if c.indexWidth == 2 then 1 else if c.indexWidth == 4 then 2 else 3;
    var head := code + 0x200;
    ZeroBytes(6);
    assert Fixed(6, 0) == [0, 0, 0, 0, 0, 0];
    assert head % 256 == code && head / 256 == 2;
    assert Fixed(7, 2) == [2] + Fixed(6, 0);
    assert Fixed(8, head) == [code] + Fixed(7, 2);
  }

  /** A head is refused if it names no index type, asks for a dictionary from elsewhere, or brings no
      keys of its own. */
  lemma HeadDecides(nullable: bool, of: Type, head: nat, rest: seq<byte>, rows: nat)
    requires head < TWO_64
    requires head % 256 > 3 || head / 256 % 2 == 1 || head / 512 % 2 == 0
    ensures LoadLowCardinality(nullable, of, Fixed(8, head) + rest, rows) == None
  {
    Pow256Of8();
    FixedRoundTrip(8, head, rest);
  }

  //// Cut input

  predicate NoDictionary(t: Type)
    decreases t, 0
  {
    match t
    case NullableType(of) => NoDictionary(of)
    case TupleType(ts) => NoDictionaries(ts)
    case ArrayType(of) => NoDictionary(of)
    case MapType(e) => NoDictionary(e)
    case LowCardinalityType(_) => false
    case _ => true
  }

  predicate NoDictionaries(ts: seq<Type>)
    decreases ts, 1
  {
    ts == [] || (NoDictionary(ts[0]) && NoDictionaries(ts[1..]))
  }

  /** What is left of two pieces when their concatenation is cut. */
  lemma CutOfTwo(a: seq<byte>, b: seq<byte>, k: nat)
    requires k <= |a + b|
    ensures (a + b)[..k] == if k <= |a| then a[..k] else a + b[..k - |a|]
  {
  }

  lemma {:induction false} StringsCut(items: seq<seq<byte>>, k: nat)
    requires Strings64(items) && k < |SaveStrings(items)|
    ensures LoadStrings(SaveStrings(items)[..k], |items|) == None
  {
    var first, later := StringBytes(items[0]), SaveStrings(items[1..]);
    CutOfTwo(first, later, k);
    if k < |first| {
      StringCut(items[0], k);
    } else {
      assert first[..|first|] + later[..0] == first;
      CountedRoundTrip(items[0], later[..k - |first|]);
      StringsCut(items[1..], k - |first|);
    }
  }

  lemma StringCut(s: seq<byte>, k: nat)
    requires |s| < TWO_64 && k < |StringBytes(s)|
    ensures ReadCounted(StringBytes(s)[..k]) == None
  {
    var len := Varint(|s|);
    CutOfTwo(len, s, k);
    if k < |len| {
      VarintCut(|s|, k, 0);
    } else {
      assert len[..|len|] + s[..0] == len;
      VarintRoundTrip(|s|, s[..k - |len|]);
    }
  }

  lemma {:induction false} VarintCut(v: nat, k: nat, i: nat)
    requires k < |Varint(v)|
    ensures ReadDigits(Varint(v)[..k], i) == None
    decreases v
  {
    if 128 <= v && k != 0 {
      VarintCut(v / 128, k - 1, i + 1);
      var input := Varint(v)[..k];
      assert input[1..] == Varint(v / 128)[..k - 1];
      assert input[0] == v % 128 + 128;
    }
  }

  lemma {:induction false} NumbersCut(width: nat, ns: seq<nat>, k: nat)
    requires AllBelow(ns, Pow256(width)) && k < |SaveNumbers(width, ns)|
    ensures LoadNumbers(SaveNumbers(width, ns)[..k], width, |ns|) == None
  {
    var first, later := Fixed(width, ns[0]), SaveNumbers(width, ns[1..]);
    FixedInverse(width, ns[0]);
    CutOfTwo(first, later, k);
    if k >= |first| {
      assert first[..|first|] + later[..0] == first;
      FixedRoundTrip(width, ns[0], later[..k - |first|]);
      NumbersCut(width, ns[1..], k - |first|);
    }
  }

  lemma {:induction false} CellsCut(cells: seq<seq<byte>>, width: nat, k: nat)
    requires (forall i :: 0 <= i < |cells| ==> |cells[i]| == width) && k < |Flatten(cells)|
    ensures LoadCells(Flatten(cells)[..k], width, |cells|) == None
  {
    var first, later := cells[0], Flatten(cells[1..]);
    CutOfTwo(first, later, k);
    if k >= |first| {
      assert first[..|first|] + later[..0] == first;
      BytesRoundTrip(first, later[..k - |first|]);
      CellsCut(cells[1..], width, k - |first|);
    }
  }

  /** A body that is cut anywhere is not loaded. */
  lemma {:induction false} BodyCut(c: Column, k: nat)
    requires Valid(c) && 0 < Size(c) && NoDictionary(TypeOf(c)) && k < |SaveBody(c)|
    ensures LoadBody(TypeOf(c), SaveBody(c)[..k], Size(c)) == None
    decreases c, 2
  {
    match c
    case FixedColumn(w, cells) => CellsCut(cells, w, k);
    case StringColumn(items) => StringsCut(items, k);
    case JsonColumn(items) => StringsCut(items, k);
    case NullableColumn(n, nulls) => NullableCut(n, nulls, k);
    case TupleColumn(cs) => BodiesCut(cs, Size(cs[0]), k);
    case ArrayColumn(d, offsets) => ArrayCut(d, offsets, k);
    case MapColumn(e) => BodyCut(e, k);
  }

  lemma {:induction false} NullableCut(n: Column, nulls: seq<byte>, k: nat)
    requires Valid(n) && Size(n) == |nulls| > 0 && NoDictionary(TypeOf(n)) && k < |nulls + SaveBody(n)|
    ensures LoadBody(NullableType(TypeOf(n)), (nulls + SaveBody(n))[..k], |nulls|) == None
    decreases n, 3
  {
    CutOfTwo(nulls, SaveBody(n), k);
    if k >= |nulls| {
      assert nulls[..|nulls|] + SaveBody(n)[..0] == nulls;
      BytesRoundTrip(nulls, SaveBody(n)[..k - |nulls|]);
      BodyCut(n, k - |nulls|);
    }
  }

  lemma {:induction false} BodiesCut(cs: seq<Column>, rows: nat, k: nat)
    requires AllValid(cs, rows) && 0 < rows && NoDictionaries(TypesOf(cs)) && k < |SaveBodies(cs)|
    ensures LoadBodies(TypesOf(cs), SaveBodies(cs)[..k], rows) == None
    decreases cs, 1
  {
    var first, later := SaveBody(cs[0]), SaveBodies(cs[1..]);
    assert TypesOf(cs)[1..] == TypesOf(cs[1..]);
    CutOfTwo(first, later, k);
    if k < |first| {
      BodyCut(cs[0], k);
    } else {
      assert first[..|first|] + later[..0] == first;
      BodyRoundTrip(cs[0], later[..k - |first|]);
      BodiesCut(cs[1..], rows, k - |first|);
    }
  }

  lemma {:induction false} ArrayCut(d: Column, offsets: seq<nat>, k: nat)
    requires Valid(ArrayColumn(d, offsets)) && offsets != [] && NoDictionary(TypeOf(d))
    requires k < |SaveBody(ArrayColumn(d, offsets))|
    ensures LoadBody(ArrayType(TypeOf(d)), SaveBody(ArrayColumn(d, offsets))[..k], |offsets|) == None
    decreases d, 3
  {
    hide SaveNumbers, LoadNumbers, LoadBody, SaveBody, Pow256, Size, TypeOf, Valid, NoDictionary, AllBelow;
    var first, later := SaveNumbers(8, offsets), if Size(d) > 0 then SaveBody(d) else [];
    ArrayBytes(d, offsets);
    Pow256Of8();
    if k < |first| {
      CutOfTwo(first, later, k);
      NumbersCut(8, offsets, k);
      ArrayFails(TypeOf(d), first[..k], offsets);
    } else {
      assert 0 < Size(d);
      CutBehind(first, later, k);
      NumbersRoundTrip(8, offsets, later[..k - |first|]);
      BodyCut(d, k - |first|);
      ArrayFails(TypeOf(d), first + later[..k - |first|], offsets);
    }
  }

  lemma CutBehind(a: seq<byte>, b: seq<byte>, k: nat)
    requires |a| <= k <= |a + b|
    ensures (a + b)[..k] == a + b[..k - |a|]
  {
  }

  lemma ArrayBytes(d: Column, offsets: seq<nat>)
    requires Valid(ArrayColumn(d, offsets)) && offsets != []
    ensures SaveBody(ArrayColumn(d, offsets)) == SaveNumbers(8, offsets) + (if Size(d) > 0 then SaveBody(d) else [])
    ensures Valid(d) && AllBelow(offsets, TWO_64) && Size(d) == offsets[|offsets| - 1]
  {
  }

  /** An array is not loaded if its offsets are not, or its data are not. */
  lemma ArrayFails(of: Type, input: seq<byte>, offsets: seq<nat>)
    requires offsets != []
    requires var r := LoadNumbers(input, 8, |offsets|);
             r == None || (r.value.value == offsets && offsets[|offsets| - 1] != 0
                           && LoadBody(of, r.value.rest, offsets[|offsets| - 1]) == None)
    ensures LoadBody(ArrayType(of), input, |offsets|) == None
  {
  }

  lemma {:induction false} PrefixCut(c: Column, rows: nat, k: nat)
    requires 0 < rows && NoDictionary(TypeOf(c)) && k < |SavePrefix(c)|
    ensures LoadPrefix(TypeOf(c), SavePrefix(c)[..k], rows) == None
    decreases c, 0
  {
    match c
    case JsonColumn(_) => SmallNumber(1);
    case NullableColumn(n, _) => PrefixCut(n, rows, k);
    case TupleColumn(cs) => PrefixesCut(cs, rows, k);
    case ArrayColumn(d, _) => PrefixCut(d, rows, k);
    case MapColumn(e) => PrefixCut(e, rows, k);
  }

  lemma {:induction false} PrefixesCut(cs: seq<Column>, rows: nat, k: nat)
    requires 0 < rows && NoDictionaries(TypesOf(cs)) && k < |SavePrefixes(cs)|
    ensures LoadPrefixes(TypesOf(cs), SavePrefixes(cs)[..k], rows) == None
    decreases cs, 1
  {
    var first, later := SavePrefix(cs[0]), SavePrefixes(cs[1..]);
    assert TypesOf(cs)[1..] == TypesOf(cs[1..]);
    CutOfTwo(first, later, k);
    if k < |first| {
      PrefixCut(cs[0], rows, k);
    } else {
      assert first[..|first|] + later[..0] == first;
      PrefixRoundTrip(cs[0], later[..k - |first|], rows);
      PrefixesCut(cs[1..], rows, k - |first|);
    }
  }

  /** The bytes of a column without a dictionary, cut anywhere, do not load: a block that ends early is
      never taken for a whole one. */
  lemma CutColumnFails(c: Column, k: nat)
    requires Valid(c) && 0 < Size(c) && NoDictionary(TypeOf(c)) && k < |Save(c)|
    ensures Load(TypeOf(c), Save(c)[..k], Size(c)) == None
  {
    hide LoadPrefix, LoadBody, SavePrefix, SaveBody, Valid, NoDictionary, Size, TypeOf;
    var first, later := SavePrefix(c), SaveBody(c);
    CutOfTwo(first, later, k);
    if k < |first| {
      PrefixCut(c, Size(c), k);
    } else {
      assert first[..|first|] + later[..0] == first;
      PrefixRoundTrip(c, later[..k - |first|], Size(c));
      BodyCut(c, k - |first|);
    }
  }

  /** With a dictionary that is not so: cut inside its indexes, the column loads all the same. */
  lemma CutDictionaryLoads(c: Column, j: nat)
    requires c.LowCardinalityColumn? && Valid(c) && 0 < |c.index| && j <= |SaveNumbers(c.indexWidth, c.index)|
    ensures j <= |SaveBody(c)| && LoadBody(TypeOf(c), SaveBody(c)[..|SaveBody(c)| - j], |c.index|).Some?
  {
    hide SaveNumbers, LoadIndex, Fixed, ReadFixed, Pow256;
    var d, numbers := c.dictionary, SaveNumbers(c.indexWidth, c.index);
    var head, size, count := IndexTypeCode(c.indexWidth) + HAS_ADDITIONAL_KEYS, Fixed(8, Size(d)), Fixed(8, |c.index|);
    var cut := numbers[..|numbers| - j];
    var tail := count + cut;
    CutAtEnd(Fixed(8, head), size, SaveBody(d), count, numbers, j);
    HeadDecodes(c.indexWidth);
    Pow256Of8();
    FixedRoundTrip(8, head, size + (SaveBody(d) + tail));
    FixedRoundTrip(8, Size(d), SaveBody(d) + tail);
    FixedRoundTrip(8, |c.index|, cut);
    BodyRoundTrip(d, tail);
    assert Trim(d) == d && !TypeOf(d).NullableType?;
    assert LoadIndexes(c.nullable, d, c.indexWidth, tail, |c.index|).Some?;
    var input := SaveBody(c)[..|SaveBody(c)| - j];
    assert input == Fixed(8, head) + (size + (SaveBody(d) + tail));
    assert LoadLowCardinality(c.nullable, TypeOf(d), input, |c.index|).Some?;
  }

  lemma CutAtEnd(a: seq<byte>, b: seq<byte>, c: seq<byte>, d: seq<byte>, e: seq<byte>, j: nat)
    requires j <= |e|
    ensures var s := a + (b + (c + (d + e)));
            j <= |s| && s[..|s| - j] == a + (b + (c + (d + e[..|e| - j])))
  {
  }

  lemma {:induction false} NumbersConcat(width: nat, a: seq<nat>, b: seq<nat>)
    ensures SaveNumbers(width, a + b) == SaveNumbers(width, a) + SaveNumbers(width, b)
  {
    if a == [] {
      assert a + b == b;
    } else {
      assert (a + b)[1..] == a[1..] + b;
      NumbersConcat(width, a[1..], b);
      Assoc(Fixed(width, a[0]), SaveNumbers(width, a[1..]), SaveNumbers(width, b));
    }
  }

  lemma {:induction false} ZeroNumbers(width: nat, n: nat)
    ensures SaveNumbers(width, seq(n, _ => 0)) == seq(width * n, _ => 0)
  {
    if n != 0 {
      var zeros := seq(n, _ => 0);
      assert zeros[1..] == seq(n - 1, _ => 0);
      ZeroNumbers(width, n - 1);
      ZeroBytes(width);
      TimesMore(width, n - 1);
      assert seq(width, _ => 0) + seq(width * (n - 1), _ => 0) == seq(width * n, _ => 0);
    }
  }

  lemma TimesMore(a: nat, b: nat)
    ensures a * (b + 1) == a + a * b
  {
  }

  lemma {:induction false} NumbersLength(width: nat, ns: seq<nat>)
    requires AllBelow(ns, Pow256(width))
    ensures |SaveNumbers(width, ns)| == width * |ns|
  {
    if ns != [] {
      FixedInverse(width, ns[0]);
      NumbersLength(width, ns[1..]);
      TimesMore(width, |ns| - 1);
    }
  }

  /** The indexes that are missing are zero: they all read as the first value of the dictionary. */
  lemma MissingIndexesAreZero(width: nat, ns: seq<nat>, rows: nat)
    requires 0 < width && AllBelow(ns, Pow256(width)) && |ns| <= rows
    ensures LoadIndex(SaveNumbers(width, ns), width, rows) == Read(ns + seq(rows - |ns|, _ => 0), [])
  {
    hide SaveNumbers, LoadNumbers, Pow256, Fixed;
    var missing := rows - |ns|;
    var all: seq<nat> := ns + seq(missing, _ => 0);
    var input := SaveNumbers(width, ns);
    PowersArePositive(width);
    NumbersConcat(width, ns, seq(missing, _ => 0));
    ZeroNumbers(width, missing);
    if missing == 0 {
      assert all == ns && input + [] == input;
      NumbersRoundTrip(width, ns, []);
    } else {
      NumbersLength(width, all);
      NumbersLength(width, ns);
      TimesStrict(width, |ns|, rows);
      assert SaveNumbers(width, all)[..|input|] == input;
      NumbersCut(width, all, |input|);
      Distributes(width, missing, |ns|);
      assert input + seq(width * rows, _ => 0) == SaveNumbers(width, all) + seq(width * |ns|, _ => 0);
      NumbersRoundTrip(width, all, seq(width * |ns|, _ => 0));
    }
  }

  lemma {:induction false} PowersArePositive(n: nat)
    ensures 0 < Pow256(n)
  {
    if n != 0 { PowersArePositive(n - 1); }
  }

  lemma TimesStrict(a: nat, b: nat, c: nat)
    requires 0 < a && b < c
    ensures a * b < a * c
  {
  }

  lemma Distributes(a: nat, b: nat, c: nat)
    ensures a * (b + c) == a * b + a * c
  {
  }

  /** A new dictionary holds one value, the zero bytes or the empty string of its type. */
  lemma NewDictionary(t: Type)
    requires t.FixedType? || t.StringType?
    ensures var d := DefaultDictionary(t);
            && Size(d) == 1 && TypeOf(d) == t && Valid(d)
            && (t.FixedType? ==> forall i :: 0 <= i < t.width ==> d.cells[0][i] == 0)
            && (t.StringType? ==> d.items[0] == [])
  {
  }

  /** An array column of no rows reads nothing. */
  lemma NoRowsReadNothing(of: Type, input: seq<byte>)
    ensures Load(ArrayType(of), input, 0) == Some(Read(ArrayColumn(Empty(of), []), input))
  {
    assert LoadPrefix(ArrayType(of), input, 0) == Some(input);
    assert LoadArray(of, input, 0) == Some(Read(ArrayColumn(Empty(of), []), input));
    assert LoadBody(ArrayType(of), input, 0) == LoadArray(of, input, 0);
  }
}
