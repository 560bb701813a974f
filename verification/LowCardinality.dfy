/** The LowCardinality(String) column: a dictionary, an index column and a map from hash keys
    to dictionary positions that together stand for a plain list of values. */
module LowCardinality {
  import opened Bytes

  /** A value as an ItemView: NULL is a value of type Void. */
  datatype Item = Null | Str(bytes: seq<byte>)

  /** The pair of hashes that identifies a value in the map. */
  type Key = (nat, nat)
  type Hash = seq<byte> -> Key

  const NULL_KEY: Key := (0, 0)

  function KeyOf(hash: Hash, item: Item): Key {
    match item
    case Null => NULL_KEY
    case Str(b) => hash(b)
  }

  /** Null and the empty string are told apart by their keys (true of CityHash64). */
  predicate TellsNullFromEmpty(hash: Hash) {
    hash([]) != NULL_KEY
  }

  /** The map and the dictionary describe each other; in particular no value is stored twice. */
  ghost predicate Files(hash: Hash, dict: seq<Item>, unique: map<Key, nat>) {
    && (forall i :: 0 <= i < |dict| ==> KeyOf(hash, dict[i]) in unique && unique[KeyOf(hash, dict[i])] == i)
    && (forall k :: k in unique ==> unique[k] < |dict| && KeyOf(hash, dict[unique[k]]) == k)
  }

  /** The column's fields as a value. The dictionary column is a String column, with a null
      map beside it when the column is nullable; limit is the number of values of the index type. */
  datatype Column = Column(
    nullable: bool,
    nested: seq<seq<byte>>,
    nulls: seq<bool>,
    index: seq<nat>,
    limit: nat,
    unique: map<Key, nat>)
  {
    /** A nullable dictionary is as long as its null map. */
    function DictSize(): nat {
      if nullable then |nulls| else |nested|
    }

    predicate Aligned() {
      (nullable ==> |nulls| == |nested|) && (!nullable ==> nulls == [])
    }

    /** The items of the dictionary column, in order. */
    function Dict(): (d: seq<Item>)
      requires Aligned()
      ensures |d| == DictSize()
    {
      seq(DictSize(), i requires 0 <= i < DictSize() => if nullable && nulls[i] then Null else Str(nested[i]))
    }

    predicate InBounds() {
      forall r :: 0 <= r < |index| ==> index[r] < DictSize()
    }

    /** GetItem: in a nullable column position 0 is NULL without a look at the null map. */
    function Read(r: nat): Item
      requires Aligned() && InBounds() && r < |index|
    {
      if nullable && index[r] == 0 then Null else Dict()[index[r]]
    }

    ghost predicate MapAgrees(hash: Hash)
      requires Aligned()
    {
      Files(hash, Dict(), unique)
    }

    /** [default, ...], or [null, default, ...] when nullable. */
    predicate Canonical() {
      && Aligned()
      && if nullable then
           |nulls| >= 2 && nulls[0] && nested[0] == [] && nested[1] == []
           && (forall i :: 1 <= i < |nulls| ==> !nulls[i])
         else |nested| >= 1 && nested[0] == []
    }

    ghost predicate Valid(hash: Hash) {
      Canonical() && MapAgrees(hash) && InBounds() && 0 < DictSize() <= limit
    }
  }

  lemma NullRowIsNullable(c: Column, r: nat)
    requires c.Aligned() && c.InBounds() && r < |c.index|
    ensures c.Read(r) == Null ==> c.nullable
  {
  }

  function Fresh(hash: Hash, nullable: bool, limit: nat): Column {
    if nullable then Column(true, [[], []], [true, false], [], limit, map[NULL_KEY := 0, hash([]) := 1])
    else Column(false, [[]], [], [], limit, map[hash([]) := 0])
  }

  /** What CloneEmpty and Slice start from: the constructor that omits the NULL slot, even
      for a nullable dictionary. */
  function EmptyClone(hash: Hash, nullable: bool, limit: nat): Column {
    Column(nullable, [[]], if nullable then [false] else [], [], limit, map[hash([]) := 0])
  }

  function AddToDictionary(c: Column, item: Item): Column {
    var bytes := if item == Null then [] else item.bytes;
    if c.nullable then c.(nested := c.nested + [bytes], nulls := c.nulls + [item == Null])
    else c.(nested := c.nested + [bytes])
  }

  predicate IsNew(hash: Hash, c: Column, item: Item) {
    KeyOf(hash, item) !in c.unique
  }

  /** AppendUnsafe when nothing throws. The index is cut to the width of the index column. */
  function Append(hash: Hash, c: Column, item: Item): (c': Column)
    requires 0 < c.limit
    ensures c'.limit == c.limit && c'.nullable == c.nullable && |c'.index| == |c.index| + 1
  {
    var key := KeyOf(hash, item);
    if IsNew(hash, c, item) then
      AddToDictionary(c.(unique := c.unique[key := c.DictSize()],
                         index := c.index + [c.DictSize() % c.limit]), item)
    else c.(index := c.index + [c.unique[key] % c.limit])
  }

  predicate Appendable(c: Column, item: Item) {
    item == Null ==> c.nullable
  }

  /** The new value gets an index of its own: the dictionary has not outgrown the index type. */
  predicate Fits(hash: Hash, c: Column, item: Item) {
    IsNew(hash, c, item) ==> c.DictSize() < c.limit
  }

  lemma FreshValid(hash: Hash, nullable: bool, limit: nat)
    requires TellsNullFromEmpty(hash) && 2 <= limit
    ensures Fresh(hash, nullable, limit).Valid(hash)
  {
  }

  lemma AppendNew(hash: Hash, c: Column, item: Item)
    requires c.Aligned() && c.MapAgrees(hash) && Appendable(c, item) && IsNew(hash, c, item) && 0 < c.limit
    ensures var c' := Append(hash, c, item);
            && c'.Aligned() && c'.MapAgrees(hash) && c'.Dict() == c.Dict() + [item]
            && (c.DictSize() < c.limit ==> c'.index == c.index + [c.DictSize()])
  {
    hide Files, KeyOf;
    var c' := Append(hash, c, item);
    assert c'.Dict() == c.Dict() + [item];
    assert c.DictSize() < c.limit ==> c.DictSize() % c.limit == c.DictSize();
    FilesOneMore(hash, c.Dict(), c.unique, item);
  }

  lemma FilesOneMore(hash: Hash, dict: seq<Item>, unique: map<Key, nat>, item: Item)
    requires Files(hash, dict, unique) && KeyOf(hash, item) !in unique
    ensures Files(hash, dict + [item], unique[KeyOf(hash, item) := |dict|])
  {
  }

  lemma NewIsNotNull(hash: Hash, c: Column, item: Item)
    requires c.Valid(hash) && Appendable(c, item) && IsNew(hash, c, item)
    ensures item != Null
  {
    if c.nullable {
      assert KeyOf(hash, c.Dict()[0]) == NULL_KEY;
    }
  }

  lemma AppendNewKeepsRows(hash: Hash, c: Column, item: Item)
    requires c.Valid(hash) && Appendable(c, item) && IsNew(hash, c, item) && c.DictSize() < c.limit
    ensures var c' := Append(hash, c, item);
            && c'.Valid(hash)
            && (forall r :: 0 <= r < |c.index| ==> c'.Read(r) == c.Read(r))
            && c'.Read(|c.index|) == item
  {
    var c' := Append(hash, c, item);
    AppendNew(hash, c, item);
    NewIsNotNull(hash, c, item);
    assert c'.Canonical();
  }

  lemma AppendKnown(hash: Hash, c: Column, item: Item)
    requires c.Aligned() && c.MapAgrees(hash) && !IsNew(hash, c, item) && 0 < c.DictSize() <= c.limit
    ensures var c', i := Append(hash, c, item), c.unique[KeyOf(hash, item)];
            && c' == c.(index := c.index + [i]) && i < c.DictSize()
            && c'.Aligned() && c'.MapAgrees(hash) && c'.Dict() == c.Dict()
  {
    var i := c.unique[KeyOf(hash, item)];
    assert i % c.limit == i;
    DictIgnoresIndex(c, c.index + [i]);
  }

  lemma DictIgnoresIndex(c: Column, index: seq<nat>)
    requires c.Aligned()
    ensures c.(index := index).Aligned() && c.(index := index).Dict() == c.Dict()
  {
  }

  /** One append keeps every earlier row and adds a row that reads as a value with the same
      key: the very value, when no other value in the dictionary has that key. */
  lemma AppendKeepsRows(hash: Hash, c: Column, item: Item)
    requires c.Valid(hash) && Appendable(c, item) && Fits(hash, c, item)
    ensures var c' := Append(hash, c, item);
            && c'.Valid(hash)
            && (forall r :: 0 <= r < |c.index| ==> c'.Read(r) == c.Read(r))
            && c'.Read(|c.index|) == (if IsNew(hash, c, item) then item else c.Dict()[c.unique[KeyOf(hash, item)]])
            && KeyOf(hash, c'.Read(|c.index|)) == KeyOf(hash, item)
  {
    if IsNew(hash, c, item) {
      AppendNewKeepsRows(hash, c, item);
    } else {
      AppendKnown(hash, c, item);
    }
  }

  /** A dictionary that outgrows a narrow index column hands out the index of another value. */
  lemma AppendTooWide(hash: Hash, c: Column, item: Item)
    requires c.Valid(hash) && Appendable(c, item) && !Fits(hash, c, item)
    ensures var c' := Append(hash, c, item);
            c'.Aligned() && c'.InBounds() && c'.Read(|c.index|) != item
  {
    var c' := Append(hash, c, item);
    AppendNew(hash, c, item);
    assert c.DictSize() == c.limit && c'.index[|c.index|] == 0;
    assert KeyOf(hash, c.Dict()[0]) in c.unique;
  }

  //// Runs

  function Build(hash: Hash, nullable: bool, limit: nat, items: seq<Item>): (c: Column)
    requires 0 < limit
    ensures c.limit == limit && c.nullable == nullable && |c.index| == |items|
  {
    if items == [] then Fresh(hash, nullable, limit)
    else Append(hash, Build(hash, nullable, limit, items[..|items| - 1]), items[|items| - 1])
  }

  datatype Op = Add(item: Item) | Clear

  function RunFrom(hash: Hash, c: Column, ops: seq<Op>): Column
    requires 0 < c.limit
    decreases |ops|
  {
    if ops == [] then c
    else
      var c' := if ops[0].Clear? then Fresh(hash, c.nullable, c.limit) else Append(hash, c, ops[0].item);
      RunFrom(hash, c', ops[1..])
  }

  /** The plain list an op sequence describes, starting from a list. */
  function ListAfter(items: seq<Item>, ops: seq<Op>): seq<Item>
    decreases |ops|
  {
    if ops == [] then items
    else ListAfter(if ops[0].Clear? then [] else items + [ops[0].item], ops[1..])
  }

  lemma {:induction false} RunBuilds(hash: Hash, nullable: bool, limit: nat, items: seq<Item>, ops: seq<Op>)
    requires 0 < limit
    ensures RunFrom(hash, Build(hash, nullable, limit, items), ops)
         == Build(hash, nullable, limit, ListAfter(items, ops))
    decreases |ops|
  {
    if ops != [] {
      if ops[0].Clear? {
        RunBuilds(hash, nullable, limit, [], ops[1..]);
      } else {
        var more := items + [ops[0].item];
        assert more[..|more| - 1] == items;
        RunBuilds(hash, nullable, limit, more, ops[1..]);
      }
    }
  }

  /** A value is in the dictionary from the start: the default, and NULL when nullable. */
  predicate BuiltIn(nullable: bool, item: Item) {
    item == Str([]) || (nullable && item == Null)
  }

  predicate InPlay(nullable: bool, items: seq<Item>, item: Item) {
    BuiltIn(nullable, item) || item in items
  }

  /** No two different values in play share a key. */
  ghost predicate CollisionFree(hash: Hash, nullable: bool, items: seq<Item>) {
    forall a, b :: InPlay(nullable, items, a) && InPlay(nullable, items, b) && KeyOf(hash, a) == KeyOf(hash, b) ==> a == b
  }

  ghost predicate ReadsAs(c: Column, items: seq<Item>)
    requires c.Aligned() && c.InBounds()
  {
    |c.index| == |items| && forall r :: 0 <= r < |items| ==> c.Read(r) == items[r]
  }

  predicate ItemsAllowed(nullable: bool, items: seq<Item>) {
    forall r :: 0 <= r < |items| && items[r] == Null ==> nullable
  }

  /** Each row reads as the dictionary item filed under the key of the value appended there,
      and the dictionary holds nothing but values in play. */
  ghost predicate StandsFor(hash: Hash, c: Column, items: seq<Item>) {
    && c.Valid(hash) && |c.index| == |items|
    && (forall r :: 0 <= r < |items| ==>
          KeyOf(hash, items[r]) in c.unique && c.Read(r) == c.Dict()[c.unique[KeyOf(hash, items[r])]])
    && (forall i :: 0 <= i < c.DictSize() ==> InPlay(c.nullable, items, c.Dict()[i]))
  }

  lemma AppendStandsFor(hash: Hash, c: Column, items: seq<Item>, item: Item)
    requires StandsFor(hash, c, items) && Appendable(c, item) && Fits(hash, c, item)
    ensures StandsFor(hash, Append(hash, c, item), items + [item])
  {
    var c', more := Append(hash, c, item), items + [item];
    AppendKeepsRows(hash, c, item);
    if IsNew(hash, c, item) { AppendNew(hash, c, item); }
    forall r | 0 <= r < |more|
      ensures KeyOf(hash, more[r]) in c'.unique && c'.Read(r) == c'.Dict()[c'.unique[KeyOf(hash, more[r])]]
    {
      assert r < |items| ==> more[r] == items[r] && c'.Read(r) == c.Read(r);
    }
    forall i | 0 <= i < c'.DictSize() ensures InPlay(c.nullable, more, c'.Dict()[i]) {
      assert i < c.DictSize() ==> InPlay(c.nullable, items, c'.Dict()[i]);
    }
  }

  lemma FitsEarlier(hash: Hash, c: Column, item: Item)
    requires c.Valid(hash) && Appendable(c, item) && Append(hash, c, item).DictSize() <= c.limit
    ensures Fits(hash, c, item)
  {
    if IsNew(hash, c, item) { AppendNew(hash, c, item); }
  }

  lemma {:induction false} BuildStandsFor(hash: Hash, nullable: bool, limit: nat, items: seq<Item>)
    requires TellsNullFromEmpty(hash) && 2 <= limit && ItemsAllowed(nullable, items)
    requires Build(hash, nullable, limit, items).DictSize() <= limit
    ensures StandsFor(hash, Build(hash, nullable, limit, items), items)
    decreases |items|
  {
    if items == [] {
      FreshValid(hash, nullable, limit);
    } else {
      var init, last := items[..|items| - 1], items[|items| - 1];
      var c := Build(hash, nullable, limit, init);
      assert items == init + [last];
      assert c.DictSize() <= Append(hash, c, last).DictSize();
      BuildStandsFor(hash, nullable, limit, init);
      FitsEarlier(hash, c, last);
      AppendStandsFor(hash, c, init, last);
    }
  }

  /** The column refines the plain list exactly when the hash tells the values in play apart. */
  lemma RefinesList(hash: Hash, nullable: bool, limit: nat, ops: seq<Op>)
    requires TellsNullFromEmpty(hash) && 2 <= limit
    requires ItemsAllowed(nullable, ListAfter([], ops))
    requires RunFrom(hash, Fresh(hash, nullable, limit), ops).DictSize() <= limit
    ensures var c, items := RunFrom(hash, Fresh(hash, nullable, limit), ops), ListAfter([], ops);
            && c.Valid(hash)
            && (ReadsAs(c, items) <==> CollisionFree(hash, nullable, items))
  {
    var items := ListAfter([], ops);
    var c := RunFrom(hash, Fresh(hash, nullable, limit), ops);
    RunBuilds(hash, nullable, limit, [], ops);
    BuildStandsFor(hash, nullable, limit, items);
    if CollisionFree(hash, nullable, items) {
      forall r | 0 <= r < |items| ensures c.Read(r) == items[r] {
        assert c.Read(r) == c.Dict()[c.unique[KeyOf(hash, items[r])]];
        assert InPlay(nullable, items, c.Read(r)) && InPlay(nullable, items, items[r]);
      }
    }
    if ReadsAs(c, items) {
      forall a, b | InPlay(nullable, items, a) && InPlay(nullable, items, b) && KeyOf(hash, a) == KeyOf(hash, b)
        ensures a == b
      {
        InPlayIsStored(hash, c, items, a);
        InPlayIsStored(hash, c, items, b);
      }
    }
  }

  /** When the rows read back, every value in play is the dictionary item of its own key. */
  lemma InPlayIsStored(hash: Hash, c: Column, items: seq<Item>, a: Item)
    requires StandsFor(hash, c, items) && ReadsAs(c, items) && InPlay(c.nullable, items, a)
    ensures KeyOf(hash, a) in c.unique && c.Dict()[c.unique[KeyOf(hash, a)]] == a
  {
    if a in items {
      var r :| 0 <= r < |items| && items[r] == a;
    } else if a == Null {
      assert KeyOf(hash, c.Dict()[0]) in c.unique;
    } else {
      var d := if c.nullable then 1 else 0;
      assert c.Dict()[d] == a;
    }
  }

  //// Slices

  /** The rows of a slice as Slice reads them, appended to a column without a NULL slot. */
  function SliceOf(hash: Hash, nullable: bool, limit: nat, items: seq<Item>): (c: Column)
    requires 0 < limit
    ensures c.limit == limit && c.nullable == nullable && |c.index| == |items|
  {
    if items == [] then EmptyClone(hash, nullable, limit)
    else Append(hash, SliceOf(hash, nullable, limit, items[..|items| - 1]), items[|items| - 1])
  }

  lemma SliceOfNothing(hash: Hash, nullable: bool, limit: nat)
    requires 0 < limit
    ensures SliceOf(hash, nullable, limit, []) == EmptyClone(hash, nullable, limit)
  {
  }

  lemma SliceOfSnoc(hash: Hash, nullable: bool, limit: nat, items: seq<Item>, item: Item)
    requires 0 < limit
    ensures SliceOf(hash, nullable, limit, items + [item]) == Append(hash, SliceOf(hash, nullable, limit, items), item)
  {
    assert (items + [item])[..|items|] == items;
  }

  /** What a sliced row reads as: in a nullable column position 0 now holds the empty string,
      which GetItem takes for NULL. */
  function SlicedItem(nullable: bool, item: Item): Item {
    if nullable && item == Str([]) then Null else item
  }

  ghost predicate SliceStandsFor(hash: Hash, c: Column, items: seq<Item>) {
    && c.Aligned() && c.MapAgrees(hash) && c.InBounds() && |c.index| == |items|
    && 0 < c.DictSize() <= c.limit && c.Dict()[0] == Str([])
    && (forall i :: 0 <= i < c.DictSize() ==> c.Dict()[i] == Str([]) || c.Dict()[i] in items)
    && (forall r :: 0 <= r < |items| ==> c.Dict()[c.index[r]] == items[r])
  }

  lemma {:induction false} SliceStands(hash: Hash, nullable: bool, limit: nat, items: seq<Item>)
    requires 2 <= limit && ItemsAllowed(nullable, items)
    requires CollisionFree(hash, nullable, items)
    requires SliceOf(hash, nullable, limit, items).DictSize() <= limit
    ensures SliceStandsFor(hash, SliceOf(hash, nullable, limit, items), items)
    decreases |items|
  {
    if items != [] {
      var init, last := items[..|items| - 1], items[|items| - 1];
      var c := SliceOf(hash, nullable, limit, init);
      assert items == init + [last];
      assert forall a :: InPlay(nullable, init, a) ==> InPlay(nullable, items, a);
      assert c.DictSize() <= Append(hash, c, last).DictSize();
      SliceStands(hash, nullable, limit, init);
      SliceStep(hash, c, init, last);
    }
  }

  lemma SliceStep(hash: Hash, c: Column, items: seq<Item>, item: Item)
    requires SliceStandsFor(hash, c, items) && Appendable(c, item)
    requires CollisionFree(hash, c.nullable, items + [item])
    requires Append(hash, c, item).DictSize() <= c.limit
    ensures SliceStandsFor(hash, Append(hash, c, item), items + [item])
  {
    var c', more := Append(hash, c, item), items + [item];
    var i := SliceIndex(hash, c, items, item);
    forall r | 0 <= r < |more| ensures c'.Dict()[c'.index[r]] == more[r] {
      assert r < |items| ==> c'.index[r] == c.index[r] && c'.Dict()[c.index[r]] == c.Dict()[c.index[r]];
    }
    forall j | 0 <= j < c'.DictSize() ensures c'.Dict()[j] == Str([]) || c'.Dict()[j] in more {
      assert j < c.DictSize() ==> c'.Dict()[j] == c.Dict()[j];
      assert more[|items|] == item;
    }
  }

  /** The index an append to a slice gets is that of the appended value itself. */
  lemma SliceIndex(hash: Hash, c: Column, items: seq<Item>, item: Item) returns (i: nat)
    requires SliceStandsFor(hash, c, items) && Appendable(c, item)
    requires CollisionFree(hash, c.nullable, items + [item])
    requires Append(hash, c, item).DictSize() <= c.limit
    ensures var c' := Append(hash, c, item);
            && c'.Aligned() && c'.MapAgrees(hash)
            && c'.Dict() == (if IsNew(hash, c, item) then c.Dict() + [item] else c.Dict())
            && c'.index == c.index + [i] && i < c'.DictSize() && c'.Dict()[i] == item
  {
    hide CollisionFree;
    if IsNew(hash, c, item) {
      AppendNew(hash, c, item);
      i := c.DictSize();
    } else {
      AppendKnown(hash, c, item);
      i := c.unique[KeyOf(hash, item)];
      SameKeySameItem(hash, c.nullable, items, item, c.Dict()[i]);
    }
  }

  lemma SameKeySameItem(hash: Hash, nullable: bool, items: seq<Item>, item: Item, stored: Item)
    requires CollisionFree(hash, nullable, items + [item])
    requires InPlay(nullable, items, stored) && KeyOf(hash, stored) == KeyOf(hash, item)
    ensures stored == item
  {
    var more := items + [item];
    assert more[|items|] == item;
    assert InPlay(nullable, more, item) && InPlay(nullable, more, stored);
  }

  /** A slice reads back the rows it was made of, if and only if the column is not nullable or
      none of those rows is the empty string. */
  lemma SliceReadsBack(hash: Hash, nullable: bool, limit: nat, items: seq<Item>)
    requires 2 <= limit && ItemsAllowed(nullable, items)
    requires CollisionFree(hash, nullable, items)
    requires SliceOf(hash, nullable, limit, items).DictSize() <= limit
    ensures var c := SliceOf(hash, nullable, limit, items);
            && c.Aligned() && c.InBounds()
            && (forall r :: 0 <= r < |items| ==> c.Read(r) == SlicedItem(nullable, items[r]))
            && (ReadsAs(c, items) <==> !nullable || Str([]) !in items)
  {
    var c := SliceOf(hash, nullable, limit, items);
    SliceStands(hash, nullable, limit, items);
    forall r | 0 <= r < |items| ensures c.Read(r) == SlicedItem(nullable, items[r]) {
      if nullable && items[r] == Str([]) {
        assert c.unique[KeyOf(hash, c.Dict()[c.index[r]])] == c.index[r];
        assert c.unique[KeyOf(hash, c.Dict()[0])] == 0;
      }
    }
  }

  //// Loading

  /** The map Load rebuilds from a dictionary: for every key the first position that has it. */
  function MapOf(hash: Hash, dict: seq<Item>): map<Key, nat> {
    if dict == [] then map[]
    else
      var m := MapOf(hash, dict[..|dict| - 1]);
      var key := KeyOf(hash, dict[|dict| - 1]);
      if key in m then m else m[key := |dict| - 1]
  }

  function LoadedItems(nullable: bool, nested: seq<seq<byte>>): seq<Item> {
    seq(|nested|, i requires 0 <= i < |nested| => if nullable && i == 0 then Null else Str(nested[i]))
  }

  /** The column Load builds from the dictionary bytes and the indexes: only the values of the
      dictionary travel, its null map is made up again, with NULL at position 0 alone. */
  function Loaded(hash: Hash, nullable: bool, nested: seq<seq<byte>>, index: seq<nat>, limit: nat): Column {
    var nulls := if nullable then [true] + seq(if |nested| == 0 then 0 else |nested| - 1, _ => false) else [];
    Column(nullable, nested, nulls, index, limit, MapOf(hash, LoadedItems(nullable, nested)))
  }

  /** What is made up of a dictionary that was read: as many null flags as values, at least one, with NULL
      in front; of equal keys the first position counts. */
  lemma LoadedDecides(hash: Hash, nullable: bool, nested: seq<seq<byte>>, index: seq<nat>, limit: nat)
    ensures var c := Loaded(hash, nullable, nested, index, limit);
            && c.nested == nested && c.index == index && c.limit == limit && c.nullable == nullable
            && (nullable ==> |c.nulls| == (if nested == [] then 1 else |nested|)
                             && forall i :: 0 <= i < |c.nulls| ==> c.nulls[i] == (i == 0))
            && (!nullable ==> c.nulls == [])
            && (forall i :: 0 <= i < |nested| ==>
                  var key := if nullable && i == 0 then NULL_KEY else hash(nested[i]);
                  key in c.unique && c.unique[key] <= i)
            && (forall k <- c.unique ::
                  var i := c.unique[k]; i < |nested| && k == (if nullable && i == 0 then NULL_KEY else hash(nested[i])))
  {
    var dict := LoadedItems(nullable, nested);
    MapOfFirst(hash, dict);
    forall i | 0 <= i < |nested|
      ensures KeyOf(hash, dict[i]) == if nullable && i == 0 then NULL_KEY else hash(nested[i])
    {
    }
    var c := Loaded(hash, nullable, nested, index, limit);
    forall i | 0 <= i < |nested|
      ensures var key := if nullable && i == 0 then NULL_KEY else hash(nested[i]);
              key in c.unique && c.unique[key] <= i
    {
      assert KeyOf(hash, dict[i]) in MapOf(hash, dict);
    }
  }

  lemma {:induction false} MapOfFirst(hash: Hash, dict: seq<Item>)
    ensures var m := MapOf(hash, dict);
            && (forall i :: 0 <= i < |dict| ==> KeyOf(hash, dict[i]) in m && m[KeyOf(hash, dict[i])] <= i)
            && (forall k <- m :: m[k] < |dict| && KeyOf(hash, dict[m[k]]) == k)
  {
    if dict != [] {
      var d := dict[..|dict| - 1];
      MapOfFirst(hash, d);
      assert MapOf(hash, d).Keys <= MapOf(hash, dict).Keys;
      forall i | 0 <= i < |dict|
        ensures KeyOf(hash, dict[i]) in MapOf(hash, dict) && MapOf(hash, dict)[KeyOf(hash, dict[i])] <= i
      {
        if i < |d| {
          assert d[i] == dict[i];
        }
      }
    }
  }

  lemma {:induction false} MapOfDistinct(hash: Hash, dict: seq<Item>)
    requires forall i, j :: 0 <= i < j < |dict| ==> KeyOf(hash, dict[i]) != KeyOf(hash, dict[j])
    ensures forall i :: 0 <= i < |dict| ==> KeyOf(hash, dict[i]) in MapOf(hash, dict) && MapOf(hash, dict)[KeyOf(hash, dict[i])] == i
    ensures forall k <- MapOf(hash, dict) :: MapOf(hash, dict)[k] < |dict| && KeyOf(hash, dict[MapOf(hash, dict)[k]]) == k
  {
    if dict != [] {
      MapOfDistinct(hash, dict[..|dict| - 1]);
    }
  }

  /** Saving a column and loading it back restores every field: dictionary, null map, indexes
      and hash map. */
  lemma LoadRestores(hash: Hash, c: Column)
    requires c.Valid(hash)
    ensures Loaded(hash, c.nullable, c.nested, c.index, c.limit) == c
  {
    var l := Loaded(hash, c.nullable, c.nested, c.index, c.limit);
    var dict := LoadedItems(c.nullable, c.nested);
    assert l.nulls == c.nulls;
    assert forall i :: 0 <= i < |dict| ==> dict[i] == c.Dict()[i];
    forall i, j | 0 <= i < j < |dict| ensures KeyOf(hash, dict[i]) != KeyOf(hash, dict[j]) {
      assert c.unique[KeyOf(hash, c.Dict()[i])] == i && c.unique[KeyOf(hash, c.Dict()[j])] == j;
    }
    MapOfDistinct(hash, dict);
    forall k | k in c.unique ensures k in l.unique && l.unique[k] == c.unique[k] {
      assert dict[c.unique[k]] == c.Dict()[c.unique[k]];
    }
    forall k | k in l.unique ensures k in c.unique {
      assert dict[l.unique[k]] == c.Dict()[l.unique[k]];
    }
    assert l.unique == c.unique;
  }

  //// The object

  /** Where an append can throw: growing the map, the index column, the dictionary's values or
      its null map. */
  datatype Fault = NoFault | AtMap | AtIndex | AtValues | AtNullMap

  /** Whether a fault is on the path of this append. */
  predicate Fires(hash: Hash, c: Column, item: Item, fault: Fault) {
    match fault
    case NoFault => false
    case AtIndex => true
    case AtMap => IsNew(hash, c, item)
    case AtValues => IsNew(hash, c, item)
    case AtNullMap => IsNew(hash, c, item) && c.nullable
  }

  class ColumnLowCardinality {
    const nullable: bool
    const hash: Hash
    var nested: seq<seq<byte>>
    var nulls: seq<bool>
    var index: seq<nat>
    var limit: nat
    var unique: map<Key, nat>

    ghost function Now(): Column
      reads this
    {
      Column(nullable, nested, nulls, index, limit, unique)
    }

    constructor (nullable: bool, hash: Hash)
      requires TellsNullFromEmpty(hash)
      ensures this.nullable == nullable && this.hash == hash
      ensures Now() == Fresh(hash, nullable, 0x1_0000_0000)
    {
      this.nullable, this.hash := nullable, hash;
      nested, nulls, index, limit, unique := [], [], [], 0x1_0000_0000, map[];
      new;
      if nullable {
        AppendNullItem();
      }
      AppendDefaultItem();
    }

    method AppendNullItem()
      requires nullable
      modifies this
      ensures Now() == AddToDictionary(old(Now()), Null).(
                unique := if NULL_KEY in old(unique) then old(unique) else old(unique)[NULL_KEY := 0])
    {
      nested := nested + [[]];
      nulls := nulls + [true];
      if NULL_KEY !in unique {
        unique := unique[NULL_KEY := 0];
      }
    }

    method AppendDefaultItem()
      modifies this
      ensures Now() == AddToDictionary(old(Now()), Str([])).(
                unique := if hash([]) in old(unique) then old(unique) else old(unique)[hash([]) := old(Now()).DictSize()])
    {
      if hash([]) !in unique {
        unique := unique[hash([]) := if nullable then |nulls| else |nested|];
      }
      nested := nested + [[]];
      if nullable {
        nulls := nulls + [false];
      }
    }

    method Clear()
      requires TellsNullFromEmpty(hash)
      modifies this
      ensures Now() == Fresh(hash, nullable, old(limit))
    {
      index, nested, nulls, unique := [], [], [], map[];
      if nullable {
        AppendNullItem();
      }
      AppendDefaultItem();
    }

    /** Adds to the dictionary: the value first, its null flag second. */
    method AppendToDictionary(item: Item, fault: Fault) returns (ok: bool)
      modifies this`nested, this`nulls
      ensures ok <==> !(fault == AtValues || (fault == AtNullMap && nullable))
      ensures ok ==> Now() == AddToDictionary(old(Now()), item)
      ensures fault == AtValues ==> Now() == old(Now())
      ensures fault == AtNullMap && nullable ==>
                Now() == old(Now()).(nested := old(nested) + [if item == Null then [] else item.bytes])
    {
      if fault == AtValues {
        return false;
      }
      nested := nested + [if item == Null then [] else item.bytes];
      if nullable {
        if fault == AtNullMap {
          return false;
        }
        nulls := nulls + [item == Null];
      }
      ok := true;
    }

    /** AppendUnsafe with its rollback. A failed append leaves every field as it was, except
        when the null map of a nullable dictionary cannot grow: the value stays behind. */
    method AppendUnsafe(item: Item, fault: Fault) returns (ok: bool)
      requires 0 < limit && Appendable(Now(), item)
      modifies this
      ensures ok <==> !Fires(hash, old(Now()), item, fault)
      ensures fault == NoFault ==> ok
      ensures fault == AtIndex ==> !ok
      ensures IsNew(hash, old(Now()), item) ==> (ok <==> fault == NoFault || (fault == AtNullMap && !nullable))
      ensures !IsNew(hash, old(Now()), item) ==> (ok <==> fault != AtIndex)
      ensures ok ==> Now() == Append(hash, old(Now()), item)
      ensures !ok && fault != AtNullMap ==> Now() == old(Now())
      ensures !ok && fault == AtNullMap ==>
                Now() == old(Now()).(nested := old(nested) + [if item == Null then [] else item.bytes]) != old(Now())
    {
      var key := KeyOf(hash, item);
      var initialIndexSize := |index|;
      var isNew := key !in unique;
      if isNew {
        if fault == AtMap {
          return false;
        }
        unique := unique[key := if nullable then |nulls| else |nested|];
      }
      ok := fault != AtIndex;
      if ok {
        index := index + [unique[key] % limit];
        if isNew {
          ok := AppendToDictionary(item, fault);
        }
      }
      if !ok {
        if |index| != initialIndexSize {
          index := index[..|index| - 1];
        }
        if isNew {
          unique := unique - {key};
          assert unique == old(unique);
        }
      }
    }

    method GetItem(r: nat) returns (item: Item)
      requires Now().Aligned() && Now().InBounds() && r < |index|
      ensures item == Now().Read(r)
    {
      var position := index[r];
      if nullable && position == 0 {
        return Null;
      }
      item := if nullable && nulls[position] then Null else Str(nested[position]);
    }

    /** Makes a new column out of some rows, through the constructor without a NULL slot. */
    constructor CloneEmpty(original: ColumnLowCardinality)
      ensures nullable == original.nullable && hash == original.hash
      ensures Now() == EmptyClone(hash, nullable, 0x1_0000_0000)
    {
      nullable, hash := original.nullable, original.hash;
      nested, nulls, index, limit, unique := [], [], [], 0x1_0000_0000, map[];
      new;
      AppendDefaultItem();
    }

    /** One step of Slice: the item of a row, appended to the column that is being built. */
    method CopyRow(r: nat, result: ColumnLowCardinality, ghost items: seq<Item>)
      requires Now().Aligned() && Now().InBounds() && r < |index|
      requires result != this && result.nullable == nullable && result.hash == hash
      requires result.Now() == SliceOf(hash, nullable, 0x1_0000_0000, items)
      modifies result
      ensures result.Now() == SliceOf(hash, nullable, 0x1_0000_0000, items + [Now().Read(r)])
    {
      hide SliceOf, Append, Column.Read, IsNew, AddToDictionary;
      var item := GetItem(r);
      NullRowIsNullable(Now(), r);
      SliceOfSnoc(hash, nullable, 0x1_0000_0000, items, item);
      var _ := result.AppendUnsafe(item, NoFault);
    }

    method Slice(begin: nat, len: nat) returns (result: ColumnLowCardinality, ghost items: seq<Item>)
      requires Now().Aligned() && Now().InBounds()
      ensures var b := if begin < |index| then begin else |index|;
              var n := if len < |index| - b then len else |index| - b;
              |items| == n && forall r :: 0 <= r < n ==> items[r] == Now().Read(b + r)
      ensures fresh(result) && result.Now() == SliceOf(hash, nullable, 0x1_0000_0000, items)
    {
      hide SliceOf, Column.Read, Column.Dict, EmptyClone;
      SliceOfNothing(hash, nullable, 0x1_0000_0000);
      var b := if begin < |index| then begin else |index|;
      var n := if len < |index| - b then len else |index| - b;
      result := new ColumnLowCardinality.CloneEmpty(this);
      items := [];
      ghost var me := Now();
      var i := b;
      while i < b + n
        invariant b <= i <= b + n && |items| == i - b
        invariant Now() == me
        invariant forall r :: 0 <= r < |items| ==> items[r] == me.Read(b + r)
        invariant fresh(result) && result.nullable == nullable && result.hash == hash
        invariant result.Now() == SliceOf(hash, nullable, 0x1_0000_0000, items)
      {
        CopyRow(i, result, items);
        items := items + [me.Read(i)];
        i := i + 1;
      }
    }
  }

  /** What a half-finished append does next: the first new value appended after it reads as
      the value whose append failed. */
  lemma HalfAppendMisreads(hash: Hash, c: Column, failed: Item, next: Item)
    requires c.Valid(hash) && c.nullable && failed.Str? && next.Str? && failed != next
    requires IsNew(hash, c, next) && c.DictSize() < c.limit
    ensures var broken := c.(nested := c.nested + [failed.bytes]);
            var c' := Append(hash, broken, next);
            var position := c'.index[|c.index|];
            && position == c.DictSize() && !c'.nulls[position]
            && Str(c'.nested[position]) == failed != next
  {
    assert c.DictSize() % c.limit == c.DictSize();
  }
}
