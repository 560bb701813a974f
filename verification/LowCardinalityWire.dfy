/** A LowCardinality(String) column through its bytes: what Save writes of the fields is what
    Load builds the fields from. */
module LowCardinalityWire {
  import opened Bytes
  import opened WireFormat
  import Tree = ColumnTree
  import LC = LowCardinality

  /** What Save writes: the values of the dictionary and the indexes, in the width the column has.
      Neither the null map nor the hash map is written. */
  function OnWire(c: LC.Column, width: nat): Tree.Column {
    Tree.LowCardinalityColumn(c.nullable, Tree.StringColumn(c.nested), width, c.index)
  }

  function WireType(nullable: bool): Tree.Type {
    Tree.LowCardinalityType(if nullable then Tree.NullableType(Tree.StringType) else Tree.StringType)
  }

  /** LoadPrefix and LoadBody, from bytes to fields. */
  function Load(hash: LC.Hash, nullable: bool, input: seq<byte>, rows: nat): Option<Read<LC.Column>> {
    match Tree.Load(WireType(nullable), input, rows)
    case Some(Read(LowCardinalityColumn(_, StringColumn(nested), width, index), rest)) =>
      Some(Read(LC.Loaded(hash, nullable, nested, index, Pow256(width)), rest))
    case _ => None
  }

  /** How many values an index of this many bytes can have. */
  function IndexValues(width: nat): (n: nat)
    requires Tree.IsIndexWidth(width)
    ensures n == Pow256(width) && 2 <= n
  {
    if width == 8 then Pow256Of8(); Pow256(width) else Pow256(width)
  }

  /** A column whose indexes have some width, small enough for the counts on the wire. */
  ghost predicate Travels(hash: LC.Hash, c: LC.Column, width: nat) {
    && c.Valid(hash) && Tree.IsIndexWidth(width) && c.limit == IndexValues(width)
    && 0 < |c.index| < TWO_64 && |c.nested| < TWO_64 && Tree.Strings64(c.nested)
  }

  lemma OnWireValid(hash: LC.Hash, c: LC.Column, width: nat)
    requires Travels(hash, c, width)
    ensures Tree.Valid(OnWire(c, width)) && Tree.Size(OnWire(c, width)) == |c.index|
    ensures Tree.TypeOf(OnWire(c, width)) == WireType(c.nullable)
  {
    hide Pow256;
  }

  /** Saved and loaded, every field is what it was, those that do not travel included, and the
      input after the column is left for the next one. */
  lemma SaveThenLoad(hash: LC.Hash, c: LC.Column, width: nat, rest: seq<byte>)
    requires Travels(hash, c, width)
    ensures Load(hash, c.nullable, Tree.Save(OnWire(c, width)) + rest, |c.index|) == Some(Read(c, rest))
  {
    OnWireValid(hash, c, width);
    Tree.SaveLoad(OnWire(c, width), rest);
    LC.LoadRestores(hash, c);
    hide Tree.Load, Tree.Save, LC.Loaded, Pow256;
    assert Tree.Trim(OnWire(c, width)) == OnWire(c, width);
  }

  function ValueOf(item: LC.Item): Tree.Value {
    if item == LC.Null then Tree.Null else Tree.Cell(item.bytes)
  }

  /** The rows the bytes stand for are the rows GetItem reads. */
  lemma RowsOnWire(hash: LC.Hash, c: LC.Column, width: nat, r: nat)
    requires Travels(hash, c, width) && r < |c.index|
    ensures Tree.Valid(OnWire(c, width))
    ensures Tree.RowAt(OnWire(c, width), r) == ValueOf(c.Read(r))
  {
    OnWireValid(hash, c, width);
    hide Pow256;
  }

  /** A list built by any run of appends and clears, saved and loaded in another process with
      the same hash, reads as that list if and only if no two values in play share a key. */
  lemma ListTravels(hash: LC.Hash, nullable: bool, width: nat, ops: seq<LC.Op>, rest: seq<byte>)
    requires LC.TellsNullFromEmpty(hash) && Tree.IsIndexWidth(width)
    requires LC.ItemsAllowed(nullable, LC.ListAfter([], ops)) && LC.ListAfter([], ops) != []
    requires var c := LC.RunFrom(hash, LC.Fresh(hash, nullable, IndexValues(width)), ops);
             && c.DictSize() <= IndexValues(width) && |c.index| < TWO_64 && |c.nested| < TWO_64 && Tree.Strings64(c.nested)
    ensures var c := LC.RunFrom(hash, LC.Fresh(hash, nullable, IndexValues(width)), ops);
            var loaded := Load(hash, nullable, Tree.Save(OnWire(c, width)) + rest, |LC.ListAfter([], ops)|);
            && loaded.Some? && loaded.value.rest == rest
            && loaded.value.value.Valid(hash)
            && (LC.ReadsAs(loaded.value.value, LC.ListAfter([], ops))
                <==> LC.CollisionFree(hash, nullable, LC.ListAfter([], ops)))
  {
    var c := LC.RunFrom(hash, LC.Fresh(hash, nullable, IndexValues(width)), ops);
    LC.RefinesList(hash, nullable, IndexValues(width), ops);
    LC.RunBuilds(hash, nullable, IndexValues(width), [], ops);
    hide LC.RunFrom, LC.ListAfter, IndexValues, LC.CollisionFree, LC.ReadsAs, Tree.Save, Load;
    assert c == LC.Build(hash, nullable, IndexValues(width), LC.ListAfter([], ops));
    SaveThenLoad(hash, c, width, rest);
  }
}
