/** The Array column: flat data and one running offset per row, standing for a list of lists. */
module ArrayColumn {
  import opened Bytes

  /** A nested column: its type, and its values. */
  datatype Data<+T> = Data(tag: nat, items: seq<T>)

  /** Column::Append of a column of another type is silently ignored. */
  function AppendData<T>(d: Data<T>, more: Data<T>): Data<T> {
    if d.tag == more.tag then d.(items := d.items + more.items) else d
  }

  /** Column::Slice cuts a range that reaches past the end. */
  function SliceData<T>(d: Data<T>, begin: nat, len: nat): Data<T> {
    d.(items := SliceVector(d.items, begin, len))
  }

  function Offset(offsets: seq<nat>, n: nat): nat
    requires n <= |offsets|
  {
    if n == 0 then 0 else offsets[n - 1]
  }

  predicate Consistent(offsets: seq<nat>, size: nat) {
    Monotone(offsets) && Offset(offsets, |offsets|) == size
  }

  lemma OffsetsMonotone(offsets: seq<nat>, m: nat, n: nat)
    requires Monotone(offsets) && m <= n <= |offsets|
    ensures Offset(offsets, m) <= Offset(offsets, n)
  {
  }

  function Row<T>(items: seq<T>, offsets: seq<nat>, n: nat): seq<T>
    requires Consistent(offsets, |items|) && n < |offsets|
  {
    OffsetsMonotone(offsets, n, n + 1);
    OffsetsMonotone(offsets, n + 1, |offsets|);
    items[Offset(offsets, n)..Offset(offsets, n + 1)]
  }

  /** The list of lists that data and offsets stand for. */
  function Rows<T>(items: seq<T>, offsets: seq<nat>): (rows: seq<seq<T>>)
    requires Consistent(offsets, |items|)
    ensures |rows| == |offsets|
  {
    seq(|offsets|, n requires 0 <= n < |offsets| => Row(items, offsets, n))
  }

  lemma RowsSnoc<T>(items: seq<T>, offsets: seq<nat>, row: seq<T>)
    requires Consistent(offsets, |items|)
    ensures var more := offsets + [|items| + |row|];
            Consistent(more, |items + row|) && Rows(items + row, more) == Rows(items, offsets) + [row]
  {
    var more := offsets + [|items| + |row|];
    forall i | 0 <= i < |offsets| ensures offsets[i] <= |items| {
      OffsetsMonotone(offsets, i + 1, |offsets|);
    }
    forall n | 0 <= n < |offsets| ensures Row(items + row, more, n) == Row(items, offsets, n) {
      OffsetsMonotone(offsets, n, n + 1);
      OffsetsMonotone(offsets, n + 1, |offsets|);
      assert Offset(more, n) == Offset(offsets, n) && Offset(more, n + 1) == Offset(offsets, n + 1);
    }
    assert Row(items + row, more, |offsets|) == row;
  }

  /** The data of an array column is its rows, one after the other. */
  lemma {:induction false} RowsFlatten<T>(items: seq<T>, offsets: seq<nat>)
    requires Consistent(offsets, |items|)
    ensures Flatten(Rows(items, offsets)) == items
    decreases |offsets|
  {
    if offsets != [] {
      var init := offsets[..|offsets| - 1];
      var end := Offset(init, |init|);
      OffsetsMonotone(offsets, |init|, |offsets|);
      assert Consistent(init, end);
      RowsFlatten(items[..end], init);
      RowsSnoc(items[..end], init, items[end..]);
      assert items[..end] + items[end..] == items && init + [|items|] == offsets;
      FlattenSnoc(Rows(items[..end], init), items[end..]);
    }
  }

  class ColumnArray<T> {
    var data: Data<T>
    var offsets: seq<nat>

    ghost predicate Valid()
      reads this
    {
      Consistent(offsets, |data.items|)
    }

    ghost function Contents(): seq<seq<T>>
      requires Valid()
      reads this
    {
      Rows(data.items, offsets)
    }

    /** An array column over some data: one row with all of it, or no row if there is none. */
    constructor (data: Data<T>)
      ensures Valid() && this.data == data
      ensures Contents() == if data.items == [] then [] else [data.items]
    {
      this.data := data;
      offsets := if |data.items| != 0 then [|data.items|] else [];
      new;
      assert data.items != [] ==> Row(data.items, offsets, 0) == data.items;
    }

    constructor FromParts(data: Data<T>, offsets: seq<nat>)
      ensures this.data == data && this.offsets == offsets
    {
      this.data, this.offsets := data, offsets;
    }

    /** The checks of the constructor that is given offsets: None is a ValidationError. */
    static method Create(data: Data<T>, offsets: seq<nat>) returns (r: Option<ColumnArray<T>>)
      ensures r.Some? <==> Consistent(offsets, |data.items|)
      ensures r.Some? ==> fresh(r.value) && r.value.data == data && r.value.offsets == offsets && r.value.Valid()
    {
      var expected := if |offsets| > 0 then offsets[|offsets| - 1] else 0;
      var prev := 0;
      var i := 0;
      while i < |offsets|
        invariant 0 <= i <= |offsets|
        invariant prev == Offset(offsets, i)
        invariant forall j, k :: 0 <= j <= k < i ==> offsets[j] <= offsets[k]
      {
        if offsets[i] < prev {
          assert !Monotone(offsets);
          return None;
        }
        prev := offsets[i];
        i := i + 1;
      }
      if |data.items| != expected {
        return None;
      }
      var column := new ColumnArray.FromParts(data, offsets);
      r := Some(column);
    }

    method Size() returns (n: nat)
      ensures n == |offsets|
    {
      n := |offsets|;
    }

    method GetOffset(n: nat) returns (o: nat)
      requires n <= |offsets|
      ensures o == Offset(offsets, n)
    {
      o := if n == 0 then 0 else offsets[n - 1];
    }

    method GetSize(n: nat) returns (s: nat)
      requires Valid() && n < |offsets|
      ensures s == |Contents()[n]|
    {
      OffsetsMonotone(offsets, n, n + 1);
      s := if n == 0 then offsets[n] else offsets[n] - offsets[n - 1];
    }

    /** Appends the values of a column as one row. The result is consistent exactly when the
        column has the nested type or no values; otherwise the offsets run ahead of the data,
        and stay ahead whatever is appended later. */
    method AppendAsColumn(row: Data<T>)
      modifies this
      ensures data == AppendData(old(data), row)
      ensures offsets == old(offsets) + [Offset(old(offsets), |old(offsets)|) + |row.items|]
      ensures old(Valid()) ==> (Valid() <==> row.tag == old(data.tag) || row.items == [])
      ensures old(Valid()) && Valid() ==> Contents() == old(Contents()) + [row.items]
    {
      ghost var before := data.items;
      ghost var last := Offset(offsets, |offsets|);
      if Consistent(offsets, |data.items|) {
        RowsSnoc(data.items, offsets, row.items);
      }
      data := AppendData(data, row);
      if |offsets| == 0 {
        offsets := offsets + [|row.items|];
      } else {
        offsets := offsets + [offsets[|offsets| - 1] + |row.items|];
      }
      assert offsets == old(offsets) + [last + |row.items|];
      assert old(Valid()) ==> Offset(offsets, |offsets|) == |before| + |row.items|;
      assert row.items == [] ==> before + row.items == before;
    }

    method GetAsColumn(n: nat) returns (r: Option<Data<T>>)
      requires Valid()
      ensures r == if n < |offsets| then Some(Data(data.tag, Contents()[n])) else None
    {
      if n >= |offsets| {
        return None;
      }
      var begin := GetOffset(n);
      var size := GetSize(n);
      OffsetsMonotone(offsets, n, n + 1);
      OffsetsMonotone(offsets, n + 1, |offsets|);
      r := Some(SliceData(data, begin, size));
      assert r.value.items == Contents()[n];
    }

    /** Appends every row of another array column. Values of another nested type are ignored, but
        their rows are counted: then the offsets run ahead of data that did not change. */
    method Append(other: ColumnArray<T>)
      requires Valid() && other.Valid() && other != this
      modifies this
      ensures data.tag == old(data.tag)
      ensures Valid() <==> other.data.tag == data.tag || other.data.items == []
      ensures Valid() ==> Contents() == old(Contents()) + other.Contents()
      ensures other.data.tag != data.tag ==>
                data == old(data) && Offset(offsets, |offsets|) == |data.items| + |other.data.items|
      ensures |offsets| == |old(offsets)| + |other.offsets|
    {
      ghost var kept := other.data.tag == data.tag || other.data.items == [];
      var i := 0;
      while i < |other.offsets|
        invariant 0 <= i <= |other.offsets| && other.Valid() && |offsets| == |old(offsets)| + i
        invariant data.tag == old(data.tag) && kept == (other.data.tag == data.tag || other.data.items == [])
        invariant kept ==> Valid() && Contents() == old(Contents()) + other.Contents()[..i]
        invariant other.data.tag != data.tag ==>
                    data == old(data) && Offset(offsets, |offsets|) == |data.items| + Offset(other.offsets, i)
      {
        OffsetsMonotone(other.offsets, i, i + 1);
        var row := other.GetAsColumn(i);
        AppendAsColumn(row.value);
        assert other.Contents()[..i + 1] == other.Contents()[..i] + [other.Contents()[i]];
        i := i + 1;
      }
      assert other.Contents()[..i] == other.Contents();
    }

    /** Some consecutive rows as a column of their own; None is a ValidationError. An empty
        slice must begin inside the column or right at its end. */
    method Slice(begin: nat, size: nat) returns (r: Option<ColumnArray<T>>)
      requires Valid() && (size == 0 ==> begin <= |offsets|)
      ensures r.Some? <==> size == 0 || begin + size <= |offsets|
      ensures r.Some? ==> fresh(r.value) && r.value.Valid() && r.value.Contents() == Contents()[begin..begin + size]
    {
      if size != 0 && begin + size > |offsets| {
        return None;
      }
      var lo := GetOffset(begin);
      var hi := GetOffset(begin + size);
      OffsetsMonotone(offsets, begin, begin + size);
      OffsetsMonotone(offsets, begin + size, |offsets|);
      var sliced := SliceData(data, lo, hi - lo);
      assert sliced.items == data.items[lo..hi];
      var cut := [];
      var offset := 0;
      var i := 0;
      while i < size
        invariant 0 <= i <= size && |cut| == i
        invariant offset == Offset(offsets, begin + i) - lo
        invariant forall k :: 0 <= k <= i ==> Offset(cut, k) == Offset(offsets, begin + k) - lo
      {
        var n := GetSize(begin + i);
        OffsetsMonotone(offsets, begin + i, begin + i + 1);
        offset := offset + n;
        ghost var before := cut;
        cut := cut + [offset];
        i := i + 1;
        assert forall k :: 0 <= k < i ==> Offset(cut, k) == Offset(before, k);
      }
      SlicedRows(data.items, offsets, begin, size, cut);
      r := Create(sliced, cut);
    }

    method Clear()
      modifies this
      ensures Valid() && Contents() == [] && data.tag == old(data.tag)
    {
      offsets := [];
      data := data.(items := []);
    }
  }

  /** Offsets moved back by where a slice begins describe the rows of the slice. */
  lemma SlicedRows<T>(items: seq<T>, offsets: seq<nat>, begin: nat, size: nat, cut: seq<nat>)
    requires Consistent(offsets, |items|) && begin + size <= |offsets| == |offsets| && |cut| == size
    requires Offset(offsets, begin) <= Offset(offsets, begin + size) <= |items|
    requires forall k :: 0 <= k <= size ==> Offset(cut, k) == Offset(offsets, begin + k) - Offset(offsets, begin)
    ensures var part := items[Offset(offsets, begin)..Offset(offsets, begin + size)];
            Consistent(cut, |part|) && Rows(part, cut) == Rows(items, offsets)[begin..begin + size]
  {
    var lo := Offset(offsets, begin);
    var part := items[lo..Offset(offsets, begin + size)];
    forall i, j | 0 <= i <= j < |cut| ensures cut[i] <= cut[j] {
      OffsetsMonotone(offsets, begin + i + 1, begin + j + 1);
      assert cut[i] == Offset(cut, i + 1) && cut[j] == Offset(cut, j + 1);
    }
    assert Offset(cut, |cut|) == |part|;
    hide Monotone, Row;
    forall n | 0 <= n < size ensures Row(part, cut, n) == Row(items, offsets, begin + n) {
      SlicedRow(items, offsets, begin, size, cut, n);
    }
    assert Rows(part, cut) == Rows(items, offsets)[begin..begin + size];
  }

  lemma SlicedRow<T>(items: seq<T>, offsets: seq<nat>, begin: nat, size: nat, cut: seq<nat>, n: nat)
    requires Consistent(offsets, |items|) && begin + size <= |offsets| && |cut| == size && n < size
    requires Offset(offsets, begin) <= Offset(offsets, begin + size) <= |items|
    requires forall k :: 0 <= k <= size ==> Offset(cut, k) == Offset(offsets, begin + k) - Offset(offsets, begin)
    requires Consistent(cut, Offset(offsets, begin + size) - Offset(offsets, begin))
    ensures Row(items[Offset(offsets, begin)..Offset(offsets, begin + size)], cut, n) == Row(items, offsets, begin + n)
  {
    var lo, hi := Offset(offsets, begin), Offset(offsets, begin + size);
    OffsetsMonotone(offsets, begin, begin + n);
    OffsetsMonotone(offsets, begin + n, begin + n + 1);
    OffsetsMonotone(offsets, begin + n + 1, begin + size);
    var a, b := Offset(cut, n), Offset(cut, n + 1);
    hide Monotone;
    SliceOfSlice(items, lo, hi, a, b);
    assert items[lo..hi][a..b] == items[lo + a..lo + b];
  }
}
