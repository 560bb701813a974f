/** Two columns that keep their rows flat: fixed-width strings end to end in one buffer, and
    nullable values beside their null map. */
module FlatColumns {
  import opened Bytes

  //// Fixed-width strings

  function Nuls(n: nat): seq<byte> {
    seq(n, _ => NUL)
  }

  /** The n bytes that stand for a string of at most n. */
  function Pad(s: seq<byte>, n: nat): (r: seq<byte>)
    requires |s| <= n
    ensures |r| == n
  {
    s + Nuls(n - |s|)
  }

  /** Two strings are stored alike if and only if they differ only in zero bytes at the end. */
  lemma PadTellsApart(a: seq<byte>, b: seq<byte>, n: nat)
    requires |a| <= |b| <= n
    ensures Pad(a, n) == Pad(b, n) <==> b == a + Nuls(|b| - |a|)
  {
    if Pad(a, n) == Pad(b, n) {
      forall i | 0 <= i < |b| ensures b[i] == (a + Nuls(|b| - |a|))[i] {
        assert Pad(b, n)[i] == b[i] && Pad(a, n)[i] == b[i];
      }
    } else {
      assert a + Nuls(|b| - |a|) + Nuls(n - |b|) == Pad(a, n);
    }
  }

  lemma Split(a: nat, b: nat, n: nat)
    ensures (a + b) * n == a * n + b * n
  {
  }

  /** Cell i of a buffer of whole cells lies inside it. */
  lemma CellFits(i: nat, rows: nat, n: nat)
    requires i < rows
    ensures i * n + n <= rows * n
  {
    Split(i + 1, rows - i - 1, n);
    Split(i, 1, n);
  }

  function Cell(data: seq<byte>, n: nat, rows: nat, i: nat): (r: seq<byte>)
    requires |data| == rows * n && i < rows
    ensures |r| == n
  {
    CellFits(i, rows, n);
    data[i * n..i * n + n]
  }

  /** The rows of a buffer of whole cells. */
  function Cells(data: seq<byte>, n: nat, rows: nat): (r: seq<seq<byte>>)
    requires |data| == rows * n
    ensures |r| == rows
  {
    seq(rows, i requires 0 <= i < rows => Cell(data, n, rows, i))
  }

  lemma SliceOfConcat(a: seq<byte>, b: seq<byte>, lo: nat, hi: nat)
    requires lo <= hi <= |a| + |b|
    ensures hi <= |a| ==> (a + b)[lo..hi] == a[lo..hi]
    ensures |a| <= lo ==> (a + b)[lo..hi] == b[lo - |a|..hi - |a|]
  {
  }

  lemma CellOfConcat(a: seq<byte>, b: seq<byte>, n: nat, k: nat, m: nat, i: nat)
    requires |a| == k * n && |b| == m * n && |a + b| == (k + m) * n && i < k + m
    ensures Cell(a + b, n, k + m, i) == if i < k then Cell(a, n, k, i) else Cell(b, n, m, i - k)
  {
    CellFits(i, k + m, n);
    SliceOfConcat(a, b, i * n, i * n + n);
    if i < k {
      CellFits(i, k, n);
    } else {
      Split(k, i - k, n);
      CellFits(i - k, m, n);
    }
  }

  lemma CellsConcat(a: seq<byte>, b: seq<byte>, n: nat, k: nat, m: nat)
    requires |a| == k * n && |b| == m * n
    ensures |a + b| == (k + m) * n && Cells(a + b, n, k + m) == Cells(a, n, k) + Cells(b, n, m)
  {
    hide Cell;
    Split(k, m, n);
    var whole, parts := Cells(a + b, n, k + m), Cells(a, n, k) + Cells(b, n, m);
    forall i | 0 <= i < k + m ensures whole[i] == parts[i] {
      CellOfConcat(a, b, n, k, m, i);
    }
  }

  /** A range of whole cells is the same range of rows. */
  lemma CellsOfRange(data: seq<byte>, n: nat, rows: nat, begin: nat, count: nat)
    requires |data| == rows * n && begin + count <= rows
    ensures begin * n + count * n <= |data|
    ensures Cells(data[begin * n..begin * n + count * n], n, count) == Cells(data, n, rows)[begin..begin + count]
  {
    Split(begin, count, n);
    Split(begin + count, rows - begin - count, n);
    var part := data[begin * n..begin * n + count * n];
    forall i | 0 <= i < count ensures Cell(part, n, count, i) == Cell(data, n, rows, begin + i) {
      CellFits(i, count, n);
      Split(begin, i, n);
      SliceOfSlice(data, begin * n, begin * n + count * n, i * n, i * n + n);
    }
  }

  lemma OneCell(cell: seq<byte>)
    ensures Cells(cell, |cell|, 1) == [cell]
  {
    assert Cell(cell, |cell|, 1, 0) == cell;
  }

  lemma WholeRows(rows: nat, n: nat)
    requires 0 < n
    ensures rows * n / n == rows
  {
    var q := rows * n / n;
    DivisionBounds(rows * n, n);
    if q < rows { CellFits(q, rows, n); }
    if rows < q { CellFits(rows, q, n); }
  }

  lemma DivisionBounds(x: nat, n: nat)
    requires 0 < n
    ensures x / n * n <= x < x / n * n + n
  {
  }

  class ColumnFixedString {
    const stringSize: nat
    var data: seq<byte>
    ghost var rows: nat

    ghost predicate Valid()
      reads this
    {
      0 < stringSize && |data| == rows * stringSize
    }

    ghost function Contents(): seq<seq<byte>>
      requires Valid()
      reads this
    {
      Cells(data, stringSize, rows)
    }

    constructor (stringSize: nat)
      requires 0 < stringSize
      ensures Valid() && this.stringSize == stringSize && Contents() == []
    {
      this.stringSize, data, rows := stringSize, [], 0;
    }

    /** Shorter strings are padded with zeros, longer ones refused. */
    method Append(str: seq<byte>) returns (ok: bool)
      requires Valid()
      modifies this
      ensures Valid() && (ok <==> |str| <= stringSize)
      ensures Contents() == if ok then old(Contents()) + [Pad(str, stringSize)] else old(Contents())
    {
      if |str| > stringSize {
        return false;
      }
      ghost var before, cell := data, Pad(str, stringSize);
      CellsConcat(before, cell, stringSize, rows, 1);
      OneCell(cell);
      data := data + str;
      if |str| < stringSize {
        data := data + Nuls(stringSize - |str|);
      }
      assert data == before + cell;
      rows := rows + 1;
      ok := true;
    }

    method Size() returns (n: nat)
      requires Valid()
      ensures n == |Contents()|
    {
      WholeRows(rows, stringSize);
      n := |data| / stringSize;
    }

    /** None is an exception. */
    method At(n: nat) returns (r: Option<seq<byte>>)
      requires Valid()
      ensures r == if n < |Contents()| then Some(Contents()[n]) else None
    {
      var size := Size();
      if n >= size {
        return None;
      }
      CellFits(n, rows, stringSize);
      r := Some(data[n * stringSize..n * stringSize + stringSize]);
    }

    /** Appends another column of the same width; one of another width is ignored. */
    method AppendColumn(other: ColumnFixedString)
      requires Valid() && other.Valid()
      modifies this
      ensures Valid()
      ensures Contents() == if other.stringSize == stringSize then old(Contents()) + old(other.Contents())
                            else old(Contents())
    {
      if other.stringSize == stringSize {
        CellsConcat(data, other.data, stringSize, rows, other.rows);
        data, rows := data + other.data, rows + other.rows;
      }
    }

    /** Copies some rows; a range past the end is cut. */
    method Slice(begin: nat, len: nat) returns (result: ColumnFixedString)
      requires Valid()
      ensures fresh(result) && result.Valid() && result.stringSize == stringSize
      ensures result.Contents() == SliceVector(Contents(), begin, len)
    {
      result := new ColumnFixedString(stringSize);
      var size := Size();
      if begin < size {
        ghost var n := if len < size - begin then len else size - begin;
        CellsOfRange(data, stringSize, rows, begin, n);
        CutAgrees(stringSize, rows, begin, len);
        result.data := SliceVector(data, begin * stringSize, len * stringSize);
        result.rows := n;
      }
    }
  }

  /** Cutting bytes and cutting rows cut at the same place. */
  lemma CutAgrees(n: nat, rows: nat, begin: nat, len: nat)
    requires begin < rows
    ensures var count := if len < rows - begin then len else rows - begin;
            begin * n <= rows * n
            && (if len * n < rows * n - begin * n then len * n else rows * n - begin * n) == count * n
  {
    Split(begin, rows - begin, n);
    if len < rows - begin { Split(len, rows - begin - len, n); } else { Split(rows - begin, len - (rows - begin), n); }
  }

  //// Nullable values

  function RowsOf<T>(nested: seq<T>, nulls: seq<byte>): (r: seq<Option<T>>)
    requires |nested| == |nulls|
    ensures |r| == |nulls|
  {
    seq(|nulls|, i requires 0 <= i < |nulls| => if nulls[i] != 0 then None else Some(nested[i]))
  }

  class ColumnNullable<T> {
    const tag: nat
    var nested: seq<T>
    var nulls: seq<byte>

    ghost predicate Valid()
      reads this
    {
      |nested| == |nulls|
    }

    ghost function Contents(): seq<Option<T>>
      requires Valid()
      reads this
    {
      RowsOf(nested, nulls)
    }

    constructor Unchecked(tag: nat, nested: seq<T>, nulls: seq<byte>)
      ensures this.tag == tag && this.nested == nested && this.nulls == nulls
    {
      this.tag, this.nested, this.nulls := tag, nested, nulls;
    }

    /** The check of the constructor, given a nested column of some type; None is a ValidationError. */
    static method Create(tag: nat, nested: seq<T>, nulls: seq<byte>) returns (r: Option<ColumnNullable<T>>)
      ensures r.Some? <==> |nested| == |nulls|
      ensures r.Some? ==> fresh(r.value) && r.value.Valid() && r.value.tag == tag && r.value.Contents() == RowsOf(nested, nulls)
    {
      if |nested| != |nulls| {
        return None;
      }
      var column := new ColumnNullable.Unchecked(tag, nested, nulls);
      r := Some(column);
    }

    /** Only the null map: the caller appends the value, before or after. */
    method AppendFlag(isNull: bool)
      modifies this`nulls
      ensures nulls == old(nulls) + [if isNull then 1 else 0]
      ensures old(|nested| == |nulls| + 1) ==>
                Valid() && Contents() == RowsOf(old(nested[..|nulls|]), old(nulls)) + [if isNull then None else Some(nested[|nested| - 1])]
    {
      nulls := nulls + [if isNull then 1 else 0];
    }

    /** The reader looks at the null map first. */
    method GetItem(n: nat) returns (item: Option<T>)
      requires Valid() && n < |nulls|
      ensures item == Contents()[n]
    {
      if nulls[n] != 0 {
        return None;
      }
      item := Some(nested[n]);
    }

    /** Appends another column of the same nested type, values and flags alike; one of another
        nested type is ignored. */
    method Append(other: ColumnNullable<T>)
      requires Valid() && other.Valid()
      modifies this
      ensures Valid()
      ensures Contents() == if other.tag == tag then old(Contents()) + old(other.Contents()) else old(Contents())
    {
      if other.tag != tag {
        return;
      }
      nested, nulls := nested + other.nested, nulls + other.nulls;
    }

    /** Slices both parts with the same, cut, range. */
    method Slice(begin: nat, len: nat) returns (r: Option<ColumnNullable<T>>)
      requires Valid()
      ensures r.Some? && fresh(r.value) && r.value.Valid() && r.value.tag == tag
      ensures r.value.Contents() == SliceVector(Contents(), begin, len)
    {
      var values, flags := SliceVector(nested, begin, len), SliceVector(nulls, begin, len);
      r := Create(tag, values, flags);
    }
  }
}
