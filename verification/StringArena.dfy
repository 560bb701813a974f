/** The String column: values are views into blocks of bytes that are filled from the front
    and never move, or into strings the column was given to own. */
module StringArena {
  import opened Bytes
  import opened WireFormat
  import opened ColumnTree

  const DEFAULT_BLOCK_SIZE: nat := 4096

  class Block {
    const capacity: nat
    const data: array<byte>
    var size: nat

    ghost predicate Valid()
      reads this
    {
      size <= capacity == data.Length
    }

    constructor (capacity: nat)
      ensures Valid() && this.capacity == capacity && size == 0 && fresh(data)
    {
      this.capacity := capacity;
      data := new byte[capacity];
      size := 0;
    }

    /** Copies the string behind the bytes in use, without a capacity check of its own. */
    method AppendUnsafe(str: seq<byte>) returns (v: View)
      requires Valid() && |str| <= capacity - size
      modifies this, data
      ensures Valid() && size == old(size) + |str|
      ensures data[..old(size)] == old(data[..size])
      ensures v == View(this, old(size), |str|) && data[v.offset..v.offset + v.len] == str
    {
      var offset := size;
      forall k | 0 <= k < |str| {
        data[offset + k] := str[k];
      }
      size := size + |str|;
      v := View(this, offset, |str|);
      assert data[..offset] == old(data[..size]);
      assert data[offset..offset + |str|] == str;
    }
  }

  /** A string view: a place in a block, or one of the owned strings. */
  datatype View = View(block: Block, offset: nat, len: nat) | Owned(position: nat)

  /** The room that values take end to end. */
  function TotalSize(strings: seq<seq<byte>>): nat {
    |Flatten(strings)|
  }

  lemma NextValue(values: seq<seq<byte>>, i: nat)
    requires i < |values|
    ensures TotalSize(values[i..]) == |values[i]| + TotalSize(values[i + 1..])
    ensures values[..i + 1] == values[..i] + [values[i]]
  {
    assert values[i..][1..] == values[i + 1..];
  }

  /** Strings already read, before the result of reading the others. */
  function LoadedSoFar(done: seq<seq<byte>>, r: Option<Read<seq<seq<byte>>>>): Option<Read<seq<seq<byte>>>> {
    match r
    case None => None
    case Some(Read(more, rest)) => Some(Read(done + more, rest))
  }

  lemma NothingLoadedYet(r: Option<Read<seq<seq<byte>>>>)
    ensures LoadedSoFar([], r) == r
  {
    if r.Some? { assert [] + r.value.value == r.value.value; }
  }

  lemma OneMoreLoaded(done: seq<seq<byte>>, input: seq<byte>, rows: nat)
    requires 0 < rows && ReadCounted(input).Some?
    ensures var s := ReadCounted(input).value;
            LoadedSoFar(done, LoadStrings(input, rows)) == LoadedSoFar(done + [s.value], LoadStrings(s.rest, rows - 1))
  {
    var s := ReadCounted(input).value;
    var r := LoadStrings(s.rest, rows - 1);
    if r.Some? { Assoc(done, [s.value], r.value.value); }
  }

  class ColumnString {
    var items: seq<View>
    var blocks: seq<Block>
    var appendData: seq<seq<byte>>
    ghost var contents: seq<seq<byte>>  // the values, in order
    ghost var repr: set<object>

    ghost predicate BlocksValid()
      reads this, repr
    {
      && this in repr
      && (forall b :: b in blocks ==> b in repr && b.data in repr && b.Valid())
      && (forall b, c :: b in blocks && c in blocks && b != c ==> b.data != c.data)
    }

    /** The bytes a view shows. */
    ghost predicate Shows(v: View, s: seq<byte>)
      requires BlocksValid()
      reads this, repr
    {
      match v
      case View(b, offset, len) => b in blocks && offset + len <= b.size && b.data[offset..offset + len] == s
      case Owned(p) => p < |appendData| && appendData[p] == s
    }

    ghost predicate Valid()
      reads this, repr
    {
      && BlocksValid() && |contents| == |items|
      && forall i :: 0 <= i < |items| ==> Shows(items[i], contents[i])
    }

    function Available(): nat
      requires blocks != []
      reads this, blocks
    {
      var b := blocks[|blocks| - 1];
      if b.size <= b.capacity then b.capacity - b.size else 0
    }

    constructor ()
      ensures Valid() && contents == [] && blocks == [] && appendData == [] && fresh(repr)
    {
      items, blocks, appendData := [], [], [];
      contents, repr := [], {this};
    }

    method AddBlock(capacity: nat)
      requires Valid()
      modifies this`blocks, this`repr
      ensures Valid() && |blocks| == |old(blocks)| + 1 && Available() == capacity
      ensures fresh(repr - old(repr))
    {
      var b := new Block(capacity);
      blocks := blocks + [b];
      repr := repr + {b, b.data};
    }

    /** Appends to the last block, unchecked. No earlier value is disturbed. */
    method AppendUnsafe(str: seq<byte>)
      requires Valid() && blocks != [] && |str| <= Available()
      modifies repr
      ensures Valid() && blocks == old(blocks) && appendData == old(appendData) && repr == old(repr)
      ensures contents == old(contents) + [str] && Available() == old(Available()) - |str|
    {
      var b := blocks[|blocks| - 1];
      assert b in blocks;
      var v := b.AppendUnsafe(str);
      assert BlocksValid();
      forall i | 0 <= i < |items| ensures Shows(items[i], contents[i]) {
        var w := items[i];
        assert old(Shows(w, contents[i]));
        if w.View? && w.block == b {
          var end := w.offset + w.len;
          assert b.data[w.offset..end] == b.data[..old(b.size)][w.offset..end] == old(b.data[..b.size])[w.offset..end];
        }
      }
      items := items + [v];
      contents := contents + [str];
    }

    method Append(str: seq<byte>)
      requires Valid()
      modifies repr
      ensures Valid() && fresh(repr - old(repr)) && contents == old(contents) + [str]
    {
      if |blocks| == 0 || blocks[|blocks| - 1].capacity - blocks[|blocks| - 1].size < |str| {
        AddBlock(if DEFAULT_BLOCK_SIZE < |str| then |str| else DEFAULT_BLOCK_SIZE);
      }
      AppendUnsafe(str);
    }

    /** Takes over a string: nothing is copied. */
    method AppendOwned(str: seq<byte>)
      requires Valid()
      modifies this
      ensures Valid() && blocks == old(blocks) && repr == old(repr) && contents == old(contents) + [str]
    {
      appendData := appendData + [str];
      assert forall i :: 0 <= i < |items| ==> old(Shows(items[i], contents[i]));
      items := items + [Owned(|appendData| - 1)];
      contents := contents + [str];
    }

    method Clear()
      modifies this
      ensures Valid() && contents == []
    {
      items, blocks, appendData := [], [], [];
      contents, repr := [], {this};
    }

    method At(n: nat) returns (r: Option<seq<byte>>)
      requires Valid()
      ensures r == if n < |contents| then Some(contents[n]) else None
    {
      if n >= |items| {
        return None;
      }
      assert Shows(items[n], contents[n]);
      match items[n]
      case View(b, offset, len) => r := Some(b.data[offset..offset + len]);
      case Owned(p) => r := Some(appendData[p]);
    }

    /** ComputeTotalSize over the values of a range. */
    method SizeOfRange(begin: nat, end: nat) returns (total: nat)
      requires Valid() && begin <= end <= |contents|
      ensures total == TotalSize(contents[begin..end])
    {
      total := 0;
      var i := begin;
      while i < end
        invariant begin <= i <= end
        invariant total == TotalSize(contents[begin..i])
      {
        var v := items[i];
        assert Shows(v, contents[i]);
        total := total + match v case View(_, _, len) => len case Owned(p) => |appendData[p]|;
        assert contents[begin..i + 1] == contents[begin..i] + [contents[i]];
        FlattenSnoc(contents[begin..i], contents[i]);
        i := i + 1;
      }
    }

    /** Appends every value of another column, unchecked, after one look at the total size. */
    method AppendColumn(other: ColumnString)
      requires Valid() && other.Valid() && repr !! other.repr
      modifies repr
      ensures Valid() && fresh(repr - old(repr)) && contents == old(contents) + other.contents
    {
      ghost var values := other.contents;
      var total := other.SizeOfRange(0, |other.items|);
      assert values[0..|values|] == values[0..] == values;
      if |blocks| == 0 || blocks[|blocks| - 1].capacity - blocks[|blocks| - 1].size < total {
        AddBlock(if DEFAULT_BLOCK_SIZE < total then total else DEFAULT_BLOCK_SIZE);
      }
      var i := 0;
      while i < |other.items|
        invariant 0 <= i <= |values|
        invariant Valid() && blocks != [] && fresh(repr - old(repr)) && repr !! other.repr
        invariant other.Valid() && contents == old(contents) + values[..i]
        invariant TotalSize(values[i..]) <= Available()
      {
        hide ColumnString.Available, TotalSize;
        NextValue(values, i);
        var str := other.At(i);
        AppendUnsafe(str.value);
        Assoc(old(contents), values[..i], [values[i]]);
        i := i + 1;
      }
      assert values[..i] == values;
    }

    /** Copies a range of values into a column of its own; a range past the end is cut. */
    method Slice(begin: nat, len: nat) returns (result: ColumnString)
      requires Valid()
      ensures fresh(result.repr) && result.Valid()
      ensures result.contents == SliceVector(contents, begin, len)
    {
      result := new ColumnString();
      if begin >= |items| {
        return;
      }
      var n := if len < |items| - begin then len else |items| - begin;
      var total := SizeOfRange(begin, begin + n);
      result.AddBlock(total);
      result.AppendRange(this, begin, begin + n);
      assert [] + contents[begin..begin + n] == contents[begin..begin + n];
    }

    method AppendRange(other: ColumnString, begin: nat, end: nat)
      requires Valid() && other.Valid() && repr !! other.repr && begin <= end <= |other.contents|
      modifies repr
      ensures Valid() && fresh(repr - old(repr)) && contents == old(contents) + other.contents[begin..end]
    {
      var i := begin;
      while i < end
        invariant begin <= i <= end
        invariant Valid() && fresh(repr - old(repr)) && other.Valid()
        invariant contents == old(contents) + other.contents[begin..i]
      {
        var str := other.At(i);
        Append(str.value);
        assert other.contents[begin..i + 1] == other.contents[begin..i] + [other.contents[i]];
        i := i + 1;
      }
    }

    /** Reads one counted string into the last block, or into a new one that has room. */
    method LoadNext(input: seq<byte>) returns (rest: Option<seq<byte>>)
      requires Valid() && blocks != []
      modifies repr
      ensures Valid() && blocks != [] && appendData == old(appendData) && fresh(repr - old(repr))
      ensures match ReadCounted(input)
              case None => rest.None?
              case Some(Read(s, after)) => rest == Some(after) && contents == old(contents) + [s]
    {
      var len := ReadVarint64(input);
      if len.None? {
        return None;
      }
      var block := blocks[|blocks| - 1];
      if len.value.value > block.capacity - block.size {
        AddBlock(if DEFAULT_BLOCK_SIZE < len.value.value then len.value.value else DEFAULT_BLOCK_SIZE);
      }
      var str := ReadBytes(len.value.rest, len.value.value);
      if str.None? {
        return None;
      }
      AppendUnsafe(str.value.value);
      rest := Some(str.value.rest);
    }

    /** Reads that many counted strings. A failed read leaves the column as it was. */
    method LoadBody(input: seq<byte>, rows: nat) returns (ok: bool, rest: seq<byte>)
      requires Valid()
      modifies this
      ensures Valid()
      ensures match LoadStrings(input, rows)
              case None => !ok && contents == old(contents)
              case Some(Read(strings, after)) => ok && rest == after && contents == strings
    {
      rest := input;
      if rows == 0 {
        items, blocks := [], [];
        contents, repr := [], {this};
        return true, rest;
      }
      var loaded: Option<ColumnString>;
      loaded, rest := LoadNew(input, rows);
      if loaded.None? {
        return false, rest;
      }
      TakeOver(loaded.value);
      ok := true;
    }

    static method LoadNew(input: seq<byte>, rows: nat) returns (r: Option<ColumnString>, rest: seq<byte>)
      ensures match LoadStrings(input, rows)
              case None => r.None?
              case Some(Read(strings, after)) =>
                && r.Some? && fresh(r.value.repr) && r.value.Valid() && r.value.appendData == []
                && rest == after && r.value.contents == strings
    {
      var loaded := new ColumnString();
      loaded.AddBlock(DEFAULT_BLOCK_SIZE);
      rest := input;
      NothingLoadedYet(LoadStrings(input, rows));
      var i := 0;
      while i < rows
        invariant 0 <= i <= rows && fresh(loaded.repr) && loaded.Valid() && loaded.blocks != []
        invariant loaded.appendData == []
        invariant LoadStrings(input, rows) == LoadedSoFar(loaded.contents, LoadStrings(rest, rows - i))
      {
        hide LoadedSoFar, ReadCounted;
        ghost var done := loaded.contents;
        var next := loaded.LoadNext(rest);
        if next.None? {
          return None, rest;
        }
        OneMoreLoaded(done, rest, rows - i);
        rest := next.value;
        i := i + 1;
      }
      r := Some(loaded);
    }

    /** The values and blocks of another column become this one's. */
    method TakeOver(loaded: ColumnString)
      requires loaded.Valid() && loaded.appendData == []
      modifies this
      ensures Valid() && contents == old(loaded.contents)
    {
      assert forall i :: 0 <= i < |loaded.items| ==> loaded.Shows(loaded.items[i], loaded.contents[i]);
      items, blocks := loaded.items, loaded.blocks;
      contents, repr := loaded.contents, loaded.repr + {this};
    }

    method SaveBody() returns (output: seq<byte>)
      requires Valid()
      ensures output == SaveStrings(contents)
    {
      output := [];
      assert contents[0..] == contents;
      var i := 0;
      while i < |items|
        invariant 0 <= i <= |items|
        invariant output + SaveStrings(contents[i..]) == SaveStrings(contents)
      {
        var str := At(i);
        var len := Varint(|str.value|);
        assert contents[i..][1..] == contents[i + 1..];
        Assoc(output, StringBytes(contents[i]), SaveStrings(contents[i + 1..]));
        output := output + (len + str.value);
        i := i + 1;
      }
    }
  }
}
