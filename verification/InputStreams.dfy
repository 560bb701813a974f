/** Input streams: an in-place buffer behind a source that may return fewer bytes than it is asked
    for, nothing, or throw. */
module InputStreams {
  import opened Bytes
  import B = BufferedReads

  class Source {
    var data: seq<byte>
    var reactions: seq<B.Reaction>

    ghost function Now(): B.Source
      reads this
    {
      B.Source(data, reactions)
    }

    constructor (data: seq<byte>, reactions: seq<B.Reaction>)
      ensures Now() == B.Source(data, reactions)
    {
      this.data, this.reactions := data, reactions;
    }

    /** Without reactions left the source is at its end. */
    method Read(len: nat) returns (bytes: seq<byte>, thrown: bool)
      modifies this
      ensures B.Got(bytes, thrown, Now()) == B.SourceRead(old(Now()), len)
    {
      bytes, thrown := [], false;
      if reactions == [] {
        return;
      }
      if reactions[0].Throws? {
        thrown := true;
      } else {
        var n := B.Min(B.Min(len, reactions[0].n), |data|);
        bytes, data := data[..n], data[n..];
      }
      reactions := reactions[1..];
    }
  }

  /** A window of an array that is consumed from the left. */
  class ArrayInput {
    var buf: array<byte>
    var at: nat
    var len: nat

    ghost predicate Valid()
      reads this
    {
      at + len <= buf.Length
    }

    ghost function Left(): (r: seq<byte>)
      requires Valid()
      reads this, buf
      ensures |r| == len
    {
      buf[at..at + len]
    }

    constructor (buf: array<byte>)
      ensures Valid() && this.buf == buf && Left() == []
    {
      this.buf, at, len := buf, 0, 0;
    }

    method Next(n: nat) returns (bytes: seq<byte>)
      requires Valid()
      modifies this`at, this`len
      ensures Valid() && |bytes| == B.Min(n, old(len)) && old(Left()) == bytes + Left()
    {
      var k := B.Min(n, len);
      bytes := buf[at..at + k];
      at, len := at + k, len - k;
      assert buf[at - k..at + len] == buf[at - k..at] + buf[at..at + len];
    }
  }

  /** Small reads come from the buffer, large ones go past it once it is empty. */
  class BufferedInput {
    const source: Source
    const buffer: array<byte>
    const window: ArrayInput

    ghost predicate Valid()
      reads this, window
    {
      window.buf == buffer && window.Valid()
    }

    ghost function Now(): B.Input
      requires Valid()
      reads this, window, buffer, source
    {
      B.Input(window.Left(), source.Now())
    }

    constructor (source: Source, bufferSize: nat)
      ensures Valid() && this.source == source && buffer.Length == bufferSize && Now() == B.Input([], source.Now())
      ensures fresh(buffer) && fresh(window)
    {
      this.source := source;
      var b := new byte[bufferSize](_ => 0);
      buffer := b;
      window := new ArrayInput(b);
    }

    /** Fills the empty buffer from its start. */
    method Refill() returns (thrown: bool)
      requires Valid() && window.len == 0
      modifies source, window`at, window`len, buffer
      ensures Valid() && B.Got([], thrown, Now()) == B.Refill(buffer.Length, old(Now()))
    {
      B.SourceReadExactly(source.Now(), buffer.Length);
      var bytes;
      bytes, thrown := source.Read(buffer.Length);
      if !thrown {
        forall k | 0 <= k < |bytes| {
          buffer[k] := bytes[k];
        }
        window.at, window.len := 0, |bytes|;
        assert window.Left() == bytes;
      }
    }

    method Next(len: nat) returns (bytes: seq<byte>, thrown: bool)
      requires Valid()
      modifies source, window`at, window`len, buffer
      ensures Valid() && B.Got(bytes, thrown, Now()) == B.Next(buffer.Length, old(Now()), len)
    {
      if window.len == 0 {
        thrown := Refill();
        if thrown {
          return [], true;
        }
      }
      ghost var waiting := window.Left();
      bytes := window.Next(len);
      thrown := false;
      assert bytes == waiting[..|bytes|] && window.Left() == waiting[|bytes|..];
    }

    /** What waits, up to the length asked for; of an empty buffer what the source gives at once. */
    method Read(len: nat) returns (bytes: seq<byte>, thrown: bool)
      requires Valid()
      modifies source, window`at, window`len, buffer
      ensures Valid() && B.Got(bytes, thrown, Now()) == B.Read(buffer.Length, old(Now()), len)
      ensures B.Pending(old(Now())) == bytes + B.Pending(Now())
      ensures old(window.len) != 0 ==> !thrown && |bytes| == B.Min(len, old(window.len))
    {
      hide B.Next, B.SourceRead, B.Pending;
      B.ReadExactly(buffer.Length, Now(), len);
      if window.len == 0 && len > buffer.Length / 2 {
        bytes, thrown := source.Read(len);
        return;
      }
      bytes, thrown := Next(len);
    }

    /** Skips the bytes asked for, or all that are available. */
    method Skip(len: nat) returns (ok: bool, thrown: bool)
      requires Valid()
      modifies source, window`at, window`len, buffer
      ensures Valid()
      ensures var s := B.Skip(buffer.Length, old(Now()), len); ok == s.ok && thrown == s.thrown && Now() == s.left
      ensures ok <==> len <= B.Available(old(Now()), buffer.Length)
      ensures B.Pending(Now()) == B.Pending(old(Now()))[B.Min(len, B.Available(old(Now()), buffer.Length))..]
    {
      hide B.Next, B.Skip, Behind;
      B.SkipExactly(buffer.Length, Now(), len);
      ghost var goal, start := B.Skip(buffer.Length, Now(), len), B.Pending(Now());
      assert start == goal.bytes + B.Pending(goal.left);
      ghost var done := [];
      var left := len;
      NothingBehind(goal);
      while left > 0
        invariant Valid() && 0 <= left && Behind(done, B.Skip(buffer.Length, Now(), left)) == goal
      {
        OneMoreSkip(buffer.Length, Now(), done, left);
        var piece;
        piece, thrown := Next(left);
        if thrown || |piece| == 0 {
          return false, thrown;
        }
        done := done + piece;
        left := left - |piece|;
      }
      NoMore(buffer.Length, Now(), done);
      ok, thrown := true, false;
    }

    /** Reads the bytes asked for, or all that are available. */
    method ReadAll(len: nat) returns (bytes: seq<byte>, ok: bool, thrown: bool)
      requires Valid()
      modifies source, window`at, window`len, buffer
      ensures Valid() && B.All(bytes, ok, thrown, Now()) == B.ReadAll(buffer.Length, old(Now()), len)
      ensures ok <==> len <= B.Available(old(Now()), len)
      ensures B.Pending(old(Now())) == bytes + B.Pending(Now())
    {
      hide B.Read, B.ReadAll, Behind;
      B.ReadAllExactly(buffer.Length, Now(), len);
      ghost var goal := B.ReadAll(buffer.Length, Now(), len);
      bytes, thrown := [], false;
      var last: nat := 1;
      NothingBehind(goal);
      while |bytes| < len && last != 0
        invariant Valid() && |bytes| <= len && !thrown
        invariant last != 0 ==> Behind(bytes, B.ReadAll(buffer.Length, Now(), len - |bytes|)) == goal
        invariant last == 0 ==> |bytes| < len && goal == B.All(bytes, false, false, Now())
        decreases len - |bytes|, last
      {
        OneMoreRead(buffer.Length, Now(), bytes, len - |bytes|);
        var piece;
        piece, thrown := Read(len - |bytes|);
        if thrown {
          return bytes, false, true;
        }
        bytes, last := bytes + piece, |piece|;
      }
      NoMore(buffer.Length, Now(), bytes);
      ok := |bytes| == len;
    }
  }

  /** The rest of a loop behind the bytes it already has. */
  ghost function Behind(bytes: seq<byte>, a: B.All): B.All {
    a.(bytes := bytes + a.bytes)
  }

  lemma NothingBehind(a: B.All)
    ensures Behind([], a) == a
  {
    assert [] + a.bytes == a.bytes;
  }

  lemma NoMore(capacity: nat, b: B.Input, bytes: seq<byte>)
    ensures Behind(bytes, B.ReadAll(capacity, b, 0)) == B.All(bytes, true, false, b)
    ensures Behind(bytes, B.Skip(capacity, b, 0)) == B.All(bytes, true, false, b)
  {
  }

  lemma OneMoreRead(capacity: nat, b: B.Input, bytes: seq<byte>, left: nat)
    requires 0 < left
    ensures var g := B.Read(capacity, b, left);
            && |g.bytes| <= left && (g.thrown ==> g.bytes == [])
            && Behind(bytes, B.ReadAll(capacity, b, left))
               == if g.thrown || g.bytes == [] then B.All(bytes, false, g.thrown, g.left)
                  else Behind(bytes + g.bytes, B.ReadAll(capacity, g.left, left - |g.bytes|))
    ensures bytes + [] == bytes
  {
    B.ReadExactly(capacity, b, left);
    hide B.Read;
    var g := B.Read(capacity, b, left);
    Assoc(bytes, g.bytes, B.ReadAll(capacity, g.left, left - |g.bytes|).bytes);
    assert g.bytes + [] == g.bytes;
  }

  lemma OneMoreSkip(capacity: nat, b: B.Input, bytes: seq<byte>, left: nat)
    requires 0 < left
    ensures var g := B.Next(capacity, b, left);
            && |g.bytes| <= left
            && Behind(bytes, B.Skip(capacity, b, left))
               == if g.thrown || g.bytes == [] then B.All(bytes, false, g.thrown, g.left)
                  else Behind(bytes + g.bytes, B.Skip(capacity, g.left, left - |g.bytes|))
  {
    B.NextExactly(capacity, b, left);
    hide B.Next;
    var g := B.Next(capacity, b, left);
    Assoc(bytes, g.bytes, B.Skip(capacity, g.left, left - |g.bytes|).bytes);
    assert g.bytes + [] == g.bytes;
  }
}
