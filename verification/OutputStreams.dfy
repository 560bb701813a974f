/** Output streams: an in-place buffer in front of a destination that may take fewer bytes than it
    is given, or throw after taking some. */
module OutputStreams {
  import opened Bytes
  import B = BufferedWrites

  /** Any destination: it follows a list of reactions, and throws when the list is used up. */
  class Destination {
    var received: seq<byte>
    var reactions: seq<B.Reaction>

    ghost function Now(): B.Socket
      reads this
    {
      B.Socket(received, reactions)
    }

    constructor (reactions: seq<B.Reaction>)
      ensures Now() == B.Socket([], reactions)
    {
      received, this.reactions := [], reactions;
    }

    /** thrown stands for the exception; the count says what has gone out before it. */
    method Write(data: seq<byte>) returns (written: nat, thrown: bool)
      modifies this
      ensures B.Went(Now(), written, thrown) == B.SocketWrite(old(Now()), data)
    {
      if reactions == [] {
        return 0, true;
      }
      written := if reactions[0].n <= |data| then reactions[0].n else |data|;
      thrown := reactions[0].Breaks?;
      received := received + data[..written];
      reactions := reactions[1..];
    }
  }

  /** A window of an array that is filled from the left. */
  class ArrayOutput {
    const buf: array<byte>
    var pos: nat

    ghost predicate Valid()
      reads this
    {
      pos <= buf.Length
    }

    /** The bytes written so far. */
    ghost function Written(): (r: seq<byte>)
      requires Valid()
      reads this, buf
      ensures |r| == pos
    {
      buf[..pos]
    }

    constructor (buf: array<byte>)
      ensures Valid() && this.buf == buf && pos == 0
    {
      this.buf, pos := buf, 0;
    }

    method Next(len: nat) returns (at: nat, n: nat)
      requires Valid()
      modifies this`pos
      ensures Valid() && at == old(pos) && pos == at + n
      ensures n == if len <= buf.Length - old(pos) then len else buf.Length - old(pos)
    {
      at := pos;
      n := if len <= buf.Length - pos then len else buf.Length - pos;
      pos := pos + n;
    }

    /** Copies piece by piece until the data or the room is used up. */
    method Write(data: seq<byte>) returns (written: nat)
      requires Valid()
      modifies this`pos, buf
      ensures Valid() && written == if |data| <= buf.Length - old(pos) then |data| else buf.Length - old(pos)
      ensures pos == old(pos) + written && Written() == old(Written()) + data[..written]
      ensures buf[pos..] == old(buf[..])[pos..]
    {
      written := 0;
      assert data[..0] == [];
      while written < |data|
        invariant 0 <= written <= |data| && Valid() && pos == old(pos) + written
        invariant written <= buf.Length - old(pos)
        invariant Written() == old(Written()) + data[..written]
        invariant buf[pos..] == old(buf[..])[pos..]
      {
        var at, n := Next(|data| - written);
        if n == 0 {
          break;
        }
        TakeMore(data, written, n);
        Assoc(old(Written()), data[..written], data[written..written + n]);
        Copy(buf, at, data[written..written + n]);
        written := written + n;
      }
    }
  }

  lemma TakeMore(data: seq<byte>, m: nat, n: nat)
    requires m + n <= |data|
    ensures data[..m + n] == data[..m] + data[m..m + n]
  {
  }

  /** memcpy. */
  method Copy(buf: array<byte>, at: nat, data: seq<byte>)
    requires at + |data| <= buf.Length
    modifies buf
    ensures buf[..at + |data|] == old(buf[..at]) + data
    ensures buf[at + |data|..] == old(buf[at + |data|..])
  {
    forall k | 0 <= k < |data| {
      buf[at + k] := data[k];
    }
  }

  /** A vector that grows when it is written past its end. */
  class BufferOutput {
    var buf: seq<byte>
    var pos: nat

    constructor (buf: seq<byte>)
      ensures this.buf == buf && pos == 0
    {
      this.buf, pos := buf, 0;
    }

    /** Writing overwrites from the position on and leaves what lies beyond. */
    method Write(data: seq<byte>) returns (written: nat)
      requires pos <= |buf|
      modifies this
      ensures pos <= |buf| && written == |data| && pos == old(pos) + |data|
      ensures buf[..pos] == old(buf[..pos]) + data
      ensures buf[pos..] == if pos <= old(|buf|) then old(buf)[pos..] else []
    {
      if data == [] {
        return 0;
      }
      if pos + |data| > |buf| {
        buf := buf + seq(pos + |data| - |buf|, _ => 0);
      }
      buf := buf[..pos] + data + buf[pos + |data|..];
      pos := pos + |data|;
      written := |data|;
    }
  }

  /** Small writes are collected, large ones pass by the buffer once it is empty. */
  class BufferedOutput {
    const destination: Destination
    const buffer: array<byte>
    const window: ArrayOutput

    ghost predicate Valid()
      reads this, window
    {
      window.buf == buffer && window.Valid()
    }

    /** The bytes that are waiting in the buffer. */
    ghost function Buffered(): seq<byte>
      requires Valid()
      reads this, window, buffer
    {
      window.Written()
    }

    constructor (destination: Destination, bufferSize: nat)
      ensures Valid() && this.destination == destination && buffer.Length == bufferSize && Buffered() == []
      ensures fresh(buffer) && fresh(window)
    {
      this.destination := destination;
      var b := new byte[bufferSize](_ => 0);
      buffer := b;
      window := new ArrayOutput(b);
    }

    ghost function Now(): B.Buffer<B.Socket>
      requires Valid()
      reads this, window, buffer, destination
    {
      B.Buffer(Buffered(), destination.Now())
    }

    /** Everything that waits is delivered in order. It throws exactly if the destination throws
        before it has taken all of it; then the whole buffer is left as it was, although a part of
        it has been delivered. */
    method Flush() returns (thrown: bool)
      requires Valid()
      modifies destination, window`pos
      ensures Valid() && buffer[..] == old(buffer[..])
      ensures B.Flushed(Now(), thrown) == B.Flush(B.SOCKET, old(Now()))
      ensures thrown <==> B.Room(old(destination.reactions)) < |old(Buffered())|
      ensures Buffered() == if thrown then old(Buffered()) else []
      ensures destination.received == old(destination.received)
                                      + if thrown then old(Buffered())[..B.Repeated(old(Now()))] else old(Buffered())
    {
      hide B.Room, B.Repeated, B.SocketDrain, B.SocketWrite;
      B.FlushExactly(Now());
      B.FlushDrains(Now());
      ghost var waiting, goal := Buffered(), B.SocketDrain(destination.Now(), Buffered());
      var done, len := 0, window.pos;
      assert waiting[0..] == waiting;
      while len > 0
        invariant 0 <= done <= |waiting| && len == |waiting| - done
        invariant Shifted(done, B.SocketDrain(destination.Now(), waiting[done..])) == goal
        invariant buffer[..] == old(buffer[..]) && window.pos == |waiting|
        modifies destination
        decreases len + |destination.reactions|
      {
        OneMoreDrain(destination.Now(), waiting, done);
        assert buffer[done..done + len] == waiting[done..];
        var written, t := destination.Write(buffer[done..done + len]);
        if t {
          return true;
        }
        done, len := done + written, len - written;
      }
      NothingDrained(destination.Now());
      assert waiting[done..] == [];
      window.pos := 0;
      thrown := false;
    }

    /** Returns how many bytes were accepted. */
    method Write(data: seq<byte>) returns (written: nat, thrown: bool)
      requires Valid()
      modifies destination, window`pos, buffer
      ensures Valid()
      ensures B.Wrote(Now(), written, thrown) == B.Write(B.SOCKET, buffer.Length, old(Now()), data)
    {
      if buffer.Length - window.pos < |data| {
        thrown := Flush();
        if thrown {
          return 0, true;
        }
        if |data| > buffer.Length / 2 {
          written, thrown := destination.Write(data);
          return;
        }
      }
      ghost var before := Buffered();
      written := window.Write(data);
      thrown := false;
      assert data[..|data|] == data && before + data == Buffered();
    }
  }

  /** What is left to do of a drain, as what is done of the whole. */
  ghost function Shifted(done: nat, w: B.Went<B.Socket>): B.Went<B.Socket> {
    w.(n := done + w.n)
  }

  lemma NothingDrained(s: B.Socket)
    ensures B.SocketDrain(s, []) == B.Went(s, 0, false)
  {
  }

  lemma OneMoreDrain(s: B.Socket, data: seq<byte>, done: nat)
    requires done < |data|
    ensures var w := B.SocketWrite(s, data[done..]);
            && done + w.n <= |data|
            && (!w.thrown ==> |w.below.reactions| < |s.reactions|)
            && Shifted(done, B.SocketDrain(s, data[done..]))
               == if w.thrown then Shifted(done, w) else Shifted(done + w.n, B.SocketDrain(w.below, data[done + w.n..]))
  {
    var w := B.SocketWrite(s, data[done..]);
    assert data[done..][w.n..] == data[done + w.n..];
  }

  /** Repeats the write until everything is accepted; gives up when nothing is. */
  method WriteAll(output: BufferedOutput, data: seq<byte>) returns (r: B.Transfer)
    requires output.Valid()
    modifies output.destination, output.window`pos, output.buffer
    ensures output.Valid()
    ensures B.Transferred(output.Now(), r) == B.WriteAll(B.SOCKET, output.buffer.Length, old(output.Now()), data)
  {
    hide B.Write, B.WriteAll, Continued;
    ghost var goal := B.WriteAll(B.SOCKET, output.buffer.Length, output.Now(), data);
    NothingWritten(goal);
    var sent, last := 0, 1;
    assert data[0..] == data;
    while sent < |data| && last != 0
      invariant 0 <= sent <= |data| && output.Valid()
      invariant last != 0 ==> Continued(sent, B.WriteAll(B.SOCKET, output.buffer.Length, output.Now(), data[sent..])) == goal
      invariant last == 0 ==> sent < |data| && B.Transferred(output.Now(), B.Short(sent)) == goal
      decreases |data| - sent, last
    {
      OneMoreWrite(output.buffer.Length, output.Now(), data, sent);
      var written, thrown := output.Write(data[sent..]);
      if thrown {
        return B.Thrown;
      }
      last, sent := written, sent + written;
    }
    NoMoreToWrite(output.buffer.Length, output.Now(), data);
    r := if sent < |data| then B.Short(sent) else B.All;
  }

  ghost function Continued(sent: nat, t: B.Transferred<B.Socket>): B.Transferred<B.Socket> {
    t.(r := B.After(sent, t.r))
  }

  lemma NothingWritten(t: B.Transferred<B.Socket>)
    ensures Continued(0, t) == t
  {
  }

  lemma NoMoreToWrite(capacity: nat, b: B.Buffer<B.Socket>, data: seq<byte>)
    requires |b.waiting| <= capacity
    ensures Continued(|data|, B.WriteAll(B.SOCKET, capacity, b, data[|data|..])) == B.Transferred(b, B.All)
  {
  }

  lemma OneMoreWrite(capacity: nat, b: B.Buffer<B.Socket>, data: seq<byte>, sent: nat)
    requires sent < |data| && |b.waiting| <= capacity
    ensures var w := B.Write(B.SOCKET, capacity, b, data[sent..]);
            && sent + w.n <= |data|
            && Continued(sent, B.WriteAll(B.SOCKET, capacity, b, data[sent..]))
               == (if w.thrown then B.Transferred(w.b, B.Thrown)
                   else if w.n == 0 then B.Transferred(w.b, B.Short(sent))
                   else Continued(sent + w.n, B.WriteAll(B.SOCKET, capacity, w.b, data[sent + w.n..])))
  {
    var w := B.Write(B.SOCKET, capacity, b, data[sent..]);
    B.WriteExactly(capacity, b, data[sent..]);
    hide B.Write;
    assert data[sent..][w.n..] == data[sent + w.n..];
  }
}
