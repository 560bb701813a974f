/** Buffered output as values: a buffer over anything that takes bytes, what a flush and a write do
    to both, and what that means for the bytes the other end receives. */
module BufferedWrites {
  import opened Bytes

  /** A write to what lies below: its new state, how many bytes it took, whether it threw. */
  datatype Went<+S> = Went(below: S, n: nat, thrown: bool)

  /** What a buffer needs of the stream below it: one write, and the loop that writes everything
      and then flushes. */
  datatype Under<!S> = Under(write: (S, seq<byte>) -> Went<S>, drain: (S, seq<byte>) -> Went<S>)

  /** The bytes that wait, and the stream below. */
  datatype Buffer<+S> = Buffer(waiting: seq<byte>, below: S)

  datatype Flushed<+S> = Flushed(b: Buffer<S>, thrown: bool)

  datatype Wrote<+S> = Wrote(b: Buffer<S>, n: nat, thrown: bool)

  //// The buffer

  /** An exception leaves everything waiting. */
  function Flush<S>(u: Under<S>, b: Buffer<S>): Flushed<S> {
    if b.waiting == [] then Flushed(b, false)
    else
      var d := u.drain(b.below, b.waiting);
      if d.thrown then Flushed(b.(below := d.below), true) else Flushed(Buffer([], d.below), false)
  }

  /** Small writes are collected, large ones pass by the buffer once it is empty. */
  function Write<S>(u: Under<S>, capacity: nat, b: Buffer<S>, data: seq<byte>): (w: Wrote<S>)
    ensures |b.waiting| <= capacity ==> |w.b.waiting| <= capacity
  {
    if |data| <= capacity - |b.waiting| then Wrote(b.(waiting := b.waiting + data), |data|, false)
    else
      var f := Flush(u, b);
      if f.thrown then Wrote(f.b, 0, true)
      else if |data| > capacity / 2 then
        var w := u.write(f.b.below, data);
        Wrote(f.b.(below := w.below), w.n, w.thrown)
      else Wrote(f.b.(waiting := data), |data|, false)
  }

  datatype Transfer = All | Short(n: nat) | Thrown

  datatype Transferred<+S> = Transferred(b: Buffer<S>, r: Transfer)

  function After(n: nat, r: Transfer): Transfer {
    if r.Short? then Short(n + r.n) else r
  }

  /** Repeats the write until everything is accepted; gives up when nothing is. */
  function WriteAll<S>(u: Under<S>, capacity: nat, b: Buffer<S>, data: seq<byte>): (t: Transferred<S>)
    ensures |b.waiting| <= capacity ==> |t.b.waiting| <= capacity
    decreases |data|
  {
    if data == [] then Transferred(b, All)
    else
      var w := Write(u, capacity, b, data);
      if w.thrown then Transferred(w.b, Thrown)
      else if w.n == 0 then Transferred(w.b, Short(0))
      else if |data| <= w.n then Transferred(w.b, All)
      else
        var t := WriteAll(u, capacity, w.b, data[w.n..]);
        Transferred(t.b, After(w.n, t.r))
  }

  /** The pieces of a message in turn; false is an exception. */
  function WritePieces<S>(u: Under<S>, capacity: nat, b: Buffer<S>, pieces: seq<seq<byte>>): (r: (Buffer<S>, bool))
    ensures |b.waiting| <= capacity ==> |r.0.waiting| <= capacity
    decreases |pieces|
  {
    if pieces == [] then (b, true)
    else
      var t := WriteAll(u, capacity, b, pieces[0]);
      if t.r.All? then WritePieces(u, capacity, t.b, pieces[1..]) else (t.b, false)
  }

  /** One message: its pieces, then a flush. */
  function Send<S>(u: Under<S>, capacity: nat, b: Buffer<S>, pieces: seq<seq<byte>>): (Buffer<S>, bool) {
    var (q, ok) := WritePieces(u, capacity, b, pieces);
    if ok then var f := Flush(u, q); (f.b, !f.thrown) else (q, false)
  }

  //// The socket

  /** What the other end does with the next write: take up to n bytes and return, or take up to n
      bytes and throw. */
  datatype Reaction = Takes(n: nat) | Breaks(n: nat)

  /** Any socket: it follows a list of reactions, and throws when the list is used up. */
  datatype Socket = Socket(received: seq<byte>, reactions: seq<Reaction>)

  function SocketWrite(s: Socket, data: seq<byte>): (w: Went<Socket>)
    ensures w.n <= |data| && w.below.received == s.received + data[..w.n]
  {
    if s.reactions == [] then
      assert s.received == s.received + data[..0];
      Went(s, 0, true)
    else
      var n := if s.reactions[0].n <= |data| then s.reactions[0].n else |data|;
      Went(Socket(s.received + data[..n], s.reactions[1..]), n, s.reactions[0].Breaks?)
  }

  function SocketDrain(s: Socket, data: seq<byte>): Went<Socket>
    decreases |s.reactions|
  {
    if data == [] then Went(s, 0, false)
    else
      var w := SocketWrite(s, data);
      if w.thrown then w
      else
        var d := SocketDrain(w.below, data[w.n..]);
        d.(n := w.n + d.n)
  }

  const SOCKET: Under<Socket> := Under((s, data) => SocketWrite(s, data), (s, data) => SocketDrain(s, data))

  /** How many bytes a socket takes before it throws. */
  function Room(reactions: seq<Reaction>): nat {
    if reactions == [] || reactions[0].Breaks? then 0 else reactions[0].n + Room(reactions[1..])
  }

  /** How many bytes a socket takes at most, those of the write that throws included. */
  function Reach(reactions: seq<Reaction>): nat {
    if reactions == [] then 0
    else if reactions[0].Breaks? then reactions[0].n
    else reactions[0].n + Reach(reactions[1..])
  }

  function Least(a: nat, b: nat): nat {
    if a <= b then a else b
  }

  /** Draining throws exactly if the bytes do not fit before the socket throws; then those have gone
      out that it takes at most, and otherwise all. */
  lemma {:induction false} DrainExactly(s: Socket, data: seq<byte>)
    ensures var d := SocketDrain(s, data);
            && (d.thrown <==> Room(s.reactions) < |data|)
            && d.n == (if d.thrown then Least(|data|, Reach(s.reactions)) else |data|)
            && d.below.received == s.received + data[..d.n]
    decreases |s.reactions|
  {
    if data == [] {
      assert s.received + data[..0] == s.received;
    } else if s.reactions != [] && s.reactions[0].Takes? {
      var w := SocketWrite(s, data);
      var d := SocketDrain(w.below, data[w.n..]);
      DrainExactly(w.below, data[w.n..]);
      assert data[..w.n + d.n] == data[..w.n] + data[w.n..][..d.n];
      Assoc(s.received, data[..w.n], data[w.n..][..d.n]);
    }
  }

  //// What the other end receives

  /** Everything that was accepted and not lost: received, or waiting. */
  function Taken(b: Buffer<Socket>): seq<byte> {
    b.below.received + b.waiting
  }

  /** How many bytes go out in a flush that throws: they are still waiting. */
  function Repeated(b: Buffer<Socket>): nat {
    if Room(b.below.reactions) < |b.waiting| then Least(|b.waiting|, Reach(b.below.reactions)) else 0
  }

  /** A flush throws exactly if what waits does not fit. Received and waiting bytes are together
      what they were, except that those are repeated that have gone out before the exception. */
  lemma FlushExactly(b: Buffer<Socket>)
    ensures var f := Flush(SOCKET, b);
            && (f.thrown <==> Room(b.below.reactions) < |b.waiting|)
            && f.b.waiting == (if f.thrown then b.waiting else [])
            && f.b.below.received == b.below.received + (if f.thrown then b.waiting[..Repeated(b)] else b.waiting)
            && (!f.thrown ==> Taken(f.b) == Taken(b))
  {
    if b.waiting != [] { DrainExactly(b.below, b.waiting); } else { assert b.below.received + [] == b.below.received; }
  }

  lemma FlushDrains(b: Buffer<Socket>)
    ensures var d := SocketDrain(b.below, b.waiting);
            Flush(SOCKET, b) == Flushed(Buffer(if d.thrown then b.waiting else [], d.below), d.thrown)
  {
  }

  /** A flush conserves the stream if and only if it does not throw, or the socket took nothing
      before it threw. */
  lemma FlushConserves(b: Buffer<Socket>)
    ensures Taken(Flush(SOCKET, b).b) == Taken(b)
       <==> |b.waiting| <= Room(b.below.reactions) || Reach(b.below.reactions) == 0
  {
    FlushExactly(b);
    var f := Flush(SOCKET, b);
    if f.thrown {
      assert |Taken(f.b)| == |Taken(b)| + Repeated(b);
      assert Repeated(b) == 0 ==> b.waiting[..Repeated(b)] == [];
    }
  }

  /** After a flush that has thrown, the next one that does not delivers everything that waits, so
      the other end receives the bytes that had gone out twice, at the front. */
  lemma FlushedTwice(b: Buffer<Socket>)
    requires Flush(SOCKET, b).thrown && !Flush(SOCKET, Flush(SOCKET, b).b).thrown
    ensures Flush(SOCKET, Flush(SOCKET, b).b).b.below.received
         == b.below.received + b.waiting[..Repeated(b)] + b.waiting
  {
    FlushExactly(b);
    FlushExactly(Flush(SOCKET, b).b);
  }

  /** One byte waits, the socket takes it and throws; the next flush sends it again. */
  lemma OneByteTwice(x: byte)
    ensures var b := Buffer([x], Socket([], [Breaks(1), Takes(1)]));
            var first := Flush(SOCKET, b);
            var second := Flush(SOCKET, first.b);
            && first.thrown && first.b.waiting == [x] && first.b.below.received == [x]
            && !second.thrown && second.b.waiting == [] && second.b.below.received == [x, x]
  {
    var b := Buffer([x], Socket([], [Breaks(1), Takes(1)]));
    FlushExactly(b);
    FlushExactly(Flush(SOCKET, b).b);
    assert Flush(SOCKET, b).b.below.reactions == [Takes(1)];
    assert Room([Takes(1)]) == 1;
  }

  //// Writes

  /** How many bytes reach the socket in a write that throws: those of a flush, which are still
      waiting, or those of the data, which were not accepted. */
  function Stray(capacity: nat, b: Buffer<Socket>, data: seq<byte>): nat {
    if |data| <= capacity - |b.waiting| then 0
    else if Room(b.below.reactions) < |b.waiting| then Repeated(b)
    else if |data| <= capacity / 2 then 0
    else
      var rest := Flush(SOCKET, b).b.below.reactions;
      if rest == [] || rest[0].Takes? then 0 else Least(|data|, rest[0].n)
  }

  /** What a write adds to the stream is what it says it has accepted, and the stray bytes of an
      exception. */
  lemma WriteExactly(capacity: nat, b: Buffer<Socket>, data: seq<byte>)
    requires |b.waiting| <= capacity
    ensures var w := Write(SOCKET, capacity, b, data);
            && w.n <= |data|
            && (!w.thrown ==> Taken(w.b) == Taken(b) + data[..w.n] && Stray(capacity, b, data) == 0)
            && |Taken(w.b)| == |Taken(b)| + (if w.thrown then Stray(capacity, b, data) else w.n)
            && (w.thrown ==> w.b.below.received <= Taken(b) + data)
  {
    FlushExactly(b);
    if |data| <= capacity - |b.waiting| {
      Assoc(b.below.received, b.waiting, data);
      assert data[..|data|] == data;
    } else {
      var f := Flush(SOCKET, b);
      if f.thrown {
        assert b.waiting == b.waiting[..Repeated(b)] + b.waiting[Repeated(b)..];
        Assoc(b.below.received, b.waiting[..Repeated(b)], b.waiting[Repeated(b)..]);
        Assoc(f.b.below.received, b.waiting[Repeated(b)..], data);
      } else if |data| > capacity / 2 {
        var w := SocketWrite(f.b.below, data);
        assert Taken(b) == f.b.below.received;
        assert data == data[..w.n] + data[w.n..];
        Assoc(f.b.below.received, data[..w.n], data[w.n..]);
      } else {
        assert data[..|data|] == data;
      }
    }
  }

  datatype Step = Put(data: seq<byte>) | Push

  /** A buffer after some steps, with the bytes the writes have accepted. The program goes on after
      an exception: the buffer stays in use when the reconnect fails as well. */
  datatype Ran = Ran(b: Buffer<Socket>, accepted: seq<byte>)

  function StrayOf(capacity: nat, b: Buffer<Socket>, step: Step): nat {
    if step.Push? then Repeated(b) else Stray(capacity, b, step.data)
  }

  function RunStep(capacity: nat, r: Ran, step: Step): (q: Ran)
    requires |r.b.waiting| <= capacity
    ensures |q.b.waiting| <= capacity
  {
    if step.Push? then
      FlushExactly(r.b);
      r.(b := Flush(SOCKET, r.b).b)
    else
      WriteExactly(capacity, r.b, step.data);
      var w := Write(SOCKET, capacity, r.b, step.data);
      Ran(w.b, if w.thrown then r.accepted else r.accepted + step.data[..w.n])
  }

  function Run(capacity: nat, steps: seq<Step>, b: Buffer<Socket>): (r: Ran)
    requires |b.waiting| <= capacity
    ensures |r.b.waiting| <= capacity
    decreases |steps|
  {
    if steps == [] then Ran(b, [])
    else RunStep(capacity, Run(capacity, steps[..|steps| - 1], b), steps[|steps| - 1])
  }

  /** No step has let bytes through before it threw. */
  predicate NoStray(capacity: nat, steps: seq<Step>, b: Buffer<Socket>)
    requires |b.waiting| <= capacity
  {
    forall k :: 0 <= k < |steps| ==> StrayOf(capacity, Run(capacity, steps[..k], b).b, steps[k]) == 0
  }

  lemma StepExactly(capacity: nat, r: Ran, step: Step, start: seq<byte>)
    requires |r.b.waiting| <= capacity
    ensures var q := RunStep(capacity, r, step);
            && |Taken(q.b)| + |r.accepted| == |Taken(r.b)| + |q.accepted| + StrayOf(capacity, r.b, step)
            && (StrayOf(capacity, r.b, step) == 0 && Taken(r.b) == start + r.accepted
                ==> Taken(q.b) == start + q.accepted)
  {
    if step.Push? {
      FlushExactly(r.b);
      FlushConserves(r.b);
    } else {
      WriteExactly(capacity, r.b, step.data);
      var w := Write(SOCKET, capacity, r.b, step.data);
      if !w.thrown { Assoc(start, r.accepted, step.data[..w.n]); }
      if w.thrown && Stray(capacity, r.b, step.data) == 0 { ThrownInVain(capacity, r.b, step.data); }
    }
  }

  /** A write that throws without letting a byte through changes nothing about the stream. */
  lemma ThrownInVain(capacity: nat, b: Buffer<Socket>, data: seq<byte>)
    requires |b.waiting| <= capacity
    requires Write(SOCKET, capacity, b, data).thrown && Stray(capacity, b, data) == 0
    ensures Taken(Write(SOCKET, capacity, b, data).b) == Taken(b)
  {
    FlushExactly(b);
    var f := Flush(SOCKET, b);
    if f.thrown {
      assert b.waiting[..0] == [];
    } else {
      assert data[..0] == [];
    }
  }

  /** After any run of writes and flushes, with any exceptions on the way, the stream is what it was
      followed by what was accepted, if and only if no step let bytes through before it threw. */
  lemma {:induction false} RunConserves(capacity: nat, steps: seq<Step>, b: Buffer<Socket>)
    requires |b.waiting| <= capacity
    ensures var r := Run(capacity, steps, b);
            && |Taken(b)| + |r.accepted| <= |Taken(r.b)|
            && (Taken(r.b) == Taken(b) + r.accepted <==> NoStray(capacity, steps, b))
            && (|Taken(b)| + |r.accepted| == |Taken(r.b)| <==> NoStray(capacity, steps, b))
    decreases |steps|
  {
    hide RunStep, StrayOf, Taken, NoStray;
    NoStraySnoc(capacity, steps, b);
    if steps == [] {
      assert Taken(b) + [] == Taken(b);
    } else {
      var init := steps[..|steps| - 1];
      RunConserves(capacity, init, b);
      StepExactly(capacity, Run(capacity, init, b), steps[|steps| - 1], Taken(b));
    }
  }

  lemma NoStraySnoc(capacity: nat, steps: seq<Step>, b: Buffer<Socket>)
    requires |b.waiting| <= capacity
    ensures steps == [] ==> NoStray(capacity, steps, b)
    ensures steps != [] ==>
              var init := steps[..|steps| - 1];
              (NoStray(capacity, steps, b) <==>
                && NoStray(capacity, init, b)
                && StrayOf(capacity, Run(capacity, init, b).b, steps[|steps| - 1]) == 0)
  {
    hide Run, StrayOf;
    if steps != [] {
      var init := steps[..|steps| - 1];
      assert forall k :: 0 <= k < |init| ==> steps[..k] == init[..k] && steps[k] == init[k];
    }
  }

  //// Whole messages

  /** A transfer accepts everything, or says how much, or throws. */
  lemma {:induction false} WriteAllExactly(capacity: nat, b: Buffer<Socket>, data: seq<byte>)
    requires |b.waiting| <= capacity
    ensures var t := WriteAll(SOCKET, capacity, b, data);
            && (t.r.All? ==> Taken(t.b) == Taken(b) + data)
            && (t.r.Short? ==> t.r.n < |data| && Taken(t.b) == Taken(b) + data[..t.r.n])
            && (|data| <= capacity / 2 ==> !t.r.Short?)
            && (!t.r.All? ==> t.b.below.received <= Taken(b) + data)
    decreases |data|
  {
    var w := Write(SOCKET, capacity, b, data);
    WriteExactly(capacity, b, data);
    if data == [] {
      assert Taken(b) + data == Taken(b);
    } else if !w.thrown && 0 < w.n < |data| {
      var rest := data[w.n..];
      WriteAllExactly(capacity, w.b, rest);
      assert data == data[..w.n] + rest;
      Assoc(Taken(b), data[..w.n], rest);
      var t := WriteAll(SOCKET, capacity, w.b, rest).r;
      if t.Short? {
        assert data[..w.n + t.n] == data[..w.n] + rest[..t.n];
        Assoc(Taken(b), data[..w.n], rest[..t.n]);
      }
    } else if !w.thrown {
      assert data[..w.n] == (if w.n == 0 then [] else data);
      assert w.n == 0 ==> Taken(b) + [] == Taken(b) && w.b.below.received <= Taken(w.b) <= Taken(b) + data;
    }
  }

  lemma {:induction false} PiecesExactly(capacity: nat, b: Buffer<Socket>, pieces: seq<seq<byte>>)
    requires |b.waiting| <= capacity
    ensures var (q, ok) := WritePieces(SOCKET, capacity, b, pieces);
            && (ok ==> Taken(q) == Taken(b) + Flatten(pieces))
            && (!ok ==> q.below.received <= Taken(b) + Flatten(pieces))
    decreases |pieces|
  {
    if pieces == [] {
      assert Taken(b) + [] == Taken(b);
    } else {
      var t := WriteAll(SOCKET, capacity, b, pieces[0]);
      WriteAllExactly(capacity, b, pieces[0]);
      Assoc(Taken(b), pieces[0], Flatten(pieces[1..]));
      if t.r.All? { PiecesExactly(capacity, t.b, pieces[1..]); }
    }
  }

  /** What a flush delivers, thrown or not, is the beginning of what was taken. */
  lemma FlushDelivers(b: Buffer<Socket>)
    ensures var f := Flush(SOCKET, b);
            f.b.below.received <= Taken(b) && (!f.thrown ==> f.b.waiting == [] && f.b.below.received == Taken(b))
  {
    FlushExactly(b);
    var m := Repeated(b);
    assert b.waiting == b.waiting[..m] + b.waiting[m..];
    Assoc(b.below.received, b.waiting[..m], b.waiting[m..]);
  }

  /** A message that is sent without an exception is received behind all that was taken before it;
      of one that fails, the other end has the beginning of that. */
  lemma SendDelivers(capacity: nat, b: Buffer<Socket>, pieces: seq<seq<byte>>)
    requires |b.waiting| <= capacity
    ensures var (q, ok) := Send(SOCKET, capacity, b, pieces);
            && (ok ==> q.waiting == [] && q.below.received == Taken(b) + Flatten(pieces))
            && (!ok ==> q.below.received <= Taken(b) + Flatten(pieces))
  {
    hide Flush, WritePieces, Taken;
    PiecesExactly(capacity, b, pieces);
    var (q, ok) := WritePieces(SOCKET, capacity, b, pieces);
    FlushDelivers(q);
  }

  /** After a flush that threw, the next message that is sent follows a repetition: the bytes that
      had gone out come a second time, before the rest of the old message and the new one. */
  lemma NextMessageFollows(capacity: nat, b: Buffer<Socket>, pieces: seq<seq<byte>>)
    requires |b.waiting| <= capacity && Flush(SOCKET, b).thrown
    requires Send(SOCKET, capacity, Flush(SOCKET, b).b, pieces).1
    ensures Send(SOCKET, capacity, Flush(SOCKET, b).b, pieces).0.below.received
         == b.below.received + b.waiting[..Repeated(b)] + b.waiting + Flatten(pieces)
  {
    FlushExactly(b);
    SendDelivers(capacity, Flush(SOCKET, b).b, pieces);
  }
}
