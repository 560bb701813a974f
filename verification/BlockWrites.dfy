/** The whole write path of a data packet: header pieces into the buffered socket, the block through
    a second buffer and the compressed stream on top of it, and a flush of everything. */
module BlockWrites {
  import opened Bytes
  import B = BufferedWrites
  import C = CompressedStreams

  /** Compression off, or on with an algorithm and a maximum chunk size. */
  datatype Compression = Off | On(codec: C.Codec, methodByte: byte, max: nat)

  type Output = B.Buffer<B.Socket>

  /** The compressed stream as the buffer above it sees it: its flush is that of the stream below. */
  function Drained(k: Compression, capacity: nat, b: Output, data: seq<byte>): B.Went<Output>
    requires k.On?
  {
    var c := C.CompressAll(k.codec, k.methodByte, k.max, capacity, b, data);
    if c.r != C.Written then B.Went(c.b, c.written, true)
    else var f := B.Flush(B.SOCKET, c.b); B.Went(f.b, c.written, f.thrown)
  }

  function Written(k: Compression, capacity: nat, b: Output, data: seq<byte>): B.Went<Output>
    requires k.On?
  {
    var c := C.CompressAll(k.codec, k.methodByte, k.max, capacity, b, data);
    B.Went(c.b, c.written, c.r != C.Written)
  }

  function Over(k: Compression, capacity: nat): B.Under<Output>
    requires k.On?
  {
    B.Under((b, data) => Written(k, capacity, b, data), (b, data) => Drained(k, capacity, b, data))
  }

  /** SendBlockData: the buffer over the compressed stream is a new one and is given up afterwards. */
  function SendBlock(k: Compression, capacity: nat, out: Output, pieces: seq<seq<byte>>): (Output, bool) {
    match k
    case Off => B.Send(B.SOCKET, capacity, out, pieces)
    case On(_, _, max) => var (b, ok) := B.Send(Over(k, capacity), max, B.Buffer([], out), pieces); (b.below, ok)
  }

  /** SendData. */
  function SendData(k: Compression, capacity: nat, out: Output, header: seq<seq<byte>>, block: seq<seq<byte>>): (Output, bool) {
    var (h, headed) := B.WritePieces(B.SOCKET, capacity, out, header);
    if !headed then (h, false)
    else
      var (b, sent) := SendBlock(k, capacity, h, block);
      if !sent then (b, false)
      else var f := B.Flush(B.SOCKET, b); (f.b, !f.thrown)
  }

  //// Frames

  predicate CutAt(max: nat, chunks: seq<seq<byte>>) {
    forall i :: 0 <= i < |chunks| ==> 1 <= |chunks[i]| && (max != 0 ==> |chunks[i]| <= max)
  }

  function Frames(k: Compression, chunks: seq<seq<byte>>): seq<byte>
    requires k.On?
  {
    C.Emit(k.codec, k.methodByte, chunks).0
  }

  predicate Whole(k: Compression, chunks: seq<seq<byte>>)
    requires k.On?
  {
    C.Emit(k.codec, k.methodByte, chunks).1
  }

  /** The stream b is a followed by some data, sealed in frames. */
  ghost predicate Sealed(k: Compression, a: seq<byte>, b: seq<byte>, data: seq<byte>)
    requires k.On?
  {
    exists chunks: seq<seq<byte>> :: Flatten(chunks) == data && CutAt(k.max, chunks) && Whole(k, chunks) && b == a + Frames(k, chunks)
  }

  /** What was received is the beginning of a followed by the frames of the beginning of some data. */
  ghost predicate Begun(k: Compression, a: seq<byte>, received: seq<byte>, data: seq<byte>)
    requires k.On?
  {
    exists chunks: seq<seq<byte>> :: Flatten(chunks) <= data && CutAt(k.max, chunks) && received <= a + Frames(k, chunks)
  }

  lemma {:induction false} EmitConcat(k: Compression, x: seq<seq<byte>>, y: seq<seq<byte>>)
    requires k.On? && Whole(k, x)
    ensures Frames(k, x + y) == Frames(k, x) + Frames(k, y) && Whole(k, x + y) == Whole(k, y)
    decreases |x|
  {
    hide C.Frame;
    if x == [] {
      assert x + y == y;
    } else {
      assert (x + y)[1..] == x[1..] + y;
      EmitConcat(k, x[1..], y);
      Assoc(C.Frame(k.codec, k.methodByte, x[0]).value, Frames(k, x[1..]), Frames(k, y));
    }
  }

  lemma SealedNothing(k: Compression, a: seq<byte>)
    requires k.On?
    ensures Sealed(k, a, a, [])
  {
    assert Flatten<byte>([]) == [] && CutAt(k.max, []) && Whole(k, []) && a == a + Frames(k, []);
  }

  lemma SealedTwice(k: Compression, a: seq<byte>, b: seq<byte>, c: seq<byte>, x: seq<byte>, y: seq<byte>)
    requires k.On? && Sealed(k, a, b, x) && Sealed(k, b, c, y)
    ensures Sealed(k, a, c, x + y)
  {
    var p: seq<seq<byte>> :| Flatten(p) == x && CutAt(k.max, p) && Whole(k, p) && b == a + Frames(k, p);
    var q: seq<seq<byte>> :| Flatten(q) == y && CutAt(k.max, q) && Whole(k, q) && c == b + Frames(k, q);
    hide Whole, Frames;
    EmitConcat(k, p, q);
    FlattenConcat(p, q);
    Assoc(a, Frames(k, p), Frames(k, q));
    assert CutAt(k.max, p + q);
  }

  lemma SealedThenBegun(k: Compression, a: seq<byte>, b: seq<byte>, r: seq<byte>, x: seq<byte>, y: seq<byte>)
    requires k.On? && Sealed(k, a, b, x) && Begun(k, b, r, y)
    ensures Begun(k, a, r, x + y)
  {
    var p: seq<seq<byte>> :| Flatten(p) == x && CutAt(k.max, p) && Whole(k, p) && b == a + Frames(k, p);
    var q: seq<seq<byte>> :| Flatten(q) <= y && CutAt(k.max, q) && r <= b + Frames(k, q);
    hide Whole, Frames;
    EmitConcat(k, p, q);
    FlattenConcat(p, q);
    Assoc(a, Frames(k, p), Frames(k, q));
    assert CutAt(k.max, p + q);
    PrefixBehind(x, Flatten(q), y);
  }

  lemma PrefixBehind<T>(x: seq<T>, p: seq<T>, y: seq<T>)
    requires p <= y
    ensures x + p <= x + y
  {
  }

  lemma BegunMore(k: Compression, a: seq<byte>, r: seq<byte>, x: seq<byte>, y: seq<byte>)
    requires k.On? && Begun(k, a, r, x) && x <= y
    ensures Begun(k, a, r, y)
  {
    var p: seq<seq<byte>> :| Flatten(p) <= x && CutAt(k.max, p) && r <= a + Frames(k, p);
    assert Flatten(p) <= y;
  }

  //// One layer

  lemma CompressedIsSealed(k: Compression, capacity: nat, b: Output, data: seq<byte>)
    requires k.On? && |b.waiting| <= capacity
    ensures var c := C.CompressAll(k.codec, k.methodByte, k.max, capacity, b, data);
            && |c.b.waiting| <= capacity
            && (c.r == C.Written ==> c.written == |data| && Sealed(k, B.Taken(b), B.Taken(c.b), data))
            && Begun(k, B.Taken(b), c.b.below.received, data)
  {
    hide C.CompressAll, C.Emit, C.Chunks, B.Taken;
    var chunks := C.Chunks(data, k.max);
    C.FramesExactly(k.codec, k.methodByte, k.max, capacity, b, data);
    C.ChunksPartition(data, k.max);
    forall i | 0 <= i < |chunks| ensures 1 <= |chunks[i]| && (k.max != 0 ==> |chunks[i]| <= k.max) {
      assert chunks[i] in chunks;
    }
    assert CutAt(k.max, chunks);
    var c := C.CompressAll(k.codec, k.methodByte, k.max, capacity, b, data);
    assert c.b.below.received <= B.Taken(b) + Frames(k, chunks);
    if c.r == C.Written { assert Whole(k, chunks); }
  }

  lemma DrainedIsSealed(k: Compression, capacity: nat, b: Output, data: seq<byte>)
    requires k.On? && |b.waiting| <= capacity
    ensures var d := Drained(k, capacity, b, data);
            && |d.below.waiting| <= capacity
            && (!d.thrown ==> Sealed(k, B.Taken(b), B.Taken(d.below), data))
            && Begun(k, B.Taken(b), d.below.below.received, data)
  {
    hide C.CompressAll, B.Flush, Sealed, Begun;
    CompressedIsSealed(k, capacity, b, data);
    var c := C.CompressAll(k.codec, k.methodByte, k.max, capacity, b, data);
    if c.r == C.Written {
      B.FlushDelivers(c.b);
      FlushKeepsBound(c.b);
      var f := B.Flush(B.SOCKET, c.b);
      if f.thrown { SealedIsBegun(k, B.Taken(b), B.Taken(c.b), f.b.below.received, data); }
      else { SealedIsBegun(k, B.Taken(b), B.Taken(c.b), f.b.below.received, data); assert B.Taken(f.b) == B.Taken(c.b); }
    }
  }

  lemma FlushKeepsBound(b: Output)
    ensures |B.Flush(B.SOCKET, b).b.waiting| <= |b.waiting|
  {
    B.FlushExactly(b);
  }

  lemma SealedIsBegun(k: Compression, a: seq<byte>, b: seq<byte>, r: seq<byte>, data: seq<byte>)
    requires k.On? && Sealed(k, a, b, data) && r <= b
    ensures Begun(k, a, r, data)
  {
  }

  //// The buffer above

  /** From one state of the upper buffer to the next: what left it is sealed below, and with what
      waits it is what waited and the data. */
  ghost predicate Moved(k: Compression, b: B.Buffer<Output>, q: B.Buffer<Output>, data: seq<byte>)
    requires k.On?
  {
    exists x: seq<byte> :: Sealed(k, B.Taken(b.below), B.Taken(q.below), x) && b.waiting + data == x + q.waiting
  }

  lemma UpperFlush(k: Compression, capacity: nat, b: B.Buffer<Output>)
    requires k.On? && |b.below.waiting| <= capacity
    ensures var f := B.Flush(Over(k, capacity), b);
            && |f.b.below.waiting| <= capacity
            && (!f.thrown ==> f.b.waiting == [] && Sealed(k, B.Taken(b.below), B.Taken(f.b.below), b.waiting))
            && (f.thrown ==> Begun(k, B.Taken(b.below), f.b.below.below.received, b.waiting))
  {
    hide Drained, Sealed, Begun;
    if b.waiting == [] { SealedNothing(k, B.Taken(b.below)); } else { DrainedIsSealed(k, capacity, b.below, b.waiting); }
  }

  lemma UpperWrite(k: Compression, capacity: nat, size: nat, b: B.Buffer<Output>, data: seq<byte>)
    requires k.On? && |b.below.waiting| <= capacity && |b.waiting| <= size
    ensures var w := B.Write(Over(k, capacity), size, b, data);
            && |w.b.below.waiting| <= capacity && |w.b.waiting| <= size
            && (!w.thrown ==> w.n == |data| && Moved(k, b, w.b, data))
            && (w.thrown ==> Begun(k, B.Taken(b.below), w.b.below.below.received, b.waiting + data))
  {
    hide Sealed, Begun, B.Flush, C.CompressAll, B.Taken;
    if |data| <= size - |b.waiting| {
      SealedNothing(k, B.Taken(b.below));
      assert b.waiting + data == [] + (b.waiting + data);
    } else {
      UpperFlush(k, capacity, b);
      var f := B.Flush(Over(k, capacity), b);
      assert b.waiting <= b.waiting + data;
      if f.thrown {
        BegunMore(k, B.Taken(b.below), f.b.below.below.received, b.waiting, b.waiting + data);
      } else if |data| > size / 2 {
        CompressedIsSealed(k, capacity, f.b.below, data);
        var w := Written(k, capacity, f.b.below, data);
        SealedThenBegun(k, B.Taken(b.below), B.Taken(f.b.below), w.below.below.received, b.waiting, data);
        if !w.thrown {
          SealedTwice(k, B.Taken(b.below), B.Taken(f.b.below), B.Taken(w.below), b.waiting, data);
          assert b.waiting + data == (b.waiting + data) + [];
        }
      } else {
        assert Moved(k, b, f.b.(waiting := data), data);
      }
    }
  }

  lemma MovedTwice(k: Compression, b: B.Buffer<Output>, q: B.Buffer<Output>, r: B.Buffer<Output>, x: seq<byte>, y: seq<byte>)
    requires k.On? && Moved(k, b, q, x) && Moved(k, q, r, y)
    ensures Moved(k, b, r, x + y)
  {
    hide Sealed;
    var u: seq<byte> :| Sealed(k, B.Taken(b.below), B.Taken(q.below), u) && b.waiting + x == u + q.waiting;
    var v: seq<byte> :| Sealed(k, B.Taken(q.below), B.Taken(r.below), v) && q.waiting + y == v + r.waiting;
    SealedTwice(k, B.Taken(b.below), B.Taken(q.below), B.Taken(r.below), u, v);
    calc {
      b.waiting + (x + y);
      { Assoc(b.waiting, x, y); }
      u + q.waiting + y;
      { Assoc(u, q.waiting, y); }
      u + (v + r.waiting);
      { Assoc(u, v, r.waiting); }
      (u + v) + r.waiting;
    }
  }

  lemma MovedThenBegun(k: Compression, b: B.Buffer<Output>, q: B.Buffer<Output>, r: seq<byte>, x: seq<byte>, y: seq<byte>)
    requires k.On? && Moved(k, b, q, x) && Begun(k, B.Taken(q.below), r, q.waiting + y)
    ensures Begun(k, B.Taken(b.below), r, b.waiting + (x + y))
  {
    hide Sealed, Begun;
    var u: seq<byte> :| Sealed(k, B.Taken(b.below), B.Taken(q.below), u) && b.waiting + x == u + q.waiting;
    SealedThenBegun(k, B.Taken(b.below), B.Taken(q.below), r, u, q.waiting + y);
    Assoc(b.waiting, x, y);
    Assoc(u, q.waiting, y);
  }

  lemma UpperWriteAll(k: Compression, capacity: nat, size: nat, b: B.Buffer<Output>, data: seq<byte>)
    requires k.On? && |b.below.waiting| <= capacity && |b.waiting| <= size
    ensures var t := B.WriteAll(Over(k, capacity), size, b, data);
            && |t.b.below.waiting| <= capacity && |t.b.waiting| <= size
            && (t.r.All? ==> Moved(k, b, t.b, data))
            && (!t.r.All? ==> Begun(k, B.Taken(b.below), t.b.below.below.received, b.waiting + data))
  {
    hide Moved, Begun, B.Write;
    UpperWrite(k, capacity, size, b, data);
    if data == [] { MovedNothing(k, b); }
  }

  lemma MovedNothing(k: Compression, b: B.Buffer<Output>)
    requires k.On?
    ensures Moved(k, b, b, [])
  {
    SealedNothing(k, B.Taken(b.below));
    assert b.waiting + [] == [] + b.waiting;
  }

  lemma {:induction false} UpperPieces(k: Compression, capacity: nat, size: nat, b: B.Buffer<Output>, pieces: seq<seq<byte>>)
    requires k.On? && |b.below.waiting| <= capacity && |b.waiting| <= size
    ensures var (q, ok) := B.WritePieces(Over(k, capacity), size, b, pieces);
            && |q.below.waiting| <= capacity && |q.waiting| <= size
            && (ok ==> Moved(k, b, q, Flatten(pieces)))
            && (!ok ==> Begun(k, B.Taken(b.below), q.below.below.received, b.waiting + Flatten(pieces)))
    decreases |pieces|
  {
    hide Moved, Begun, B.WriteAll, B.Taken;
    if pieces == [] {
      MovedNothing(k, b);
    } else {
      var t, later := B.WriteAll(Over(k, capacity), size, b, pieces[0]), Flatten(pieces[1..]);
      UpperWriteAll(k, capacity, size, b, pieces[0]);
      if t.r.All? {
        UpperPieces(k, capacity, size, t.b, pieces[1..]);
        var (q, ok) := B.WritePieces(Over(k, capacity), size, t.b, pieces[1..]);
        if ok { MovedTwice(k, b, t.b, q, pieces[0], later); }
        else { MovedThenBegun(k, b, t.b, q.below.below.received, pieces[0], later); }
      } else {
        Assoc(b.waiting, pieces[0], later);
        assert b.waiting + pieces[0] <= b.waiting + Flatten(pieces);
        BegunMore(k, B.Taken(b.below), t.b.below.below.received, b.waiting + pieces[0], b.waiting + Flatten(pieces));
      }
    }
  }

  //// Everything

  /** A block that is sent with compression is taken as frames of exactly its bytes, behind all that
      was taken before; of one that fails, the other end has the beginning of such frames. */
  lemma BlockIsSealed(k: Compression, capacity: nat, out: Output, pieces: seq<seq<byte>>)
    requires k.On? && |out.waiting| <= capacity
    ensures var (q, ok) := SendBlock(k, capacity, out, pieces);
            && |q.waiting| <= capacity
            && (ok ==> Sealed(k, B.Taken(out), B.Taken(q), Flatten(pieces)))
            && (!ok ==> Begun(k, B.Taken(out), q.below.received, Flatten(pieces)))
  {
    hide Sealed, Begun, B.WritePieces, B.Flush, B.Taken;
    var b, data := B.Buffer([], out), Flatten(pieces);
    var (q, ok) := B.WritePieces(Over(k, capacity), k.max, b, pieces);
    UpperPieces(k, capacity, k.max, b, pieces);
    assert [] + data == data;
    if ok {
      var x: seq<byte> :| Sealed(k, B.Taken(out), B.Taken(q.below), x) && [] + data == x + q.waiting;
      UpperFlush(k, capacity, q);
      var f := B.Flush(Over(k, capacity), q);
      if f.thrown { SealedThenBegun(k, B.Taken(out), B.Taken(q.below), f.b.below.below.received, x, q.waiting); }
      else { SealedTwice(k, B.Taken(out), B.Taken(q.below), B.Taken(f.b.below), x, q.waiting); }
    }
  }

  /** What is assumed of the codec, for chunks of some data: it inverts itself, and sizes fit. */
  ghost predicate Suited(k: Compression, data: seq<byte>)
    requires k.On?
  {
    && C.Supported(k.methodByte) && C.Faithful(k.codec, k.methodByte)
    && forall c: seq<byte> :: 1 <= |c| <= |data| && (k.max != 0 ==> |c| <= k.max) ==> C.Fits(k.codec, k.methodByte, c)
  }

  lemma {:induction false} PartsAreShorter(parts: seq<seq<byte>>, i: nat)
    requires i < |parts|
    ensures |parts[i]| <= |Flatten(parts)|
  {
    if i != 0 { PartsAreShorter(parts[1..], i - 1); }
  }

  lemma SealedReadsBack(k: Compression, a: seq<byte>, b: seq<byte>, data: seq<byte>)
    requires k.On? && Sealed(k, a, b, data) && Suited(k, data)
    ensures a <= b && C.Plain(k.codec, b[|a|..]) == data
  {
    var p: seq<seq<byte>> :| Flatten(p) == data && CutAt(k.max, p) && Whole(k, p) && b == a + Frames(k, p);
    forall c | c in p ensures C.Fits(k.codec, k.methodByte, c) {
      var i :| 0 <= i < |p| && p[i] == c;
      PartsAreShorter(p, i);
    }
    hide C.Plain, C.Emit, C.Fits, C.Faithful;
    C.FramesRoundTrip(k.codec, k.methodByte, p);
    assert b[|a|..] == Frames(k, p);
  }

  /** A data packet that is sent is received whole, behind all that was taken before it: the header,
      and then the block, as it is or as frames that read back as it. Of one that fails the other end
      has at most the beginning. */
  lemma PacketArrives(k: Compression, capacity: nat, out: Output, header: seq<seq<byte>>, block: seq<seq<byte>>)
    requires |out.waiting| <= capacity && (k.On? ==> Suited(k, Flatten(block)))
    ensures var (q, ok) := SendData(k, capacity, out, header, block);
            var head := B.Taken(out) + Flatten(header);
            && (ok ==>
                  && q.waiting == [] && head <= q.below.received
                  && Flatten(block) == (if k.Off? then q.below.received[|head|..]
                                        else C.Plain(k.codec, q.below.received[|head|..])))
            && (!ok ==> if k.Off? then q.below.received <= head + Flatten(block)
                        else Begun(k, head, q.below.received, Flatten(block)))
  {
    hide Sealed, Begun, B.WritePieces, B.Flush, B.Taken, SendBlock, C.Plain;
    B.PiecesExactly(capacity, out, header);
    var (h, headed) := B.WritePieces(B.SOCKET, capacity, out, header);
    var head, data := B.Taken(out) + Flatten(header), Flatten(block);
    if !headed {
      NothingBegun(k, head, h.below.received, data);
    } else {
      BlockArrives(k, capacity, h, block);
      var (b, sent) := SendBlock(k, capacity, h, block);
      if sent {
        B.FlushDelivers(b);
        var r := B.Flush(B.SOCKET, b).b.below.received;
        if k.On? {
          SealedIsBegun(k, head, B.Taken(b), r, data);
          SealedReadsBack(k, head, B.Taken(b), data);
        }
      }
    }
  }

  lemma NothingBegun(k: Compression, head: seq<byte>, r: seq<byte>, data: seq<byte>)
    requires r <= head
    ensures r <= head + data && (k.On? ==> Begun(k, head, r, data))
  {
    if k.On? {
      SealedNothing(k, head);
      SealedIsBegun(k, head, head, r, []);
      BegunMore(k, head, r, [], data);
    }
  }

  lemma BlockArrives(k: Compression, capacity: nat, h: Output, block: seq<seq<byte>>)
    requires |h.waiting| <= capacity
    ensures var (b, ok) := SendBlock(k, capacity, h, block);
            var data := Flatten(block);
            match k
            case Off => (ok ==> B.Taken(b) == B.Taken(h) + data) && (!ok ==> b.below.received <= B.Taken(h) + data)
            case On(_, _, _) =>
              && (ok ==> Sealed(k, B.Taken(h), B.Taken(b), data))
              && (!ok ==> Begun(k, B.Taken(h), b.below.received, data))
  {
    hide Sealed, Begun;
    if k.On? {
      BlockIsSealed(k, capacity, h, block);
    } else {
      B.SendDelivers(capacity, h, block);
    }
  }
}
