/** That writing succeeds while the socket takes bytes: a message fails only when the socket is used
    up, and a socket that lasts for one more write than the message has bytes is enough. */
module HealthyWrites {
  import opened Bytes
  import opened BufferedWrites
  import C = CompressedStreams
  import K = BlockWrites

  /** A socket that takes at least one byte of every write, for as long as it lasts. */
  predicate Steady(reactions: seq<Reaction>) {
    forall i :: 0 <= i < |reactions| ==> reactions[i].Takes? && 1 <= reactions[i].n
  }

  lemma {:induction false} SteadyDrain(s: Socket, data: seq<byte>)
    requires Steady(s.reactions)
    ensures var d := SocketDrain(s, data);
            Steady(d.below.reactions) && (d.thrown ==> d.below.reactions == [])
    decreases |s.reactions|
  {
    if data != [] && s.reactions != [] {
      var w := SocketWrite(s, data);
      SteadyDrain(w.below, data[w.n..]);
    }
  }

  lemma SteadyFlush(b: Buffer<Socket>)
    requires Steady(b.below.reactions)
    ensures var f := Flush(SOCKET, b);
            Steady(f.b.below.reactions) && (f.thrown ==> f.b.below.reactions == [])
  {
    SteadyDrain(b.below, b.waiting);
    FlushDrains(b);
  }

  lemma SteadyWrite(capacity: nat, b: Buffer<Socket>, data: seq<byte>)
    requires |b.waiting| <= capacity && Steady(b.below.reactions)
    ensures var w := Write(SOCKET, capacity, b, data);
            && Steady(w.b.below.reactions) && (w.thrown ==> w.b.below.reactions == [])
            && (!w.thrown && data != [] ==> 0 < w.n)
  {
    SteadyFlush(b);
  }

  lemma {:induction false} SteadyWriteAll(capacity: nat, b: Buffer<Socket>, data: seq<byte>)
    requires |b.waiting| <= capacity && Steady(b.below.reactions)
    ensures var t := WriteAll(SOCKET, capacity, b, data);
            && Steady(t.b.below.reactions) && !t.r.Short? && (t.r.Thrown? ==> t.b.below.reactions == [])
    decreases |data|
  {
    hide Write;
    SteadyWrite(capacity, b, data);
    WriteExactly(capacity, b, data);
    var w := Write(SOCKET, capacity, b, data);
    if data != [] && !w.thrown && w.n < |data| { SteadyWriteAll(capacity, w.b, data[w.n..]); }
  }

  lemma {:induction false} SteadyPieces(capacity: nat, b: Buffer<Socket>, pieces: seq<seq<byte>>)
    requires |b.waiting| <= capacity && Steady(b.below.reactions)
    ensures var (q, ok) := WritePieces(SOCKET, capacity, b, pieces);
            Steady(q.below.reactions) && (!ok ==> q.below.reactions == [])
    decreases |pieces|
  {
    hide WriteAll;
    if pieces != [] {
      var t := WriteAll(SOCKET, capacity, b, pieces[0]);
      SteadyWriteAll(capacity, b, pieces[0]);
      if t.r.All? { SteadyPieces(capacity, t.b, pieces[1..]); }
    }
  }

  lemma SteadySend(capacity: nat, b: Buffer<Socket>, pieces: seq<seq<byte>>)
    requires |b.waiting| <= capacity && Steady(b.below.reactions)
    ensures var (q, ok) := Send(SOCKET, capacity, b, pieces);
            Steady(q.below.reactions) && (!ok ==> q.below.reactions == [])
  {
    hide WritePieces, Flush;
    SteadyPieces(capacity, b, pieces);
    SteadyFlush(WritePieces(SOCKET, capacity, b, pieces).0);
  }

  //// One reaction, one byte

  /** Every write that a socket has answered has taken at least a byte. */
  predicate Progress(s: Socket, t: Socket) {
    |s.received| + |s.reactions| <= |t.received| + |t.reactions|
  }

  lemma {:induction false} DrainProgress(s: Socket, data: seq<byte>)
    requires Steady(s.reactions)
    ensures Progress(s, SocketDrain(s, data).below)
    decreases |s.reactions|
  {
    if data != [] && s.reactions != [] {
      var w := SocketWrite(s, data);
      DrainProgress(w.below, data[w.n..]);
    }
  }

  lemma FlushProgress(b: Buffer<Socket>)
    requires Steady(b.below.reactions)
    ensures Progress(b.below, Flush(SOCKET, b).b.below)
  {
    DrainProgress(b.below, b.waiting);
    FlushDrains(b);
  }

  lemma {:induction false} WriteAllProgress(capacity: nat, b: Buffer<Socket>, data: seq<byte>)
    requires |b.waiting| <= capacity && Steady(b.below.reactions)
    ensures Progress(b.below, WriteAll(SOCKET, capacity, b, data).b.below)
    decreases |data|
  {
    SteadyWrite(capacity, b, data);
    WriteExactly(capacity, b, data);
    if data != [] { WriteProgress(capacity, b, data); }
    hide Write;
    var w := Write(SOCKET, capacity, b, data);
    if data != [] && !w.thrown && w.n < |data| { WriteAllProgress(capacity, w.b, data[w.n..]); }
  }

  lemma WriteProgress(capacity: nat, b: Buffer<Socket>, data: seq<byte>)
    requires |b.waiting| <= capacity && Steady(b.below.reactions) && data != []
    ensures Progress(b.below, Write(SOCKET, capacity, b, data).b.below)
  {
    FlushProgress(b);
    SteadyFlush(b);
  }

  lemma {:induction false} PiecesProgress(capacity: nat, b: Buffer<Socket>, pieces: seq<seq<byte>>)
    requires |b.waiting| <= capacity && Steady(b.below.reactions)
    ensures Progress(b.below, WritePieces(SOCKET, capacity, b, pieces).0.below)
    decreases |pieces|
  {
    hide WriteAll;
    if pieces != [] {
      SteadyWriteAll(capacity, b, pieces[0]);
      WriteAllProgress(capacity, b, pieces[0]);
      var t := WriteAll(SOCKET, capacity, b, pieces[0]);
      if t.r.All? { PiecesProgress(capacity, t.b, pieces[1..]); }
    }
  }

  /** So a message is sent if the socket lasts for more writes than there are bytes to send. */
  lemma SendSucceeds(capacity: nat, b: Buffer<Socket>, pieces: seq<seq<byte>>)
    requires |b.waiting| <= capacity && Steady(b.below.reactions)
    requires |b.waiting| + |Flatten(pieces)| < |b.below.reactions|
    ensures Send(SOCKET, capacity, b, pieces).1
  {
    hide WritePieces, Flush;
    SteadySend(capacity, b, pieces);
    SteadyPieces(capacity, b, pieces);
    PiecesProgress(capacity, b, pieces);
    FlushProgress(WritePieces(SOCKET, capacity, b, pieces).0);
    SendDelivers(capacity, b, pieces);
  }

  //// Compressed data

  lemma SteadyChunk(codec: C.Codec, methodByte: byte, capacity: nat, b: Buffer<Socket>, chunk: seq<byte>)
    requires |b.waiting| <= capacity && Steady(b.below.reactions)
    ensures var c := C.CompressChunk(codec, methodByte, capacity, b, chunk);
            Steady(c.b.below.reactions) && (c.r == C.NotDelivered ==> c.b.below.reactions == [])
  {
    hide WriteAll, Flush, C.Body;
    var payload := C.AlgorithmOf(codec, methodByte).compress(chunk);
    if payload.Some? {
      var body := C.Body(methodByte, |chunk|, payload.value);
      SteadyWriteAll(capacity, b, codec.hash(body));
      var first := WriteAll(SOCKET, capacity, b, codec.hash(body));
      SteadyWriteAll(capacity, first.b, body);
      SteadyFlush(WriteAll(SOCKET, capacity, first.b, body).b);
    }
  }

  lemma {:induction false} SteadyChunks(codec: C.Codec, methodByte: byte, max: nat, capacity: nat, b: Buffer<Socket>, data: seq<byte>)
    requires |b.waiting| <= capacity && Steady(b.below.reactions)
    ensures var c := C.CompressAll(codec, methodByte, max, capacity, b, data);
            Steady(c.b.below.reactions) && (c.r == C.NotDelivered ==> c.b.below.reactions == [])
    decreases |data|
  {
    hide C.CompressChunk;
    if data != [] {
      var n := if 0 < max < |data| then max else |data|;
      SteadyChunk(codec, methodByte, capacity, b, data[..n]);
      var c := C.CompressChunk(codec, methodByte, capacity, b, data[..n]);
      if c.r == C.Written { SteadyChunks(codec, methodByte, max, capacity, c.b, data[n..]); }
    }
  }

  /** The algorithm in use never fails. */
  ghost predicate Compresses(k: K.Compression)
    requires k.On?
  {
    forall d :: C.AlgorithmOf(k.codec, k.methodByte).compress(d).Some?
  }

  lemma {:induction false} NeverFails(k: K.Compression, capacity: nat, b: Buffer<Socket>, data: seq<byte>)
    requires k.On? && Compresses(k)
    ensures C.CompressAll(k.codec, k.methodByte, k.max, capacity, b, data).r != C.NotCompressed
    decreases |data|
  {
    hide WriteAll, Flush;
    if data != [] {
      var n := if 0 < k.max < |data| then k.max else |data|;
      assert C.AlgorithmOf(k.codec, k.methodByte).compress(data[..n]).Some?;
      var c := C.CompressChunk(k.codec, k.methodByte, capacity, b, data[..n]);
      if c.r == C.Written { NeverFails(k, capacity, c.b, data[n..]); }
    }
  }

  /** The upper buffer over a steady socket fails only when that is used up. */
  ghost predicate Sturdy(b: K.Output, q: K.Output, failed: bool) {
    Steady(q.below.reactions) && (failed ==> q.below.reactions == [])
  }

  lemma UpperWriteIsSteady(k: K.Compression, capacity: nat, size: nat, b: Buffer<K.Output>, data: seq<byte>)
    requires k.On? && Compresses(k) && |b.below.waiting| <= capacity && Steady(b.below.below.reactions)
    ensures var w := Write(K.Over(k, capacity), size, b, data);
            Sturdy(b.below, w.b.below, w.thrown)
  {
    hide C.CompressAll;
    UpperFlushIsSteady(k, capacity, b);
    var f := Flush(K.Over(k, capacity), b);
    hide Flush;
    if |data| > size - |b.waiting| && !f.thrown && |data| > size / 2 {
      SteadyChunks(k.codec, k.methodByte, k.max, capacity, f.b.below, data);
      NeverFails(k, capacity, f.b.below, data);
    }
  }

  lemma UpperFlushIsSteady(k: K.Compression, capacity: nat, b: Buffer<K.Output>)
    requires k.On? && Compresses(k) && |b.below.waiting| <= capacity && Steady(b.below.below.reactions)
    ensures var f := Flush(K.Over(k, capacity), b);
            Sturdy(b.below, f.b.below, f.thrown) && |f.b.below.waiting| <= capacity
  {
    hide C.CompressAll;
    if b.waiting != [] {
      var c := C.CompressAll(k.codec, k.methodByte, k.max, capacity, b.below, b.waiting);
      SteadyChunks(k.codec, k.methodByte, k.max, capacity, b.below, b.waiting);
      NeverFails(k, capacity, b.below, b.waiting);
      SteadyFlush(c.b);
      K.FlushKeepsBound(c.b);
      assert K.Over(k, capacity).drain(b.below, b.waiting) == K.Drained(k, capacity, b.below, b.waiting);
      hide Flush;
    }
  }

  lemma {:induction false} UpperPiecesAreSteady(k: K.Compression, capacity: nat, b: Buffer<K.Output>, pieces: seq<seq<byte>>)
    requires k.On? && Compresses(k)
    requires |b.below.waiting| <= capacity && |b.waiting| <= k.max && Steady(b.below.below.reactions)
    ensures var (q, ok) := WritePieces(K.Over(k, capacity), k.max, b, pieces);
            Sturdy(b.below, q.below, !ok) && |q.below.waiting| <= capacity
    decreases |pieces|
  {
    hide Write, Steady, Compresses;
    if pieces != [] {
      K.UpperWriteAll(k, capacity, k.max, b, pieces[0]);
      K.UpperWrite(k, capacity, k.max, b, pieces[0]);
      UpperWriteIsSteady(k, capacity, k.max, b, pieces[0]);
      var t := WriteAll(K.Over(k, capacity), k.max, b, pieces[0]);
      if t.r.All? { UpperPiecesAreSteady(k, capacity, t.b, pieces[1..]); }
    }
  }

  /** A data packet, compressed or not, is sent unless the socket is used up: as long as the socket
      takes bytes and the algorithm does not fail, nothing stands in its way. */
  lemma PacketIsSent(k: K.Compression, capacity: nat, out: K.Output, header: seq<seq<byte>>, block: seq<seq<byte>>)
    requires |out.waiting| <= capacity && Steady(out.below.reactions) && (k.On? ==> Compresses(k))
    ensures var (q, ok) := K.SendData(k, capacity, out, header, block); ok || q.below.reactions == []
  {
    hide WritePieces, Flush, Steady, Compresses;
    SteadyPieces(capacity, out, header);
    var (h, headed) := WritePieces(SOCKET, capacity, out, header);
    if headed {
      BlockIsSent(k, capacity, h, block);
      SteadyFlush(K.SendBlock(k, capacity, h, block).0);
    }
  }

  lemma BlockIsSent(k: K.Compression, capacity: nat, h: K.Output, block: seq<seq<byte>>)
    requires |h.waiting| <= capacity && Steady(h.below.reactions) && (k.On? ==> Compresses(k))
    ensures var (q, ok) := K.SendBlock(k, capacity, h, block);
            Steady(q.below.reactions) && (ok || q.below.reactions == [])
  {
    hide WritePieces, Flush, Compresses, Steady;
    if k.On? {
      var b := Buffer([], h);
      UpperPiecesAreSteady(k, capacity, b, block);
      UpperFlushIsSteady(k, capacity, WritePieces(K.Over(k, capacity), k.max, b, block).0);
    } else {
      SteadySend(capacity, h, block);
    }
  }
}
