/** The compressed stream: data cut into chunks, each sealed in a frame with sizes and a hash. The
    compression algorithms and the hash are parameters. */
module CompressedStreams {
  import opened Bytes
  import opened WireFormat
  import B = BufferedWrites
  import O = OutputStreams

  const HASH_SIZE: nat := 16
  const HEADER_SIZE: nat := 9
  const MAX_COMPRESSED_SIZE: nat := 0x4000_0000
  const TWO_32: nat := 0x1_0000_0000

  const LZ4: byte := 0x82
  const ZSTD: byte := 0x90

  /** A failed compression or decompression is None. */
  datatype Algorithm = Algorithm(compress: seq<byte> -> Option<seq<byte>>,
                                 decompress: (seq<byte>, nat) -> Option<seq<byte>>)

  datatype Codec = Codec(lz4: Algorithm, zstd: Algorithm, hash: seq<byte> -> seq<byte>)

  predicate Supported(methodByte: byte) {
    methodByte == LZ4 || methodByte == ZSTD
  }

  function AlgorithmOf(codec: Codec, methodByte: byte): Algorithm {
    if methodByte == LZ4 then codec.lz4 else codec.zstd
  }

  ghost predicate Inverts(a: Algorithm) {
    forall d, p :: a.compress(d) == Some(p) ==> a.decompress(p, |d|) == Some(d)
  }

  /** What is assumed of the parameters: the decompression of the method in use inverts its own
      compression, hashes have 16 bytes. */
  ghost predicate Faithful(codec: Codec, methodByte: byte) {
    && (methodByte == LZ4 ==> Inverts(codec.lz4)) && (methodByte == ZSTD ==> Inverts(codec.zstd))
    && (forall b :: |codec.hash(b)| == HASH_SIZE)
  }

  //// Writing

  /** The chunks of one write; a maximum of zero means no maximum. */
  function Chunks(data: seq<byte>, max: nat): seq<seq<byte>> {
    if data == [] then []
    else
      var n := if 0 < max < |data| then max else |data|;
      [data[..n]] + Chunks(data[n..], max)
  }

  /** The chunks are the data, cut into pieces of 1 to max bytes. */
  lemma {:induction false} ChunksPartition(data: seq<byte>, max: nat)
    ensures Flatten(Chunks(data, max)) == data
    ensures forall c :: c in Chunks(data, max) ==> 1 <= |c| && (max != 0 ==> |c| <= max)
  {
    if data != [] {
      var n := if 0 < max < |data| then max else |data|;
      ChunksPartition(data[n..], max);
      assert Chunks(data, max)[1..] == Chunks(data[n..], max);
      assert data == data[..n] + data[n..];
    }
  }

  /** Header and payload; the sizes are 32 bits wide. */
  function Body(methodByte: byte, originalSize: nat, payload: seq<byte>): seq<byte> {
    [methodByte] + (Fixed(4, |payload| + HEADER_SIZE) + (Fixed(4, originalSize) + payload))
  }

  function Frame(codec: Codec, methodByte: byte, chunk: seq<byte>): Option<seq<byte>> {
    match AlgorithmOf(codec, methodByte).compress(chunk)
    case None => None
    case Some(payload) =>
      var body := Body(methodByte, |chunk|, payload);
      Some(codec.hash(body) + body)
  }

  /** The frames of the chunks up to the first failure, and whether there was none. */
  function Emit(codec: Codec, methodByte: byte, chunks: seq<seq<byte>>): (seq<byte>, bool) {
    if chunks == [] then ([], true)
    else
      match Frame(codec, methodByte, chunks[0])
      case None => ([], false)
      case Some(frame) =>
        var (rest, ok) := Emit(codec, methodByte, chunks[1..]);
        (frame + rest, ok)
  }

  /** How a write ends: NotCompressed and NotDelivered are exceptions, of the algorithm and of the
      destination. */
  datatype Outcome = Written | NotCompressed | NotDelivered

  /** A stream below and what has become of a write of compressed data to it. */
  datatype Compressed = Compressed(b: B.Buffer<B.Socket>, written: nat, r: Outcome)

  /** The hash, the body, and a flush. */
  function CompressChunk(codec: Codec, methodByte: byte, capacity: nat, b: B.Buffer<B.Socket>, chunk: seq<byte>): (c: Compressed)
    ensures |b.waiting| <= capacity ==> |c.b.waiting| <= capacity
  {
    match AlgorithmOf(codec, methodByte).compress(chunk)
    case None => Compressed(b, 0, NotCompressed)
    case Some(payload) =>
      var body := Body(methodByte, |chunk|, payload);
      var first := B.WriteAll(B.SOCKET, capacity, b, codec.hash(body));
      if !first.r.All? then Compressed(first.b, 0, NotDelivered)
      else
        var second := B.WriteAll(B.SOCKET, capacity, first.b, body);
        if !second.r.All? then Compressed(second.b, 0, NotDelivered)
        else
          var f := B.Flush(B.SOCKET, second.b);
          Compressed(f.b, if f.thrown then 0 else |chunk|, if f.thrown then NotDelivered else Written)
  }

  /** Chunk by chunk up to the first exception. */
  function CompressAll(codec: Codec, methodByte: byte, max: nat, capacity: nat, b: B.Buffer<B.Socket>, data: seq<byte>): (c: Compressed)
    ensures |b.waiting| <= capacity ==> |c.b.waiting| <= capacity
    decreases |data|
  {
    if data == [] then Compressed(b, 0, Written)
    else
      var n := if 0 < max < |data| then max else |data|;
      var c := CompressChunk(codec, methodByte, capacity, b, data[..n]);
      if c.r != Written then c
      else
        var later := CompressAll(codec, methodByte, max, capacity, c.b, data[n..]);
        later.(written := n + later.written)
  }

  /** A chunk that is written is received as its frame, behind all that was taken before; of one that
      is not delivered the other end has at most the beginning. */
  lemma ChunkExactly(codec: Codec, methodByte: byte, capacity: nat, b: B.Buffer<B.Socket>, chunk: seq<byte>)
    requires |b.waiting| <= capacity
    ensures var c := CompressChunk(codec, methodByte, capacity, b, chunk);
            match Frame(codec, methodByte, chunk)
            case None => c == Compressed(b, 0, NotCompressed)
            case Some(frame) =>
              && (c.r == Written || c.r == NotDelivered) && c.written == (if c.r == Written then |chunk| else 0)
              && (c.r == Written ==> c.b.waiting == [] && c.b.below.received == B.Taken(b) + frame)
              && c.b.below.received <= B.Taken(b) + frame
  {
    hide B.WriteAll, B.Flush, Body;
    var compressed := AlgorithmOf(codec, methodByte).compress(chunk);
    if compressed.Some? {
      var body := Body(methodByte, |chunk|, compressed.value);
      var hash := codec.hash(body);
      Assoc(B.Taken(b), hash, body);
      var first := B.WriteAll(B.SOCKET, capacity, b, hash);
      B.WriteAllExactly(capacity, b, hash);
      var second := B.WriteAll(B.SOCKET, capacity, first.b, body);
      B.WriteAllExactly(capacity, first.b, body);
      if first.r.All? && second.r.All? { B.FlushDelivers(second.b); }
    }
  }

  /** Without an exception all the data is taken as its frames; a chunk that cannot be compressed
      leaves the frames before it; of what is not delivered the other end has the beginning. */
  lemma {:induction false} FramesExactly(codec: Codec, methodByte: byte, max: nat, capacity: nat, b: B.Buffer<B.Socket>, data: seq<byte>)
    requires |b.waiting| <= capacity
    ensures var c := CompressAll(codec, methodByte, max, capacity, b, data);
            var (frames, ok) := Emit(codec, methodByte, Chunks(data, max));
            && (c.r == Written ==> ok && c.written == |data| && B.Taken(c.b) == B.Taken(b) + frames)
            && (c.r == Written && data != [] ==> c.b.waiting == [])
            && (c.r == NotCompressed ==> !ok && B.Taken(c.b) == B.Taken(b) + frames)
            && c.b.below.received <= B.Taken(b) + frames
    decreases |data|
  {
    hide Frame, CompressChunk;
    if data == [] {
      assert B.Taken(b) + [] == B.Taken(b);
    } else {
      var n := if 0 < max < |data| then max else |data|;
      var c := CompressChunk(codec, methodByte, capacity, b, data[..n]);
      ChunkExactly(codec, methodByte, capacity, b, data[..n]);
      assert Chunks(data, max)[1..] == Chunks(data[n..], max);
      if c.r == Written {
        var frame := Frame(codec, methodByte, data[..n]).value;
        FramesExactly(codec, methodByte, max, capacity, c.b, data[n..]);
        Assoc(B.Taken(b), frame, Emit(codec, methodByte, Chunks(data[n..], max)).0);
        assert B.Taken(c.b) == c.b.below.received;
      } else if c.r == NotDelivered {
        var frame := Frame(codec, methodByte, data[..n]).value;
        Assoc(B.Taken(b), frame, Emit(codec, methodByte, Chunks(data[n..], max)).0);
      } else {
        assert B.Taken(b) + [] == B.Taken(b);
      }
    }
  }

  class CompressedOutput {
    const codec: Codec
    const max: nat
    const methodByte: byte
    const destination: O.BufferedOutput

    ghost predicate Valid()
      reads destination, destination.window
    {
      destination.Valid()
    }

    ghost function Now(): B.Buffer<B.Socket>
      requires Valid()
      reads destination, destination.window, destination.buffer, destination.destination
    {
      destination.Now()
    }

    constructor (codec: Codec, max: nat, methodByte: byte, destination: O.BufferedOutput)
      requires destination.Valid()
      ensures Valid() && this.codec == codec && this.max == max && this.methodByte == methodByte
      ensures this.destination == destination
    {
      this.codec, this.max, this.methodByte, this.destination := codec, max, methodByte, destination;
    }

    /** One frame. An exception of the destination leaves what its writes and its flush have left. */
    method Compress(chunk: seq<byte>) returns (r: Outcome)
      requires Valid()
      modifies destination.destination, destination.window`pos, destination.buffer
      ensures Valid()
      ensures Compressed(Now(), if r == Written then |chunk| else 0, r)
           == CompressChunk(codec, methodByte, destination.buffer.Length, old(Now()), chunk)
    {
      hide B.WriteAll, B.Flush, Body;
      var payload := AlgorithmOf(codec, methodByte).compress(chunk);
      if payload.None? {
        return NotCompressed;
      }
      var body := Body(methodByte, |chunk|, payload.value);
      var hash := codec.hash(body);
      var sent := O.WriteAll(destination, hash);
      if !sent.All? {
        return NotDelivered;
      }
      sent := O.WriteAll(destination, body);
      if !sent.All? {
        return NotDelivered;
      }
      var thrown := destination.Flush();
      r := if thrown then NotDelivered else Written;
    }

    /** One frame per chunk. */
    method Write(data: seq<byte>) returns (written: nat, r: Outcome)
      requires Valid()
      modifies destination.destination, destination.window`pos, destination.buffer
      ensures Valid()
      ensures Compressed(Now(), written, r) == CompressAll(codec, methodByte, max, destination.buffer.Length, old(Now()), data)
    {
      hide CompressChunk;
      var maxChunk := if max > 0 then max else |data|;
      var from := 0;
      ghost var goal := CompressAll(codec, methodByte, max, destination.buffer.Length, Now(), data);
      assert data[0..] == data;
      while from < |data|
        invariant 0 <= from <= |data| && Valid()
        invariant max == 0 ==> from == 0 || from == |data|
        invariant Behind(from, CompressAll(codec, methodByte, max, destination.buffer.Length, Now(), data[from..])) == goal
      {
        var n := if |data| - from <= maxChunk then |data| - from else maxChunk;
        ghost var rest := data[from..];
        assert rest[..n] == data[from..from + n] && rest[n..] == data[from + n..];
        r := Compress(data[from..from + n]);
        if r != Written {
          return from, r;
        }
        from := from + n;
      }
      written, r := |data|, Written;
    }
  }

  ghost function Behind(from: nat, c: Compressed): Compressed {
    c.(written := from + c.written)
  }

  //// Reading

  datatype Problem = UnsupportedMethod | TooBig | BadHash | CannotDecompress

  /** What reading one frame comes to, with what is left of the input: an input that ends inside a
      frame is used up, an exception leaves what is behind the bytes read. Undefined: the header's
      size is smaller than the header, and the program has no defined behaviour. */
  datatype FrameRead =
    | Whole(data: seq<byte>, rest: seq<byte>)
    | Ended
    | Thrown(problem: Problem, rest: seq<byte>)
    | Undefined

  function RestOf(r: FrameRead): seq<byte> {
    if r.Whole? || r.Thrown? then r.rest else []
  }

  /** The decompressed bytes in a zeroed buffer of the original size. */
  function InBuffer(out: seq<byte>, size: nat): seq<byte> {
    if size <= |out| then out[..size] else out + seq(size - |out|, _ => 0)
  }

  function ReadPayload(codec: Codec, hash: seq<byte>, methodByte: byte, compressed: nat, original: nat,
                       input: seq<byte>): (r: FrameRead)
    ensures |RestOf(r)| <= |input|
  {
    if compressed > MAX_COMPRESSED_SIZE then Thrown(TooBig, input)
    else if compressed < HEADER_SIZE then Undefined
    else
      match ReadBytes(input, compressed - HEADER_SIZE)
      case None => Ended
      case Some(Read(payload, rest)) =>
        if hash != codec.hash(Body(methodByte, original, payload)) then Thrown(BadHash, rest)
        else
          match AlgorithmOf(codec, methodByte).decompress(payload, original)
          case None => Thrown(CannotDecompress, rest)
          case Some(out) => Whole(InBuffer(out, original), rest)
  }

  function ReadBody(codec: Codec, hash: seq<byte>, input: seq<byte>): (r: FrameRead)
    ensures r.Whole? || r.Thrown? ==> |r.rest| < |input|
  {
    if input == [] then Ended
    else if !Supported(input[0]) then Thrown(UnsupportedMethod, input[1..])
    else
      match ReadFixed(input[1..], 4)
      case None => Ended
      case Some(Read(compressed, afterSize)) =>
        match ReadFixed(afterSize, 4)
        case None => Ended
        case Some(Read(original, afterSizes)) =>
          ReadPayload(codec, hash, input[0], compressed, original, afterSizes)
  }

  function ReadFrame(codec: Codec, input: seq<byte>): (r: FrameRead)
    ensures r.Whole? || r.Thrown? ==> |r.rest| < |input|
  {
    match ReadBytes(input, HASH_SIZE)
    case None => Ended
    case Some(Read(hash, body)) => ReadBody(codec, hash, body)
  }

  /** The plain bytes behind the frames of an input, up to its end or the first bad frame. */
  function Plain(codec: Codec, input: seq<byte>): seq<byte>
    decreases |input|
  {
    match ReadFrame(codec, input)
    case Whole(data, rest) => data + Plain(codec, rest)
    case _ => []
  }

  predicate Fits(codec: Codec, methodByte: byte, chunk: seq<byte>) {
    |chunk| < TWO_32 &&
    match AlgorithmOf(codec, methodByte).compress(chunk)
    case None => true
    case Some(payload) => |payload| + HEADER_SIZE <= MAX_COMPRESSED_SIZE
  }

  lemma Pow256Of4()
    ensures Pow256(4) == TWO_32
  {
  }

  lemma HeaderRoundTrip(codec: Codec, hash: seq<byte>, methodByte: byte, original: nat, payload: seq<byte>, rest: seq<byte>)
    requires Supported(methodByte) && original < TWO_32 && |payload| + HEADER_SIZE < TWO_32
    ensures ReadBody(codec, hash, Body(methodByte, original, payload) + rest)
         == ReadPayload(codec, hash, methodByte, |payload| + HEADER_SIZE, original, payload + rest)
  {
    hide Fixed, FixedValue, Pow256, ReadFixed, ReadPayload;
    var sizes := Fixed(4, original) + payload;
    var input := Body(methodByte, original, payload) + rest;
    Pow256Of4();
    assert input[1..] == Fixed(4, |payload| + HEADER_SIZE) + (sizes + rest);
    FixedRoundTrip(4, |payload| + HEADER_SIZE, sizes + rest);
    Assoc(Fixed(4, original), payload, rest);
    FixedRoundTrip(4, original, payload + rest);
  }

  /** A frame is read back as its chunk, and nothing after it is touched. */
  lemma FrameRoundTrip(codec: Codec, methodByte: byte, chunk: seq<byte>, rest: seq<byte>)
    requires Supported(methodByte) && Faithful(codec, methodByte) && Fits(codec, methodByte, chunk)
    requires Frame(codec, methodByte, chunk).Some?
    ensures ReadFrame(codec, Frame(codec, methodByte, chunk).value + rest) == Whole(chunk, rest)
  {
    hide Fixed, Body, ReadBody;
    var payload := AlgorithmOf(codec, methodByte).compress(chunk).value;
    var body := Body(methodByte, |chunk|, payload);
    var hash := codec.hash(body);
    Assoc(hash, body, rest);
    BytesRoundTrip(hash, body + rest);
    HeaderRoundTrip(codec, hash, methodByte, |chunk|, payload, rest);
    BytesRoundTrip(payload, rest);
  }

  /** Writing and reading back gives the same bytes, however the write is cut. */
  lemma {:induction false} FramesRoundTrip(codec: Codec, methodByte: byte, chunks: seq<seq<byte>>)
    requires Supported(methodByte) && Faithful(codec, methodByte)
    requires forall c :: c in chunks ==> Fits(codec, methodByte, c)
    requires Emit(codec, methodByte, chunks).1
    ensures Plain(codec, Emit(codec, methodByte, chunks).0) == Flatten(chunks)
  {
    hide Frame, ReadFrame, Faithful, Fits;
    if chunks == [] {
      assert ReadFrame(codec, []) == Ended by { NothingToRead(codec); }
    } else {
      var later := Emit(codec, methodByte, chunks[1..]).0;
      FramesRoundTrip(codec, methodByte, chunks[1..]);
      FrameRoundTrip(codec, methodByte, chunks[0], later);
    }
  }

  lemma NothingToRead(codec: Codec)
    ensures ReadFrame(codec, []) == Ended
  {
  }

  lemma CompressedRoundTrip(codec: Codec, methodByte: byte, data: seq<byte>, max: nat)
    requires Supported(methodByte) && Faithful(codec, methodByte)
    requires forall c :: c in Chunks(data, max) ==> Fits(codec, methodByte, c)
    requires Emit(codec, methodByte, Chunks(data, max)).1
    ensures Plain(codec, Emit(codec, methodByte, Chunks(data, max)).0) == data
  {
    ChunksPartition(data, max);
    FramesRoundTrip(codec, methodByte, Chunks(data, max));
  }

  lemma {:induction false} FixedOfValue(bytes: seq<byte>)
    ensures Fixed(|bytes|, FixedValue(bytes)) == bytes
  {
    if bytes != [] {
      var v := FixedValue(bytes[1..]);
      FixedOfValue(bytes[1..]);
      assert bytes == [bytes[0]] + bytes[1..];
      assert (bytes[0] + 256 * v) % 256 == bytes[0] && (bytes[0] + 256 * v) / 256 == v;
    }
  }

  /** What is accepted was sealed: the input begins with a hash, followed by exactly the body it is
      the hash of. */
  lemma AcceptedFrameIsSealed(codec: Codec, input: seq<byte>)
    requires ReadFrame(codec, input).Whole?
    ensures var rest := ReadFrame(codec, input).rest;
            && HASH_SIZE + HEADER_SIZE + |rest| <= |input|
            && var body := input[HASH_SIZE..|input| - |rest|];
            && input == codec.hash(body) + body + rest
            && Supported(body[0]) && FixedValue(body[1..5]) == |body|
            && |ReadFrame(codec, input).data| == FixedValue(body[5..9])
  {
    hide Fixed, FixedValue;
    var rest, after := ReadFrame(codec, input).rest, input[HASH_SIZE..];
    var compressed, original := FixedValue(after[1..][..4]), FixedValue(after[1..][4..][..4]);
    var payload := after[1..][4..][4..][..compressed - HEADER_SIZE];
    FixedOfValue(after[1..][..4]);
    FixedOfValue(after[1..][4..][..4]);
    var body := Body(after[0], original, payload);
    assert after == body + rest by { Reassembled(after, compressed - HEADER_SIZE); }
    assert input == codec.hash(body) + after;
    Assoc(codec.hash(body), body, rest);
    assert input[HASH_SIZE..|input| - |rest|] == body;
    assert body[1..5] == after[1..][..4] && body[5..9] == after[1..][4..][..4];
  }

  lemma Reassembled(s: seq<byte>, n: nat)
    requires 9 + n <= |s|
    ensures s == [s[0]] + (s[1..][..4] + (s[1..][4..][..4] + s[1..][4..][4..][..n])) + s[1..][4..][4..][n..]
  {
    var a, b := s[1..], s[1..][4..];
    assert s == [s[0]] + a && a == a[..4] + b && b == b[..4] + b[4..] && b[4..] == b[4..][..n] + b[4..][n..];
  }

  /** A frame whose hash does not match is read to its end: the next read opens the frame behind it. */
  lemma BadFrameIsPassed(codec: Codec, hash: seq<byte>, methodByte: byte, original: nat, payload: seq<byte>, rest: seq<byte>)
    requires |hash| == HASH_SIZE && Supported(methodByte)
    requires original < TWO_32 && |payload| + HEADER_SIZE <= MAX_COMPRESSED_SIZE
    ensures var body := Body(methodByte, original, payload);
            hash != codec.hash(body) ==> ReadFrame(codec, hash + (body + rest)) == Thrown(BadHash, rest)
  {
    hide Fixed, Body, ReadBody;
    var body := Body(methodByte, original, payload);
    BytesRoundTrip(hash, body + rest);
    HeaderRoundTrip(codec, hash, methodByte, original, payload, rest);
    BytesRoundTrip(payload, rest);
  }

  /** What a reader meets in an input: the data of the good frames, and the bad ones. */
  datatype Item = Good(data: seq<byte>) | Bad(problem: Problem)

  function Items(codec: Codec, input: seq<byte>): seq<Item>
    decreases |input|
  {
    match ReadFrame(codec, input)
    case Whole(data, rest) => [Good(data)] + Items(codec, rest)
    case Thrown(problem, rest) => [Bad(problem)] + Items(codec, rest)
    case _ => []
  }

  function GoodPrefix(items: seq<Item>): seq<byte> {
    if items == [] || items[0].Bad? then [] else items[0].data + GoodPrefix(items[1..])
  }

  /** The plain bytes are the data of the frames before the first bad one. */
  lemma {:induction false} PlainIsGoodPrefix(codec: Codec, input: seq<byte>)
    ensures Plain(codec, input) == GoodPrefix(Items(codec, input))
    decreases |input|
  {
    hide ReadFrame;
    var r := ReadFrame(codec, input);
    if r.Whole? {
      PlainIsGoodPrefix(codec, r.rest);
      assert Items(codec, input)[1..] == Items(codec, r.rest);
    }
  }

  /** How a call of the reader ends: AtEnd is the value zero or false, Failed an exception. */
  datatype ReadOutcome = Given | AtEnd | Failed(problem: Problem)

  /** The plain bytes that can be read before the first frame that is bad or has no data. */
  function Flowing(codec: Codec, input: seq<byte>): seq<byte>
    decreases |input|
  {
    match ReadFrame(codec, input)
    case Whole(data, rest) => if data == [] then [] else data + Flowing(codec, rest)
    case _ => []
  }

  /** How the read ends that gets no more: with nothing of a frame without data, at the end of the input,
      or with an exception. */
  function StopOf(codec: Codec, input: seq<byte>): ReadOutcome
    decreases |input|
  {
    match ReadFrame(codec, input)
    case Whole(data, rest) => if data == [] then Given else StopOf(codec, rest)
    case Thrown(problem, _) => Failed(problem)
    case _ => AtEnd
  }

  /** All bytes flow, unless a frame without data is in their way. */
  lemma {:induction false} FlowingIsPlain(codec: Codec, input: seq<byte>)
    ensures Flowing(codec, input) <= Plain(codec, input)
    ensures StopOf(codec, input) != Given ==> Flowing(codec, input) == Plain(codec, input)
    decreases |input|
  {
    hide ReadFrame;
    var r := ReadFrame(codec, input);
    if r.Whole? { FlowingIsPlain(codec, r.rest); }
  }

  /** Frames of chunks, none of them empty, flow to their last byte, and then the input is at its end. */
  lemma {:induction false} FramesFlow(codec: Codec, methodByte: byte, chunks: seq<seq<byte>>)
    requires Supported(methodByte) && Faithful(codec, methodByte)
    requires forall c :: c in chunks ==> Fits(codec, methodByte, c) && c != []
    requires Emit(codec, methodByte, chunks).1
    ensures Flowing(codec, Emit(codec, methodByte, chunks).0) == Flatten(chunks)
    ensures StopOf(codec, Emit(codec, methodByte, chunks).0) == AtEnd
  {
    hide Frame, ReadFrame, Faithful, Fits;
    if chunks == [] {
      assert ReadFrame(codec, []) == Ended by { NothingToRead(codec); }
    } else {
      var later := Emit(codec, methodByte, chunks[1..]).0;
      FramesFlow(codec, methodByte, chunks[1..]);
      FrameRoundTrip(codec, methodByte, chunks[0], later);
    }
  }

  /** The reader: a window of the current frame's bytes, refilled frame by frame. */
  class CompressedInput {
    const codec: Codec
    var input: seq<byte>
    var data: seq<byte>
    var at: nat

    ghost predicate Valid()
      reads this
    {
      at <= |data|
    }

    /** The plain bytes still to be read before the first bad frame. */
    ghost function Pending(): seq<byte>
      requires Valid()
      reads this
    {
      data[at..] + Plain(codec, input)
    }

    /** Those that reads give before one gives nothing. */
    ghost function Available(): seq<byte>
      requires Valid()
      reads this
    {
      data[at..] + Flowing(codec, input)
    }

    constructor (codec: Codec, input: seq<byte>)
      ensures Valid() && this.codec == codec && this.input == input
      ensures Pending() == Plain(codec, input) && Available() == Flowing(codec, input)
    {
      this.codec, this.input, data, at := codec, input, [], 0;
      new;
      assert data[at..] == [];
    }

    /** Opens the next frame, or fails having consumed what it read of it. */
    method Decompress() returns (r: ReadOutcome)
      requires Valid() && at == |data|
      modifies this
      ensures Valid()
      ensures match ReadFrame(codec, old(input))
              case Whole(d, rest) => r == Given && data == d && at == 0 && input == rest
              case Thrown(problem, rest) => r == Failed(problem) && data == old(data) && at == |data| && input == rest
              case _ => r == AtEnd && data == old(data) && at == |data| && input == []
      ensures r == Given ==> Pending() == old(Pending())
      ensures r != Given ==> old(Pending()) == []
    {
      assert data[at..] == [];
      match ReadFrame(codec, input)
      case Whole(d, rest) =>
        data, at, input, r := d, 0, rest, Given;
        assert data[at..] == d;
      case Thrown(problem, rest) =>
        input, r := rest, Failed(problem);
      case _ =>
        input, r := [], AtEnd;
    }

    /** The next plain bytes: as many of the current frame's, or else of the next one's, as are asked for.
        The call fails exactly if it has to open a frame that cannot be opened; then no plain byte was
        pending, and the reader stands behind what it has read of that frame. */
    method Next(len: nat) returns (bytes: seq<byte>, r: ReadOutcome)
      requires Valid()
      modifies this
      ensures Valid()
      ensures old(at) < |old(data)| ==>
                r == Given && bytes == old(data[at..])[..B.Least(len, |old(data)| - old(at))] && input == old(input)
      ensures old(at) == |old(data)| ==>
                match ReadFrame(codec, old(input))
                case Whole(d, rest) => r == Given && bytes == d[..B.Least(len, |d|)] && input == rest
                case Thrown(problem, rest) => r == Failed(problem) && bytes == [] && input == rest
                case _ => r == AtEnd && bytes == [] && input == []
      ensures r == Given ==> old(Pending()) == bytes + Pending()
      ensures r == Given && bytes != [] ==> old(Available()) == bytes + Available() && StopOf(codec, input) == old(StopOf(codec, input))
      ensures r != Given ==> old(Pending()) == [] && at == |data|
    {
      hide Plain, ReadFrame, Flowing, StopOf;
      r := Given;
      ghost var first := input;
      if at == |data| {
        assert data[at..] == [];
        r := Decompress();
        OpensFrame(codec, first);
        assert data[0..] == data;
        if r != Given {
          return [], r;
        }
      }
      bytes := TakeWindow(len);
    }

    /** The next bytes of the window. */
    method TakeWindow(len: nat) returns (bytes: seq<byte>)
      requires Valid()
      modifies this`at
      ensures Valid() && bytes == old(data[at..])[..B.Least(len, |data| - old(at))]
      ensures old(Pending()) == bytes + Pending() && old(Available()) == bytes + Available()
    {
      hide Plain, Flowing;
      var n := B.Least(len, |data| - at);
      TakeFront(data, at, n);
      bytes := data[at..at + n];
      at := at + n;
      Assoc(bytes, data[at..], Plain(codec, input));
      Assoc(bytes, data[at..], Flowing(codec, input));
    }

    /** Reads until everything asked for is there, or a call fails or returns nothing. It succeeds exactly
        if the bytes are available; otherwise those that are have been read, and the outcome is that of
        the read that got no more. */
    method ReadAll(len: nat) returns (bytes: seq<byte>, r: ReadOutcome)
      requires Valid()
      modifies this
      ensures Valid()
      ensures bytes == old(Available())[..B.Least(len, |old(Available())|)]
      ensures r == if len <= |old(Available())| then Given else old(StopOf(codec, input))
      ensures r == Given ==> old(Pending()) == bytes + Pending()
      ensures r != Given ==> old(Pending()) == bytes && |bytes| < len
    {
      hide Plain, ReadFrame, Flowing, StopOf;
      bytes, r := [], Given;
      var last: nat := 1;
      ghost var all, stop := Available(), StopOf(codec, input);
      while |bytes| < len && last != 0
        invariant Valid() && r == Given && |bytes| <= len && old(Pending()) == bytes + Pending()
        invariant last != 0 ==> all == bytes + Available() && StopOf(codec, input) == stop
        invariant last == 0 ==> |bytes| < len && all == bytes && stop == Given
        decreases len - |bytes|, last
      {
        ghost var pending, available, first := Pending(), Available(), input;
        var piece;
        piece, r := Next(len - |bytes|);
        StopsHere(codec, first);
        if r != Given {
          assert bytes + pending == bytes;
          assert available == [] && bytes + available == bytes;
          return;
        }
        Assoc(bytes, piece, Pending());
        Assoc(bytes, piece, Available());
        bytes, last := bytes + piece, |piece|;
      }
    }
  }

  lemma OpensFrame(codec: Codec, input: seq<byte>)
    ensures match ReadFrame(codec, input)
            case Whole(d, rest) => d != [] ==> Flowing(codec, input) == d + Flowing(codec, rest) && StopOf(codec, input) == StopOf(codec, rest)
            case _ => true
  {
  }

  /** Where reading stops, nothing flows. */
  lemma StopsHere(codec: Codec, input: seq<byte>)
    ensures match ReadFrame(codec, input)
            case Whole(d, _) => d == [] ==> Flowing(codec, input) == [] && StopOf(codec, input) == Given
            case Thrown(problem, _) => Flowing(codec, input) == [] && StopOf(codec, input) == Failed(problem)
            case _ => Flowing(codec, input) == [] && StopOf(codec, input) == AtEnd
  {
  }

  lemma TakeFront(data: seq<byte>, at: nat, n: nat)
    requires at + n <= |data|
    ensures data[at..at + n] == data[at..][..n] && data[at..] == data[at..at + n] + data[at + n..]
  {
  }
}
