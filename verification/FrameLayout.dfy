/** Compressed frames byte by byte: where the hash, the method, the sizes and the payload stand, which
    headers are refused, and that a frame that is cut is never taken for one. */
module FrameLayout {
  import opened Bytes
  import opened WireFormat
  import opened CompressedStreams

  /** Sixteen bytes of hash, the method, the size of all but the hash, the size of the chunk, and the
      payload of the algorithm that the method names. */
  lemma FrameBytes(codec: Codec, methodByte: byte, chunk: seq<byte>)
    requires Supported(methodByte) && Frame(codec, methodByte, chunk).Some?
    requires |chunk| < TWO_32 && forall b :: |codec.hash(b)| == 16
    requires |Frame(codec, methodByte, chunk).value| < TWO_32
    ensures var f := Frame(codec, methodByte, chunk).value;
            && 25 <= |f| && f[..16] == codec.hash(f[16..])
            && f[16] == methodByte && (methodByte == 0x82 || methodByte == 0x90)
            && FixedValue(f[17..21]) == |f| - 16 && FixedValue(f[21..25]) == |chunk|
            && Some(f[25..]) == (if f[16] == 0x82 then codec.lz4 else codec.zstd).compress(chunk)
  {
    hide Fixed, FixedValue, Pow256;
    var payload := AlgorithmOf(codec, methodByte).compress(chunk).value;
    var body := Body(methodByte, |chunk|, payload);
    var f := codec.hash(body) + body;
    Pow256Of4();
    FixedInverse(4, |payload| + HEADER_SIZE);
    FixedInverse(4, |chunk|);
    assert f[16..] == body && f[..16] == codec.hash(body);
    assert body[1..5] == Fixed(4, |payload| + HEADER_SIZE) && body[5..9] == Fixed(4, |chunk|) && body[9..] == payload;
    assert f[17..21] == body[1..5] && f[21..25] == body[5..9] && f[25..] == body[9..];
  }

  /** The header of a frame whose sizes are anything. */
  function Header(methodByte: byte, compressed: nat, original: nat): seq<byte> {
    [methodByte] + (Fixed(4, compressed) + Fixed(4, original))
  }

  lemma HeaderIsRead(codec: Codec, hash: seq<byte>, methodByte: byte, compressed: nat, original: nat, rest: seq<byte>)
    requires |hash| == 16 && compressed < TWO_32 && original < TWO_32
    ensures ReadFrame(codec, hash + (Header(methodByte, compressed, original) + rest))
         == if methodByte != 0x82 && methodByte != 0x90
            then Thrown(UnsupportedMethod, Fixed(4, compressed) + (Fixed(4, original) + rest))
            else ReadPayload(codec, hash, methodByte, compressed, original, rest)
  {
    hide Fixed, FixedValue, Pow256, ReadFixed, ReadPayload;
    var input := Header(methodByte, compressed, original) + rest;
    Pow256Of4();
    BytesRoundTrip(hash, input);
    assert input[1..] == Fixed(4, compressed) + (Fixed(4, original) + rest);
    FixedRoundTrip(4, compressed, Fixed(4, original) + rest);
    FixedRoundTrip(4, original, rest);
  }

  /** Which headers are refused: other methods, read to the method only, and sizes above 2^30, read to
      the end of the header. */
  lemma HeaderDecides(codec: Codec, hash: seq<byte>, methodByte: byte, compressed: nat, original: nat, rest: seq<byte>)
    requires |hash| == 16 && compressed < TWO_32 && original < TWO_32
    ensures var r := ReadFrame(codec, hash + (Header(methodByte, compressed, original) + rest));
            && (r.Thrown? && r.problem == UnsupportedMethod <==> methodByte != 0x82 && methodByte != 0x90)
            && (r == Thrown(TooBig, rest) <==> (methodByte == 0x82 || methodByte == 0x90) && compressed > 1073741824)
  {
    HeaderIsRead(codec, hash, methodByte, compressed, original, rest);
  }

  /** A payload that is there and has the right hash is decompressed by the algorithm of its method: the
      data are as many bytes as the header says, those of the algorithm first, then zeros. */
  lemma PayloadDecides(codec: Codec, methodByte: byte, original: nat, payload: seq<byte>, rest: seq<byte>)
    requires Supported(methodByte) && original < TWO_32 && |payload| + 9 <= 1073741824
    requires |codec.hash(Body(methodByte, original, payload))| == 16
    ensures var body := Body(methodByte, original, payload);
            var r := ReadFrame(codec, codec.hash(body) + (body + rest));
            match (if methodByte == 0x82 then codec.lz4 else codec.zstd).decompress(payload, original)
            case None => r == Thrown(CannotDecompress, rest)
            case Some(out) => r.Whole? && r.rest == rest && |r.data| == original
                              && forall i :: 0 <= i < original ==> r.data[i] == if i < |out| then out[i] else 0
  {
    hide Fixed, Body, ReadBody;
    var body := Body(methodByte, original, payload);
    BytesRoundTrip(codec.hash(body), body + rest);
    HeaderRoundTrip(codec, codec.hash(body), methodByte, original, payload, rest);
    BytesRoundTrip(payload, rest);
  }

  /** A frame that is cut anywhere is the end of the input: it is never taken for a frame, and throws
      nothing. */
  lemma CutFrameEnds(codec: Codec, hash: seq<byte>, methodByte: byte, original: nat, payload: seq<byte>, k: nat)
    requires |hash| == 16 && Supported(methodByte) && original < TWO_32 && |payload| + 9 <= 1073741824
    requires k < 16 + |Body(methodByte, original, payload)|
    ensures ReadFrame(codec, (hash + Body(methodByte, original, payload))[..k]) == Ended
  {
    hide Fixed, FixedValue, Pow256, Body;
    Pow256Of4();
    FixedInverse(4, |payload| + 9);
    FixedInverse(4, original);
    BodyParts(methodByte, original, payload);
    var body := Body(methodByte, original, payload);
    var frame := hash + body;
    var input := frame[..k];
    if 16 <= k {
      assert input[..16] == hash && input[16..] == body[..k - 16];
      CutBodyEnds(codec, hash, methodByte, original, payload, k - 16);
    }
  }

  lemma BodyParts(methodByte: byte, original: nat, payload: seq<byte>)
    requires original < TWO_32 && |payload| + 9 < TWO_32
    ensures var body := Body(methodByte, original, payload);
            && |body| == 9 + |payload| && body[0] == methodByte
            && body[1..5] == Fixed(4, |payload| + 9) && body[5..9] == Fixed(4, original) && body[9..] == payload
  {
    hide Fixed, FixedValue, Pow256;
    Pow256Of4();
    FixedInverse(4, |payload| + 9);
    FixedInverse(4, original);
  }

  lemma CutBodyEnds(codec: Codec, hash: seq<byte>, methodByte: byte, original: nat, payload: seq<byte>, k: nat)
    requires Supported(methodByte) && original < TWO_32 && |payload| + 9 <= 1073741824
    requires k < |Body(methodByte, original, payload)|
    ensures ReadBody(codec, hash, Body(methodByte, original, payload)[..k]) == Ended
  {
    hide Fixed, FixedValue, Pow256, Body;
    Pow256Of4();
    FixedInverse(4, |payload| + 9);
    BodyParts(methodByte, original, payload);
    var body := Body(methodByte, original, payload);
    var input := body[..k];
    if 5 <= k {
      assert input[1..][..4] == body[1..5];
      if 9 <= k {
        assert |input[1..][4..][4..]| == k - 9;
      }
    }
  }
}
