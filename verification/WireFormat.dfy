/** The primitives of the native wire format: unsigned LEB128 integers (section 7.6 of the
    DWARF 5 standard), little-endian fixed-width integers, counted strings. */
module WireFormat {
  import opened Bytes

  const TWO_64: nat := 0x1_0000_0000_0000_0000
  const MAX_VARINT_BYTES: nat := 10

  type uint64 = x: int | 0 <= x < TWO_64

  /** A value read, and the input after it; None is a failed read. */
  datatype Read<+T> = Read(value: T, rest: seq<byte>)

  //// Varints

  function Varint(v: nat): seq<byte> {
    if v < 128 then [v] else [v % 128 + 128] + Varint(v / 128)
  }

  function Pow128(i: nat): nat {
    if i == 0 then 1 else 128 * Pow128(i - 1)
  }

  function Shifted(v: nat, i: nat): nat {
    v * Pow128(i)
  }

  /** What byte i of a varint adds: its low seven bits shifted into a 64-bit word. */
  function Digit(b: byte, i: nat): nat {
    Shifted(b % 128, i) % TWO_64
  }

  /** Reads at most ten bytes, up to the first without the continuation bit. */
  function ReadDigits(input: seq<byte>, i: nat): Option<Read<nat>>
    decreases |input|
  {
    if MAX_VARINT_BYTES <= i || input == [] then None
    else if input[0] < 128 then Some(Read(Digit(input[0], i), input[1..]))
    else
      match ReadDigits(input[1..], i + 1)
      case None => None
      case Some(Read(v, rest)) => Some(Read(Digit(input[0], i) + v, rest))
  }

  function ReadVarint(input: seq<byte>): Option<Read<nat>> {
    ReadDigits(input, 0)
  }

  /** The values that fit into n more bytes of a 64-bit varint. */
  function Capacity(n: nat): nat {
    if n == 0 then 0 else if n == 1 then 2 else 128 * Capacity(n - 1)
  }

  lemma CapacityOfTen()
    ensures Capacity(10) == TWO_64
  {
    assert Capacity(4) == 2 * 128 * 128 * 128;
    assert Capacity(7) == 128 * 128 * 128 * Capacity(4);
    assert Capacity(10) == 128 * 128 * 128 * Capacity(7);
  }

  lemma {:induction false} CapacityTimesPow(n: nat, i: nat)
    requires 1 <= n && n + i == MAX_VARINT_BYTES
    ensures Capacity(n) * Pow128(i) == TWO_64
    decreases i
  {
    if i == 0 {
      CapacityOfTen();
    } else {
      CapacityTimesPow(n + 1, i - 1);
      assert Capacity(n + 1) * Pow128(i - 1) == 128 * Capacity(n) * Pow128(i - 1) == Capacity(n) * (128 * Pow128(i - 1));
    }
  }

  lemma ProductBelow(a: nat, b: nat, c: nat)
    requires a < b && 0 < c
    ensures a * c < b * c
  {
  }

  lemma {:induction false} PowPositive(i: nat)
    ensures 0 < Pow128(i)
  {
    if i != 0 { PowPositive(i - 1); }
  }

  lemma DigitFits(v: nat, i: nat)
    requires i < MAX_VARINT_BYTES && v < Capacity(MAX_VARINT_BYTES - i)
    ensures (v % 128) * Pow128(i) < TWO_64
  {
    CapacityTimesPow(MAX_VARINT_BYTES - i, i);
    PowPositive(i);
    assert v % 128 < Capacity(MAX_VARINT_BYTES - i);
    ProductBelow(v % 128, Capacity(MAX_VARINT_BYTES - i), Pow128(i));
  }

  lemma SplitDigit(v: nat, p: nat)
    ensures v * p == (v % 128) * p + (v / 128) * (128 * p)
  {
    assert v == v % 128 + 128 * (v / 128);
    assert v * p == (v % 128 + 128 * (v / 128)) * p;
  }

  lemma OneDigitLess(v: nat, n: nat)
    requires 128 <= v < Capacity(n)
    ensures 2 <= n && v / 128 < Capacity(n - 1)
  {
  }

  lemma {:induction false} DigitsRoundTrip(v: nat, i: nat, rest: seq<byte>)
    requires i < MAX_VARINT_BYTES && v < Capacity(MAX_VARINT_BYTES - i)
    ensures ReadDigits(Varint(v) + rest, i) == Some(Read(Shifted(v, i), rest))
    decreases v
  {
    hide Capacity, Shifted, Digit, Varint, ReadDigits;
    var low := LowByte(v);
    DigitValue(v, low, i);
    VarintStep(v, rest);
    if v < 128 {
      ReadLastDigit(low, rest, i);
    } else {
      OneDigitLess(v, MAX_VARINT_BYTES - i);
      DigitsRoundTrip(v / 128, i + 1, rest);
      ReadLowDigit(low, Varint(v / 128) + rest, i);
      DigitsAdd(v, i);
    }
  }

  function LowByte(v: nat): byte {
    v % 128 + (if v < 128 then 0 else 128)
  }

  lemma VarintStep(v: nat, rest: seq<byte>)
    ensures Varint(v) + rest == [LowByte(v)] + (if v < 128 then rest else Varint(v / 128) + rest)
  {
  }

  lemma ReadLastDigit(low: byte, rest: seq<byte>, i: nat)
    requires low < 128 && i < MAX_VARINT_BYTES
    ensures ReadDigits([low] + rest, i) == Some(Read(Digit(low, i), rest))
  {
    assert ([low] + rest)[1..] == rest;
  }

  lemma DigitValue(v: nat, b: byte, i: nat)
    requires i < MAX_VARINT_BYTES && v < Capacity(MAX_VARINT_BYTES - i) && b % 128 == v % 128
    ensures Digit(b, i) == Shifted(v % 128, i)
  {
    DigitFits(v, i);
  }

  lemma DigitsAdd(v: nat, i: nat)
    ensures Shifted(v % 128, i) + Shifted(v / 128, i + 1) == Shifted(v, i)
  {
    SplitDigit(v, Pow128(i));
  }

  lemma ReadLowDigit(low: byte, rest: seq<byte>, i: nat)
    requires 128 <= low && i < MAX_VARINT_BYTES && ReadDigits(rest, i + 1).Some?
    ensures var r := ReadDigits(rest, i + 1).value;
            ReadDigits([low] + rest, i) == Some(Read(Digit(low, i) + r.value, r.rest))
  {
    assert ([low] + rest)[1..] == rest;
  }

  /** A 64-bit value takes at most ten bytes and is read back, with the input after it untouched. */
  lemma VarintRoundTrip(v: uint64, rest: seq<byte>)
    ensures ReadVarint(Varint(v) + rest) == Some(Read(v, rest))
    ensures 1 <= |Varint(v)| <= MAX_VARINT_BYTES
  {
    hide Capacity, Varint, ReadDigits;
    CapacityOfTen();
    DigitsRoundTrip(v, 0, rest);
    assert v * Pow128(0) == v;
    VarintLength(v, MAX_VARINT_BYTES);
  }

  lemma {:induction false} VarintLength(v: nat, n: nat)
    requires 1 <= n && v < Capacity(n)
    ensures 1 <= |Varint(v)| <= n
    decreases n
  {
    if 128 <= v { VarintLength(v / 128, n - 1); }
  }

  /** WriteVarint64, byte by byte. */
  method WriteVarint64(value: uint64) returns (bytes: seq<byte>)
    ensures bytes == Varint(value)
  {
    CapacityOfTen();
    bytes := [];
    var v: nat := value;
    var i := 0;
    while i < MAX_VARINT_BYTES
      invariant 0 <= i <= MAX_VARINT_BYTES
      invariant i < MAX_VARINT_BYTES && v < Capacity(MAX_VARINT_BYTES - i)
      invariant bytes + Varint(v) == Varint(value)
    {
      var b: byte := v % 128;
      if v > 0x7F {
        b := b + 128;
      }
      bytes := bytes + [b];
      v := v / 128;
      if v == 0 {
        break;
      }
      i := i + 1;
    }
  }

  /** ReadVarint64 over the bytes of a stream. */
  method ReadVarint64(input: seq<byte>) returns (r: Option<Read<nat>>)
    ensures r == ReadVarint(input)
  {
    var value: nat := 0;
    var i := 0;
    assert input[0..] == input;
    while i < MAX_VARINT_BYTES
      invariant 0 <= i <= MAX_VARINT_BYTES && i <= |input|
      invariant ReadVarint(input) ==
                match ReadDigits(input[i..], i)
                case None => None
                case Some(Read(v, rest)) => Some(Read(value + v, rest))
    {
      if |input| <= i {
        return None;
      }
      var b := input[i];
      assert input[i..][0] == b && input[i..][1..] == input[i + 1..];
      value := value + Digit(b, i);
      if b < 128 {
        return Some(Read(value, input[i + 1..]));
      }
      i := i + 1;
    }
    r := None;
  }

  //// Fixed-width integers

  function Pow256(n: nat): nat {
    if n == 0 then 1 else 256 * Pow256(n - 1)
  }

  function Fixed(n: nat, v: nat): seq<byte> {
    if n == 0 then [] else [v % 256] + Fixed(n - 1, v / 256)
  }

  function FixedValue(bytes: seq<byte>): nat {
    if bytes == [] then 0 else bytes[0] + 256 * FixedValue(bytes[1..])
  }

  /** ReadAll: all the bytes asked for, or failure. */
  function ReadBytes(input: seq<byte>, n: nat): Option<Read<seq<byte>>> {
    if |input| < n then None else Some(Read(input[..n], input[n..]))
  }

  function ReadFixed(input: seq<byte>, n: nat): Option<Read<nat>> {
    match ReadBytes(input, n)
    case None => None
    case Some(Read(bytes, rest)) => Some(Read(FixedValue(bytes), rest))
  }

  lemma {:induction false} FixedInverse(n: nat, v: nat)
    requires v < Pow256(n)
    ensures |Fixed(n, v)| == n && FixedValue(Fixed(n, v)) == v
  {
    if n != 0 {
      FixedInverse(n - 1, v / 256);
      assert Fixed(n, v)[1..] == Fixed(n - 1, v / 256);
    }
  }

  lemma BytesRoundTrip(bytes: seq<byte>, rest: seq<byte>)
    ensures ReadBytes(bytes + rest, |bytes|) == Some(Read(bytes, rest))
  {
    assert (bytes + rest)[..|bytes|] == bytes && (bytes + rest)[|bytes|..] == rest;
  }

  lemma FixedRoundTrip(n: nat, v: nat, rest: seq<byte>)
    requires v < Pow256(n)
    ensures ReadFixed(Fixed(n, v) + rest, n) == Some(Read(v, rest))
  {
    FixedInverse(n, v);
    BytesRoundTrip(Fixed(n, v), rest);
  }

  lemma Pow256Of8()
    ensures Pow256(8) == TWO_64
  {
    assert Pow256(4) == 0x1_0000_0000;
    assert Pow256(8) == 0x1_0000_0000 * Pow256(4);
  }

  //// Strings

  function StringBytes(s: seq<byte>): seq<byte> {
    Varint(|s|) + s
  }

  /** A length and that many bytes, as the String column reads its values: any length. */
  function ReadCounted(input: seq<byte>): Option<Read<seq<byte>>> {
    match ReadVarint(input)
    case None => None
    case Some(Read(len, rest)) => ReadBytes(rest, len)
  }

  const MAX_STRING: nat := 0x00FF_FFFF

  /** ReadString, for names, types and messages: lengths above the maximum are refused. */
  function ReadString(input: seq<byte>): Option<Read<seq<byte>>> {
    match ReadVarint(input)
    case None => None
    case Some(Read(len, rest)) => if len > MAX_STRING then None else ReadBytes(rest, len)
  }

  lemma CountedRoundTrip(s: seq<byte>, rest: seq<byte>)
    requires |s| < TWO_64
    ensures ReadCounted(StringBytes(s) + rest) == Some(Read(s, rest))
  {
    assert StringBytes(s) + rest == Varint(|s|) + (s + rest);
    VarintRoundTrip(|s|, s + rest);
    BytesRoundTrip(s, rest);
  }

  /** WriteString writes any length, ReadString reads it back if and only if it is not above the
      maximum, and fails otherwise. */
  lemma StringRoundTrip(s: seq<byte>, rest: seq<byte>)
    requires |s| < TWO_64
    ensures ReadString(StringBytes(s) + rest) == Some(Read(s, rest)) <==> |s| <= MAX_STRING
    ensures |s| > MAX_STRING ==> ReadString(StringBytes(s) + rest) == None
  {
    assert StringBytes(s) + rest == Varint(|s|) + (s + rest);
    VarintRoundTrip(|s|, s + rest);
    BytesRoundTrip(s, rest);
  }

  /** The first refused length: the bytes are all there, and the column would read them. */
  lemma SixteenMebibytesAreRefused(rest: seq<byte>)
    ensures var s := seq(0x100_0000, _ => LOWER_A);
            && ReadString(StringBytes(s) + rest) == None
            && ReadCounted(StringBytes(s) + rest) == Some(Read(s, rest))
  {
    var s: seq<byte> := seq(0x100_0000, _ => LOWER_A);
    StringRoundTrip(s, rest);
    CountedRoundTrip(s, rest);
  }
}
