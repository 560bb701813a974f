/** Decimal text of 128-bit integers, with exact overflow detection. */
module Int128Text {
  import opened Bytes
  import opened Digits

  const TWO_127: nat := 0x8000_0000_0000_0000_0000_0000_0000_0000
  const TWO_128: nat := 0x1_0000_0000_0000_0000_0000_0000_0000_0000
  const MAX_DIGITS: nat := 39

  type uint128 = x: int | 0 <= x < TWO_128
  const MIN_INT128: int := -0x8000_0000_0000_0000_0000_0000_0000_0000
  type int128 = x: int | MIN_INT128 <= x < TWO_127

  datatype ParseError = BadLength | NonDigit | Overflow | BelowMinimum | AboveMaximum
  datatype Result<+T> = Ok(value: T) | Err(error: ParseError)

  lemma TenTo39()
    ensures TWO_128 < Pow10(39) && TWO_127 < Pow10(39) && Pow10(38) < TWO_127
  {
    assert Pow10(5) == 100000;
    assert Pow10(10) == 100000 * Pow10(5);
    assert Pow10(15) == 100000 * Pow10(10);
    assert Pow10(20) == 100000 * Pow10(15);
    assert Pow10(25) == 100000 * Pow10(20);
    assert Pow10(30) == 100000 * Pow10(25);
    assert Pow10(35) == 100000 * Pow10(30);
    assert Pow10(38) == 1000 * Pow10(35);
  }

  /** Digits are produced last first into a temporary and then turned around. */
  method FormatUint128(v: uint128) returns (out: seq<byte>)
    ensures out == Decimal(v) && 1 <= |out| <= MAX_DIGITS
  {
    hide Pow10;
    TenTo39();
    DecimalLength(v, MAX_DIGITS);
    var tmp: seq<byte> := [DIGIT_ZERO + v % 10];
    var rest := v / 10;
    while rest != 0
      invariant 0 <= rest && tmp != []
      invariant Decimal(v) == (if rest == 0 then [] else Decimal(rest)) + Reversed(tmp)
      decreases rest
    {
      ReversedSnoc(tmp, DIGIT_ZERO + rest % 10);
      assert Decimal(rest) == (if rest / 10 == 0 then [] else Decimal(rest / 10)) + [DIGIT_ZERO + rest % 10];
      tmp := tmp + [DIGIT_ZERO + rest % 10];
      rest := rest / 10;
    }
    out := [];
    var i := 0;
    while i < |tmp|
      invariant 0 <= i <= |tmp| && |out| == i
      invariant forall k :: 0 <= k < i ==> out[k] == tmp[|tmp| - 1 - k]
    {
      out := out + [tmp[|tmp| - 1 - i]];
      i := i + 1;
    }
    assert out == Reversed(tmp);
  }

  function Reversed(s: seq<byte>): (r: seq<byte>)
    ensures |r| == |s|
  {
    seq(|s|, k requires 0 <= k < |s| => s[|s| - 1 - k])
  }

  lemma ReversedSnoc(s: seq<byte>, b: byte)
    ensures Reversed(s + [b]) == [b] + Reversed(s)
  {
  }

  /** Accepts exactly the non-empty digit strings of at most 39 characters below 2^128. */
  method ParseUint128(s: seq<byte>) returns (r: Result<uint128>)
    ensures r.Ok? <==> 1 <= |s| <= MAX_DIGITS && AllDigits(s) && Number(s) < TWO_128
    ensures r.Ok? ==> r.value == Number(s)
    ensures r == Err(BadLength) <==> !(1 <= |s| <= MAX_DIGITS)
    ensures r == Err(Overflow) ==> exists n :: 0 <= n <= |s| && AllDigits(s[..n]) && TWO_128 <= Number(s[..n])
    ensures r == Err(NonDigit) ==> !AllDigits(s)
    ensures r.Err? ==> r.error == BadLength || r.error == NonDigit || r.error == Overflow
  {
    if |s| == 0 || |s| > MAX_DIGITS {
      return Err(BadLength);
    }
    var max := TWO_128 - 1;
    var maxDiv10, maxMod10 := max / 10, max % 10;
    var v: uint128 := 0;
    var i := 0;
    while i < |s|
      invariant 0 <= i <= |s| && AllDigits(s[..i]) && v == Number(s[..i])
    {
      if !IsDigit(s[i]) {
        return Err(NonDigit);
      }
      var d := s[i] - DIGIT_ZERO;
      NumberSnoc(s, i);
      if v > maxDiv10 || (v == maxDiv10 && d > maxMod10) {
        PrefixAtMost(s, i + 1);
        assert AllDigits(s[..i + 1]) && TWO_128 <= Number(s[..i + 1]);
        return Err(Overflow);
      }
      v := v * 10 + d;
      i := i + 1;
    }
    assert s[..i] == s;
    r := Ok(v);
  }

  /** The text of a signed value: negation is done on the unsigned representation. */
  method FormatInt128(v: int128) returns (out: seq<byte>)
    ensures out == SignedDecimal(v) && |out| <= 1 + MAX_DIGITS
  {
    if v >= 0 {
      out := FormatUint128(v);
      return;
    }
    var magnitude: uint128 := (TWO_128 - (v + TWO_128)) % TWO_128;
    var digits := FormatUint128(magnitude);
    out := [MINUS] + digits;
  }

  function SignedDecimal(v: int): seq<byte> {
    if 0 <= v then Decimal(v) else [MINUS] + Decimal(-v)
  }

  predicate HasSign(s: seq<byte>) {
    s != [] && (s[0] == MINUS || s[0] == PLUS)
  }

  function Unsigned(s: seq<byte>): seq<byte> {
    if HasSign(s) then s[1..] else s
  }

  /** The integer that a signed digit string spells. */
  function SignedNumber(s: seq<byte>): int {
    if s != [] && s[0] == MINUS then 0 - Number(s[1..]) else Number(Unsigned(s))
  }

  /** Accepts an optional sign and at most 39 digits, if the value is a 128-bit integer. */
  method ParseInt128(s: seq<byte>) returns (r: Result<int128>)
    ensures r.Ok? <==>
              && 1 <= |Unsigned(s)| <= MAX_DIGITS && AllDigits(Unsigned(s))
              && MIN_INT128 <= SignedNumber(s) < TWO_127
    ensures r.Ok? ==> r.value == SignedNumber(s)
  {
    var i := 0;
    var negative := false;
    if |s| > 0 && (s[0] == MINUS || s[0] == PLUS) {
      negative := s[0] == MINUS;
      i := 1;
    }
    assert s[i..] == Unsigned(s);
    var magnitude := ParseUint128(s[i..]);
    if magnitude.Err? {
      return Err(magnitude.error);
    }
    var m := magnitude.value;
    if negative {
      if m > TWO_127 {
        return Err(BelowMinimum);
      }
      if m == TWO_127 {
        return Ok(m - TWO_128);
      }
      return Ok(-m);
    }
    if m > TWO_127 - 1 {
      return Err(AboveMaximum);
    }
    r := Ok(m);
  }

  /** Formatting and parsing are inverse on the whole unsigned range. */
  lemma UnsignedRoundTrip(v: uint128)
    ensures var s := Decimal(v);
            1 <= |s| <= MAX_DIGITS && AllDigits(s) && Number(s) == v
  {
    TenTo39();
    DecimalLength(v, MAX_DIGITS);
    DecimalSpells(v);
  }

  /** ... and on the whole signed range, the minimum included. */
  lemma SignedRoundTrip(v: int128)
    ensures var s := SignedDecimal(v);
            && 1 <= |Unsigned(s)| <= MAX_DIGITS && AllDigits(Unsigned(s)) && SignedNumber(s) == v
  {
    hide Decimal, Number, Pow10;
    var magnitude: int := if 0 <= v then v else 0 - v;
    UnsignedRoundTrip(magnitude);
    if 0 <= v {
      assert IsDigit(Decimal(v)[0]);
    } else {
      assert SignedDecimal(v)[1..] == Decimal(magnitude);
    }
  }
}
