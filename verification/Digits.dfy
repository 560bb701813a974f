/** Decimal digits and the numbers they spell. */
module Digits {
  import opened Bytes

  const MINUS: byte := 45
  const PLUS: byte := 43
  const DOT: byte := 46

  predicate IsDigit(b: byte) {
    DIGIT_ZERO <= b <= DIGIT_ZERO + 9
  }

  predicate AllDigits(ds: seq<byte>) {
    forall i :: 0 <= i < |ds| ==> IsDigit(ds[i])
  }

  function DigitOf(b: byte): nat {
    if IsDigit(b) then b - DIGIT_ZERO else 0
  }

  function Pow10(n: nat): nat {
    if n == 0 then 1 else 10 * Pow10(n - 1)
  }

  /** The number a digit string spells, most significant digit first. */
  function Number(ds: seq<byte>): nat {
    if ds == [] then 0 else Number(ds[..|ds| - 1]) * 10 + DigitOf(ds[|ds| - 1])
  }

  /** The digits of a number without leading zeros. */
  function Decimal(v: nat): seq<byte> {
    if v < 10 then [DIGIT_ZERO + v] else Decimal(v / 10) + [DIGIT_ZERO + v % 10]
  }

  /** The last n digits of a number, zeros in front. */
  function Padded(v: nat, n: nat): seq<byte> {
    if n == 0 then [] else Padded(v / 10, n - 1) + [DIGIT_ZERO + v % 10]
  }

  lemma {:induction false} Pow10Positive(n: nat)
    ensures 0 < Pow10(n)
  {
    if n != 0 { Pow10Positive(n - 1); }
  }

  lemma {:induction false} NumberBelow(ds: seq<byte>)
    ensures Number(ds) < Pow10(|ds|)
  {
    if ds != [] { NumberBelow(ds[..|ds| - 1]); }
  }

  lemma {:induction false} DecimalSpells(v: nat)
    ensures AllDigits(Decimal(v)) && Number(Decimal(v)) == v && Decimal(v) != []
  {
    if v < 10 {
      assert Decimal(v)[..0] == [];
    } else {
      DecimalSpells(v / 10);
      assert Decimal(v)[..|Decimal(v)| - 1] == Decimal(v / 10);
    }
  }

  lemma {:induction false} DecimalLength(v: nat, n: nat)
    requires 1 <= n && v < Pow10(n)
    ensures 1 <= |Decimal(v)| <= n
    decreases n
  {
    if 10 <= v { DecimalLength(v / 10, n - 1); }
  }

  lemma {:induction false} PaddedSpells(v: nat, n: nat)
    requires v < Pow10(n)
    ensures |Padded(v, n)| == n && AllDigits(Padded(v, n)) && Number(Padded(v, n)) == v
  {
    if n != 0 {
      PaddedSpells(v / 10, n - 1);
      assert Padded(v, n)[..n - 1] == Padded(v / 10, n - 1);
    }
  }

  lemma TimesPow10(a: nat, d: nat, p: nat)
    ensures (a * p) * 10 + d == a * (10 * p) + d
  {
  }

  lemma {:induction false} NumberOfConcat(a: seq<byte>, b: seq<byte>)
    ensures Number(a + b) == Number(a) * Pow10(|b|) + Number(b)
  {
    if b == [] {
      assert a + b == a;
    } else {
      var init, last := b[..|b| - 1], b[|b| - 1];
      assert (a + b)[..|a + b| - 1] == a + init;
      NumberOfConcat(a, init);
      TimesPow10(Number(a), 0, Pow10(|init|));
      assert (Number(a) * Pow10(|init|) + Number(init)) * 10 == (Number(a) * Pow10(|init|)) * 10 + Number(init) * 10;
    }
  }

  lemma ProductAtLeast(a: nat, p: nat)
    requires 1 <= p
    ensures a <= a * p
  {
  }

  lemma ProductMonotone(a: int, b: int, p: int)
    requires a <= b && 0 <= p
    ensures a * p <= b * p
  {
  }

  lemma StrictProduct(a: nat, b: nat, p: nat)
    requires a < b && 0 < p
    ensures a * p < b * p
  {
  }

  lemma TenTimes(a: nat, b: nat)
    ensures a * (10 * b) == 10 * (a * b)
  {
  }

  lemma {:induction false} Pow10Sum(a: nat, b: nat)
    ensures Pow10(a + b) == Pow10(a) * Pow10(b)
  {
    if a == 0 {
      assert Pow10(0) * Pow10(b) == Pow10(b);
    } else {
      Pow10Sum(a - 1, b);
      TenTimes(Pow10(b), Pow10(a - 1));
    }
  }

  lemma PrefixAtMost(ds: seq<byte>, n: nat)
    requires n <= |ds|
    ensures Number(ds[..n]) <= Number(ds)
  {
    assert ds == ds[..n] + ds[n..];
    NumberOfConcat(ds[..n], ds[n..]);
    Pow10Positive(|ds| - n);
    ProductAtLeast(Number(ds[..n]), Pow10(|ds| - n));
  }

  lemma NumberSnoc(ds: seq<byte>, i: nat)
    requires i < |ds|
    ensures Number(ds[..i + 1]) == Number(ds[..i]) * 10 + DigitOf(ds[i])
  {
    assert ds[..i + 1][..i] == ds[..i];
  }

  //// Dots

  predicate NoDot(s: seq<byte>) {
    DOT !in s
  }

  predicate HasDot(s: seq<byte>) {
    DOT in s
  }

  function DotAt(s: seq<byte>): (i: nat)
    requires HasDot(s)
    ensures i < |s| && s[i] == DOT && DOT !in s[..i]
  {
    if s[0] == DOT then 0 else 1 + DotAt(s[1..])
  }

  lemma {:induction false} PaddedHasNoDot(v: nat, n: nat)
    ensures NoDot(Padded(v, n))
  {
    if n != 0 { PaddedHasNoDot(v / 10, n - 1); }
  }

  lemma {:induction false} FirstDot(a: seq<byte>, b: seq<byte>)
    requires NoDot(a)
    ensures var s := a + [DOT] + b; HasDot(s) && DotAt(s) == |a| && s[..|a|] == a && s[|a| + 1..] == b
  {
    var s := a + [DOT] + b;
    assert s[|a|] == DOT;
    if a != [] {
      FirstDot(a[1..], b);
      assert s[1..] == a[1..] + [DOT] + b;
    }
  }
}
