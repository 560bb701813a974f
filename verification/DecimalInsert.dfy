/** The check the insert path makes of a decimal text, and what it guarantees about the column. */
module DecimalInsert {
  import opened Bytes
  import opened Digits
  import opened Int128Text
  import opened DecimalText

  function Whole(s: seq<byte>): seq<byte> {
    if HasDot(s) then s[..DotAt(s)] else s
  }

  function Fraction(s: seq<byte>): seq<byte> {
    if HasDot(s) then s[DotAt(s) + 1..] else []
  }

  /** Digits, or digits around one dot: the forms the check looks at. */
  predicate IsPlain(s: seq<byte>) {
    AllDigits(Whole(s)) && AllDigits(Fraction(s)) && Whole(s) + Fraction(s) != []
  }

  /** No more fractional digits than the scale, and an integer part below 10^(precision - scale). */
  predicate FitsColumn(s: seq<byte>, precision: nat, scale: nat) {
    |Fraction(s)| <= scale && (scale <= precision ==> Number(Whole(s)) < Pow10(precision - scale))
  }

  /** What the check lets through: texts that are not plain are left to the parser. */
  predicate Accepted(s: seq<byte>, precision: nat, scale: nat) {
    IsPlain(Unsigned(s)) ==> FitsColumn(Unsigned(s), precision, scale)
  }

  //// Leading zeros

  predicate AllZeros(ds: seq<byte>) {
    forall i :: 0 <= i < |ds| ==> ds[i] == DIGIT_ZERO
  }

  lemma {:induction false} ZerosAreZero(ds: seq<byte>)
    requires AllZeros(ds)
    ensures Number(ds) == 0
  {
    if ds != [] { ZerosAreZero(ds[..|ds| - 1]); }
  }

  lemma {:induction false} Pow10Grows(a: nat, b: nat)
    requires a <= b
    ensures Pow10(a) <= Pow10(b)
    decreases b
  {
    if a < b { Pow10Grows(a, b - 1); }
  }

  /** The first digit counts 10^(length - 1) times. */
  lemma FirstDigitCounts(ds: seq<byte>)
    requires ds != [] && IsDigit(ds[0]) && ds[0] != DIGIT_ZERO
    ensures Pow10(|ds| - 1) <= Number(ds)
  {
    assert ds == ds[..1] + ds[1..] && ds[..1][..0] == [];
    NumberOfConcat(ds[..1], ds[1..]);
    Pow10Positive(|ds| - 1);
    ProductMonotone(1, Number(ds[..1]), Pow10(|ds| - 1));
  }

  lemma DropZeros(ds: seq<byte>, z: nat)
    requires z <= |ds| && AllZeros(ds[..z])
    ensures Number(ds) == Number(ds[z..])
  {
    assert ds == ds[..z] + ds[z..];
    NumberOfConcat(ds[..z], ds[z..]);
    ZerosAreZero(ds[..z]);
  }

  /** Without its leading zeros a number has at most n digits if and only if it is below 10^n. */
  lemma SignificantDigits(ds: seq<byte>, z: nat, n: nat)
    requires AllDigits(ds) && z <= |ds| && AllZeros(ds[..z]) && (z < |ds| ==> ds[z] != DIGIT_ZERO)
    ensures |ds| - z <= n <==> Number(ds) < Pow10(n)
  {
    hide Number, Pow10;
    DropZeros(ds, z);
    if z < |ds| {
      FirstDigitCounts(ds[z..]);
      NumberBelow(ds[z..]);
      if |ds| - z <= n { Pow10Grows(|ds| - z, n); } else { Pow10Grows(n, |ds| - z - 1); }
    } else {
      ZerosAreZero(ds[z..]);
      Pow10Positive(n);
    }
  }

  //// The check

  /** The end of the run of digits that starts at from. */
  method SkipDigits(s: seq<byte>, from: nat) returns (end: nat)
    requires from <= |s|
    ensures from <= end <= |s| && AllDigits(s[from..end]) && (end < |s| ==> !IsDigit(s[end]))
  {
    end := from;
    while end < |s| && IsDigit(s[end])
      invariant from <= end <= |s| && AllDigits(s[from..end])
    {
      assert s[from..end + 1] == s[from..end] + [s[end]];
      end := end + 1;
    }
  }

  lemma DigitsHaveNoDot(ds: seq<byte>)
    requires AllDigits(ds)
    ensures NoDot(ds)
  {
  }

  /** A run of digits that stops at a dot is the integer part. */
  lemma RunUpToDot(u: seq<byte>, run: nat)
    requires run <= |u| && AllDigits(u[..run]) && (run < |u| ==> !IsDigit(u[run]))
    ensures run < |u| && u[run] == DOT ==> HasDot(u) && Whole(u) == u[..run] && Fraction(u) == u[run + 1..]
    ensures run < |u| && u[run] != DOT ==> !AllDigits(Whole(u))
    ensures run == |u| ==> Whole(u) == u && Fraction(u) == []
  {
    DigitsHaveNoDot(u[..run]);
    if run == |u| {
      assert u[..run] == u;
    } else if u[run] == DOT {
      assert u == u[..run] + [DOT] + u[run + 1..];
      FirstDot(u[..run], u[run + 1..]);
    } else {
      NotYetDot(u, run);
      assert Whole(u)[run] == u[run];
    }
  }

  /** Accepts a text unless it is plain and does not fit; unusual forms are left to the parser. */
  method ValidateDecimalText(s: seq<byte>, precision: nat, scale: nat) returns (ok: bool)
    ensures ok <==> Accepted(s, precision, scale)
  {
    hide Number, DotAt, Pow10;
    ghost var u := Unsigned(s);
    var start := if |s| > 0 && (s[0] == PLUS || s[0] == MINUS) then 1 else 0;
    assert u == s[start..];
    var i := SkipDigits(s, start);
    var wholeDigits := i - start;
    assert u[..wholeDigits] == s[start..start + wholeDigits] by { SliceOfSlice(s, start, |s|, 0, wholeDigits); }
    RunUpToDot(u, wholeDigits);
    var fractionDigits := 0;
    if i < |s| && s[i] == DOT {
      var f := i + 1;
      i := SkipDigits(s, f);
      fractionDigits := i - f;
      assert Fraction(u) == s[f..];
      assert i < |s| ==> s[f..][fractionDigits] == s[i];
      assert i == |s| ==> s[f..i] == s[f..];
    }
    assert i != |s| ==> !IsPlain(u);
    if i != |s| || (wholeDigits == 0 && fractionDigits == 0) {
      return true;
    }
    assert Whole(u) == s[start..start + wholeDigits] && |Fraction(u)| == fractionDigits;
    var significant := CountSignificant(s, start, wholeDigits);
    if fractionDigits > scale {
      return false;
    }
    if precision >= scale && !(significant <= precision - scale) {
      assert !(Number(Whole(u)) < Pow10(precision - scale));
      return false;
    }
    ok := true;
  }

  /** The digits of the integer part after its leading zeros. */
  method CountSignificant(s: seq<byte>, start: nat, n: nat) returns (significant: nat)
    requires start + n <= |s| && AllDigits(s[start..start + n])
    ensures significant <= n && forall m: nat :: significant <= m <==> Number(s[start..start + n]) < Pow10(m)
  {
    ghost var digits := s[start..start + n];
    significant := n;
    var k := start;
    while k < start + n && s[k] == DIGIT_ZERO
      invariant start <= k <= start + n && significant == n - (k - start) && AllZeros(digits[..k - start])
    {
      assert digits[..k - start + 1] == digits[..k - start] + [s[k]];
      significant := significant - 1;
      k := k + 1;
    }
    forall m: nat ensures significant <= m <==> Number(digits) < Pow10(m) {
      SignificantDigits(digits, k - start, m);
    }
  }

  //// What accepted texts store

  lemma StoreKeeps(v: int, p: nat)
    requires p <= MAX_PRECISION && Magnitude(v) < Pow10(p)
    ensures Narrow(v, StoreOf(p)) == v
  {
    hide Pow10;
    PowersAtTheStores();
    if p <= 9 {
      Pow10Grows(p, 9);
    } else if p <= 18 {
      Pow10Grows(p, 18);
    }
  }

  lemma PowersAtTheStores()
    ensures Pow10(9) == 1_000_000_000 && Pow10(18) == 1_000_000_000_000_000_000
  {
    assert Pow10(5) == 100000;
    assert Pow10(9) == 10000 * Pow10(5);
    assert Pow10(13) == 10000 * Pow10(9);
    assert Pow10(18) == 100000 * Pow10(13);
  }

  /** A value survives its store exactly if it lies in the store's range. */
  lemma NarrowKeepsRange(v: int, store: Store)
    ensures Narrow(v, store) == v <==>
              match store
              case Int32Store => -0x8000_0000 <= v < 0x8000_0000
              case Int64Store => -0x8000_0000_0000_0000 <= v < 0x8000_0000_0000_0000
              case Int128Store => true
  {
  }

  /** The number of hundredths, thousandths, ... that a plain text denotes. */
  function ScaledValue(s: seq<byte>, scale: nat): nat
    requires |Fraction(s)| <= scale
  {
    Number(Whole(s)) * Pow10(scale) + Number(Fraction(s)) * Pow10(scale - |Fraction(s)|)
  }

  lemma DigitsOfBoth(w: nat, f: nat, p: nat, q: nat, r: nat)
    requires r == p * q
    ensures (w * p + f) * q == w * r + f * q
  {
  }

  /** w whole units and f parts of one are below a units. */
  lemma ScaledBelow(w: nat, f: nat, a: nat, b: nat)
    requires w < a && f < b
    ensures w * b + f < a * b
  {
    ProductMonotone(w + 1, a, b);
    OneMore(w, b);
  }

  lemma OneMore(w: nat, b: nat)
    ensures (w + 1) * b == w * b + b
  {
  }

  lemma ScaledFits(w: nat, f: nat, n: nat, precision: nat, scale: nat)
    requires n <= scale <= precision && w < Pow10(precision - scale) && f < Pow10(n)
    ensures w * Pow10(scale) + f * Pow10(scale - n) < Pow10(precision)
  {
    hide Pow10;
    Pow10Positive(scale - n);
    Pow10Sum(n, scale - n);
    StrictProduct(f, Pow10(n), Pow10(scale - n));
    ScaledBelow(w, f * Pow10(scale - n), Pow10(precision - scale), Pow10(scale));
    Pow10Sum(precision - scale, scale);
  }

  /** The digits before and after the dot, read as one number, are the scaled value. */
  lemma DigitsDenote(whole: seq<byte>, fraction: seq<byte>, scale: nat)
    requires |fraction| <= scale
    ensures Number(whole + fraction) * Pow10(scale - |fraction|)
         == Number(whole) * Pow10(scale) + Number(fraction) * Pow10(scale - |fraction|)
  {
    hide Pow10, Number;
    NumberOfConcat(whole, fraction);
    Pow10Sum(|fraction|, scale - |fraction|);
    DigitsOfBoth(Number(whole), Number(fraction), Pow10(|fraction|), Pow10(scale - |fraction|), Pow10(scale));
  }

  /** The digits of the fraction that the parser reads; it never looks at what follows them. */
  function Kept(s: seq<byte>, scale: nat): (r: seq<byte>)
    ensures |r| <= scale && |r| <= |Fraction(s)|
  {
    Fraction(s)[..if |Fraction(s)| < scale then |Fraction(s)| else scale]
  }

  /** The number the parser reads out of a text with a dot. */
  function ReadValue(s: seq<byte>, scale: nat): nat {
    Number(Whole(s)) * Pow10(scale) + Number(Kept(s, scale)) * Pow10(scale - |Kept(s, scale)|)
  }

  function Signed(s: seq<byte>, v: nat): int {
    if s != [] && s[0] == MINUS then 0 - v else v
  }

  /** Any text with a dot is parsed as the digits before the dot and those after it up to the
      scale, whatever follows. */
  lemma DottedIsRead(s: seq<byte>, scale: nat)
    requires HasDot(Body(s))
    ensures var body := Body(s);
            ParseDecimal(s, scale)
            == if AllDigits(Whole(body)) && AllDigits(Kept(body, scale)) && ReadValue(body, scale) < TWO_127
               then Some(Signed(s, ReadValue(body, scale))) else None
  {
    hide Pow10, Number, Significant, MissingDigits, DotAt, Whole, Kept, Body, AllDigits;
    var body := Body(s);
    SignificantParts(body, scale);
    DigitsOfConcat(Whole(body), Kept(body, scale));
    DigitsDenote(Whole(body), Kept(body, scale), scale);
  }

  lemma SignificantParts(body: seq<byte>, scale: nat)
    requires HasDot(body)
    ensures Significant(body, scale) == Whole(body) + Kept(body, scale)
    ensures MissingDigits(body, scale) == scale - |Kept(body, scale)|
  {
    var d, n := DotAt(body), |Kept(body, scale)|;
    assert body[d + 1..] == body[d + 1..|body|];
    SliceOfSlice(body, d + 1, |body|, 0, n);
  }

  lemma DigitsOfConcat(a: seq<byte>, b: seq<byte>)
    ensures AllDigits(a + b) <==> AllDigits(a) && AllDigits(b)
  {
    assert forall i :: 0 <= i < |b| ==> (a + b)[|a| + i] == b[i];
    assert forall i :: 0 <= i < |a| ==> (a + b)[i] == a[i];
  }

  /** w whole units and a part of one fit the precision exactly if w fits what the scale leaves. */
  lemma ScaledFitsExactly(w: nat, f: nat, n: nat, precision: nat, scale: nat)
    requires n <= scale <= precision && f < Pow10(n)
    ensures w * Pow10(scale) + f * Pow10(scale - n) < Pow10(precision) <==> w < Pow10(precision - scale)
  {
    hide Pow10;
    if w < Pow10(precision - scale) {
      ScaledFits(w, f, n, precision, scale);
    } else {
      ProductMonotone(Pow10(precision - scale), w, Pow10(scale));
      Pow10Sum(precision - scale, scale);
    }
  }

  lemma ReadValueFits(body: seq<byte>, precision: nat, scale: nat)
    requires scale <= precision
    ensures ReadValue(body, scale) < Pow10(precision) <==> Number(Whole(body)) < Pow10(precision - scale)
  {
    hide Pow10, Number, Kept, Whole;
    NumberBelow(Kept(body, scale));
    ScaledFitsExactly(Number(Whole(body)), Number(Kept(body, scale)), |Kept(body, scale)|, precision, scale);
  }

  /** A text that is parsed has no plus sign. */
  lemma ParsedBody(s: seq<byte>, scale: nat)
    requires ParseDecimal(s, scale).Some?
    ensures Unsigned(s) == Body(s)
  {
    if s != [] && s[0] == PLUS { PlusIsRefused(s, scale); }
  }

  /** Which accepted texts are stored within the precision: those whose integer part leaves room
      for the scale. For plain texts the check has seen to that; the others it has not looked at. */
  lemma AcceptedFitsPrecision(s: seq<byte>, precision: nat, scale: nat)
    requires scale <= precision <= MAX_PRECISION
    requires Accepted(s, precision, scale) && ParseDecimal(s, scale).Some?
    ensures Magnitude(ParseDecimal(s, scale).value) < Pow10(precision)
       <==> Number(Whole(Unsigned(s))) < Pow10(precision - scale)
  {
    hide Pow10, Number, ParseDecimal, ReadValue;
    var body := Body(s);
    ParsedBody(s, scale);
    if HasDot(body) {
      DottedIsRead(s, scale);
      ReadValueFits(body, precision, scale);
    } else {
      UndottedIsRead(s, scale);
      Pow10Grows(precision - scale, precision);
      if body == [] {
        NumberOfNothing();
        Pow10Positive(precision - scale);
      } else {
        assert Whole(body) + Fraction(body) == body;
      }
    }
  }

  lemma NumberOfNothing()
    ensures Number([]) == 0 && Pow10(0) == 1
  {
  }

  /** A text without a dot is parsed as it stands, without scaling. */
  lemma UndottedIsRead(s: seq<byte>, scale: nat)
    requires !HasDot(Body(s))
    ensures ParseDecimal(s, scale)
         == if AllDigits(Body(s)) && Number(Body(s)) < TWO_127 then Some(Signed(s, Number(Body(s)))) else None
  {
    NumberOfNothing();
    assert Number(Body(s)) * 1 == Number(Body(s));
  }

  /** The accepted texts that are stored without being plain: nothing at all, a lone dot, or a
      dotted text with something else than digits behind the digits that are read. */
  lemma StoredButNotPlain(s: seq<byte>, precision: nat, scale: nat)
    requires ParseDecimal(s, scale).Some?
    ensures var body := Body(s);
            !IsPlain(body) <==> body == [] || body == [DOT] || !AllDigits(Fraction(body)[|Kept(body, scale)|..])
  {
    hide Pow10, Number;
    var body := Body(s);
    if HasDot(body) {
      DottedIsRead(s, scale);
      var f, n := Fraction(body), |Kept(body, scale)|;
      assert f == f[..n] + f[n..];
      DigitsOfConcat(f[..n], f[n..]);
      if Whole(body) + f == [] {
        assert body == Whole(body) + [DOT] + f;
      }
      if body == [DOT] {
        assert DotAt(body) == 0;
      }
    } else {
      UndottedIsRead(s, scale);
    }
  }

  /** The text is a number, and that number is in the column. */
  predicate StoredExactly(s: seq<byte>, precision: nat, scale: nat) {
    && IsPlain(Body(s)) && |Fraction(Body(s))| <= scale && ParseDecimal(s, scale).Some?
    && Narrow(ParseDecimal(s, scale).value, StoreOf(precision)) == Signed(s, ScaledValue(Body(s), scale))
  }

  /** Of all texts that are accepted and parsed, exactly the plain ones are stored as the number
      they denote that have a dot, or nothing to scale, or are zero. */
  lemma ExactIfPlainAndDotted(s: seq<byte>, precision: nat, scale: nat)
    requires scale <= precision <= MAX_PRECISION
    requires Accepted(s, precision, scale) && ParseDecimal(s, scale).Some?
    ensures StoredExactly(s, precision, scale)
       <==> IsPlain(Body(s)) && (HasDot(Body(s)) || scale == 0 || Number(Body(s)) == 0)
  {
    hide Narrow, Number, Pow10;
    var body := Body(s);
    ParsedBody(s, scale);
    if IsPlain(body) {
      AcceptedFitsPrecision(s, precision, scale);
      StoreKeeps(ParseDecimal(s, scale).value, precision);
      if HasDot(body) {
        DottedIsRead(s, scale);
        assert Kept(body, scale) == Fraction(body);
      } else {
        UndottedIsRead(s, scale);
        NumberOfNothing();
        UnscaledDiffers(Number(body), scale);
      }
    }
  }

  /** A plain text that fits and has no plus sign is always parsed. */
  lemma PlainIsParsed(s: seq<byte>, precision: nat, scale: nat)
    requires scale <= precision <= MAX_PRECISION && IsPlain(Body(s)) && FitsColumn(Body(s), precision, scale)
    ensures ParseDecimal(s, scale).Some?
  {
    hide Pow10, Number;
    var body := Body(s);
    TenTo39();
    Pow10Grows(precision, 38);
    Pow10Grows(precision - scale, precision);
    if HasDot(body) {
      assert Kept(body, scale) == Fraction(body);
      DottedIsRead(s, scale);
      NumberBelow(Fraction(body));
      ScaledFits(Number(Whole(body)), Number(Fraction(body)), |Fraction(body)|, precision, scale);
    } else {
      UndottedIsRead(s, scale);
    }
  }

  /** A byte that is no digit behind the digits that are read turns the check off: whatever the
      integer part, the text is accepted, and stored if it fits 128 bits. */
  lemma JunkTurnsCheckOff(w: seq<byte>, f: seq<byte>, junk: seq<byte>, precision: nat, scale: nat)
    requires AllDigits(w) && w != [] && AllDigits(f) && |f| == scale && !AllDigits(junk)
    ensures var s := w + [DOT] + (f + junk);
            && Accepted(s, precision, scale)
            && ParseDecimal(s, scale) == if Number(w + f) < TWO_127 then Some(Number(w + f)) else None
  {
    hide Pow10, Number;
    var s := w + [DOT] + (f + junk);
    PartsAroundDot(w, f, junk);
    hide AllDigits, Whole, Kept, Fraction, ParseDecimal, ReadValue;
    DigitsOfConcat(f, junk);
    DottedIsRead(s, scale);
    FullFractionIsRead(s, scale);
  }

  const LETTER_E: byte := 69

  /** A float that is printed with an exponent, as in 1.0E+25: the exponent is never looked at. The
      text is accepted and stored as its mantissa cut to the scale, if the mantissa has that many
      digits and fits; otherwise it is refused. */
  lemma ExponentIsDropped(w: seq<byte>, f: seq<byte>, exponent: seq<byte>, precision: nat, scale: nat)
    requires AllDigits(w) && w != [] && AllDigits(f)
    ensures var s := w + [DOT] + (f + ([LETTER_E] + exponent));
            && Accepted(s, precision, scale)
            && ParseDecimal(s, scale) == if scale <= |f| && Number(w + f[..scale]) < TWO_127
                                         then Some(Number(w + f[..scale])) else None
  {
    var junk := [LETTER_E] + exponent;
    assert !IsDigit(junk[0]);
    if scale <= |f| {
      hide Number, Accepted, ParseDecimal;
      assert f + junk == f[..scale] + (f[scale..] + junk);
      assert (f[scale..] + junk)[|f| - scale] == LETTER_E;
      JunkTurnsCheckOff(w, f[..scale], f[scale..] + junk, precision, scale);
    } else {
      hide Number, Accepted, ParseDecimal;
      JunkInScaleIsRefused(w, f, junk, precision, scale);
    }
  }

  lemma JunkInScaleIsRefused(w: seq<byte>, f: seq<byte>, junk: seq<byte>, precision: nat, scale: nat)
    requires AllDigits(w) && w != [] && |f| < scale && junk != [] && !IsDigit(junk[0])
    ensures var s := w + [DOT] + (f + junk);
            Accepted(s, precision, scale) && ParseDecimal(s, scale) == None
  {
    hide Number, Pow10, ParseDecimal, ReadValue;
    var s := w + [DOT] + (f + junk);
    PartsAroundDot(w, f, junk);
    assert Fraction(s)[|f|] == junk[0];
    assert Kept(s, scale)[|f|] == junk[0];
    DottedIsRead(s, scale);
  }

  /** The float 1.0E+25 in a Decimal(38, 1) column is stored as 1.0. */
  lemma FloatLosesExponent()
    ensures var s := [49] + [DOT] + ([48] + ([LETTER_E] + [PLUS, 50, 53]));
            && Accepted(s, 38, 1) && ParseDecimal(s, 1) == Some(10)
            && Narrow(10, StoreOf(38)) == 10
            && DecimalCell(10, 1) == [49, DOT, 48]
  {
    hide Accepted, ParseDecimal, DecimalCell, Number;
    ExponentIsDropped([49], [48], [PLUS, 50, 53], 38, 1);
    TenTenths();
  }

  lemma TenTenths()
    ensures Number([49] + [48][..1]) == 10 && DecimalCell(10, 1) == [49, DOT, 48]
  {
    assert [49] + [48][..1] == [49, 48];
    assert [49, 48][..1] == [49] && [49][..0] == [];
    assert Number([49]) == 1;
  }

  lemma FullFractionIsRead(s: seq<byte>, scale: nat)
    requires |Kept(s, scale)| == scale
    ensures ReadValue(s, scale) == Number(Whole(s) + Kept(s, scale))
  {
    hide Number, Kept, Whole;
    NumberOfConcat(Whole(s), Kept(s, scale));
    NumberOfNothing();
    assert Number(Kept(s, scale)) * 1 == Number(Kept(s, scale));
  }

  lemma PartsAroundDot(w: seq<byte>, f: seq<byte>, junk: seq<byte>)
    requires AllDigits(w) && w != []
    ensures var s := w + [DOT] + (f + junk);
            && s[0] == w[0] && IsDigit(s[0]) && Body(s) == s && Unsigned(s) == s && HasDot(s)
            && Whole(s) == w && Fraction(s) == f + junk && Kept(s, |f|) == f
  {
    DigitsHaveNoDot(w);
    FirstDot(w, f + junk);
    assert (w + [DOT] + (f + junk))[0] == w[0];
  }

  const TEN_BILLION: seq<byte> := [49, 48, 48, 48, 48, 48, 48, 48, 48, 48, 48]

  /** 10000000000.00x in a Decimal(9, 2) column: accepted, parsed as 10^12, and cut to 32 bits. */
  lemma TenBillionIsCut()
    ensures var s := TEN_BILLION + [DOT] + ([48, 48] + [120]);
            && Accepted(s, 9, 2) && ParseDecimal(s, 2) == Some(1000000000000)
            && Narrow(1000000000000, StoreOf(9)) != 1000000000000
  {
    var junk: seq<byte> := [120];
    assert !IsDigit(junk[0]);
    JunkTurnsCheckOff(TEN_BILLION, [48, 48], junk, 9, 2);
    TenBillion();
    NarrowKeepsRange(1000000000000, StoreOf(9));
  }

  lemma TenBillion()
    ensures Number(TEN_BILLION + [48, 48]) == 1000000000000
  {
    var ds := TEN_BILLION + [48, 48];
    assert ds == [49] + seq(12, _ => DIGIT_ZERO);
    NumberOfConcat([49], seq(12, _ => DIGIT_ZERO));
    ZerosAreZero(seq(12, _ => DIGIT_ZERO));
    assert [49][..0] == [];
    assert Pow10(6) == 1000000 && Pow10(12) == 1000000 * Pow10(6);
  }

  lemma UnscaledDiffers(w: nat, scale: nat)
    ensures w == w * Pow10(scale) + 0 * Pow10(scale) <==> scale == 0 || w == 0
  {
    assert Pow10(0) == 1;
    if 0 < scale && 0 < w {
      Pow10Grows(1, scale);
      ProductMonotone(10, Pow10(scale), w);
    }
  }

  lemma PlusIsRefused(s: seq<byte>, scale: nat)
    requires s != [] && s[0] == PLUS
    ensures ParseDecimal(s, scale) == None
  {
    assert Body(s) == s;
    if HasDot(s) {
      assert s[..DotAt(s)][0] == PLUS;
    }
    assert Significant(s, scale)[0] == PLUS;
  }

  /** Checks and appends one text. Which texts are stored, as what, and when what is stored is
      within the precision; nothing is stored when an exception is thrown. */
  method InsertDecimal(column: ColumnDecimal, s: seq<byte>) returns (ok: bool)
    modifies column
    ensures ok <==> Accepted(s, column.precision, column.scale) && ParseDecimal(s, column.scale).Some?
    ensures !ok ==> column.data == old(column.data)
    ensures ok ==> column.data == old(column.data)
                                  + [Narrow(ParseDecimal(s, column.scale).value, StoreOf(column.precision))]
    ensures ok && column.scale <= column.precision <= MAX_PRECISION ==>
              && (Number(Whole(Unsigned(s))) < Pow10(column.precision - column.scale) ==>
                    column.data == old(column.data) + [ParseDecimal(s, column.scale).value])
              && (IsPlain(Unsigned(s)) && (HasDot(Unsigned(s)) || column.scale == 0 || Number(Unsigned(s)) == 0) ==>
                    column.data == old(column.data) + [Signed(s, ScaledValue(Unsigned(s), column.scale))])
  {
    hide Number, Pow10, DotAt, Narrow, ParseDecimal, Signed, ScaledValue;
    ok := ValidateDecimalText(s, column.precision, column.scale);
    if ok {
      ok := column.Append(s);
      if ok {
        WhatIsStored(s, column.precision, column.scale);
      }
    }
  }

  lemma WhatIsStored(s: seq<byte>, precision: nat, scale: nat)
    requires Accepted(s, precision, scale) && ParseDecimal(s, scale).Some?
    ensures var u, stored := Unsigned(s), Narrow(ParseDecimal(s, scale).value, StoreOf(precision));
            scale <= precision <= MAX_PRECISION ==>
              && (Number(Whole(u)) < Pow10(precision - scale) ==> stored == ParseDecimal(s, scale).value)
              && (IsPlain(u) && (HasDot(u) || scale == 0 || Number(u) == 0) ==>
                    |Fraction(u)| <= scale && stored == Signed(s, ScaledValue(u, scale)))
  {
    hide Narrow, ParseDecimal, Pow10, Number;
    ParsedBody(s, scale);
    if scale <= precision <= MAX_PRECISION {
      AcceptedFitsPrecision(s, precision, scale);
      if Number(Whole(Unsigned(s))) < Pow10(precision - scale) {
        StoreKeeps(ParseDecimal(s, scale).value, precision);
      }
      ExactIfPlainAndDotted(s, precision, scale);
    }
  }

  //// Reading and inserting

  /** The last n digits of a number spell what division by 10^n leaves. */
  lemma {:induction false} PaddedIsRemainder(m: nat, n: nat)
    ensures var ds := Padded(m, n);
            |ds| == n && AllDigits(ds) && DropDigits(m, n) * Pow10(n) + Number(ds) == m
  {
    if n == 0 {
      assert Pow10(0) == 1;
    } else {
      PaddedIsRemainder(m / 10, n - 1);
      assert Padded(m, n)[..n - 1] == Padded(m / 10, n - 1);
      assert Number(Padded(m, n)) == Number(Padded(m / 10, n - 1)) * 10 + m % 10;
      LastDigitBack(DropDigits(m, n), Pow10(n - 1), Number(Padded(m / 10, n - 1)), m);
    }
  }

  lemma LastDigitBack(q: nat, p: nat, x: nat, m: nat)
    requires q * p + x == m / 10
    ensures q * (10 * p) + (x * 10 + m % 10) == m
  {
    TenTimes(q, p);
  }

  lemma DropDigitsBelow(m: nat, s: nat, p: nat)
    requires s <= p && m < Pow10(p)
    ensures DropDigits(m, s) < Pow10(p - s)
  {
    DropDigitsDivides(m, s);
    Pow10Sum(p - s, s);
    if Pow10(p - s) <= DropDigits(m, s) {
      ProductMonotone(Pow10(p - s), DropDigits(m, s), Pow10(s));
    }
  }

  /** The text of a cell is plain, and its parts are the quotient and the last digits. */
  lemma CellParts(v: int, scale: nat)
    ensures var t, m := DecimalCell(v, scale), Magnitude(v);
            && t != [] && (t[0] == MINUS <==> v < 0) && t[0] != PLUS && Body(t) == Unsigned(t)
            && Whole(Body(t)) == Decimal(DropDigits(m, scale))
            && Fraction(Body(t)) == Padded(m, scale)
            && (HasDot(Body(t)) <==> scale != 0)
  {
    var t, m := DecimalCell(v, scale), Magnitude(v);
    var whole := Decimal(DropDigits(m, scale));
    DecimalSpells(DropDigits(m, scale));
    assert IsDigit(whole[0]);
    DigitsHaveNoDot(whole);
    if scale == 0 {
      assert whole + [] == whole;
      BodyOfCell(v, whole);
    } else {
      FirstDot(whole, Padded(m, scale));
      Assoc(whole, [DOT], Padded(m, scale));
      BodyOfCell(v, whole + ([DOT] + Padded(m, scale)));
    }
  }

  lemma BodyOfCell(v: int, body: seq<byte>)
    requires body != [] && IsDigit(body[0])
    ensures var t := Sign(v) + body;
            t[0] != PLUS && (t[0] == MINUS <==> v < 0) && Body(t) == body && Unsigned(t) == body
  {
    assert (Sign(v) + body)[|Sign(v)|..] == body;
    assert Sign(v) == [] ==> Sign(v) + body == body;
  }

  /** The text built for a stored value passes the check and is stored as the same value. */
  lemma CellRoundTrip(v: int, precision: nat, scale: nat)
    requires scale <= precision <= MAX_PRECISION && Magnitude(v) < Pow10(precision)
    ensures var t := DecimalCell(v, scale);
            && IsPlain(Unsigned(t)) && FitsColumn(Unsigned(t), precision, scale)
            && ParseDecimal(t, scale) == Some(v)
            && Narrow(v, StoreOf(precision)) == v
  {
    hide DecimalCell, ParseDecimal, Narrow, Pow10, Decimal, Padded;
    var t, m := DecimalCell(v, scale), Magnitude(v);
    CellParts(v, scale);
    DecimalSpells(DropDigits(m, scale));
    PaddedIsRemainder(m, scale);
    DropDigitsBelow(m, scale, precision);
    assert ScaledValue(Body(t), scale) == m by { assert Number(Padded(m, scale)) * 1 == Number(Padded(m, scale)); OneIsPow10(); }
    PlainIsParsed(t, precision, scale);
    ExactIfPlainAndDotted(t, precision, scale);
    AcceptedFitsPrecision(t, precision, scale);
    StoreKeeps(ParseDecimal(t, scale).value, precision);
    StoreKeeps(v, precision);
  }

  lemma OneIsPow10()
    ensures Pow10(0) == 1
  {
  }
}
