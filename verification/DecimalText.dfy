/** Decimal cells: the text the read path builds in place, the checks of the insert path, and
    the parser of the Decimal column. */
module DecimalText {
  import opened Bytes
  import opened Digits
  import opened Int128Text
  import opened Arithmetic

  const MAX_PRECISION: nat := 38
  const BUFFER_SIZE: nat := 64

  //// Reading a cell as text

  /** A number without its last n digits. */
  function DropDigits(m: nat, n: nat): nat {
    if n == 0 then m else DropDigits(m / 10, n - 1)
  }

  function Magnitude(v: int): nat {
    if 0 <= v then v else -v
  }

  function Sign(v: int): seq<byte> {
    if v < 0 then [MINUS] else []
  }

  /** The text of v * 10^-scale: sign, integer part, and exactly scale digits after a dot. */
  function DecimalCell(v: int, scale: nat): seq<byte> {
    Sign(v) + (Decimal(DropDigits(Magnitude(v), scale))
               + (if scale == 0 then [] else [DOT] + Padded(Magnitude(v), scale)))
  }

  function ZeroDigits(n: int): seq<byte> {
    if n <= 0 then [] else seq(n, _ => DIGIT_ZERO)
  }

  /** Digits with zeros in front, at least n of them. */
  function PadTo(digits: seq<byte>, n: nat): seq<byte> {
    ZeroDigits(n - |digits|) + digits
  }

  /** Dropping digits is dividing by a power of ten. */
  lemma {:induction false} DropDigitsDivides(m: nat, n: nat)
    ensures DropDigits(m, n) * Pow10(n) <= m < (DropDigits(m, n) + 1) * Pow10(n)
    decreases n
  {
    if n != 0 {
      var q, p := DropDigits(m, n), Pow10(n - 1);
      DropDigitsDivides(m / 10, n - 1);
      TenTimes(q, p);
      TenTimes(q + 1, p);
    }
  }

  /** The digits of a number, padded to more than s digits, are those of its integer part at
      scale s followed by its last s digits. */
  lemma {:induction false} DigitsSplit(m: nat, s: nat)
    ensures PadTo(Decimal(m), s + 1) == Decimal(DropDigits(m, s)) + Padded(m, s)
    ensures |Padded(m, s)| == s
    decreases s
  {
    if s == 0 {
      DecimalSpells(m);
      assert PadTo(Decimal(m), 1) == Decimal(m) == Decimal(m) + [];
    } else {
      var last: byte := DIGIT_ZERO + m % 10;
      DigitsSplit(m / 10, s - 1);
      assert PadTo(Decimal(m), s + 1) == PadTo(Decimal(m / 10), s) + [last];
      Assoc(Decimal(DropDigits(m, s)), Padded(m / 10, s - 1), [last]);
    }
  }

  /** memmove inside the buffer. */
  method Move(buf: array<byte>, to: nat, from: nat, n: nat)
    requires to + n <= buf.Length && from + n <= buf.Length
    modifies buf
    ensures buf[to..to + n] == old(buf[from..from + n])
    ensures buf[..to] == old(buf[..to]) && buf[to + n..] == old(buf[to + n..])
  {
    forall k | 0 <= k < n {
      buf[to + k] := buf[from + k];
    }
  }

  method Fill(buf: array<byte>, at: nat, n: nat, b: byte)
    requires at + n <= buf.Length
    modifies buf
    ensures buf[at..at + n] == seq(n, _ => b)
    ensures buf[..at] == old(buf[..at]) && buf[at + n..] == old(buf[at + n..])
  {
    forall k | 0 <= k < n {
      buf[at + k] := b;
    }
  }

  /** Pads the digits after the sign with zeros, so that one is left before the dot. */
  method PadDigits(buf: array<byte>, at: nat, dlen: nat, pad: nat)
    requires at + pad + dlen <= buf.Length
    modifies buf
    ensures buf[..at] == old(buf[..at])
    ensures buf[at..at + pad + dlen] == seq(pad, _ => DIGIT_ZERO) + old(buf[at..at + dlen])
  {
    ghost var digits := buf[at..at + dlen];
    Move(buf, at + pad, at, dlen);
    assert buf[..at] == buf[..at + pad][..at];
    assert buf[at + pad..at + pad + dlen] == digits;
    Fill(buf, at, pad, DIGIT_ZERO);
    assert buf[at + pad..at + pad + dlen] == buf[at + pad..][..dlen] == digits;
    assert buf[at..at + pad + dlen] == buf[at..at + pad] + buf[at + pad..at + pad + dlen];
  }

  /** Opens a gap before the last scale digits and puts the dot in it. */
  method InsertDot(buf: array<byte>, at: nat, dlen: nat, scale: nat)
    requires at + dlen + 1 <= buf.Length && scale <= dlen
    modifies buf
    ensures buf[..at] == old(buf[..at])
    ensures var digits := old(buf[at..at + dlen]);
            buf[at..at + dlen + 1] == digits[..dlen - scale] + ([DOT] + digits[dlen - scale..])
  {
    var dotPos := at + dlen - scale;
    ghost var before := buf[..];
    Move(buf, dotPos + 1, dotPos, scale);
    ghost var moved := buf[..];
    buf[dotPos] := DOT;
    assert buf[..] == moved[dotPos := DOT];
    assert moved[..dotPos + 1] == before[..dotPos + 1] && moved[dotPos + 1..dotPos + 1 + scale] == before[dotPos..dotPos + scale];
    GapOpened(before, moved, at, dotPos, scale);
  }

  lemma GapOpened(before: seq<byte>, moved: seq<byte>, at: nat, dot: nat, n: nat)
    requires at <= dot && dot + n + 1 <= |before| == |moved|
    requires moved[..dot + 1] == before[..dot + 1] && moved[dot + 1..dot + 1 + n] == before[dot..dot + n]
    ensures var after := moved[dot := DOT];
            && after[..at] == before[..at]
            && after[at..dot + n + 1] == before[at..dot + n][..dot - at] + ([DOT] + before[at..dot + n][dot - at..])
  {
    var after, digits := moved[dot := DOT], before[at..dot + n];
    assert forall k :: 0 <= k < dot ==> after[k] == moved[..dot + 1][k] == before[..dot + 1][k];
    forall k | 0 <= k < dot - at ensures after[at..dot + n + 1][k] == digits[k] {
      assert after[at + k] == before[at + k];
    }
    assert after[at..dot + n + 1][..dot - at] == digits[..dot - at];
    assert after[at..dot + n + 1][dot + 1 - at..] == moved[dot + 1..dot + 1 + n] == digits[dot - at..];
    SplitAround(after[at..dot + n + 1], dot - at);
  }

  lemma SplitAround(s: seq<byte>, n: nat)
    requires n < |s|
    ensures s == s[..n] + ([s[n]] + s[n + 1..])
  {
  }

  /** Writes the integer's text into a buffer of 64 bytes, pads it and opens a gap for the dot,
      never reaching past the end of the buffer. */
  method ReadCell(raw: int128, scale: nat) returns (text: seq<byte>)
    requires scale <= MAX_PRECISION
    ensures text == DecimalCell(raw, scale)
  {
    hide Decimal, DecimalCell, WithDot, PadTo, SignedDecimal, Sign;
    var buf := new byte[BUFFER_SIZE](_ => 0);
    var formatted := FormatInt128(raw);
    forall k | 0 <= k < |formatted| {
      buf[k] := formatted[k];
    }
    var l := |formatted|;
    assert buf[..l] == formatted;
    if scale == 0 {
      text := buf[..l];
      UnscaledCell(raw);
      return;
    }
    var signOff := if buf[0] == MINUS then 1 else 0;
    SignAndDigits(raw);
    assert formatted[0] == buf[0];
    SignSplits(raw, formatted);
    assert buf[..signOff] == formatted[..signOff] && buf[signOff..l] == formatted[signOff..];
    l := ScaleDigits(buf, signOff, l - signOff, scale);
    text := buf[..l];
    assert text == buf[..signOff] + buf[signOff..l];
    ScaledCell(raw, scale);
  }

  lemma SignSplits(raw: int, text: seq<byte>)
    requires text == Sign(raw) + Decimal(Magnitude(raw))
    ensures var n := if raw < 0 then 1 else 0;
            n < |text| && text[..n] == Sign(raw) && text[n..] == Decimal(Magnitude(raw))
  {
    DecimalSpells(Magnitude(raw));
  }

  function WithDot(digits: seq<byte>, scale: nat): seq<byte>
    requires scale <= |digits|
  {
    digits[..|digits| - scale] + ([DOT] + digits[|digits| - scale..])
  }

  /** The digits after the sign, padded if there are too few, and with the dot in its place. */
  method ScaleDigits(buf: array<byte>, signOff: nat, len: nat, scale: nat) returns (l: nat)
    requires 0 < len && signOff + len + 1 <= buf.Length && signOff + scale + 2 <= buf.Length
    modifies buf
    ensures signOff <= l <= buf.Length && buf[..signOff] == old(buf[..signOff])
    ensures var digits := PadTo(old(buf[signOff..signOff + len]), scale + 1);
            scale <= |digits| && buf[signOff..l] == WithDot(digits, scale)
  {
    var dlen := len;
    if dlen <= scale {
      PadDigits(buf, signOff, dlen, scale + 1 - dlen);
      dlen := scale + 1;
    }
    hide ZeroDigits;
    ghost var digits := buf[signOff..signOff + dlen];
    assert digits == PadTo(old(buf[signOff..signOff + len]), scale + 1);
    InsertDot(buf, signOff, dlen, scale);
    assert buf[signOff..signOff + dlen + 1] == WithDot(digits, scale);
    l := signOff + dlen + 1;
  }

  lemma UnscaledCell(raw: int)
    ensures DecimalCell(raw, 0) == SignedDecimal(raw)
  {
    assert Decimal(Magnitude(raw)) + [] == Decimal(Magnitude(raw));
  }

  lemma SignAndDigits(raw: int128)
    ensures var s := SignedDecimal(raw);
            && s != [] && s == Sign(raw) + Decimal(Magnitude(raw)) && |s| <= 40
            && (s[0] == MINUS <==> raw < 0)
  {
    SignedRoundTrip(raw);
    DecimalSpells(Magnitude(raw));
    assert IsDigit(Decimal(Magnitude(raw))[0]);
  }

  lemma ScaledCell(raw: int, scale: nat)
    requires 0 < scale
    ensures var digits := PadTo(Decimal(Magnitude(raw)), scale + 1);
            && scale <= |digits|
            && DecimalCell(raw, scale) == Sign(raw) + WithDot(digits, scale)
  {
    var whole, part := Decimal(DropDigits(Magnitude(raw), scale)), Padded(Magnitude(raw), scale);
    DigitsSplit(Magnitude(raw), scale);
    assert (whole + part)[..|whole|] == whole && (whole + part)[|whole|..] == part;
  }

  //// Overflow of 128-bit arithmetic

  /** mulOverflow: the product leaves the 128-bit range, decided by division. */
  predicate MulOverflow(l: int128, r: int128) {
    if 0 <= l then
      if 0 <= r then r != 0 && l > TruncDiv(TWO_127 - 1, r)
      else l != 0 && r < TruncDiv(MIN_INT128, l)
    else
      if 0 <= r then r != 0 && l < TruncDiv(MIN_INT128, r)
      else l != 0 && r < 0 - TruncDiv(TWO_127 - 1, 0 - l)
  }

  predicate AddOverflow(l: int128, r: int128) {
    if 0 <= r then l > TWO_127 - 1 - r else l < MIN_INT128 - r
  }

  lemma QuotientBounds(a: nat, b: int)
    requires 0 < b
    ensures a / b * b <= a < (a / b + 1) * b && 0 <= a / b
  {
  }

  lemma ProductExceeds(x: int, y: int, max: nat)
    requires 0 <= x && 0 < y
    ensures x > max / y <==> x * y > max
  {
    var q := max / y;
    QuotientBounds(max, y);
    if x > q {
      ProductMonotone(q + 1, x, y);
    } else {
      ProductMonotone(x, q, y);
    }
  }

  /** Both tests are exact on the whole range. */
  lemma OverflowExact(l: int128, r: int128)
    ensures MulOverflow(l, r) <==> !(MIN_INT128 <= l * r < TWO_127)
    ensures AddOverflow(l, r) <==> !(MIN_INT128 <= l + r < TWO_127)
  {
    var x: int, y: int := if 0 <= l then l else 0 - l, if 0 <= r then r else 0 - r;
    if x != 0 && y != 0 {
      ProductPositive(x, y);
      ProductExceeds(x, y, TWO_127 - 1);
      ProductExceeds(y, x, TWO_127 - 1);
      ProductExceeds(x, y, TWO_127);
      ProductExceeds(y, x, TWO_127);
      SignedProduct(l, r, x, y);
    }
  }

  lemma ProductPositive(x: int, y: int)
    requires 0 < x && 0 < y
    ensures 0 < x * y && x * y == y * x
  {
  }

  lemma SignedProduct(l: int, r: int, x: int, y: int)
    requires (x == l || x == -l) && (y == r || y == -r)
    ensures l * r == if (x == l) == (y == r) then x * y else -(x * y)
  {
  }

  //// The column

  datatype Store = Int32Store | Int64Store | Int128Store

  function StoreOf(precision: nat): Store {
    if precision <= 9 then Int32Store else if precision <= 18 then Int64Store else Int128Store
  }

  /** A static_cast to the width of the store. */
  function Narrow(v: int, store: Store): int {
    match store
    case Int32Store => (v + 0x8000_0000) % 0x1_0000_0000 - 0x8000_0000
    case Int64Store => (v + 0x8000_0000_0000_0000) % 0x1_0000_0000_0000_0000 - 0x8000_0000_0000_0000
    case Int128Store => v
  }

  /** The text without a leading minus. */
  function Body(s: seq<byte>): seq<byte> {
    if s != [] && s[0] == MINUS then s[1..] else s
  }

  /** The characters that count as digits: those after the dot only up to the scale. */
  function Significant(body: seq<byte>, scale: nat): seq<byte> {
    if !HasDot(body) then body
    else
      var d := DotAt(body);
      body[..d] + body[d + 1..if d + 1 + scale < |body| then d + 1 + scale else |body|]
  }

  /** The zeros appended to reach the scale: none for a text without a dot. */
  function MissingDigits(body: seq<byte>, scale: nat): nat {
    if !HasDot(body) then 0
    else
      var after := |body| - DotAt(body) - 1;
      if after <= scale then scale - after else 0
  }

  /** The integer ColumnDecimal::Append makes of a text; None is an exception. */
  function ParseDecimal(s: seq<byte>, scale: nat): Option<int> {
    var digits := Significant(Body(s), scale);
    var v := Number(digits) * Pow10(MissingDigits(Body(s), scale));
    if !AllDigits(digits) || TWO_127 <= v then None
    else Some(if s != [] && s[0] == MINUS then 0 - v else v)
  }

  class ColumnDecimal {
    const precision: nat
    const scale: nat
    var data: seq<int>

    constructor (precision: nat, scale: nat)
      ensures this.precision == precision && this.scale == scale && data == []
    {
      this.precision, this.scale, data := precision, scale, [];
    }

    method AppendValue(v: int)
      modifies this
      ensures data == old(data) + [Narrow(v, StoreOf(precision))]
    {
      data := data + [Narrow(v, StoreOf(precision))];
    }

    method Append(s: seq<byte>) returns (ok: bool)
      modifies this
      ensures match ParseDecimal(s, scale)
              case None => !ok && data == old(data)
              case Some(v) => ok && data == old(data) + [Narrow(v, StoreOf(precision))]
    {
      var intValue, zeros := ScanDecimal(s, scale);
      if intValue.None? {
        Pow10Positive(MissingDigits(Body(s), scale));
        ProductAtLeast(Number(Significant(Body(s), scale)), Pow10(MissingDigits(Body(s), scale)));
        return false;
      }
      var value := ShiftLeft(intValue.value, zeros);
      if value.None? {
        return false;
      }
      AppendValue(if |s| > 0 && s[0] == MINUS then 0 - value.value else value.value);
      ok := true;
    }
  }

  /** Appends the missing zeros one at a time, unless the value leaves the 128-bit range. */
  method ShiftLeft(v: int128, zeros: nat) returns (r: Option<int128>)
    requires 0 <= v
    ensures r == if v * Pow10(zeros) < TWO_127 then Some(v * Pow10(zeros)) else None
  {
    var value, left := v, zeros;
    while left > 0
      invariant 0 <= left <= zeros && 0 <= value < TWO_127
      invariant value * Pow10(left) == v * Pow10(zeros)
    {
      OverflowExact(value, 10);
      TenTimes(value, Pow10(left - 1));
      Assoc3(value, Pow10(left - 1));
      if MulOverflow(value, 10) {
        Pow10Positive(left - 1);
        ProductAtLeast(value * 10, Pow10(left - 1));
        return None;
      }
      value := value * 10;
      left := left - 1;
    }
    assert value * Pow10(0) == value;
    r := Some(value);
  }

  lemma Assoc3(a: nat, b: nat)
    ensures 10 * (a * b) == (a * 10) * b
  {
  }

  //// The scan

  function EndOfDigits(body: seq<byte>, scale: nat): nat {
    if HasDot(body) && DotAt(body) + 1 + scale < |body| then DotAt(body) + 1 + scale else |body|
  }

  /** The scan has read the first i characters and found v; it stops at the n-th. */
  ghost predicate Scanning(body: seq<byte>, scale: nat, i: int, n: int, hasDot: bool, zeros: int, v: int) {
    var digits, k := Significant(body, scale), if hasDot then i - 1 else i;
    && 0 <= i <= n <= |body|
    && (if hasDot then
          HasDot(body) && DotAt(body) < i && zeros == MissingDigits(body, scale) && n == EndOfDigits(body, scale)
        else
          n == |body| && zeros == 0 && NoDot(body[..i]))
    && k <= |digits| && AllDigits(digits[..k]) && v == Number(digits[..k])
  }

  lemma ScanBegins(body: seq<byte>, scale: nat)
    ensures Scanning(body, scale, 0, |body|, false, 0, 0)
  {
  }

  lemma ScanMeetsDot(body: seq<byte>, scale: nat, i: int, n: int, zeros: int, v: int)
    requires Scanning(body, scale, i, n, false, zeros, v) && i < n && body[i] == DOT
    ensures Scanning(body, scale, i + 1, EndOfDigits(body, scale), true, MissingDigits(body, scale), v)
    ensures HasDot(body) && DotAt(body) == i
  {
    DotIsHere(body, i);
  }

  /** The next character of the scan is a significant one. */
  lemma ScanMeetsDigit(body: seq<byte>, scale: nat, i: int, n: int, hasDot: bool, zeros: int, v: int)
    requires Scanning(body, scale, i, n, hasDot, zeros, v) && i < n && (body[i] != DOT || hasDot)
    ensures var digits, k := Significant(body, scale), if hasDot then i - 1 else i;
            && 0 <= k < |digits| && digits[k] == body[i]
            && Number(digits[..k + 1]) == v * 10 + DigitOf(body[i]) <= Number(digits)
    ensures IsDigit(body[i]) ==> Scanning(body, scale, i + 1, n, hasDot, zeros, v * 10 + DigitOf(body[i]))
  {
    var digits, k := Significant(body, scale), if hasDot then i - 1 else i;
    if !hasDot {
      NotYetDot(body, i);
    }
    NumberSnoc(digits, k);
    PrefixAtMost(digits, k + 1);
    assert digits[..k + 1] == digits[..k] + [digits[k]];
  }

  lemma ScanEnds(body: seq<byte>, scale: nat, n: int, hasDot: bool, zeros: int, v: int)
    requires Scanning(body, scale, n, n, hasDot, zeros, v)
    ensures var digits := Significant(body, scale);
            zeros == MissingDigits(body, scale) && AllDigits(digits) && v == Number(digits)
  {
    var digits, k := Significant(body, scale), if hasDot then n - 1 else n;
    assert !hasDot ==> body[..n] == body;
    assert digits[..k] == digits;
  }

  lemma {:induction false} DotIsHere(body: seq<byte>, i: nat)
    requires i < |body| && body[i] == DOT && NoDot(body[..i])
    ensures HasDot(body) && DotAt(body) == i
  {
    FirstDot(body[..i], body[i + 1..]);
    assert body == body[..i] + [DOT] + body[i + 1..];
  }

  /** A character that is not the first dot is before the position of the first dot. */
  lemma NotYetDot(body: seq<byte>, i: nat)
    requires i < |body| && NoDot(body[..i]) && body[i] != DOT
    ensures HasDot(body) ==> i < DotAt(body)
    ensures NoDot(body[..i + 1])
  {
    assert forall k :: 0 <= k < i ==> body[k] == body[..i][k];
  }

  /** The scanning loop of Append: one pass over the characters, with the end moved in when the
      dot is met. None is an exception. */
  method ScanDecimal(s: seq<byte>, scale: nat) returns (r: Option<int128>, zeros: nat)
    ensures var digits := Significant(Body(s), scale);
            match r
            case Some(v) => AllDigits(digits) && v == Number(digits) < TWO_127 && zeros == MissingDigits(Body(s), scale)
            case None => !AllDigits(digits) || TWO_127 <= Number(digits)
  {
    hide Number, DotAt, Significant, MulOverflow, AddOverflow;
    ghost var body := Body(s);
    var start := if |s| > 0 && s[0] == MINUS then 1 else 0;
    assert body == s[start..];
    var c, end, hasDot, intValue: int128 := start, |s|, false, 0;
    zeros := 0;
    ScanBegins(body, scale);
    while c < end
      invariant start <= c <= end <= |s| && 0 <= intValue < TWO_127
      invariant Scanning(body, scale, c - start, end - start, hasDot, zeros, intValue)
    {
      hide Scanning;
      assert s[c] == body[c - start];
      if s[c] == DOT && !hasDot {
        ScanMeetsDot(body, scale, c - start, end - start, zeros, intValue);
        var distance := |s| - c - 1;
        if distance <= scale {
          zeros := scale - distance;
        } else {
          end := end - (distance - scale);
          zeros := 0;
        }
        hasDot := true;
      } else {
        ScanMeetsDigit(body, scale, c - start, end - start, hasDot, zeros, intValue);
        if !IsDigit(s[c]) {
          return None, 0;
        }
        OverflowExact(intValue, 10);
        if MulOverflow(intValue, 10) {
          return None, 0;
        }
        OverflowExact(intValue * 10, DigitOf(s[c]));
        if AddOverflow(intValue * 10, DigitOf(s[c])) {
          return None, 0;
        }
        intValue := intValue * 10 + DigitOf(s[c]);
      }
      c := c + 1;
    }
    ScanEnds(body, scale, end - start, hasDot, zeros, intValue);
    r := Some(intValue);
  }
}
