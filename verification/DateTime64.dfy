/** DateTime and DateTime64 cells as text: formatting an epoch, parsing a civil time, and the
    scaled 64-bit values in between. */
module DateTime64 {
  import opened Bytes
  import opened Digits
  import opened Calendar
  import opened Arithmetic

  const MIN_INT64: int := -0x8000_0000_0000_0000
  const MAX_INT64: int := 0x7FFF_FFFF_FFFF_FFFF
  const SPACE: byte := 32
  const COLON: byte := 58

  type int64 = x: int | MIN_INT64 <= x <= MAX_INT64

  const SECONDS_PER_DAY: int := 86400

  //// Formatting

  /** The day of an epoch second, and the second of that day. */
  function FloorDiv86400(epoch: int): (int, int) {
    var days := if 0 <= epoch then epoch / 86400 else -((-epoch + 86399) / 86400);
    (days, epoch - days * 86400)
  }

  /** The cast of the year to a 32-bit int. */
  function Wrap32(y: int): int {
    (y + 0x8000_0000) % 0x1_0000_0000 - 0x8000_0000
  }

  /** printf %04d. */
  function FormatYear(y: int): seq<byte> {
    if 0 <= y < 10000 then Padded(y, 4)
    else if 10000 <= y then Decimal(y)
    else if -1000 < y then [MINUS] + Padded(-y, 3)
    else [MINUS] + Decimal(-y)
  }

  function Two(v: int): seq<byte> {
    Padded(if 0 <= v then v else 0, 2)
  }

  function FormatDate(d: Date): seq<byte> {
    FormatYear(d.year) + ([MINUS] + Two(d.month) + [MINUS] + Two(d.day))
  }

  function FormatTime(seconds: int): seq<byte> {
    [SPACE] + Two(seconds / 3600) + [COLON] + Two(seconds / 60 % 60) + [COLON] + Two(seconds % 60)
  }

  function CDate(days: int): Date {
    var d := CivilFromDays(days);
    d.(year := Wrap32(d.year))
  }

  function FormatEpoch(epoch: int): seq<byte> {
    var (days, seconds) := FloorDiv86400(epoch);
    FormatDate(CDate(days)) + FormatTime(seconds)
  }

  //// Parsing

  predicate DigitsAt(s: seq<byte>, i: nat, n: nat) {
    i + n <= |s| && AllDigits(s[i..i + n])
  }

  predicate DateShape(s: seq<byte>) {
    && 10 <= |s| && DigitsAt(s, 0, 4) && s[4] == MINUS && DigitsAt(s, 5, 2) && s[7] == MINUS && DigitsAt(s, 8, 2)
  }

  predicate TimeShape(s: seq<byte>) {
    && 19 <= |s| && s[10] == SPACE && DigitsAt(s, 11, 2) && s[13] == COLON && DigitsAt(s, 14, 2)
    && s[16] == COLON && DigitsAt(s, 17, 2)
  }

  /** The days of a month as to_time_t's table has them; 0 for a month there is not. */
  function MaxDay(year: int, month: int): int {
    if 1 <= month <= 12 then
      [31, 28, 31, 30, 31, 30, 31, 31, 30, 31, 30, 31][month - 1] + (if month == 2 && IsLeap(year) then 1 else 0)
    else 0
  }

  /** to_time_t for date and time: the epoch second, or failure. */
  function ParseDateTime(s: seq<byte>): Option<int> {
    if |s| != 19 || !DateShape(s) || !TimeShape(s) then None
    else
      var d := Date(Number(s[0..4]), Number(s[5..7]), Number(s[8..10]));
      var h, m, sec := Number(s[11..13]), Number(s[14..16]), Number(s[17..19]);
      if d.day < 1 || d.day > MaxDay(d.year, d.month) || h > 23 || m > 59 || sec > 59 then None
      else Some(DaysFromCivil(d) * SECONDS_PER_DAY + h * 3600 + m * 60 + sec)
  }

  /** What a parsed text with a fraction is worth: whole seconds and ticks. */
  function ParseFraction(digits: seq<byte>, precision: nat): Option<nat> {
    if precision == 0 || digits == [] || precision < |digits| || !AllDigits(digits) then None
    else Some(Number(digits) * Pow10(precision - |digits|))
  }

  function ParseWithFraction(s: seq<byte>, precision: nat): Option<(int, nat)> {
    if HasDot(s) then
      match (ParseDateTime(s[..DotAt(s)]), ParseFraction(s[DotAt(s) + 1..], precision))
      case (Some(whole), Some(frac)) => Some((whole, frac))
      case _ => None
    else
      match ParseDateTime(s)
      case Some(whole) => Some((whole, 0))
      case None => None
  }

  /** The digits after the dot, read at most to the precision and padded up to it. */
  method ReadFraction(s: seq<byte>, precision: nat) returns (r: Option<nat>)
    ensures r == ParseFraction(s, precision)
  {
    if precision == 0 || |s| == 0 {
      return None;
    }
    var frac, consumed := 0, 0;
    while consumed < |s| && consumed < precision && IsDigit(s[consumed])
      invariant 0 <= consumed <= |s| && consumed <= precision
      invariant AllDigits(s[..consumed]) && frac == Number(s[..consumed])
    {
      NumberSnoc(s, consumed);
      frac := frac * 10 + DigitOf(s[consumed]);
      consumed := consumed + 1;
    }
    if consumed == 0 {
      return None;
    }
    var pad := consumed;
    while pad < precision
      invariant consumed <= pad <= precision
      invariant frac * Pow10(precision - pad) == Number(s[..consumed]) * Pow10(precision - consumed)
    {
      assert Pow10(precision - pad) == 10 * Pow10(precision - pad - 1);
      assert frac * (10 * Pow10(precision - pad - 1)) == (frac * 10) * Pow10(precision - pad - 1);
      frac := frac * 10;
      pad := pad + 1;
    }
    if consumed < |s| {
      assert precision < |s| || !IsDigit(s[consumed]);
      return None;
    }
    assert s[..consumed] == s;
    r := Some(frac);
  }

  //// Cells

  function FormatCell(raw: int64, precision: nat): seq<byte> {
    var scale := Pow10(precision);
    Pow10Positive(precision);
    var (whole, frac) := SplitTicks(raw, scale);
    FormatEpoch(whole) + (if 0 < precision then [DOT] + Padded(frac, precision) else [])
  }

  /** Truncating division and remainder, moved down when the remainder is negative. */
  function SplitTicks(raw: int, scale: int): (r: (int, nat))
    requires 0 < scale
    ensures r.0 == raw / scale && r.1 == raw % scale
  {
    TruncatedParts(raw, scale);
    var whole := TruncDiv(raw, scale);
    var frac := raw - whole * scale;
    if frac < 0 then (whole - 1, frac + scale) else (whole, frac)
  }

  /** appendDateTime64Cell for a text: the multiplication is guarded before it is done. */
  function InsertCell(s: seq<byte>, precision: nat): Option<int> {
    Pow10Positive(precision);
    var scale := Pow10(precision);
    match ParseWithFraction(s, precision)
    case None => None
    case Some((w, frac)) =>
      if w > TruncDiv(MAX_INT64 - frac, scale) || w < TruncDiv(MIN_INT64, scale) then None
      else Some(w * scale + frac)
  }

  //// Facts about division

  lemma DivMod(a: int, b: int)
    requires 0 < b
    ensures a == a / b * b + a % b && 0 <= a % b < b
  {
  }

  lemma QuotientUnique(b: int, q: int, r: int, q': int, r': int)
    requires 0 < b && q * b + r == q' * b + r' && 0 <= r < b && 0 <= r' < b
    ensures q == q' && r == r'
  {
    if q < q' {
      assert (q' - q) * b == q' * b - q * b;
      AtLeastOne(q' - q, b);
    } else if q' < q {
      assert (q - q') * b == q * b - q' * b;
      AtLeastOne(q - q', b);
    }
  }

  lemma AtLeastOne(k: int, b: int)
    requires 1 <= k && 0 < b
    ensures b <= k * b
  {
  }

  lemma TruncatedParts(raw: int, scale: int)
    requires 0 < scale
    ensures var whole := TruncDiv(raw, scale);
            var frac := raw - whole * scale;
            if frac < 0 then whole - 1 == raw / scale && frac + scale == raw % scale
            else whole == raw / scale && frac == raw % scale
  {
    var whole := TruncDiv(raw, scale);
    var frac := raw - whole * scale;
    DivMod(raw, scale);
    DivMod(-raw, scale);
    if 0 <= raw {
    } else {
      var q, r := (-raw) / scale, (-raw) % scale;
      assert -raw == q * scale + r && whole == -q;
      assert raw == (-q) * scale + (-r);
      if r == 0 {
        QuotientUnique(scale, -q, 0, raw / scale, raw % scale);
      } else {
        assert raw == (-q - 1) * scale + (scale - r);
        QuotientUnique(scale, -q - 1, scale - r, raw / scale, raw % scale);
      }
    }
  }

  //// Text of an epoch and back

  /** The nineteen characters of a date and time. */
  function Stamp(y: seq<byte>, mo: seq<byte>, d: seq<byte>, h: seq<byte>, mi: seq<byte>, sec: seq<byte>): seq<byte> {
    (y + ([MINUS] + mo + [MINUS] + d)) + ([SPACE] + h + [COLON] + mi + [COLON] + sec)
  }

  lemma StampFields(y: seq<byte>, mo: seq<byte>, d: seq<byte>, h: seq<byte>, mi: seq<byte>, sec: seq<byte>)
    requires |y| == 4 && |mo| == |d| == |h| == |mi| == |sec| == 2
    ensures var s := Stamp(y, mo, d, h, mi, sec);
            && |s| == 19
            && s[0..4] == y && s[5..7] == mo && s[8..10] == d
            && s[11..13] == h && s[14..16] == mi && s[17..19] == sec
            && s[4] == MINUS && s[7] == MINUS && s[10] == SPACE && s[13] == COLON && s[16] == COLON
  {
    var date, time := y + ([MINUS] + mo + [MINUS] + d), [SPACE] + h + [COLON] + mi + [COLON] + sec;
    var s := date + time;
    assert s[..10] == date && s[10..] == time;
    assert date[0..4] == y && date[5..7] == mo && date[8..10] == d && date[4] == MINUS && date[7] == MINUS;
    assert time[1..3] == h && time[4..6] == mi && time[7..9] == sec;
    assert time[0] == SPACE && time[3] == COLON && time[6] == COLON;
  }

  lemma TwoDigits(v: int)
    requires 0 <= v < 100
    ensures |Two(v)| == 2 && AllDigits(Two(v)) && Number(Two(v)) == v
  {
    assert Pow10(2) == 100;
    PaddedSpells(v, 2);
  }

  lemma MonthTable(year: int, month: int)
    ensures MaxDay(year, month) == (if 1 <= month <= 12 then DaysInMonth(year, month) else 0)
  {
  }

  lemma SecondsOfDay(seconds: int)
    requires 0 <= seconds < 86400
    ensures 0 <= seconds / 3600 <= 23
    ensures seconds / 3600 * 3600 + seconds / 60 % 60 * 60 + seconds % 60 == seconds
  {
    assert seconds / 60 / 60 == seconds / 3600;
  }

  lemma EpochSplits(epoch: int)
    ensures FloorDiv86400(epoch) == (epoch / 86400, epoch % 86400)
  {
  }

  /** A printed date and time parses to the second it stands for, if it is one. */
  lemma StampParses(d: Date, seconds: int)
    requires 0 <= d.year < 10000 && 1 <= d.month <= 12 && 1 <= d.day <= 31 && 0 <= seconds < 86400
    ensures ParseDateTime(FormatDate(d) + FormatTime(seconds))
         == if IsDate(d) then Some(DaysFromCivil(d) * SECONDS_PER_DAY + seconds) else None
  {
    hide ParseDateTime, DaysFromCivil, MaxDay;
    var h, mi, sec := seconds / 3600, seconds / 60 % 60, seconds % 60;
    var y := FormatYear(d.year);
    assert Pow10(4) == 10000;
    PaddedSpells(d.year, 4);
    TwoDigits(d.month);
    TwoDigits(d.day);
    TwoDigits(h);
    TwoDigits(mi);
    TwoDigits(sec);
    StampFields(y, Two(d.month), Two(d.day), Two(h), Two(mi), Two(sec));
    SecondsOfDay(seconds);
    MonthTable(d.year, d.month);
    FieldsParse(FormatDate(d) + FormatTime(seconds), d, h, mi, sec);
  }

  lemma FieldsParse(s: seq<byte>, d: Date, h: int, m: int, sec: int)
    requires |s| == 19 && DateShape(s) && TimeShape(s)
    requires Number(s[0..4]) == d.year && Number(s[5..7]) == d.month && Number(s[8..10]) == d.day
    requires Number(s[11..13]) == h && Number(s[14..16]) == m && Number(s[17..19]) == sec
    requires MaxDay(d.year, d.month) == (if 1 <= d.month <= 12 then DaysInMonth(d.year, d.month) else 0)
    ensures ParseDateTime(s)
         == if IsDate(d) && h < 24 && m < 60 && sec < 60
            then Some(DaysFromCivil(d) * SECONDS_PER_DAY + (h * 3600 + m * 60 + sec)) else None
  {
    hide Number, DaysFromCivil, MaxDay, DaysInMonth, DateShape, TimeShape;
    assert Date(Number(s[0..4]), Number(s[5..7]), Number(s[8..10])) == d;
  }

  /** Whatever numbers stand in the fields of a date and time, the text is accepted if and only if they
      are a date of the calendar and a time of the day, and then it is that second. */
  lemma FieldsDecide(d: Date, h: nat, m: nat, sec: nat)
    requires 0 <= d.year < 10000 && 0 <= d.month < 100 && 0 <= d.day < 100 && h < 100 && m < 100 && sec < 100
    ensures ParseDateTime(Stamp(Padded(d.year, 4), Two(d.month), Two(d.day), Two(h), Two(m), Two(sec)))
         == if IsDate(d) && h < 24 && m < 60 && sec < 60
            then Some(DaysFromCivil(d) * 86400 + (h * 3600 + m * 60 + sec)) else None
  {
    hide ParseDateTime, DaysFromCivil, MaxDay;
    var y := Padded(d.year, 4);
    assert Pow10(4) == 10000;
    PaddedSpells(d.year, 4);
    TwoDigits(d.month);
    TwoDigits(d.day);
    TwoDigits(h);
    TwoDigits(m);
    TwoDigits(sec);
    StampFields(y, Two(d.month), Two(d.day), Two(h), Two(m), Two(sec));
    MonthTable(d.year, d.month);
    FieldsParse(Stamp(y, Two(d.month), Two(d.day), Two(h), Two(m), Two(sec)), d, h, m, sec);
  }

  /** Only texts of that form are accepted: nineteen characters, six groups of digits, and the marks
      between them. */
  lemma OnlyStamps(s: seq<byte>)
    requires ParseDateTime(s).Some?
    ensures |s| == 19
    ensures s == Stamp(s[0..4], s[5..7], s[8..10], s[11..13], s[14..16], s[17..19])
    ensures forall i :: 0 <= i < 19 && i != 4 && i != 7 && i != 10 && i != 13 && i != 16 ==> IsDigit(s[i])
  {
    hide Number, DaysFromCivil, MaxDay;
    var t := Stamp(s[0..4], s[5..7], s[8..10], s[11..13], s[14..16], s[17..19]);
    StampFields(s[0..4], s[5..7], s[8..10], s[11..13], s[14..16], s[17..19]);
    StampOfParts(s, t);
    assert IsDigit(s[0..4][0]) && IsDigit(s[0..4][1]) && IsDigit(s[0..4][2]) && IsDigit(s[0..4][3]);
    assert IsDigit(s[5..7][0]) && IsDigit(s[5..7][1]) && IsDigit(s[8..10][0]) && IsDigit(s[8..10][1]);
    assert IsDigit(s[11..13][0]) && IsDigit(s[11..13][1]) && IsDigit(s[14..16][0]) && IsDigit(s[14..16][1]);
    assert IsDigit(s[17..19][0]) && IsDigit(s[17..19][1]);
  }

  lemma StampOfParts(s: seq<byte>, t: seq<byte>)
    requires |s| == |t| == 19 && t[0..4] == s[0..4] && t[5..7] == s[5..7] && t[8..10] == s[8..10]
    requires t[11..13] == s[11..13] && t[14..16] == s[14..16] && t[17..19] == s[17..19]
    requires t[4] == s[4] && t[7] == s[7] && t[10] == s[10] && t[13] == s[13] && t[16] == s[16]
    ensures s == t
  {
    assert forall i :: 0 <= i < 4 ==> t[i] == t[0..4][i] && s[i] == s[0..4][i];
    assert forall i :: 5 <= i < 7 ==> t[i] == t[5..7][i - 5] && s[i] == s[5..7][i - 5];
    assert forall i :: 8 <= i < 10 ==> t[i] == t[8..10][i - 8] && s[i] == s[8..10][i - 8];
    assert forall i :: 11 <= i < 13 ==> t[i] == t[11..13][i - 11] && s[i] == s[11..13][i - 11];
    assert forall i :: 14 <= i < 16 ==> t[i] == t[14..16][i - 14] && s[i] == s[14..16][i - 14];
    assert forall i :: 17 <= i < 19 ==> t[i] == t[17..19][i - 17] && s[i] == s[17..19][i - 17];
  }

  lemma DecimalGrows(v: nat)
    requires 10 <= v
    ensures |Decimal(v)| == |Decimal(v / 10)| + 1
  {
  }

  lemma DecimalIsLong(v: nat)
    requires 10000 <= v
    ensures 5 <= |Decimal(v)| && AllDigits(Decimal(v))
  {
    hide Decimal;
    DecimalSpells(v);
    DecimalGrows(v);
    DecimalGrows(v / 10);
    DecimalGrows(v / 10 / 10);
    DecimalGrows(v / 10 / 10 / 10);
    DecimalSpells(v / 10 / 10 / 10 / 10);
  }

  /** A year of other than four digits is not read as a year. */
  lemma OddYearFails(y: int, rest: seq<byte>)
    requires !(0 <= y < 10000)
    ensures !DateShape(FormatYear(y) + rest)
  {
    var s := FormatYear(y) + rest;
    if 10000 <= y {
      DecimalIsLong(y);
      assert IsDigit(s[4]);
    } else {
      assert s[0] == MINUS;
      assert |s| >= 4 ==> s[0..4][0] == MINUS;
    }
  }

  lemma CivilMonthAndDay(days: int)
    ensures var d := CDate(days);
            && 1 <= d.month <= 12 && 1 <= d.day <= 31
            && d == CivilFromDays(days).(year := d.year)
            && (0 <= CivilFromDays(days).year < 10000 ==> d == CivilFromDays(days))
            && IsDate(CivilFromDays(days))
  {
    hide CivilFromDays;
    DaysAndBack(days);
  }

  /** The year that is printed is the 32-bit integer that the year is cast to. */
  lemma YearIsCast(days: int)
    ensures var y, year := CDate(days).year, CivilFromDays(days).year;
            -0x8000_0000 <= y < 0x8000_0000 && (year - y) % 0x1_0000_0000 == 0
            && (-0x8000_0000 <= year < 0x8000_0000 ==> y == year)
  {
    hide CivilFromDays;
    WrapIsCast(CivilFromDays(days).year);
  }

  lemma WrapIsCast(year: int)
    ensures var y := Wrap32(year);
            -0x8000_0000 <= y < 0x8000_0000 && (year - y) % 0x1_0000_0000 == 0
            && (-0x8000_0000 <= year < 0x8000_0000 ==> y == year)
  {
    DivMod(year + 0x8000_0000, 0x1_0000_0000);
    var q := (year + 0x8000_0000) / 0x1_0000_0000;
    assert year - Wrap32(year) == q * 0x1_0000_0000;
  }

  predicate YearInRange(epoch: int) {
    0 <= CivilFromDays(epoch / 86400).year < 10000
  }

  /** The text of an epoch second parses to that very second exactly for the years 0 to 9999. */
  lemma EpochRoundTrip(epoch: int)
    ensures ParseDateTime(FormatEpoch(epoch)) == Some(epoch) <==> YearInRange(epoch)
  {
    hide CivilFromDays, DaysFromCivil, ParseDateTime, FormatTime, FormatYear;
    var days, seconds := epoch / 86400, epoch % 86400;
    var d := CDate(days);
    EpochSplits(epoch);
    CivilMonthAndDay(days);
    DaysAndBack(days);
    if 0 <= d.year < 10000 {
      StampParses(d, seconds);
      if IsDate(d) {
        DateAndBack(d);
        SameSecond(DaysFromCivil(d), days, seconds);
      }
    } else {
      OddYearText(d, FormatTime(seconds));
    }
  }

  lemma SameSecond(a: int, b: int, seconds: int)
    ensures a * SECONDS_PER_DAY + seconds == b * SECONDS_PER_DAY + seconds <==> a == b
  {
  }

  lemma OddYearText(d: Date, time: seq<byte>)
    requires !(0 <= d.year < 10000)
    ensures ParseDateTime(FormatDate(d) + time) == None
  {
    var rest := [MINUS] + Two(d.month) + [MINUS] + Two(d.day);
    Assoc(FormatYear(d.year), rest, time);
    OddYearFails(d.year, rest + time);
  }

  //// Cells and back

  lemma EpochHasNoDot(epoch: int)
    ensures NoDot(FormatEpoch(epoch))
  {
    hide CivilFromDays;
    var (days, seconds) := FloorDiv86400(epoch);
    var d := CDate(days);
    YearHasNoDot(d.year);
    TwoHasNoDot(d.month);
    TwoHasNoDot(d.day);
    TwoHasNoDot(seconds / 3600);
    TwoHasNoDot(seconds / 60 % 60);
    TwoHasNoDot(seconds % 60);
  }

  lemma TwoHasNoDot(v: int)
    ensures NoDot(Two(v))
  {
    PaddedHasNoDot(if 0 <= v then v else 0, 2);
  }

  lemma YearHasNoDot(y: int)
    ensures NoDot(FormatYear(y))
  {
    if 0 <= y < 10000 {
      PaddedHasNoDot(y, 4);
    } else if 10000 <= y {
      DecimalSpells(y);
    } else if -1000 < y {
      PaddedHasNoDot(-y, 3);
    } else {
      DecimalSpells(-y);
    }
  }

  /** The text of a cell splits back into the text of its whole seconds and its ticks. */
  lemma CellTextSplits(whole: int, frac: nat, precision: nat)
    requires frac < Pow10(precision)
    ensures var s := FormatEpoch(whole) + (if 0 < precision then [DOT] + Padded(frac, precision) else []);
            ParseWithFraction(s, precision) ==
              match ParseDateTime(FormatEpoch(whole))
              case Some(w) => Some((w, frac))
              case None => None
  {
    hide FormatEpoch, ParseDateTime, Padded;
    EpochHasNoDot(whole);
    var text := FormatEpoch(whole);
    if precision == 0 {
      assert text + [] == text;
      assert frac == 0;
    } else {
      var digits := Padded(frac, precision);
      FirstDot(text, digits);
      assert text + [DOT] + digits == text + ([DOT] + digits);
      PaddedSpells(frac, precision);
      assert ParseFraction(digits, precision) == Some(frac);
    }
  }

  /** The guard lets through exactly what fits, apart from the partial second at the very
      bottom of the range, and what it lets through always fits 64 bits. */
  lemma GuardIsSafe(w: int, frac: nat, scale: int)
    requires 0 < scale && frac < scale <= MAX_INT64
    ensures var passes := !(w > TruncDiv(MAX_INT64 - frac, scale) || w < TruncDiv(MIN_INT64, scale));
            && (passes ==> MIN_INT64 <= w * scale + frac <= MAX_INT64)
            && (MIN_INT64 <= w * scale + frac <= MAX_INT64 ==> (passes <==> w >= TruncDiv(MIN_INT64, scale)))
  {
    var top := MAX_INT64 - frac;
    DivMod(top, scale);
    DivMod(-MIN_INT64, scale);
    var hi, lo := top / scale, TruncDiv(MIN_INT64, scale);
    assert lo * scale == -((-MIN_INT64) / scale * scale);
    if w <= hi {
      ProductMonotone(w, hi, scale);
    } else {
      ProductMonotone(hi + 1, w, scale);
      assert (hi + 1) * scale == hi * scale + scale;
    }
    if lo <= w { ProductMonotone(lo, w, scale); }
  }

  lemma ScaleBound(precision: nat)
    requires precision <= 9
    ensures 0 < Pow10(precision) <= 1000000000
  {
    Pow10Positive(precision);
    assert Pow10(9) == 1000000000;
    assert precision == 0 || precision == 1 || precision == 2 || precision == 3 || precision == 4
        || precision == 5 || precision == 6 || precision == 7 || precision == 8 || precision == 9;
  }

  /** Reading a DateTime64 cell as text and inserting the text gives the raw value back exactly
      when its year is printed with four digits and its whole second is not the partial one at
      the bottom of the range. */
  lemma CellRoundTrip(raw: int64, precision: nat)
    requires precision <= 9
    ensures var scale := Pow10(precision);
            0 < scale &&
            (InsertCell(FormatCell(raw, precision), precision) == Some(raw)
             <==> YearInRange(raw / scale) && raw / scale >= TruncDiv(MIN_INT64, scale))
  {
    hide FormatEpoch, ParseDateTime, YearInRange, TruncDiv, Pow10, ParseWithFraction;
    ScaleBound(precision);
    var scale := Pow10(precision);
    var w, frac := raw / scale, raw % scale;
    DivMod(raw, scale);
    CellTextSplits(w, frac, precision);
    EpochRoundTrip(w);
    GuardIsSafe(w, frac, scale);
    match ParseDateTime(FormatEpoch(w))
    case None =>
    case Some(e) =>
      if e * scale + frac == raw { QuotientUnique(scale, e, frac, w, frac); }
  }

  /** Whatever text is inserted, the stored value is a 64-bit integer. */
  lemma InsertFits(s: seq<byte>, precision: nat)
    requires precision <= 9
    ensures var r := InsertCell(s, precision); r.Some? ==> MIN_INT64 <= r.value <= MAX_INT64
  {
    hide ParseDateTime, TruncDiv, Pow10;
    ScaleBound(precision);
    match ParseWithFraction(s, precision)
    case None =>
    case Some((w, frac)) =>
      FractionBelowScale(s, precision);
      GuardIsSafe(w, frac, Pow10(precision));
  }

  lemma FractionBelowScale(s: seq<byte>, precision: nat)
    ensures var r := ParseWithFraction(s, precision); r.Some? ==> r.value.1 < Pow10(precision)
  {
    hide Pow10, Number, ParseDateTime, DotAt;
    Pow10Positive(precision);
    if HasDot(s) {
      var digits := s[DotAt(s) + 1..];
      if ParseFraction(digits, precision).Some? {
        NumberBelow(digits);
        FractionFits(Number(digits), |digits|, precision - |digits|);
      }
    }
  }

  lemma FractionFits(n: nat, digits: nat, pad: nat)
    requires n < Pow10(digits)
    ensures n * Pow10(pad) < Pow10(digits + pad)
  {
    Pow10Positive(pad);
    Pow10Sum(digits, pad);
    StrictProduct(n, Pow10(digits), Pow10(pad));
  }

  //// Fractions

  /** A date and time with digits behind a dot: accepted if and only if the date and time is, and there
      are digits, only digits, and no more than the precision. */
  lemma FractionDecides(t: seq<byte>, digits: seq<byte>, precision: nat)
    requires NoDot(t)
    ensures ParseWithFraction(t + [DOT] + digits, precision).Some?
       <==> ParseDateTime(t).Some? && 1 <= |digits| <= precision && AllDigits(digits)
    ensures InsertCell(t + [DOT] + digits, precision).Some? ==>
              ParseDateTime(t).Some? && 1 <= |digits| <= precision && AllDigits(digits)
  {
    hide ParseDateTime, TruncDiv, Pow10;
    FirstDot(t, digits);
  }

  /** Digits up to the precision are worth their number. */
  lemma FullFraction(t: seq<byte>, digits: seq<byte>, precision: nat)
    requires NoDot(t) && 1 <= |digits| == precision && AllDigits(digits)
    ensures ParseWithFraction(t + [DOT] + digits, precision)
         == match ParseDateTime(t) case Some(w) => Some((w, Number(digits))) case None => None
  {
    hide ParseDateTime, Number;
    FirstDot(t, digits);
    assert Pow10(0) == 1;
  }

  /** Fewer digits are worth what they are with a zero behind them: half a second is .5 and .500. */
  lemma FractionIsPadded(t: seq<byte>, digits: seq<byte>, precision: nat)
    requires NoDot(t) && 1 <= |digits| < precision && AllDigits(digits)
    ensures InsertCell(t + [DOT] + (digits + [DIGIT_ZERO]), precision) == InsertCell(t + [DOT] + digits, precision)
  {
    hide ParseDateTime, TruncDiv, Pow10, Number;
    var more := digits + [DIGIT_ZERO];
    FirstDot(t, digits);
    FirstDot(t, more);
    ZeroBehind(digits, precision);
  }

  lemma ZeroBehind(digits: seq<byte>, precision: nat)
    requires |digits| < precision && AllDigits(digits)
    ensures var more := digits + [DIGIT_ZERO];
            AllDigits(more) && Number(more) * Pow10(precision - |more|) == Number(digits) * Pow10(precision - |digits|)
  {
    var more := digits + [DIGIT_ZERO];
    assert more[..|more| - 1] == digits;
    var p := Pow10(precision - |more|);
    assert Pow10(precision - |digits|) == 10 * p;
    assert (Number(digits) * 10) * p == Number(digits) * (10 * p);
  }

  /** No digits at all are worth as many zeros as the precision has. */
  lemma NoFraction(t: seq<byte>, precision: nat)
    requires NoDot(t) && 1 <= precision
    ensures InsertCell(t + [DOT] + seq(precision, _ => DIGIT_ZERO), precision) == InsertCell(t, precision)
  {
    hide ParseDateTime, TruncDiv, Pow10, Number;
    var zeros: seq<byte> := seq(precision, _ => DIGIT_ZERO);
    ZerosSpellZero(zeros);
    FullFraction(t, zeros, precision);
  }

  lemma {:induction false} ZerosSpellZero(ds: seq<byte>)
    requires forall i :: 0 <= i < |ds| ==> ds[i] == DIGIT_ZERO
    ensures AllDigits(ds) && Number(ds) == 0
  {
    if ds != [] { ZerosSpellZero(ds[..|ds| - 1]); }
  }

  //// Years as text

  /** The number that a year's text spells, with its sign. */
  function YearOf(s: seq<byte>): int {
    if s != [] && s[0] == MINUS then 0 - Number(s[1..]) else Number(s)
  }

  /** A year is printed as its number, of at least four characters, and with no more zeros than these. */
  lemma YearSpells(y: int)
    ensures var s := FormatYear(y);
            && YearOf(s) == y && 4 <= |s|
            && (if 0 <= y then AllDigits(s) else s[0] == MINUS && AllDigits(s[1..]))
            && (4 < |s| ==> s[if 0 <= y then 0 else 1] != DIGIT_ZERO)
  {
    hide Padded, Decimal, Number;
    if 0 <= y < 10000 {
      ShortNumber(y, 4);
    } else if 10000 <= y {
      DecimalIsLong(y);
      DecimalSpells(y);
      FirstDigit(y);
    } else if -1000 < y {
      ShortNumber(-y, 3);
      assert ([MINUS] + Padded(-y, 3))[1..] == Padded(-y, 3);
    } else {
      DecimalSpells(-y);
      FirstDigit(-y);
      LongEnough(-y);
      assert ([MINUS] + Decimal(-y))[1..] == Decimal(-y);
    }
  }

  lemma ShortNumber(v: nat, n: nat)
    requires (n == 3 && v < 1000) || (n == 4 && v < 10000)
    ensures |Padded(v, n)| == n && AllDigits(Padded(v, n)) && Number(Padded(v, n)) == v
    ensures Padded(v, n)[0] != MINUS
  {
    assert Pow10(3) == 1000 && Pow10(4) == 10000;
    PaddedSpells(v, n);
    assert IsDigit(Padded(v, n)[0]);
  }

  lemma {:induction false} FirstDigit(v: nat)
    requires 0 < v
    ensures Decimal(v)[0] != DIGIT_ZERO
  {
    if 10 <= v { FirstDigit(v / 10); }
  }

  lemma LongEnough(v: nat)
    requires 1000 <= v
    ensures 4 <= |Decimal(v)|
  {
    hide Decimal;
    DecimalGrows(v);
    DecimalGrows(v / 10);
    DecimalGrows(v / 10 / 10);
    DecimalSpells(v / 10 / 10 / 10);
  }
}
