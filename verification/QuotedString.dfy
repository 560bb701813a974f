/** Query parameters on the wire: a counted string that holds the value in quotes. */
module QuotedString {
  import opened Bytes
  import opened WireFormat

  const LOWER_X: byte := 120
  const DIGIT_TWO: byte := 50
  const DIGIT_SEVEN: byte := 55
  const DIGIT_EIGHT: byte := 56

  predicate IsQuoted(c: byte) {
    c == NUL || c == BACKSPACE || c == TAB || c == LF || c == APOSTROPHE || c == BACKSLASH
  }

  /** What stands for a quoted character after its backslash: always three bytes. */
  function Escape(c: byte): (r: seq<byte>)
    requires IsQuoted(c)
    ensures |r| == 3
  {
    if c == NUL then [LOWER_X, DIGIT_ZERO, DIGIT_ZERO]
    else if c == BACKSPACE then [LOWER_X, DIGIT_ZERO, DIGIT_EIGHT]
    else if c == TAB then [BACKSLASH, BACKSLASH, LOWER_T]
    else if c == LF then [BACKSLASH, BACKSLASH, LOWER_N]
    else if c == APOSTROPHE then [LOWER_X, DIGIT_TWO, DIGIT_SEVEN]
    else [BACKSLASH, BACKSLASH, BACKSLASH]
  }

  function Code(c: byte): seq<byte> {
    if IsQuoted(c) then [BACKSLASH] + Escape(c) else [c]
  }

  function Coded(s: seq<byte>): seq<byte> {
    if s == [] then [] else Code(s[0]) + Coded(s[1..])
  }

  function Quoted(s: seq<byte>): seq<byte> {
    [APOSTROPHE] + (Coded(s) + [APOSTROPHE])
  }

  function Count(s: seq<byte>): nat {
    if s == [] then 0 else (if IsQuoted(s[0]) then 1 else 0) + Count(s[1..])
  }

  lemma {:induction false} CodedLength(s: seq<byte>)
    ensures |Coded(s)| == |s| + 3 * Count(s)
  {
    if s != [] { CodedLength(s[1..]); }
  }

  lemma {:induction false} CodedConcat(a: seq<byte>, b: seq<byte>)
    ensures Coded(a + b) == Coded(a) + Coded(b) && Count(a + b) == Count(a) + Count(b)
  {
    if a == [] {
      assert a + b == b && Coded(a) + Coded(b) == Coded(b);
    } else {
      assert (a + b)[1..] == a[1..] + b;
      CodedConcat(a[1..], b);
      Assoc(Code(a[0]), Coded(a[1..]), Coded(b));
    }
  }

  predicate NoneQuoted(s: seq<byte>) {
    forall i :: 0 <= i < |s| ==> !IsQuoted(s[i])
  }

  lemma {:induction false} PlainIsCodedAsItself(s: seq<byte>)
    requires NoneQuoted(s)
    ensures Coded(s) == s && Count(s) == 0
  {
    if s != [] { PlainIsCodedAsItself(s[1..]); }
  }

  /** The stretch up to a quoted character, and the character, coded. */
  lemma StretchCoded(s: seq<byte>, from: nat, at: nat)
    requires from <= at < |s| && NoneQuoted(s[from..at]) && IsQuoted(s[at])
    ensures Coded(s[from..]) == s[from..at] + ([BACKSLASH] + Escape(s[at])) + Coded(s[at + 1..])
    ensures Count(s[from..]) == 1 + Count(s[at + 1..])
  {
    PlainIsCodedAsItself(s[from..at]);
    CodedConcat(s[from..at], s[at..]);
    assert s[from..] == s[from..at] + s[at..];
    assert s[at..][1..] == s[at + 1..];
    Assoc(s[from..at], [BACKSLASH] + Escape(s[at]), Coded(s[at + 1..]));
  }

  /** find_quoted_chars: the next quoted character, or the end. */
  method FindQuoted(s: seq<byte>, from: nat) returns (at: nat)
    requires from <= |s|
    ensures from <= at <= |s| && NoneQuoted(s[from..at]) && (at < |s| ==> IsQuoted(s[at]))
  {
    at := from;
    while at < |s| && !IsQuoted(s[at])
      invariant from <= at <= |s| && NoneQuoted(s[from..at])
    {
      assert s[from..at + 1] == s[from..at] + [s[at]];
      at := at + 1;
    }
  }

  method CountQuoted(s: seq<byte>) returns (n: nat)
    ensures n == Count(s)
  {
    n := 0;
    var from := 0;
    assert s[0..] == s;
    while from < |s|
      invariant 0 <= from <= |s| && n + Count(s[from..]) == Count(s)
    {
      var at := FindQuoted(s, from);
      if at == |s| {
        assert s[from..at] == s[from..];
        PlainIsCodedAsItself(s[from..]);
        return;
      }
      StretchCoded(s, from, at);
      n, from := n + 1, at + 1;
    }
  }

  /** The length is declared before the text is built; it is the length of the text. */
  method WriteQuotedString(value: seq<byte>) returns (bytes: seq<byte>)
    requires |value| + 2 + 3 * Count(value) < TWO_64
    ensures bytes == StringBytes(Quoted(value))
  {
    CodedLength(value);
    var count := CountQuoted(value);
    bytes := WriteVarint64(|value| + 2 + 3 * count);
    var text := WriteText(value);
    bytes := bytes + text;
  }

  /** Stretches of ordinary characters are copied whole between the escapes. */
  method WriteText(value: seq<byte>) returns (text: seq<byte>)
    ensures text == Quoted(value)
  {
    text := [APOSTROPHE];
    var start := 0;
    var at := FindQuoted(value, 0);
    assert value[0..] == value;
    while at < |value|
      invariant 0 <= start <= at <= |value| && NoneQuoted(value[start..at]) && (at < |value| ==> IsQuoted(value[at]))
      invariant text + Coded(value[start..]) == [APOSTROPHE] + Coded(value)
      decreases |value| - start
    {
      StretchCoded(value, start, at);
      Rebracket(text, value[start..at], [BACKSLASH], Escape(value[at]), Coded(value[at + 1..]));
      text := text + value[start..at];
      text := text + [BACKSLASH];
      text := text + Escape(value[at]);
      start := at + 1;
      at := FindQuoted(value, start);
    }
    assert value[start..at] == value[start..];
    PlainIsCodedAsItself(value[start..]);
    Assoc([APOSTROPHE], Coded(value), [APOSTROPHE]);
    text := text + value[start..];
    text := text + [APOSTROPHE];
  }

  lemma Rebracket(a: seq<byte>, b: seq<byte>, c: seq<byte>, d: seq<byte>, e: seq<byte>)
    ensures a + (b + (c + d) + e) == a + b + c + d + e
  {
  }

  /** No quote, control separator or lone NUL is left in the coded text. */
  lemma {:induction false} CodedIsInert(s: seq<byte>)
    ensures forall i :: 0 <= i < |Coded(s)| ==> Coded(s)[i] == BACKSLASH || !IsQuoted(Coded(s)[i])
  {
    if s != [] { CodedIsInert(s[1..]); }
  }

  /** The first byte tells ordinary characters from coded ones, the next three which one it is. */
  lemma CodeIsPrefixFree(a: byte, b: byte, s: seq<byte>, t: seq<byte>)
    requires Code(a) + s == Code(b) + t
    ensures a == b && s == t
  {
    var u, v := Code(a) + s, Code(b) + t;
    assert u[0] == v[0];
    assert IsQuoted(a) <==> u[0] == BACKSLASH;
    assert IsQuoted(b) <==> v[0] == BACKSLASH;
    if IsQuoted(a) {
      assert u[1..4] == Escape(a) && v[1..4] == Escape(b);
    }
    assert u[|Code(a)|..] == s && v[|Code(b)|..] == t;
  }

  lemma {:induction false} CodedIsInjective(a: seq<byte>, b: seq<byte>)
    requires Coded(a) == Coded(b)
    ensures a == b
  {
    if a != [] && b != [] {
      CodeIsPrefixFree(a[0], b[0], Coded(a[1..]), Coded(b[1..]));
      CodedIsInjective(a[1..], b[1..]);
    }
  }

  /** Different values are different on the wire. A reader without a limit gets all of the quoted
      text and nothing of what follows; this library's own reader does so if and only if the text
      is not above its maximum. */
  lemma QuotedStringRoundTrip(a: seq<byte>, b: seq<byte>, rest: seq<byte>)
    requires |a| + 2 + 3 * Count(a) < TWO_64
    ensures ReadCounted(StringBytes(Quoted(a)) + rest) == Some(Read(Quoted(a), rest))
    ensures ReadString(StringBytes(Quoted(a)) + rest) == Some(Read(Quoted(a), rest))
       <==> |a| + 2 + 3 * Count(a) <= MAX_STRING
    ensures Quoted(a) == Quoted(b) <==> a == b
  {
    CodedLength(a);
    CountedRoundTrip(Quoted(a), rest);
    StringRoundTrip(Quoted(a), rest);
    if Quoted(a) == Quoted(b) {
      assert Quoted(a)[1..][..|Coded(a)|] == Coded(a) && Quoted(b)[1..][..|Coded(b)|] == Coded(b);
      CodedIsInjective(a, b);
    }
  }

  //// Reading back

  function HexValue(c: byte): nat {
    if 48 <= c <= 57 then c - 48 else if 97 <= c <= 102 then c - 87 else 0
  }

  /** What a character after a backslash stands for inside a quoted string. */
  function Meaning(c: byte): byte {
    if c == LOWER_T then TAB else if c == LOWER_N then LF else c
  }

  /** The content of a quoted string, read character by character: a backslash and an x take two
      hexadecimal digits, a backslash and another character one. */
  function Unquoted(s: seq<byte>): seq<byte> {
    if s == [] then []
    else if s[0] != BACKSLASH || |s| == 1 then [s[0]] + Unquoted(s[1..])
    else if s[1] == LOWER_X && 4 <= |s| then [(16 * HexValue(s[2]) + HexValue(s[3])) % 256] + Unquoted(s[4..])
    else [Meaning(s[1])] + Unquoted(s[2..])
  }

  /** The escaped text that the string holds: a backslash makes the next character ordinary. */
  function Unescaped(s: seq<byte>): seq<byte> {
    if s == [] then []
    else if s[0] != BACKSLASH || |s| == 1 then [s[0]] + Unescaped(s[1..])
    else [s[1]] + Unescaped(s[2..])
  }

  /** The quoted string of one character: itself, or behind a backslash if it is a tab, a line feed or
      a backslash. */
  function Inner(c: byte): seq<byte> {
    if c == TAB || c == LF || c == BACKSLASH then [BACKSLASH, c] else [c]
  }

  function Inners(s: seq<byte>): seq<byte> {
    if s == [] then [] else Inner(s[0]) + Inners(s[1..])
  }

  lemma UnquotedPlain(c: byte, rest: seq<byte>)
    requires c != BACKSLASH
    ensures Unquoted([c] + rest) == [c] + Unquoted(rest)
  {
    var s := [c] + rest;
    assert s[1..] == rest;
  }

  lemma UnquotedPair(c: byte, rest: seq<byte>)
    requires c != LOWER_X
    ensures Unquoted([BACKSLASH, c] + rest) == [Meaning(c)] + Unquoted(rest)
  {
    var s := [BACKSLASH, c] + rest;
    assert s[2..] == rest;
  }

  lemma UnquotedHex(a: byte, b: byte, rest: seq<byte>)
    ensures Unquoted([BACKSLASH, LOWER_X, a, b] + rest) == [(16 * HexValue(a) + HexValue(b)) % 256] + Unquoted(rest)
  {
    var s := [BACKSLASH, LOWER_X, a, b] + rest;
    assert s[4..] == rest;
  }

  lemma UnquotedEscape(c: byte, rest: seq<byte>)
    requires c != LOWER_X
    ensures Unquoted([BACKSLASH, BACKSLASH, BACKSLASH, c] + rest) == [BACKSLASH, Meaning(c)] + Unquoted(rest)
  {
    UnquotedPair(c, rest);
    UnquotedPair(BACKSLASH, [BACKSLASH, c] + rest);
    assert [BACKSLASH, BACKSLASH, BACKSLASH, c] + rest == [BACKSLASH, BACKSLASH] + ([BACKSLASH, c] + rest);
  }

  lemma UnquotedCode(c: byte, rest: seq<byte>)
    ensures Unquoted(Code(c) + rest) == Inner(c) + Unquoted(rest)
  {
    hide Unquoted;
    if !IsQuoted(c) {
      UnquotedPlain(c, rest);
    } else if Escape(c)[0] == LOWER_X {
      assert Code(c) == [BACKSLASH, LOWER_X, Escape(c)[1], Escape(c)[2]];
      UnquotedHex(Escape(c)[1], Escape(c)[2], rest);
    } else {
      assert Code(c) == [BACKSLASH, BACKSLASH, BACKSLASH, Escape(c)[2]];
      UnquotedEscape(Escape(c)[2], rest);
    }
  }

  lemma {:induction false} UnquotedCoded(s: seq<byte>)
    ensures Unquoted(Coded(s)) == Inners(s)
  {
    if s != [] {
      UnquotedCode(s[0], Coded(s[1..]));
      UnquotedCoded(s[1..]);
    }
  }

  lemma {:induction false} UnescapedInners(s: seq<byte>)
    ensures Unescaped(Inners(s)) == s
  {
    if s != [] {
      UnescapedInners(s[1..]);
      var t := Inner(s[0]) + Inners(s[1..]);
      assert t[|Inner(s[0])|..] == Inners(s[1..]);
      assert s == [s[0]] + s[1..];
    }
  }

  /** The coded text of a value denotes the value: read as the content of a quoted string, and that
      as escaped text, it is the bytes of the value. */
  lemma CodedDenotes(s: seq<byte>)
    ensures Unescaped(Unquoted(Coded(s))) == s
    ensures var text := Quoted(s);
            && 2 <= |text| && text[0] == APOSTROPHE && text[|text| - 1] == APOSTROPHE
            && Unescaped(Unquoted(text[1..|text| - 1])) == s
  {
    UnquotedCoded(s);
    UnescapedInners(s);
    assert Quoted(s)[1..|Quoted(s)| - 1] == Coded(s);
  }
}
