/** SQL text: quoting of strings and identifiers, parsing of identifiers, redaction of literals and
    the bounded query log. */
module SqlText {
  import opened Bytes

  const BACKTICK: byte := 96
  const PERIOD: byte := 46
  const QUESTION: byte := 63
  const UNDERSCORE: byte := 95

  //// String literals

  function EscapeInLiteral(c: byte): seq<byte> {
    if c == APOSTROPHE || c == BACKSLASH then [BACKSLASH, c]
    else if c == NUL then [BACKSLASH, DIGIT_ZERO]
    else [c]
  }

  function Escaped(s: seq<byte>): seq<byte> {
    if s == [] then [] else EscapeInLiteral(s[0]) + Escaped(s[1..])
  }

  function StringLiteral(s: seq<byte>): seq<byte> {
    [APOSTROPHE] + (Escaped(s) + [APOSTROPHE])
  }

  /** sqlStringLiteral, one character at a time. */
  method SqlStringLiteral(s: seq<byte>) returns (out: seq<byte>)
    ensures out == StringLiteral(s)
  {
    out := [APOSTROPHE];
    var i := 0;
    assert s[0..] == s;
    while i < |s|
      invariant 0 <= i <= |s| && out + Escaped(s[i..]) == [APOSTROPHE] + Escaped(s)
    {
      var c := s[i];
      assert s[i..][0] == c && s[i..][1..] == s[i + 1..];
      Assoc(out, EscapeInLiteral(c), Escaped(s[i + 1..]));
      if c == APOSTROPHE || c == BACKSLASH {
        out := out + [BACKSLASH, c];
      } else if c == NUL {
        out := out + [BACKSLASH, DIGIT_ZERO];
      } else {
        out := out + [c];
      }
      i := i + 1;
    }
    assert out + [] == out;
    out := out + [APOSTROPHE];
    Assoc([APOSTROPHE], Escaped(s), [APOSTROPHE]);
  }

  /** What the text between two quotes denotes, read character by character: a backslash and a zero
      are a NUL byte, a backslash makes any other character ordinary. */
  function Denoted(s: seq<byte>): seq<byte> {
    if s == [] then []
    else if s[0] != BACKSLASH || |s| == 1 then [s[0]] + Denoted(s[1..])
    else [if s[1] == DIGIT_ZERO then NUL else s[1]] + Denoted(s[2..])
  }

  /** A literal denotes the string it is made of, whatever bytes that has. */
  lemma LiteralDenotes(s: seq<byte>)
    ensures var text := StringLiteral(s);
            && 2 <= |text| && text[0] == APOSTROPHE && text[|text| - 1] == APOSTROPHE
            && Denoted(text[1..|text| - 1]) == s
  {
    EscapedDenotes(s);
    assert StringLiteral(s)[1..|StringLiteral(s)| - 1] == Escaped(s);
  }

  lemma {:induction false} EscapedDenotes(s: seq<byte>)
    ensures Denoted(Escaped(s)) == s
  {
    if s != [] {
      EscapedDenotes(s[1..]);
      var text := EscapeInLiteral(s[0]) + Escaped(s[1..]);
      assert text[|EscapeInLiteral(s[0])|..] == Escaped(s[1..]);
      assert s == [s[0]] + s[1..];
    }
  }

  //// Redaction

  const REDACTED: seq<byte> := [APOSTROPHE, QUESTION, APOSTROPHE]

  /** What follows a literal whose opening quote has been read. */
  function AfterLiteral(s: seq<byte>): (r: seq<byte>)
    ensures |r| <= |s|
  {
    if s == [] then []
    else if s[0] == BACKSLASH && 1 < |s| then AfterLiteral(s[2..])
    else if s[0] == APOSTROPHE then
      if 1 < |s| && s[1] == APOSTROPHE then AfterLiteral(s[2..]) else s[1..]
    else AfterLiteral(s[1..])
  }

  function Redact(s: seq<byte>): seq<byte>
    decreases |s|
  {
    if s == [] then []
    else if s[0] != APOSTROPHE then [s[0]] + Redact(s[1..])
    else REDACTED + Redact(AfterLiteral(s[1..]))
  }

  /** The inner loop of redactSqlLiterals: the position after the literal that is open at i. */
  method SkipLiteral(sql: seq<byte>, from: nat) returns (i: nat)
    requires from <= |sql|
    ensures from <= i <= |sql| && sql[i..] == AfterLiteral(sql[from..])
  {
    i := from;
    while i < |sql|
      invariant from <= i <= |sql| && AfterLiteral(sql[i..]) == AfterLiteral(sql[from..])
    {
      assert |sql[i..]| > 1 ==> sql[i..][2..] == sql[i + 2..];
      assert sql[i..][1..] == sql[i + 1..];
      if sql[i] == BACKSLASH && i + 1 < |sql| {
        i := i + 2;
        continue;
      }
      if sql[i] == APOSTROPHE {
        if i + 1 < |sql| && sql[i + 1] == APOSTROPHE {
          i := i + 2;
          continue;
        }
        i := i + 1;
        return;
      }
      i := i + 1;
    }
  }

  method RedactSqlLiterals(sql: seq<byte>) returns (out: seq<byte>)
    ensures out == Redact(sql)
  {
    out := [];
    var i := 0;
    assert sql[0..] == sql;
    while i < |sql|
      invariant 0 <= i <= |sql| && out + Redact(sql[i..]) == Redact(sql)
      decreases |sql| - i
    {
      assert sql[i..][1..] == sql[i + 1..];
      if sql[i] != APOSTROPHE {
        Assoc(out, [sql[i]], Redact(sql[i + 1..]));
        out := out + [sql[i]];
        i := i + 1;
      } else {
        Assoc(out, REDACTED, Redact(AfterLiteral(sql[i + 1..])));
        out := out + REDACTED;
        i := SkipLiteral(sql, i + 1);
      }
    }
    assert out + [] == out;
  }

  predicate StartsQuoted(s: seq<byte>) {
    s != [] && s[0] == APOSTROPHE
  }

  /** A literal ends before a character that does not continue it. */
  lemma {:induction false} AfterLiteralIsClosed(s: seq<byte>)
    ensures !StartsQuoted(AfterLiteral(s))
    decreases |s|
  {
    if s == [] {
    } else if s[0] == BACKSLASH && 1 < |s| {
      AfterLiteralIsClosed(s[2..]);
    } else if s[0] == APOSTROPHE {
      if 1 < |s| && s[1] == APOSTROPHE { AfterLiteralIsClosed(s[2..]); }
    } else {
      AfterLiteralIsClosed(s[1..]);
    }
  }

  lemma RedactedPlaceholder(rest: seq<byte>)
    requires !StartsQuoted(rest)
    ensures Redact(REDACTED + rest) == REDACTED + Redact(rest)
  {
    var s := (REDACTED + rest)[1..];
    assert s == [QUESTION, APOSTROPHE] + rest;
    assert s[1..] == [APOSTROPHE] + rest && s[1..][1..] == rest;
    assert AfterLiteral(s[1..]) == rest;
    assert AfterLiteral(s) == rest;
  }

  /** Redacting redacted text changes nothing. */
  lemma {:induction false} RedactIdempotent(s: seq<byte>)
    ensures Redact(Redact(s)) == Redact(s)
    ensures StartsQuoted(Redact(s)) <==> StartsQuoted(s)
    decreases |s|
  {
    if s == [] {
    } else if s[0] != APOSTROPHE {
      RedactIdempotent(s[1..]);
      assert Redact(s)[1..] == Redact(s[1..]);
    } else {
      var rest := AfterLiteral(s[1..]);
      AfterLiteralIsClosed(s[1..]);
      RedactIdempotent(rest);
      RedactedPlaceholder(Redact(rest));
    }
  }

  /** The text of a literal, whatever it holds, ends where the literal ends. */
  lemma {:induction false} LiteralEnds(x: seq<byte>, post: seq<byte>)
    ensures AfterLiteral(Escaped(x) + [APOSTROPHE] + post)
         == if StartsQuoted(post) then AfterLiteral(post[1..]) else post
  {
    var tail := [APOSTROPHE] + post;
    if x == [] {
      assert Escaped(x) + [APOSTROPHE] + post == tail && tail[1..] == post;
      if StartsQuoted(post) { assert tail[2..] == post[1..]; }
    } else {
      LiteralEnds(x[1..], post);
      EscapeIsSkipped(x[0], Escaped(x[1..]) + [APOSTROPHE] + post);
      assert Escaped(x) + [APOSTROPHE] + post == EscapeInLiteral(x[0]) + (Escaped(x[1..]) + [APOSTROPHE] + post);
    }
  }

  lemma EscapeIsSkipped(c: byte, rest: seq<byte>)
    ensures AfterLiteral(EscapeInLiteral(c) + rest) == AfterLiteral(rest)
  {
    var s := EscapeInLiteral(c) + rest;
    assert s[|EscapeInLiteral(c)|..] == rest;
  }

  predicate QuoteFree(s: seq<byte>) {
    APOSTROPHE !in s
  }

  lemma {:induction false} RedactKeepsPrefix(pre: seq<byte>, s: seq<byte>)
    requires QuoteFree(pre)
    ensures Redact(pre + s) == pre + Redact(s)
  {
    if pre == [] {
      assert pre + s == s;
    } else {
      assert (pre + s)[1..] == pre[1..] + s;
      RedactKeepsPrefix(pre[1..], s);
    }
  }

  /** What a literal in a statement becomes, whatever it holds. */
  lemma RedactLiteral(pre: seq<byte>, x: seq<byte>, post: seq<byte>)
    requires QuoteFree(pre)
    ensures Redact(pre + StringLiteral(x) + post)
         == pre + (REDACTED + Redact(if StartsQuoted(post) then AfterLiteral(post[1..]) else post))
  {
    hide Redact, Escaped, AfterLiteral;
    Assoc(pre, StringLiteral(x), post);
    RedactKeepsPrefix(pre, StringLiteral(x) + post);
    LiteralEnds(x, post);
    RedactOpening(Escaped(x) + [APOSTROPHE] + post);
    assert StringLiteral(x) + post == [APOSTROPHE] + (Escaped(x) + [APOSTROPHE] + post);
  }

  lemma RedactOpening(s: seq<byte>)
    ensures Redact([APOSTROPHE] + s) == REDACTED + Redact(AfterLiteral(s))
  {
    assert ([APOSTROPHE] + s)[1..] == s;
  }

  /** The literal alone is absorbed if and only if no quote follows it. */
  lemma RedactAbsorbsLiteral(pre: seq<byte>, x: seq<byte>, post: seq<byte>)
    requires QuoteFree(pre)
    ensures Redact(pre + StringLiteral(x) + post) == pre + (REDACTED + Redact(post)) <==> !StartsQuoted(post)
  {
    RedactLiteral(pre, x, post);
    if StartsQuoted(post) {
      assert Redact(post) == REDACTED + Redact(AfterLiteral(post[1..]));
    }
  }

  /** Two statements that differ only in a literal are redacted to the same text. */
  lemma RedactHidesContent(pre: seq<byte>, x: seq<byte>, y: seq<byte>, post: seq<byte>)
    requires QuoteFree(pre)
    ensures Redact(pre + StringLiteral(x) + post) == Redact(pre + StringLiteral(y) + post)
  {
    RedactLiteral(pre, x, post);
    RedactLiteral(pre, y, post);
  }

  //// Identifiers

  predicate IsLetter(c: byte) {
    65 <= c <= 90 || 97 <= c <= 122 || c == UNDERSCORE
  }

  predicate IsWord(c: byte) {
    IsLetter(c) || 48 <= c <= 57
  }

  function EscapedIdentifier(s: seq<byte>): seq<byte> {
    if s == [] then []
    else (if s[0] == BACKTICK || s[0] == BACKSLASH then [BACKSLASH, s[0]] else [s[0]]) + EscapedIdentifier(s[1..])
  }

  function QuotedIdentifier(s: seq<byte>): seq<byte> {
    [BACKTICK] + (EscapedIdentifier(s) + [BACKTICK])
  }

  method SqlQuotedIdentifier(s: seq<byte>) returns (out: seq<byte>)
    ensures out == QuotedIdentifier(s)
  {
    out := [BACKTICK];
    var i := 0;
    assert s[0..] == s;
    while i < |s|
      invariant 0 <= i <= |s| && out + EscapedIdentifier(s[i..]) == [BACKTICK] + EscapedIdentifier(s)
    {
      assert s[i..][0] == s[i] && s[i..][1..] == s[i + 1..];
      if s[i] == BACKTICK || s[i] == BACKSLASH {
        Assoc(out, [BACKSLASH, s[i]], EscapedIdentifier(s[i + 1..]));
        Assoc(out, [BACKSLASH], [s[i]]);
        out := out + [BACKSLASH];
      } else {
        Assoc(out, [s[i]], EscapedIdentifier(s[i + 1..]));
      }
      out := out + [s[i]];
      i := i + 1;
    }
    assert out + [] == out;
    out := out + [BACKTICK];
    Assoc([BACKTICK], EscapedIdentifier(s), [BACKTICK]);
  }

  datatype Problem = Empty | EmptySegment | InvalidCharacter | Unterminated | BadStart

  /** A part that was parsed, and the text after it. */
  datatype Part = Part(text: seq<byte>, rest: seq<byte>) | Wrong(why: Problem)

  /** The content of a quoted segment whose opening backtick has been read. */
  function Inner(s: seq<byte>): Part {
    if s == [] then Wrong(Unterminated)
    else if s[0] == BACKSLASH && 1 < |s| && (s[1] == BACKTICK || s[1] == BACKSLASH) then Prepend(s[1], Inner(s[2..]))
    else if s[0] == BACKTICK then Part([], s[1..])
    else if s[0] < 0x20 then Wrong(InvalidCharacter)
    else Prepend(s[0], Inner(s[1..]))
  }

  function Prepend(c: byte, p: Part): Part {
    if p.Part? then Part([c] + p.text, p.rest) else p
  }

  /** A bare word. */
  function Word(s: seq<byte>): (p: Part)
    ensures p.Part?
  {
    if s == [] || !IsWord(s[0]) then Part([], s) else Prepend(s[0], Word(s[1..]))
  }

  /** One segment as it is emitted again: bare words as they are, quoted ones quoted anew. */
  function Segment(s: seq<byte>): Part {
    if s == [] then Wrong(EmptySegment)
    else if s[0] == BACKTICK then
      var inner := Inner(s[1..]);
      if inner.Wrong? then inner
      else if inner.text == [] then Wrong(EmptySegment)
      else Part(QuotedIdentifier(inner.text), inner.rest)
    else if !IsLetter(s[0]) then Wrong(BadStart)
    else Prepend(s[0], Word(s[1..]))
  }

  datatype Parsed = Emitted(text: seq<byte>) | Invalid(why: Problem)

  function Identifier(s: seq<byte>, allowDot: bool): Parsed {
    if s == [] then Invalid(Empty)
    else
      match Segment(s)
      case Wrong(why) => Invalid(why)
      case Part(first, rest) =>
        if rest == [] then Emitted(first)
        else if rest[0] != PERIOD || !allowDot then Invalid(InvalidCharacter)
        else
          match Segment(rest[1..])
          case Wrong(why) => Invalid(why)
          case Part(second, end) =>
            if end == [] then Emitted(first + [PERIOD] + second) else Invalid(InvalidCharacter)
  }

  //// The parser

  /** The loop inside a quoted segment. */
  method ScanInner(s: seq<byte>, from: nat) returns (r: Part, j: nat)
    requires from <= |s|
    ensures r == Inner(s[from..]) && from <= j <= |s| && (r.Part? ==> r.rest == s[j..])
  {
    var inner := [];
    j := from;
    while j < |s|
      invariant from <= j <= |s|
      invariant Inner(s[from..]) == match Inner(s[j..]) case Wrong(why) => Wrong(why) case Part(t, rest) => Part(inner + t, rest)
    {
      assert |s[j..]| > 1 ==> s[j..][2..] == s[j + 2..];
      assert s[j..][1..] == s[j + 1..];
      if s[j] == BACKSLASH && j + 1 < |s| && (s[j + 1] == BACKTICK || s[j + 1] == BACKSLASH) {
        AssocInner(inner, s[j + 1], Inner(s[j + 2..]));
        inner := inner + [s[j + 1]];
        j := j + 2;
        continue;
      }
      if s[j] == BACKTICK {
        return Part(inner, s[j + 1..]), j + 1;
      }
      if s[j] < 0x20 {
        return Wrong(InvalidCharacter), j;
      }
      AssocInner(inner, s[j], Inner(s[j + 1..]));
      inner := inner + [s[j]];
      j := j + 1;
    }
    r := Wrong(Unterminated);
  }

  lemma AssocInner(inner: seq<byte>, c: byte, p: Part)
    ensures p.Part? ==> (inner + [c]) + p.text == inner + ([c] + p.text)
  {
  }

  method ScanSegment(s: seq<byte>, from: nat) returns (r: Part, i: nat)
    requires from < |s|
    ensures r == Segment(s[from..]) && from <= i <= |s| && (r.Part? ==> r.rest == s[i..])
  {
    i := from;
    assert s[from..][1..] == s[from + 1..];
    if s[from] == BACKTICK {
      var inner;
      inner, i := ScanInner(s, from + 1);
      if inner.Wrong? {
        return inner, from;
      }
      if inner.text == [] {
        return Wrong(EmptySegment), from;
      }
      var quoted := SqlQuotedIdentifier(inner.text);
      return Part(quoted, inner.rest), i;
    }
    if !IsLetter(s[from]) {
      return Wrong(BadStart), from;
    }
    i := ScanWord(s, from + 1);
    assert [s[from]] + s[from + 1..i] == s[from..i];
    r := Part(s[from..i], s[i..]);
  }

  /** The rest of a bare word. */
  method ScanWord(s: seq<byte>, from: nat) returns (i: nat)
    requires from <= |s|
    ensures from <= i <= |s| && Word(s[from..]) == Part(s[from..i], s[i..])
  {
    hide Word;
    i := from;
    ghost var whole := Word(s[from..]);
    assert s[from..i] + Word(s[i..]).text == Word(s[i..]).text;
    while i < |s| && IsWord(s[i])
      invariant from <= i <= |s|
      invariant whole == Part(s[from..i] + Word(s[i..]).text, Word(s[i..]).rest)
    {
      WordStep(s, i);
      SliceSnoc(s, from, i);
      Assoc(s[from..i], [s[i]], Word(s[i + 1..]).text);
      i := i + 1;
    }
    WordStops(s, i);
    assert s[from..i] + [] == s[from..i];
  }

  lemma WordStep(s: seq<byte>, i: nat)
    requires i < |s| && IsWord(s[i])
    ensures Word(s[i..]) == Part([s[i]] + Word(s[i + 1..]).text, Word(s[i + 1..]).rest)
  {
    assert s[i..][1..] == s[i + 1..];
  }

  lemma WordStops(s: seq<byte>, i: nat)
    requires i == |s| || (i < |s| && !IsWord(s[i]))
    ensures Word(s[i..]) == Part([], s[i..])
  {
  }

  lemma SliceSnoc(s: seq<byte>, from: nat, i: nat)
    requires from <= i < |s|
    ensures s[from..i + 1] == s[from..i] + [s[i]]
  {
  }

  method ParseIdentifier(s: seq<byte>, allowDot: bool) returns (r: Parsed)
    ensures r == Identifier(s, allowDot)
  {
    if |s| == 0 {
      return Invalid(Empty);
    }
    var out, dotSeen, i := [], false, 0;
    assert s[0..] == s;
    while true
      invariant 0 <= i <= |s|
      invariant !dotSeen ==> i == 0 && out == []
      invariant dotSeen ==> allowDot && exists first :: out == first + [PERIOD] && Segment(s) == Part(first, [PERIOD] + s[i..])
      decreases !dotSeen
    {
      if i >= |s| {
        return Invalid(EmptySegment);
      }
      ghost var from := i;
      var segment, next := ScanSegment(s, i);
      if segment.Wrong? {
        return Invalid(segment.why);
      }
      assert [] + segment.text == segment.text;
      out := out + segment.text;
      i := next;
      if i == |s| {
        return Emitted(out);
      }
      if s[i] != PERIOD || !allowDot || dotSeen {
        return Invalid(InvalidCharacter);
      }
      dotSeen := true;
      out := out + [PERIOD];
      assert s[i..] == [PERIOD] + s[i + 1..];
      i := i + 1;
    }
  }

  //// What the parser accepts

  /** No byte below the space. */
  predicate NoControls(s: seq<byte>) {
    forall i :: 0 <= i < |s| ==> 0x20 <= s[i]
  }

  lemma {:induction false} InnerOfQuoted(s: seq<byte>, rest: seq<byte>)
    ensures var t := EscapedIdentifier(s) + [BACKTICK] + rest;
            Inner(t) == if NoControls(s) then Part(s, rest) else Wrong(InvalidCharacter)
  {
    var t := EscapedIdentifier(s) + [BACKTICK] + rest;
    if s == [] {
      assert t[1..] == rest;
    } else {
      var tail := EscapedIdentifier(s[1..]) + [BACKTICK] + rest;
      InnerOfQuoted(s[1..], rest);
      InnerStep(s[0], tail);
      assert t == (if s[0] == BACKTICK || s[0] == BACKSLASH then [BACKSLASH, s[0]] else [s[0]]) + tail;
      assert [s[0]] + s[1..] == s;
      ControlsFirst(s);
    }
  }

  lemma ControlsFirst(s: seq<byte>)
    requires s != []
    ensures NoControls(s) <==> 0x20 <= s[0] && NoControls(s[1..])
  {
    assert s == [s[0]] + s[1..];
  }

  lemma InnerStep(c: byte, tail: seq<byte>)
    ensures Inner((if c == BACKTICK || c == BACKSLASH then [BACKSLASH, c] else [c]) + tail)
         == if c < 0x20 then Wrong(InvalidCharacter) else Prepend(c, Inner(tail))
  {
    var e := if c == BACKTICK || c == BACKSLASH then [BACKSLASH, c] else [c];
    assert (e + tail)[|e|..] == tail;
  }

  /** A quoted identifier is accepted, and emitted unchanged, if and only if it is neither empty
      nor holds a control byte. */
  lemma QuotedIsAccepted(s: seq<byte>, allowDot: bool)
    ensures Identifier(QuotedIdentifier(s), allowDot) == Emitted(QuotedIdentifier(s)) <==> s != [] && NoControls(s)
    ensures Identifier(QuotedIdentifier(s), allowDot).Emitted? <==> s != [] && NoControls(s)
  {
    InnerOfQuoted(s, []);
    assert QuotedIdentifier(s)[1..] == EscapedIdentifier(s) + [BACKTICK] + [];
  }

  lemma {:induction false} InnerHasNoControls(s: seq<byte>)
    requires Inner(s).Part?
    ensures NoControls(Inner(s).text)
    decreases |s|
  {
    if s[0] == BACKSLASH && 1 < |s| && (s[1] == BACKTICK || s[1] == BACKSLASH) {
      InnerHasNoControls(s[2..]);
    } else if s[0] != BACKTICK {
      InnerHasNoControls(s[1..]);
    }
  }

  lemma {:induction false} WordIsMaximal(s: seq<byte>, rest: seq<byte>)
    requires Word(s).rest == [] && (rest == [] || !IsWord(rest[0]))
    ensures Word(s + rest) == Part(s, rest)
  {
    if s == [] {
      assert s + rest == rest;
    } else {
      assert (s + rest)[1..] == s[1..] + rest;
      WordIsMaximal(s[1..], rest);
    }
  }

  lemma {:induction false} WordOfWord(s: seq<byte>)
    ensures Word(Word(s).text).rest == [] && (Word(s).rest == [] || !IsWord(Word(s).rest[0]))
  {
    if s != [] && IsWord(s[0]) {
      WordOfWord(s[1..]);
      assert Word(s).text[1..] == Word(s[1..]).text;
    }
  }

  lemma QuotedReparses(inner: seq<byte>, rest: seq<byte>)
    requires inner != [] && NoControls(inner)
    ensures Segment(QuotedIdentifier(inner) + rest) == Part(QuotedIdentifier(inner), rest)
  {
    var text := QuotedIdentifier(inner);
    InnerOfQuoted(inner, rest);
    assert (text + rest)[1..] == EscapedIdentifier(inner) + [BACKTICK] + rest;
  }

  lemma TailOfCons(c: byte, word: seq<byte>, rest: seq<byte>)
    ensures ([c] + word + rest)[0] == c && ([c] + word + rest)[1..] == word + rest
  {
  }

  lemma WordReparses(c: byte, word: seq<byte>, rest: seq<byte>)
    requires IsLetter(c) && Word(word).rest == [] && (rest == [] || !IsWord(rest[0]))
    ensures Segment([c] + word + rest) == Part([c] + word, rest)
  {
    hide Word;
    WordIsMaximal(word, rest);
    TailOfCons(c, word, rest);
  }

  /** A segment that was emitted is parsed as itself, in front of the end or of a dot. */
  lemma SegmentReparses(s: seq<byte>, rest: seq<byte>)
    requires Segment(s).Part? && (rest == [] || rest[0] == PERIOD)
    ensures Segment(Segment(s).text + rest) == Part(Segment(s).text, rest)
  {
    hide Inner, Word, QuotedIdentifier;
    if s[0] == BACKTICK {
      InnerHasNoControls(s[1..]);
      QuotedReparses(Inner(s[1..]).text, rest);
    } else {
      WordOfWord(s[1..]);
      WordReparses(s[0], Word(s[1..]).text, rest);
    }
  }

  /** What the parser emits is accepted again and emitted unchanged. */
  lemma OutputReparses(s: seq<byte>, allowDot: bool)
    requires Identifier(s, allowDot).Emitted?
    ensures var t := Identifier(s, allowDot).text; Identifier(t, allowDot) == Emitted(t)
  {
    var first := Segment(s);
    if first.rest == [] {
      SegmentReparses(s, []);
      assert first.text + [] == first.text;
    } else {
      var second := Segment(first.rest[1..]);
      var tail := [PERIOD] + second.text;
      SegmentReparses(s, tail);
      SegmentReparses(first.rest[1..], []);
      assert second.text + [] == second.text && tail[1..] == second.text;
      Assoc(first.text, [PERIOD], second.text);
    }
  }

  //// The language of identifiers

  /** A bare word: a letter or underscore, then letters, digits and underscores. */
  predicate IsBareWord(s: seq<byte>) {
    s != [] && IsLetter(s[0]) && forall i :: 0 <= i < |s| ==> IsWord(s[i])
  }

  ghost predicate IsQuotedSegment(s: seq<byte>) {
    exists inner :: inner != [] && NoControls(inner) && s == QuotedIdentifier(inner)
  }

  ghost predicate IsSegment(s: seq<byte>) {
    IsBareWord(s) || IsQuotedSegment(s)
  }

  /** One segment, or two around a dot where dots are allowed. */
  ghost predicate IsCanonical(s: seq<byte>, allowDot: bool) {
    IsSegment(s) || (allowDot && exists a, b :: IsSegment(a) && IsSegment(b) && s == a + [PERIOD] + b)
  }

  lemma {:induction false} WordHasNoRest(s: seq<byte>)
    ensures Word(s).rest == [] <==> forall i :: 0 <= i < |s| ==> IsWord(s[i])
    ensures forall i :: 0 <= i < |Word(s).text| ==> IsWord(Word(s).text[i])
  {
    if s != [] && IsWord(s[0]) { WordHasNoRest(s[1..]); }
  }

  /** The parser takes a segment whole, in front of the end or of a dot. */
  lemma SegmentIsTaken(s: seq<byte>, rest: seq<byte>)
    requires IsSegment(s) && (rest == [] || rest[0] == PERIOD)
    ensures Segment(s + rest) == Part(s, rest)
  {
    hide Inner, Word, QuotedIdentifier;
    if IsBareWord(s) {
      WordHasNoRest(s[1..]);
      WordReparses(s[0], s[1..], rest);
      assert [s[0]] + s[1..] == s;
    } else {
      var inner :| inner != [] && NoControls(inner) && s == QuotedIdentifier(inner);
      QuotedReparses(inner, rest);
    }
  }

  lemma SegmentIsCanonical(s: seq<byte>)
    requires Segment(s).Part?
    ensures IsSegment(Segment(s).text)
  {
    hide Inner, Word, QuotedIdentifier;
    if s[0] == BACKTICK {
      InnerHasNoControls(s[1..]);
      assert IsQuotedSegment(Segment(s).text);
    } else {
      WordHasNoRest(s[1..]);
    }
  }

  /** The parser emits canonical identifiers only, and exactly those are emitted unchanged. */
  lemma CanonicalIsFixed(s: seq<byte>, allowDot: bool)
    ensures Identifier(s, allowDot).Emitted? ==> IsCanonical(Identifier(s, allowDot).text, allowDot)
    ensures Identifier(s, allowDot) == Emitted(s) <==> IsCanonical(s, allowDot)
  {
    hide Segment, IsSegment;
    if Identifier(s, allowDot).Emitted? {
      SegmentIsCanonical(s);
      if Segment(s).rest != [] { SegmentIsCanonical(Segment(s).rest[1..]); }
    }
    if IsCanonical(s, allowDot) { CanonicalIsEmitted(s, allowDot); }
  }

  lemma CanonicalIsEmitted(s: seq<byte>, allowDot: bool)
    requires IsCanonical(s, allowDot)
    ensures Identifier(s, allowDot) == Emitted(s)
  {
    hide Segment, IsSegment;
    if IsSegment(s) {
      SegmentIsTaken(s, []);
      assert s + [] == s;
      SegmentIsNotEmpty(s);
    } else {
      var a, b :| IsSegment(a) && IsSegment(b) && s == a + [PERIOD] + b;
      SegmentIsTaken(a, [PERIOD] + b);
      SegmentIsTaken(b, []);
      Assoc(a, [PERIOD], b);
      assert b + [] == b && ([PERIOD] + b)[1..] == b;
    }
  }

  lemma SegmentIsNotEmpty(s: seq<byte>)
    requires IsSegment(s)
    ensures s != []
  {
  }

  //// Single characters, and what is refused

  /** ASCII letters and the underscore begin a bare word, digits may follow. */
  lemma OneCharacter(c: byte, allowDot: bool)
    ensures Identifier([c], allowDot).Emitted? <==> 65 <= c <= 90 || 97 <= c <= 122 || c == 95
    ensures Identifier([LOWER_A, c], allowDot).Emitted? <==> 65 <= c <= 90 || 97 <= c <= 122 || c == 95 || 48 <= c <= 57
    ensures Identifier([LOWER_A, PERIOD, c], allowDot).Emitted? <==> allowDot && (65 <= c <= 90 || 97 <= c <= 122 || c == 95)
  {
    var one, two, dotted := [c], [LOWER_A, c], [LOWER_A, PERIOD, c];
    assert one[1..] == [] && two[1..] == [c] && two[1..][1..] == [];
    assert dotted[1..] == [PERIOD, c] && dotted[1..][1..] == [c] && dotted[1..][1..][1..] == [];
    assert Word([]) == Part([], []);
    assert Word([c]) == if IsWord(c) then Part([c], []) else Part([], [c]);
    assert Word([PERIOD, c]) == Part([], [PERIOD, c]);
    if c == BACKTICK {
      assert Inner([]) == Wrong(Unterminated);
    }
  }

  /** A text that begins with a bare word, and why it is refused if what follows is not the end. */
  lemma AfterWord(word: seq<byte>, rest: seq<byte>, allowDot: bool)
    requires IsBareWord(word) && rest != [] && !IsWord(rest[0])
    ensures var r := Identifier(word + rest, allowDot);
            && (rest[0] != PERIOD || !allowDot ==> r == Invalid(InvalidCharacter))
            && (allowDot && rest == [PERIOD] ==> r == Invalid(EmptySegment))
            && (allowDot && 1 < |rest| && rest[0] == PERIOD && rest[1] != BACKTICK && !IsLetter(rest[1]) ==> r == Invalid(BadStart))
  {
    WordEndsAt(word[1..], rest);
    assert (word + rest)[1..] == word[1..] + rest;
    hide Word;
  }

  lemma {:induction false} WordEndsAt(word: seq<byte>, rest: seq<byte>)
    requires (forall i :: 0 <= i < |word| ==> IsWord(word[i])) && (rest == [] || !IsWord(rest[0]))
    ensures Word(word + rest) == Part(word, rest)
  {
    if word == [] {
      assert word + rest == rest;
    } else {
      WordEndsAt(word[1..], rest);
      assert (word + rest)[1..] == word[1..] + rest;
      assert word == [word[0]] + word[1..];
    }
  }

  /** The other refusals: nothing, a first character that begins nothing, quotes around nothing, a
      quoted segment that does not end, and one that holds a control byte. */
  lemma Refusals(s: seq<byte>, allowDot: bool)
    ensures Identifier([], allowDot) == Invalid(Empty)
    ensures s != [] && s[0] != BACKTICK && !IsLetter(s[0]) ==> Identifier(s, allowDot) == Invalid(BadStart)
    ensures Identifier([BACKTICK, BACKTICK] + s, allowDot) == Invalid(EmptySegment)
    ensures NoControls(s) ==> Identifier([BACKTICK] + EscapedIdentifier(s), allowDot) == Invalid(Unterminated)
  {
    assert ([BACKTICK, BACKTICK] + s)[1..] == [BACKTICK] + s && ([BACKTICK] + s)[1..] == s;
    assert ([BACKTICK] + EscapedIdentifier(s))[1..] == EscapedIdentifier(s);
    if NoControls(s) { Unclosed(s); }
  }

  lemma {:induction false} Unclosed(s: seq<byte>)
    requires NoControls(s)
    ensures Inner(EscapedIdentifier(s)) == Wrong(Unterminated)
  {
    if s != [] {
      Unclosed(s[1..]);
      InnerStep(s[0], EscapedIdentifier(s[1..]));
    }
  }

  /** What an identifier's text between its backticks denotes: a backslash in front of a backtick or
      a backslash makes it ordinary, any other backslash stands for itself. */
  function DenotedName(s: seq<byte>): seq<byte> {
    if s == [] then []
    else if s[0] == BACKSLASH && 1 < |s| && (s[1] == BACKTICK || s[1] == BACKSLASH) then [s[1]] + DenotedName(s[2..])
    else [s[0]] + DenotedName(s[1..])
  }

  /** The quoted identifier of a name denotes the name. */
  lemma {:induction false} QuotedDenotes(s: seq<byte>)
    ensures DenotedName(EscapedIdentifier(s)) == s
    ensures QuotedIdentifier(s) == [BACKTICK] + EscapedIdentifier(s) + [BACKTICK]
  {
    Assoc([BACKTICK], EscapedIdentifier(s), [BACKTICK]);
    if s != [] {
      QuotedDenotes(s[1..]);
      var e := if s[0] == BACKTICK || s[0] == BACKSLASH then [BACKSLASH, s[0]] else [s[0]];
      assert (e + EscapedIdentifier(s[1..]))[|e|..] == EscapedIdentifier(s[1..]);
      assert s == [s[0]] + s[1..];
    }
  }

  /** What the parser takes from a quoted segment is what the text before the closing backtick
      denotes: emitting never changes the name. */
  lemma {:induction false} InnerDenotes(s: seq<byte>)
    requires Inner(s).Part?
    ensures var p := Inner(s);
            |p.rest| < |s| && s[|s| - |p.rest|..] == p.rest && s[|s| - |p.rest| - 1] == BACKTICK
            && DenotedName(s[..|s| - |p.rest| - 1]) == p.text
    decreases |s|
  {
    if s[0] == BACKSLASH && 1 < |s| && (s[1] == BACKTICK || s[1] == BACKSLASH) {
      InnerDenotes(s[2..]);
      var k := |s| - |Inner(s).rest| - 1;
      assert s[..k][2..] == s[2..][..k - 2];
    } else if s[0] != BACKTICK {
      InnerDenotes(s[1..]);
      var k := |s| - |Inner(s).rest| - 1;
      assert s[..k][1..] == s[1..][..k - 1];
    } else {
      assert s[..0] == [];
    }
  }

  //// The query log

  const LOG_STRING_MAX: nat := 8192
  const LOG_MAX: nat := 1024
  const SUFFIX: seq<byte> := [46, 46, 46, 32, 40, 116, 114, 117, 110, 99, 97, 116, 101, 100, 41]

  function LogString(s: seq<byte>): (r: seq<byte>)
    ensures |r| <= LOG_STRING_MAX
  {
    if |s| <= LOG_STRING_MAX then s else s[..LOG_STRING_MAX - |SUFFIX|] + SUFFIX
  }

  /** A text of at most 8192 bytes is kept whole, a longer one loses its end, and says so. */
  lemma LogStringKeeps(s: seq<byte>)
    ensures LogString(s) == s <==> |s| <= 8192
    ensures |s| > 8192 ==>
              LogString(s) == s[..8177] + [46, 46, 46, 32, 40, 116, 114, 117, 110, 99, 97, 116, 101, 100, 41]
  {
  }

  datatype Entry = Entry(sql: seq<byte>, queryId: seq<byte>)

  function LogEntry(sql: seq<byte>, queryId: seq<byte>): Entry {
    Entry(LogString(Redact(sql)), LogString(queryId))
  }

  /** The last n of a list. */
  function Last<T>(s: seq<T>, n: nat): seq<T> {
    if |s| <= n then s else s[|s| - n..]
  }

  class QueryLog {
    var enabled: bool
    var entries: seq<Entry>

    constructor (enabled: bool)
      ensures this.enabled == enabled && entries == []
    {
      this.enabled, entries := enabled, [];
    }

    /** Drops the oldest entry when the log is full. */
    method Record(sql: seq<byte>, queryId: seq<byte>)
      requires |entries| <= LOG_MAX
      modifies this`entries
      ensures |entries| <= LOG_MAX
      ensures entries == if enabled then Last(old(entries) + [LogEntry(sql, queryId)], LOG_MAX) else old(entries)
    {
      if !enabled {
        return;
      }
      var redacted := RedactSqlLiterals(sql);
      if |entries| >= LOG_MAX {
        entries := entries[1..];
      }
      entries := entries + [Entry(LogString(redacted), LogString(queryId))];
    }
  }

  function RecordAll(entries: seq<Entry>, more: seq<Entry>): seq<Entry>
    decreases |more|
  {
    if more == [] then entries else RecordAll(Last(entries + [more[0]], LOG_MAX), more[1..])
  }

  /** However many queries are recorded, the log holds exactly the most recent ones, in order. */
  lemma {:induction false} LogHoldsTheLatest(entries: seq<Entry>, more: seq<Entry>)
    requires |entries| <= LOG_MAX
    ensures RecordAll(entries, more) == Last(entries + more, LOG_MAX)
    decreases |more|
  {
    if more == [] {
      assert entries + more == entries;
    } else {
      var next := Last(entries + [more[0]], LOG_MAX);
      LogHoldsTheLatest(next, more[1..]);
      assert entries + more == (entries + [more[0]]) + more[1..];
      assert Last(next + more[1..], LOG_MAX) == Last(entries + more, LOG_MAX);
    }
  }

  /** The log entry of a statement does not depend on what its literal holds. */
  lemma LogHidesContent(pre: seq<byte>, x: seq<byte>, y: seq<byte>, post: seq<byte>, queryId: seq<byte>)
    requires QuoteFree(pre)
    ensures LogEntry(pre + StringLiteral(x) + post, queryId) == LogEntry(pre + StringLiteral(y) + post, queryId)
  {
    RedactHidesContent(pre, x, y, post);
  }
}
