/** Buffered input as values: what a read, a refill and a skip give and leave, and exactly when the
    bytes asked for are there. */
module BufferedReads {
  import opened Bytes

  /** What the source does with the next read: give up to n of the bytes it has, or throw. */
  datatype Reaction = Gives(n: nat) | Throws

  /** Any source: it follows a list of reactions, and is at its end when the list is used up. */
  datatype Source = Source(data: seq<byte>, reactions: seq<Reaction>)

  /** The bytes in the buffer, and the source behind them. */
  datatype Input = Input(waiting: seq<byte>, source: Source)

  /** What a read gives, and what it leaves. */
  datatype Got<+S> = Got(bytes: seq<byte>, thrown: bool, left: S)

  function Min(a: nat, b: nat): nat {
    if a <= b then a else b
  }

  function SourceRead(s: Source, len: nat): Got<Source> {
    if s.reactions == [] then Got([], false, s)
    else if s.reactions[0].Throws? then Got([], true, s.(reactions := s.reactions[1..]))
    else
      var n := Min(Min(len, s.reactions[0].n), |s.data|);
      Got(s.data[..n], false, Source(s.data[n..], s.reactions[1..]))
  }

  /** The empty buffer is filled by one read of its whole length. */
  function Refill(capacity: nat, b: Input): Got<Input> {
    var g := SourceRead(b.source, capacity);
    Got([], g.thrown, Input(if g.thrown then b.waiting else g.bytes, g.left))
  }

  function Take(b: Input, len: nat): Got<Input> {
    var k := Min(len, |b.waiting|);
    Got(b.waiting[..k], false, b.(waiting := b.waiting[k..]))
  }

  /** Always through the buffer. */
  function Next(capacity: nat, b: Input, len: nat): Got<Input> {
    if b.waiting != [] then Take(b, len)
    else
      var r := Refill(capacity, b);
      if r.thrown then r else Take(r.left, len)
  }

  /** Small reads come from the buffer, large ones go past it once it is empty. */
  function Read(capacity: nat, b: Input, len: nat): Got<Input> {
    if b.waiting == [] && len > capacity / 2 then
      var g := SourceRead(b.source, len);
      Got(g.bytes, g.thrown, b.(source := g.left))
    else Next(capacity, b, len)
  }

  /** Piece by piece, until everything is there or a read gives nothing or throws. */
  datatype All = All(bytes: seq<byte>, ok: bool, thrown: bool, left: Input)

  function ReadAll(capacity: nat, b: Input, len: nat): All
    decreases len
  {
    if len == 0 then All([], true, false, b)
    else
      var g := Read(capacity, b, len);
      if g.thrown || g.bytes == [] then All([], false, g.thrown, g.left)
      else if len <= |g.bytes| then All(g.bytes, true, false, g.left)
      else
        var later := ReadAll(capacity, g.left, len - |g.bytes|);
        later.(bytes := g.bytes + later.bytes)
  }

  function Skip(capacity: nat, b: Input, len: nat): All
    decreases len
  {
    if len == 0 then All([], true, false, b)
    else
      var g := Next(capacity, b, len);
      if g.thrown || g.bytes == [] then All([], false, g.thrown, g.left)
      else if len <= |g.bytes| then All(g.bytes, true, false, g.left)
      else
        var later := Skip(capacity, g.left, len - |g.bytes|);
        later.(bytes := g.bytes + later.bytes)
  }

  //// What is there

  /** The bytes still to be read. */
  function Pending(b: Input): seq<byte> {
    b.waiting + b.source.data
  }

  /** How many bytes reads of at most a given length can get before one gives nothing or throws. */
  function Supply(reactions: seq<Reaction>, most: nat): nat {
    if reactions == [] || reactions[0].Throws? || Min(most, reactions[0].n) == 0 then 0
    else Min(most, reactions[0].n) + Supply(reactions[1..], most)
  }

  /** Whether the read that gives nothing more throws, when size bytes are left. */
  predicate EndsThrown(reactions: seq<Reaction>, most: nat, size: nat) {
    reactions != []
    && (reactions[0].Throws?
        || (0 < Min(Min(most, reactions[0].n), size) && EndsThrown(reactions[1..], most, size - Min(Min(most, reactions[0].n), size))))
  }

  /** One read of a source: nothing, and an exception or the end, exactly if it has or gives no more. */
  lemma SourceReadExactly(s: Source, len: nat)
    ensures var g := SourceRead(s, len);
            && s.data == g.bytes + g.left.data
            && |g.bytes| == (if s.reactions == [] || s.reactions[0].Throws? then 0
                             else Min(Min(len, s.reactions[0].n), |s.data|))
            && (g.thrown <==> s.reactions != [] && s.reactions[0].Throws?)
  {
  }

  /** A read that does not throw returns as much as is asked for of what waits; of an empty buffer,
      what the source gives at once. In any case bytes are neither lost nor skipped nor repeated. */
  lemma ReadExactly(capacity: nat, b: Input, len: nat)
    ensures var g := Read(capacity, b, len);
            && Pending(b) == g.bytes + Pending(g.left)
            && (b.waiting != [] ==> !g.thrown && |g.bytes| == Min(len, |b.waiting|) && g.left.source == b.source)
            && (g.thrown ==> g.bytes == [])
            && (b.waiting == [] ==>
                  && (g.thrown <==> b.source.reactions != [] && b.source.reactions[0].Throws?)
                  && |g.bytes| == Min(len, |SourceRead(b.source, if len > capacity / 2 then len else capacity).bytes|))
  {
    NextExactly(capacity, b, len);
    SourceReadExactly(b.source, len);
    if b.waiting == [] && len > capacity / 2 {
      var g := Read(capacity, b, len);
      assert Pending(b) == b.source.data && Pending(g.left) == g.left.source.data;
    }
  }

  lemma NextExactly(capacity: nat, b: Input, len: nat)
    ensures var g := Next(capacity, b, len);
            && Pending(b) == g.bytes + Pending(g.left)
            && (b.waiting != [] ==> !g.thrown && |g.bytes| == Min(len, |b.waiting|) && g.left.source == b.source)
            && (b.waiting == [] ==>
                  && (g.thrown <==> b.source.reactions != [] && b.source.reactions[0].Throws?)
                  && |g.bytes| == Min(len, |SourceRead(b.source, capacity).bytes|))
  {
    SourceReadExactly(b.source, capacity);
    hide SourceRead;
    var g := Next(capacity, b, len);
    if b.waiting != [] {
      Assoc(g.bytes, g.left.waiting, b.source.data);
    } else if !g.thrown {
      var r := Refill(capacity, b).left;
      assert Pending(b) == b.source.data == Pending(r);
      Assoc(g.bytes, g.left.waiting, r.source.data);
    }
  }

  /** What can be read of an input, if a read of the source asks for at most so many bytes at once. */
  function Available(b: Input, most: nat): nat {
    |b.waiting| + Min(|b.source.data|, Supply(b.source.reactions, most))
  }

  /** A skip succeeds exactly if the bytes are available to reads of the buffer's length; otherwise it
      has skipped those that are, and throws exactly if the source does then. */
  lemma {:induction false} SkipExactly(capacity: nat, b: Input, len: nat)
    ensures var s, m := Skip(capacity, b, len), Available(b, capacity);
            && Pending(b) == s.bytes + Pending(s.left)
            && (s.ok <==> len <= m) && |s.bytes| == Min(len, m)
            && (s.thrown <==> m < len && EndsThrown(b.source.reactions, capacity, |b.source.data|))
    decreases len
  {
    hide Next, Supply, EndsThrown;
    if len != 0 {
      NextExactly(capacity, b, len);
      var g := Next(capacity, b, len);
      NextSupply(capacity, b, len);
      if !g.thrown && 0 < |g.bytes| < len {
        SkipExactly(capacity, g.left, len - |g.bytes|);
        Assoc(g.bytes, Skip(capacity, g.left, len - |g.bytes|).bytes, Pending(Skip(capacity, g.left, len - |g.bytes|).left));
      } else if !g.thrown && g.bytes == [] {
        assert [] + Pending(g.left) == Pending(g.left);
      }
    } else {
      assert [] + Pending(b) == Pending(b);
    }
  }

  /** A read through the buffer uses up what it gives of what is available. */
  lemma NextSupply(capacity: nat, b: Input, len: nat)
    requires 0 < len
    ensures var g, m := Next(capacity, b, len), Available(b, capacity);
            && |g.bytes| <= m
            && (g.thrown || g.bytes == [] ==>
                  m == 0 && (g.thrown <==> EndsThrown(b.source.reactions, capacity, |b.source.data|)))
            && (!g.thrown && g.bytes != [] ==>
                  && Available(g.left, capacity) + |g.bytes| == m
                  && EndsThrown(g.left.source.reactions, capacity, |g.left.source.data|)
                     == EndsThrown(b.source.reactions, capacity, |b.source.data|))
  {
  }

  /** A read of at most so many bytes uses up what it gives of what is available, whether it goes
      through the buffer or past it. */
  lemma ReadSupply(capacity: nat, b: Input, len: nat, most: nat)
    requires 0 < len <= most
    ensures var g, m := Read(capacity, b, len), Available(b, most);
            && |g.bytes| <= len
            && (g.thrown || g.bytes == [] ==>
                  m == 0 && (g.thrown <==> EndsThrown(b.source.reactions, most, |b.source.data|)))
            && (!g.thrown && 0 < |g.bytes| < len ==>
                  && Available(g.left, most) + |g.bytes| == m
                  && EndsThrown(g.left.source.reactions, most, |g.left.source.data|)
                     == EndsThrown(b.source.reactions, most, |b.source.data|))
            && (|g.bytes| == len ==> len <= m)
  {
    hide Supply, EndsThrown, SourceRead;
    var k := if len > capacity / 2 then len else capacity;
    SourceSupply(b.source, k, most);
    SourceReadExactly(b.source, k);
    if b.waiting != [] {
      assert |Take(b, len).bytes| == Min(len, |b.waiting|);
    }
  }

  /** What one read of the source does to what is available. */
  lemma SourceSupply(s: Source, k: nat, most: nat)
    requires 0 < k && 0 < most
    ensures var g := SourceRead(s, k);
            var m, left := Min(|s.data|, Supply(s.reactions, most)), Min(|g.left.data|, Supply(g.left.reactions, most));
            && (g.bytes == [] ==> m == 0 && (g.thrown <==> EndsThrown(s.reactions, most, |s.data|)))
            && (0 < |g.bytes| < Min(k, most) ==>
                  && m == |g.bytes| + left
                  && EndsThrown(g.left.reactions, most, |g.left.data|) == EndsThrown(s.reactions, most, |s.data|))
            && Min(|g.bytes|, most) <= m
  {
  }

  /** All the bytes asked for are read exactly if they are available, whatever the length of the
      buffer; otherwise those that are have been read, and an exception is reported exactly if the
      source throws then. */
  lemma ReadAllExactly(capacity: nat, b: Input, len: nat)
    ensures var s, m := ReadAll(capacity, b, len), Available(b, len);
            && Pending(b) == s.bytes + Pending(s.left)
            && (s.ok <==> len <= m) && |s.bytes| == Min(len, m)
            && (s.thrown <==> m < len && EndsThrown(b.source.reactions, len, |b.source.data|))
  {
    ReadMost(capacity, b, len, len);
  }

  lemma {:induction false} ReadMost(capacity: nat, b: Input, len: nat, most: nat)
    requires len <= most
    ensures var s, m := ReadAll(capacity, b, len), Available(b, most);
            && Pending(b) == s.bytes + Pending(s.left)
            && (s.ok <==> len <= m) && |s.bytes| == Min(len, m)
            && (s.thrown <==> m < len && EndsThrown(b.source.reactions, most, |b.source.data|))
    decreases len
  {
    hide Read;
    if len != 0 {
      ReadExactly(capacity, b, len);
      ReadSupply(capacity, b, len, most);
      var g := Read(capacity, b, len);
      if !g.thrown && 0 < |g.bytes| < len {
        ReadMost(capacity, g.left, len - |g.bytes|, most);
        var later := ReadAll(capacity, g.left, len - |g.bytes|);
        Assoc(g.bytes, later.bytes, Pending(later.left));
      } else if g.bytes == [] {
        assert [] + Pending(g.left) == Pending(g.left);
      }
    } else {
      assert [] + Pending(b) == Pending(b);
    }
  }
}
