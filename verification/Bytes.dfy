/** Bytes, the characters the text formats give a meaning to, and small sequence helpers. */
module Bytes {

  type byte = x: int | 0 <= x < 256

  const NUL: byte := 0
  const BELL: byte := 7
  const BACKSPACE: byte := 8
  const TAB: byte := 9
  const LF: byte := 10
  const VTAB: byte := 11
  const FORMFEED: byte := 12
  const CR: byte := 13
  const QUOTE: byte := 34
  const APOSTROPHE: byte := 39
  const COMMA: byte := 44
  const DIGIT_ZERO: byte := 48
  const UPPER_N: byte := 78
  const BACKSLASH: byte := 92
  const LOWER_A: byte := 97
  const LOWER_B: byte := 98
  const LOWER_F: byte := 102
  const LOWER_N: byte := 110
  const LOWER_R: byte := 114
  const LOWER_T: byte := 116
  const LOWER_V: byte := 118

  datatype Option<+T> = None | Some(value: T)

  function Flatten<T>(parts: seq<seq<T>>): seq<T> {
    if parts == [] then [] else parts[0] + Flatten(parts[1..])
  }

  lemma {:induction false} FlattenConcat<T>(a: seq<seq<T>>, b: seq<seq<T>>)
    ensures Flatten(a + b) == Flatten(a) + Flatten(b)
  {
    if a == [] {
      assert a + b == b;
    } else {
      assert (a + b)[1..] == a[1..] + b;
      FlattenConcat(a[1..], b);
    }
  }

  lemma FlattenSnoc<T>(a: seq<seq<T>>, last: seq<T>)
    ensures Flatten(a + [last]) == Flatten(a) + last
  {
    FlattenConcat(a, [last]);
    assert Flatten([last]) == last;
  }

  /** A range of a sequence; what reaches past the end is cut off. */
  function SliceVector<T>(s: seq<T>, begin: nat, len: nat): seq<T> {
    if begin < |s| then s[begin..begin + if len < |s| - begin then len else |s| - begin] else []
  }

  predicate Monotone(offsets: seq<nat>) {
    forall i, j :: 0 <= i <= j < |offsets| ==> offsets[i] <= offsets[j]
  }

  lemma MoveHead<T>(a: seq<T>, s: seq<T>)
    requires s != []
    ensures a + s == (a + [s[0]]) + s[1..]
  {
  }

  lemma Assoc<T>(a: seq<T>, b: seq<T>, c: seq<T>)
    ensures (a + b) + c == a + (b + c)
  {
  }

  lemma SliceOfSlice<T>(s: seq<T>, lo: nat, hi: nat, a: nat, b: nat)
    requires lo <= hi <= |s| && a <= b <= hi - lo
    ensures s[lo..hi][a..b] == s[lo + a..lo + b]
  {
    var whole, part := s[lo + a..lo + b], s[lo..hi];
    assert |part[a..b]| == |whole|;
    forall i | 0 <= i < |whole| ensures part[a..b][i] == whole[i] {
      assert part[a..b][i] == part[a + i] == s[lo + a + i];
    }
  }
}
