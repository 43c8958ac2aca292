/** Small shared vocabulary: optional values, bytes, machine words and sequences. */
module Prelude {

  datatype Option<+T> = None | Some(value: T)

  type Byte = x: int | 0 <= x < 256

  /** The number of values of a 64-bit word. */
  const WORD: nat := 0x1_0000_0000_0000_0000

  type UInt64 = x: int | 0 <= x < WORD

  function CeilDiv(x: nat, d: nat): nat
    requires d > 0
  {
    (x + d - 1) / d
  }

  function Reverse<T>(s: seq<T>): (r: seq<T>)
    ensures |r| == |s| && forall i | 0 <= i < |s| :: r[i] == s[|s| - 1 - i]
  {
    if s == [] then [] else Reverse(s[1..]) + [s[0]]
  }

  function Remove<T>(s: seq<T>, i: nat): (r: seq<T>)
    requires i < |s|
    ensures |r| == |s| - 1
  {
    s[..i] + s[i + 1..]
  }

  /** The elements of s that satisfy keep, in order. */
  function Filter<T(!new)>(keep: T -> bool, s: seq<T>): (r: seq<T>)
    ensures |r| <= |s|
    ensures forall x :: x in r <==> x in s && keep(x)
  {
    if s == [] then []
    else
      var rest := Filter(keep, s[..|s| - 1]);
      assert s == s[..|s| - 1] + [s[|s| - 1]];
      if keep(s[|s| - 1]) then rest + [s[|s| - 1]] else rest
  }

  lemma FilterLast<T(!new)>(keep: T -> bool, s: seq<T>, x: T)
    ensures Filter(keep, s + [x]) == if keep(x) then Filter(keep, s) + [x] else Filter(keep, s)
  {
    assert (s + [x])[..|s|] == s;
  }

  lemma {:induction false} FilterAppend<T(!new)>(keep: T -> bool, a: seq<T>, b: seq<T>)
    ensures Filter(keep, a + b) == Filter(keep, a) + Filter(keep, b)
  {
    if b == [] {
      assert a + b == a;
    } else {
      var front, x := b[..|b| - 1], b[|b| - 1];
      FilterAppend(keep, a, front);
      FilterAppendLast(keep, a, front, x);
      assert b == front + [x];
    }
  }

  lemma FilterAppendLast<T(!new)>(keep: T -> bool, a: seq<T>, front: seq<T>, x: T)
    requires Filter(keep, a + front) == Filter(keep, a) + Filter(keep, front)
    ensures Filter(keep, a + (front + [x])) == Filter(keep, a) + Filter(keep, front + [x])
  {
    Assoc(a, front, [x]);
    FilterLast(keep, a + front, x);
    FilterLast(keep, front, x);
    Assoc(Filter(keep, a), Filter(keep, front), [x]);
  }

  lemma Assoc<T>(a: seq<T>, b: seq<T>, c: seq<T>)
    ensures a + (b + c) == (a + b) + c
  {
  }

  /** Filtering keeps every copy of the elements it keeps and none of the others. */
  lemma {:induction false} FilterCount<T(!new)>(keep: T -> bool, s: seq<T>, x: T)
    ensures multiset(Filter(keep, s))[x] == if keep(x) then multiset(s)[x] else 0
  {
    if s != [] {
      FilterCount(keep, s[..|s| - 1], x);
      assert s == s[..|s| - 1] + [s[|s| - 1]];
    }
  }

  lemma RemoveCount<T>(s: seq<T>, i: nat, x: T)
    requires i < |s|
    ensures multiset(Remove(s, i))[x] + (if s[i] == x then 1 else 0) == multiset(s)[x]
  {
    assert s == s[..i] + [s[i]] + s[i + 1..];
  }

  /** Chaining two equations of the form "handed out, then left over" = "had, then came in". */
  lemma ChainQueues<T>(out0: seq<T>, out1: seq<T>, had: seq<T>, middle: seq<T>, left: seq<T>, in0: seq<T>, in1: seq<T>)
    requires out0 + middle == had + in0 && out1 + left == middle + in1
    ensures (out0 + out1) + left == had + (in0 + in1)
  {
    assert (out0 + out1) + left == out0 + (out1 + left) == (out0 + middle) + in1 == had + (in0 + in1);
  }

  lemma HeadTail<T>(x: T, rest: seq<T>, all: seq<T>)
    requires [x] + rest == all
    ensures x == all[0] && rest == all[1..]
  {
  }
}
