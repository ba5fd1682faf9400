/**
 Order-preserving sub-sequences and first-index search over sequences.

 `IsSubseq` is the reference notion used throughout the model: `a` can be
 obtained from `b` by deleting elements without reordering the rest. It is
 stated non-greedily (every way of matching is allowed), so that greedy
 algorithms elsewhere can be proved against it.
 */
module Subseq {

  /** `a` is obtained from `b` by deleting zero or more elements. */
  ghost predicate IsSubseq<T>(a: seq<T>, b: seq<T>)
    decreases |b|
  {
    if |a| == 0 then true
    else if |b| == 0 then false
    else (a[0] == b[0] && IsSubseq(a[1..], b[1..])) || IsSubseq(a, b[1..])
  }

  /** Index of the first element satisfying `p`, or -1 when there is none
      (Go's `slices.IndexFunc`). */
  function IndexFunc<T>(s: seq<T>, p: T -> bool): (k: int)
    ensures -1 <= k < |s|
    ensures 0 <= k ==> p(s[k]) && forall i :: 0 <= i < k ==> !p(s[i])
    ensures k == -1 <==> forall i :: 0 <= i < |s| ==> !p(s[i])
  {
    if |s| == 0 then -1
    else if p(s[0]) then 0
    else
      var k := IndexFunc(s[1..], p);
      if k == -1 then -1 else k + 1
  }

  /** Prepending an element to the longer sequence keeps a sub-sequence one. */
  lemma ExtendRight<T>(x: T, a: seq<T>, b: seq<T>)
    requires IsSubseq(a, b)
    ensures IsSubseq(a, [x] + b)
  {
  }

  /** Every sequence is a sub-sequence of itself. */
  lemma {:induction false} Reflexive<T>(a: seq<T>)
    ensures IsSubseq(a, a)
    decreases |a|
  {
    if |a| > 0 {
      Reflexive(a[1..]);
    }
  }

  /** Dropping the first element of the shorter sequence keeps a sub-sequence one. */
  lemma {:induction false} DropHead<T>(a: seq<T>, b: seq<T>)
    requires |a| > 0 && IsSubseq(a, b)
    ensures IsSubseq(a[1..], b)
    decreases |b|
  {
    if a[0] == b[0] && IsSubseq(a[1..], b[1..]) {
      ExtendRight(b[0], a[1..], b[1..]);
      assert [b[0]] + b[1..] == b;
    } else {
      DropHead(a, b[1..]);
      ExtendRight(b[0], a[1..], b[1..]);
      assert [b[0]] + b[1..] == b;
    }
  }

  /** A sub-sequence is no longer than the sequence it is taken from, and
      each of its elements occurs there. */
  lemma {:induction false} SubseqBounds<T>(a: seq<T>, b: seq<T>)
    requires IsSubseq(a, b)
    ensures |a| <= |b|
    ensures forall i :: 0 <= i < |a| ==> a[i] in b
    decreases |b|
  {
    if |a| > 0 {
      if a[0] == b[0] && IsSubseq(a[1..], b[1..]) {
        SubseqBounds(a[1..], b[1..]);
        forall i | 0 <= i < |a|
          ensures a[i] in b
        {
          if i > 0 {
            assert a[i] == a[1..][i - 1];
          }
        }
      } else {
        SubseqBounds(a, b[1..]);
      }
    }
  }
}
