/**
 Case folding and the fuzzy matcher the todo search relies on.

 The matcher behaves like `fuzzy.Match(source, target)` of the fuzzysearch
 library: every character of `source` must occur in `target`, in the same
 order, not necessarily adjacent; characters are matched greedily from the
 left. Lower-casing covers the ASCII letters only.
 */
module Fuzzy {
  import opened Subseq

  predicate IsUpper(c: char)
  {
    'A' <= c <= 'Z'
  }

  function Lower(c: char): (r: char)
  {
    if IsUpper(c) then (c as int + 32) as char else c
  }

  /** `strings.ToLower`, restricted to ASCII letters. */
  function ToLower(s: string): (r: string)
    ensures |r| == |s|
  {
    seq(|s|, i requires 0 <= i < |s| => Lower(s[i]))
  }

  /** Lower-casing leaves no upper-case letter and changes nothing else. */
  lemma LowerSpec(s: string)
    ensures forall i :: 0 <= i < |s| ==> !IsUpper(ToLower(s)[i])
    ensures forall i :: 0 <= i < |s| && !IsUpper(s[i]) ==> ToLower(s)[i] == s[i]
    ensures forall i :: 0 <= i < |s| && IsUpper(s[i]) ==> ToLower(s)[i] as int == s[i] as int + 32
  {
  }

  /** Lower-casing twice is lower-casing once. */
  lemma LowerIdempotent(s: string)
    ensures ToLower(ToLower(s)) == ToLower(s)
  {
  }

  /** Greedy left-to-right subsequence test (`fuzzy.Match`): every
      character of `source` is looked for in `target` from where the previous
      one was found, and the first occurrence is taken. */
  function Match(source: string, target: string): (r: bool)
    ensures source == [] ==> r
  {
    MatchFrom(source, target, 0, 0)
  }

  /** The scan behind `Match`: `source[..i]` has been matched within
      `target[..j]`; look for `source[i]` from position `j` on. */
  function MatchFrom(source: string, target: string, i: nat, j: nat): (r: bool)
    requires i <= |source| && j <= |target|
    decreases |target| - j
  {
    if i == |source| then true
    else if j == |target| then false
    else if source[i] == target[j] then MatchFrom(source, target, i + 1, j + 1)
    else MatchFrom(source, target, i, j + 1)
  }

  /** The greedy matcher decides the subsequence relation: it finds a match
      exactly when one exists. */
  lemma MatchIsSubseq(source: string, target: string)
    ensures Match(source, target) <==> IsSubseq(source, target)
  {
    MatchFromIsSubseq(source, target, 0, 0);
    assert source[0..] == source && target[0..] == target;
  }

  lemma {:induction false} MatchFromIsSubseq(source: string, target: string, i: nat, j: nat)
    requires i <= |source| && j <= |target|
    ensures MatchFrom(source, target, i, j) <==> IsSubseq(source[i..], target[j..])
    decreases |target| - j
  {
    if i < |source| && j < |target| {
      assert source[i..][1..] == source[i + 1..] && target[j..][1..] == target[j + 1..];
      if source[i] == target[j] {
        MatchFromIsSubseq(source, target, i + 1, j + 1);
        if IsSubseq(source[i..], target[j + 1..]) {
          DropHead(source[i..], target[j + 1..]);
        }
      } else {
        MatchFromIsSubseq(source, target, i, j + 1);
      }
    }
  }

  /** The empty query matches every target. */
  lemma EmptyMatchesAll(target: string)
    ensures Match("", target)
  {
  }

  /** Every target matches itself. */
  lemma MatchesSelf(target: string)
    ensures Match(target, target)
  {
    Reflexive(target);
    MatchIsSubseq(target, target);
  }

  /** A query longer than the target never matches, and neither does one
      with a character the target lacks. */
  lemma MatchNeedsRoom(source: string, target: string)
    ensures |source| > |target| ==> !Match(source, target)
    ensures (exists k :: 0 <= k < |source| && source[k] !in target) ==> !Match(source, target)
  {
    MatchIsSubseq(source, target);
    if IsSubseq(source, target) {
      SubseqBounds(source, target);
    }
  }
}
