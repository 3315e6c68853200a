/**
 * The sequence reducer `get_reduced_str`: keep the first occurrence of each
 * character, in order, and drop every repeat.
 */
module Reducer {

  predicate NoDuplicates(s: string) {
    forall i, j :: 0 <= i < j < |s| ==> s[i] != s[j]
  }

  /** a can be obtained from b by deleting characters (matched greedily from the end). */
  predicate IsSubsequence(a: string, b: string)
    decreases |b|
  {
    if |a| == 0 then true
    else if |b| == 0 then false
    else if a[|a| - 1] == b[|b| - 1] then IsSubsequence(a[..|a| - 1], b[..|b| - 1])
    else IsSubsequence(a, b[..|b| - 1])
  }

  /** The position of the first occurrence of c in s. */
  function FirstIndex(s: string, c: char): (k: nat)
    requires c in s
    ensures k < |s| && s[k] == c && c !in s[..k]
    decreases |s|
  {
    if s[0] == c then 0 else 1 + FirstIndex(s[1..], c)
  }

  /** Characters of t appear in the order of their first occurrence in s. */
  ghost predicate FirstOccurrenceOrder(t: string, s: string)
    requires forall c :: c in t ==> c in s
  {
    forall i, j :: 0 <= i < j < |t| ==> FirstIndex(s, t[i]) < FirstIndex(s, t[j])
  }

  /**
   * get_reduced_str: the loop appends each character not yet in the result.
   * The result holds each character of the input exactly once.
   */
  function Reduce(s: string): (r: string)
    ensures NoDuplicates(r)
    ensures forall c :: c in r <==> c in s
    decreases |s|
  {
    if |s| == 0 then ""
    else
      var r := Reduce(s[..|s| - 1]);
      var c := s[|s| - 1];
      if c in r then r else r + [c]
  }

  /** The first occurrence of a character of s is unchanged by appending to s. */
  lemma FirstIndexSnoc(s: string, x: char, c: char)
    requires c in s
    ensures FirstIndex(s + [x], c) == FirstIndex(s, c)
  {
    assert (s + [x])[FirstIndex(s, c)] == c;
  }

  /** The reduced string lists the input's characters in first-occurrence order. */
  lemma {:induction false} ReduceFirstOccurrenceOrder(s: string)
    ensures FirstOccurrenceOrder(Reduce(s), s)
    decreases |s|
  {
    if |s| > 0 {
      var p := s[..|s| - 1];
      var x := s[|s| - 1];
      assert s == p + [x];
      ReduceFirstOccurrenceOrder(p);
      var r := Reduce(s);
      var rp := Reduce(p);
      forall c | c in rp ensures FirstIndex(s, c) == FirstIndex(p, c) {
        FirstIndexSnoc(p, x, c);
      }
      if x !in rp {
        assert FirstIndex(s, x) == |p| by {
          assert s[..|p|] == p;
        }
      }
    }
  }

  /** Appending a character to b keeps a a subsequence of it. */
  lemma {:induction false} SubsequenceExtend(a: string, b: string, c: char)
    requires IsSubsequence(a, b)
    ensures IsSubsequence(a, b + [c])
    decreases |b|, 1
  {
    var b' := b + [c];
    assert b'[..|b'| - 1] == b;
    if |a| > 0 && a[|a| - 1] == c {
      SubsequenceDropLast(a, b);
    }
  }

  /** Dropping the last character of a keeps it a subsequence of b. */
  lemma {:induction false} SubsequenceDropLast(a: string, b: string)
    requires |a| > 0 && IsSubsequence(a, b)
    ensures IsSubsequence(a[..|a| - 1], b)
    decreases |b|, 0
  {
    var a' := a[..|a| - 1];
    var bp := b[..|b| - 1];
    assert b == bp + [b[|b| - 1]];
    if a[|a| - 1] == b[|b| - 1] {
      SubsequenceExtend(a', bp, b[|b| - 1]);
    } else {
      SubsequenceDropLast(a, bp);
      SubsequenceExtend(a', bp, b[|b| - 1]);
    }
  }

  /** The reduced string is obtained from the input by deleting characters. */
  lemma {:induction false} ReduceIsSubsequence(s: string)
    ensures IsSubsequence(Reduce(s), s)
    decreases |s|
  {
    if |s| > 0 {
      var p := s[..|s| - 1];
      var x := s[|s| - 1];
      assert s == p + [x];
      ReduceIsSubsequence(p);
      var rp := Reduce(p);
      if x in rp {
        SubsequenceExtend(rp, p, x);
      } else {
        assert (rp + [x])[..|rp|] == rp;
      }
    }
  }

  /** A string without repeats is already reduced. */
  lemma {:induction false} ReduceOfDistinct(s: string)
    requires NoDuplicates(s)
    ensures Reduce(s) == s
    decreases |s|
  {
    if |s| > 0 {
      var p := s[..|s| - 1];
      ReduceOfDistinct(p);
      assert s[|s| - 1] !in p;
      assert s == p + [s[|s| - 1]];
    }
  }

  /** Reducing twice is reducing once. */
  lemma {:induction false} ReduceIdempotent(s: string)
    ensures Reduce(Reduce(s)) == Reduce(s)
  {
    ReduceOfDistinct(Reduce(s));
  }

  /**
   * Reduce is the ONLY string that holds each character of s once, in
   * first-occurrence order: any such t equals Reduce(s).
   */
  lemma {:induction false} ReduceUnique(s: string, t: string)
    requires NoDuplicates(t)
    requires forall c :: c in t <==> c in s
    requires FirstOccurrenceOrder(t, s)
    ensures t == Reduce(s)
    decreases |s|
  {
    if |t| > 0 {
      assert t[0] in s;
    }
    if |s| > 0 {
      var p := s[..|s| - 1];
      var x := s[|s| - 1];
      assert s == p + [x];
      forall c | c in p ensures FirstIndex(s, c) == FirstIndex(p, c) {
        FirstIndexSnoc(p, x, c);
      }
      if x in p {
        assert forall c :: c in t <==> c in p;
        ReduceUnique(p, t);
      } else {
        var t' := NewCharacterComesLast(p, x, t);
        ReduceUnique(p, t');
      }
    }
  }

  /**
   * When the last character x of s is new, a first-occurrence-ordered t ends
   * with x, and what precedes it is ordered by first occurrence in s minus x.
   */
  lemma NewCharacterComesLast(p: string, x: char, t: string) returns (t': string)
    requires x !in p
    requires NoDuplicates(t)
    requires forall c :: c in t <==> c in p + [x]
    requires FirstOccurrenceOrder(t, p + [x])
    ensures t == t' + [x]
    ensures NoDuplicates(t')
    ensures forall c :: c in t' <==> c in p
    ensures FirstOccurrenceOrder(t', p)
  {
    var s := p + [x];
    forall c | c in p ensures FirstIndex(s, c) == FirstIndex(p, c) {
      FirstIndexSnoc(p, x, c);
    }
    NewCharacterIsLast(p, x, t);
    var n := |t| - 1;
    t' := t[..n];
    assert t == t' + [x];
    forall c ensures c in t' <==> c in p {
      if c in p {
        assert c in s && c in t;
        var i :| 0 <= i < |t| && t[i] == c;
        assert t'[i] == c;
      }
    }
    forall i, j | 0 <= i < j < |t'| ensures FirstIndex(p, t'[i]) < FirstIndex(p, t'[j]) {
      assert t'[i] == t[i] && t'[j] == t[j];
    }
  }

  /** A character that first occurs at the very end of s comes last in any first-occurrence-ordered t. */
  lemma NewCharacterIsLast(p: string, x: char, t: string)
    requires x !in p
    requires forall c :: c in t <==> c in p + [x]
    requires FirstOccurrenceOrder(t, p + [x])
    ensures |t| > 0 && t[|t| - 1] == x
  {
    var s := p + [x];
    assert FirstIndex(s, x) == |p| by {
      assert s[..|p|] == p;
    }
    assert x in s;
    var n := |t| - 1;
    forall i | 0 <= i < n ensures t[i] != x {
      assert FirstIndex(s, t[i]) < FirstIndex(s, t[n]);
    }
  }
}
