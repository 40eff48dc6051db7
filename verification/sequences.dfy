/** Value-level specifications used to state what the list's operations do to its contents. */
module Sequences {

  /** The mirror image of `s`: its last element first, its first element last. */
  function Reversed<T>(s: seq<T>): (r: seq<T>)
    ensures |r| == |s|
  {
    if s == [] then [] else Reversed(s[1..]) + [s[0]]
  }

  /** Position `k` of the mirror holds position `|s| - 1 - k` of the original. */
  lemma {:induction false} ReversedAt<T>(s: seq<T>, k: nat)
    requires k < |s|
    ensures Reversed(s)[k] == s[|s| - 1 - k]
  {
    if k < |s| - 1 {
      ReversedAt(s[1..], k);
    }
  }

  /** A sequence that is the mirror of `s` element by element is `Reversed(s)`. */
  lemma MirrorIsReversed<T>(s: seq<T>, r: seq<T>)
    requires |r| == |s|
    requires forall k :: 0 <= k < |r| ==> r[k] == s[|s| - 1 - k]
    ensures r == Reversed(s)
  {
    forall k | 0 <= k < |r|
      ensures r[k] == Reversed(s)[k]
    {
      ReversedAt(s, k);
    }
  }

  /** Reversing twice gives back the original order. */
  lemma ReversedInvolution<T>(s: seq<T>)
    ensures Reversed(Reversed(s)) == s
  {
    forall k | 0 <= k < |s|
      ensures s[k] == Reversed(s)[|s| - 1 - k]
    {
      ReversedAt(s, |s| - 1 - k);
    }
    MirrorIsReversed(Reversed(s), s);
  }

  /** Reversal keeps every element and its number of occurrences. */
  lemma {:induction false} ReversedPermutes<T>(s: seq<T>)
    ensures multiset(Reversed(s)) == multiset(s)
  {
    if s != [] {
      ReversedPermutes(s[1..]);
      assert s == [s[0]] + s[1..];
    }
  }

  /**
   * Some element `e` of `s` satisfies `compareTo(e, obj) == 0`: the test the list's
   * membership search applies to every node, with the node's element on the left.
   */
  ghost predicate Matches<E>(s: seq<E>, obj: E, compareTo: (E, E) -> int)
  {
    exists i :: 0 <= i < |s| && compareTo(s[i], obj) == 0
  }

  /** When `compareTo` returns 0 exactly on equal arguments, matching is plain membership. */
  lemma MatchesIsMembership<E>(s: seq<E>, obj: E, compareTo: (E, E) -> int)
    requires forall a, b :: compareTo(a, b) == 0 <==> a == b
    ensures Matches(s, obj, compareTo) <==> obj in s
  {
    if obj in s {
      var i :| 0 <= i < |s| && s[i] == obj;
      assert compareTo(s[i], obj) == 0;
    }
  }
}
