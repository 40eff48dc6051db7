/** What a caller of the list can conclude from the contracts of its operations alone. */
module Scenarios {
  import opened Wrappers
  import opened Sequences
  import opened DataStructure

  /** `addFirst(v)` then `removeFirst()` hands back `v` and restores the contents. */
  method PushPopFront<E>(list: LinkedList<E>, v: E) returns (r: Option<E>)
    requires list.Valid()
    modifies list, list.nodes
    ensures list.Valid()
    ensures r == Some(v) && list.contents == old(list.contents)
    ensures list.Size() == old(list.Size())
  {
    list.AddFirst(v);
    r := list.RemoveFirst();
  }

  /** `addLast(v)` then `removeLast()` hands back `v` and restores the contents. */
  method PushPopBack<E>(list: LinkedList<E>, v: E) returns (r: Option<E>)
    requires list.Valid()
    modifies list, list.nodes
    ensures list.Valid()
    ensures r == Some(v) && list.contents == old(list.contents)
    ensures list.Size() == old(list.Size())
  {
    list.AddLast(v);
    r := list.RemoveLast();
  }

  /** Reversing twice restores the original order over the same chain of nodes. */
  method ReverseTwice<E>(list: LinkedList<E>)
    requires list.Valid()
    modifies list, list.nodes
    ensures list.Valid()
    ensures list.contents == old(list.contents) && list.nodes == old(list.nodes)
  {
    list.Reverse();
    list.Reverse();
    ReversedInvolution(old(list.contents));
  }

  /** After `makeEmpty()` the list is empty, has size 0 and both peeks give no value. */
  method EmptyAfterMakeEmpty<E>(list: LinkedList<E>)
    requires list.Valid()
    modifies list, list.nodes
    ensures list.Valid()
    ensures list.IsEmpty() && list.Size() == 0
    ensures list.PeekFirst() == None && list.PeekLast() == None
  {
    list.MakeEmpty();
  }

  /** The list that `addLast(1)`, `addLast(2)`, `addLast(3)` build from a new list. */
  method OneTwoThree() returns (list: LinkedList<int>)
    ensures fresh(list) && list.Valid() && list.contents == [1, 2, 3]
    ensures forall i :: 0 <= i < |list.nodes| ==> fresh(list.nodes[i])
  {
    list := new LinkedList<int>();
    list.AddLast(1);
    list.AddLast(2);
    list.AddLast(3);
  }

  /** A cursor over 1, 2, 3 returns 1, 2, 3 and is then exhausted. */
  method IterationOrder() returns (visited: seq<int>, exhausted: Result<int>)
    ensures visited == [1, 2, 3] && exhausted == Failure(NoSuchElement)
  {
    var list := OneTwoThree();
    var it := list.Iterator();
    var a := it.Next();
    var b := it.Next();
    var c := it.Next();
    visited := [a.value, b.value, c.value];
    exhausted := it.Next();
  }

  /** After `reverse()` on 1, 2, 3 a new cursor returns 3, 2, 1. */
  method IterationOrderReversed() returns (visited: seq<int>)
    ensures visited == [3, 2, 1]
  {
    var list := OneTwoThree();
    list.Reverse();
    MirrorIsReversed([1, 2, 3], [3, 2, 1]);
    assert list.contents == [3, 2, 1];
    var it := list.Iterator();
    var a := it.Next();
    var b := it.Next();
    var c := it.Next();
    visited := [a.value, b.value, c.value];
  }

  /** The three-way comparison of `int`, as `Integer.compareTo` gives it. */
  function CompareInts(a: int, b: int): int
  {
    if a < b then -1 else if a == b then 0 else 1
  }

  /**
   * After inserting 5, 5, 3 and removing one 5 from the front, both 5 and 3 are still
   * found and 7 is not.
   */
  method ContainsWithDuplicates() returns (five: bool, three: bool, seven: bool)
    ensures five && three && !seven
  {
    var list := new LinkedList<int>();
    list.AddLast(5);
    list.AddLast(5);
    list.AddLast(3);
    var _ := list.RemoveFirst();
    five := list.Contains(5, CompareInts);
    three := list.Contains(3, CompareInts);
    seven := list.Contains(7, CompareInts);
    assert CompareInts(list.contents[0], 5) == 0;
    assert CompareInts(list.contents[1], 3) == 0;
  }
}
