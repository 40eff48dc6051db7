/**
 * A generic singly-linked list with a head and a tail pointer and a size counter
 * (package data_structure, class LinkedList), its nodes, and its read-only iterator.
 */
module DataStructure {
  import opened Wrappers
  import opened Sequences

  /** One link of the chain: an element and the reference to the next link. */
  class Node<E> {
    var data: E
    var next: Node?<E>

    constructor (obj: E)
      ensures data == obj && next == null
    {
      data := obj;
      next := null;
    }
  }

  class LinkedList<E> {
    var head: Node?<E>
    var tail: Node?<E>
    var currentSize: nat

    /** The chain from `head` to `tail`, in order. */
    ghost var nodes: seq<Node<E>>
    /** The elements the chain holds, in order: the public view of the list. */
    ghost var contents: seq<E>

    /**
     * The chain starts at `head`, each node links to the next, the last one ends the
     * chain, no node occurs twice, the nodes hold `contents` and `currentSize` counts
     * them. `tail` is the last node only while the list is non-empty: removing the last
     * element from the front leaves `tail` on the node just removed.
     */
    ghost predicate Valid()
      reads this, nodes
    {
      |nodes| == |contents| == currentSize &&
      (forall i, j :: 0 <= i < j < |nodes| ==> nodes[i] != nodes[j]) &&
      (forall i :: 0 <= i < |nodes| ==> nodes[i].data == contents[i]) &&
      (forall i :: 0 <= i < |nodes| - 1 ==> nodes[i].next == nodes[i + 1]) &&
      if nodes == [] then
        head == null
      else
        head == nodes[0] && tail == nodes[|nodes| - 1] && tail.next == null
    }

    constructor ()
      ensures Valid() && nodes == []
      ensures contents == [] && currentSize == 0
      ensures head == null && tail == null
    {
      head, tail := null, null;
      currentSize := 0;
      nodes, contents := [], [];
    }

    /** Links a new node holding `obj` in front of the head. */
    method AddFirst(obj: E)
      requires Valid()
      modifies this
      ensures Valid()
      ensures contents == [obj] + old(contents)
      ensures |nodes| == |old(nodes)| + 1 && fresh(nodes[0]) && nodes[1..] == old(nodes)
    {
      var newNode := new Node(obj);
      newNode.next := head;
      head := newNode;
      if currentSize == 0 {
        tail := newNode;
      }
      currentSize := currentSize + 1;
      nodes, contents := [newNode] + nodes, [obj] + contents;
    }

    /** Links a new node holding `obj` after the tail. */
    method AddLast(obj: E)
      requires Valid()
      modifies this, nodes
      ensures Valid()
      ensures contents == old(contents) + [obj]
      ensures |nodes| == |old(nodes)| + 1 && fresh(nodes[|old(nodes)|])
      ensures nodes[..|old(nodes)|] == old(nodes)
    {
      var node := new Node(obj);
      if head == null {
        head, tail := node, node;
        currentSize := currentSize + 1;
        nodes, contents := [node], [obj];
        return;
      }
      tail.next := node;
      tail := node;
      currentSize := currentSize + 1;
      nodes, contents := nodes + [node], contents + [obj];
    }

    /**
     * Unlinks the head and returns its element, or `None` on an empty list.
     * `tail` is never reassigned, even when the last element goes.
     */
    method RemoveFirst() returns (r: Option<E>)
      requires Valid()
      modifies this
      ensures Valid()
      ensures tail == old(tail)
      ensures old(contents) == [] ==> r == None && unchanged(this)
      ensures old(contents) != [] ==>
        r == Some(old(contents)[0]) && contents == old(contents)[1..] && nodes == old(nodes)[1..]
    {
      if head == null {
        return None;
      }
      var tmp := head.data;
      head := head.next;
      currentSize := currentSize - 1;
      nodes, contents := nodes[1..], contents[1..];
      return Some(tmp);
    }

    /**
     * Unlinks the tail and returns its element, or `None` on an empty list. A one-node
     * list is handed to `RemoveFirst`; otherwise a walk from the head finds the node
     * before the tail, which becomes the new tail.
     */
    method RemoveLast() returns (r: Option<E>)
      requires Valid()
      modifies this, nodes
      ensures Valid()
      ensures old(contents) == [] ==> r == None && unchanged(this)
      ensures old(contents) != [] ==>
        r == Some(old(contents)[|old(contents)| - 1]) &&
        contents == old(contents)[..|old(contents)| - 1] &&
        nodes == old(nodes)[..|old(nodes)| - 1]
      ensures |old(contents)| <= 1 ==> tail == old(tail)
    {
      if head == null {
        return None;
      }
      HeadIsTail();
      if head == tail {
        r := RemoveFirst();
        return;
      }
      var current := head;
      var previous: Node?<E> := null;
      ghost var k := 0;
      while current != tail
        invariant 0 <= k < |nodes|
        invariant current == nodes[k]
        invariant previous == if k == 0 then null else nodes[k - 1]
        decreases |nodes| - k
      {
        previous := current;
        current := current.next;
        k := k + 1;
      }
      assert k == |nodes| - 1 && previous == nodes[|nodes| - 2];
      tail := previous;
      previous.next := null;
      currentSize := currentSize - 1;
      nodes, contents := nodes[..|nodes| - 1], contents[..|contents| - 1];
      return Some(current.data);
    }

    /** On a non-empty list, `head` and `tail` are the same node exactly when it holds one element. */
    lemma HeadIsTail()
      requires Valid() && contents != []
      ensures head == tail <==> |contents| == 1
    {
      if |contents| > 1 {
        assert nodes[0] != nodes[|nodes| - 1];
      }
    }

    /** The first element, or `None` when the list is empty. */
    function PeekFirst(): (r: Option<E>)
      reads this, nodes
      requires Valid()
      ensures r == if contents == [] then None else Some(contents[0])
    {
      if currentSize == 0 then None else Some(head.data)
    }

    /** The last element, or `None` when the list is empty. */
    function PeekLast(): (r: Option<E>)
      reads this, nodes
      requires Valid()
      ensures r == if contents == [] then None else Some(contents[|contents| - 1])
    {
      if currentSize == 0 then None else Some(tail.data)
    }

    /** Drops the whole chain. */
    method MakeEmpty()
      requires Valid()
      modifies this
      ensures Valid() && nodes == []
      ensures contents == [] && head == null && tail == null
    {
      tail := null;
      head := null;
      currentSize := 0;
      nodes, contents := [], [];
    }

    function IsEmpty(): (b: bool)
      reads this, nodes
      requires Valid()
      ensures b <==> contents == []
    {
      currentSize == 0
    }

    /** A linked list has no capacity bound, so it is never full. */
    function IsFull(): (b: bool)
      ensures !b
    {
      false
    }

    function Size(): (n: nat)
      reads this, nodes
      requires Valid()
      ensures n == |contents|
    {
      currentSize
    }

    /**
     * Scans from the head for an element `e` with `compareTo(e, obj) == 0`, the test
     * `e.compareTo(obj) == 0` of the element's own ordering.
     */
    method Contains(obj: E, compareTo: (E, E) -> int) returns (found: bool)
      requires Valid()
      ensures found <==> Matches(contents, obj, compareTo)
    {
      var tmp := head;
      ghost var k := 0;
      while tmp != null
        invariant 0 <= k <= |nodes|
        invariant tmp == if k < |nodes| then nodes[k] else null
        invariant forall i :: 0 <= i < k ==> compareTo(contents[i], obj) != 0
        decreases |nodes| - k
      {
        if compareTo(tmp.data, obj) == 0 {
          return true;
        }
        tmp := tmp.next;
        k := k + 1;
      }
      return false;
    }

    /**
     * Copies the elements into a buffer, then writes them back into the same nodes
     * from the last to the first. The links are not touched: only `data` changes.
     */
    method Reverse()
      requires Valid()
      modifies this, (set node | node in nodes)`data
      ensures Valid()
      ensures nodes == old(nodes) && head == old(head) && tail == old(tail)
      ensures currentSize == old(currentSize)
      ensures contents == Reversed(old(contents))
    {
      var container := CopyToBuffer();
      ghost var before := contents;
      WriteBackReversed(container);
      assert container[..] == before;
      contents := Reversed(before);
    }

    /** The first loop of `Reverse`: the elements, front to back, in a new buffer. */
    method CopyToBuffer() returns (container: array<E>)
      requires Valid()
      ensures fresh(container) && container[..] == contents
    {
      if currentSize == 0 {
        container := new E[0];
        return;
      }
      var temp := head;
      // Dafny needs initial values for a generic array of non-zero length: every slot
      // starts as the head's element and the loop below overwrites it.
      var seed := head.data;
      container := new E[currentSize](_ => seed);
      for x := 0 to currentSize
        invariant temp == if x < |nodes| then nodes[x] else null
        invariant forall i :: 0 <= i < x ==> container[i] == contents[i]
        modifies container
      {
        container[x] := temp.data;
        temp := temp.next;
      }
    }

    /**
     * The second loop of `Reverse`: walks the chain from the head while reading the
     * buffer from its last slot down, storing each slot into the node reached.
     */
    method WriteBackReversed(container: array<E>)
      requires Valid() && container.Length == currentSize
      modifies (set node | node in nodes)`data
      ensures forall k :: 0 <= k < |nodes| ==> nodes[k].data == Reversed(container[..])[k]
    {
      var n := currentSize;
      var temp := head;
      for i := n downto 0
        invariant temp == if i > 0 then nodes[n - i] else null
        invariant forall k :: 0 <= k < n - i ==> nodes[k].data == container[n - 1 - k]
      {
        temp.data := container[i];
        temp := temp.next;
      }
      forall k | 0 <= k < n
        ensures nodes[k].data == Reversed(container[..])[k]
      {
        ReversedAt(container[..], k);
      }
    }

    /** A fresh cursor positioned on the head. */
    method Iterator() returns (it: IteratorHelper<E>)
      requires Valid()
      ensures fresh(it) && it.Valid() && it.list == this
      ensures it.Remaining() == contents
    {
      it := new IteratorHelper(this);
    }
  }

  /**
   * A forward cursor over a list: either on a node or exhausted (`index == null`).
   * `Valid()` reads the list's chain. It still holds after the list changes exactly when
   * the cursor's node is still at position `pos` of `list.nodes`, or the cursor is
   * exhausted and `pos` is the new length; `Remaining()` is then what the cursor returns.
   */
  class IteratorHelper<E> {
    var index: Node?<E>
    ghost const list: LinkedList<E>
    /** How many elements the cursor has already returned. */
    ghost var pos: nat

    ghost predicate Valid()
      reads this, list, list.nodes
    {
      list.Valid() && pos <= |list.nodes| &&
      index == if pos < |list.nodes| then list.nodes[pos] else null
    }

    /** The elements still to be returned, in order. */
    ghost function Remaining(): seq<E>
      reads this, list, list.nodes
      requires Valid()
    {
      list.contents[pos..]
    }

    constructor (list: LinkedList<E>)
      requires list.Valid()
      ensures Valid() && this.list == list && pos == 0
    {
      this.list := list;
      index := list.head;
      pos := 0;
    }

    function HasNext(): (b: bool)
      reads this, list, list.nodes
      requires Valid()
      ensures b <==> Remaining() != []
    {
      index != null
    }

    /** Returns the element under the cursor and moves on; fails once exhausted. */
    method Next() returns (r: Result<E>)
      requires Valid()
      modifies this
      ensures Valid()
      ensures old(Remaining()) == [] ==> r == Failure(NoSuchElement) && unchanged(this)
      ensures old(Remaining()) != [] ==>
        r == Success(old(Remaining())[0]) && Remaining() == old(Remaining())[1..]
    {
      if !HasNext() {
        return Failure(NoSuchElement);
      }
      var tmp := index.data;
      index := index.next;
      pos := pos + 1;
      return Success(tmp);
    }

    /** Removal through the cursor is not supported. */
    method Remove() returns (r: Result<()>)
      ensures r == Failure(UnsupportedOperation("Not Enabled"))
    {
      return Failure(UnsupportedOperation("Not Enabled"));
    }
  }
}
