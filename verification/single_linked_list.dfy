/**
  A singly linked list with a permanent sentinel node.

  The sentinel `head` is part of the list object itself; its `next` link is the
  first element node, or null when the list is empty. A position (the C++
  iterator) is a node reference: the sentinel is the position before the first
  element, and null is the end position shared by every list.

  The abstraction is kept in two ghost fields: `Contents`, the element values in
  order, and `Nodes`, the element nodes in chain order. Positions are numbered
  with the sentinel at index 0, element `Contents[i]` at index i + 1 and the end
  position at index |Nodes| + 1; `PositionAt` turns an index into a position.
 */
module LinkedList {
  import opened ListSpec

  /** One link of the chain: a value and the successor link (null at the end). */
  class Node {
    var value: int
    var next: Node?

    constructor(value: int, next: Node?)
      ensures this.value == value && this.next == next
    {
      this.value := value;
      this.next := next;
    }
  }

  /** The objects in a node sequence, as a set. */
  ghost function Elems(nodes: seq<Node>): set<object>
  {
    set n | n in nodes
  }

  /** The first node of a sequence, or null (the end position) for none. */
  ghost function First(nodes: seq<Node>): Node?
  {
    if nodes == [] then null else nodes[0]
  }

  /** No node occurs twice, so following the links cannot cycle. */
  ghost predicate Distinct(nodes: seq<Node>)
  {
    forall i, j :: 0 <= i < j < |nodes| ==> nodes[i] != nodes[j]
  }

  /** Each node links to the next one of the sequence, and the last one to null. */
  ghost predicate Linked(nodes: seq<Node>)
    reads nodes
  {
    && (forall i :: 0 <= i < |nodes| - 1 ==> nodes[i].next == nodes[i + 1])
    && (nodes != [] ==> nodes[|nodes| - 1].next == null)
  }

  /** The nodes hold `contents`, in order. */
  ghost predicate Hold(nodes: seq<Node>, contents: seq<int>)
    reads nodes
  {
    && |nodes| == |contents|
    && forall i :: 0 <= i < |nodes| ==> nodes[i].value == contents[i]
  }

  lemma DistinctInsert(nodes: seq<Node>, k: nat, r: Node, h: Node)
    requires Distinct(nodes) && k <= |nodes| && r !in nodes
    requires h !in nodes && h != r
    ensures Distinct(InsertAt(nodes, k, r))
    ensures Elems(InsertAt(nodes, k, r)) == Elems(nodes) + {r}
    ensures h !in InsertAt(nodes, k, r)
  {
    var s := InsertAt(nodes, k, r);
    forall i, j | 0 <= i < j < |s|
      ensures s[i] != s[j]
    {
      if i != k && j != k {
        assert s[i] == nodes[if i < k then i else i - 1];
        assert s[j] == nodes[if j < k then j else j - 1];
      }
    }
    assert nodes == nodes[..k] + nodes[k..];
  }

  lemma DistinctErase(nodes: seq<Node>, k: nat, h: Node)
    requires Distinct(nodes) && k < |nodes| && h !in nodes
    ensures Distinct(EraseAt(nodes, k))
    ensures Elems(EraseAt(nodes, k)) == Elems(nodes) - {nodes[k]}
    ensures h !in EraseAt(nodes, k)
  {
    assert nodes == nodes[..k] + [nodes[k]] + nodes[k + 1..];
  }

  /** Linking `r` in at index k, behind `nodes[k - 1]` (or behind the sentinel
      when k is 0), gives a linked sequence again. */
  lemma LinkedInsert(nodes: seq<Node>, k: nat, r: Node)
    requires k <= |nodes|
    requires forall i :: 0 <= i < |nodes| - 1 && i != k - 1 ==> nodes[i].next == nodes[i + 1]
    requires k == |nodes| || nodes[|nodes| - 1].next == null
    requires k > 0 ==> nodes[k - 1].next == r
    requires r.next == First(nodes[k..])
    ensures Linked(InsertAt(nodes, k, r))
    ensures First(InsertAt(nodes, k, r)) == if k == 0 then r else First(nodes)
  {
  }

  /** Linking the predecessor of `nodes[k]` past it gives a linked sequence again. */
  lemma LinkedErase(nodes: seq<Node>, k: nat)
    requires k < |nodes|
    requires forall i :: 0 <= i < |nodes| - 1 && i != k - 1 ==> nodes[i].next == nodes[i + 1]
    requires nodes[|nodes| - 1].next == null
    requires k > 0 ==> nodes[k - 1].next == First(nodes[k + 1..])
    ensures Linked(EraseAt(nodes, k))
    ensures First(EraseAt(nodes, k)) == if k == 0 then First(nodes[1..]) else First(nodes)
  {
  }

  lemma HoldInsert(nodes: seq<Node>, contents: seq<int>, k: nat, r: Node)
    requires Hold(nodes, contents) && k <= |nodes|
    ensures Hold(InsertAt(nodes, k, r), InsertAt(contents, k, r.value))
  {
  }

  lemma HoldErase(nodes: seq<Node>, contents: seq<int>, k: nat)
    requires Hold(nodes, contents) && k < |nodes|
    ensures Hold(EraseAt(nodes, k), EraseAt(contents, k))
  {
  }

  class SingleLinkedList {
    const head: Node
    var size: nat
    ghost var Contents: seq<int>
    ghost var Nodes: seq<Node>
    ghost var Repr: set<object>

    /** The representation invariant: the chain from the sentinel visits
        distinct element nodes holding Contents in order and ends in null, and
        the cached count equals the number of those nodes. */
    ghost predicate Valid()
      reads this, Repr
    {
      && Repr == {this, head} + Elems(Nodes)
      && head !in Nodes
      && Distinct(Nodes)
      && head.next == First(Nodes)
      && Linked(Nodes)
      && Hold(Nodes, Contents)
      && size == |Contents|
    }

    /** The position with index k: the sentinel, an element node, or null (end). */
    ghost function PositionAt(k: nat): Node?
      reads this
      requires k <= |Nodes| + 1
    {
      if k == 0 then head else if k <= |Nodes| then Nodes[k - 1] else null
    }

    /** Default construction: an empty list. */
    constructor()
      ensures Valid() && fresh(Repr)
      ensures Contents == []
    {
      var sentinel := new Node(0, null);
      head := sentinel;
      size := 0;
      Contents := [];
      Nodes := [];
      Repr := {this, sentinel};
    }

    /** Construction from an initializer list: the elements in the given order. */
    constructor FromValues(values: seq<int>)
      ensures Valid() && fresh(Repr)
      ensures Contents == values
    {
      var sentinel := new Node(0, null);
      head := sentinel;
      size := 0;
      Contents := [];
      Nodes := [];
      Repr := {this, sentinel};
      new;
      CreateList(values);
    }

    /** Copy construction: a deep copy of `other`, built from fresh nodes. */
    constructor Copy(other: SingleLinkedList)
      requires other.Valid()
      ensures Valid() && fresh(Repr)
      ensures Contents == other.Contents
      ensures Repr !! other.Repr
    {
      var sentinel := new Node(0, null);
      head := sentinel;
      size := 0;
      Contents := [];
      Nodes := [];
      Repr := {this, sentinel};
      new;
      var values := other.Elements();
      CreateList(values);
    }

    /** The number of elements, read from the cached count. */
    function GetSize(): (r: nat)
      reads this, Repr
      requires Valid()
      ensures r == |Contents|
    {
      size
    }

    function IsEmpty(): (r: bool)
      reads this, Repr
      requires Valid()
      ensures r <==> Contents == []
    {
      size == 0
    }

    /** The position of the first element, or the end position when empty. */
    function Begin(): (r: Node?)
      reads this, Repr
      requires Valid()
      ensures r == PositionAt(1)
      ensures r == End() <==> Contents == []
    {
      head.next
    }

    /** The end position, one past the last element. */
    function End(): (r: Node?)
      reads this, Repr
      requires Valid()
      ensures r == PositionAt(|Nodes| + 1)
    {
      null
    }

    /** The position before the first element: the sentinel. */
    function BeforeBegin(): (r: Node)
      reads this, Repr
      requires Valid()
      ensures r == PositionAt(0)
    {
      head
    }

    /** Advancing a position (the iterator's `++`); the end position cannot advance. */
    function Next(pos: Node, ghost k: nat): (r: Node?)
      reads this, Repr
      requires Valid()
      requires k <= |Nodes| && pos == PositionAt(k)
      ensures r == PositionAt(k + 1)
    {
      pos.next
    }

    /** Dereferencing an element position (the iterator's `*`); neither the
        sentinel nor the end position may be dereferenced. */
    function Deref(pos: Node, ghost k: nat): (r: int)
      reads this, Repr
      requires Valid()
      requires 1 <= k <= |Nodes| && pos == PositionAt(k)
      ensures r == Contents[k - 1]
    {
      pos.value
    }

    /** Positions compare by node identity, so two positions of one list are
        equal exactly when their indices are. */
    lemma PositionsEqualIffSameIndex(k: nat, m: nat)
      requires Valid()
      requires k <= |Nodes| + 1 && m <= |Nodes| + 1
      ensures PositionAt(k) == PositionAt(m) <==> k == m
    {
    }

    /** The values from the first position up to the end position, in
        iteration order. */
    method Elements() returns (s: seq<int>)
      requires Valid()
      ensures s == Contents
    {
      s := [];
      var p := Begin();
      ghost var k := 1;
      while p != End()
        invariant 1 <= k <= |Nodes| + 1
        invariant p == PositionAt(k)
        invariant s == Contents[..k - 1]
        decreases |Nodes| + 1 - k
      {
        s := s + [Deref(p, k)];
        p := Next(p, k);
        k := k + 1;
      }
    }

    /** Writes through the element position k (the mutable iterator's
        `operator*` used as an lvalue): element k - 1 becomes `value`, and the
        chain of nodes stays as it was. */
    method SetValue(pos: Node, value: int, ghost k: nat)
      requires Valid()
      requires 1 <= k <= |Nodes| && pos == PositionAt(k)
      modifies this, pos
      ensures Valid()
      ensures Contents == old(Contents)[k - 1 := value]
      ensures Nodes == old(Nodes) && size == old(size)
    {
      pos.value := value;
      Contents := Contents[k - 1 := value];
    }

    /** Links a new node holding `value` right after `pos` (index k) and
        returns its position. */
    method InsertAfter(pos: Node, value: int, ghost k: nat) returns (r: Node)
      requires Valid()
      requires k <= |Nodes| && pos == PositionAt(k)
      modifies this, pos
      ensures Valid()
      ensures fresh(r)
      ensures Contents == InsertAt(old(Contents), k, value)
      ensures Nodes == InsertAt(old(Nodes), k, r)
      ensures r == PositionAt(k + 1)
      ensures Repr == old(Repr) + {r}
      ensures size == old(size) + 1
    {
      ghost var nodes, contents := Nodes, Contents;
      assert forall i :: 0 <= i < |nodes| && i != k - 1 ==> nodes[i] != pos;
      r := new Node(value, pos.next);
      pos.next := r;
      size := size + 1;
      Contents := InsertAt(contents, k, value);
      Nodes := InsertAt(nodes, k, r);
      Repr := Repr + {r};
      DistinctInsert(nodes, k, r, head);
      LinkedInsert(nodes, k, r);
      assert Hold(nodes, contents);
      HoldInsert(nodes, contents, k, r);
    }

    /** Unlinks the node after `pos` (index k), which must exist, and returns
        the position now following `pos`. */
    method EraseAfter(pos: Node, ghost k: nat) returns (r: Node?)
      requires Valid()
      requires k < |Nodes| && pos == PositionAt(k)
      modifies this, pos
      ensures Valid()
      ensures Contents == EraseAt(old(Contents), k)
      ensures Nodes == EraseAt(old(Nodes), k)
      ensures r == PositionAt(k + 1)
      ensures Repr == old(Repr) - {old(Nodes)[k]}
      ensures size == old(size) - 1
    {
      ghost var nodes, contents := Nodes, Contents;
      assert forall i :: 0 <= i < |nodes| && i != k - 1 ==> nodes[i] != pos;
      assert pos.next == nodes[k];
      pos.next := pos.next.next;
      size := size - 1;
      Contents := EraseAt(contents, k);
      Nodes := EraseAt(nodes, k);
      Repr := Repr - {nodes[k]};
      DistinctErase(nodes, k, head);
      LinkedErase(nodes, k);
      assert Hold(nodes, contents);
      HoldErase(nodes, contents, k);
      r := pos.next;
    }

    method PushFront(value: int)
      requires Valid()
      modifies this, head
      ensures Valid()
      ensures Contents == [value] + old(Contents)
      ensures size == old(size) + 1
      ensures fresh(Repr - old(Repr))
      ensures |Nodes| == |old(Nodes)| + 1 && fresh(Nodes[0]) && Nodes[1..] == old(Nodes)
    {
      var r := InsertAfter(BeforeBegin(), value, 0);
      AtFront(old(Contents), value);
      AtFront(old(Nodes), r);
    }

    /** Removes the first element; on an empty list nothing happens. */
    method PopFront()
      requires Valid()
      modifies this, head
      ensures Valid()
      ensures old(Contents) == [] ==> Contents == [] && Nodes == old(Nodes)
      ensures old(Contents) != [] ==> Contents == old(Contents)[1..] && size == old(size) - 1
      ensures old(Contents) != [] ==> Nodes == old(Nodes)[1..]
      ensures Repr <= old(Repr)
    {
      if size != 0 {
        var r := EraseAfter(BeforeBegin(), 0);
        AtFront(old(Contents), 0);
        AtFront(old(Nodes), head);
      }
    }

    /** Pops elements until the first position is the end position. */
    method Clear()
      requires Valid()
      modifies this, head
      ensures Valid()
      ensures Contents == [] && Nodes == []
      ensures GetSize() == 0 && IsEmpty() && Begin() == End()
      ensures Repr <= old(Repr)
    {
      while head.next != null
        invariant Valid()
        invariant Repr <= old(Repr)
        decreases |Contents|
      {
        PopFront();
      }
    }

    /** No element node of this list is this list's sentinel or the sentinel
        of another list that owns separate nodes. */
    lemma ElementsAvoidSentinels(other: SingleLinkedList)
      requires Valid() && other.Valid()
      requires this == other || Repr !! other.Repr
      ensures head !in Nodes && other.head !in Nodes
    {
      assert other.head in other.Repr;
      assert forall i :: 0 <= i < |Nodes| ==> Nodes[i] in Repr;
    }

    /** Exchanges the element chains and counts of two lists; each keeps its
        own sentinel. Swapping a list with itself changes nothing. */
    method Swap(other: SingleLinkedList)
      requires Valid() && other.Valid()
      requires this == other || Repr !! other.Repr
      modifies this, head, other, other.head
      ensures Valid() && other.Valid()
      ensures Contents == old(other.Contents) && other.Contents == old(Contents)
      ensures Nodes == old(other.Nodes) && other.Nodes == old(Nodes)
      ensures size == old(other.size) && other.size == old(size)
      ensures Repr == {this, head} + Elems(old(other.Nodes))
      ensures other.Repr == {other, other.head} + Elems(old(Nodes))
      ensures this != other ==> Repr !! other.Repr
    {
      ElementsAvoidSentinels(other);
      other.ElementsAvoidSentinels(this);
      ghost var myContents, myNodes := Contents, Nodes;
      var myFirst, mySize := head.next, size;
      TakeChain(other.head.next, other.size, other.Nodes, other.Contents);
      other.TakeChain(myFirst, mySize, myNodes, myContents);
    }

    /** One half of `Swap`: the sentinel takes over a well-formed chain of
        element nodes, with its count. */
    method TakeChain(first: Node?, count: nat, ghost nodes: seq<Node>, ghost contents: seq<int>)
      requires head !in nodes && first == First(nodes)
      requires Distinct(nodes) && Linked(nodes) && Hold(nodes, contents) && count == |contents|
      modifies this, head
      ensures Valid()
      ensures Contents == contents && Nodes == nodes && size == count
      ensures Repr == {this, head} + Elems(nodes)
    {
      head.next := first;
      size := count;
      Contents := contents;
      Nodes := nodes;
      Repr := {this, head} + Elems(nodes);
    }

    /** Two lists owning separate nodes can only share their first position,
        the end position, when both are empty. */
    lemma SharedFirstOnlyWhenEmpty(other: SingleLinkedList)
      requires Valid() && other.Valid()
      requires this == other || Repr !! other.Repr
      ensures this != other && head.next == other.head.next ==> Contents == [] && other.Contents == []
    {
      if this != other && head.next != null {
        assert head.next in Repr;
      }
    }

    /** Copy assignment by copy-and-swap; skipped when both lists already
        share their first position (self-assignment, or two empty lists). */
    method Assign(rhs: SingleLinkedList)
      requires Valid() && rhs.Valid()
      requires this == rhs || Repr !! rhs.Repr
      modifies this, head
      ensures Valid() && rhs.Valid()
      ensures Contents == rhs.Contents
      ensures rhs.Contents == old(rhs.Contents)
      ensures old(head.next) == old(rhs.head.next) ==> Contents == old(Contents) && Nodes == old(Nodes)
      ensures this != rhs ==> Repr !! rhs.Repr
      ensures fresh(Repr - old(Repr))
    {
      SharedFirstOnlyWhenEmpty(rhs);
      if head.next != rhs.head.next {
        var temp := new SingleLinkedList.Copy(rhs);
        Swap(temp);
      }
    }

    /** Builds the values, in order, in a fresh list, then swaps that list in. */
    method CreateList(values: seq<int>)
      requires Valid()
      modifies this, head
      ensures Valid()
      ensures Contents == values
      ensures fresh(Repr - {this, head})
    {
      var list := BuildList(values);
      Swap(list);
    }

    /** The loop of `CreateList`: repeated insertion after the last position
        of a fresh list, starting from the sentinel. */
    static method BuildList(values: seq<int>) returns (list: SingleLinkedList)
      ensures list.Valid() && fresh(list.Repr)
      ensures list.Contents == values
    {
      list := new SingleLinkedList();
      var last := list.BeforeBegin();
      for j := 0 to |values|
        invariant list.Valid() && fresh(list.Repr)
        invariant list.Contents == values[..j]
        invariant last == list.PositionAt(j)
      {
        assert last in list.Repr;
        last := list.InsertAfter(last, values[j], j);
        AtBack(values[..j], values[j]);
        assert values[..j + 1] == values[..j] + [values[j]];
      }
    }
  }

  /** The free `swap`, delegating to the member. */
  method SwapLists(lhs: SingleLinkedList, rhs: SingleLinkedList)
    requires lhs.Valid() && rhs.Valid()
    requires lhs == rhs || lhs.Repr !! rhs.Repr
    modifies lhs, lhs.head, rhs, rhs.head
    ensures lhs.Valid() && rhs.Valid()
    ensures lhs.Contents == old(rhs.Contents) && rhs.Contents == old(lhs.Contents)
    ensures lhs.Nodes == old(rhs.Nodes) && rhs.Nodes == old(lhs.Nodes)
    ensures lhs.size == old(rhs.size) && rhs.size == old(lhs.size)
    ensures lhs.Repr == {lhs, lhs.head} + Elems(old(rhs.Nodes))
    ensures rhs.Repr == {rhs, rhs.head} + Elems(old(lhs.Nodes))
    ensures lhs != rhs ==> lhs.Repr !! rhs.Repr
  {
    lhs.Swap(rhs);
  }
}
