/**
  Properties that involve several list operations at once: a copy compares
  equal to its source, a copy owns its nodes, so changing the source
  afterwards leaves the copy as it was, and an erase after an insert at the
  same position undoes the insert.
 */
module ListProperties {
  import opened LinkedList
  import ListComparison
  import ListSpec

  /** Copying a list and comparing the copy with the source gives `==`. */
  method CopyEqualsOriginal(a: SingleLinkedList) returns (equal: bool)
    requires a.Valid()
    ensures equal
  {
    var b := new SingleLinkedList.Copy(a);
    equal := ListComparison.Equal(b, a);
  }

  /** A copy keeps the source's old elements after the source is changed. */
  method MutateAfterCopy(a: SingleLinkedList, value: int) returns (b: SingleLinkedList)
    requires a.Valid()
    modifies a, a.head
    ensures a.Valid() && b.Valid()
    ensures a.Contents == [value] + old(a.Contents)
    ensures b.Contents == old(a.Contents)
    ensures a.Repr !! b.Repr && fresh(b.Repr)
  {
    b := new SingleLinkedList.Copy(a);
    a.PushFront(value);
  }

  /** Erasing after the position just inserted after gives back the elements
      the list had before the insertion. */
  method InsertThenErase(a: SingleLinkedList, pos: Node, value: int, ghost k: nat)
    requires a.Valid()
    requires k <= |a.Nodes| && pos == a.PositionAt(k)
    modifies a, pos
    ensures a.Valid()
    ensures a.Contents == old(a.Contents)
    ensures a.size == old(a.size)
  {
    var inserted := a.InsertAfter(pos, value, k);
    var following := a.EraseAfter(pos, k);
    ListSpec.EraseAfterInsert(old(a.Contents), k, value);
  }
}
