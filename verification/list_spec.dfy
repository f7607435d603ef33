/**
  The abstract effect of the list's two primitive mutations on an element
  sequence (or on the sequence of element nodes): insertion so that the new
  element lands at index k, and removal of the element at index k. With the
  sentinel at position index 0, "insert after position k" and "erase after
  position k" are exactly these.
 */
module ListSpec {

  function InsertAt<T>(s: seq<T>, k: nat, v: T): (r: seq<T>)
    requires k <= |s|
    ensures |r| == |s| + 1
    ensures r[k] == v
    ensures forall i :: 0 <= i < k ==> r[i] == s[i]
    ensures forall i :: k < i < |r| ==> r[i] == s[i - 1]
  {
    s[..k] + [v] + s[k..]
  }

  function EraseAt<T>(s: seq<T>, k: nat): (r: seq<T>)
    requires k < |s|
    ensures |r| == |s| - 1
    ensures forall i :: 0 <= i < k ==> r[i] == s[i]
    ensures forall i :: k <= i < |r| ==> r[i] == s[i + 1]
  {
    s[..k] + s[k + 1..]
  }

  /** Erasing what was just inserted gives back the original sequence. */
  lemma EraseAfterInsert<T>(s: seq<T>, k: nat, v: T)
    requires k <= |s|
    ensures EraseAt(InsertAt(s, k, v), k) == s
  {
  }

  /** Re-inserting an erased element at its old index gives back the original. */
  lemma InsertAfterErase<T>(s: seq<T>, k: nat)
    requires k < |s|
    ensures InsertAt(EraseAt(s, k), k, s[k]) == s
  {
  }

  /** Insertion at the front is prepending, removal at the front drops the head. */
  lemma AtFront<T>(s: seq<T>, v: T)
    ensures InsertAt(s, 0, v) == [v] + s
    ensures s != [] ==> EraseAt(s, 0) == s[1..]
  {
  }

  /** Inserting at the end appends: the step that keeps `CreateList` in order. */
  lemma AtBack<T>(s: seq<T>, v: T)
    ensures InsertAt(s, |s|, v) == s + [v]
  {
  }
}
