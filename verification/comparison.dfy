/**
  The free comparison operators of the list. Equality compares the cached
  counts and then walks both chains in step; `<` walks both chains with the
  standard lexicographic comparison; `!=`, `<=`, `>` and `>=` are derived
  from those two by negation and by swapping the operands.
 */
module ListComparison {
  import opened LinkedList
  import opened Lexicographic

  /** `==`: equal counts, then element-wise equality over the range of `lhs`. */
  method Equal(lhs: SingleLinkedList, rhs: SingleLinkedList) returns (r: bool)
    requires lhs.Valid() && rhs.Valid()
    ensures r <==> lhs.Contents == rhs.Contents
  {
    if lhs.GetSize() != rhs.GetSize() {
      return false;
    }
    var p, q := lhs.Begin(), rhs.Begin();
    ghost var k := 1;
    while p != lhs.End()
      invariant 1 <= k <= |lhs.Nodes| + 1
      invariant p == lhs.PositionAt(k) && q == rhs.PositionAt(k)
      invariant lhs.Contents[..k - 1] == rhs.Contents[..k - 1]
      decreases |lhs.Nodes| + 1 - k
    {
      if lhs.Deref(p, k) != rhs.Deref(q, k) {
        return false;
      }
      p, q := lhs.Next(p, k), rhs.Next(q, k);
      k := k + 1;
    }
    assert lhs.Contents == lhs.Contents[..k - 1];
    return true;
  }

  /** The standard lexicographic comparison over the ranges
      [Begin of `lhs`, last1) and [Begin of `rhs`, last2). */
  method LexicographicalCompare(lhs: SingleLinkedList, last1: Node?, rhs: SingleLinkedList, last2: Node?)
    returns (r: bool)
    requires lhs.Valid() && rhs.Valid()
    requires last1 == lhs.End() && last2 == rhs.End()
    ensures r <==> LexLess(lhs.Contents, rhs.Contents)
  {
    var p, q := lhs.Begin(), rhs.Begin();
    ghost var k := 1;
    while p != last1 && q != last2
      invariant 1 <= k <= |lhs.Nodes| + 1 && k <= |rhs.Nodes| + 1
      invariant p == lhs.PositionAt(k) && q == rhs.PositionAt(k)
      invariant LexLess(lhs.Contents, rhs.Contents) == LexLess(lhs.Contents[k - 1..], rhs.Contents[k - 1..])
      decreases |lhs.Nodes| + 1 - k
    {
      var x, y := lhs.Deref(p, k), rhs.Deref(q, k);
      if x < y {
        return true;
      }
      if y < x {
        return false;
      }
      assert lhs.Contents[k - 1..][1..] == lhs.Contents[k..];
      assert rhs.Contents[k - 1..][1..] == rhs.Contents[k..];
      p, q := lhs.Next(p, k), rhs.Next(q, k);
      k := k + 1;
    }
    r := p == last1 && q != last2;
  }

  /** `<`: the right-hand range is closed with `lhs`'s end position, which is
      the same null position that ends `rhs`. */
  method Less(lhs: SingleLinkedList, rhs: SingleLinkedList) returns (r: bool)
    requires lhs.Valid() && rhs.Valid()
    ensures r <==> LexLess(lhs.Contents, rhs.Contents)
  {
    r := LexicographicalCompare(lhs, lhs.End(), rhs, lhs.End());
  }

  /** `!=`: the negation of `==`. */
  method NotEqual(lhs: SingleLinkedList, rhs: SingleLinkedList) returns (r: bool)
    requires lhs.Valid() && rhs.Valid()
    ensures r <==> lhs.Contents != rhs.Contents
  {
    var eq := Equal(lhs, rhs);
    r := !eq;
  }

  /** `<=`: not `rhs < lhs`. */
  method LessOrEqual(lhs: SingleLinkedList, rhs: SingleLinkedList) returns (r: bool)
    requires lhs.Valid() && rhs.Valid()
    ensures r <==> LexLess(lhs.Contents, rhs.Contents) || lhs.Contents == rhs.Contents
  {
    var greater := Less(rhs, lhs);
    r := !greater;
    NotGreaterIsLessOrEqual(lhs.Contents, rhs.Contents);
  }

  /** `>`: not `lhs <= rhs`. */
  method Greater(lhs: SingleLinkedList, rhs: SingleLinkedList) returns (r: bool)
    requires lhs.Valid() && rhs.Valid()
    ensures r <==> LexLess(rhs.Contents, lhs.Contents)
  {
    var le := LessOrEqual(lhs, rhs);
    r := !le;
    NotGreaterIsLessOrEqual(lhs.Contents, rhs.Contents);
  }

  /** `>=`: not `lhs < rhs`. */
  method GreaterOrEqual(lhs: SingleLinkedList, rhs: SingleLinkedList) returns (r: bool)
    requires lhs.Valid() && rhs.Valid()
    ensures r <==> LexLess(rhs.Contents, lhs.Contents) || lhs.Contents == rhs.Contents
  {
    var less := Less(lhs, rhs);
    r := !less;
    NotGreaterIsLessOrEqual(rhs.Contents, lhs.Contents);
  }
}
