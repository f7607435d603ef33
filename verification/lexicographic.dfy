/**
  Strict lexicographic order on element sequences, the order the list's
  relational operators are built on.

  `LexLess` follows the shape of the standard lexicographic comparison: walk
  both sequences in step, decide at the first pair where one element is
  smaller, and otherwise call the first sequence smaller exactly when it ran
  out while the second did not. `LessAt` is an independent description of the
  same order through the first index where the sequences part.
 */
module Lexicographic {

  predicate LexLess(a: seq<int>, b: seq<int>)
  {
    if a == [] then b != []
    else if b == [] then false
    else if a[0] < b[0] then true
    else if b[0] < a[0] then false
    else LexLess(a[1..], b[1..])
  }

  /** `a` and `b` agree before index k, and at k either `a` has ended while `b`
      goes on, or both go on and `a` holds the smaller element. */
  ghost predicate LessAt(a: seq<int>, b: seq<int>, k: nat)
  {
    && k <= |a| && k <= |b|
    && a[..k] == b[..k]
    && ((k == |a| && k < |b|) || (k < |a| && k < |b| && a[k] < b[k]))
  }

  /** The reference definition: some index is where `a` first falls below `b`. */
  ghost predicate LessByFirstDifference(a: seq<int>, b: seq<int>)
  {
    exists k: nat :: LessAt(a, b, k)
  }

  /** Dropping one common first element shifts the first difference by one. */
  lemma LessAtTail(a: seq<int>, b: seq<int>, k: nat)
    requires a != [] && b != [] && a[0] == b[0]
    ensures LessAt(a, b, k + 1) <==> LessAt(a[1..], b[1..], k)
  {
    if LessAt(a, b, k + 1) {
      assert a[1..][..k] == a[..k + 1][1..];
      assert b[1..][..k] == b[..k + 1][1..];
    }
    if LessAt(a[1..], b[1..], k) {
      assert a[..k + 1] == [a[0]] + a[1..][..k];
      assert b[..k + 1] == [b[0]] + b[1..][..k];
    }
  }

  /** The step-by-step comparison decides exactly the reference order. */
  lemma {:induction false} LexLessIffFirstDifference(a: seq<int>, b: seq<int>)
    ensures LexLess(a, b) <==> LessByFirstDifference(a, b)
    decreases |a|
  {
    if a == [] {
      if b != [] {
        assert LessAt(a, b, 0);
      }
    } else if b == [] {
    } else if a[0] < b[0] {
      assert LessAt(a, b, 0);
    } else if b[0] < a[0] {
    } else {
      LexLessIffFirstDifference(a[1..], b[1..]);
      if LexLess(a, b) {
        var k: nat :| LessAt(a[1..], b[1..], k);
        LessAtTail(a, b, k);
      }
      if LessByFirstDifference(a, b) {
        var k: nat :| LessAt(a, b, k);
        if k == 0 {
          assert false;
        }
        LessAtTail(a, b, k - 1);
      }
    }
  }

  lemma {:induction false} LexLessIrreflexive(a: seq<int>)
    ensures !LexLess(a, a)
    decreases |a|
  {
    if a != [] {
      LexLessIrreflexive(a[1..]);
    }
  }

  lemma {:induction false} LexLessAsymmetric(a: seq<int>, b: seq<int>)
    ensures !(LexLess(a, b) && LexLess(b, a))
    decreases |a|
  {
    if a != [] && b != [] && a[0] == b[0] {
      LexLessAsymmetric(a[1..], b[1..]);
    }
  }

  lemma {:induction false} LexLessTransitive(a: seq<int>, b: seq<int>, c: seq<int>)
    requires LexLess(a, b) && LexLess(b, c)
    ensures LexLess(a, c)
    decreases |a|
  {
    if a != [] && b != [] && c != [] && a[0] == b[0] && b[0] == c[0] {
      LexLessTransitive(a[1..], b[1..], c[1..]);
    }
  }

  /** Any two sequences are ordered one way or the other, or are equal. */
  lemma {:induction false} LexLessTrichotomy(a: seq<int>, b: seq<int>)
    ensures LexLess(a, b) || a == b || LexLess(b, a)
    decreases |a|
  {
    if a != [] && b != [] && a[0] == b[0] {
      LexLessTrichotomy(a[1..], b[1..]);
      if a[1..] == b[1..] {
        assert a == [a[0]] + a[1..] && b == [b[0]] + b[1..];
      }
    }
  }

  /** "Not greater" is "smaller or equal": the identity behind deriving `<=`
      and `>=` from `<` alone. */
  lemma {:induction false} NotGreaterIsLessOrEqual(a: seq<int>, b: seq<int>)
    ensures !LexLess(b, a) <==> LexLess(a, b) || a == b
  {
    LexLessTrichotomy(a, b);
    LexLessAsymmetric(a, b);
    LexLessIrreflexive(a);
  }
}
