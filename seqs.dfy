/** An optional value: the model's stand-in for a Go result that may be nil. */
module Wrappers {
  datatype Option<+T> = None | Some(value: T)
}

/**
 * Sequence operations shared by the models of the category taxonomy, the contact's
 * e-mail list and group membership, together with the two places where the Go code
 * works on a slice's backing array rather than on its visible elements.
 */
module Seqs {

  /** No element occurs twice. */
  predicate Distinct<T(==)>(s: seq<T>) {
    forall i, j :: 0 <= i < j < |s| ==> s[i] != s[j]
  }

  /** x occurs at most once in s. */
  predicate AtMostOnce<T(==)>(s: seq<T>, x: T) {
    forall i, j :: 0 <= i < j < |s| && s[i] == x ==> s[j] != x
  }

  /** The index of the first occurrence of x in s, or |s| when x does not occur. */
  function IndexOf<T(==)>(s: seq<T>, x: T): (k: nat)
    ensures k <= |s|
    ensures k < |s| ==> s[k] == x
    ensures forall j :: 0 <= j < k ==> s[j] != x
  {
    if s == [] then 0
    else if s[0] == x then 0
    else 1 + IndexOf(s[1..], x)
  }

  /** s without position i, the others in their order. */
  function RemoveAt<T>(s: seq<T>, i: nat): (r: seq<T>)
    requires i < |s|
    ensures |r| == |s| - 1
    ensures forall j :: 0 <= j < i ==> r[j] == s[j]
    ensures forall j :: i <= j < |r| ==> r[j] == s[j + 1]
  {
    s[..i] + s[i + 1..]
  }

  /** Removing position i takes exactly one copy of s[i] out of the multiset. */
  lemma RemoveAtMultiset<T>(s: seq<T>, i: nat)
    requires i < |s|
    ensures multiset(RemoveAt(s, i)) == multiset(s) - multiset{s[i]}
  {
    assert s == s[..i] + [s[i]] + s[i + 1..];
  }

  /** s without the first occurrence of x; s itself when x does not occur. */
  function Removed<T(==)>(s: seq<T>, x: T): (r: seq<T>)
    ensures x !in s ==> r == s
    ensures x in s ==> |r| == |s| - 1
    ensures AtMostOnce(s, x) ==> x !in r
  {
    var k := IndexOf(s, x);
    if k < |s| then RemoveAt(s, k) else s
  }

  /** The element at from taken out and put back at position dest of what remains. */
  function Moved<T>(s: seq<T>, from: nat, dest: nat): (r: seq<T>)
    requires from < |s| && dest < |s|
    ensures |r| == |s| && r[dest] == s[from]
  {
    var rest := RemoveAt(s, from);
    rest[..dest] + [s[from]] + rest[dest..]
  }

  /** Removing the first occurrence of x takes one copy of x out of the multiset. */
  lemma RemovedMultiset<T>(s: seq<T>, x: T)
    ensures x in s ==> multiset(Removed(s, x)) == multiset(s) - multiset{x}
  {
    if x in s {
      RemoveAtMultiset(s, IndexOf(s, x));
    }
  }

  /** Moving an element reorders the list: the multiset of elements is the same. */
  lemma MovedPermutes<T>(s: seq<T>, from: nat, dest: nat)
    requires from < |s| && dest < |s|
    ensures multiset(Moved(s, from, dest)) == multiset(s)
  {
    var x, rest := s[from], RemoveAt(s, from);
    assert s == s[..from] + [x] + s[from + 1..];
    assert rest == s[..from] + s[from + 1..];
    assert multiset(s) == multiset(rest) + multiset{x};
    assert rest == rest[..dest] + rest[dest..];
    assert multiset(Moved(s, from, dest)) == multiset(rest) + multiset{x};
  }

  /**
   * What `append(append(s[:dest], x), s[dest:]...)` yields when the backing array of
   * s has room for one more element: the inner append writes x into that array at
   * position dest, so the tail s[dest:] read afterwards starts with x.
   */
  function InsertedAsWritten<T>(s: seq<T>, dest: nat, x: T): (r: seq<T>)
    requires dest <= |s|
    ensures |r| == |s| + 1
    ensures r[..dest] == s[..dest] && r[dest] == x
    ensures dest < |s| ==> r[dest + 1] == x && r[dest + 2..] == s[dest + 1..]
  {
    s[..dest] + [x] + if dest < |s| then [x] + s[dest + 1..] else []
  }

  /** The remove-then-reinsert of the Go move operations, as the slice code computes it. */
  function MovedAsWritten<T>(s: seq<T>, from: nat, dest: nat): (r: seq<T>)
    requires from < |s| && dest < |s|
    ensures |r| == |s|
  {
    InsertedAsWritten(RemoveAt(s, from), dest, s[from])
  }

  /**
   * The removal loop of the Go code: a `range` over the slice header taken on entry,
   * while each hit shifts the shared backing array one place left with
   * `append(s[:i], s[i+1:]...)`. The loop keeps reading that array after a removal,
   * so it sees the shifted elements and, in the last cell, a stale copy.
   */
  method RemoveByIdentity<T(==)>(s: seq<T>, x: T) returns (r: seq<T>)
    requires AtMostOnce(s, x)
    ensures r == Removed(s, x)
  {
    var n := |s|;
    var backing := s;
    var length := n;
    r := s;
    ghost var found := false;
    for i := 0 to n
      invariant |backing| == n && 0 <= length <= n
      invariant r == backing[..length]
      invariant !found ==> backing == s && length == n && x !in s[..i]
      invariant found ==> length == n - 1 && r == Removed(s, x)
      invariant found ==> forall j :: i <= j < n ==> backing[j] != x
    {
      if backing[i] == x {
        assert IndexOf(s, x) == i;
        backing := backing[..i] + backing[i + 1..length] + backing[length - 1..];
        length := length - 1;
        r := backing[..length];
        found := true;
      }
    }
  }

  /**
   * `append(append(s[:dest], x), s[dest:]...)` on a slice whose backing array has room
   * for one more element, as it is right after a removal: both appends write into
   * that array in place.
   */
  method InsertAsWritten<T>(s: seq<T>, dest: nat, x: T) returns (r: seq<T>)
    requires dest <= |s|
    ensures r == InsertedAsWritten(s, dest, x)
  {
    // s and its spare cell; what that cell held before is never read
    var backing := s + [x];
    backing := backing[dest := x];
    var tail := backing[dest..|s|];
    r := backing[..dest + 1] + tail;
  }

  /** In a duplicate-free list every element has multiplicity at most one. */
  lemma {:induction false} DistinctMultiplicity<T>(s: seq<T>)
    requires Distinct(s)
    ensures forall x :: multiset(s)[x] <= 1
  {
    if s != [] {
      var t := s[1..];
      assert s == [s[0]] + t;
      assert Distinct(t) by {
        forall i, j | 0 <= i < j < |t| ensures t[i] != t[j] {
          assert t[i] == s[i + 1] && t[j] == s[j + 1];
        }
      }
      assert s[0] !in t by {
        forall j | 0 <= j < |t| ensures t[j] != s[0] {
          assert t[j] == s[j + 1];
        }
      }
      DistinctMultiplicity(t);
      forall x ensures multiset(s)[x] <= 1 {
        assert multiset(s)[x] == multiset{s[0]}[x] + multiset(t)[x];
      }
    }
  }

  /** An element found at two positions has multiplicity at least two. */
  lemma DuplicateMultiplicity<T>(s: seq<T>, i: nat, j: nat)
    requires i < j < |s|
    ensures s[i] == s[j] ==> multiset(s)[s[i]] >= 2
  {
    assert s == s[..i] + [s[i]] + s[i + 1..j] + [s[j]] + s[j + 1..];
    assert multiset(s) == multiset(s[..i]) + multiset{s[i]} + multiset(s[i + 1..j]) + multiset{s[j]} + multiset(s[j + 1..]);
  }

  /** Reordering a duplicate-free list keeps it duplicate-free. */
  lemma DistinctPermutation<T>(a: seq<T>, b: seq<T>)
    requires Distinct(a) && multiset(a) == multiset(b)
    ensures Distinct(b)
  {
    DistinctMultiplicity(a);
    forall i, j | 0 <= i < j < |b| ensures b[i] != b[j] {
      DuplicateMultiplicity(b, i, j);
    }
  }

  /** Removing an element keeps a duplicate-free list duplicate-free. */
  lemma DistinctRemoveAt<T>(s: seq<T>, i: nat)
    requires i < |s| && Distinct(s)
    ensures Distinct(RemoveAt(s, i))
  {
    var r := RemoveAt(s, i);
    forall p, q | 0 <= p < q < |r| ensures r[p] != r[q] {
      var p' := if p < i then p else p + 1;
      var q' := if q < i then q else q + 1;
      assert r[p] == s[p'] && r[q] == s[q'];
    }
  }

  /** Removing from the left part of a concatenation. */
  lemma RemoveAtLeft<T>(a: seq<T>, b: seq<T>, k: nat)
    requires k < |a|
    ensures RemoveAt(a, k) + b == RemoveAt(a + b, k)
  {
  }

  /** Removing from the right part of a concatenation. */
  lemma RemoveAtRight<T>(a: seq<T>, b: seq<T>, k: nat)
    requires k < |b|
    ensures a + RemoveAt(b, k) == RemoveAt(a + b, |a| + k)
  {
  }

  /** Every element of a move's result, as the slice code computes it, was there before. */
  lemma MovedAsWrittenSubset<T>(s: seq<T>, from: nat, dest: nat)
    requires from < |s| && dest < |s|
    ensures forall y :: y in MovedAsWritten(s, from, dest) ==> y in s
  {
    var rest := RemoveAt(s, from);
    assert forall y :: y in rest ==> y in s;
  }

  /** Every element left after a removal was there before. */
  lemma RemovedSubset<T>(s: seq<T>, x: T)
    ensures forall y :: y in Removed(s, x) ==> y in s
  {
  }

  /** The left part of a duplicate-free concatenation is duplicate-free. */
  lemma DistinctLeft<T>(a: seq<T>, b: seq<T>)
    requires Distinct(a + b)
    ensures Distinct(a)
  {
    forall i, j | 0 <= i < j < |a| ensures a[i] != a[j] {
      assert a[i] == (a + b)[i] && a[j] == (a + b)[j];
    }
  }

  /** The right part of a duplicate-free concatenation is duplicate-free. */
  lemma DistinctRight<T>(a: seq<T>, b: seq<T>)
    requires Distinct(a + b)
    ensures Distinct(b)
  {
    forall i, j | 0 <= i < j < |b| ensures b[i] != b[j] {
      assert b[i] == (a + b)[|a| + i] && b[j] == (a + b)[|a| + j];
    }
  }

  /** Removing from the left part of a duplicate-free concatenation keeps it duplicate-free. */
  lemma DistinctRemoveAtLeft<T>(a: seq<T>, b: seq<T>, k: nat)
    requires k < |a| && Distinct(a + b)
    ensures Distinct(RemoveAt(a, k) + b)
  {
    RemoveAtLeft(a, b, k);
    DistinctRemoveAt(a + b, k);
  }

  /** Removing from the right part of a duplicate-free concatenation keeps it duplicate-free. */
  lemma DistinctRemoveAtRight<T>(a: seq<T>, b: seq<T>, k: nat)
    requires k < |b| && Distinct(a + b)
    ensures Distinct(a + RemoveAt(b, k))
  {
    RemoveAtRight(a, b, k);
    DistinctRemoveAt(a + b, |a| + k);
  }

  /** Taking an element out and appending it at the end reorders the list. */
  lemma MoveToEndPermutes<T>(s: seq<T>, from: nat)
    requires from < |s|
    ensures multiset(RemoveAt(s, from) + [s[from]]) == multiset(s)
  {
    RemoveAtMultiset(s, from);
  }

  /** Reordering the left part of a duplicate-free concatenation keeps it duplicate-free. */
  lemma DistinctReorderLeft<T>(m: seq<T>, m': seq<T>, c: seq<T>)
    requires Distinct(m + c) && multiset(m) == multiset(m')
    ensures Distinct(m' + c)
  {
    DistinctPermutation(m + c, m' + c);
  }

  /** Reordering the right part of a duplicate-free concatenation keeps it duplicate-free. */
  lemma DistinctReorderRight<T>(a: seq<T>, m: seq<T>, m': seq<T>)
    requires Distinct(a + m) && multiset(m) == multiset(m')
    ensures Distinct(a + m')
  {
    DistinctPermutation(a + m, a + m');
  }

  /** Removing the first occurrence of an element keeps its position-wise meaning. */
  lemma {:induction false} RemovedAtFirst<T>(s: seq<T>, i: nat, x: T)
    requires i < |s| && s[i] == x && x !in s[..i]
    ensures Removed(s, x) == s[..i] + s[i + 1..]
  {
    assert forall j :: 0 <= j < i ==> s[j] == s[..i][j];
    assert IndexOf(s, x) == i;
  }

  /**
   * Moving to the last position is the only case in which the slice code computes the
   * remove-then-reinsert it was written for.
   */
  lemma MovedAsWrittenToEnd<T>(s: seq<T>, from: nat)
    requires from < |s|
    ensures MovedAsWritten(s, from, |s| - 1) == Moved(s, from, |s| - 1)
    ensures MovedAsWritten(s, from, |s| - 1) == RemoveAt(s, from) + [s[from]]
  {
    var rest := RemoveAt(s, from);
    assert rest[..|s| - 1] == rest;
  }

  /**
   * For every other destination, the moved element ends up twice, at dest and at
   * dest + 1, and the element that was at position dest of the shortened list is lost:
   * on a duplicate-free list the result is not a permutation.
   */
  lemma MovedAsWrittenDuplicates<T>(s: seq<T>, from: nat, dest: nat)
    requires from < |s| && dest < |s| - 1
    ensures MovedAsWritten(s, from, dest)[dest] == s[from]
    ensures MovedAsWritten(s, from, dest)[dest + 1] == s[from]
    ensures Distinct(s) ==> multiset(MovedAsWritten(s, from, dest)) != multiset(s)
  {
    var r := MovedAsWritten(s, from, dest);
    if Distinct(s) {
      DistinctMultiplicity(s);
      DuplicateMultiplicity(r, dest, dest + 1);
      assert multiset(s)[s[from]] <= 1;
    }
  }

  /** The remove-then-reinsert of the three elements [x, y, z] from 0 to 2 gives [y, z, x]. */
  lemma MoveFirstToLastExample<T>(x: T, y: T, z: T)
    ensures MovedAsWritten([x, y, z], 0, 2) == [y, z, x]
  {
    MovedAsWrittenToEnd([x, y, z], 0);
    assert RemoveAt([x, y, z], 0) == [y, z];
  }

  /**
   * Moving the last of [x, y, z] to the front: the intended result is [z, x, y]; the
   * slice code gives [z, z, y].
   */
  lemma MoveLastToFrontExample<T>(x: T, y: T, z: T)
    ensures Moved([x, y, z], 2, 0) == [z, x, y]
    ensures MovedAsWritten([x, y, z], 2, 0) == [z, z, y]
  {
    var rest := RemoveAt([x, y, z], 2);
    assert rest == [x, y];
    assert rest[..0] + [z] + rest[0..] == [z, x, y];
    assert rest[..0] + [z] + ([z] + rest[1..]) == [z, z, y];
  }
}
