/** In-place partition of an index sub-range (`std::partition`) and the
    counting facts the BVH builder needs about it. */
module Partition {

  /** Number of elements of `s` that satisfy `p`. */
  function CountIf<T>(s: seq<T>, p: T -> bool): (n: nat)
    ensures n <= |s|
  {
    if |s| == 0 then 0 else (if p(s[0]) then 1 else 0) + CountIf(s[1..], p)
  }

  lemma {:induction false} CountIfAppend<T>(a: seq<T>, b: seq<T>, p: T -> bool)
    ensures CountIf(a + b, p) == CountIf(a, p) + CountIf(b, p)
  {
    if |a| == 0 {
      assert a + b == b;
    } else {
      assert (a + b)[0] == a[0];
      assert (a + b)[1..] == a[1..] + b;
      CountIfAppend(a[1..], b, p);
    }
  }

  lemma {:induction false} CountIfAll<T>(s: seq<T>, p: T -> bool, holds: bool)
    requires forall i :: 0 <= i < |s| ==> p(s[i]) == holds
    ensures CountIf(s, p) == if holds then |s| else 0
  {
    if |s| > 0 {
      CountIfAll(s[1..], p, holds);
    }
  }

  /** Predicates that agree on every element count the same. */
  lemma {:induction false} CountIfSame<T>(s: seq<T>, p: T -> bool, q: T -> bool)
    requires forall i :: 0 <= i < |s| ==> p(s[i]) == q(s[i])
    ensures CountIf(s, p) == CountIf(s, q)
  {
    if |s| > 0 {
      assert p(s[0]) == q(s[0]);
      CountIfSame(s[1..], p, q);
    }
  }

  lemma MultisetRemove<T>(b: seq<T>, j: nat)
    requires j < |b|
    ensures multiset(b[..j] + b[j + 1..]) == multiset(b) - multiset{b[j]}
  {
    assert b == b[..j] + [b[j]] + b[j + 1..];
    assert multiset(b) == multiset(b[..j]) + multiset{b[j]} + multiset(b[j + 1..]);
  }

  lemma CountIfSingle<T>(x: T, p: T -> bool)
    ensures CountIf([x], p) == if p(x) then 1 else 0
  {
    assert [x][1..] == [];
  }

  lemma SplitAround<T>(b: seq<T>, j: nat)
    requires j < |b|
    ensures b == b[..j] + [b[j]] + b[j + 1..]
  {
  }

  lemma {:induction false} CountIfMiddle<T>(front: seq<T>, x: T, back: seq<T>, p: T -> bool)
    ensures CountIf(front + [x] + back, p) == CountIf(front + back, p) + (if p(x) then 1 else 0)
  {
    CountIfAppend(front + [x], back, p);
    CountIfAppend(front, [x], p);
    CountIfAppend(front, back, p);
    CountIfSingle(x, p);
  }

  /** Removing the element at `j` lowers the count by one exactly when it satisfies `p`. */
  lemma {:induction false} CountIfRemove<T>(b: seq<T>, j: nat, p: T -> bool)
    requires j < |b|
    ensures CountIf(b, p) == CountIf(b[..j] + b[j + 1..], p) + (if p(b[j]) then 1 else 0)
  {
    SplitAround(b, j);
    CountIfMiddle(b[..j], b[j], b[j + 1..], p);
  }

  /** A position holding an element of the multiset of `b`. */
  lemma PositionOf<T>(b: seq<T>, x: T) returns (j: nat)
    requires x in multiset(b)
    ensures j < |b| && b[j] == x
  {
    j :| 0 <= j < |b| && b[j] == x;
  }

  lemma MultisetTail<T>(a: seq<T>)
    requires |a| > 0
    ensures multiset(a[1..]) == multiset(a) - multiset{a[0]}
  {
    assert a == [a[0]] + a[1..];
  }

  /** The first element of `a` sits somewhere in any `b` with the same
      multiset, and the remainders still have equal multisets. */
  lemma MatchHead<T>(a: seq<T>, b: seq<T>) returns (j: nat)
    requires multiset(a) == multiset(b) && |a| > 0
    ensures j < |b| && b[j] == a[0]
    ensures multiset(a[1..]) == multiset(b[..j] + b[j + 1..])
  {
    assert a[0] in multiset(a);
    j := PositionOf(b, a[0]);
    MultisetTail(a);
    MultisetRemove(b, j);
  }

  /** Counting depends only on the multiset of elements. */
  lemma {:induction false} CountIfPerm<T>(a: seq<T>, b: seq<T>, p: T -> bool)
    requires multiset(a) == multiset(b)
    ensures CountIf(a, p) == CountIf(b, p)
    decreases |a|
  {
    if |a| == 0 {
      assert |b| == |multiset(b)| == 0;
    } else {
      var j := MatchHead(a, b);
      CountIfPerm(a[1..], b[..j] + b[j + 1..], p);
      CountIfRemove(b, j, p);
    }
  }

  /** Elements outside `[lo, hi)` are unchanged and the elements inside are
      a permutation of the ones that were there. */
  ghost predicate PermutesWithin<T>(a: seq<T>, b: seq<T>, lo: nat, hi: nat)
  {
    && lo <= hi <= |a| == |b|
    && (forall i :: 0 <= i < |a| && !(lo <= i < hi) ==> b[i] == a[i])
    && multiset(b[lo..hi]) == multiset(a[lo..hi])
  }

  lemma SliceSplit<T>(a: seq<T>, lo: nat, mid: nat, hi: nat)
    requires lo <= mid <= hi <= |a|
    ensures a[lo..hi] == a[lo..mid] + a[mid..hi]
  {
  }

  /** A permutation of a sub-range is a permutation of any range around it. */
  lemma PermutesWithinWiden<T>(a: seq<T>, b: seq<T>, lo: nat, hi: nat, lo': nat, hi': nat)
    requires PermutesWithin(a, b, lo', hi')
    requires lo <= lo' && hi' <= hi <= |a|
    ensures PermutesWithin(a, b, lo, hi)
  {
    SliceSplit(a, lo, lo', hi);
    SliceSplit(a, lo', hi', hi);
    SliceSplit(b, lo, lo', hi);
    SliceSplit(b, lo', hi', hi);
    assert a[lo..lo'] == b[lo..lo'];
    assert a[hi'..hi] == b[hi'..hi];
  }

  lemma PermutesWithinTrans<T>(a: seq<T>, b: seq<T>, c: seq<T>, lo: nat, hi: nat)
    requires PermutesWithin(a, b, lo, hi) && PermutesWithin(b, c, lo, hi)
    ensures PermutesWithin(a, c, lo, hi)
  {
  }

  /** The split point of a partitioned range is the number of elements satisfying `p`. */
  lemma PartitionCount<T>(a: seq<T>, b: seq<T>, lo: nat, mid: nat, hi: nat, p: T -> bool)
    requires lo <= mid <= hi <= |a| == |b|
    requires multiset(b[lo..hi]) == multiset(a[lo..hi])
    requires forall i :: lo <= i < mid ==> p(b[i])
    requires forall i :: mid <= i < hi ==> !p(b[i])
    ensures mid - lo == CountIf(a[lo..hi], p)
  {
    SliceSplit(b, lo, mid, hi);
    CountIfAll(b[lo..mid], p, true);
    CountIfAll(b[mid..hi], p, false);
    CountIfAppend(b[lo..mid], b[mid..hi], p);
    CountIfPerm(a[lo..hi], b[lo..hi], p);
  }

  /** `s` with the elements at `i` and `j` exchanged (`std::iter_swap`). */
  function Swap<T>(s: seq<T>, i: nat, j: nat): (r: seq<T>)
    requires i < j < |s|
    ensures |r| == |s| && r[i] == s[j] && r[j] == s[i]
    ensures forall k :: 0 <= k < |s| && k != i && k != j ==> r[k] == s[k]
  {
    s[i := s[j]][j := s[i]]
  }

  /** Exchanging two elements of a range keeps its multiset. */
  lemma SwapWithin<T>(b: seq<T>, lo: nat, hi: nat, i: nat, j: nat)
    requires lo <= i < j < hi <= |b|
    ensures multiset(Swap(b, i, j)[lo..hi]) == multiset(b[lo..hi])
  {
    var s := b[lo..hi];
    var t := s[i - lo := s[j - lo]][j - lo := s[i - lo]];
    assert Swap(b, i, j)[lo..hi] == t;
    assert multiset(s[i - lo := s[j - lo]]) == multiset(s) - multiset{s[i - lo]} + multiset{s[j - lo]};
  }

  /** State of the two-ended scan: positions before `first` satisfy `p`,
      positions from `last` on fail it, and the range is a permutation of
      the original one. */
  ghost predicate Scanned<T>(a: seq<T>, b: seq<T>, lo: nat, hi: nat, first: nat, last: nat, p: T -> bool)
  {
    && lo <= first <= last <= hi
    && PermutesWithin(a, b, lo, hi)
    && (forall i :: lo <= i < first ==> p(b[i]))
    && (forall i :: last <= i < hi ==> !p(b[i]))
  }

  lemma SwapPermutes<T>(a: seq<T>, b: seq<T>, lo: nat, hi: nat, i: nat, j: nat)
    requires PermutesWithin(a, b, lo, hi) && lo <= i < j < hi
    ensures PermutesWithin(a, Swap(b, i, j), lo, hi)
  {
    SwapWithin(b, lo, hi, i, j);
  }

  /** Exchanging a failing element at `first` with a satisfying one at
      `last - 1` extends both scanned ends. */
  lemma SwapStep<T>(a: seq<T>, b: seq<T>, lo: nat, hi: nat, first: nat, last: nat, p: T -> bool)
    requires Scanned(a, b, lo, hi, first, last, p) && first < last
    requires !p(b[first]) && p(b[last - 1])
    ensures first < last - 1
    ensures Scanned(a, Swap(b, first, last - 1), lo, hi, first + 1, last - 1, p)
  {
    if first == last - 1 {
      assert false;
    }
    var c := Swap(b, first, last - 1);
    SwapPermutes(a, b, lo, hi, first, last - 1);
    forall i | lo <= i < first + 1 ensures p(c[i]) {
      if i < first {
        assert c[i] == b[i];
      }
    }
    forall i | last - 1 <= i < hi ensures !p(c[i]) {
      if i > last - 1 {
        assert c[i] == b[i];
      }
    }
  }

  /** `std::partition` as the standard library implements it for
      bidirectional iterators: scan forward past elements satisfying `p`,
      backward past elements failing it, swap the two found, repeat. The
      C++ standard leaves the resulting order unspecified; the returned
      `mid` is where the second group starts. */
  method PartitionRange<T>(a: seq<T>, lo: nat, hi: nat, p: T -> bool) returns (b: seq<T>, mid: nat)
    requires lo <= hi <= |a|
    ensures PermutesWithin(a, b, lo, hi)
    ensures lo <= mid <= hi
    ensures forall i :: lo <= i < mid ==> p(b[i])
    ensures forall i :: mid <= i < hi ==> !p(b[i])
    ensures mid == lo || mid == hi ==> b == a
  {
    b := a;
    var first: nat, last: nat := lo, hi;
    ghost var swapped := false;
    while first < last
      invariant Scanned(a, b, lo, hi, first, last, p)
      invariant !swapped ==> b == a
      invariant swapped ==> lo < first && last < hi
      decreases last - first
    {
      if p(b[first]) {
        first := first + 1;
      } else if !p(b[last - 1]) {
        last := last - 1;
      } else {
        SwapStep(a, b, lo, hi, first, last, p);
        b := Swap(b, first, last - 1);
        first := first + 1;
        last := last - 1;
        swapped := true;
      }
    }
    mid := first;
  }
}
