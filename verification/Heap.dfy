/** Go's container/heap over a slice: sift up after an append, sift down after swapping the root with
    the last element. Both priority orders of the transaction pool and the order of the consensus
    message queues are instances of `less`. */
module Heap {

  /** What container/heap needs of Less: a strict order whose negation is transitive. */
  ghost predicate Order<T(!new)>(less: (T, T) -> bool) {
    && (forall a, b :: NotAfter(less, a, b) || NotAfter(less, b, a))
    && (forall a, b, c :: NotAfter(less, a, b) && NotAfter(less, b, c) ==> NotAfter(less, a, c))
  }

  ghost predicate NotAfter<T>(less: (T, T) -> bool, a: T, b: T) {
    !less(b, a)
  }

  function Parent(i: int): int
    requires i > 0
  {
    (i - 1) / 2
  }

  /** The element at i does not come before its parent. */
  ghost predicate BelowParent<T>(less: (T, T) -> bool, s: seq<T>, i: int) {
    0 < i < |s| ==> !less(s[i], s[Parent(i)])
  }

  ghost predicate IsHeap<T>(less: (T, T) -> bool, s: seq<T>) {
    forall i :: BelowParent(less, s, i)
  }

  /** A heap but for the pair (j, Parent(j)). */
  ghost predicate HeapButUp<T>(less: (T, T) -> bool, s: seq<T>, j: int) {
    && (forall i :: i != j ==> BelowParent(less, s, i))
    && (forall i :: 0 < i < |s| && Parent(i) == j && j > 0 ==> !less(s[i], s[Parent(j)]))
  }

  /** A heap but for the pairs (i, j) where j is the parent. */
  ghost predicate HeapButDown<T>(less: (T, T) -> bool, s: seq<T>, j: int) {
    && (forall i :: 0 < i && Parent(i) != j ==> BelowParent(less, s, i))
    && (forall i :: 0 < i < |s| && Parent(i) == j && 0 < j < |s| ==> !less(s[i], s[Parent(j)]))
  }

  function Swap<T>(s: seq<T>, i: int, j: int): seq<T>
    requires 0 <= i < |s| && 0 <= j < |s|
  {
    s[i := s[j]][j := s[i]]
  }

  lemma SwapKeepsElements<T>(s: seq<T>, i: int, j: int)
    requires 0 <= i < |s| && 0 <= j < |s|
    ensures multiset(Swap(s, i, j)) == multiset(s)
  {
    var t := s[i := s[j]];
    assert multiset(t) == multiset(s) - multiset{s[i]} + multiset{s[j]};
    assert multiset(Swap(s, i, j)) == multiset(t) - multiset{t[j]} + multiset{s[i]};
  }

  /** The root is a least element. */
  lemma {:induction false} RootIsLeast<T(!new)>(less: (T, T) -> bool, s: seq<T>, i: int)
    requires Order(less) && IsHeap(less, s) && 0 <= i < |s|
    ensures !less(s[i], s[0])
    decreases i
  {
    if i > 0 {
      RootIsLeast(less, s, Parent(i));
      assert BelowParent(less, s, i);
      assert NotAfter(less, s[0], s[Parent(i)]) && NotAfter(less, s[Parent(i)], s[i]);
      assert NotAfter(less, s[0], s[i]);
    } else {
      assert NotAfter(less, s[0], s[0]);
    }
  }

  lemma UpStep<T(!new)>(less: (T, T) -> bool, s: seq<T>, j: int)
    requires Order(less) && 0 < j < |s| && HeapButUp(less, s, j) && less(s[j], s[Parent(j)])
    ensures HeapButUp(less, Swap(s, Parent(j), j), Parent(j))
  {
    var i := Parent(j);
    var r := Swap(s, i, j);
    assert NotAfter(less, s[j], s[i]) || NotAfter(less, s[i], s[j]);
    forall k | 0 < k < |r| && k != i
      ensures BelowParent(less, r, k)
      ensures Parent(k) == i && i > 0 ==> !less(r[k], r[Parent(i)])
    {
      assert BelowParent(less, s, i) && (k != j ==> BelowParent(less, s, k));
      if Parent(k) == i && k != j {
        assert NotAfter(less, s[i], s[k]);
        assert NotAfter(less, s[j], s[i]);
        assert NotAfter(less, s[j], s[k]);
      }
      if Parent(k) == i && i > 0 {
        assert NotAfter(less, s[Parent(i)], s[i]);
        assert NotAfter(less, s[i], s[k]) || k == j;
        assert k != j ==> NotAfter(less, s[Parent(i)], s[k]);
      }
    }
  }

  lemma DownStep<T(!new)>(less: (T, T) -> bool, s: seq<T>, i: int, j: int)
    requires Order(less) && 0 <= i < |s| && 0 < j < |s| && Parent(j) == i
    requires HeapButDown(less, s, i) && less(s[j], s[i])
    requires forall k :: 0 < k < |s| && Parent(k) == i ==> !less(s[k], s[j])
    ensures HeapButDown(less, Swap(s, i, j), j)
  {
    var r := Swap(s, i, j);
    assert NotAfter(less, s[j], s[i]) || NotAfter(less, s[i], s[j]);
    forall k | 0 < k < |r|
      ensures Parent(k) != j ==> BelowParent(less, r, k)
      ensures Parent(k) == j ==> !less(r[k], r[i])
    {
      assert Parent(k) != i ==> BelowParent(less, s, k);
    }
  }

  lemma DownDone<T>(less: (T, T) -> bool, s: seq<T>, i: int)
    requires HeapButDown(less, s, i) && 0 <= i
    requires forall k :: 0 < k < |s| && Parent(k) == i ==> !less(s[k], s[Parent(k)])
    ensures IsHeap(less, s)
  {
  }

  /** The child that down picks is not above its sibling, and bounds whatever is not above it. */
  lemma LeastChild<T(!new)>(less: (T, T) -> bool, s: seq<T>, i: int, j: int)
    requires Order(less) && 0 <= i < |s| && 2 * i + 1 < |s|
    requires j == (if 2 * i + 2 < |s| && less(s[2 * i + 2], s[2 * i + 1]) then 2 * i + 2 else 2 * i + 1)
    ensures forall k :: 0 < k < |s| && Parent(k) == i ==> !less(s[k], s[j])
    ensures !less(s[j], s[i]) ==> forall k :: 0 < k < |s| && Parent(k) == i ==> !less(s[k], s[i])
  {
    forall k | 0 < k < |s| && Parent(k) == i
      ensures !less(s[k], s[j])
      ensures !less(s[j], s[i]) ==> !less(s[k], s[i])
    {
      assert k == 2 * i + 1 || k == 2 * i + 2;
      assert NotAfter(less, s[k], s[j]) || NotAfter(less, s[j], s[k]);
      assert NotAfter(less, s[j], s[k]);
      assert NotAfter(less, s[i], s[j]) ==> NotAfter(less, s[i], s[k]);
    }
  }

  method Push<T(!new)>(s: seq<T>, x: T, less: (T, T) -> bool) returns (r: seq<T>)
    requires Order(less) && IsHeap(less, s)
    ensures IsHeap(less, r)
    ensures multiset(r) == multiset(s) + multiset{x}
    ensures |r| == |s| + 1
  {
    r := s + [x];
    var j := |s|;
    forall i | i != j ensures BelowParent(less, r, i) {
      assert BelowParent(less, s, i);
    }
    while j > 0 && less(r[j], r[Parent(j)])
      invariant 0 <= j < |r| == |s| + 1
      invariant HeapButUp(less, r, j)
      invariant multiset(r) == multiset(s) + multiset{x}
    {
      var i := Parent(j);
      SwapKeepsElements(r, i, j);
      UpStep(less, r, j);
      r := Swap(r, i, j);
      j := i;
    }
  }

  /** down(h, 0, n) for a slice of length n. */
  method SiftDown<T(!new)>(s: seq<T>, less: (T, T) -> bool) returns (r: seq<T>)
    requires Order(less) && HeapButDown(less, s, 0)
    ensures IsHeap(less, r) && |r| == |s|
    ensures multiset(r) == multiset(s)
  {
    r := s;
    var i := 0;
    while 2 * i + 1 < |r|
      invariant 0 <= i && |r| == |s|
      invariant HeapButDown(less, r, i)
      invariant multiset(r) == multiset(s)
      decreases |r| - i
    {
      var j := 2 * i + 1;
      if j + 1 < |r| && less(r[j + 1], r[j]) {
        j := j + 1;
      }
      LeastChild(less, r, i, j);
      if !less(r[j], r[i]) {
        DownDone(less, r, i);
        return;
      }
      SwapKeepsElements(r, i, j);
      DownStep(less, r, i, j);
      r := Swap(r, i, j);
      i := j;
    }
    DownDone(less, r, i);
  }

  method Pop<T(!new)>(s: seq<T>, less: (T, T) -> bool) returns (x: T, r: seq<T>)
    requires Order(less) && IsHeap(less, s) && |s| > 0
    ensures x == s[0] && forall y :: y in s ==> !less(y, x)
    ensures IsHeap(less, r) && |r| == |s| - 1
    ensures multiset(s) == multiset(r) + multiset{x}
  {
    forall i | 0 <= i < |s| ensures !less(s[i], s[0]) {
      RootIsLeast(less, s, i);
    }
    var n := |s| - 1;
    SwapKeepsElements(s, 0, n);
    r := Swap(s, 0, n);
    x := r[n];
    assert r == r[..n] + [x];
    forall i | 0 < i && Parent(i) != 0 ensures BelowParent(less, r[..n], i) {
      assert BelowParent(less, s, i);
    }
    r := SiftDown(r[..n], less);
  }
}
