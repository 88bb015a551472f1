/**
 Building a heap in place: `heapify` and `New` of heap.go, over an array and a comparison.
 A tie is swapped too, so termination and the number of swaps rest on the height alone.  The ghost results
 list the swaps that were made.
 */
module MaxHeap {
  // ----- the order

  /** A trigger for the laws below. */
  ghost predicate Triple<T>(x: T, y: T, z: T) {
    true
  }

  /** A strict weak order: irreflexive, transitive, and with a transitive incomparability. */
  ghost predicate StrictWeak<T(!new)>(less: (T, T) -> bool) {
    && (forall x, y, z {:trigger Triple(x, y, z)} :: !less(x, x) && (less(x, y) && less(y, z) ==> less(x, z)))
    && (forall x, y, z {:trigger Triple(x, y, z)} :: !less(x, y) && !less(y, z) ==> !less(x, z))
  }

  // ----- the shape

  function Parent(k: int): int
    requires k >= 1
  {
    (k - 1) / 2
  }

  /** No parent at `lo` or later is less than its child. */
  ghost predicate HeapFrom<T>(a: seq<T>, less: (T, T) -> bool, lo: int) {
    forall k :: 1 <= k < |a| && Parent(k) >= lo ==> !less(a[Parent(k)], a[k])
  }

  /** As HeapFrom, except that the value at `i` may be too small for its place. */
  ghost predicate HeapBut<T>(a: seq<T>, less: (T, T) -> bool, lo: int, i: int) {
    && (forall k :: 1 <= k < |a| && Parent(k) >= lo && Parent(k) != i ==> !less(a[Parent(k)], a[k]))
    && (i >= 1 && Parent(i) >= lo ==>
          forall k :: 1 <= k < |a| && Parent(k) == i ==> !less(a[Parent(i)], a[k]))
  }

  /** The length of the leftmost path below node `i` of a heap of `n` nodes. */
  function Height(i: nat, n: nat): nat
    decreases n - i
  {
    if 2 * i + 1 < n then 1 + Height(2 * i + 1, n) else 0
  }

  lemma {:induction false} HeightMonotone(i: nat, j: nat, n: nat)
    requires i <= j
    ensures Height(j, n) <= Height(i, n)
    decreases n - i
  {
    if 2 * j + 1 < n { HeightMonotone(2 * i + 1, 2 * j + 1, n); }
  }

  // ----- the algorithm

  function Pick<T>(a: seq<T>, less: (T, T) -> bool, i: nat): (root: nat)
    requires i < |a|
    ensures root == i || (root in {2 * i + 1, 2 * i + 2} && root < |a|)
  {
    var left, right := 2 * i + 1, 2 * i + 2;
    var root := if left < |a| && !less(a[left], a[i]) then left else i;
    if right < |a| && !less(a[right], a[root]) then right else root
  }

  function Swap<T>(a: seq<T>, i: nat, j: nat): (r: seq<T>)
    requires i < |a| && j < |a|
    ensures |r| == |a|
  {
    a[i := a[j]][j := a[i]]
  }

  /** The swaps `ps`, one after the other. */
  ghost function SwapAll<T>(a: seq<T>, ps: seq<(nat, nat)>): (r: seq<T>)
    requires forall k :: 0 <= k < |ps| ==> ps[k].0 < |a| && ps[k].1 < |a|
    ensures |r| == |a|
    decreases |ps|
  {
    if ps == [] then a else SwapAll(Swap(a, ps[0].0, ps[0].1), ps[1..])
  }

  lemma {:induction false} SwapMore<T>(a: seq<T>, ps: seq<(nat, nat)>, qs: seq<(nat, nat)>)
    requires forall k :: 0 <= k < |ps| ==> ps[k].0 < |a| && ps[k].1 < |a|
    requires forall k :: 0 <= k < |qs| ==> qs[k].0 < |a| && qs[k].1 < |a|
    ensures SwapAll(a, ps + qs) == SwapAll(SwapAll(a, ps), qs)
    decreases |ps|
  {
    if ps == [] {
      assert ps + qs == qs;
    } else {
      assert (ps + qs)[0] == ps[0] && (ps + qs)[1..] == ps[1..] + qs;
      SwapMore(Swap(a, ps[0].0, ps[0].1), ps[1..], qs);
    }
  }

  /** These swaps, of different places each, turn `a` into `b`. */
  ghost predicate SwapsTo<T>(a: seq<T>, ps: seq<(nat, nat)>, b: seq<T>) {
    && (forall k :: 0 <= k < |ps| ==> ps[k].0 < |a| && ps[k].1 < |a| && ps[k].0 != ps[k].1)
    && SwapAll(a, ps) == b
  }

  lemma SwapMultiset<T>(a: seq<T>, i: nat, j: nat)
    requires i < |a| && j < |a|
    ensures multiset(Swap(a, i, j)) == multiset(a)
  {}

  /** No swap is made exactly when every child is less; a tie is swapped. */
  lemma SwapUnlessLess<T(!new)>(a: seq<T>, less: (T, T) -> bool, i: nat)
    requires StrictWeak(less) && i < |a|
    ensures Pick(a, less, i) == i <==>
      (2 * i + 1 < |a| ==> less(a[2 * i + 1], a[i])) && (2 * i + 2 < |a| ==> less(a[2 * i + 2], a[i]))
  {}

  /** Swapping the largest child up leaves at most one misplaced value, one level further down. */
  lemma SwapDown<T(!new)>(a: seq<T>, less: (T, T) -> bool, lo: nat, i: nat)
    requires StrictWeak(less) && lo <= i < |a| && HeapBut(a, less, lo, i)
    ensures var root := Pick(a, less, i);
      if root == i then HeapFrom(a, less, lo) else HeapBut(Swap(a, root, i), less, lo, root)
  {
    var root, left, right := Pick(a, less, i), 2 * i + 1, 2 * i + 2;
    if left < |a| { assert Triple(a[i], a[left], a[i]); }
    if right < |a| {
      assert Triple(a[i], a[right], a[i]) && Triple(a[left], a[right], a[left]);
      assert Triple(a[right], a[i], a[left]) && Triple(a[right], a[left], a[i]);
    }
    if root != i {
      var b := Swap(a, root, i);
      assert Parent(root) == i;
      forall k | 1 <= k < |b| && Parent(k) >= lo && Parent(k) != root ensures !less(b[Parent(k)], b[k]) {
      }
    }
  }

  method SwapAt<T>(a: array<T>, i: nat, j: nat)
    requires i < a.Length && j < a.Length
    modifies a
    ensures a[..] == Swap(old(a[..]), i, j)
    ensures multiset(a[..]) == old(multiset(a[..]))
  {
    SwapMultiset(a[..], i, j);
    a[i], a[j] := a[j], a[i];
  }

  method PickAt<T>(a: array<T>, less: (T, T) -> bool, i: nat) returns (root: nat)
    requires i < a.Length
    ensures root == Pick(a[..], less, i)
  {
    var n, left, right := a.Length, 2 * i + 1, 2 * i + 2;
    root := i;
    if left < n && !less(a[left], a[root]) {
      root := left;
    }
    if right < n && !less(a[right], a[root]) {
      root := right;
    }
  }

  /** The values after `heapify` at `i`, and the swaps that it makes. */
  ghost function Sift<T(!new)>(a: seq<T>, less: (T, T) -> bool, i: nat): (r: seq<T>)
    requires i < |a|
    ensures |r| == |a|
    decreases |a| - i
  {
    var root := Pick(a, less, i);
    if root == i then a else Sift(Swap(a, root, i), less, root)
  }

  ghost function SiftSwaps<T(!new)>(a: seq<T>, less: (T, T) -> bool, i: nat): seq<(nat, nat)>
    requires i < |a|
    decreases |a| - i
  {
    var root := Pick(a, less, i);
    if root == i then [] else [(root, i)] + SiftSwaps(Swap(a, root, i), less, root)
  }

  lemma {:induction false} SiftBySwaps<T(!new)>(a: seq<T>, less: (T, T) -> bool, i: nat)
    requires i < |a|
    ensures SwapsTo(a, SiftSwaps(a, less, i), Sift(a, less, i)) && |SiftSwaps(a, less, i)| <= Height(i, |a|)
    decreases |a| - i
  {
    var root := Pick(a, less, i);
    if root != i {
      var b := Swap(a, root, i);
      SiftBySwaps(b, less, root);
      HeightMonotone(2 * i + 1, root, |a|);
      FirstSwap(a, root, i, SiftSwaps(b, less, root), Sift(b, less, root));
    }
  }

  lemma FirstSwap<T>(a: seq<T>, i: nat, j: nat, ps: seq<(nat, nat)>, c: seq<T>)
    requires i < |a| && j < |a| && i != j && SwapsTo(Swap(a, i, j), ps, c)
    ensures SwapsTo(a, [(i, j)] + ps, c)
  {
    assert ([(i, j)] + ps)[0] == (i, j) && ([(i, j)] + ps)[1..] == ps;
  }

  lemma SwapsChain<T>(a: seq<T>, ps: seq<(nat, nat)>, b: seq<T>, qs: seq<(nat, nat)>, c: seq<T>)
    requires SwapsTo(a, ps, b) && SwapsTo(b, qs, c)
    ensures SwapsTo(a, ps + qs, c)
  {
    SwapMore(a, ps, qs);
  }

  /** The body of `heapify` up to its recursive call: `i` itself says that no swap was needed. */
  method SwapLargest<T(!new)>(a: array<T>, less: (T, T) -> bool, i: nat, ghost lo: nat) returns (root: nat)
    requires StrictWeak(less) && lo <= i < a.Length && HeapBut(a[..], less, lo, i)
    modifies a
    ensures root == i || root in {2 * i + 1, 2 * i + 2}
    ensures root < a.Length && if root == i then HeapFrom(a[..], less, lo) else HeapBut(a[..], less, lo, root)
    ensures multiset(a[..]) == old(multiset(a[..]))
    ensures Sift(old(a[..]), less, i) == if root == i then a[..] else Sift(a[..], less, root)
  {
    SwapDown(a[..], less, lo, i);
    root := PickAt(a, less, i);
    if root != i {
      SwapAt(a, root, i);
    }
  }

  /** Sifts the value at `i` down. */
  method Heapify<T(!new)>(a: array<T>, less: (T, T) -> bool, i: nat, ghost lo: nat)
    requires StrictWeak(less) && lo <= i < a.Length && HeapBut(a[..], less, lo, i)
    modifies a
    ensures HeapFrom(a[..], less, lo)
    ensures multiset(a[..]) == old(multiset(a[..]))
    ensures a[..] == Sift(old(a[..]), less, i)
    decreases a.Length - i
  {
    var root := SwapLargest(a, less, i, lo);
    if root != i {
      Heapify(a, less, root, lo);
    }
  }

  // ----- the heights add up to less than the number of nodes

  /** The sum of the heights of the nodes i..n/2 - 1, that is, of the calls that `New` makes from `i` on. */
  function HeightSum(i: nat, n: nat): nat
    decreases n - i
  {
    if i < n / 2 then Height(i, n) + HeightSum(i + 1, n) else 0
  }

  /** Dropping every other node of the array takes one level off every node that has a child. */
  lemma {:induction false} HalfHeight(i: nat, n: nat)
    requires 2 * i + 1 < n
    ensures Height(i, n) == 1 + Height(i, n / 2)
    decreases n - i
  {
    if 2 * (2 * i + 1) + 1 < n { HalfHeight(2 * i + 1, n); }
  }

  lemma {:induction false} HalfSum(i: nat, n: nat)
    requires i <= n / 2
    ensures HeightSum(i, n) == n / 2 - i + HeightSum(i, n / 2)
    decreases n - i
  {
    if i < n / 2 {
      HalfHeight(i, n);
      HalfSum(i + 1, n);
    }
  }

  lemma {:induction false} HeightsBelowSize(n: nat)
    ensures n >= 1 ==> HeightSum(0, n) <= n - 1
  {
    if n >= 2 {
      HalfSum(0, n);
      HeightsBelowSize(n / 2);
    }
  }

  // ----- the whole array

  lemma {:induction false} RootIsMax<T(!new)>(a: seq<T>, less: (T, T) -> bool, k: nat)
    requires StrictWeak(less) && HeapFrom(a, less, 0) && k < |a|
    ensures !less(a[0], a[k])
  {
    if k == 0 {
      assert Triple(a[0], a[0], a[0]);
    } else {
      RootIsMax(a, less, Parent(k));
      assert Triple(a[0], a[Parent(k)], a[k]);
    }
  }

  /** The values after sifting at `i - 1`, `i - 2` and so on down to 0, and the swaps that this takes. */
  ghost function Build<T(!new)>(a: seq<T>, less: (T, T) -> bool, i: nat): (r: seq<T>)
    requires i <= |a|
    ensures |r| == |a|
    decreases i
  {
    if i == 0 then a else Build(Sift(a, less, i - 1), less, i - 1)
  }

  ghost function BuildSwaps<T(!new)>(a: seq<T>, less: (T, T) -> bool, i: nat): seq<(nat, nat)>
    requires i <= |a|
    decreases i
  {
    if i == 0 then [] else SiftSwaps(a, less, i - 1) + BuildSwaps(Sift(a, less, i - 1), less, i - 1)
  }

  /** The heights of the first `i` nodes. */
  function HeightsBefore(i: nat, n: nat): nat {
    if i == 0 then 0 else Height(i - 1, n) + HeightsBefore(i - 1, n)
  }

  lemma {:induction false} BuildBySwaps<T(!new)>(a: seq<T>, less: (T, T) -> bool, i: nat)
    requires i <= |a|
    ensures SwapsTo(a, BuildSwaps(a, less, i), Build(a, less, i))
    ensures |BuildSwaps(a, less, i)| <= HeightsBefore(i, |a|)
    decreases i
  {
    if i > 0 {
      var b := Sift(a, less, i - 1);
      SiftBySwaps(a, less, i - 1);
      BuildBySwaps(b, less, i - 1);
      SwapsChain(a, SiftSwaps(a, less, i - 1), b, BuildSwaps(b, less, i - 1), Build(b, less, i - 1));
    }
  }

  lemma {:induction false} HeightsAlike(i: nat, n: nat)
    requires i <= n / 2
    ensures HeightsBefore(n / 2, n) == HeightsBefore(i, n) + HeightSum(i, n)
    decreases n - i
  {
    if i < n / 2 { HeightsAlike(i + 1, n); }
  }

  /** heap.go's `New`: a permutation in heap order, a maximum in front, and fewer swaps than elements. */
  method New<T(!new)>(a: array<T>, less: (T, T) -> bool) returns (ghost swaps: seq<(nat, nat)>)
    requires StrictWeak(less)
    modifies a
    ensures multiset(a[..]) == old(multiset(a[..]))
    ensures forall k :: 1 <= k < a.Length ==> !less(a[Parent(k)], a[k])
    ensures forall k :: 0 <= k < a.Length ==> !less(a[0], a[k])
    ensures SwapsTo(old(a[..]), swaps, a[..]) && (a.Length >= 1 ==> |swaps| <= a.Length - 1)
  {
    var n := a.Length;
    swaps := BuildSwaps(a[..], less, n / 2);
    BuildBySwaps(a[..], less, n / 2);
    HeightsAlike(0, n);
    HeightsBelowSize(n);
    SiftAll(a, less);
    HeapIsMax(a, less);
  }

  /** The loop of `New`. */
  method SiftAll<T(!new)>(a: array<T>, less: (T, T) -> bool)
    requires StrictWeak(less)
    modifies a
    ensures HeapFrom(a[..], less, 0) && multiset(a[..]) == old(multiset(a[..]))
    ensures a[..] == Build(old(a[..]), less, a.Length / 2)
  {
    var n := a.Length;
    var i := n / 2 - 1;
    while i >= 0
      invariant -1 <= i < n / 2 || (n == 0 && i == -1)
      invariant HeapFrom(a[..], less, i + 1)
      invariant multiset(a[..]) == old(multiset(a[..]))
      invariant Build(a[..], less, i + 1) == Build(old(a[..]), less, n / 2)
    {
      Heapify(a, less, i, i);
      i := i - 1;
    }
  }

  lemma HeapIsMax<T(!new)>(a: array<T>, less: (T, T) -> bool)
    requires StrictWeak(less) && HeapFrom(a[..], less, 0)
    ensures forall k :: 1 <= k < a.Length ==> !less(a[Parent(k)], a[k])
    ensures forall k :: 0 <= k < a.Length ==> !less(a[0], a[k])
  {
    forall k | 0 <= k < a.Length ensures !less(a[0], a[k]) {
      RootIsMax(a[..], less, k);
      assert a[..][k] == a[k];
    }
    forall k | 1 <= k < a.Length ensures !less(a[Parent(k)], a[k]) {
      assert a[..][k] == a[k] && a[..][Parent(k)] == a[Parent(k)];
    }
  }
}
