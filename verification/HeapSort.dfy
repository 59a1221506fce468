/** In-place heapsort and binary search (lib/stdlib.c).

    Heap positions are 1-based, as in the source: position i is element i - 1, and its
    children are 2i and 2i + 1. */
module HeapSort {
  import opened Storage

  /** A strcmp-like comparison. */
  ghost predicate TotalPreorder<T(!new)>(cmp: (T, T) -> int) {
    && (forall x, y :: cmp(x, y) > 0 <==> cmp(y, x) < 0)
    && (forall x, y, z :: cmp(x, y) >= 0 && cmp(y, z) >= 0 ==> cmp(x, z) >= 0)
  }

  ghost predicate Ordered<T>(cmp: (T, T) -> int, s: seq<T>) {
    forall i, j | 0 <= i < j < |s| :: cmp(s[j], s[i]) >= 0
  }

  /** Position j is at least as large as its children within the first n positions. */
  ghost predicate NodeOk<T>(cmp: (T, T) -> int, s: seq<T>, n: nat, j: nat)
    requires n <= |s| && 1 <= j
  {
    && (2 * j <= n ==> cmp(s[j - 1], s[2 * j - 1]) >= 0)
    && (2 * j + 1 <= n ==> cmp(s[j - 1], s[2 * j]) >= 0)
  }

  /** The parent of position i is at least as large as the children of i. */
  ghost predicate Bridged<T>(cmp: (T, T) -> int, s: seq<T>, n: nat, i: nat)
    requires n <= |s| && 1 <= i / 2
  {
    && (2 * i <= n ==> cmp(s[i / 2 - 1], s[2 * i - 1]) >= 0)
    && (2 * i + 1 <= n ==> cmp(s[i / 2 - 1], s[2 * i]) >= 0)
  }

  /** The heap property from position lo on, except at position i (0 for no exception). */
  ghost predicate HeapBut<T>(cmp: (T, T) -> int, s: seq<T>, n: nat, lo: nat, i: nat)
    requires 1 <= lo
  {
    && n <= |s|
    && (forall j | lo <= j <= n && j != i :: NodeOk(cmp, s, n, j))
    && (lo <= i / 2 ==> Bridged(cmp, s, n, i))
  }

  /** do_swap of positions i and m. */
  function Swapped<T>(s: seq<T>, i: nat, m: nat): (r: seq<T>)
    requires 1 <= i <= |s| && 1 <= m <= |s|
    ensures |r| == |s|
  {
    s[i - 1 := s[m - 1]][m - 1 := s[i - 1]]
  }

  lemma SwappedPermutation<T>(s: seq<T>, i: nat, m: nat, n: nat)
    requires 1 <= i <= n <= |s| && 1 <= m <= n
    ensures multiset(Swapped(s, i, m)[..n]) == multiset(s[..n]) && Swapped(s, i, m)[n..] == s[n..]
  {
    assert Swapped(s, i, m)[..n] == s[..n][i - 1 := s[..n][m - 1]][m - 1 := s[..n][i - 1]];
  }

  /** m is the position of the largest element among i and its children. */
  ghost predicate IsLargest<T>(cmp: (T, T) -> int, s: seq<T>, n: nat, i: nat, m: nat)
    requires n <= |s|
  {
    && 1 <= i <= m <= n && (m == i || m == 2 * i || m == 2 * i + 1)
    && cmp(s[m - 1], s[i - 1]) >= 0
    && (2 * i <= n ==> cmp(s[m - 1], s[2 * i - 1]) >= 0)
    && (2 * i + 1 <= n ==> cmp(s[m - 1], s[2 * i]) >= 0)
  }

  /** Swapping position i with its larger child moves the exception one level down. */
  lemma SiftDown<T>(cmp: (T, T) -> int, s: seq<T>, n: nat, lo: nat, i: nat, m: nat)
    requires 1 <= lo <= i && HeapBut(cmp, s, n, lo, i) && IsLargest(cmp, s, n, i, m) && m != i
    ensures HeapBut(cmp, Swapped(s, i, m), n, lo, m)
  {
    var r := Swapped(s, i, m);
    assert NodeOk(cmp, s, n, m);
    forall j | lo <= j <= n && j != m ensures NodeOk(cmp, r, n, j) {
      if j != i {
        assert NodeOk(cmp, s, n, j);
      }
    }
  }

  method LargestOf<T(!new)>(a: array<T>, i: nat, n: nat, cmp: (T, T) -> int) returns (max: nat)
    requires TotalPreorder(cmp) && 1 <= i <= n <= a.Length
    ensures IsLargest(cmp, a[..], n, i, max)
  {
    var left, right := 2 * i, 2 * i + 1;
    max := i;
    assert cmp(a[i - 1], a[i - 1]) >= 0;
    if left <= n && cmp(a[left - 1], a[max - 1]) > 0 {
      max := left;
      assert cmp(a[left - 1], a[left - 1]) >= 0;
    }
    if right <= n && cmp(a[right - 1], a[max - 1]) > 0 {
      max := right;
      assert cmp(a[right - 1], a[right - 1]) >= 0;
    }
  }

  lemma NothingBelow<T>(cmp: (T, T) -> int, s: seq<T>, n: nat, lo: nat, i: nat)
    requires 1 <= lo <= i && HeapBut(cmp, s, n, lo, i) && NodeOk(cmp, s, n, i)
    ensures HeapBut(cmp, s, n, lo, 0)
  {
  }

  /** heapify: position lo joins the heap below it. */
  method Heapify<T(!new)>(a: array<T>, lo: nat, n: nat, cmp: (T, T) -> int)
    requires TotalPreorder(cmp) && 1 <= lo <= n <= a.Length && HeapBut(cmp, a[..], n, lo, lo)
    modifies a
    ensures HeapBut(cmp, a[..], n, lo, 0)
    ensures multiset(a[..n]) == multiset(old(a[..n])) && a[n..] == old(a[n..])
  {
    var i := lo;
    ghost var was := a[..];
    assert was[..n] == old(a[..n]) && was[n..] == old(a[n..]);
    while true
      invariant lo <= i <= n && HeapBut(cmp, a[..], n, lo, i)
      invariant multiset(a[..][..n]) == multiset(was[..n]) && a[..][n..] == was[n..]
      decreases n - i
    {
      var max := LargestOf(a, i, n, cmp);
      if max == i {
        NothingBelow(cmp, a[..], n, lo, i);
        assert a[..][..n] == a[..n] && a[..][n..] == a[n..];
        return;
      }
      ghost var s := a[..];
      SiftDown(cmp, s, n, lo, i, max);
      SwappedPermutation(s, i, max, n);
      a[i - 1], a[max - 1] := a[max - 1], a[i - 1];
      assert a[..] == Swapped(s, i, max);
      i := max;
    }
  }

  /** The root of a heap is its largest element. */
  lemma {:induction false} RootLargest<T(!new)>(cmp: (T, T) -> int, s: seq<T>, n: nat, j: nat)
    requires TotalPreorder(cmp) && HeapBut(cmp, s, n, 1, 0) && 1 <= j <= n
    ensures cmp(s[0], s[j - 1]) >= 0
  {
    if j > 1 {
      RootLargest(cmp, s, n, j / 2);
      assert NodeOk(cmp, s, n, j / 2);
    } else {
      assert cmp(s[0], s[0]) >= 0;
    }
  }

  /** From n on, every element is at least as large as all elements before it. */
  ghost predicate Above<T>(cmp: (T, T) -> int, s: seq<T>, n: nat) {
    forall i, j | n <= j < |s| && 0 <= i < j :: cmp(s[j], s[i]) >= 0
  }

  lemma AboveKept<T>(cmp: (T, T) -> int, s: seq<T>, r: seq<T>, n: nat)
    requires n <= |s| == |r| && Above(cmp, s, n)
    requires multiset(r[..n]) == multiset(s[..n]) && r[n..] == s[n..]
    ensures Above(cmp, r, n)
  {
    forall i, j | n <= j < |r| && 0 <= i < j ensures cmp(r[j], r[i]) >= 0 {
      assert r[j] == r[n..][j - n] == s[j];
      if i < n {
        assert r[..n][i] in multiset(r[..n]);
        assert r[..n][i] in s[..n];
        var k :| 0 <= k < n && s[..n][k] == r[i];
      } else {
        assert r[i] == r[n..][i - n] == s[i];
      }
    }
  }

  lemma RootReplaced<T>(cmp: (T, T) -> int, s: seq<T>, n: nat, r: seq<T>)
    requires 1 < n <= |s| && HeapBut(cmp, s, n, 1, 0) && r == Swapped(s, 1, n)
    ensures HeapBut(cmp, r, n - 1, 1, 1)
  {
    var k := n - 1;
    forall j | 1 <= j <= k && j != 1 ensures NodeOk(cmp, r, k, j) {
      assert NodeOk(cmp, s, n, j);
    }
  }

  lemma RootAbove<T>(cmp: (T, T) -> int, s: seq<T>, n: nat, r: seq<T>)
    requires 1 < n <= |s| && Above(cmp, s, n) && r == Swapped(s, 1, n) && forall j | 0 <= j < n :: cmp(s[0], s[j]) >= 0
    ensures Above(cmp, r, n - 1)
  {
    forall i, j | n - 1 <= j < |r| && 0 <= i < j ensures cmp(r[j], r[i]) >= 0 {
      var i' := if i == 0 then n - 1 else if i == n - 1 then 0 else i;
      assert r[i] == s[i'];
    }
  }

  /** Moving the root behind the shrinking heap. */
  lemma Extracted<T(!new)>(cmp: (T, T) -> int, s: seq<T>, n: nat)
    requires TotalPreorder(cmp) && 1 < n <= |s| && HeapBut(cmp, s, n, 1, 0) && Above(cmp, s, n)
    ensures var r := Swapped(s, 1, n);
            HeapBut(cmp, r, n - 1, 1, 1) && Above(cmp, r, n - 1)
  {
    var r := Swapped(s, 1, n);
    RootReplaced(cmp, s, n, r);
    forall j | 0 <= j < n ensures cmp(s[0], s[j]) >= 0 {
      RootLargest(cmp, s, n, j + 1);
    }
    RootAbove(cmp, s, n, r);
  }

  /** Building the heap bottom up. */
  method BuildHeap<T(!new)>(a: array<T>, cmp: (T, T) -> int)
    requires TotalPreorder(cmp)
    modifies a
    ensures HeapBut(cmp, a[..], a.Length, 1, 0) && multiset(a[..]) == multiset(old(a[..]))
  {
    var n, i := a.Length, a.Length / 2;
    while i > 0
      invariant 0 <= i <= n / 2 && HeapBut(cmp, a[..], n, i + 1, 0)
      invariant multiset(a[..]) == multiset(old(a[..]))
    {
      assert a[..n] == a[..];
      Heapify(a, i, n, cmp);
      assert a[..n] == a[..];
      i := i - 1;
    }
  }

  lemma OrderedWhenSmall<T>(cmp: (T, T) -> int, s: seq<T>, n: nat)
    requires n <= 1 && Above(cmp, s, n)
    ensures Ordered(cmp, s)
  {
  }

  lemma WholePermutation<T>(s: seq<T>, r: seq<T>, n: nat)
    requires n <= |s| == |r| && multiset(r[..n]) == multiset(s[..n]) && r[n..] == s[n..]
    ensures multiset(r) == multiset(s)
  {
    assert r == r[..n] + r[n..] && s == s[..n] + s[n..];
  }

  method ExtractRoot<T(!new)>(a: array<T>, i: nat, cmp: (T, T) -> int)
    requires TotalPreorder(cmp) && 1 < i <= a.Length && HeapBut(cmp, a[..], i, 1, 0) && Above(cmp, a[..], i)
    modifies a
    ensures HeapBut(cmp, a[..], i - 1, 1, 0) && Above(cmp, a[..], i - 1)
    ensures multiset(a[..]) == multiset(old(a[..]))
  {
    ghost var s := a[..];
    Extracted(cmp, s, i);
    SwappedPermutation(s, 1, i, |s|);
    a[0], a[i - 1] := a[i - 1], a[0];
    ghost var r := a[..];
    assert r == Swapped(s, 1, i);
    assert r[..|s|] == r && s[..|s|] == s;
    Heapify(a, 1, i - 1, cmp);
    ghost var t := a[..];
    assert t[..i - 1] == a[..i - 1] && t[i - 1..] == r[i - 1..];
    WholePermutation(r, t, i - 1);
    AboveKept(cmp, r, t, i - 1);
  }

  /** sort */
  method Sort<T(!new)>(a: array<T>, cmp: (T, T) -> int)
    requires TotalPreorder(cmp)
    modifies a
    ensures Ordered(cmp, a[..]) && multiset(a[..]) == multiset(old(a[..]))
  {
    BuildHeap(a, cmp);
    var i := a.Length;
    while i > 1
      invariant 0 <= i <= a.Length && HeapBut(cmp, a[..], i, 1, 0) && Above(cmp, a[..], i)
      invariant multiset(a[..]) == multiset(old(a[..]))
    {
      ExtractRoot(a, i, cmp);
      i := i - 1;
    }
    OrderedWhenSmall(cmp, a[..], i);
  }

  lemma Around<T(!new)>(cmp: (T, T) -> int, s: seq<T>, key: T, m: nat)
    requires TotalPreorder(cmp) && Ordered(cmp, s) && m < |s|
    ensures cmp(key, s[m]) > 0 ==> forall i | 0 <= i <= m :: cmp(key, s[i]) > 0
    ensures cmp(key, s[m]) < 0 ==> forall i | m <= i < |s| :: cmp(key, s[i]) < 0
  {
  }

  /** binary_search finds a match exactly when there is one. */
  method BinarySearch<T(!new)>(key: T, a: array<T>, cmp: (T, T) -> int) returns (r: Option<nat>)
    requires TotalPreorder(cmp) && Ordered(cmp, a[..])
    ensures r.Some? ==> r.value < a.Length && cmp(key, a[r.value]) == 0
    ensures r.None? ==> forall i | 0 <= i < a.Length :: cmp(key, a[i]) != 0
  {
    var first, last := 0, a.Length;
    while first < last
      invariant first <= last <= a.Length
      invariant forall i | 0 <= i < first :: cmp(key, a[i]) > 0
      invariant forall i | last <= i < a.Length :: cmp(key, a[i]) < 0
    {
      var middle := first + (last - first) / 2;
      var c := cmp(key, a[middle]);
      Around(cmp, a[..], key, middle);
      if c < 0 {
        last := middle;
      } else if c > 0 {
        first := middle + 1;
      } else {
        return Some(middle);
      }
    }
    return None;
  }
}
