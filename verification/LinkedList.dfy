/** The kernel's intrusive doubly linked lists (lib/kernel/list.c): elements carry
    only `prev` and `next`, and every list is bracketed by a head and a tail
    sentinel.  The ghost field `nodes` spells the list out, sentinels included. */
module LinkedList {
  import opened Sequences
  import opened StableOrder

  class ListElem {
    var prev: ListElem?
    var next: ListElem?

    constructor ()
      ensures prev == null && next == null
    {
      prev, next := null, null;
    }
  }

  /** Consecutive members of `s` point at each other. */
  ghost predicate Linked(s: seq<ListElem>)
    reads s
  {
    && (forall i {:trigger s[i].next} | 0 <= i < |s| - 1 :: s[i].next == s[i + 1])
    && (forall i {:trigger s[i].prev} | 0 < i < |s| :: s[i].prev == s[i - 1])
  }

  /** `s` with positions j..k moved to just before position i. */
  ghost function Spliced<A>(s: seq<A>, i: nat, j: nat, k: nat): (t: seq<A>)
    requires i <= j <= k <= |s|
    ensures |t| == |s|
    ensures forall n | 0 <= n < i :: t[n] == s[n]
    ensures forall n | i <= n < i + (k - j) :: t[n] == s[n - i + j]
    ensures forall n | i + (k - j) <= n < k :: t[n] == s[n - (k - j)]
    ensures forall n | k <= n < |s| :: t[n] == s[n]
  {
    s[..i] + s[j..k] + s[i..j] + s[k..]
  }

  lemma SplicedDistinct(s: seq<ListElem>, i: nat, j: nat, k: nat)
    requires i <= j <= k <= |s| && Distinct(s)
    ensures Distinct(Spliced(s, i, j, k))
  {
    var t := Spliced(s, i, j, k);
    var w := k - j;
    forall m, n | 0 <= m < n < |t| ensures t[m] != t[n] {
      var m' := if i <= m < i + w then m - i + j else if i + w <= m < k then m - w else m;
      var n' := if i <= n < i + w then n - i + j else if i + w <= n < k then n - w else n;
      assert t[m] == s[m'] && t[n] == s[n'] && m' != n';
    }
  }

  lemma SplicedMembers(s: seq<ListElem>, t: seq<ListElem>, i: nat, j: nat, k: nat, repr: set<ListElem>)
    requires i <= j <= k <= |s| && t == Spliced(s, i, j, k)
    requires forall n | 0 <= n < |s| :: s[n] in repr
    ensures forall n | 0 <= n < |t| :: t[n] in repr
  {
  }

  /** The links left behind by the six assignments of list_splice. */
  ghost predicate Rewired(s: seq<ListElem>, i: nat, j: nat, k: nat)
    requires 0 < i < j < k < |s|
    reads s
  {
    && s[i - 1].next == s[j] && s[k - 1].next == s[i] && s[j - 1].next == s[k]
    && s[i].prev == s[k - 1] && s[j].prev == s[i - 1] && s[k].prev == s[j - 1]
    && (forall n {:trigger s[n].next} | 0 <= n < |s| - 1 && n != i - 1 && n != j - 1 && n != k - 1 ::
          s[n].next == s[n + 1])
    && (forall n {:trigger s[n].prev} | 0 < n < |s| && n != i && n != j && n != k :: s[n].prev == s[n - 1])
  }

  lemma RewiredLinked(s: seq<ListElem>, i: nat, j: nat, k: nat)
    requires 0 < i < j < k < |s| && Rewired(s, i, j, k)
    ensures Linked(Spliced(s, i, j, k))
  {
  }

  /** The pointer surgery of list_splice. */
  method Rewire(before: ListElem, first: ListElem, last: ListElem, ghost s: seq<ListElem>, ghost i: nat, ghost j: nat,
                ghost k: nat)
    requires 0 < i < j < k < |s| && Distinct(s) && Linked(s)
    requires s[i] == before && s[j] == first && s[k] == last
    modifies s
    ensures Linked(Spliced(s, i, j, k))
    ensures s[0].prev == old(s[0].prev) && s[|s| - 1].next == old(s[|s| - 1].next)
  {
    var back := last.prev;
    assert back == s[k - 1] && back.next == last && first.prev == s[j - 1] && before.prev == s[i - 1];
    first.prev.next := back.next;
    back.next.prev := first.prev;
    first.prev := before.prev;
    back.next := before;
    before.prev.next := first;
    before.prev := back;
    assert Rewired(s, i, j, k);
    RewiredLinked(s, i, j, k);
  }

  /** `s` with its interior turned around. */
  ghost function Reversed(s: seq<ListElem>): (t: seq<ListElem>)
    requires |s| >= 2
    ensures |t| == |s|
    ensures forall n | 0 < n < |s| - 1 :: t[n] == s[|s| - 1 - n]
  {
    seq(|s|, n requires 0 <= n < |s| => if 0 < n < |s| - 1 then s[|s| - 1 - n] else s[n])
  }

  /** The links left behind by list_reverse, between the old positions. */
  ghost predicate Turned(s: seq<ListElem>)
    requires |s| > 2
    reads s
  {
    var last := |s| - 1;
    && s[0].next == s[last - 1] && s[last].prev == s[1]
    && s[1].next == s[last] && s[last - 1].prev == s[0]
    && (forall n {:trigger s[n].next} | 1 < n < last :: s[n].next == s[n - 1])
    && (forall n {:trigger s[n].prev} | 0 < n < last - 1 :: s[n].prev == s[n + 1])
  }

  lemma TurnedLinked(s: seq<ListElem>)
    requires |s| > 2 && Turned(s) && Distinct(s)
    ensures Linked(Reversed(s)) && Distinct(Reversed(s))
  {
    var t, last := Reversed(s), |s| - 1;
    forall i | 0 <= i < last ensures t[i].next == t[i + 1] {
      if 0 < i {
        assert t[i] == s[last - i];
      }
    }
    forall i | 0 < i <= last ensures t[i].prev == t[i - 1] {
      if i < last {
        assert t[i] == s[last - i];
      }
    }
    forall i, j | 0 <= i < j <= last ensures t[i] != t[j] {
      var i' := if 0 < i < last then last - i else i;
      var j' := if 0 < j < last then last - j else j;
      assert t[i] == s[i'] && t[j] == s[j'] && i' != j';
    }
  }

  // ---------------------------------------------------------------------------
  // The sort as a function of the node sequence (head and tail included)
  // ---------------------------------------------------------------------------

  type Less = (ListElem, ListElem) -> bool

  /** Every member between the sentinels belongs to `dom`. */
  ghost predicate Interior(s: seq<ListElem>, dom: set<ListElem>) {
    forall n | 0 < n < |s| - 1 :: s[n] in dom
  }

  /** Sortedness of s[lo..hi), by position. */
  ghost predicate SortedRange(s: seq<ListElem>, lo: nat, hi: nat, less: Less)
    requires hi <= |s|
  {
    forall i, j | lo <= i < j < hi :: !less(s[j], s[i])
  }

  /** Exclusive end of the nondecreasing run that starts at i, cut off at n. */
  ghost function RunEnd(s: seq<ListElem>, i: nat, n: nat, less: Less): (k: nat)
    requires i < n < |s|
    ensures i < k <= n
    decreases n - i
  {
    if i + 1 == n || less(s[i + 1], s[i]) then i + 1 else RunEnd(s, i + 1, n, less)
  }

  lemma {:induction false} RunEndsAtDescent(s: seq<ListElem>, i: nat, n: nat, less: Less)
    requires i < n < |s|
    ensures var k := RunEnd(s, i, n, less); k < n ==> less(s[k], s[k - 1])
    decreases n - i
  {
    if i + 1 != n && !less(s[i + 1], s[i]) {
      RunEndsAtDescent(s, i + 1, n, less);
    }
  }

  lemma {:induction false} RunIsSorted(s: seq<ListElem>, i: nat, n: nat, dom: set<ListElem>, less: Less)
    requires 0 < i < n < |s| && StrictWeakOrderOn(dom, less) && Interior(s, dom)
    ensures SortedRange(s, i, RunEnd(s, i, n, less), less)
    decreases n - i
  {
    if i + 1 != n && !less(s[i + 1], s[i]) {
      RunIsSorted(s, i + 1, n, dom, less);
      var k := RunEnd(s, i, n, less);
      forall m | i < m < k ensures !less(s[m], s[i]) {
        assert m == i + 1 || !less(s[m], s[i + 1]);
      }
    }
  }

  /** Merge of the ranges i..j and j..hi: while the front of the second is less than
      the front of the first, it jumps over what is left of the first. */
  ghost function Merged(s: seq<ListElem>, i: nat, j: nat, hi: nat, less: Less): (t: seq<ListElem>)
    requires 0 < i <= j <= hi < |s|
    ensures |t| == |s|
    decreases hi - i
  {
    if i == j || j == hi then s
    else if !less(s[j], s[i]) then Merged(s, i + 1, j, hi, less)
    else Merged(Spliced(s, i, j, j + 1), i + 1, j + 1, hi, less)
  }

  lemma MergedUnfold(s: seq<ListElem>, i: nat, j: nat, hi: nat, less: Less)
    requires 0 < i < j < hi < |s|
    ensures !less(s[j], s[i]) ==> Merged(s, i, j, hi, less) == Merged(s, i + 1, j, hi, less)
    ensures less(s[j], s[i]) ==> Merged(s, i, j, hi, less) == Merged(Spliced(s, i, j, j + 1), i + 1, j + 1, hi, less)
  {
  }

  lemma {:induction false} MergedFrame(s: seq<ListElem>, i: nat, j: nat, hi: nat, less: Less)
    requires 0 < i <= j <= hi < |s|
    ensures var t := Merged(s, i, j, hi, less);
            forall n | 0 <= n < i || hi <= n < |s| :: t[n] == s[n]
    decreases hi - i
  {
    if i != j && j != hi {
      if !less(s[j], s[i]) {
        MergedFrame(s, i + 1, j, hi, less);
      } else {
        MergedFrame(Spliced(s, i, j, j + 1), i + 1, j + 1, hi, less);
      }
    }
  }

  /** One pass over the list from position p: merge runs pairwise. */
  ghost function Pass(s: seq<ListElem>, p: nat, less: Less): (t: seq<ListElem>)
    requires 0 < p < |s|
    ensures |t| == |s|
    decreases |s| - p
  {
    if p == |s| - 1 then s
    else
      var mid := RunEnd(s, p, |s| - 1, less);
      if mid == |s| - 1 then s
      else
        var hi := RunEnd(s, mid, |s| - 1, less);
        Pass(Merged(s, p, mid, hi, less), hi, less)
  }

  lemma {:induction false} PassFrame(s: seq<ListElem>, p: nat, less: Less)
    requires 0 < p < |s|
    ensures var t := Pass(s, p, less);
            forall n | 0 <= n < p || n == |s| - 1 :: t[n] == s[n]
    decreases |s| - p
  {
    if p != |s| - 1 {
      var mid := RunEnd(s, p, |s| - 1, less);
      if mid != |s| - 1 {
        var hi := RunEnd(s, mid, |s| - 1, less);
        MergedFrame(s, p, mid, hi, less);
        PassFrame(Merged(s, p, mid, hi, less), hi, less);
      }
    }
  }

  /** Number of runs that pass puts out. */
  ghost function PassRuns(s: seq<ListElem>, p: nat, less: Less): nat
    requires 0 < p < |s|
    decreases |s| - p
  {
    if p == |s| - 1 then 0
    else
      var mid := RunEnd(s, p, |s| - 1, less);
      if mid == |s| - 1 then 1
      else
        var hi := RunEnd(s, mid, |s| - 1, less);
        1 + PassRuns(Merged(s, p, mid, hi, less), hi, less)
  }

  lemma PassUnfold(s: seq<ListElem>, p: nat, mid: nat, hi: nat, less: Less)
    requires 0 < p < mid < |s| - 1 && mid < hi < |s|
    requires mid == RunEnd(s, p, |s| - 1, less) && hi == RunEnd(s, mid, |s| - 1, less)
    ensures Pass(s, p, less) == Pass(Merged(s, p, mid, hi, less), hi, less)
    ensures PassRuns(s, p, less) == 1 + PassRuns(Merged(s, p, mid, hi, less), hi, less)
  {
  }

  /** Position of the first interior member. */
  const FIRST: nat := 1

  // Stability ------------------------------------------------------------------

  ghost function Inner(s: seq<ListElem>): seq<ListElem>
    requires |s| >= 2
  {
    s[1..|s| - 1]
  }

  /** One merge step seen on the contents: the member at j jumps left over
      strictly greater members. */
  lemma SpliceStable(s: seq<ListElem>, i: nat, j: nat, dom: set<ListElem>, less: Less)
    requires 0 < i <= j < |s| - 1
    requires StrictWeakOrderOn(dom, less) && Interior(s, dom)
    requires forall n | i <= n < j :: less(s[j], s[n])
    ensures StablePermutation(Inner(s), Inner(Spliced(s, i, j, j + 1)), less)
    ensures Interior(Spliced(s, i, j, j + 1), dom)
  {
    var p, mid, b, q := s[1..i], s[i..j], s[j], s[j + 1..|s| - 1];
    assert Inner(s) == p + mid + [b] + q;
    assert Inner(Spliced(s, i, j, j + 1)) == p + [b] + mid + q;
    MoveLeftStable(p, mid, b, q, dom, less);
  }

  /** When the second run's front is less than the first run's front, it is less
      than everything left of the first run. */
  lemma FrontBelowRun(s: seq<ListElem>, i: nat, j: nat, dom: set<ListElem>, less: Less)
    requires 0 < i < j < |s| - 1
    requires StrictWeakOrderOn(dom, less) && Interior(s, dom)
    requires SortedRange(s, i, j, less) && less(s[j], s[i])
    ensures forall n | i <= n < j :: less(s[j], s[n]) && !less(s[n], s[j])
  {
    forall n | i <= n < j ensures less(s[j], s[n]) && !less(s[n], s[j]) {
      assert n == i || !less(s[n], s[i]);
      assert !less(s[j], s[j]);
      assert s[n] in dom;
    }
  }

  lemma {:induction false} MergeStable(s: seq<ListElem>, i: nat, j: nat, hi: nat, dom: set<ListElem>, less: Less)
    requires 0 < i <= j <= hi < |s|
    requires StrictWeakOrderOn(dom, less) && Interior(s, dom)
    requires SortedRange(s, i, j, less)
    ensures StablePermutation(Inner(s), Inner(Merged(s, i, j, hi, less)), less)
    ensures Interior(Merged(s, i, j, hi, less), dom)
    decreases hi - i
  {
    if i != j && j != hi {
      if !less(s[j], s[i]) {
        MergeStable(s, i + 1, j, hi, dom, less);
      } else {
        var t := Spliced(s, i, j, j + 1);
        FrontBelowRun(s, i, j, dom, less);
        SpliceStable(s, i, j, dom, less);
        assert SortedRange(t, i + 1, j + 1, less);
        MergeStable(t, i + 1, j + 1, hi, dom, less);
        StableTransitive(Inner(s), Inner(t), Inner(Merged(s, i, j, hi, less)), less);
      }
    }
  }

  // Sortedness -----------------------------------------------------------------

  /** State of a merge of lo..mid with mid..hi after some steps: lo..i is final,
      i..j is what is left of the first run and j..hi what is left of the second. */
  ghost predicate Merging(s: seq<ListElem>, lo: nat, i: nat, j: nat, hi: nat, less: Less) {
    && 0 < lo <= i <= j <= hi < |s|
    && SortedRange(s, lo, j, less)
    && SortedRange(s, j, hi, less)
    && (forall m, n | lo <= m < i && j <= n < hi :: !less(s[n], s[m]))
  }

  lemma MergingKeepsFirst(s: seq<ListElem>, lo: nat, i: nat, j: nat, hi: nat, dom: set<ListElem>, less: Less)
    requires Merging(s, lo, i, j, hi, less) && i < j < hi
    requires StrictWeakOrderOn(dom, less) && Interior(s, dom)
    requires !less(s[j], s[i])
    ensures Merging(s, lo, i + 1, j, hi, less)
  {
    forall n | j <= n < hi ensures !less(s[n], s[i]) {
      assert n == j || !less(s[n], s[j]);
    }
  }

  lemma MergingTakesSecond(s: seq<ListElem>, lo: nat, i: nat, j: nat, hi: nat, dom: set<ListElem>, less: Less)
    requires Merging(s, lo, i, j, hi, less) && i < j < hi
    requires StrictWeakOrderOn(dom, less) && Interior(s, dom)
    requires less(s[j], s[i])
    ensures Merging(Spliced(s, i, j, j + 1), lo, i + 1, j + 1, hi, less)
  {
    FrontBelowRun(s, i, j, dom, less);
    var t := Spliced(s, i, j, j + 1);
    forall m, n | lo <= m < n < j + 1 ensures !less(t[n], t[m]) {
      if m < i && n > i {
        assert t[m] == s[m] && t[n] == s[n - 1];
      } else if m > i {
        assert t[m] == s[m - 1] && t[n] == s[n - 1];
      }
    }
    forall m, n | lo <= m < i + 1 && j + 1 <= n < hi ensures !less(t[n], t[m]) {
      assert t[n] == s[n];
    }
  }

  lemma {:induction false} MergeSorted(s: seq<ListElem>, lo: nat, i: nat, j: nat, hi: nat, dom: set<ListElem>,
                                       less: Less)
    requires Merging(s, lo, i, j, hi, less)
    requires StrictWeakOrderOn(dom, less) && Interior(s, dom)
    ensures SortedRange(Merged(s, i, j, hi, less), lo, hi, less)
    decreases hi - i
  {
    if i != j && j != hi {
      if !less(s[j], s[i]) {
        MergingKeepsFirst(s, lo, i, j, hi, dom, less);
        MergeSorted(s, lo, i + 1, j, hi, dom, less);
      } else {
        MergingTakesSecond(s, lo, i, j, hi, dom, less);
        FrontBelowRun(s, i, j, dom, less);
        SpliceStable(s, i, j, dom, less);
        MergeSorted(Spliced(s, i, j, j + 1), lo, i + 1, j + 1, hi, dom, less);
      }
    }
  }

  // Whole passes ---------------------------------------------------------------

  /** A pass keeps the contents, up to stable rearrangement. */
  lemma {:induction false} PassStable(s: seq<ListElem>, p: nat, dom: set<ListElem>, less: Less)
    requires 0 < p < |s| && StrictWeakOrderOn(dom, less) && Interior(s, dom)
    ensures Interior(Pass(s, p, less), dom)
    ensures StablePermutation(Inner(s), Inner(Pass(s, p, less)), less)
    decreases |s| - p
  {
    if p != |s| - 1 {
      var mid := RunEnd(s, p, |s| - 1, less);
      if mid != |s| - 1 {
        var hi := RunEnd(s, mid, |s| - 1, less);
        RunIsSorted(s, p, |s| - 1, dom, less);
        MergeStable(s, p, mid, hi, dom, less);
        var t := Merged(s, p, mid, hi, less);
        PassStable(t, hi, dom, less);
        StableTransitive(Inner(s), Inner(t), Inner(Pass(s, p, less)), less);
      }
    }
  }

  /** Number of places in s[lo..hi) where an element is less than its predecessor,
      that is, where a maximal nondecreasing run starts. */
  ghost function Descents(s: seq<ListElem>, lo: nat, hi: nat, less: Less): nat
    requires 0 < lo && hi <= |s|
    decreases hi - lo
  {
    if lo >= hi then 0
    else (if less(s[lo], s[lo - 1]) then 1 else 0) + Descents(s, lo + 1, hi, less)
  }

  lemma {:induction false} DescentsSplit(s: seq<ListElem>, lo: nat, mid: nat, hi: nat, less: Less)
    requires 0 < lo <= mid <= hi <= |s|
    ensures Descents(s, lo, hi, less) == Descents(s, lo, mid, less) + Descents(s, mid, hi, less)
    decreases mid - lo
  {
    if lo < mid {
      DescentsSplit(s, lo + 1, mid, hi, less);
    }
  }

  lemma {:induction false} DescentsSame(s: seq<ListElem>, t: seq<ListElem>, lo: nat, hi: nat, less: Less)
    requires 0 < lo && hi <= |s| && hi <= |t|
    requires forall i | lo - 1 <= i < hi :: s[i] == t[i]
    ensures Descents(s, lo, hi, less) == Descents(t, lo, hi, less)
    decreases hi - lo
  {
    if lo < hi {
      DescentsSame(s, t, lo + 1, hi, less);
    }
  }

  lemma {:induction false} SortedHasNoDescents(s: seq<ListElem>, lo: nat, hi: nat, less: Less)
    requires 0 < lo && hi <= |s|
    requires SortedRange(s, lo - 1, hi, less)
    ensures Descents(s, lo, hi, less) == 0
    decreases hi - lo
  {
    if lo < hi {
      SortedHasNoDescents(s, lo + 1, hi, less);
    }
  }

  lemma {:induction false} NoDescentsSorted(s: seq<ListElem>, lo: nat, hi: nat, dom: set<ListElem>, less: Less)
    requires 1 < lo && hi < |s|
    requires StrictWeakOrderOn(dom, less) && Interior(s, dom)
    requires Descents(s, lo, hi, less) == 0
    ensures SortedRange(s, lo - 1, hi, less)
    decreases hi - lo
  {
    if lo < hi {
      NoDescentsSorted(s, lo + 1, hi, dom, less);
      forall n | lo <= n < hi ensures !less(s[n], s[lo - 1]) {
        assert n == lo || !less(s[n], s[lo]);
      }
    }
  }

  lemma DescentsAfter(t: seq<ListElem>, u: seq<ListElem>, p: nat, hi: nat, less: Less)
    requires 0 < p < hi < |t| == |u| && SortedRange(t, p, hi, less)
    requires forall i | 0 <= i < hi :: u[i] == t[i]
    ensures hi == |t| - 1 ==> Descents(u, p + 1, |t| - 1, less) == 0
    ensures hi < |t| - 1 ==> Descents(u, p + 1, |t| - 1, less) <= 1 + Descents(u, hi + 1, |t| - 1, less)
  {
    DescentsSame(t, u, p + 1, hi, less);
    SortedHasNoDescents(t, p + 1, hi, less);
    DescentsSplit(u, p + 1, hi, |t| - 1, less);
  }

  /** A pass that puts out r runs leaves at most r - 1 descents behind. */
  lemma {:induction false} PassLeavesDescents(s: seq<ListElem>, p: nat, dom: set<ListElem>, less: Less)
    requires 0 < p < |s| - 1 && StrictWeakOrderOn(dom, less) && Interior(s, dom)
    ensures PassRuns(s, p, less) >= 1
    ensures Descents(Pass(s, p, less), p + 1, |s| - 1, less) <= PassRuns(s, p, less) - 1
    decreases |s| - p
  {
    var n := |s| - 1;
    var mid := RunEnd(s, p, n, less);
    RunIsSorted(s, p, n, dom, less);
    if mid == n {
      SortedHasNoDescents(s, p + 1, n, less);
    } else {
      var hi := RunEnd(s, mid, n, less);
      RunIsSorted(s, mid, n, dom, less);
      MergeStable(s, p, mid, hi, dom, less);
      MergeSorted(s, p, p, mid, hi, dom, less);
      var t := Merged(s, p, mid, hi, less);
      PassFrame(t, hi, less);
      DescentsAfter(t, Pass(t, hi, less), p, hi, less);
      if hi < n {
        PassLeavesDescents(t, hi, dom, less);
      }
    }
  }

  lemma DescentsBefore(s: seq<ListElem>, t: seq<ListElem>, p: nat, mid: nat, hi: nat, less: Less)
    requires 0 < p < mid < hi < |s| == |t| && less(s[mid], s[mid - 1])
    requires forall i | hi <= i < |s| :: s[i] == t[i]
    requires hi < |s| - 1 ==> less(s[hi], s[hi - 1])
    ensures hi == |s| - 1 ==> Descents(s, p + 1, |s| - 1, less) >= 1
    ensures hi < |s| - 1 ==> Descents(s, p + 1, |s| - 1, less) >= 2 + Descents(t, hi + 1, |s| - 1, less)
  {
    var n := |s| - 1;
    DescentsSplit(s, p + 1, mid, n, less);
    if hi < n {
      DescentsSplit(s, mid + 1, hi, n, less);
      DescentsSame(s, t, hi + 1, n, less);
    }
  }

  /** The two runs of one merge cost two descents, unless they are the last. */
  lemma PairDescents(s: seq<ListElem>, p: nat, mid: nat, hi: nat, n: nat, less: Less)
    requires 0 < p < mid < hi < n == |s| - 1
    requires mid == RunEnd(s, p, n, less) && hi == RunEnd(s, mid, n, less)
    ensures Descents(s, p + 1, n, less) >= 2 + Descents(Merged(s, p, mid, hi, less), hi + 1, n, less)
  {
    RunEndsAtDescent(s, p, n, less);
    RunEndsAtDescent(s, mid, n, less);
    var t := Merged(s, p, mid, hi, less);
    MergedFrame(s, p, mid, hi, less);
    DescentsBefore(s, t, p, mid, hi, less);
  }

  /** A pass that puts out r runs found at least 2r - 2 descents. */
  lemma {:induction false} PassConsumesDescents(s: seq<ListElem>, p: nat, n: nat, less: Less)
    requires 0 < p < n == |s| - 1
    ensures Descents(s, p + 1, n, less) >= 2 * (PassRuns(s, p, less) - 1)
    decreases n - p
  {
    var mid := RunEnd(s, p, n, less);
    if mid == n {
      assert PassRuns(s, p, less) == 1;
    } else {
      var hi := RunEnd(s, mid, n, less);
      var t := Merged(s, p, mid, hi, less);
      PassUnfold(s, p, mid, hi, less);
      if hi < n {
        PassConsumesDescents(t, hi, n, less);
        PairDescents(s, p, mid, hi, n, less);
      } else {
        assert PassRuns(t, hi, less) == 0;
      }
    }
  }

  /** A whole pass: either it was the last one and the result is sorted, or the
      number of descents went down. */
  lemma PassProgress(s: seq<ListElem>, p: nat, dom: set<ListElem>, less: Less)
    requires 0 < p < |s| && StrictWeakOrderOn(dom, less) && Interior(s, dom)
    ensures PassRuns(s, p, less) <= 1 ==> SortedRange(Pass(s, p, less), p, |s| - 1, less)
    ensures PassRuns(s, p, less) > 1 ==>
              Descents(Pass(s, p, less), p + 1, |s| - 1, less) < Descents(s, p + 1, |s| - 1, less)
  {
    if p < |s| - 1 {
      PassStable(s, p, dom, less);
      PassLeavesDescents(s, p, dom, less);
      PassConsumesDescents(s, p, |s| - 1, less);
      if PassRuns(s, p, less) <= 1 {
        NoDescentsSorted(Pass(s, p, less), p + 1, |s| - 1, dom, less);
      }
    }
  }

  class List {
    const head: ListElem
    const tail: ListElem
    ghost var nodes: seq<ListElem>
    ghost var repr: set<ListElem>

    ghost predicate Valid()
      reads this, repr
    {
      && (forall n | 0 <= n < |nodes| :: nodes[n] in repr)
      && |nodes| >= 2
      && nodes[0] == head && nodes[|nodes| - 1] == tail
      && head.prev == null && tail.next == null
      && Distinct(nodes)
      && Linked(nodes)
    }

    /** The interior elements, front to back. */
    ghost function Contents(): seq<ListElem>
      requires |nodes| >= 2
      reads this
    {
      Inner(nodes)
    }

    constructor ()
      ensures Valid() && Contents() == [] && fresh(repr)
    {
      var h := new ListElem();
      var t := new ListElem();
      h.next := t;
      t.prev := h;
      head, tail := h, t;
      nodes, repr := [h, t], {h, t};
    }

    /** list_insert: puts ELEM just before BEFORE, the member at position k. */
    method Insert(before: ListElem, elem: ListElem, ghost k: nat)
      requires Valid() && 0 < k < |nodes| && nodes[k] == before
      requires elem !in nodes
      modifies this, repr, elem
      ensures Valid() && nodes == old(nodes)[..k] + [elem] + old(nodes)[k..]
      ensures repr == old(repr) + {elem}
    {
      elem.prev := before.prev;
      elem.next := before;
      before.prev.next := elem;
      before.prev := elem;
      nodes, repr := nodes[..k] + [elem] + nodes[k..], repr + {elem};
    }

    /** list_remove: unlinks ELEM, the member at position k, and returns its successor. */
    method Remove(elem: ListElem, ghost k: nat) returns (next: ListElem)
      requires Valid() && 0 < k < |nodes| - 1 && nodes[k] == elem
      modifies this, repr
      ensures Valid() && nodes == old(nodes)[..k] + old(nodes)[k + 1..]
      ensures next == old(nodes)[k + 1]
    {
      elem.prev.next := elem.next;
      elem.next.prev := elem.prev;
      next := elem.next;
      nodes := nodes[..k] + nodes[k + 1..];
    }

    /** list_splice within one list: the members at positions j..k move, in order,
        to just before the earlier position i. */
    method Splice(before: ListElem, first: ListElem, last: ListElem, ghost i: nat, ghost j: nat, ghost k: nat)
      requires Valid() && 0 < i < j <= k < |nodes|
      requires nodes[i] == before && nodes[j] == first && nodes[k] == last
      modifies this`nodes, repr
      ensures Valid()
      ensures nodes == Spliced(old(nodes), i, j, k)
    {
      ghost var s, t := nodes, Spliced(nodes, i, j, k);
      if first == last {
        assert j == k && t == s;
        return;
      }
      Rewire(before, first, last, s, i, j, k);
      SplicedDistinct(s, i, j, k);
      SplicedMembers(s, t, i, j, k, repr);
      nodes := t;
    }

    method SwapLinks(ghost s: seq<ListElem>)
      requires Valid() && s == nodes && |s| > 2
      modifies repr
      ensures head.next == s[1] && tail.prev == s[|s| - 2] && head.prev == tail.next == null
      ensures forall n {:trigger s[n].next} | 0 < n < |s| - 1 :: s[n].next == s[n - 1]
      ensures forall n {:trigger s[n].prev} | 0 < n < |s| - 1 :: s[n].prev == s[n + 1]
    {
      ghost var last := |s| - 1;
      var e := head.next;
      ghost var k := 1;
      while e != tail
        invariant 0 < k <= last && e == s[k]
        invariant head.next == s[1] && tail.prev == s[last - 1] && head.prev == tail.next == null
        invariant forall n {:trigger s[n].next} | 0 < n < k :: s[n].next == s[n - 1]
        invariant forall n {:trigger s[n].prev} | 0 < n < k :: s[n].prev == s[n + 1]
        invariant forall n {:trigger s[n].next} | k <= n < last :: s[n].next == s[n + 1]
        invariant forall n {:trigger s[n].prev} | k <= n < last :: s[n].prev == s[n - 1]
        decreases last - k
      {
        e.prev, e.next := e.next, e.prev;
        e := e.prev;
        k := k + 1;
      }
    }

    /** list_reverse: swaps the two links of every element, then re-attaches the
        sentinels. */
    method Reverse()
      requires Valid()
      modifies this`nodes, repr
      ensures Valid() && nodes == Reversed(old(nodes))
    {
      if head.next != tail {
        ghost var s := nodes;
        SwapLinks(s);
        head.next, tail.prev := tail.prev, head.next;
        var front, back := head.next, tail.prev;
        front.prev, back.next := back.next, front.prev;
        assert Turned(s);
        TurnedLinked(s);
        nodes := Reversed(s);
      }
    }

    /** find_end_of_run */
    method FindEndOfRun(a: ListElem, b: ListElem, less: Less, ghost i: nat, ghost n: nat)
      returns (end: ListElem, ghost k: nat)
      requires Valid() && 0 < i < n < |nodes| && nodes[i] == a && nodes[n] == b
      ensures i < k <= n && nodes[k] == end && (end == b <==> k == n)
      ensures k == RunEnd(nodes, i, n, less)
    {
      end, k := a.next, i + 1;
      while end != b && !less(end, end.prev)
        invariant i < k <= n && nodes[k] == end
        invariant RunEnd(nodes, i, n, less) == RunEnd(nodes, k - 1, n, less)
        decreases n - k
      {
        end, k := end.next, k + 1;
      }
    }

    /** One turn of inplace_merge's loop. */
    method MergeStep(a: ListElem, b: ListElem, last: ListElem, less: Less, ghost i: nat, ghost j: nat, ghost hi: nat)
      returns (a': ListElem, b': ListElem, ghost i': nat, ghost j': nat)
      requires Valid() && 0 < i < j < hi < |nodes| && nodes[i] == a && nodes[j] == b && nodes[hi] == last
      modifies this`nodes, repr
      ensures Valid() && |nodes| == |old(nodes)| && i' == i + 1 && i' <= j' <= hi
      ensures nodes[i'] == a' && nodes[j'] == b' && nodes[hi] == last
      ensures Merged(nodes, i', j', hi, less) == Merged(old(nodes), i, j, hi, less)
    {
      MergedUnfold(nodes, i, j, hi, less);
      a', b', i', j' := a, b, i + 1, j;
      if !less(b, a) {
        a' := a.next;
      } else {
        b', j' := b.next, j + 1;
        Splice(a, b'.prev, b', i, j, j + 1);
      }
    }

    /** inplace_merge */
    method InplaceMerge(first: ListElem, second: ListElem, last: ListElem, less: Less,
                        ghost lo: nat, ghost mid: nat, ghost hi: nat)
      requires Valid() && 0 < lo <= mid <= hi < |nodes|
      requires nodes[lo] == first && nodes[mid] == second && nodes[hi] == last
      modifies this`nodes, repr
      ensures Valid() && nodes == Merged(old(nodes), lo, mid, hi, less)
    {
      var a, b := first, second;
      ghost var i, j := lo, mid;
      while a != b && b != last
        invariant Valid() && |nodes| == |old(nodes)|
        invariant lo <= i <= j <= hi && nodes[i] == a && nodes[j] == b && nodes[hi] == last
        invariant Merged(nodes, i, j, hi, less) == Merged(old(nodes), lo, mid, hi, less)
        decreases hi - i
      {
        a, b, i, j := MergeStep(a, b, last, less, i, j, hi);
      }
    }

    /** One turn of the do-loop's inner loop: two runs are merged, or the last one is left. */
    method MergePair(a: ListElem, less: Less, ghost p: nat) returns (last: ListElem, ghost hi: nat)
      requires Valid() && 0 < p < |nodes| - 1 && nodes[p] == a
      modifies this`nodes, repr
      ensures Valid() && |nodes| == |old(nodes)| && p < hi < |nodes| && nodes[hi] == last
      ensures Pass(nodes, hi, less) == Pass(old(nodes), p, less)
      ensures 1 + PassRuns(nodes, hi, less) == PassRuns(old(nodes), p, less)
    {
      ghost var s, mid := nodes, 0;
      var second;
      second, mid := FindEndOfRun(a, tail, less, p, |nodes| - 1);
      if second == tail {
        return second, mid;
      }
      last, hi := FindEndOfRun(second, tail, less, mid, |nodes| - 1);
      PassUnfold(s, p, mid, hi, less);
      MergedFrame(s, p, mid, hi, less);
      InplaceMerge(a, second, last, less, p, mid, hi);
    }

    /** One execution of list_sort's do-loop body. */
    method SortPass(less: Less) returns (runs: nat)
      requires Valid()
      modifies this`nodes, repr
      ensures Valid() && nodes == Pass(old(nodes), FIRST, less) && runs == PassRuns(old(nodes), FIRST, less)
    {
      runs := 0;
      var a := head.next;
      ghost var p := FIRST;
      while a != tail
        invariant Valid() && |nodes| == |old(nodes)|
        invariant 0 < p < |nodes| && nodes[p] == a
        invariant Pass(nodes, p, less) == Pass(old(nodes), FIRST, less)
        invariant runs + PassRuns(nodes, p, less) == PassRuns(old(nodes), FIRST, less)
        decreases |nodes| - p
      {
        a, p := MergePair(a, less, p);
        runs := runs + 1;
      }
    }

    /** list_sort: repeats passes until one puts out at most one run. */
    method Sort(less: Less, ghost dom: set<ListElem>)
      requires Valid() && StrictWeakOrderOn(dom, less) && Interior(nodes, dom)
      modifies this`nodes, repr
      ensures Valid()
      ensures Sorted(Contents(), less)
      ensures StablePermutation(old(Contents()), Contents(), less)
      ensures Contents() == StableSort(old(Contents()), less)
    {
      var runs := 2;
      while runs > 1
        invariant Valid() && Interior(nodes, dom)
        invariant runs <= 1 ==> Sorted(Contents(), less)
        invariant StablePermutation(old(Contents()), Contents(), less)
        decreases runs > 1, Descents(nodes, FIRST + 1, |nodes| - 1, less)
      {
        PassStable(nodes, FIRST, dom, less);
        PassProgress(nodes, FIRST, dom, less);
        StableTransitive(old(Contents()), Contents(), Inner(Pass(nodes, FIRST, less)), less);
        runs := SortPass(less);
      }
      SortedStableIsStableSort(old(Contents()), Contents(), dom, less);
    }
  }
}
