/** Sorting vocabulary shared by the kernel list, the wait queues and the
    scheduler: strict weak orders given by a C-style `less` callback, sortedness,
    and stability.

    Stability is stated through equivalence classes.  Class(s, x, less) is the
    subsequence of `s` that is equivalent to `x`; a rearrangement is stable when it
    leaves every such subsequence untouched. */
module StableOrder {
  ghost predicate StrictWeakOrderOn<A>(dom: set<A>, less: (A, A) -> bool) {
    && (forall x | x in dom :: !less(x, x))
    && (forall x, y, z {:trigger less(x, y), less(y, z)} | x in dom && y in dom && z in dom ::
          less(x, y) && less(y, z) ==> less(x, z))
    && (forall x, y, z {:trigger less(x, y), less(y, z)} | x in dom && y in dom && z in dom ::
          !less(x, y) && !less(y, z) ==> !less(x, z))
  }

  predicate Equivalent<A>(less: (A, A) -> bool, x: A, y: A) {
    !less(x, y) && !less(y, x)
  }

  /** Nondecreasing: no later element is strictly less than an earlier one. */
  ghost predicate Sorted<A>(s: seq<A>, less: (A, A) -> bool) {
    forall i, j | 0 <= i < j < |s| :: !less(s[j], s[i])
  }

  ghost function Class<A>(s: seq<A>, x: A, less: (A, A) -> bool): seq<A> {
    if s == [] then []
    else (if Equivalent(less, s[0], x) then [s[0]] else []) + Class(s[1..], x, less)
  }

  /** `t` is a rearrangement of `s` that keeps equivalent elements in order. */
  ghost predicate StablePermutation<A>(s: seq<A>, t: seq<A>, less: (A, A) -> bool) {
    && multiset(s) == multiset(t)
    && forall x | x in s :: Class(s, x, less) == Class(t, x, less)
  }

  lemma {:induction false} ClassConcat<A>(s: seq<A>, t: seq<A>, x: A, less: (A, A) -> bool)
    ensures Class(s + t, x, less) == Class(s, x, less) + Class(t, x, less)
  {
    if s == [] {
      assert s + t == t;
    } else {
      assert (s + t)[1..] == s[1..] + t && (s + t)[0] == s[0];
      ClassConcat(s[1..], t, x, less);
      var h, a, b := if Equivalent(less, s[0], x) then [s[0]] else [], Class(s[1..], x, less), Class(t, x, less);
      assert h + (a + b) == (h + a) + b;
    }
  }

  lemma {:induction false} ClassEmpty<A>(s: seq<A>, x: A, less: (A, A) -> bool)
    requires forall y | y in s :: !Equivalent(less, y, x)
    ensures Class(s, x, less) == []
  {
    if s != [] {
      ClassEmpty(s[1..], x, less);
    }
  }

  lemma StableTransitive<A>(s: seq<A>, t: seq<A>, u: seq<A>, less: (A, A) -> bool)
    requires StablePermutation(s, t, less) && StablePermutation(t, u, less)
    ensures StablePermutation(s, u, less)
  {
    forall x | x in s ensures Class(s, x, less) == Class(u, x, less) {
      assert x in multiset(s);
      assert x in t;
    }
  }

  lemma SwapClasses<A>(p: seq<A>, mid: seq<A>, b: A, q: seq<A>, x: A, less: (A, A) -> bool)
    requires forall y | y in mid && Equivalent(less, b, x) :: !Equivalent(less, y, x)
    ensures Class(p + mid + [b] + q, x, less) == Class(p + [b] + mid + q, x, less)
  {
    ClassConcat(p + mid + [b], q, x, less);
    ClassConcat(p + mid, [b], x, less);
    ClassConcat(p, mid, x, less);
    ClassConcat(p + [b] + mid, q, x, less);
    ClassConcat(p + [b], mid, x, less);
    ClassConcat(p, [b], x, less);
    if Equivalent(less, b, x) {
      ClassEmpty(mid, x, less);
    } else {
      ClassEmpty([b], x, less);
    }
  }

  /** Moving `b` to the left past elements that are all strictly greater keeps
      every equivalence class in order: the step of a stable merge. */
  lemma MoveLeftStable<A>(p: seq<A>, mid: seq<A>, b: A, q: seq<A>, dom: set<A>, less: (A, A) -> bool)
    requires StrictWeakOrderOn(dom, less) && forall x | x in p + mid + [b] + q :: x in dom
    requires forall y | y in mid :: less(b, y)
    ensures StablePermutation(p + mid + [b] + q, p + [b] + mid + q, less)
  {
    var s, t := p + mid + [b] + q, p + [b] + mid + q;
    forall x | x in s ensures Class(s, x, less) == Class(t, x, less) {
      assert x in dom && b in s;
      forall y | y in mid && Equivalent(less, b, x) ensures !Equivalent(less, y, x) {
        assert y in s && less(b, y);
      }
      SwapClasses(p, mid, b, q, x, less);
    }
  }

  /** The least elements of two sorted stable rearrangements coincide. */
  lemma SameHead<A>(s: seq<A>, t: seq<A>, less: (A, A) -> bool)
    requires s != [] && t != []
    requires Sorted(s, less) && Sorted(t, less)
    requires StablePermutation(s, t, less)
    requires !less(s[0], s[0])
    ensures s[0] == t[0]
  {
    assert s[0] in multiset(t) && t[0] in multiset(s);
    var i :| 0 <= i < |t| && t[i] == s[0];
    var j :| 0 <= j < |s| && s[j] == t[0];
    assert Equivalent(less, t[0], s[0]);
    assert Class(s, s[0], less)[0] == s[0];
    assert Class(t, s[0], less)[0] == t[0];
  }

  lemma SameTails<A>(s: seq<A>, t: seq<A>, less: (A, A) -> bool)
    requires s != [] && t != [] && s[0] == t[0]
    requires StablePermutation(s, t, less)
    ensures StablePermutation(s[1..], t[1..], less)
  {
    assert s == [s[0]] + s[1..] && t == [t[0]] + t[1..];
    assert multiset(s[1..]) == multiset(s) - multiset{s[0]} == multiset(t[1..]);
    forall x | x in s[1..] ensures Class(s[1..], x, less) == Class(t[1..], x, less) {
      assert x in s;
      var h := if Equivalent(less, s[0], x) then [s[0]] else [];
      assert Class(s, x, less)[|h|..] == Class(s[1..], x, less);
      assert Class(t, x, less)[|h|..] == Class(t[1..], x, less);
    }
  }

  /** Two sorted stable rearrangements of the same sequence are equal: "sorted and
      stable" determines the result of a sort completely. */
  lemma {:induction false} SortedStableUnique<A>(s: seq<A>, t: seq<A>, less: (A, A) -> bool)
    requires forall x | x in s :: !less(x, x)
    requires Sorted(s, less) && Sorted(t, less)
    requires StablePermutation(s, t, less)
    ensures s == t
  {
    assert |multiset(s)| == |s| && |multiset(t)| == |t|;
    if s != [] {
      SameHead(s, t, less);
      SameTails(s, t, less);
      SortedStableUnique(s[1..], t[1..], less);
      assert s == [s[0]] + s[1..] && t == [t[0]] + t[1..];
    }
  }

  // ---------------------------------------------------------------------------
  // The stable sort as a function
  // ---------------------------------------------------------------------------

  /** Puts x in front of the first element that is strictly greater or equivalent. */
  function InsertFront<A>(x: A, s: seq<A>, less: (A, A) -> bool): seq<A> {
    if s == [] || !less(s[0], x) then [x] + s else [s[0]] + InsertFront(x, s[1..], less)
  }

  function StableSort<A>(s: seq<A>, less: (A, A) -> bool): seq<A> {
    if s == [] then [] else InsertFront(s[0], StableSort(s[1..], less), less)
  }

  lemma {:induction false} InsertFrontClass<A>(x: A, s: seq<A>, y: A, dom: set<A>, less: (A, A) -> bool)
    requires StrictWeakOrderOn(dom, less) && x in dom && y in dom && forall z | z in s :: z in dom
    ensures Class(InsertFront(x, s, less), y, less) == Class([x] + s, y, less)
  {
    assert ([x] + s)[1..] == s;
    if s != [] && less(s[0], x) {
      InsertFrontClass(x, s[1..], y, dom, less);
      var r := InsertFront(x, s[1..], less);
      assert ([s[0]] + r)[1..] == r && ([x] + s[1..])[1..] == s[1..];
      var hx := if Equivalent(less, x, y) then [x] else [];
      var h0 := if Equivalent(less, s[0], y) then [s[0]] else [];
      assert hx == [] || h0 == [];
      assert Class([x] + s, y, less) == hx + (h0 + Class(s[1..], y, less));
      assert Class([s[0]] + r, y, less) == h0 + (hx + Class(s[1..], y, less));
    }
  }

  lemma {:induction false} InsertFrontMultiset<A>(x: A, s: seq<A>, less: (A, A) -> bool)
    ensures multiset(InsertFront(x, s, less)) == multiset{x} + multiset(s)
  {
    if s != [] && less(s[0], x) {
      InsertFrontMultiset(x, s[1..], less);
      assert s == [s[0]] + s[1..];
    }
  }

  lemma {:induction false} InsertFrontSorted<A>(x: A, s: seq<A>, dom: set<A>, less: (A, A) -> bool)
    requires StrictWeakOrderOn(dom, less) && x in dom && forall z | z in s :: z in dom
    requires Sorted(s, less)
    ensures Sorted(InsertFront(x, s, less), less)
  {
    var t := InsertFront(x, s, less);
    if s != [] && less(s[0], x) {
      var r := InsertFront(x, s[1..], less);
      InsertFrontSorted(x, s[1..], dom, less);
      InsertFrontMultiset(x, s[1..], less);
      forall j | 0 < j < |t| ensures !less(t[j], t[0]) {
        assert t[j] == r[j - 1] && r[j - 1] in multiset(r);
        assert t[j] == x || t[j] in s[1..];
        if t[j] == x {
          assert !less(s[0], s[0]);
        }
      }
      assert forall i, j | 0 < i < j < |t| :: t[i] == r[i - 1] && t[j] == r[j - 1];
    } else {
      forall j | 0 < j < |t| ensures !less(t[j], x) {
        assert t[j] == s[j - 1];
        assert j == 1 || !less(s[j - 1], s[0]);
      }
    }
  }

  lemma {:induction false} SortClass<A>(s: seq<A>, y: A, dom: set<A>, less: (A, A) -> bool)
    requires StrictWeakOrderOn(dom, less) && y in dom && forall z | z in s :: z in dom
    ensures Class(s, y, less) == Class(StableSort(s, less), y, less)
    ensures multiset(StableSort(s, less)) == multiset(s)
  {
    if s != [] {
      var r := StableSort(s[1..], less);
      SortClass(s[1..], y, dom, less);
      assert forall z | z in r :: z in multiset(r);
      InsertFrontClass(s[0], r, y, dom, less);
      InsertFrontMultiset(s[0], r, less);
      assert s == [s[0]] + s[1..] && ([s[0]] + r)[1..] == r;
    }
  }

  /** StableSort sorts and is stable; with SortedStableUnique, it is what every sorted
      stable rearrangement is equal to. */
  lemma {:induction false} StableSortCorrect<A>(s: seq<A>, dom: set<A>, less: (A, A) -> bool)
    requires StrictWeakOrderOn(dom, less) && forall z | z in s :: z in dom
    ensures Sorted(StableSort(s, less), less)
    ensures StablePermutation(s, StableSort(s, less), less)
  {
    if s != [] {
      var r := StableSort(s[1..], less);
      StableSortCorrect(s[1..], dom, less);
      assert forall z | z in r :: z in multiset(r);
      InsertFrontSorted(s[0], r, dom, less);
      InsertFrontMultiset(s[0], r, less);
      assert s == [s[0]] + s[1..];
      forall x | x in s ensures Class(s, x, less) == Class(StableSort(s, less), x, less) {
        InsertFrontClass(s[0], r, x, dom, less);
        assert ([s[0]] + r)[1..] == r;
        if x !in s[1..] {
          SortClass(s[1..], x, dom, less);
        }
      }
    }
  }

  /** Every sorted stable rearrangement is the one StableSort computes. */
  lemma SortedStableIsStableSort<A>(s: seq<A>, t: seq<A>, dom: set<A>, less: (A, A) -> bool)
    requires StrictWeakOrderOn(dom, less) && forall z | z in s :: z in dom
    requires Sorted(t, less) && StablePermutation(s, t, less)
    ensures t == StableSort(s, less)
  {
    var u := StableSort(s, less);
    StableSortCorrect(s, dom, less);
    assert forall x | x in u :: x in multiset(u);
    SortedStableUnique(u, t, less);
  }
}
