/** The chained hash table (lib/kernel/hash.c) as a set keyed by the equality that the
    comparison function induces. */
module HashTable {
  import opened Storage
  import opened Sequences
  import opened Bits

  // Bucket counts ---------------------------------------------------------------------

  /** turn_off_least_1bit */
  function LeastOff(x: nat): nat
    requires x > 0
  {
    And(x, x - 1)
  }

  /** is_power_of_2 */
  predicate IsPowerOf2(x: nat) {
    x != 0 && LeastOff(x) == 0
  }

  /** The largest power of two that does not exceed x. */
  function Largest(x: nat): (p: nat)
    requires x > 0
    ensures p > 0
  {
    if x == 1 then 1 else 2 * Largest(x / 2)
  }

  function Log2(x: nat): nat
    requires x > 0
  {
    if x == 1 then 0 else 1 + Log2(x / 2)
  }

  lemma {:induction false} LargestMeaning(x: nat)
    requires x > 0
    ensures Largest(x) == Pow2(Log2(x)) && Largest(x) <= x < 2 * Largest(x)
  {
    if x > 1 {
      LargestMeaning(x / 2);
    }
  }

  lemma {:induction false} LeastOffHalves(x: nat)
    requires x > 0
    ensures LeastOff(x) == if x % 2 == 1 then x - 1 else 2 * LeastOff(x / 2)
  {
    if x % 2 == 1 {
      AndSelf(x / 2);
      if x > 1 {
        assert (x - 1) / 2 == x / 2;
      }
    } else {
      assert (x - 1) / 2 == x / 2 - 1;
    }
  }

  /** Turning bits off one by one ends at the largest power of two. */
  lemma {:induction false} LeastOffLargest(x: nat)
    requires x > 0
    ensures LeastOff(x) < x
    ensures LeastOff(x) == 0 <==> x == Largest(x)
    ensures LeastOff(x) > 0 ==> Largest(LeastOff(x)) == Largest(x)
  {
    LeastOffHalves(x);
    if x > 1 {
      LeastOffLargest(x / 2);
      LargestMeaning(x);
      LargestMeaning(x / 2);
    }
  }

  lemma LargestAtLeastFour(m: nat)
    requires m >= 4
    ensures Largest(m) >= 4
  {
    assert Largest(m) == 2 * Largest(m / 2) == 4 * Largest(m / 2 / 2);
  }

  /** The number of buckets rehash aims for. */
  method IdealBuckets(count: nat) returns (n: nat)
    ensures n == Largest(if count / 2 < 4 then 4 else count / 2)
    ensures n >= 4 && IsPowerOf2(n)
  {
    n := count / 2;
    if n < 4 {
      n := 4;
    }
    ghost var m := n;
    while !IsPowerOf2(n)
      invariant n > 0 && Largest(n) == Largest(m)
      decreases n
    {
      LeastOffLargest(n);
      n := LeastOff(n);
    }
    LeastOffLargest(n);
    LargestAtLeastFour(m);
  }

  /** The bucket a hash value selects. */
  function Index(hash: nat, n: nat): nat
    requires n > 0
  {
    And(hash, n - 1)
  }

  /** With a power of two, masking is taking the remainder. */
  lemma IndexInRange(hash: nat, n: nat)
    requires IsPowerOf2(n)
    ensures Index(hash, n) == hash % n < n
  {
    LeastOffLargest(n);
    LargestMeaning(n);
    AndMask(hash, Log2(n));
  }

  // The table -------------------------------------------------------------------------

  function Same<T>(less: (T, T) -> bool, x: T, y: T): bool {
    !less(x, y) && !less(y, x)
  }

  /** What the documentation asks of the two functions. */
  ghost predicate Lawful<T(!new)>(hash: T -> nat, less: (T, T) -> bool) {
    && (forall x :: !less(x, x))
    && (forall x, y, z :: Same(less, x, y) && Same(less, y, z) ==> Same(less, x, z))
    && (forall x, y :: Same(less, x, y) ==> hash(x) == hash(y))
  }

  ghost predicate Keyed<T>(less: (T, T) -> bool, s: set<T>) {
    forall x, y | x in s && y in s && Same(less, x, y) :: x == y
  }

  ghost predicate InBucket<T>(hash: T -> nat, buckets: seq<seq<T>>, x: T)
    requires |buckets| > 0
  {
    Index(hash(x), |buckets|) < |buckets| && x in buckets[Index(hash(x), |buckets|)]
  }

  /** The buckets hold exactly the elements of s, each once and where its hash says. */
  ghost predicate Holds<T>(hash: T -> nat, buckets: seq<seq<T>>, s: set<T>) {
    && IsPowerOf2(|buckets|)
    && (forall i | 0 <= i < |buckets| :: Distinct(buckets[i]))
    && (forall i, j | 0 <= i < |buckets| && 0 <= j < |buckets[i]| ::
          buckets[i][j] in s && Index(hash(buckets[i][j]), |buckets|) == i)
    && (forall x | x in s :: InBucket(hash, buckets, x))
  }

  lemma PushHolds<T>(hash: T -> nat, buckets: seq<seq<T>>, s: set<T>, x: T)
    requires Holds(hash, buckets, s) && x !in s
    ensures Index(hash(x), |buckets|) < |buckets|
    ensures var i := Index(hash(x), |buckets|);
            Holds(hash, buckets[i := [x] + buckets[i]], s + {x})
  {
    IndexInRange(hash(x), |buckets|);
    var i := Index(hash(x), |buckets|);
    var bucket := [x] + buckets[i];
    var buckets' := buckets[i := bucket];
    assert x !in buckets[i];
    assert bucket[0] == x;
    forall y | y in s + {x} ensures InBucket(hash, buckets', y) {
      if y in s {
        assert InBucket(hash, buckets, y);
        assert y in buckets[i] ==> y in bucket;
      }
    }
  }

  lemma Resides<T>(hash: T -> nat, buckets: seq<seq<T>>, s: set<T>, i: nat, x: T)
    requires Holds(hash, buckets, s) && i < |buckets|
    ensures x in buckets[i] ==> x in s && Index(hash(x), |buckets|) == i
  {
    if x in buckets[i] {
      var a :| 0 <= a < |buckets[i]| && buckets[i][a] == x;
    }
  }

  lemma RemoveHolds<T(!new)>(hash: T -> nat, buckets: seq<seq<T>>, s: set<T>, x: T)
    requires Holds(hash, buckets, s) && x in s
    ensures Index(hash(x), |buckets|) < |buckets|
    ensures var i := Index(hash(x), |buckets|);
            Holds(hash, buckets[i := Without(buckets[i], x)], s - {x})
  {
    assert InBucket(hash, buckets, x);
    var i := Index(hash(x), |buckets|);
    var bucket := Without(buckets[i], x);
    WithoutMembers(buckets[i], x);
    var buckets' := buckets[i := bucket];
    forall a, b | 0 <= a < |buckets'| && 0 <= b < |buckets'[a]|
      ensures buckets'[a][b] in s - {x} && Index(hash(buckets'[a][b]), |buckets|) == a
    {
      var y := buckets'[a][b];
      Resides(hash, buckets, s, a, y);
      if a == i {
        assert y in Without(buckets[i], x);
      } else {
        assert y in buckets[a];
        assert Index(hash(y), |buckets|) == a;
      }
    }
    forall y | y in s - {x} ensures InBucket(hash, buckets', y) {
      assert InBucket(hash, buckets, y);
    }
  }

  // All elements in iteration order -----------------------------------------------------

  function Flatten<T>(buckets: seq<seq<T>>): seq<T> {
    if buckets == [] then [] else Flatten(buckets[..|buckets| - 1]) + buckets[|buckets| - 1]
  }

  lemma {:induction false} FlattenMembers<T>(buckets: seq<seq<T>>, x: T)
    ensures x in Flatten(buckets) <==> exists i :: 0 <= i < |buckets| && x in buckets[i]
  {
    if buckets != [] {
      var n := |buckets| - 1;
      FlattenMembers(buckets[..n], x);
      assert forall i | 0 <= i < n :: buckets[..n][i] == buckets[i];
      if x in buckets[n] {
      } else if x in Flatten(buckets[..n]) {
        var i :| 0 <= i < n && x in buckets[..n][i];
        assert x in buckets[i];
      }
    }
  }

  lemma {:induction false} FlattenDistinct<T>(buckets: seq<seq<T>>)
    requires forall i | 0 <= i < |buckets| :: Distinct(buckets[i])
    requires forall i, j, x | 0 <= i < j < |buckets| && x in buckets[i] :: x !in buckets[j]
    ensures Distinct(Flatten(buckets))
  {
    if buckets != [] {
      var n := |buckets| - 1;
      FlattenDistinct(buckets[..n]);
      var a, b := Flatten(buckets[..n]), buckets[n];
      forall i, j | 0 <= i < |a| && 0 <= j < |b| ensures a[i] != b[j] {
        FlattenMembers(buckets[..n], a[i]);
      }
    }
  }

  lemma BucketsDisjoint<T>(hash: T -> nat, buckets: seq<seq<T>>, s: set<T>)
    requires Holds(hash, buckets, s)
    ensures forall i, j, x | 0 <= i < j < |buckets| && x in buckets[i] :: x !in buckets[j]
  {
    forall i, j, x | 0 <= i < j < |buckets| && x in buckets[i] ensures x !in buckets[j] {
      Resides(hash, buckets, s, i, x);
      Resides(hash, buckets, s, j, x);
    }
  }

  function Members<T>(q: seq<T>): set<T> {
    set x | x in q
  }

  lemma {:induction false} DistinctSize<T>(q: seq<T>)
    requires Distinct(q)
    ensures |Members(q)| == |q|
  {
    if q != [] {
      var n := |q| - 1;
      DistinctSize(q[..n]);
      assert Members(q) == Members(q[..n]) + {q[n]};
    }
  }

  lemma AllMembers<T>(hash: T -> nat, buckets: seq<seq<T>>, s: set<T>)
    requires Holds(hash, buckets, s)
    ensures Members(Flatten(buckets)) == s
  {
    forall x | x in s ensures x in Flatten(buckets) {
      FlattenMembers(buckets, x);
      assert InBucket(hash, buckets, x);
    }
    forall x | x in Flatten(buckets) ensures x in s {
      FlattenMembers(buckets, x);
      var i :| 0 <= i < |buckets| && x in buckets[i];
      Resides(hash, buckets, s, i, x);
    }
  }

  /** The iteration order lists every element of the table exactly once. */
  lemma IterationExact<T>(hash: T -> nat, buckets: seq<seq<T>>, s: set<T>)
    requires Holds(hash, buckets, s)
    ensures Distinct(Flatten(buckets)) && Members(Flatten(buckets)) == s && |Flatten(buckets)| == |s|
  {
    BucketsDisjoint(hash, buckets, s);
    FlattenDistinct(buckets);
    AllMembers(hash, buckets, s);
    DistinctSize(Flatten(buckets));
  }

  // Operations --------------------------------------------------------------------------

  /** The element of s equal to e, if any. */
  ghost predicate IsFound<T>(less: (T, T) -> bool, s: set<T>, e: T, r: Option<T>) {
    match r
    case Some(x) => x in s && Same(less, x, e)
    case None => forall x | x in s :: !Same(less, x, e)
  }

  /** Equal elements are unique in a keyed set. */
  lemma OnlyEqual<T(!new)>(hash: T -> nat, less: (T, T) -> bool, s: set<T>, x: T, e: T)
    requires Lawful(hash, less) && Keyed(less, s) && x in s && Same(less, x, e)
    ensures forall y | y in s && y != x :: !Same(less, y, e)
  {
    forall y | y in s && Same(less, y, e) ensures y == x {
      assert Same(less, e, x);
      assert Same(less, y, x);
    }
  }

  /** A bucket and the number of its elements passed so far. */
  datatype Cursor = Cursor(bucket: nat, pos: nat)

  predicate CursorOk<T>(buckets: seq<seq<T>>, c: Cursor) {
    c.bucket < |buckets| && c.pos <= |buckets[c.bucket]|
  }

  function FlattenFrom<T>(buckets: seq<seq<T>>, i: nat): seq<T>
    decreases |buckets| - i
  {
    if i >= |buckets| then [] else buckets[i] + FlattenFrom(buckets, i + 1)
  }

  /** What the iterator still has to visit. */
  function Remaining<T>(buckets: seq<seq<T>>, c: Cursor): seq<T>
    requires CursorOk(buckets, c)
  {
    buckets[c.bucket][c.pos..] + FlattenFrom(buckets, c.bucket + 1)
  }

  lemma {:induction false} SplitFlatten<T>(buckets: seq<seq<T>>, i: nat)
    requires i <= |buckets|
    ensures Flatten(buckets) == Flatten(buckets[..i]) + FlattenFrom(buckets, i)
    decreases |buckets| - i
  {
    if i == |buckets| {
      assert buckets[..i] == buckets;
    } else {
      SplitFlatten(buckets, i + 1);
      assert buckets[..i + 1][..i] == buckets[..i];
    }
  }

  lemma FromStart<T>(buckets: seq<seq<T>>)
    requires |buckets| > 0
    ensures Remaining(buckets, Cursor(0, 0)) == Flatten(buckets)
  {
    SplitFlatten(buckets, 0);
    assert Flatten(buckets[..0]) == [];
  }

  /** The operations of a keyed set. */
  datatype Op<T> = Put(e: T) | Swap(e: T) | Get(e: T) | Drop(e: T)

  ghost function Lookup<T>(less: (T, T) -> bool, s: set<T>, e: T): Option<T> {
    if x :| x in s && Same(less, x, e) then Some(x) else None
  }

  ghost function SetStep<T>(less: (T, T) -> bool, s: set<T>, op: Op<T>): (set<T>, Option<T>) {
    var r := Lookup(less, s, op.e);
    match op
    case Put(e) => (if r.None? then s + {e} else s, r)
    case Swap(e) => ((if r.Some? then s - {r.value} else s) + {e}, r)
    case Get(_) => (s, r)
    case Drop(_) => (if r.Some? then s - {r.value} else s, r)
  }

  ghost function SetRun<T>(less: (T, T) -> bool, s: set<T>, ops: seq<Op<T>>): (set<T>, seq<Option<T>>) {
    if ops == [] then (s, [])
    else
      var (t, found) := SetRun(less, s, ops[..|ops| - 1]);
      var (t', r) := SetStep(less, t, ops[|ops| - 1]);
      (t', found + [r])
  }

  lemma FoundUnique<T(!new)>(hash: T -> nat, less: (T, T) -> bool, s: set<T>, e: T)
    requires Lawful(hash, less) && Keyed(less, s)
    ensures forall r :: IsFound(less, s, e, r) ==> r == Lookup(less, s, e)
  {
    forall r | IsFound(less, s, e, r) ensures r == Lookup(less, s, e) {
      if r.Some? {
        OnlyEqual(hash, less, s, r.value, e);
      }
    }
  }

  /** The inner loop of rehash: the elements of one bucket move to the fronts of their new
      buckets. */
  method MoveBucket<T>(hash: T -> nat, bucket: seq<T>, buckets: seq<seq<T>>, ghost s: set<T>)
    returns (moved: seq<seq<T>>)
    requires Holds(hash, buckets, s) && Distinct(bucket) && forall j | 0 <= j < |bucket| :: bucket[j] !in s
    ensures |moved| == |buckets| && Holds(hash, moved, s + Members(bucket))
  {
    moved := buckets;
    assert s + Members(bucket[..0]) == s;
    for j := 0 to |bucket|
      invariant |moved| == |buckets| && Holds(hash, moved, s + Members(bucket[..j]))
    {
      var e := bucket[j];
      assert s + Members(bucket[..j + 1]) == s + Members(bucket[..j]) + {e};
      PushHolds(hash, moved, s + Members(bucket[..j]), e);
      var i := Index(hash(e), |moved|);
      moved := moved[i := [e] + moved[i]];
    }
    assert bucket[..|bucket|] == bucket;
  }

  lemma NextBucket<T>(buckets: seq<seq<T>>, i: nat)
    requires i < |buckets|
    requires forall i, j, x | 0 <= i < j < |buckets| && x in buckets[i] :: x !in buckets[j]
    ensures Members(Flatten(buckets[..i + 1])) == Members(Flatten(buckets[..i])) + Members(buckets[i])
    ensures forall j | 0 <= j < |buckets[i]| :: buckets[i][j] !in Members(Flatten(buckets[..i]))
  {
    assert buckets[..i + 1][..i] == buckets[..i];
    forall j | 0 <= j < |buckets[i]| ensures buckets[i][j] !in Flatten(buckets[..i]) {
      FlattenMembers(buckets[..i], buckets[i][j]);
    }
  }

  /** The outer loop of rehash: afterwards the new buckets hold the same elements. */
  method Redistribute<T>(hash: T -> nat, buckets: seq<seq<T>>, ghost s: set<T>, n: nat) returns (moved: seq<seq<T>>)
    requires Holds(hash, buckets, s) && IsPowerOf2(n)
    ensures |moved| == n && Holds(hash, moved, s)
  {
    moved := seq(n, _ => []);
    assert Members(Flatten(buckets[..0])) == {};
    BucketsDisjoint(hash, buckets, s);
    for i := 0 to |buckets|
      invariant |moved| == n && Holds(hash, moved, Members(Flatten(buckets[..i])))
    {
      NextBucket(buckets, i);
      moved := MoveBucket(hash, buckets[i], moved, Members(Flatten(buckets[..i])));
    }
    assert buckets[..|buckets|] == buckets;
    AllMembers(hash, buckets, s);
  }

  class Table<T(==,!new)> {
    const hash: T -> nat
    const less: (T, T) -> bool
    var buckets: seq<seq<T>>
    var count: nat
    ghost var contents: set<T>

    ghost predicate Valid()
      reads this
    {
      && Lawful(hash, less) && Keyed(less, contents)
      && |buckets| >= 4 && Holds(hash, buckets, contents)
      && count == |contents|
    }

    /** hash_init; `memory` is whether its allocation succeeds, without which the table is
        not usable. */
    constructor (hash: T -> nat, less: (T, T) -> bool, memory: bool)
      requires Lawful(hash, less)
      ensures Valid() <==> memory
      ensures contents == {} && this.hash == hash && this.less == less
    {
      this.hash, this.less := hash, less;
      buckets, count, contents := if memory then [[], [], [], []] else [], 0, {};
      new;
      LeastOffLargest(4);
    }

    /** find_elem in the bucket of e. */
    method Find(e: T) returns (r: Option<T>)
      requires Valid()
      ensures IsFound(less, contents, e, r)
    {
      IndexInRange(hash(e), |buckets|);
      var bucket := buckets[Index(hash(e), |buckets|)];
      for i := 0 to |bucket|
        invariant forall j | 0 <= j < i :: !Same(less, bucket[j], e)
      {
        if Same(less, bucket[i], e) {
          return Some(bucket[i]);
        }
      }
      forall x | x in contents ensures !Same(less, x, e) {
        assert InBucket(hash, buckets, x);
      }
      return None;
    }

    method InsertElem(e: T)
      requires Valid() && forall x | x in contents :: !Same(less, x, e)
      modifies this`buckets, this`count, this`contents
      ensures Valid() && contents == old(contents) + {e} && |buckets| == |old(buckets)|
    {
      assert Same(less, e, e);
      PushHolds(hash, buckets, contents, e);
      var i := Index(hash(e), |buckets|);
      buckets, count, contents := buckets[i := [e] + buckets[i]], count + 1, contents + {e};
    }

    method RemoveElem(e: T)
      requires Valid() && e in contents
      modifies this`buckets, this`count, this`contents
      ensures Valid() && contents == old(contents) - {e} && |buckets| == |old(buckets)|
    {
      RemoveHolds(hash, buckets, contents, e);
      var i := Index(hash(e), |buckets|);
      buckets, count, contents := buckets[i := Without(buckets[i], e)], count - 1, contents - {e};
    }

    /** rehash; `room` is whether malloc finds memory for the new buckets.  The contents never change. */
    method Rehash(room: bool)
      requires Valid()
      modifies this`buckets
      ensures Valid()
      ensures room || |buckets| == |old(buckets)|
      ensures room ==> |buckets| == Largest(if count / 2 < 4 then 4 else count / 2)
    {
      var n := IdealBuckets(count);
      if n == |buckets| || !room {
        return;
      }
      var moved := Redistribute(hash, buckets, contents, n);
      buckets := moved;
    }

    /** hash_insert */
    method Insert(e: T, room: bool) returns (r: Option<T>)
      requires Valid()
      modifies this`buckets, this`count, this`contents
      ensures Valid() && IsFound(less, old(contents), e, r)
      ensures contents == if r.None? then old(contents) + {e} else old(contents)
    {
      r := Find(e);
      if r.None? {
        InsertElem(e);
      }
      Rehash(room);
    }

    /** hash_replace */
    method Replace(e: T, room: bool) returns (r: Option<T>)
      requires Valid()
      modifies this`buckets, this`count, this`contents
      ensures Valid() && IsFound(less, old(contents), e, r)
      ensures contents == (if r.Some? then old(contents) - {r.value} else old(contents)) + {e}
    {
      r := Find(e);
      if r.Some? {
        OnlyEqual(hash, less, contents, r.value, e);
        RemoveElem(r.value);
      }
      InsertElem(e);
      Rehash(room);
    }

    /** hash_next: the cursor moves past empty buckets to the next element. */
    method Next(c: Cursor) returns (c': Cursor, e: Option<T>)
      requires CursorOk(buckets, c)
      ensures CursorOk(buckets, c')
      ensures Remaining(buckets, c) == if e.Some? then [e.value] + Remaining(buckets, c') else []
    {
      c' := c.(pos := c.pos + 1);
      while c'.pos == |buckets[c'.bucket]| + 1
        invariant c'.bucket < |buckets| && 1 <= c'.pos <= |buckets[c'.bucket]| + 1
        invariant Remaining(buckets, c) == buckets[c'.bucket][c'.pos - 1..] + FlattenFrom(buckets, c'.bucket + 1)
        decreases |buckets| - c'.bucket
      {
        if c'.bucket + 1 == |buckets| {
          return c, None;
        }
        c' := Cursor(c'.bucket + 1, 1);
      }
      e := Some(buckets[c'.bucket][c'.pos - 1]);
      assert buckets[c'.bucket][c'.pos - 1..] == [e.value] + buckets[c'.bucket][c'.pos..];
    }

    /** The documented iteration idiom. */
    method Walk() returns (visited: seq<T>)
      requires |buckets| > 0
      ensures visited == Flatten(buckets)
    {
      visited := [];
      var c, e := Next(Cursor(0, 0));
      ghost var rest := Flatten(buckets);
      FromStart(buckets);
      while e.Some?
        invariant CursorOk(buckets, c) && visited + rest == Flatten(buckets)
        invariant rest == if e.Some? then [e.value] + Remaining(buckets, c) else []
        decreases |rest|
      {
        assert visited + rest == visited + [e.value] + rest[1..];
        visited, rest := visited + [e.value], rest[1..];
        assert rest == Remaining(buckets, c);
        c, e := Next(c);
      }
    }

    /** Iteration visits every element exactly once. */
    method Iterate() returns (visited: seq<T>)
      requires Valid()
      ensures Distinct(visited) && Members(visited) == contents && |visited| == count
    {
      visited := Walk();
      IterationExact(hash, buckets, contents);
    }

    /** hash_delete */
    method Delete(e: T, room: bool) returns (r: Option<T>)
      requires Valid()
      modifies this`buckets, this`count, this`contents
      ensures Valid() && IsFound(less, old(contents), e, r)
      ensures contents == if r.Some? then old(contents) - {r.value} else old(contents)
    {
      r := Find(e);
      if r.Some? {
        RemoveElem(r.value);
        Rehash(room);
      }
    }

    method Perform(op: Op<T>, room: bool) returns (r: Option<T>)
      requires Valid()
      modifies this`buckets, this`count, this`contents
      ensures Valid() && (contents, r) == SetStep(less, old(contents), op)
    {
      FoundUnique(hash, less, contents, op.e);
      match op {
        case Put(e) => r := Insert(e, room);
        case Swap(e) => r := Replace(e, room);
        case Get(e) => r := Find(e);
        case Drop(e) => r := Delete(e, room);
      }
    }

    /** Any sequence of operations behaves as on a keyed set, whether or not memory for
        rehashing is found. */
    method Run(ops: seq<Op<T>>, room: seq<bool>) returns (found: seq<Option<T>>)
      requires Valid() && |room| == |ops|
      modifies this`buckets, this`count, this`contents
      ensures Valid() && count == |contents|
      ensures (contents, found) == SetRun(less, old(contents), ops)
    {
      found := [];
      for n := 0 to |ops|
        invariant Valid() && (contents, found) == SetRun(less, old(contents), ops[..n])
      {
        assert ops[..n + 1][..n] == ops[..n];
        var r := Perform(ops[n], room[n]);
        found := found + [r];
      }
      assert ops[..|ops|] == ops;
    }
  }
}
