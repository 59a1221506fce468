/** The page allocator (threads/palloc.c): two pools of pages over bitmaps.  Pages are
    numbered; a page number stands for the address number * 4096. */
module Palloc {
  import opened Storage
  import opened Bitmaps

  const PGSIZE := 4096
  const FREE_START := 256

  /** `count` pages from `page` on that a client holds. */
  datatype Group = Group(page: nat, count: nat)

  predicate Contains(g: Group, p: nat) {
    g.page <= p < g.page + g.count
  }

  predicate Apart(a: Group, b: Group) {
    a.page + a.count <= b.page || b.page + b.count <= a.page
  }

  predicate Inside(base: nat, size: nat, g: Group) {
    base <= g.page && g.page + g.count <= base + size
  }

  ghost predicate Covered(held: seq<Group>, p: nat) {
    exists i :: 0 <= i < |held| && Contains(held[i], p)
  }

  /** The set bits of a pool are the pages in somebody's hands. */
  ghost predicate PoolOk(bits: seq<bool>, base: nat, held: seq<Group>) {
    forall i | 0 <= i < |bits| :: bits[i] <==> Covered(held, base + i)
  }

  ghost predicate AllApart(held: seq<Group>) {
    forall i, j | 0 <= i < j < |held| :: Apart(held[i], held[j])
  }

  /** Where the two pools start. */
  datatype Bases = Bases(kernel: nat, user: nat)

  /** The bits of the two pools, and the groups that clients hold. */
  datatype Pages = Pages(kernel: seq<bool>, user: seq<bool>, held: seq<Group>)

  predicate InPools(b: Bases, s: Pages, g: Group) {
    g.count > 0 && (Inside(b.kernel, |s.kernel|, g) || Inside(b.user, |s.user|, g))
  }

  /** The groups held are disjoint, each inside one pool, and exactly the set bits. */
  ghost predicate PagesOk(b: Bases, s: Pages) {
    && 0 < b.kernel && b.kernel + |s.kernel| <= b.user
    && (forall i | 0 <= i < |s.held| :: InPools(b, s, s.held[i]))
    && AllApart(s.held) && PoolOk(s.kernel, b.kernel, s.held) && PoolOk(s.user, b.user, s.held)
  }

  // First fit ---------------------------------------------------------------------

  /** The first n clear bits in a row at or after i. */
  ghost function FirstRun(bits: seq<bool>, i: nat, n: nat): Option<nat>
    decreases |bits| - i
  {
    if i + n > |bits| then None
    else if IsRun(bits, i, n, false) then Some(i)
    else FirstRun(bits, i + 1, n)
  }

  lemma {:induction false} FirstRunLowest(bits: seq<bool>, i: nat, n: nat)
    requires n > 0
    ensures IsLowestRun(bits, i, n, false, FirstRun(bits, i, n))
    decreases |bits| - i
  {
    if i + n <= |bits| && !IsRun(bits, i, n, false) {
      FirstRunLowest(bits, i + 1, n);
    }
  }

  lemma LowestRunUnique(bits: seq<bool>, n: nat, r: Option<nat>)
    requires n > 0 && IsLowestRun(bits, 0, n, false, r)
    ensures r == FirstRun(bits, 0, n)
  {
    FirstRunLowest(bits, 0, n);
  }

  /** Where palloc_get_multiple finds n pages. */
  ghost function Found(bits: seq<bool>, n: nat): (r: Option<nat>)
    ensures r.Some? ==> n > 0 && IsRun(bits, r.value, n, false)
    ensures n > 0 && r.None? ==> forall i: nat :: !IsRun(bits, i, n, false)
  {
    if n == 0 then None
    else
      FirstRunLowest(bits, 0, n);
      FirstRun(bits, 0, n)
  }

  ghost function Got(bits: seq<bool>, n: nat): (r: seq<bool>)
    ensures |r| == |bits|
  {
    match Found(bits, n)
    case None => bits
    case Some(i) => Filled(bits, i, n, true)
  }

  // Specification -------------------------------------------------------------------

  /** Free gives back count pages of the i-th group held, from its page `from` on. */
  datatype Request = Get(fromUser: bool, n: nat) | Free(i: nat, from: nat, count: nat)

  ghost function AfterGet(b: Bases, s: Pages, fromUser: bool, n: nat): Pages {
    var bits, base := if fromUser then s.user else s.kernel, if fromUser then b.user else b.kernel;
    match Found(bits, n)
    case None => s
    case Some(i) =>
      var held := s.held + [Group(base + i, n)];
      if fromUser then Pages(s.kernel, Got(bits, n), held) else Pages(Got(bits, n), s.user, held)
  }

  predicate CanFree(s: Pages, i: nat, from: nat, count: nat) {
    i < |s.held| && count > 0 && from + count <= s.held[i].count
  }

  /** What is left of a group after count of its pages went back. */
  function Cut(g: Group, from: nat, count: nat): seq<Group>
    requires from + count <= g.count
  {
    (if from > 0 then [Group(g.page, from)] else [])
    + if from + count < g.count then [Group(g.page + from + count, g.count - from - count)] else []
  }

  function HeldAfter(held: seq<Group>, i: nat, from: nat, count: nat): seq<Group>
    requires i < |held| && from + count <= held[i].count
  {
    held[..i] + Cut(held[i], from, count) + held[i + 1..]
  }

  ghost function AfterFree(b: Bases, s: Pages, i: nat, from: nat, count: nat): Pages
    requires PagesOk(b, s) && CanFree(s, i, from, count)
  {
    var page := s.held[i].page + from;
    assert InPools(b, s, s.held[i]);
    if Inside(b.kernel, |s.kernel|, s.held[i])
    then Pages(Filled(s.kernel, page - b.kernel, count, false), s.user, HeldAfter(s.held, i, from, count))
    else Pages(s.kernel, Filled(s.user, page - b.user, count, false), HeldAfter(s.held, i, from, count))
  }

  // Invariant ---------------------------------------------------------------------

  lemma CoveredMore(held: seq<Group>, g: Group, p: nat)
    ensures Covered(held + [g], p) <==> Covered(held, p) || Contains(g, p)
  {
    var more := held + [g];
    if Covered(held, p) {
      var i :| 0 <= i < |held| && Contains(held[i], p);
      assert Contains(more[i], p);
    }
    if Contains(g, p) {
      assert Contains(more[|held|], p);
    }
  }

  /** A run of clear bits is apart from every group held. */
  lemma ClearApart(bits: seq<bool>, base: nat, held: seq<Group>, i: nat, n: nat, g: Group)
    requires PoolOk(bits, base, held) && n > 0 && IsRun(bits, i, n, false) && g in held && g.count > 0
    ensures Apart(g, Group(base + i, n))
  {
    var k :| 0 <= k < |held| && held[k] == g;
    if !Apart(g, Group(base + i, n)) {
      var p := if g.page < base + i then base + i else g.page;
      assert Contains(held[k], p) && !bits[p - base];
      assert Covered(held, p);
      assert false;
    }
  }

  /** Setting a run of clear bits and handing out its pages. */
  lemma TakeBits(bits: seq<bool>, base: nat, held: seq<Group>, i: nat, n: nat)
    requires PoolOk(bits, base, held) && IsRun(bits, i, n, false)
    ensures PoolOk(Filled(bits, i, n, true), base, held + [Group(base + i, n)])
  {
    var bits' := Filled(bits, i, n, true);
    forall j | 0 <= j < |bits'| ensures bits'[j] <==> Covered(held + [Group(base + i, n)], base + j) {
      CoveredMore(held, Group(base + i, n), base + j);
    }
  }

  /** The other pool is not affected. */
  lemma TakeElsewhere(bits: seq<bool>, base: nat, held: seq<Group>, g: Group)
    requires PoolOk(bits, base, held) && (g.page + g.count <= base || base + |bits| <= g.page)
    ensures PoolOk(bits, base, held + [g])
  {
    forall j | 0 <= j < |bits| ensures bits[j] <==> Covered(held + [g], base + j) {
      CoveredMore(held, g, base + j);
    }
  }

  lemma TakeApart(b: Bases, s: Pages, fromUser: bool, i: nat, n: nat)
    requires PagesOk(b, s) && n > 0 && IsRun(if fromUser then s.user else s.kernel, i, n, false)
    ensures AllApart(s.held + [Group((if fromUser then b.user else b.kernel) + i, n)])
  {
    var bits, base := if fromUser then s.user else s.kernel, if fromUser then b.user else b.kernel;
    forall k | 0 <= k < |s.held| ensures Apart(s.held[k], Group(base + i, n)) {
      assert InPools(b, s, s.held[k]);
      ClearApart(bits, base, s.held, i, n, s.held[k]);
    }
  }

  lemma GetKeeps(b: Bases, s: Pages, fromUser: bool, n: nat)
    requires PagesOk(b, s)
    ensures PagesOk(b, AfterGet(b, s, fromUser, n))
  {
    var bits, base := if fromUser then s.user else s.kernel, if fromUser then b.user else b.kernel;
    var r := Found(bits, n);
    if r.Some? {
      var g := Group(base + r.value, n);
      assert PoolOk(Got(bits, n), base, s.held + [g]) by {
        TakeBits(bits, base, s.held, r.value, n);
      }
      var other, at := if fromUser then s.kernel else s.user, if fromUser then b.kernel else b.user;
      assert PoolOk(other, at, s.held + [g]) by {
        TakeElsewhere(other, at, s.held, g);
      }
      assert AllApart(s.held + [g]) by {
        TakeApart(b, s, fromUser, r.value, n);
      }
    }
  }

  /** The pages of a cut group. */
  lemma CutContains(g: Group, from: nat, count: nat, p: nat)
    requires from + count <= g.count
    ensures Covered(Cut(g, from, count), p) <==> Contains(g, p) && !(g.page + from <= p < g.page + from + count)
  {
    var c := Cut(g, from, count);
    if Contains(g, p) && !(g.page + from <= p < g.page + from + count) {
      assert Contains(c[if p < g.page + from then 0 else |c| - 1], p);
    }
  }

  lemma CoveredSplit(a: seq<Group>, b: seq<Group>, p: nat)
    ensures Covered(a + b, p) <==> Covered(a, p) || Covered(b, p)
  {
    if Covered(a, p) {
      var i :| 0 <= i < |a| && Contains(a[i], p);
      assert Contains((a + b)[i], p);
    }
    if Covered(b, p) {
      var i :| 0 <= i < |b| && Contains(b[i], p);
      assert Contains((a + b)[|a| + i], p);
    }
    if Covered(a + b, p) {
      var i :| 0 <= i < |a + b| && Contains((a + b)[i], p);
      assert if i < |a| then Contains(a[i], p) else Contains(b[i - |a|], p);
    }
  }

  /** Exactly the freed pages leave the groups. */
  lemma FreedPages(held: seq<Group>, i: nat, from: nat, count: nat, p: nat)
    requires AllApart(held) && i < |held| && from + count <= held[i].count
    ensures Covered(HeldAfter(held, i, from, count), p) <==>
              Covered(held, p) && !(held[i].page + from <= p < held[i].page + from + count)
  {
    var left, right, c := held[..i], held[i + 1..], Cut(held[i], from, count);
    CutContains(held[i], from, count, p);
    CoveredSplit(left + c, right, p);
    CoveredSplit(left, c, p);
    assert held == left + ([held[i]] + right);
    CoveredSplit(left, [held[i]] + right, p);
    CoveredSplit([held[i]], right, p);
    assert Covered([held[i]], p) <==> Contains([held[i]][0], p);
    if Contains(held[i], p) {
      forall k | 0 <= k < |held| && k != i ensures !Contains(held[k], p) {
        assert Apart(held[if k < i then k else i], held[if k < i then i else k]);
      }
      assert !Covered(left, p) && !Covered(right, p);
    }
  }

  /** A group's bits are all set, and clearing some frees exactly those pages. */
  lemma DropBits(bits: seq<bool>, base: nat, held: seq<Group>, i: nat, from: nat, count: nat)
    requires PoolOk(bits, base, held) && AllApart(held) && i < |held| && from + count <= held[i].count
    requires Inside(base, |bits|, held[i])
    ensures IsRun(bits, held[i].page + from - base, count, true)
    ensures PoolOk(Filled(bits, held[i].page + from - base, count, false), base, HeldAfter(held, i, from, count))
  {
    var start := held[i].page + from - base;
    forall j | start <= j < start + count ensures bits[j] {
      assert Contains(held[i], base + j);
    }
    var bits' := Filled(bits, start, count, false);
    forall j | 0 <= j < |bits'| ensures bits'[j] <==> Covered(HeldAfter(held, i, from, count), base + j) {
      FreedPages(held, i, from, count, base + j);
    }
  }

  lemma DropElsewhere(bits: seq<bool>, base: nat, held: seq<Group>, i: nat, from: nat, count: nat)
    requires PoolOk(bits, base, held) && AllApart(held) && i < |held| && from + count <= held[i].count
    requires held[i].page + held[i].count <= base || base + |bits| <= held[i].page
    ensures PoolOk(bits, base, HeldAfter(held, i, from, count))
  {
    forall j | 0 <= j < |bits| ensures bits[j] <==> Covered(HeldAfter(held, i, from, count), base + j) {
      FreedPages(held, i, from, count, base + j);
    }
  }

  /** A member of the list after a cut is a group held before, or a piece of the cut one. */
  lemma HeldOrigin(held: seq<Group>, i: nat, from: nat, count: nat, k: nat) returns (o: nat)
    requires i < |held| && count > 0 && from + count <= held[i].count && k < |HeldAfter(held, i, from, count)|
    ensures var c, r := |Cut(held[i], from, count)|, HeldAfter(held, i, from, count)[k];
            && o < |held| && o == (if k < i then k else if k < i + c then i else k - c + 1)
            && held[o].page <= r.page && r.page + r.count <= held[o].page + held[o].count
            && (o != i ==> r == held[o]) && (o == i ==> r.count > 0)
  {
    var c := |Cut(held[i], from, count)|;
    o := if k < i then k else if k < i + c then i else k - c + 1;
  }

  lemma HeldApart(held: seq<Group>, i: nat, from: nat, count: nat)
    requires AllApart(held) && i < |held| && count > 0 && from + count <= held[i].count
    ensures AllApart(HeldAfter(held, i, from, count))
  {
    var r := HeldAfter(held, i, from, count);
    forall j, k | 0 <= j < k < |r| ensures Apart(r[j], r[k]) {
      var a := HeldOrigin(held, i, from, count, j);
      var b := HeldOrigin(held, i, from, count, k);
      assert a < b ==> Apart(held[a], held[b]);
    }
  }

  lemma FreeKeeps(b: Bases, s: Pages, i: nat, from: nat, count: nat)
    requires PagesOk(b, s) && CanFree(s, i, from, count)
    ensures PagesOk(b, AfterFree(b, s, i, from, count))
  {
    assert InPools(b, s, s.held[i]);
    HeldApart(s.held, i, from, count);
    if Inside(b.kernel, |s.kernel|, s.held[i]) {
      DropBits(s.kernel, b.kernel, s.held, i, from, count);
      DropElsewhere(s.user, b.user, s.held, i, from, count);
    } else {
      DropBits(s.user, b.user, s.held, i, from, count);
      DropElsewhere(s.kernel, b.kernel, s.held, i, from, count);
    }
    var t := AfterFree(b, s, i, from, count);
    forall k | 0 <= k < |t.held| ensures InPools(b, t, t.held[k]) {
      var o := HeldOrigin(s.held, i, from, count, k);
      assert InPools(b, s, s.held[o]);
    }
  }

  // Runs --------------------------------------------------------------------------

  /** One request; one that names no pages held does nothing. */
  ghost function After(b: Bases, s: Pages, request: Request): (r: Pages)
    requires PagesOk(b, s)
    ensures PagesOk(b, r)
  {
    match request
    case Get(fromUser, n) =>
      GetKeeps(b, s, fromUser, n);
      AfterGet(b, s, fromUser, n)
    case Free(i, from, count) =>
      if CanFree(s, i, from, count) then
        FreeKeeps(b, s, i, from, count);
        AfterFree(b, s, i, from, count)
      else s
  }

  ghost function AfterAll(b: Bases, s: Pages, requests: seq<Request>): (r: Pages)
    requires PagesOk(b, s)
    ensures PagesOk(b, r)
    decreases |requests|
  {
    if requests == [] then s
    else After(b, AfterAll(b, s, requests[..|requests| - 1]), requests[|requests| - 1])
  }

  // The allocator -----------------------------------------------------------------

  datatype Pool = Pool(used: Bitmap, base: nat)

  /** The pages that the bitmap of an n-page pool takes at the pool's base. */
  function BitmapPages(n: nat): nat {
    (8 + 4 * ElemCount(n) + PGSIZE - 1) / PGSIZE
  }

  /** `pages` pages are just enough for a bitmap of n bits: a header of 8 bytes and a word for
      each 32 bits. */
  ghost predicate JustHolds(pages: nat, n: nat) {
    exists words: nat :: 32 * (words - 1) < n <= 32 * words && PGSIZE * (pages - 1) < 8 + 4 * words <= PGSIZE * pages
  }

  lemma BitmapPagesExact(n: nat)
    ensures JustHolds(BitmapPages(n), n)
  {
    var words := ElemCount(n);
    assert 32 * (words - 1) < n <= 32 * words;
    assert PGSIZE * (BitmapPages(n) - 1) < 8 + 4 * words <= PGSIZE * BitmapPages(n);
  }

  /** Half of the pages, rounded down, but no more than the limit. */
  predicate UserShare(share: nat, freePages: nat, limit: nat) {
    share <= limit && 2 * share <= freePages && (share == limit || freePages < 2 * (share + 1))
  }

  function UserPages(freePages: nat, limit: nat): nat {
    if freePages / 2 > limit then limit else freePages / 2
  }

  class PageAllocator {
    const kernel: Pool
    const user: Pool

    ghost predicate Valid()
      reads this, kernel.used, user.used, kernel.used.words, user.used.words
    {
      && kernel.used != user.used && kernel.used.words != user.used.words
      && kernel.used.Valid() && user.used.Valid()
      && 0 < kernel.base && kernel.base + kernel.used.bitCount <= user.base
    }

    function Layout(): Bases {
      Bases(kernel.base, user.base)
    }

    ghost function State(held: seq<Group>): Pages
      reads kernel.used, user.used
    {
      Pages(kernel.used.contents, user.used.contents, held)
    }

    /** palloc_init, when both pools are large enough for their bitmaps. */
    constructor (freePages: nat, limit: nat)
      requires BitmapPages(UserPages(freePages, limit)) <= UserPages(freePages, limit)
      requires BitmapPages(freePages - UserPages(freePages, limit)) <= freePages - UserPages(freePages, limit)
      ensures Valid() && PagesOk(Layout(), State([]))
      ensures user.base + user.used.bitCount == FREE_START + freePages
      ensures var end := kernel.base + kernel.used.bitCount;
              && FREE_START <= kernel.base && end <= user.base
              && UserShare(FREE_START + freePages - end, freePages, limit)
              && JustHolds(kernel.base - FREE_START, end - FREE_START)
              && JustHolds(user.base - end, FREE_START + freePages - end)
      ensures fresh({kernel.used, user.used}) && fresh(kernel.used.words) && fresh(user.used.words)
    {
      var userPages := UserPages(freePages, limit);
      var kernelPages := freePages - userPages;
      BitmapPagesExact(kernelPages);
      BitmapPagesExact(userPages);
      var k, u := BitmapPages(kernelPages), BitmapPages(userPages);
      var kernelMap := new Bitmap(kernelPages - k);
      var userMap := new Bitmap(userPages - u);
      kernel, user := Pool(kernelMap, FREE_START + k), Pool(userMap, FREE_START + kernelPages + u);
    }

    /** palloc_get_multiple: the lowest-address group of free pages of the chosen pool, or
        none exactly when the pool has no such group. */
    method GetMultiple(fromUser: bool, n: nat) returns (r: Option<nat>)
      requires Valid()
      modifies kernel.used`contents, user.used`contents, kernel.used.words, user.used.words
      ensures Valid()
      ensures var pool, other := if fromUser then user else kernel, if fromUser then kernel else user;
              var found := Found(old(pool.used.contents), n);
              && r == (if found.Some? then Some(pool.base + found.value) else None)
              && pool.used.contents == Got(old(pool.used.contents), n)
              && other.used.contents == old(other.used.contents)
    {
      if n == 0 {
        return None;
      }
      var pool := if fromUser then user else kernel;
      ghost var bits := pool.used.contents;
      var idx := pool.used.ScanAndFlip(0, n, false);
      LowestRunUnique(bits, n, idx);
      r := if idx.Some? then Some(pool.base + idx.value) else None;
    }

    /** page_from_pool */
    predicate FromPool(pool: Pool, page: nat) {
      pool.base <= page < pool.base + pool.used.bitCount
    }

    /** palloc_free_multiple; the pages must be allocated, as the code asserts. */
    method FreeMultiple(page: nat, n: nat)
      requires Valid()
      requires page > 0 && n > 0 ==>
                 var pool := if FromPool(kernel, page) then kernel else user;
                 FromPool(pool, page) && IsRun(pool.used.contents, page - pool.base, n, true)
      modifies kernel.used`contents, user.used`contents, kernel.used.words, user.used.words
      ensures Valid()
      ensures page == 0 || n == 0 ==>
                kernel.used.contents == old(kernel.used.contents) && user.used.contents == old(user.used.contents)
      ensures page > 0 && n > 0 ==>
                var pool, other := if FromPool(kernel, page) then kernel else user,
                                   if FromPool(kernel, page) then user else kernel;
                && pool.used.contents == Filled(old(pool.used.contents), page - pool.base, n, false)
                && other.used.contents == old(other.used.contents)
    {
      if page == 0 || n == 0 {
        return;
      }
      var pool := if FromPool(kernel, page) then kernel else user;
      pool.used.SetMultiple(page - pool.base, n, false);
    }

    method GiveBack(i: nat, from: nat, count: nat, held: seq<Group>) returns (held': seq<Group>)
      requires Valid() && PagesOk(Layout(), State(held))
      modifies kernel.used`contents, user.used`contents, kernel.used.words, user.used.words
      ensures Valid() && State(held') == After(Layout(), old(State(held)), Free(i, from, count))
    {
      if i >= |held| || count == 0 || from + count > held[i].count {
        return held;
      }
      var page := held[i].page + from;
      ghost var s := State(held);
      assert InPools(Layout(), s, held[i]);
      if FromPool(kernel, page) {
        DropBits(s.kernel, kernel.base, held, i, from, count);
      } else {
        DropBits(s.user, user.base, held, i, from, count);
      }
      FreeMultiple(page, count);
      held' := HeldAfter(held, i, from, count);
    }

    /** One request of the clients, who hold `held`. */
    method Serve(request: Request, held: seq<Group>) returns (held': seq<Group>)
      requires Valid() && PagesOk(Layout(), State(held))
      modifies kernel.used`contents, user.used`contents, kernel.used.words, user.used.words
      ensures Valid() && State(held') == After(Layout(), old(State(held)), request)
    {
      held' := held;
      match request {
        case Get(fromUser, n) =>
          var r := GetMultiple(fromUser, n);
          if r.Some? {
            held' := held + [Group(r.value, n)];
          }
        case Free(i, from, count) =>
          held' := GiveBack(i, from, count, held);
      }
    }

    /** Over every run of requests the bits and the groups held are those of first fit on
        the two pools; so the groups are disjoint, each inside one pool, and exactly the
        set bits. */
    method Run(requests: seq<Request>, held0: seq<Group>) returns (held: seq<Group>)
      requires Valid() && PagesOk(Layout(), State(held0))
      modifies kernel.used`contents, user.used`contents, kernel.used.words, user.used.words
      ensures Valid() && State(held) == AfterAll(Layout(), old(State(held0)), requests)
      ensures PagesOk(Layout(), State(held))
    {
      held := held0;
      ghost var s := State(held0);
      for k := 0 to |requests|
        invariant Valid() && State(held) == AfterAll(Layout(), s, requests[..k])
      {
        assert requests[..k + 1][..k] == requests[..k];
        held := Serve(requests[k], held);
      }
      assert requests[..|requests|] == requests;
    }
  }
}
