/** The block allocator (threads/malloc.c).

    Addresses are integers; an arena is named by its page number.  The page allocator's
    answer to a request is a parameter of Malloc, and Free reports the pages it hands
    back. */
module Malloc {
  import opened Storage
  import opened Sequences
  import opened Integers

  const PGSIZE := 4096
  const HEADER := 12
  const MAX_DESCS := 10

  /** `Small` is a page of blocks of one descriptor, `Big` a single multi-page block. */
  datatype Arena = Small(desc: nat, freeCount: nat) | Big(pages: nat)

  type Arenas = map<nat, Arena>

  function PageCount(a: Arena): nat {
    if a.Small? then 1 else a.pages
  }

  /** blocks_per_arena */
  function PerArena(size: nat): nat
    requires size > 0
  {
    (PGSIZE - HEADER) / size
  }

  /** arena_to_block */
  function BlockAt(page: nat, size: nat, k: nat): int {
    page * PGSIZE + HEADER + k * size
  }

  function BigBlock(page: nat): int {
    page * PGSIZE + HEADER
  }

  /** block_to_arena */
  function ArenaOf(b: int): int {
    b / PGSIZE
  }

  function SlotOf(b: int, size: nat): int
    requires size > 0
  {
    (b % PGSIZE - HEADER) / size
  }

  predicate SizeOk(size: nat) {
    16 <= size < PGSIZE / 2
  }

  lemma ProductStep(a: nat, b: nat, d: nat)
    requires a < b
    ensures a * d + d <= b * d
  {
    MulAtMost(a + 1, b, d);
    assert (a + 1) * d == a * d + d;
  }

  /** block_to_arena inverts arena_to_block, and a block stays within its page. */
  lemma BlockToArena(page: nat, size: nat, k: nat)
    requires SizeOk(size) && k < PerArena(size)
    ensures ArenaOf(BlockAt(page, size, k)) == page && SlotOf(BlockAt(page, size, k), size) == k
    ensures page * PGSIZE + HEADER <= BlockAt(page, size, k) && BlockAt(page, size, k) + size <= (page + 1) * PGSIZE
  {
    var n := PerArena(size);
    DivBounds(PGSIZE - HEADER, size);
    ProductStep(k, n, size);
    MulAtMost(0, k, size);
    var b := BlockAt(page, size, k);
    assert b % PGSIZE == HEADER + k * size;
    CancelFactor(k, size);
  }

  /** An arena is filled: one block more would not fit behind the header. */
  lemma ArenaFilled(size: nat)
    requires SizeOk(size)
    ensures HEADER + PerArena(size) * size <= PGSIZE < HEADER + (PerArena(size) + 1) * size
  {
    DivBounds(PGSIZE - HEADER, size);
    assert (PerArena(size) + 1) * size == PerArena(size) * size + size;
  }

  /** The blocks per arena of the seven descriptors. */
  lemma ArenaCounts()
    ensures PerArena(16) == 255 && PerArena(32) == 127 && PerArena(64) == 63 && PerArena(128) == 31
    ensures PerArena(256) == 15 && PerArena(512) == 7 && PerArena(1024) == 3
  {
  }

  /** If block k fits in the page, behind the header and the blocks before it, it is listed. */
  ghost predicate SlotListed(page: nat, size: nat, list: seq<int>, k: nat) {
    HEADER + (k + 1) * size <= PGSIZE ==> page * PGSIZE + HEADER + k * size in list
  }

  /** Every block that fits in the page is listed. */
  ghost predicate Filled(page: nat, size: nat, list: seq<int>) {
    forall k: nat :: SlotListed(page, size, list, k)
  }

  // The invariant ---------------------------------------------------------------------

  /** The slots of an arena whose blocks are on the free list. */
  ghost function FreeSlots(page: nat, size: nat, list: seq<int>): set<nat>
    requires size > 0
  {
    set k: nat | k < PerArena(size) && BlockAt(page, size, k) in list
  }

  ghost predicate SizesOk(sizes: seq<nat>) {
    && |sizes| <= MAX_DESCS
    && (forall i | 0 <= i < |sizes| :: SizeOk(sizes[i]))
    && (forall i, j | 0 <= i < j < |sizes| :: sizes[i] < sizes[j])
  }

  ghost predicate PagesDisjoint(arenas: Arenas) {
    forall p, q | p in arenas && q in arenas && p < q :: p + PageCount(arenas[p]) <= q
  }

  /** b is a block of an arena of descriptor i. */
  ghost predicate IsBlock(arenas: Arenas, size: nat, i: nat, b: int)
    requires size > 0
  {
    && b >= 0 && ArenaOf(b) in arenas && arenas[ArenaOf(b)].Small? && arenas[ArenaOf(b)].desc == i
    && 0 <= SlotOf(b, size) < PerArena(size) && b == BlockAt(ArenaOf(b), size, SlotOf(b, size))
  }

  ghost predicate FreeListOk(arenas: Arenas, size: nat, i: nat, list: seq<int>)
    requires size > 0
  {
    Distinct(list) && forall j | 0 <= j < |list| :: IsBlock(arenas, size, i, list[j])
  }

  /** Free and live blocks partition the slots, free_cnt counts the free ones, and, unless
      `full`, some block is live. */
  ghost predicate ArenaOk(page: nat, a: Arena, sizes: seq<nat>, free: seq<seq<int>>, live: map<int, nat>, full: bool)
    requires SizesOk(sizes) && |free| == |sizes|
  {
    match a
    case Small(i, count) =>
      && i < |sizes| && count == |FreeSlots(page, sizes[i], free[i])|
      && (full || count < PerArena(sizes[i]))
      && forall k | 0 <= k < PerArena(sizes[i]) ::
           BlockAt(page, sizes[i], k) in free[i] <==> BlockAt(page, sizes[i], k) !in live
    case Big(n) => n > 0 && BigBlock(page) in live
  }

  /** The bytes a client may use from b on. */
  ghost function Capacity(arenas: Arenas, sizes: seq<nat>, b: int): int
    requires ArenaOf(b) in arenas && (arenas[ArenaOf(b)].Small? ==> arenas[ArenaOf(b)].desc < |sizes|)
  {
    match arenas[ArenaOf(b)]
    case Small(i, _) => sizes[i]
    case Big(n) => n * PGSIZE - HEADER
  }

  ghost predicate LiveOk(arenas: Arenas, sizes: seq<nat>, b: int, wanted: nat)
    requires SizesOk(sizes)
  {
    && b >= 0 && ArenaOf(b) in arenas
    && match arenas[ArenaOf(b)]
       case Small(i, _) => i < |sizes| && IsBlock(arenas, sizes[i], i, b) && wanted <= sizes[i]
       case Big(n) => b == BigBlock(ArenaOf(b)) && wanted + HEADER <= n * PGSIZE
  }

  ghost predicate Base(arenas: Arenas, sizes: seq<nat>, free: seq<seq<int>>) {
    SizesOk(sizes) && |free| == |sizes| && PagesDisjoint(arenas)
  }

  ghost predicate ListsOk(arenas: Arenas, sizes: seq<nat>, free: seq<seq<int>>)
    requires SizesOk(sizes) && |free| == |sizes|
  {
    forall i | 0 <= i < |free| :: FreeListOk(arenas, sizes[i], i, free[i])
  }

  ghost predicate ArenasOk(arenas: Arenas, sizes: seq<nat>, free: seq<seq<int>>, live: map<int, nat>, hole: Option<nat>)
    requires SizesOk(sizes) && |free| == |sizes|
  {
    forall p | p in arenas :: ArenaOk(p, arenas[p], sizes, free, live, hole == Some(p))
  }

  ghost predicate BlocksOk(arenas: Arenas, sizes: seq<nat>, live: map<int, nat>)
    requires SizesOk(sizes)
  {
    forall b | b in live :: LiveOk(arenas, sizes, b, live[b])
  }

  ghost predicate Inv(arenas: Arenas, sizes: seq<nat>, free: seq<seq<int>>, live: map<int, nat>, hole: Option<nat>) {
    && Base(arenas, sizes, free) && ListsOk(arenas, sizes, free)
    && ArenasOk(arenas, sizes, free, live, hole) && BlocksOk(arenas, sizes, live)
  }

  /** Live blocks never overlap, whatever sizes and arenas they come from. */
  lemma LiveDisjoint(arenas: Arenas, sizes: seq<nat>, free: seq<seq<int>>, live: map<int, nat>, b: int, c: int)
    requires Inv(arenas, sizes, free, live, None) && b in live && c in live && b < c
    ensures b + live[b] <= b + Capacity(arenas, sizes, b) <= c
  {
    var p, q := ArenaOf(b), ArenaOf(c);
    assert LiveOk(arenas, sizes, b, live[b]) && LiveOk(arenas, sizes, c, live[c]);
    if arenas[p].Small? {
      var size := sizes[arenas[p].desc];
      var k := SlotOf(b, size);
      BlockToArena(p, size, k);
      if q == p {
        var m := SlotOf(c, size);
        if k < m {
          ProductStep(k, m, size);
        } else if m < k {
          ProductStep(m, k, size);
        }
      }
    }
  }

  // Preservation ----------------------------------------------------------------------

  /** At most one block changes between free and live. */
  ghost predicate OnlyBlock(free: seq<seq<int>>, live: map<int, nat>, free': seq<seq<int>>, live': map<int, nat>,
                            b: int)
  {
    && |free'| == |free|
    && (forall i, x | 0 <= i < |free| && x != b :: x in free'[i] <==> x in free[i])
    && (forall x | x != b :: x in live' <==> x in live)
  }

  lemma Untouched(q: nat, a: Arena, sizes: seq<nat>, free: seq<seq<int>>, live: map<int, nat>, full: bool,
                  free': seq<seq<int>>, live': map<int, nat>, b: int)
    requires SizesOk(sizes) && |free| == |sizes| && ArenaOk(q, a, sizes, free, live, full)
    requires OnlyBlock(free, live, free', live', b) && ArenaOf(b) != q
    ensures ArenaOk(q, a, sizes, free', live', full)
  {
    if a.Small? {
      var size := sizes[a.desc];
      forall k | 0 <= k < PerArena(size)
        ensures BlockAt(q, size, k) in free'[a.desc] <==> BlockAt(q, size, k) in free[a.desc]
        ensures BlockAt(q, size, k) in live' <==> BlockAt(q, size, k) in live
      {
        BlockToArena(q, size, k);
      }
      assert FreeSlots(q, size, free'[a.desc]) == FreeSlots(q, size, free[a.desc]);
    }
  }

  /** The slots of the arena whose block k changed. */
  lemma Toggled(p: nat, size: nat, list: seq<int>, list': seq<int>, k: nat)
    requires SizeOk(size) && k < PerArena(size)
    requires var b := BlockAt(p, size, k);
             b !in list && b in list' && forall x | x != b :: x in list' <==> x in list
    ensures FreeSlots(p, size, list') == FreeSlots(p, size, list) + {k} && k !in FreeSlots(p, size, list)
    ensures |FreeSlots(p, size, list)| < PerArena(size)
  {
    forall j: nat | j < PerArena(size) && j != k ensures BlockAt(p, size, j) != BlockAt(p, size, k) {
      BlockToArena(p, size, j);
      BlockToArena(p, size, k);
    }
    SubsetSize(FreeSlots(p, size, list), Upto(PerArena(size)) - {k});
  }

  function Counted(arenas: Arenas, p: nat, count: nat): Arenas
    requires p in arenas && arenas[p].Small?
  {
    arenas[p := arenas[p].(freeCount := count)]
  }

  lemma CountedKeys(arenas: Arenas, p: nat, count: nat)
    requires p in arenas && arenas[p].Small?
    ensures Counted(arenas, p, count) - {p} == arenas - {p} && Counted(arenas, p, count).Keys == arenas.Keys
  {
  }

  /** A change of free_cnt leaves the arenas themselves alone. */
  lemma CountedKeeps(arenas: Arenas, sizes: seq<nat>, free: seq<seq<int>>, live: map<int, nat>, p: nat, count: nat)
    requires Base(arenas, sizes, free) && p in arenas && arenas[p].Small?
    ensures Base(Counted(arenas, p, count), sizes, free)
    ensures ListsOk(arenas, sizes, free) ==> ListsOk(Counted(arenas, p, count), sizes, free)
    ensures BlocksOk(arenas, sizes, live) ==> BlocksOk(Counted(arenas, p, count), sizes, live)
  {
    var arenas' := Counted(arenas, p, count);
    assert forall b, n: nat :: LiveOk(arenas', sizes, b, n) <==> LiveOk(arenas, sizes, b, n);
    assert forall i, b | 0 <= i < |sizes| :: IsBlock(arenas', sizes[i], i, b) <==> IsBlock(arenas, sizes[i], i, b);
    if ListsOk(arenas, sizes, free) {
      forall i | 0 <= i < |free| ensures FreeListOk(arenas', sizes[i], i, free[i]) {
        assert FreeListOk(arenas, sizes[i], i, free[i]);
      }
    }
  }

  lemma ArenasKept(arenas: Arenas, sizes: seq<nat>, free: seq<seq<int>>, live: map<int, nat>, hole: Option<nat>,
                   p: nat, count: nat, free': seq<seq<int>>, live': map<int, nat>, b: int, full: bool)
    requires SizesOk(sizes) && |free| == |sizes| && ArenasOk(arenas, sizes, free, live, hole)
    requires p in arenas && arenas[p].Small? && ArenaOf(b) == p && OnlyBlock(free, live, free', live', b)
    requires hole.Some? ==> hole.value == p
    requires ArenaOk(p, Counted(arenas, p, count)[p], sizes, free', live', full)
    ensures ArenasOk(Counted(arenas, p, count), sizes, free', live', if full then Some(p) else None)
  {
    var arenas' := Counted(arenas, p, count);
    forall q | q in arenas' ensures ArenaOk(q, arenas'[q], sizes, free', live', full && q == p) {
      if q != p {
        Untouched(q, arenas[q], sizes, free, live, false, free', live', b);
      }
    }
  }

  lemma ListReplaced(arenas: Arenas, sizes: seq<nat>, free: seq<seq<int>>, i: nat, list: seq<int>)
    requires SizesOk(sizes) && |free| == |sizes| && i < |free| && ListsOk(arenas, sizes, free)
    requires FreeListOk(arenas, sizes[i], i, list)
    ensures ListsOk(arenas, sizes, free[i := list])
  {
  }

  lemma HeadBlock(arenas: Arenas, size: nat, i: nat, list: seq<int>)
    requires size > 0 && FreeListOk(arenas, size, i, list) && list != []
    ensures IsBlock(arenas, size, i, list[0]) && FreeListOk(arenas, size, i, list[1..])
    ensures list[0] in list && list[0] !in list[1..] && forall x | x != list[0] :: x in list[1..] <==> x in list
  {
  }

  lemma LiveInArena(arenas: Arenas, sizes: seq<nat>, live: map<int, nat>, b: int)
    requires SizesOk(sizes) && BlocksOk(arenas, sizes, live)
    ensures b in live ==> ArenaOf(b) in arenas
  {
    assert b in live ==> LiveOk(arenas, sizes, b, live[b]);
  }

  lemma PoppedArena(p: nat, a: Arena, sizes: seq<nat>, free: seq<seq<int>>, live: map<int, nat>, full: bool, k: nat,
                    free': seq<seq<int>>, live': map<int, nat>)
    requires SizesOk(sizes) && |free| == |sizes| && ArenaOk(p, a, sizes, free, live, full) && a.Small?
    requires k < PerArena(sizes[a.desc])
    requires var b := BlockAt(p, sizes[a.desc], k);
             OnlyBlock(free, live, free', live', b) && b in free[a.desc] && b !in free'[a.desc] && b in live'
    ensures a.freeCount > 0 && ArenaOk(p, a.(freeCount := a.freeCount - 1), sizes, free', live', false)
  {
    Toggled(p, sizes[a.desc], free'[a.desc], free[a.desc], k);
  }

  lemma PopOnly(free: seq<seq<int>>, live: map<int, nat>, i: nat, wanted: nat)
    requires i < |free| && free[i] != []
    ensures OnlyBlock(free, live, free[i := free[i][1..]], live[free[i][0] := wanted], free[i][0])
  {
    assert free[i] == [free[i][0]] + free[i][1..];
  }

  /** The first block of list i is a free slot of its arena, which has one fewer then. */
  lemma PopArena(arenas: Arenas, sizes: seq<nat>, free: seq<seq<int>>, live: map<int, nat>, hole: Option<nat>, i: nat,
                 wanted: nat, b: int, p: nat, rest: seq<int>)
    requires Inv(arenas, sizes, free, live, hole) && i < |free| && free[i] != [] && wanted <= sizes[i]
    requires b == free[i][0] && rest == free[i][1..] && p == ArenaOf(b)
    ensures b !in live && p in arenas && arenas[p].Small? && arenas[p].freeCount > 0
    ensures IsBlock(arenas, sizes[i], i, b) && FreeListOk(arenas, sizes[i], i, rest)
    ensures OnlyBlock(free, live, free[i := rest], live[b := wanted], b)
    ensures ArenaOk(p, arenas[p].(freeCount := arenas[p].freeCount - 1), sizes, free[i := rest], live[b := wanted],
                    false)
  {
    HeadBlock(arenas, sizes[i], i, free[i]);
    assert ArenaOk(p, arenas[p], sizes, free, live, hole == Some(p));
    PopOnly(free, live, i, wanted);
    PoppedArena(p, arenas[p], sizes, free, live, hole == Some(p), SlotOf(b, sizes[i]),
                free[i := rest], live[b := wanted]);
  }

  lemma MoreBlocks(arenas: Arenas, sizes: seq<nat>, live: map<int, nat>, b: int, wanted: nat)
    requires SizesOk(sizes) && BlocksOk(arenas, sizes, live) && LiveOk(arenas, sizes, b, wanted)
    ensures BlocksOk(arenas, sizes, live[b := wanted])
  {
  }

  /** malloc takes the first free block. */
  lemma PopKeeps(arenas: Arenas, sizes: seq<nat>, free: seq<seq<int>>, live: map<int, nat>, hole: Option<nat>, i: nat,
                 wanted: nat, b: int, p: nat, rest: seq<int>)
    requires Inv(arenas, sizes, free, live, hole) && i < |free| && free[i] != [] && wanted <= sizes[i]
    requires b == free[i][0] && rest == free[i][1..] && p == ArenaOf(b) && (hole.Some? ==> hole.value == p)
    ensures b !in live && p in arenas && arenas[p].Small? && arenas[p].freeCount > 0
    ensures Inv(Counted(arenas, p, arenas[p].freeCount - 1), sizes, free[i := rest], live[b := wanted], None)
  {
    var free', live' := free[i := rest], live[b := wanted];
    PopArena(arenas, sizes, free, live, hole, i, wanted, b, p, rest);
    ArenasKept(arenas, sizes, free, live, hole, p, arenas[p].freeCount - 1, free', live', b, false);
    ListReplaced(arenas, sizes, free, i, rest);
    MoreBlocks(arenas, sizes, live, b, wanted);
    CountedKeeps(arenas, sizes, free', live', p, arenas[p].freeCount - 1);
  }

  lemma PushOnly(free: seq<seq<int>>, live: map<int, nat>, i: nat, b: int)
    requires i < |free|
    ensures OnlyBlock(free, live, free[i := [b] + free[i]], live - {b}, b)
    ensures b in free[i := [b] + free[i]][i] && b !in live - {b}
  {
    assert ([b] + free[i])[0] == b;
  }

  lemma PushedList(arenas: Arenas, size: nat, i: nat, list: seq<int>, b: int)
    requires size > 0 && FreeListOk(arenas, size, i, list) && IsBlock(arenas, size, i, b) && b !in list
    ensures FreeListOk(arenas, size, i, [b] + list)
  {
  }

  lemma FewerBlocks(arenas: Arenas, sizes: seq<nat>, live: map<int, nat>, b: int)
    requires SizesOk(sizes) && BlocksOk(arenas, sizes, live)
    ensures BlocksOk(arenas, sizes, live - {b})
  {
  }

  lemma PushedArena(p: nat, a: Arena, sizes: seq<nat>, free: seq<seq<int>>, live: map<int, nat>, k: nat,
                    free': seq<seq<int>>, live': map<int, nat>)
    requires SizesOk(sizes) && |free| == |sizes| && ArenaOk(p, a, sizes, free, live, false) && a.Small?
    requires k < PerArena(sizes[a.desc])
    requires var b := BlockAt(p, sizes[a.desc], k);
             OnlyBlock(free, live, free', live', b) && b !in free[a.desc] && b in free'[a.desc] && b !in live'
    ensures ArenaOk(p, a.(freeCount := a.freeCount + 1), sizes, free', live', true)
  {
    Toggled(p, sizes[a.desc], free[a.desc], free'[a.desc], k);
  }

  /** free puts the block at the front of its descriptor's list. */
  lemma PushKeeps(arenas: Arenas, sizes: seq<nat>, free: seq<seq<int>>, live: map<int, nat>, b: int)
    requires Inv(arenas, sizes, free, live, None) && b in live && ArenaOf(b) in arenas && arenas[ArenaOf(b)].Small?
    ensures var p := ArenaOf(b); var i := arenas[p].desc;
            && i < |free| && arenas[p].freeCount < PerArena(sizes[i])
            && Inv(Counted(arenas, p, arenas[p].freeCount + 1), sizes, free[i := [b] + free[i]], live - {b}, Some(p))
  {
    var p := ArenaOf(b);
    var i := arenas[p].desc;
    assert LiveOk(arenas, sizes, b, live[b]) && ArenaOk(p, arenas[p], sizes, free, live, false);
    var size, list := sizes[i], free[i];
    var k := SlotOf(b, size);
    assert b == BlockAt(p, size, k) && b !in list;
    var free', live' := free[i := [b] + list], live - {b};
    PushOnly(free, live, i, b);
    PushedArena(p, arenas[p], sizes, free, live, k, free', live');
    ArenasKept(arenas, sizes, free, live, None, p, arenas[p].freeCount + 1, free', live', b, true);
    PushedList(arenas, size, i, list, b);
    ListReplaced(arenas, sizes, free, i, [b] + list);
    FewerBlocks(arenas, sizes, live, b);
    CountedKeeps(arenas, sizes, free', live', p, arenas[p].freeCount + 1);
  }

  /** An arena whose free_cnt has reached its block count has every block on the list and
      no live block. */
  lemma FullArena(arenas: Arenas, sizes: seq<nat>, free: seq<seq<int>>, live: map<int, nat>, hole: Option<nat>, p: nat)
    requires Inv(arenas, sizes, free, live, hole) && p in arenas && arenas[p].Small?
    requires arenas[p].freeCount >= PerArena(sizes[arenas[p].desc])
    ensures var i := arenas[p].desc;
            && arenas[p].freeCount == PerArena(sizes[i])
            && (forall k | 0 <= k < PerArena(sizes[i]) :: BlockAt(p, sizes[i], k) in free[i])
            && (forall b | b in live :: ArenaOf(b) != p)
  {
    var i := arenas[p].desc;
    assert ArenaOk(p, arenas[p], sizes, free, live, hole == Some(p));
    var slots, all := FreeSlots(p, sizes[i], free[i]), Upto(PerArena(sizes[i]));
    SubsetSize(slots, all);
    assert all - slots == {} by {
      assert all == slots + (all - slots);
    }
    forall k | 0 <= k < PerArena(sizes[i]) ensures BlockAt(p, sizes[i], k) in free[i] {
      assert k in all;
      assert k in slots;
    }
    forall b | b in live ensures ArenaOf(b) != p {
      assert LiveOk(arenas, sizes, b, live[b]);
    }
  }

  /** An arena whose free_cnt is smaller still has a live block. */
  lemma PartlyLive(arenas: Arenas, sizes: seq<nat>, free: seq<seq<int>>, live: map<int, nat>, p: nat)
    requires Inv(arenas, sizes, free, live, Some(p)) && p in arenas && arenas[p].Small?
    requires arenas[p].freeCount < PerArena(sizes[arenas[p].desc])
    ensures Inv(arenas, sizes, free, live, None)
    ensures exists b :: b in live && ArenaOf(b) == p
  {
    var i := arenas[p].desc;
    var n := PerArena(sizes[i]);
    assert ArenaOk(p, arenas[p], sizes, free, live, true);
    forall q | q in arenas ensures ArenaOk(q, arenas[q], sizes, free, live, false) {
      assert ArenaOk(q, arenas[q], sizes, free, live, q == p);
    }
    var slots := FreeSlots(p, sizes[i], free[i]);
    assert slots != Upto(n);
    var k :| k in Upto(n) && k !in slots;
    BlockToArena(p, sizes[i], k);
    assert BlockAt(p, sizes[i], k) in live;
  }

  lemma SameLists(q: nat, a: Arena, sizes: seq<nat>, free: seq<seq<int>>, live: map<int, nat>, free': seq<seq<int>>,
                  p: nat)
    requires SizesOk(sizes) && |free| == |sizes| == |free'| && ArenaOk(q, a, sizes, free, live, false) && q != p
    requires forall i, x | 0 <= i < |free| && ArenaOf(x) != p :: x in free'[i] <==> x in free[i]
    ensures ArenaOk(q, a, sizes, free', live, false)
  {
    if a.Small? {
      var size := sizes[a.desc];
      forall k | 0 <= k < PerArena(size)
        ensures BlockAt(q, size, k) in free'[a.desc] <==> BlockAt(q, size, k) in free[a.desc]
      {
        BlockToArena(q, size, k);
      }
      assert FreeSlots(q, size, free'[a.desc]) == FreeSlots(q, size, free[a.desc]);
    }
  }

  lemma DroppedList(arenas: Arenas, size: nat, j: nat, list: seq<int>, p: nat, list': seq<int>)
    requires size > 0 && FreeListOk(arenas, size, j, list) && p in arenas && arenas[p].Small?
    requires if arenas[p].desc == j then Distinct(list') && forall x :: x in list' <==> x in list && ArenaOf(x) != p
             else list' == list
    ensures FreeListOk(arenas - {p}, size, j, list')
  {
    forall m | 0 <= m < |list'| ensures IsBlock(arenas - {p}, size, j, list'[m]) {
      assert list'[m] in list;
      var n :| 0 <= n < |list| && list[n] == list'[m];
      assert IsBlock(arenas, size, j, list[n]);
    }
  }

  /** Removing an arena without live blocks. */
  lemma DropKeeps(arenas: Arenas, sizes: seq<nat>, free: seq<seq<int>>, live: map<int, nat>, p: nat, list: seq<int>)
    requires Inv(arenas, sizes, free, live, Some(p)) && p in arenas && arenas[p].Small?
    requires forall b | b in live :: ArenaOf(b) != p
    requires Distinct(list) && forall x :: x in list <==> x in free[arenas[p].desc] && ArenaOf(x) != p
    ensures Inv(arenas - {p}, sizes, free[arenas[p].desc := list], live, None)
  {
    var arenas', i := arenas - {p}, arenas[p].desc;
    var free' := free[i := list];
    forall q | q in arenas' ensures ArenaOk(q, arenas'[q], sizes, free', live, false) {
      SameLists(q, arenas[q], sizes, free, live, free', p);
    }
    forall j | 0 <= j < |free'| ensures FreeListOk(arenas', sizes[j], j, free'[j]) {
      DroppedList(arenas, sizes[j], j, free[j], p, free'[j]);
    }
    forall b | b in live ensures LiveOk(arenas', sizes, b, live[b]) {
      assert LiveOk(arenas, sizes, b, live[b]);
    }
  }

  /** The pages [page, page + n) belong to no arena. */
  predicate Unused(arenas: Arenas, page: nat, n: nat) {
    forall p | p in arenas :: p + PageCount(arenas[p]) <= page || page + n <= p
  }

  function AllBlocks(page: nat, size: nat, n: nat): seq<int> {
    seq(n, k requires 0 <= k => BlockAt(page, size, k))
  }

  lemma AllBlocksFill(page: nat, size: nat)
    requires SizeOk(size)
    ensures Filled(page, size, AllBlocks(page, size, PerArena(size)))
  {
    var n := PerArena(size);
    var list := AllBlocks(page, size, n);
    ArenaFilled(size);
    forall k: nat ensures SlotListed(page, size, list, k) {
      if HEADER + (k + 1) * size <= PGSIZE {
        LessByProduct(k + 1, n + 1, size);
        assert list[k] == page * PGSIZE + HEADER + k * size;
      }
    }
  }

  lemma NewArena(page: nat, sizes: seq<nat>, free: seq<seq<int>>, live: map<int, nat>, i: nat, arenas: Arenas)
    requires SizesOk(sizes) && |free| == |sizes| && i < |free|
    requires free[i] == AllBlocks(page, sizes[i], PerArena(sizes[i]))
    requires page !in arenas && BlocksOk(arenas, sizes, live)
    ensures ArenaOk(page, Small(i, PerArena(sizes[i])), sizes, free, live, true)
  {
    var size, n := sizes[i], PerArena(sizes[i]);
    forall k | 0 <= k < n ensures BlockAt(page, size, k) in free[i] && BlockAt(page, size, k) !in live {
      assert free[i][k] == BlockAt(page, size, k);
      BlockToArena(page, size, k);
      LiveInArena(arenas, sizes, live, BlockAt(page, size, k));
    }
    assert FreeSlots(page, size, free[i]) == Upto(n);
  }

  lemma NewBlocks(page: nat, size: nat)
    requires SizeOk(size)
    ensures forall x | x in AllBlocks(page, size, PerArena(size)) :: ArenaOf(x) == page
  {
    forall x | x in AllBlocks(page, size, PerArena(size)) ensures ArenaOf(x) == page {
      var k :| 0 <= k < PerArena(size) && AllBlocks(page, size, PerArena(size))[k] == x;
      BlockToArena(page, size, k);
    }
  }

  lemma NewList(arenas: Arenas, page: nat, size: nat, i: nat)
    requires SizeOk(size) && page in arenas && arenas[page].Small? && arenas[page].desc == i
    ensures FreeListOk(arenas, size, i, AllBlocks(page, size, PerArena(size)))
  {
    var list := AllBlocks(page, size, PerArena(size));
    forall k | 0 <= k < |list| ensures IsBlock(arenas, size, i, list[k]) && SlotOf(list[k], size) == k {
      BlockToArena(page, size, k);
    }
  }

  /** A new arena starts with all its blocks free. */
  lemma AddKeeps(arenas: Arenas, sizes: seq<nat>, free: seq<seq<int>>, live: map<int, nat>, page: nat, i: nat)
    requires Inv(arenas, sizes, free, live, None) && i < |free| && free[i] == [] && Unused(arenas, page, 1)
    ensures var n := PerArena(sizes[i]);
            Inv(arenas[page := Small(i, n)], sizes, free[i := AllBlocks(page, sizes[i], n)], live, Some(page))
  {
    var size, n := sizes[i], PerArena(sizes[i]);
    var list, arenas' := AllBlocks(page, size, n), arenas[page := Small(i, n)];
    var free' := free[i := list];
    assert page !in arenas;
    NewArena(page, sizes, free', live, i, arenas);
    NewBlocks(page, size);
    forall q | q in arenas' ensures ArenaOk(q, arenas'[q], sizes, free', live, q == page) {
      if q != page {
        SameLists(q, arenas[q], sizes, free, live, free', page);
      }
    }
    forall j | 0 <= j < |free'| ensures FreeListOk(arenas', sizes[j], j, free'[j]) {
      assert FreeListOk(arenas, sizes[j], j, free[j]);
      if j == i {
        NewList(arenas', page, size, i);
      }
    }
    forall b | b in live ensures LiveOk(arenas', sizes, b, live[b]) {
      assert LiveOk(arenas, sizes, b, live[b]);
    }
  }

  /** A big block fills the pages of its own arena. */
  lemma BigKeeps(arenas: Arenas, sizes: seq<nat>, free: seq<seq<int>>, live: map<int, nat>, page: nat, n: nat,
                 wanted: nat)
    requires Inv(arenas, sizes, free, live, None) && n > 0 && Unused(arenas, page, n) && wanted + HEADER <= n * PGSIZE
    ensures BigBlock(page) !in live
    ensures Inv(arenas[page := Big(n)], sizes, free, live[BigBlock(page) := wanted], None)
  {
    var b := BigBlock(page);
    assert ArenaOf(b) == page;
    assert page !in arenas;
    LiveInArena(arenas, sizes, live, b);
    var arenas', live' := arenas[page := Big(n)], live[b := wanted];
    forall q | q in arenas' ensures ArenaOk(q, arenas'[q], sizes, free, live', false) {
      if q != page {
        Untouched(q, arenas[q], sizes, free, live, false, free, live', b);
      }
    }
    forall j | 0 <= j < |free| ensures FreeListOk(arenas', sizes[j], j, free[j]) {
      assert FreeListOk(arenas, sizes[j], j, free[j]);
    }
    forall c | c in live' ensures LiveOk(arenas', sizes, c, live'[c]) {
      assert c != b ==> LiveOk(arenas, sizes, c, live[c]);
    }
  }

  lemma DropBigKeeps(arenas: Arenas, sizes: seq<nat>, free: seq<seq<int>>, live: map<int, nat>, b: int)
    requires Inv(arenas, sizes, free, live, None) && b in live && ArenaOf(b) in arenas && arenas[ArenaOf(b)].Big?
    ensures Inv(arenas - {ArenaOf(b)}, sizes, free, live - {b}, None)
    ensures forall c | c in live && c != b :: ArenaOf(c) != ArenaOf(b)
  {
    var page := ArenaOf(b);
    assert LiveOk(arenas, sizes, b, live[b]);
    var arenas', live' := arenas - {page}, live - {b};
    forall c | c in live' ensures ArenaOf(c) != page && LiveOk(arenas', sizes, c, live'[c]) {
      assert LiveOk(arenas, sizes, c, live[c]);
    }
    forall q | q in arenas' ensures ArenaOk(q, arenas'[q], sizes, free, live', false) {
      Untouched(q, arenas[q], sizes, free, live, false, free, live', b);
    }
    forall j | 0 <= j < |free| ensures FreeListOk(arenas', sizes[j], j, free[j]) {
      assert FreeListOk(arenas, sizes[j], j, free[j]);
    }
  }

  // The allocator ---------------------------------------------------------------------

  /** The pages palloc_get_multiple is asked for when no descriptor is large enough. */
  function BigPages(wanted: nat): (n: nat)
    ensures n > 0 && wanted + HEADER <= n * PGSIZE < wanted + HEADER + PGSIZE
  {
    (wanted + HEADER + PGSIZE - 1) / PGSIZE
  }

  function BlockSizes(): seq<nat> {
    [16, 32, 64, 128, 256, 512, 1024]
  }

  /** malloc_init */
  method Descriptors() returns (table: seq<nat>, lists: seq<seq<int>>)
    ensures table == BlockSizes() && |lists| == |table| <= MAX_DESCS
    ensures forall i | 0 <= i < |lists| :: lists[i] == []
  {
    table, lists := [], [];
    var size := 16;
    while size < PGSIZE / 2
      invariant |table| == |lists| <= 7 && table == BlockSizes()[..|table|]
      invariant size == if |table| < 7 then BlockSizes()[|table|] else 2048
      invariant forall i | 0 <= i < |lists| :: lists[i] == []
      decreases PGSIZE - size
    {
      table, lists, size := table + [size], lists + [[]], size * 2;
    }
  }

  /** The blocks of a new arena, in order. */
  method BlockList(page: nat, size: nat) returns (list: seq<int>)
    requires SizeOk(size)
    ensures list == AllBlocks(page, size, PerArena(size)) && PerArena(size) > 0
  {
    list := [];
    for k := 0 to PerArena(size)
      invariant list == AllBlocks(page, size, k)
    {
      list := list + [BlockAt(page, size, k)];
    }
    QuotientBetween(PGSIZE - HEADER, size, 1, PGSIZE);
  }

  /** list_remove of every block of an arena. */
  method RemoveBlocks(list: seq<int>, page: nat, size: nat) returns (r: seq<int>)
    requires SizeOk(size) && Distinct(list)
    requires forall k | 0 <= k < PerArena(size) :: BlockAt(page, size, k) in list
    ensures Distinct(r)
    ensures forall x :: x in r <==> x in list && forall j | 0 <= j < PerArena(size) :: x != BlockAt(page, size, j)
  {
    r := list;
    for k := 0 to PerArena(size)
      invariant Distinct(r)
      invariant forall x :: x in r <==> x in list && forall j | 0 <= j < k :: x != BlockAt(page, size, j)
    {
      WithoutMembers(r, BlockAt(page, size, k));
      r := Without(r, BlockAt(page, size, k));
    }
  }

  /** Every listed block of page p is one of its slots. */
  lemma OnPage(arenas: Arenas, size: nat, i: nat, list: seq<int>, p: nat)
    requires SizeOk(size) && FreeListOk(arenas, size, i, list)
    ensures forall x | x in list :: ArenaOf(x) != p <==> forall j | 0 <= j < PerArena(size) :: x != BlockAt(p, size, j)
  {
    forall x | x in list ensures ArenaOf(x) != p <==> forall j | 0 <= j < PerArena(size) :: x != BlockAt(p, size, j) {
      var n :| 0 <= n < |list| && list[n] == x;
      assert IsBlock(arenas, size, i, list[n]);
      forall j | 0 <= j < PerArena(size) ensures ArenaOf(BlockAt(p, size, j)) == p {
        BlockToArena(p, size, j);
      }
    }
  }

  // Specification -------------------------------------------------------------------

  /** Descriptor i is the smallest whose blocks hold `wanted` bytes. */
  ghost predicate Smallest(sizes: seq<nat>, wanted: nat, i: nat) {
    i < |sizes| && wanted <= sizes[i] && forall j | 0 <= j < i :: sizes[j] < wanted
  }

  /** The request cannot be met from the free lists: no descriptor is large enough, or the
      list of the smallest that is has run empty. */
  ghost predicate NeedsPage(sizes: seq<nat>, free: seq<seq<int>>, wanted: nat)
    requires |free| == |sizes|
  {
    forall i | 0 <= i < |sizes| && Smallest(sizes, wanted, i) :: free[i] == []
  }

  /** Put names one of the blocks the clients hold by its position. */
  datatype Request = Get(wanted: nat, grant: Option<nat>) | Put(which: nat)

  /** The page allocator offers pages that no arena uses. */
  predicate Usable(request: Request, arenas: Arenas) {
    request.Get? && request.grant.Some? ==> Unused(arenas, request.grant.value, BigPages(request.wanted))
  }

  ghost predicate Holds(held: seq<int>, live: map<int, nat>) {
    Distinct(held) && forall b :: b in held <==> b in live
  }

  lemma HoldsMore(held: seq<int>, live: map<int, nat>, b: int, size: nat)
    requires Holds(held, live) && b !in live
    ensures Holds(held + [b], live[b := size])
  {
    assert b !in held;
  }

  lemma HoldsFewer(held: seq<int>, live: map<int, nat>, which: nat)
    requires Holds(held, live) && which < |held|
    ensures held[which] in live && Holds(Without(held, held[which]), live - {held[which]})
  {
    assert held[which] in held;
    WithoutMembers(held, held[which]);
  }

  /** The heap between two requests, and the blocks its clients hold. */
  datatype Snapshot = Snapshot(arenas: Arenas, free: seq<seq<int>>, live: map<int, nat>, held: seq<int>)

  ghost predicate SnapshotOk(sizes: seq<nat>, s: Snapshot) {
    Inv(s.arenas, sizes, s.free, s.live, None) && Holds(s.held, s.live)
  }

  /** Live blocks never overlap. */
  ghost predicate NoOverlap(live: map<int, nat>) {
    forall b, c | b in live && c in live && b < c :: b + live[b] <= c
  }

  /** The pages that a Get takes: the granted ones, if it cannot do without. */
  ghost function PagesTaken(sizes: seq<nat>, free: seq<seq<int>>, wanted: nat, grant: Option<nat>): set<nat>
    requires |free| == |sizes|
  {
    if wanted > 0 && grant.Some? && NeedsPage(sizes, free, wanted) then {grant.value} else {}
  }

  /** No live block is on page p. */
  ghost predicate Vacant(live: map<int, nat>, p: int) {
    forall c | c in live :: ArenaOf(c) != p
  }

  /** The pages given back with the last live block on page p. */
  ghost function PagesReturned(live: map<int, nat>, p: nat): set<nat> {
    if Vacant(live, p) then {p} else {}
  }

  /** The first block of free list i is handed out. */
  ghost predicate Popped(arenas: Arenas, free: seq<seq<int>>, i: nat, b: int, arenas': Arenas, free': seq<seq<int>>) {
    && i < |free| && free[i] != [] && b == free[i][0] && free' == free[i := free[i][1..]]
    && ArenaOf(b) in arenas
    && var p := ArenaOf(b);
       arenas[p].Small? && arenas[p].freeCount > 0 && arenas' == Counted(arenas, p, arenas[p].freeCount - 1)
  }

  /** Where the block of a Get comes from: the front of the list of descriptor i, into
      which the blocks of the granted page go first if it is empty. */
  ghost predicate GotSmall(size: nat, arenas: Arenas, free: seq<seq<int>>, i: nat, grant: Option<nat>, b: int,
                           arenas': Arenas, free': seq<seq<int>>)
    requires i < |free|
  {
    if free[i] != [] then Popped(arenas, free, i, b, arenas', free')
    else
      && grant.Some? && size > 0
      && var n := PerArena(size);
         Popped(arenas[grant.value := Small(i, n)], free[i := AllBlocks(grant.value, size, n)], i, b, arenas', free')
  }

  /** The smallest descriptor that is large enough is used; if there is none, the granted
      pages become one block. */
  ghost predicate Got(sizes: seq<nat>, arenas: Arenas, free: seq<seq<int>>, wanted: nat, grant: Option<nat>, b: int,
                      arenas': Arenas, free': seq<seq<int>>)
    requires |free| == |sizes|
  {
    && (forall i | 0 <= i < |sizes| && Smallest(sizes, wanted, i) ::
          GotSmall(sizes[i], arenas, free, i, grant, b, arenas', free'))
    && ((forall i | 0 <= i < |sizes| :: sizes[i] < wanted) ==>
          && grant.Some? && b == BigBlock(grant.value)
          && arenas' == arenas[grant.value := Big(BigPages(wanted))] && free' == free)
  }

  /** A Get that finds the list of its descriptor empty fills it: the block it gets and the
      list afterwards are all the blocks that fit in the granted page. */
  lemma GotFilled(sizes: seq<nat>, arenas: Arenas, free: seq<seq<int>>, wanted: nat, grant: Option<nat>, b: int,
                  arenas': Arenas, free': seq<seq<int>>, i: nat)
    requires |free| == |sizes| && Got(sizes, arenas, free, wanted, grant, b, arenas', free')
    requires Smallest(sizes, wanted, i) && SizeOk(sizes[i]) && free[i] == []
    ensures grant.Some? && |free'| == |free| && Filled(grant.value, sizes[i], [b] + free'[i])
    ensures |free'[i]| + 1 == PerArena(sizes[i])
  {
    assert GotSmall(sizes[i], arenas, free, i, grant, b, arenas', free');
    var list := AllBlocks(grant.value, sizes[i], PerArena(sizes[i]));
    AllBlocksFill(grant.value, sizes[i]);
    assert [b] + free'[i] == list;
  }

  /** Block b goes to the front of its free list, or its page goes back with all its blocks
      if it was the last live one there. */
  ghost predicate Returned(arenas: Arenas, free: seq<seq<int>>, b: int, last: bool, arenas': Arenas,
                           free': seq<seq<int>>)
  {
    && b >= 0 && ArenaOf(b) in arenas
    && var p := ArenaOf(b);
       match arenas[p]
       case Big(_) => last && arenas' == arenas - {p} && free' == free
       case Small(i, n) =>
         && i < |free|
         && if !last then arenas' == Counted(arenas, p, n + 1) && free' == free[i := [b] + free[i]]
            else
              && arenas' == arenas - {p} && |free'| == |free|
              && (forall j | 0 <= j < |free| && j != i :: free'[j] == free[j])
              && forall x :: x in free'[i] <==> x in free[i] && ArenaOf(x) != p
  }

  /** A Get is answered with a new block of that size unless it asks for nothing or needs a
      page that is not granted. */
  ghost predicate GetStep(sizes: seq<nat>, s: Snapshot, wanted: nat, grant: Option<nat>, answer: Option<int>,
                          t: Snapshot)
    requires |s.free| == |sizes|
  {
    && (answer.None? <==> wanted == 0 || (grant.None? && NeedsPage(sizes, s.free, wanted)))
    && (answer.None? ==> t == s)
    && (answer.Some? ==>
          && answer.value !in s.live && t.live == s.live[answer.value := wanted] && t.held == s.held + [answer.value]
          && Got(sizes, s.arenas, s.free, wanted, grant, answer.value, t.arenas, t.free))
    && t.arenas.Keys == s.arenas.Keys + PagesTaken(sizes, s.free, wanted, grant)
  }

  /** A Put takes back one block. */
  ghost predicate PutStep(s: Snapshot, which: nat, t: Snapshot) {
    if which >= |s.held| then t == s
    else
      var b := s.held[which];
      && t.live == s.live - {b} && t.held == Without(s.held, b)
      && b >= 0 && t.arenas.Keys == s.arenas.Keys - PagesReturned(t.live, ArenaOf(b))
      && Returned(s.arenas, s.free, b, Vacant(t.live, ArenaOf(b)), t.arenas, t.free)
  }

  lemma ReturnedLast(arenas: Arenas, free: seq<seq<int>>, b: int, i: nat, arenas1: Arenas, free1: seq<seq<int>>,
                     arenas': Arenas, free': seq<seq<int>>)
    requires b >= 0 && ArenaOf(b) in arenas && arenas[ArenaOf(b)].Small? && i == arenas[ArenaOf(b)].desc < |free|
    requires arenas1 == Counted(arenas, ArenaOf(b), arenas[ArenaOf(b)].freeCount + 1)
    requires free1 == free[i := [b] + free[i]]
    requires arenas' == arenas1 - {ArenaOf(b)} && |free'| == |free1|
    requires forall j | 0 <= j < |free'| && j != i :: free'[j] == free1[j]
    requires forall x :: x in free'[i] <==> x in free1[i] && ArenaOf(x) != ArenaOf(b)
    ensures Returned(arenas, free, b, true, arenas', free')
  {
    CountedKeys(arenas, ArenaOf(b), arenas[ArenaOf(b)].freeCount + 1);
  }

  /** What a request does.  Pages join and leave the heap only when they are needed and when
      they are empty. */
  ghost predicate Step(sizes: seq<nat>, s: Snapshot, request: Request, answer: Option<int>, t: Snapshot) {
    && |s.free| == |sizes|
    && if !Usable(request, s.arenas) then answer.None? && t == s
    else match request
      case Get(wanted, grant) => GetStep(sizes, s, wanted, grant, answer, t)
      case Put(which) => answer.None? && PutStep(s, which, t)
  }

  ghost predicate HeapAt(sizes: seq<nat>, trace: seq<Snapshot>, k: int) {
    0 <= k < |trace| ==> SnapshotOk(sizes, trace[k]) && NoOverlap(trace[k].live)
  }

  /** The heap was in order throughout, and no two blocks held overlapped. */
  ghost predicate TraceOk(sizes: seq<nat>, trace: seq<Snapshot>) {
    forall k :: HeapAt(sizes, trace, k)
  }

  ghost predicate StepAt(sizes: seq<nat>, trace: seq<Snapshot>, requests: seq<Request>, answers: seq<Option<int>>,
                         k: nat)
    requires k < |answers| <= |requests| && k + 1 < |trace|
  {
    Step(sizes, trace[k], requests[k], answers[k], trace[k + 1])
  }

  /** Every request was answered as Step demands. */
  ghost predicate Answered(sizes: seq<nat>, trace: seq<Snapshot>, requests: seq<Request>, answers: seq<Option<int>>) {
    && |answers| <= |requests| && |trace| == |answers| + 1
    && forall k | 0 <= k < |answers| :: StepAt(sizes, trace, requests, answers, k)
  }

  lemma SnapshotNoOverlap(sizes: seq<nat>, s: Snapshot)
    requires SnapshotOk(sizes, s)
    ensures NoOverlap(s.live)
  {
    forall b, c | b in s.live && c in s.live && b < c ensures b + s.live[b] <= c {
      LiveDisjoint(s.arenas, sizes, s.free, s.live, b, c);
    }
  }

  lemma TraceMore(sizes: seq<nat>, trace: seq<Snapshot>, t: Snapshot)
    requires TraceOk(sizes, trace) && SnapshotOk(sizes, t)
    ensures TraceOk(sizes, trace + [t])
  {
    SnapshotNoOverlap(sizes, t);
    forall k ensures HeapAt(sizes, trace + [t], k) {
      assert HeapAt(sizes, trace, k);
    }
  }

  lemma AnsweredMore(sizes: seq<nat>, trace: seq<Snapshot>, requests: seq<Request>, answers: seq<Option<int>>,
                     answer: Option<int>, t: Snapshot)
    requires Answered(sizes, trace, requests, answers) && |answers| < |requests|
    requires Step(sizes, trace[|answers|], requests[|answers|], answer, t)
    ensures Answered(sizes, trace + [t], requests, answers + [answer])
  {
    var more, all := trace + [t], answers + [answer];
    forall k | 0 <= k < |all| ensures StepAt(sizes, more, requests, all, k) {
      if k < |answers| {
        assert StepAt(sizes, trace, requests, answers, k);
      }
    }
  }

  lemma OneServed(sizes: seq<nat>, s: Snapshot, request: Request, answer: Option<int>, t: Snapshot, i: nat)
    requires Step(sizes, s, request, answer, t) && request.Get? && request.grant.None? && request.wanted > 0
    requires Smallest(sizes, request.wanted, i)
    ensures |t.free| == |sizes| && (answer.Some? <==> s.free[i] != [])
    ensures |t.free[i]| == if s.free[i] == [] then 0 else |s.free[i]| - 1
  {
    assert NeedsPage(sizes, s.free, request.wanted) <==> s.free[i] == [];
    if answer.Some? {
      assert GotSmall(sizes[i], s.arenas, s.free, i, None, answer.value, t.arenas, t.free);
    }
  }

  /** The n-th request asks for a block of descriptor i, with no page on offer. */
  ghost predicate AsksFor(sizes: seq<nat>, requests: seq<Request>, i: nat, n: nat)
    requires n < |requests|
  {
    requests[n].Get? && requests[n].grant.None? && requests[n].wanted > 0 && Smallest(sizes, requests[n].wanted, i)
  }

  /** Without another page, exactly as many requests are served as there are blocks on the
      list of their descriptor. */
  lemma ServedAt(sizes: seq<nat>, trace: seq<Snapshot>, requests: seq<Request>, answers: seq<Option<int>>, i: nat,
                 k: nat)
    requires Answered(sizes, trace, requests, answers) && k < |answers| && AsksFor(sizes, requests, i, k)
    requires i < |sizes| == |trace[k].free|
    ensures |trace[k + 1].free| == |sizes| && (answers[k].Some? <==> trace[k].free[i] != [])
    ensures |trace[k + 1].free[i]| == if trace[k].free[i] == [] then 0 else |trace[k].free[i]| - 1
  {
    assert StepAt(sizes, trace, requests, answers, k);
    OneServed(sizes, trace[k], requests[k], answers[k], trace[k + 1], i);
  }

  lemma {:induction false} ListServes(sizes: seq<nat>, trace: seq<Snapshot>, requests: seq<Request>,
                                      answers: seq<Option<int>>, i: nat, n: nat)
    requires Answered(sizes, trace, requests, answers) && n <= |answers| && i < |sizes|
    requires forall k | 0 <= k < |answers| :: AsksFor(sizes, requests, i, k)
    requires |trace[0].free| == |sizes|
    ensures |trace[n].free| == |sizes|
    ensures var m := |trace[0].free[i]|;
            && |trace[n].free[i]| == (if n < m then m - n else 0)
            && (n < |answers| ==> (answers[n].Some? <==> n < m))
  {
    if n > 0 {
      ListServes(sizes, trace, requests, answers, i, n - 1);
      ServedAt(sizes, trace, requests, answers, i, n - 1);
    }
    if n < |answers| {
      ServedAt(sizes, trace, requests, answers, i, n);
    }
  }

  class Heap {
    const sizes: seq<nat>
    var arenas: Arenas
    var free: seq<seq<int>>
    ghost var live: map<int, nat>

    ghost predicate Valid()
      reads this
    {
      Inv(arenas, sizes, free, live, None)
    }

    constructor ()
      ensures Valid() && arenas == map[] && live == map[] && sizes == BlockSizes()
    {
      var table, lists := Descriptors();
      sizes, arenas, free, live := table, map[], lists, map[];
    }

    /** Installs a new state whose invariant is already established. */
    method Commit(arenas': Arenas, free': seq<seq<int>>, ghost live': map<int, nat>, ghost hole: Option<nat>)
      requires Inv(arenas', sizes, free', live', hole)
      modifies this`arenas, this`free, this`live
      ensures Inv(arenas, sizes, free, live, hole) && arenas == arenas' && free == free' && live == live'
    {
      arenas, free, live := arenas', free', live';
    }

    /** The smallest descriptor whose blocks hold `wanted` bytes, or the number of descriptors. */
    method FindDesc(wanted: nat) returns (i: nat)
      requires Valid()
      ensures i <= |sizes| && (i < |sizes| ==> Smallest(sizes, wanted, i))
      ensures forall j | 0 <= j < i :: sizes[j] < wanted
    {
      i := 0;
      while i < |sizes| && sizes[i] < wanted
        invariant i <= |sizes| && forall j | 0 <= j < i :: sizes[j] < wanted
      {
        i := i + 1;
      }
    }

    /** A new arena with all its blocks on the free list. */
    method FillArena(page: nat, i: nat)
      requires Valid() && i < |free| && free[i] == [] && Unused(arenas, page, 1)
      modifies this`arenas, this`free, this`live
      ensures Inv(arenas, sizes, free, live, Some(page)) && live == old(live)
      ensures arenas == old(arenas)[page := Small(i, PerArena(sizes[i]))]
      ensures free == old(free)[i := AllBlocks(page, sizes[i], PerArena(sizes[i]))] && PerArena(sizes[i]) > 0
      ensures Filled(page, sizes[i], free[i])
    {
      AllBlocksFill(page, sizes[i]);
      AddKeeps(arenas, sizes, free, live, page, i);
      var list := BlockList(page, sizes[i]);
      Commit(arenas[page := Small(i, PerArena(sizes[i]))], free[i := list], live, Some(page));
    }

    /** The front block of a free list goes to the client. */
    method TakeFirst(i: nat, wanted: nat, ghost hole: Option<nat>) returns (b: int)
      requires Inv(arenas, sizes, free, live, hole) && i < |free| && free[i] != [] && wanted <= sizes[i]
      requires hole.Some? ==> hole.value == ArenaOf(free[i][0])
      modifies this`arenas, this`free, this`live
      ensures Valid() && b !in old(live) && live == old(live)[b := wanted] && arenas.Keys == old(arenas.Keys)
      ensures b == old(free[i][0]) && free == old(free)[i := old(free[i])[1..]]
      ensures var p := ArenaOf(b);
              && p in old(arenas) && old(arenas)[p].Small? && old(arenas)[p].freeCount > 0
              && arenas == Counted(old(arenas), p, old(arenas)[p].freeCount - 1)
    {
      b := free[i][0];
      var p, list := ArenaOf(b), free[i][1..];
      PopKeeps(arenas, sizes, free, live, hole, i, wanted, b, p, list);
      CountedKeys(arenas, p, arenas[p].freeCount - 1);
      Commit(Counted(arenas, p, arenas[p].freeCount - 1), free[i := list], live[b := wanted], None);
    }

    /** A block of descriptor i, whose free list is filled first if it is empty. */
    method GetBlock(i: nat, wanted: nat, grant: Option<nat>) returns (r: Option<int>)
      requires Valid() && i < |free| && wanted <= sizes[i] && (grant.Some? ==> Unused(arenas, grant.value, 1))
      modifies this`arenas, this`free, this`live
      ensures Valid() && (r.None? <==> old(free)[i] == [] && grant.None?)
      ensures r.None? ==> arenas == old(arenas) && free == old(free) && live == old(live)
      ensures r.Some? ==> r.value !in old(live) && live == old(live)[r.value := wanted]
      ensures r.Some? ==> GotSmall(sizes[i], old(arenas), old(free), i, grant, r.value, arenas, free)
      ensures arenas.Keys == old(arenas.Keys) + if old(free)[i] == [] && grant.Some? then {grant.value} else {}
    {
      if free[i] != [] {
        var b := TakeFirst(i, wanted, None);
        return Some(b);
      }
      if grant.None? {
        return None;
      }
      FillArena(grant.value, i);
      BlockToArena(grant.value, sizes[i], 0);
      var b := TakeFirst(i, wanted, Some(grant.value));
      r := Some(b);
    }

    /** malloc; `grant` is the page allocator's answer, should it be asked. */
    method Malloc(wanted: nat, grant: Option<nat>) returns (r: Option<int>)
      requires Valid()
      requires grant.Some? ==> Unused(arenas, grant.value, BigPages(wanted))
      modifies this`arenas, this`free, this`live
      ensures Valid()
      ensures r.None? ==> arenas == old(arenas) && free == old(free) && live == old(live)
      ensures r.Some? ==> r.value !in old(live) && live == old(live)[r.value := wanted]
      ensures |old(free)| == |sizes|
      ensures r.None? <==> wanted == 0 || (grant.None? && NeedsPage(sizes, old(free), wanted))
      ensures arenas.Keys == old(arenas.Keys) + PagesTaken(sizes, old(free), wanted, grant)
      ensures r.Some? ==> Got(sizes, old(arenas), old(free), wanted, grant, r.value, arenas, free)
      ensures |free| == |sizes|
      ensures r.Some? ==> forall i | 0 <= i < |sizes| && Smallest(sizes, wanted, i) && old(free)[i] == [] ::
                grant.Some? && Filled(grant.value, sizes[i], [r.value] + free[i])
    {
      if wanted == 0 {
        return None;
      }
      var i := FindDesc(wanted);
      assert NeedsPage(sizes, free, wanted) <==> i == |sizes| || free[i] == [];
      if i < |sizes| {
        r := GetBlock(i, wanted, grant);
        if r.Some? && old(free)[i] == [] {
          GotFilled(sizes, old(arenas), old(free), wanted, grant, r.value, arenas, free, i);
        }
      } else if grant.None? {
        r := None;
      } else {
        var n := BigPages(wanted);
        BigKeeps(arenas, sizes, free, live, grant.value, n, wanted);
        Commit(arenas[grant.value := Big(n)], free, live[BigBlock(grant.value) := wanted], None);
        r := Some(BigBlock(grant.value));
      }
    }

    /** Takes a fully free arena's blocks off the free list. */
    method DropArena(p: nat)
      requires Inv(arenas, sizes, free, live, Some(p)) && p in arenas && arenas[p].Small?
      requires arenas[p].freeCount >= PerArena(sizes[arenas[p].desc])
      modifies this`arenas, this`free, this`live
      ensures Valid() && live == old(live) && arenas == old(arenas) - {p} && Vacant(live, p)
      ensures |free| == |old(free)| && old(arenas)[p].desc < |free|
      ensures forall j | 0 <= j < |free| && j != old(arenas)[p].desc :: free[j] == old(free)[j]
      ensures forall x :: x in free[old(arenas)[p].desc] <==> x in old(free)[old(arenas)[p].desc] && ArenaOf(x) != p
    {
      FullArena(arenas, sizes, free, live, Some(p), p);
      var i := arenas[p].desc;
      assert FreeListOk(arenas, sizes[i], i, free[i]);
      var list := RemoveBlocks(free[i], p, sizes[i]);
      OnPage(arenas, sizes[i], i, free[i], p);
      DropKeeps(arenas, sizes, free, live, p, list);
      Commit(arenas - {p}, free[i := list], live, None);
    }

    /** list_push_front onto the free list of b's descriptor. */
    method Push(b: int)
      requires Valid() && b in live && ArenaOf(b) in arenas && arenas[ArenaOf(b)].Small?
      modifies this`arenas, this`free, this`live
      ensures Inv(arenas, sizes, free, live, Some(ArenaOf(b))) && live == old(live) - {b}
      ensures arenas == Counted(old(arenas), ArenaOf(b), old(arenas)[ArenaOf(b)].freeCount + 1)
      ensures var i := old(arenas)[ArenaOf(b)].desc; i < |old(free)| && free == old(free)[i := [b] + old(free)[i]]
    {
      PushKeeps(arenas, sizes, free, live, b);
      var p := ArenaOf(b);
      var i := arenas[p].desc;
      Commit(Counted(arenas, p, arenas[p].freeCount + 1), free[i := [b] + free[i]], live - {b}, Some(p));
    }

    /** Frees the arena if it is now entirely unused. */
    method PushFront(b: int) returns (freed: bool)
      requires Valid() && b in live && ArenaOf(b) in arenas && arenas[ArenaOf(b)].Small?
      modifies this`arenas, this`free, this`live
      ensures Valid() && live == old(live) - {b}
      ensures freed <==> Vacant(live, ArenaOf(b))
      ensures freed ==> arenas == old(arenas) - {ArenaOf(b)}
      ensures !freed ==> arenas.Keys == old(arenas.Keys)
      ensures Returned(old(arenas), old(free), b, freed, arenas, free)
    {
      ghost var arenas0, free0 := arenas, free;
      var p := ArenaOf(b);
      CountedKeys(arenas, p, arenas[p].freeCount + 1);
      Push(b);
      freed := arenas[p].freeCount >= PerArena(sizes[arenas[p].desc]);
      if freed {
        ghost var arenas1, free1 := arenas, free;
        DropArena(p);
        assert Returned(arenas0, free0, b, true, arenas, free) by {
          ReturnedLast(arenas0, free0, b, arenas0[p].desc, arenas1, free1, arenas, free);
        }
      } else {
        assert Returned(arenas0, free0, b, false, arenas, free);
        PartlyLive(arenas, sizes, free, live, p);
      }
    }

    /** free of a block; the result is the page run given back, if any.  The page goes back
        exactly when its last live block is freed. */
    method Free(b: Option<int>) returns (returned: Option<nat>)
      requires Valid() && (b.Some? ==> b.value in live)
      modifies this`arenas, this`free, this`live
      ensures Valid()
      ensures live == if b.Some? then old(live) - {b.value} else old(live)
      ensures b.None? ==> returned.None?
      ensures b.Some? ==> (returned == Some(ArenaOf(b.value)) <==> Vacant(live, ArenaOf(b.value)))
      ensures returned.Some? ==>
                b.Some? && returned.value == ArenaOf(b.value) && arenas == old(arenas) - {ArenaOf(b.value)}
      ensures returned.None? ==> arenas.Keys == old(arenas.Keys)
      ensures b.Some? ==> Returned(old(arenas), old(free), b.value, returned.Some?, arenas, free)
    {
      if b.None? {
        return None;
      }
      var p := ArenaOf(b.value);
      assert LiveOk(arenas, sizes, b.value, live[b.value]);
      if arenas[p].Big? {
        DropBigKeeps(arenas, sizes, free, live, b.value);
        Commit(arenas - {p}, free, live - {b.value}, None);
        return Some(p);
      }
      var freed := PushFront(b.value);
      returned := if freed then Some(p) else None;
    }

    ghost function Snap(held: seq<int>): Snapshot
      reads this
    {
      Snapshot(arenas, free, live, held)
    }

    /** An allocation by the clients, who hold `held`. */
    method Get(wanted: nat, grant: Option<nat>, held: seq<int>) returns (answer: Option<int>, held': seq<int>)
      requires SnapshotOk(sizes, Snap(held)) && Usable(Request.Get(wanted, grant), arenas)
      modifies this`arenas, this`free, this`live
      ensures |old(free)| == |sizes| && GetStep(sizes, old(Snap(held)), wanted, grant, answer, Snap(held'))
      ensures SnapshotOk(sizes, Snap(held'))
    {
      ghost var before := live;
      answer := Malloc(wanted, grant);
      held' := held;
      if answer.Some? {
        HoldsMore(held, before, answer.value, wanted);
        held' := held + [answer.value];
      }
    }

    /** The clients free the block at position `which`. */
    method Put(which: nat, held: seq<int>) returns (held': seq<int>)
      requires SnapshotOk(sizes, Snap(held))
      modifies this`arenas, this`free, this`live
      ensures SnapshotOk(sizes, Snap(held')) && PutStep(old(Snap(held)), which, Snap(held'))
    {
      held' := held;
      if which < |held| {
        HoldsFewer(held, live, which);
        assert LiveOk(arenas, sizes, held[which], live[held[which]]);
        var returned := Free(Some(held[which]));
        held' := Without(held, held[which]);
      }
    }

    /** One request of the clients, who hold `held`. */
    method Serve(request: Request, held: seq<int>) returns (answer: Option<int>, held': seq<int>)
      requires SnapshotOk(sizes, Snap(held))
      modifies this`arenas, this`free, this`live
      ensures SnapshotOk(sizes, Snap(held')) && Step(sizes, old(Snap(held)), request, answer, Snap(held'))
    {
      answer, held' := None, held;
      match request {
        case Get(wanted, grant) =>
          if grant.None? || Unused(arenas, grant.value, BigPages(wanted)) {
            answer, held' := Get(wanted, grant, held);
          }
        case Put(which) =>
          held' := Put(which, held);
      }
    }

    /** Every run of allocations and frees by well-behaved clients: `trace` is the heap
        before, between and after the requests.  Each answer is the one Step demands, and
        at no time do two blocks held overlap. */
    method Run(requests: seq<Request>, held0: seq<int>)
      returns (answers: seq<Option<int>>, held: seq<int>, ghost trace: seq<Snapshot>)
      requires SnapshotOk(sizes, Snap(held0))
      modifies this`arenas, this`free, this`live
      ensures |answers| == |requests| && Answered(sizes, trace, requests, answers) && TraceOk(sizes, trace)
      ensures trace[0] == old(Snap(held0)) && trace[|requests|] == Snap(held)
    {
      answers, held, trace := [], held0, [Snap(held0)];
      assert TraceOk(sizes, trace) by {
        TraceMore(sizes, [], Snap(held0));
        assert [] + trace == trace;
      }
      for n := 0 to |requests|
        invariant |answers| == n && Answered(sizes, trace, requests, answers) && TraceOk(sizes, trace)
        invariant trace[0] == old(Snap(held0)) && trace[n] == Snap(held) && SnapshotOk(sizes, Snap(held))
      {
        var answer;
        answer, held := Serve(requests[n], held);
        ghost var t := Snap(held);
        assert Answered(sizes, trace + [t], requests, answers + [answer]) by {
          AnsweredMore(sizes, trace, requests, answers, answer, t);
        }
        assert TraceOk(sizes, trace + [t]) by {
          TraceMore(sizes, trace, t);
        }
        answers, trace := answers + [answer], trace + [t];
      }
    }
  }
}
