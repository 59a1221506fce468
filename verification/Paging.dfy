/** Demand paging (vm/frame.c, vm/swap.c, vm/page.c, userprog/pagedir.c and the
    paging half of userprog/process.c).

    A user page lives in the executable file, in a frame of the user pool, or in a
    swap slot; faults, evictions and user accesses move it around.  The specification
    is a flat memory: a map from user pages to their bytes.  A fault, with the eviction
    it may need, and a user access are one atomic step each. */
module Paging {
  import opened Sequences
  import opened Storage

  const PGSIZE: nat := 4096
  const SECTORS_PER_PAGE: nat := 8
  const USER_TOP: nat := 0xC0000         // page number of PHYS_BASE
  const MAX_STACK_PAGES: nat := 2048     // MAX_STACK_SIZE / PGSIZE

  type Page = p: seq<Byte> | |p| == 4096 witness seq(4096, _ => 0)

  function ZeroPage(): Page {
    seq(4096, _ => 0)
  }

  /** A user page: the process (equivalently its page directory) and the page number. */
  datatype Key = Key(pid: nat, upage: nat)

  /** A page table entry. */
  datatype Pte = Pte(kpage: nat, present: bool, writable: bool, accessed: bool, dirty: bool)

  /** A supplemental page table entry; slot == -1 means "not in swap". */
  datatype Spte = Spte(ofs: nat, readBytes: nat, zeroBytes: nat, writable: bool, slot: int)

  /** A frame table entry. */
  datatype Frame = Frame(kpage: nat, key: Key, pinned: bool)

  /** A page of the flat memory. */
  datatype FlatPage = FlatPage(bytes: Page, writable: bool)

  /** Contents of the executable of each process. */
  type Files = nat -> seq<Byte>

  /** The parts of the state that hold page contents. */
  datatype Mem = Mem(phys: seq<Page>, ptes: map<Key, Pte>, spt: map<Key, Spte>, dev: seq<Sector>)

  predicate Present(ptes: map<Key, Pte>, key: Key) {
    key in ptes && ptes[key].present
  }

  // ---------------------------------------------------------------------------
  // Swap slots
  // ---------------------------------------------------------------------------

  /** The first n sectors from `from` on, one after the other. */
  ghost function Joined(dev: seq<Sector>, from: nat, n: nat): (s: seq<Byte>)
    requires from + n <= |dev|
    ensures |s| == 512 * n
  {
    if n == 0 then [] else Joined(dev, from, n - 1) + dev[from + n - 1]
  }

  /** The page stored in a swap slot. */
  ghost function SlotPage(dev: seq<Sector>, slot: nat): Page
    requires SECTORS_PER_PAGE * slot + SECTORS_PER_PAGE <= |dev|
  {
    Joined(dev, SECTORS_PER_PAGE * slot, SECTORS_PER_PAGE)
  }

  lemma {:induction false} JoinedSame(d: seq<Sector>, d': seq<Sector>, from: nat, n: nat)
    requires from + n <= |d| && |d| == |d'|
    requires forall i | from <= i < from + n :: d[i] == d'[i]
    ensures Joined(d, from, n) == Joined(d', from, n)
  {
    if n > 0 {
      JoinedSame(d, d', from, n - 1);
    }
  }

  /** Only the sectors of `slot` differ between the two devices. */
  predicate OnlySlotChanged(d: seq<Sector>, d': seq<Sector>, slot: nat) {
    && |d| == |d'|
    && forall i | 0 <= i < |d| && !(SECTORS_PER_PAGE * slot <= i < SECTORS_PER_PAGE * slot + SECTORS_PER_PAGE) ::
         d[i] == d'[i]
  }

  /** Slots do not overlap: writing one leaves every other as it was. */
  lemma OtherSlotsKept(d: seq<Sector>, d': seq<Sector>, slot: nat, other: nat)
    requires OnlySlotChanged(d, d', slot) && other != slot
    requires SECTORS_PER_PAGE * other + SECTORS_PER_PAGE <= |d|
    ensures SlotPage(d, other) == SlotPage(d', other)
  {
    JoinedSame(d, d', SECTORS_PER_PAGE * other, SECTORS_PER_PAGE);
  }

  // ---------------------------------------------------------------------------
  // Ownership
  // ---------------------------------------------------------------------------

  ghost predicate HasFrame(frames: seq<Frame>, kpage: nat) {
    exists i :: 0 <= i < |frames| && frames[i].kpage == kpage
  }

  ghost predicate FrameFor(frames: seq<Frame>, key: Key, hole: int) {
    exists i :: 0 <= i < |frames| && i != hole && frames[i].key == key
  }

  predicate MapsTo(ptes: map<Key, Pte>, f: Frame) {
    Present(ptes, f.key) && ptes[f.key].kpage == f.kpage
  }

  /** Frame i has a used pool page and, unless it is between owners, is mapped. */
  predicate FrameOk(frames: seq<Frame>, used: seq<bool>, ptes: map<Key, Pte>, hole: int, i: int) {
    0 <= i < |frames| ==>
      frames[i].kpage < |used| && used[frames[i].kpage] && (i != hole ==> MapsTo(ptes, frames[i]))
  }

  predicate FramesApart(frames: seq<Frame>, i: int, j: int) {
    0 <= i < j < |frames| ==> frames[i].kpage != frames[j].kpage
  }

  ghost predicate PoolPageOk(frames: seq<Frame>, used: seq<bool>, k: int) {
    0 <= k < |used| && used[k] ==> HasFrame(frames, k)
  }

  ghost predicate EntryOk(frames: seq<Frame>, ptes: map<Key, Pte>, hole: int, key: Key) {
    Present(ptes, key) ==> FrameFor(frames, key, hole)
  }

  /** Pool pages, frames and present page table entries match one to one: every used
      pool page has exactly one frame, the entry named by a frame is present and maps
      the frame's page, and every present entry is named by a frame.  Frame `hole`
      (-1: none) is between owners. */
  ghost predicate Owned(frames: seq<Frame>, used: seq<bool>, ptes: map<Key, Pte>, hole: int) {
    && (forall i :: FrameOk(frames, used, ptes, hole, i))
    && (forall i, j :: FramesApart(frames, i, j))
    && (forall k :: PoolPageOk(frames, used, k))
    && (forall key :: EntryOk(frames, ptes, hole, key))
  }

  predicate SlotOk(spt: map<Key, Spte>, swapUsed: seq<bool>, key: Key) {
    key in spt ==> -1 <= spt[key].slot < |swapUsed| && (spt[key].slot >= 0 ==> swapUsed[spt[key].slot])
  }

  predicate SlotsApart(spt: map<Key, Spte>, a: Key, b: Key) {
    a in spt && b in spt && a != b && spt[a].slot >= 0 ==> spt[a].slot != spt[b].slot
  }

  /** Recorded swap slots are marked used and belong to one entry each. */
  ghost predicate SlotsOk(spt: map<Key, Spte>, swapUsed: seq<bool>) {
    && (forall key :: SlotOk(spt, swapUsed, key))
    && forall a, b :: SlotsApart(spt, a, b)
  }

  predicate KnownAt(frames: seq<Frame>, spt: map<Key, Spte>, extra: Option<Key>, i: int) {
    0 <= i < |frames| && Some(frames[i].key) != extra ==> frames[i].key in spt
  }

  /** Every frame's page is described by the supplemental table, except page `extra`. */
  ghost predicate Known(frames: seq<Frame>, spt: map<Key, Spte>, extra: Option<Key>) {
    forall i :: KnownAt(frames, spt, extra, i)
  }

  predicate UnpinnedAt(frames: seq<Frame>, hole: int, i: int) {
    0 <= i < |frames| && i != hole ==> !frames[i].pinned
  }

  ghost predicate UnpinnedBut(frames: seq<Frame>, hole: int) {
    forall i :: UnpinnedAt(frames, hole, i)
  }

  /** The frame that a present entry names. */
  lemma OwnerOf(frames: seq<Frame>, used: seq<bool>, ptes: map<Key, Pte>, hole: int, key: Key) returns (i: nat)
    requires Owned(frames, used, ptes, hole) && Present(ptes, key)
    ensures i < |frames| && i != hole && frames[i].key == key && MapsTo(ptes, frames[i])
    ensures ptes[key].kpage < |used| && used[ptes[key].kpage]
  {
    assert EntryOk(frames, ptes, hole, key);
    i :| 0 <= i < |frames| && i != hole && frames[i].key == key;
    assert FrameOk(frames, used, ptes, hole, i);
  }

  lemma DifferentFrames(frames: seq<Frame>, i: nat, j: nat)
    requires i < |frames| && j < |frames| && i != j && forall a, b :: FramesApart(frames, a, b)
    ensures frames[i].kpage != frames[j].kpage
  {
    assert FramesApart(frames, i, j) && FramesApart(frames, j, i);
  }

  /** No kernel page is mapped by two present entries. */
  lemma MappingsInjective(frames: seq<Frame>, used: seq<bool>, ptes: map<Key, Pte>, hole: int, a: Key, b: Key)
    requires Owned(frames, used, ptes, hole) && Present(ptes, a) && Present(ptes, b) && a != b
    ensures ptes[a].kpage != ptes[b].kpage
  {
    var i := OwnerOf(frames, used, ptes, hole, a);
    var j := OwnerOf(frames, used, ptes, hole, b);
    DifferentFrames(frames, i, j);
  }

  // ---------------------------------------------------------------------------
  // Contents
  // ---------------------------------------------------------------------------

  /** load_page's file branch goes through: the read is not short (a read of 0 bytes
      never is) and what it clears stays inside the page. */
  predicate Loadable(e: Spte, file: seq<Byte>) {
    e.readBytes + e.zeroBytes <= PGSIZE && (e.readBytes == 0 || e.ofs + e.readBytes <= |file|)
  }

  /** The page can be read from the executable, all of it. */
  predicate Backed(e: Spte, file: seq<Byte>) {
    Loadable(e, file) && e.readBytes + e.zeroBytes == PGSIZE
  }

  /** The page as the executable gives it: file bytes, then zeros. */
  function FilePage(e: Spte, file: seq<Byte>): Page
    requires Backed(e, file)
  {
    if e.readBytes == 0 then ZeroPage()
    else file[e.ofs..e.ofs + e.readBytes] + ZeroPage()[e.readBytes..]
  }

  /** What load_page's file branch leaves in a frame that held `stale`: file bytes, then
      as many zeros as the entry says. */
  function FilledPage(e: Spte, file: seq<Byte>, stale: Page): Page
    requires Loadable(e, file)
  {
    (if e.readBytes == 0 then [] else file[e.ofs..e.ofs + e.readBytes])
    + ZeroPage()[..e.zeroBytes] + stale[e.readBytes + e.zeroBytes..]
  }

  lemma FilledBacked(e: Spte, file: seq<Byte>, stale: Page)
    requires Backed(e, file)
    ensures FilledPage(e, file, stale) == FilePage(e, file)
  {
  }

  /** The page would come back as `bytes` if it were brought in now. */
  ghost predicate Reloads(dev: seq<Sector>, e: Spte, file: seq<Byte>, bytes: Page) {
    if e.slot >= 0 then SECTORS_PER_PAGE * e.slot + SECTORS_PER_PAGE <= |dev| && SlotPage(dev, e.slot) == bytes
    else Backed(e, file) && FilePage(e, file) == bytes
  }

  /** Where page `key` is and that what is there is its flat content: in a frame, and
      then a clean page with file bytes would also come back as it is; or where a reload
      finds it.  A described page that cannot be loaded is not part of the flat memory. */
  ghost predicate PageOk(v: Mem, files: Files, flat: map<Key, FlatPage>, key: Key) {
    if key !in v.spt then key !in flat
    else
      var e, file := v.spt[key], files(key.pid);
      if key !in flat then
        !Present(v.ptes, key) && e.slot < 0 && e.readBytes + e.zeroBytes == PGSIZE && !Backed(e, file)
      else
        && flat[key].writable == e.writable
        && (Present(v.ptes, key) ==>
              && v.ptes[key].kpage < |v.phys| && v.phys[v.ptes[key].kpage] == flat[key].bytes
              && v.ptes[key].writable == e.writable)
        && (!Present(v.ptes, key) || (!v.ptes[key].dirty && e.readBytes > 0) ==>
              Reloads(v.dev, e, file, flat[key].bytes))
  }

  /** The paged memory represents `flat`, leaving some pages aside. */
  ghost predicate Represents(v: Mem, files: Files, flat: map<Key, FlatPage>, aside: set<Key>) {
    forall key: Key | key !in aside :: PageOk(v, files, flat, key)
  }

  /** Page `key` looks the same in both states. */
  ghost predicate SameFor(v: Mem, v': Mem, key: Key) {
    && (key in v.spt <==> key in v'.spt)
    && (key in v.spt ==> v.spt[key] == v'.spt[key])
    && (Present(v.ptes, key) <==> Present(v'.ptes, key))
    && (Present(v.ptes, key) ==>
          var p, p' := v.ptes[key], v'.ptes[key];
          p.kpage == p'.kpage && p.writable == p'.writable && p.dirty == p'.dirty
          && (p.kpage < |v.phys| ==> p.kpage < |v'.phys| && v.phys[p.kpage] == v'.phys[p.kpage]))
    && (key in v.spt && v.spt[key].slot >= 0 ==>
          var s := v.spt[key].slot;
          SECTORS_PER_PAGE * s + SECTORS_PER_PAGE <= |v.dev| ==>
            SECTORS_PER_PAGE * s + SECTORS_PER_PAGE <= |v'.dev| && SlotPage(v.dev, s) == SlotPage(v'.dev, s))
  }

  lemma SamePageOk(v: Mem, v': Mem, files: Files, flat: map<Key, FlatPage>, key: Key)
    requires PageOk(v, files, flat, key) && SameFor(v, v', key)
    ensures PageOk(v', files, flat, key)
  {
  }

  // ---------------------------------------------------------------------------
  // Steps on values
  // ---------------------------------------------------------------------------

  predicate SameMapping(p: map<Key, Pte>, q: map<Key, Pte>, key: Key) {
    (key in p <==> key in q) && (key in p ==> p[key] == q[key].(accessed := p[key].accessed))
  }

  /** Two page tables that differ at most in reference bits. */
  ghost predicate SameButAccessed(p: map<Key, Pte>, q: map<Key, Pte>) {
    forall key :: SameMapping(p, q, key)
  }

  lemma AccessedSet(p: map<Key, Pte>, q: map<Key, Pte>, key: Key, accessed: bool)
    requires SameButAccessed(p, q) && key in q
    ensures SameButAccessed(p, q[key := q[key].(accessed := accessed)])
  {
    var r := q[key := q[key].(accessed := accessed)];
    forall k ensures SameMapping(p, r, k) {
      assert SameMapping(p, q, k);
    }
  }

  predicate StillIn(ptes: map<Key, Pte>, ptes': map<Key, Pte>, key: Key) {
    Present(ptes', key) ==> Present(ptes, key)
  }

  /** Only pages that were in memory, and page `added`, are. */
  ghost predicate NoNewPages(ptes: map<Key, Pte>, ptes': map<Key, Pte>, added: Option<Key>) {
    forall key: Key | Some(key) != added :: StillIn(ptes, ptes', key)
  }

  lemma AccessedNoNew(p: map<Key, Pte>, q: map<Key, Pte>)
    requires SameButAccessed(p, q)
    ensures NoNewPages(p, q, None) && NoNewPages(q, p, None)
  {
    forall key: Key ensures StillIn(p, q, key) && StillIn(q, p, key) {
      assert SameMapping(p, q, key);
    }
  }

  /** Pins and reference bits have nothing to do with ownership. */
  lemma LruOwned(f: seq<Frame>, g: seq<Frame>, used: seq<bool>, p: map<Key, Pte>, q: map<Key, Pte>)
    requires |g| == |f| && SameButAccessed(p, q) && Owned(f, used, p, -1)
    requires forall i | 0 <= i < |g| :: g[i].kpage == f[i].kpage && g[i].key == f[i].key
    ensures Owned(g, used, q, -1)
  {
    forall i ensures FrameOk(g, used, q, -1, i) {
      assert FrameOk(f, used, p, -1, i) && (0 <= i < |f| ==> SameMapping(p, q, f[i].key));
    }
    forall i, j ensures FramesApart(g, i, j) {
      assert FramesApart(f, i, j);
    }
    forall k ensures PoolPageOk(g, used, k) {
      assert PoolPageOk(f, used, k);
      if 0 <= k < |used| && used[k] {
        var i :| 0 <= i < |f| && f[i].kpage == k;
        assert g[i].kpage == k;
      }
    }
    forall key ensures EntryOk(g, q, -1, key) {
      assert SameMapping(p, q, key);
      if Present(q, key) {
        var i := OwnerOf(f, used, p, -1, key);
        assert g[i].key == key;
      }
    }
  }

  lemma AccessedRepresents(v: Mem, q: map<Key, Pte>, files: Files, flat: map<Key, FlatPage>, aside: set<Key>)
    requires SameButAccessed(v.ptes, q) && Represents(v, files, flat, aside)
    ensures Represents(v.(ptes := q), files, flat, aside)
  {
    forall key: Key | key !in aside ensures PageOk(v.(ptes := q), files, flat, key) {
      assert PageOk(v, files, flat, key) && SameMapping(v.ptes, q, key);
      SamePageOk(v, v.(ptes := q), files, flat, key);
    }
  }

  /** pagedir_clear_page on the page of frame i leaves that frame between owners. */
  lemma ClearOwned(frames: seq<Frame>, used: seq<bool>, ptes: map<Key, Pte>, i: nat)
    requires Owned(frames, used, ptes, -1) && i < |frames|
    ensures MapsTo(ptes, frames[i]) && frames[i].kpage < |used|
    ensures var key := frames[i].key;
            Owned(frames, used, ptes[key := ptes[key].(present := false)], i)
  {
    var key := frames[i].key;
    assert FrameOk(frames, used, ptes, -1, i);
    var q := ptes[key := ptes[key].(present := false)];
    forall j ensures FrameOk(frames, used, q, i, j) {
      assert FrameOk(frames, used, ptes, -1, j);
      if 0 <= j < |frames| && j != i {
        DifferentFrames(frames, i, j);
      }
    }
    forall k ensures EntryOk(frames, q, i, k) {
      if Present(q, k) {
        var j := OwnerOf(frames, used, ptes, -1, k);
        assert j != i;
      }
    }
  }

  /** Giving the free frame `hole` to page key. */
  lemma InstallOwned(frames: seq<Frame>, used: seq<bool>, ptes: map<Key, Pte>, hole: nat, f: Frame, p: Pte)
    requires hole < |frames| && Owned(frames, used, ptes, hole) && !Present(ptes, f.key)
    requires f.kpage == frames[hole].kpage == p.kpage && p.present
    ensures Owned(frames[hole := f], used, ptes[f.key := p], -1)
  {
    var g, q := frames[hole := f], ptes[f.key := p];
    forall i ensures FrameOk(g, used, q, -1, i) {
      assert FrameOk(frames, used, ptes, hole, i);
    }
    forall i, j ensures FramesApart(g, i, j) {
      assert FramesApart(frames, i, j);
    }
    forall k ensures PoolPageOk(g, used, k) {
      assert PoolPageOk(frames, used, k);
      if 0 <= k < |used| && used[k] {
        var i :| 0 <= i < |frames| && frames[i].kpage == k;
        assert g[i].kpage == k;
      }
    }
    forall k ensures EntryOk(g, q, -1, k) {
      if k == f.key {
        assert g[hole].key == k;
      } else if Present(q, k) {
        var i := OwnerOf(frames, used, ptes, hole, k);
        assert g[i].key == k;
      }
    }
  }

  /** A page taken from the pool starts out as a frame between owners. */
  lemma NewFrameOwned(frames: seq<Frame>, used: seq<bool>, ptes: map<Key, Pte>, f: Frame)
    requires Owned(frames, used, ptes, -1) && f.kpage < |used| && !used[f.kpage]
    ensures Owned(frames + [f], used[f.kpage := true], ptes, |frames|)
  {
    var g, used' := frames + [f], used[f.kpage := true];
    forall i ensures FrameOk(g, used', ptes, |frames|, i) {
      assert FrameOk(frames, used, ptes, -1, i);
    }
    forall i, j ensures FramesApart(g, i, j) {
      assert FramesApart(frames, i, j) && FrameOk(frames, used, ptes, -1, i);
    }
    forall n ensures PoolPageOk(g, used', n) {
      if n == f.kpage {
        assert g[|frames|].kpage == n;
      } else {
        assert PoolPageOk(frames, used, n);
        if 0 <= n < |used| && used[n] {
          var i :| 0 <= i < |frames| && frames[i].kpage == n;
          assert g[i].kpage == n;
        }
      }
    }
    forall key ensures EntryOk(g, ptes, |frames|, key) {
      if Present(ptes, key) {
        var i := OwnerOf(frames, used, ptes, -1, key);
        assert g[i].key == key;
      }
    }
  }

  ghost predicate SameEntry(spt: map<Key, Spte>, spt': map<Key, Spte>, key: Key) {
    (key in spt <==> key in spt') && (key in spt ==> spt'[key] == spt[key])
  }

  lemma NoNewSet(ptes: map<Key, Pte>, key: Key, p: Pte)
    ensures NoNewPages(ptes, ptes[key := p], Some(key))
    ensures !p.present ==> NoNewPages(ptes, ptes[key := p], None)
  {
  }

  lemma NoneNew(ptes: map<Key, Pte>)
    ensures NoNewPages(ptes, ptes, None)
  {
  }

  lemma StillMapped(ptes: map<Key, Pte>, key: Key, p: Pte)
    requires Present(ptes, key)
    ensures NoNewPages(ptes, ptes[key := p], None)
  {
  }

  lemma NoneLost(ptes: map<Key, Pte>, key: Key, p: Pte)
    requires p.present
    ensures NoNewPages(ptes[key := p], ptes, None)
  {
  }

  lemma NoNewTrans(p: map<Key, Pte>, q: map<Key, Pte>, r: map<Key, Pte>, a: Option<Key>, b: Option<Key>)
    requires NoNewPages(p, q, a) && NoNewPages(q, r, b) && (a == b || a == None)
    ensures NoNewPages(p, r, b)
  {
    forall key: Key | Some(key) != b ensures StillIn(p, r, key) {
      assert StillIn(p, q, key) && StillIn(q, r, key);
    }
  }

  // Keeping the tables in step ----------------------------------------------

  lemma FrameReplaced(frames: seq<Frame>, spt: map<Key, Spte>, extra: Option<Key>, hole: int, i: nat, f: Frame)
    requires i < |frames| && Known(frames, spt, extra) && UnpinnedBut(frames, hole) && (hole == -1 || hole == i)
    requires f.key in spt || extra == Some(f.key)
    ensures Known(frames[i := f], spt, extra) && UnpinnedBut(frames[i := f], if f.pinned then i else -1)
  {
    var g, h := frames[i := f], if f.pinned then i else -1;
    forall j ensures KnownAt(g, spt, extra, j) && UnpinnedAt(g, h, j) {
      assert KnownAt(frames, spt, extra, j) && UnpinnedAt(frames, hole, j);
    }
  }

  lemma FrameAppended(frames: seq<Frame>, spt: map<Key, Spte>, extra: Option<Key>, f: Frame)
    requires Known(frames, spt, extra) && UnpinnedBut(frames, -1) && (f.key in spt || extra == Some(f.key))
    ensures Known(frames + [f], spt, extra) && UnpinnedBut(frames + [f], |frames|)
  {
    var g, n := frames + [f], |frames|;
    forall j ensures KnownAt(g, spt, extra, j) && UnpinnedAt(g, n, j) {
      assert KnownAt(frames, spt, extra, j) && UnpinnedAt(frames, -1, j);
    }
  }

  /** A table entry changes or is added. */
  lemma EntryKnown(frames: seq<Frame>, spt: map<Key, Spte>, extra: Option<Key>, key: Key, e: Spte)
    requires Known(frames, spt, extra)
    ensures Known(frames, spt[key := e], extra)
    ensures extra == Some(key) ==> Known(frames, spt[key := e], None)
  {
    var t := spt[key := e];
    forall i ensures KnownAt(frames, t, extra, i) && (extra == Some(key) ==> KnownAt(frames, t, None, i)) {
      assert KnownAt(frames, spt, extra, i);
    }
  }

  lemma KnownAside(frames: seq<Frame>, spt: map<Key, Spte>, key: Key)
    requires Known(frames, spt, None)
    ensures Known(frames, spt, Some(key))
  {
    forall i ensures KnownAt(frames, spt, Some(key), i) {
      assert KnownAt(frames, spt, None, i);
    }
  }

  lemma KnownAgain(frames: seq<Frame>, spt: map<Key, Spte>, key: Key)
    requires Known(frames, spt, Some(key)) && key in spt
    ensures Known(frames, spt, None)
  {
    forall i ensures KnownAt(frames, spt, None, i) {
      assert KnownAt(frames, spt, Some(key), i);
    }
  }

  predicate NotIn(spt: map<Key, Spte>, key: Key, slot: int) {
    key in spt ==> spt[key].slot != slot
  }

  ghost predicate Unrecorded(spt: map<Key, Spte>, slot: int) {
    forall key :: NotIn(spt, key, slot)
  }

  /** An entry without a slot is put in; a slot it had is recorded nowhere then. */
  lemma SlotlessEntry(spt: map<Key, Spte>, swapUsed: seq<bool>, key: Key, e: Spte)
    requires SlotsOk(spt, swapUsed) && e.slot == -1
    ensures SlotsOk(spt[key := e], swapUsed)
    ensures key in spt ==> -1 <= spt[key].slot < |swapUsed|
    ensures key in spt && spt[key].slot >= 0 ==>
              swapUsed[spt[key].slot] && Unrecorded(spt[key := e], spt[key].slot)
  {
    var t := spt[key := e];
    assert SlotOk(spt, swapUsed, key);
    forall a ensures SlotOk(t, swapUsed, a) {
      assert SlotOk(spt, swapUsed, a);
    }
    forall a, b ensures SlotsApart(t, a, b) {
      assert SlotsApart(spt, a, b) && SlotOk(spt, swapUsed, a);
    }
    if key in spt && spt[key].slot >= 0 {
      forall k ensures NotIn(t, k, spt[key].slot) {
        assert SlotsApart(spt, key, k);
      }
    }
  }

  lemma FreedSlot(spt: map<Key, Spte>, swapUsed: seq<bool>, slot: nat)
    requires SlotsOk(spt, swapUsed) && slot < |swapUsed| && Unrecorded(spt, slot)
    ensures SlotsOk(spt, swapUsed[slot := false])
  {
    var u := swapUsed[slot := false];
    forall key ensures SlotOk(spt, u, key) {
      assert SlotOk(spt, swapUsed, key) && NotIn(spt, key, slot);
    }
  }

  /** Page key was evicted and `slot` recorded for it: `written` to that swap slot, or
      not written anywhere. */
  ghost predicate EvictedTo(v: Mem, swapUsed: seq<bool>, v': Mem, swapUsed': seq<bool>, key: Key, slot: int,
                            written: bool)
  {
    && key in v.spt && key in v.ptes
    && v'.ptes == v.ptes[key := v.ptes[key].(present := false)]
    && v'.phys == v.phys
    && v'.spt == v.spt[key := v.spt[key].(slot := slot)]
    && if !written then (slot == -1 || slot == v.spt[key].slot) && swapUsed' == swapUsed && v'.dev == v.dev
       else
         && 0 <= slot < |swapUsed| && !swapUsed[slot] && swapUsed' == swapUsed[slot := true]
         && OnlySlotChanged(v.dev, v'.dev, slot)
         && SECTORS_PER_PAGE * slot + SECTORS_PER_PAGE <= |v'.dev|
         && v.ptes[key].kpage < |v.phys| && SlotPage(v'.dev, slot) == v.phys[v.ptes[key].kpage]
  }

  /** An eviction loses no page but one that it drops without writing it although it is
      dirty or has no file bytes. */
  lemma EvictRepresents(v: Mem, swapUsed: seq<bool>, v': Mem, swapUsed': seq<bool>, victim: Key, slot: int,
                        written: bool,
                        files: Files, flat: map<Key, FlatPage>, aside: set<Key>)
    requires SlotsOk(v.spt, swapUsed) && SECTORS_PER_PAGE * |swapUsed| <= |v.dev| && Present(v.ptes, victim)
    requires EvictedTo(v, swapUsed, v', swapUsed', victim, slot, written)
    requires !written && victim !in aside ==>
               !v.ptes[victim].dirty && v.spt[victim].readBytes > 0 && slot == v.spt[victim].slot
    requires Represents(v, files, flat, aside)
    ensures Represents(v', files, flat, aside)
  {
    forall key: Key | key !in aside ensures PageOk(v', files, flat, key) {
      assert PageOk(v, files, flat, key);
      if key != victim {
        assert SlotOk(v.spt, swapUsed, key);
        if written && key in v.spt && v.spt[key].slot >= 0 {
          OtherSlotsKept(v.dev, v'.dev, slot, v.spt[key].slot);
        }
        SamePageOk(v, v', files, flat, key);
      }
    }
  }

  /** When swap_out fails, the page is unmapped all the same, with -1 recorded.  The flat
      memory survives that exactly if the executable happens to hold the same page. */
  lemma UnsavedEviction(v: Mem, swapUsed: seq<bool>, v': Mem, victim: Key, files: Files, flat: map<Key, FlatPage>)
    requires Present(v.ptes, victim) && EvictedTo(v, swapUsed, v', swapUsed, victim, -1, false)
    requires Represents(v, files, flat, {})
    ensures victim in flat
    ensures Represents(v', files, flat, {}) <==>
              Backed(v.spt[victim], files(victim.pid))
              && flat[victim].bytes == FilePage(v.spt[victim], files(victim.pid))
  {
    assert PageOk(v, files, flat, victim);
    var e := v'.spt[victim];
    assert PageOk(v', files, flat, victim) <==>
           Backed(e, files(victim.pid)) && flat[victim].bytes == FilePage(e, files(victim.pid));
    forall key: Key | key != victim ensures PageOk(v', files, flat, key) {
      assert PageOk(v, files, flat, key);
      SamePageOk(v, v', files, flat, key);
    }
  }

  /** A stack page evicted with no swap slot free is gone, even if its unset zero count
      happens to be a whole page. */
  lemma FullSwapLosesStackPage()
    ensures exists v: Mem, v': Mem, key: Key, files: Files, flat: map<Key, FlatPage> ::
              && Represents(v, files, flat, {}) && EvictedTo(v, [], v', [], key, -1, false)
              && !Represents(v', files, flat, {})
  {
    var key, files := Key(0, USER_TOP - 1), (_: nat) => [];
    var e, page: Page := Spte(0, 0, PGSIZE, true, -1), ZeroPage()[0 := 1];
    var flat := map[key := FlatPage(page, true)];
    var v := Mem([page], map[key := Pte(0, true, true, false, true)], map[key := e], []);
    var v' := Mem(v.phys, map[key := Pte(0, false, true, false, true)], map[key := e], []);
    assert Represents(v, files, flat, {});
    assert EvictedTo(v, [], v', [], key, -1, false);
    assert page[0] != FilePage(e, [])[0];
    UnsavedEviction(v, [], v', key, files, flat);
  }

  lemma EvictKeepsSlots(v: Mem, swapUsed: seq<bool>, v': Mem, swapUsed': seq<bool>, key: Key, slot: int, written: bool)
    requires SlotsOk(v.spt, swapUsed) && EvictedTo(v, swapUsed, v', swapUsed', key, slot, written)
    ensures SlotsOk(v'.spt, swapUsed')
  {
    forall a ensures SlotOk(v'.spt, swapUsed', a) {
      assert SlotOk(v.spt, swapUsed, a);
    }
    forall a, b ensures SlotsApart(v'.spt, a, b) {
      assert SlotsApart(v.spt, a, b) && SlotOk(v.spt, swapUsed, a) && SlotOk(v.spt, swapUsed, b);
    }
  }

  /** Slot `saved`, used but recorded nowhere, stays that way and keeps its page. */
  ghost predicate Orphan(spt: map<Key, Spte>, swapUsed: seq<bool>, dev: seq<Sector>, saved: int, page: Page) {
    && 0 <= saved < |swapUsed| && swapUsed[saved] && SECTORS_PER_PAGE * saved + SECTORS_PER_PAGE <= |dev|
    && SlotPage(dev, saved) == page
    && Unrecorded(spt, saved)
  }

  lemma EvictKeepsOrphan(v: Mem, swapUsed: seq<bool>, v': Mem, swapUsed': seq<bool>, key: Key, slot: int,
                         written: bool, saved: int, page: Page)
    requires EvictedTo(v, swapUsed, v', swapUsed', key, slot, written)
    requires Orphan(v.spt, swapUsed, v.dev, saved, page)
    ensures Orphan(v'.spt, swapUsed', v'.dev, saved, page)
  {
    if written {
      OtherSlotsKept(v.dev, v'.dev, slot, saved);
    }
    forall k ensures NotIn(v'.spt, k, saved) {
      assert NotIn(v.spt, k, saved) && NotIn(v.spt, key, saved);
    }
  }

  /** Mapping page key touches no other page. */
  lemma InstallRepresents(v: Mem, key: Key, p: Pte, files: Files, flat: map<Key, FlatPage>, aside: set<Key>)
    requires Represents(v, files, flat, aside) && key in aside
    ensures Represents(v.(ptes := v.ptes[key := p]), files, flat, aside)
  {
    var v' := v.(ptes := v.ptes[key := p]);
    forall k: Key | k !in aside ensures PageOk(v', files, flat, k) {
      assert PageOk(v, files, flat, k);
      SamePageOk(v, v', files, flat, k);
    }
  }

  /** Filling the kernel page of a newly mapped page leaves every other page alone. */
  lemma FillRepresents(v: Mem, frames: seq<Frame>, used: seq<bool>, key: Key, page: Page, p: Pte,
                       files: Files, flat: map<Key, FlatPage>, aside: set<Key>)
    requires Owned(frames, used, v.ptes, -1) && Represents(v, files, flat, aside) && key in aside
    requires Present(v.ptes, key) && v.ptes[key].kpage < |v.phys|
    ensures Represents(v.(phys := v.phys[v.ptes[key].kpage := page], ptes := v.ptes[key := p]), files, flat, aside)
  {
    var v' := v.(phys := v.phys[v.ptes[key].kpage := page], ptes := v.ptes[key := p]);
    forall k: Key | k !in aside ensures PageOk(v', files, flat, k) {
      assert PageOk(v, files, flat, k);
      if Present(v.ptes, k) {
        MappingsInjective(frames, used, v.ptes, -1, key, k);
      }
      SamePageOk(v, v', files, flat, k);
    }
  }

  /** Changing the bits of an entry that stays mapped where it was. */
  lemma RemarkOwned(frames: seq<Frame>, used: seq<bool>, ptes: map<Key, Pte>, key: Key, p: Pte)
    requires Owned(frames, used, ptes, -1) && Present(ptes, key) && p.present && p.kpage == ptes[key].kpage
    ensures Owned(frames, used, ptes[key := p], -1)
  {
    var q := ptes[key := p];
    forall i ensures FrameOk(frames, used, q, -1, i) {
      assert FrameOk(frames, used, ptes, -1, i);
    }
    forall k ensures EntryOk(frames, q, -1, k) {
      assert EntryOk(frames, ptes, -1, k);
    }
  }

  lemma SetAside(v: Mem, files: Files, flat: map<Key, FlatPage>, aside: set<Key>, more: set<Key>)
    requires Represents(v, files, flat, aside) && aside <= more
    ensures Represents(v, files, flat, more)
  {
    forall key: Key | key !in more ensures PageOk(v, files, flat, key) {
      assert key !in aside;
    }
  }

  lemma AllPages(v: Mem, files: Files, flat: map<Key, FlatPage>, aside: set<Key>, key: Key)
    requires Represents(v, files, flat, aside + {key}) && (key in aside || PageOk(v, files, flat, key))
    ensures Represents(v, files, flat, aside)
  {
    forall k: Key | k !in aside ensures PageOk(v, files, flat, k) {
      if k != key {
        assert k !in aside + {key};
      }
    }
  }

  /** Only page key's description or flat content changes. */
  lemma OtherPages(v: Mem, v': Mem, files: Files, flat: map<Key, FlatPage>, flat': map<Key, FlatPage>, key: Key,
                   aside: set<Key>)
    requires Represents(v, files, flat, aside)
    requires v'.phys == v.phys && v'.ptes == v.ptes && v'.dev == v.dev
    requires forall k: Key | k != key :: (k in v.spt <==> k in v'.spt) && (k in v.spt ==> v.spt[k] == v'.spt[k])
    requires forall k: Key | k != key :: (k in flat <==> k in flat') && (k in flat ==> flat[k] == flat'[k])
    ensures Represents(v', files, flat', aside + {key})
  {
    forall k: Key | k !in aside + {key} ensures PageOk(v', files, flat', k) {
      assert PageOk(v, files, flat, k);
      SamePageOk(v, v', files, flat, k);
    }
  }

  /** The flat content of a page that is not in memory is in its slot, whose page is
      `page`, or in the executable. */
  ghost predicate PageLoaded(e: Spte, file: seq<Byte>, flat: map<Key, FlatPage>, key: Key, page: Page) {
    if key !in flat then e.slot < 0 && !Loadable(e, file)
    else
      && flat[key].writable == e.writable
      && (e.slot >= 0 ==> flat[key].bytes == page)
      && (e.slot < 0 ==> Backed(e, file) && flat[key].bytes == FilePage(e, file))
  }

  lemma LoadedPageOk(v: Mem, e: Spte, files: Files, flat: map<Key, FlatPage>, key: Key, page: Page)
    requires PageLoaded(e, files(key.pid), flat, key, page) && (e.slot >= 0 || Backed(e, files(key.pid)))
    requires key in v.spt && v.spt[key] == e.(slot := -1)
    requires key in v.ptes && v.ptes[key].present && v.ptes[key].writable == e.writable
    requires v.ptes[key].dirty == (e.slot >= 0)
    requires v.ptes[key].kpage < |v.phys|
    requires v.phys[v.ptes[key].kpage] == if e.slot >= 0 then page else FilePage(e, files(key.pid))
    ensures PageOk(v, files, flat, key)
  {
    assert e.slot < 0 ==> FilePage(e.(slot := -1), files(key.pid)) == FilePage(e, files(key.pid));
  }

  /** With the page back, it is what the flat memory says again. */
  lemma LoadedBack(v: Mem, e: Spte, files: Files, flat: map<Key, FlatPage>, aside: set<Key>, key: Key, page: Page,
                   stale: Page)
    requires key !in aside ==> PageLoaded(e, files(key.pid), flat, key, page)
    requires e.slot >= 0 || Loadable(e, files(key.pid))
    requires Represents(v, files, flat, aside + {key}) && key in v.spt && v.spt[key] == e.(slot := -1)
    requires key in v.ptes && v.ptes[key].present && v.ptes[key].writable == e.writable
    requires v.ptes[key].dirty == (e.slot >= 0) && v.ptes[key].kpage < |v.phys|
    requires v.phys[v.ptes[key].kpage] == if e.slot >= 0 then page else FilledPage(e, files(key.pid), stale)
    ensures Represents(v, files, flat, aside)
  {
    if key !in aside {
      if e.slot < 0 {
        FilledBacked(e, files(key.pid), stale);
      }
      LoadedPageOk(v, e, files, flat, key, page);
    }
    AllPages(v, files, flat, aside, key);
  }

  /** A page in memory that is not left aside. */
  lemma PresentPage(v: Mem, files: Files, flat: map<Key, FlatPage>, aside: set<Key>, key: Key)
    requires Represents(v, files, flat, aside) && key !in aside && key in v.spt && Present(v.ptes, key)
    ensures key in flat && v.ptes[key].kpage < |v.phys| && v.phys[v.ptes[key].kpage] == flat[key].bytes
    ensures v.ptes[key].writable == flat[key].writable
  {
    assert PageOk(v, files, flat, key);
  }

  /** A page that is not left aside is described if it is in the flat memory, and then can
      be brought in. */
  lemma FlatPageThere(v: Mem, files: Files, flat: map<Key, FlatPage>, aside: set<Key>, key: Key)
    requires Represents(v, files, flat, aside) && key !in aside
    ensures key !in v.spt ==> key !in flat
    ensures key in flat && !Present(v.ptes, key) ==> v.spt[key].slot >= 0 || Loadable(v.spt[key], files(key.pid))
  {
    assert PageOk(v, files, flat, key);
  }

  /** A store to page key, in both memories. */
  lemma StoredPages(v: Mem, frames: seq<Frame>, used: seq<bool>, key: Key, page: Page, p: Pte, files: Files,
                    flat: map<Key, FlatPage>, flat': map<Key, FlatPage>, aside: set<Key>)
    requires Owned(frames, used, v.ptes, -1) && Represents(v, files, flat, aside)
    requires Present(v.ptes, key) && v.ptes[key].kpage < |v.phys|
    requires forall k: Key | k != key :: (k in flat <==> k in flat') && (k in flat ==> flat[k] == flat'[k])
    requires var v' := v.(phys := v.phys[v.ptes[key].kpage := page], ptes := v.ptes[key := p]);
             key in aside || PageOk(v', files, flat', key)
    ensures Represents(v.(phys := v.phys[v.ptes[key].kpage := page], ptes := v.ptes[key := p]), files, flat', aside)
  {
    var v', more := v.(phys := v.phys[v.ptes[key].kpage := page], ptes := v.ptes[key := p]), aside + {key};
    SetAside(v, files, flat, aside, more);
    FillRepresents(v, frames, used, key, page, p, files, flat, more);
    OtherPages(v', v', files, flat, flat', key, more);
    SetAside(v', files, flat', more + {key}, more);
    AllPages(v', files, flat', aside, key);
  }

  lemma PresentInPool(frames: seq<Frame>, used: seq<bool>, ptes: map<Key, Pte>, key: Key)
    requires Owned(frames, used, ptes, -1) && Present(ptes, key)
    ensures ptes[key].kpage < |used|
  {
    var i := OwnerOf(frames, used, ptes, -1, key);
  }

  /** A page that the table does not describe is in no frame. */
  lemma UndescribedAbsent(frames: seq<Frame>, used: seq<bool>, ptes: map<Key, Pte>, spt: map<Key, Spte>, key: Key)
    requires Owned(frames, used, ptes, -1) && Known(frames, spt, None) && key !in spt
    ensures !Present(ptes, key)
  {
    assert EntryOk(frames, ptes, -1, key);
    forall i | 0 <= i < |frames| ensures frames[i].key in spt {
      assert KnownAt(frames, spt, None, i);
    }
  }

  // ---------------------------------------------------------------------------
  // Events
  // ---------------------------------------------------------------------------

  datatype Event =
    | Load(key: Key, offset: nat)
    | Store(key: Key, offset: nat, byte: Byte)
    | Grow(pid: nat, pages: nat)

  /** Halt stands for a growth past the bottom of the address space, which no run
      survives. */
  datatype Reply = Value(byte: Byte) | Stored | NoPage | Denied | Grown | Refused | Halt

  datatype Access = Ready | Absent | Panic

  datatype Growth = Grown | Refused | Panicked

  datatype FlatState = FlatState(flat: map<Key, FlatPage>, grows: map<nat, nat>, filed: map<Key, bool>)

  // ---------------------------------------------------------------------------
  // Stack growth
  // ---------------------------------------------------------------------------

  /** A 32-bit word read as a signed int. */
  function Signed(x: int): int {
    var w := x % 0x1_0000_0000;
    if w < 0x8000_0000 then w else w - 0x1_0000_0000
  }

  /** Division of an int by PGSIZE, toward zero. */
  function Quotient(x: int): int {
    if x >= 0 then x / PGSIZE else -(-x / PGSIZE)
  }

  /** is_stack_page_fault: how many pages the stack of a process, whose lowest page is at
      address `last`, lacks for an access at `fault`; 0 if this is no stack access. */
  function MissingPages(fault: nat, esp: nat, last: nat): int {
    if Signed(esp - fault) == 32 || Signed(esp - fault) == 4 || esp <= fault < last
    then Quotient(Signed(last - esp)) + 1
    else 0
  }

  /** stack_growth's size test: the product is an int and wraps around. */
  predicate Refuses(g: nat, pages: nat) {
    Signed((g + pages) * PGSIZE) >= MAX_STACK_PAGES * PGSIZE
  }

  lemma SignedPages(n: nat)
    ensures var m := n % 0x10_0000; Signed(n * PGSIZE) == if m < 0x8_0000 then m * PGSIZE else (m - 0x10_0000) * PGSIZE
  {
    var q, m := n / 0x10_0000, n % 0x10_0000;
    assert n * PGSIZE == q * 0x1_0000_0000 + m * PGSIZE;
    assert (n * PGSIZE) % 0x1_0000_0000 == m * PGSIZE;
  }

  /** The size test keeps the limit exactly when the wrapped page count is not past the
      sign bit and does not come out below the limit again; in particular for fewer than
      0x80000 pages. */
  lemma LimitExact(g: nat, pages: nat)
    ensures (Refuses(g, pages) <==> g + pages >= MAX_STACK_PAGES) <==>
              g + pages < MAX_STACK_PAGES || MAX_STACK_PAGES <= (g + pages) % 0x10_0000 < 0x8_0000
    ensures g + pages < 0x8_0000 ==> (Refuses(g, pages) <==> g + pages >= MAX_STACK_PAGES)
  {
    SignedPages(g + pages);
  }

  /** A stack of one page whose esp is lowered to 0x40000000: the fault asks for 0x80000
      pages, 256 times the limit, and the growth is not refused. */
  lemma LimitWraps()
    ensures MissingPages(0x4000_0000, 0x4000_0000, (USER_TOP - 1) * PGSIZE) == 0x8_0000
    ensures !Refuses(1, 0x8_0000) && 1 + 0x8_0000 > 256 * MAX_STACK_PAGES
  {
    SignedPages(1 + 0x8_0000);
  }

  /** Every stack fault of a user stack asks for at most 0x80000 pages, so a stack that
      has not passed the limit before is past it afterwards exactly when it is asked for
      0x80000 - g pages or more. */
  lemma FaultLimit(fault: nat, esp: nat, g: nat, pages: nat)
    requires fault < 0x1_0000_0000 && esp < 0x1_0000_0000 && g < MAX_STACK_PAGES
    requires pages == MissingPages(fault, esp, (USER_TOP - g) * PGSIZE) > 0
    ensures pages <= 0x8_0000
    ensures !Refuses(g, pages) && g + pages >= MAX_STACK_PAGES <==> pages >= 0x8_0000 - g
  {
    SignedPages(g + pages);
  }

  /** Which accesses are taken for stack accesses, and what a growth by the pages they lack
      does: the page of the access is then part of the stack exactly unless esp is in the
      first bytes of a page, but not at its start, and the access is below that page. */
  lemma FaultCovers(fault: nat, esp: nat, g: nat, pages: int)
    requires g <= USER_TOP && fault < (USER_TOP - g) * PGSIZE && esp <= (USER_TOP - g) * PGSIZE < esp + 0x8000_0000
    requires pages == MissingPages(fault, esp, (USER_TOP - g) * PGSIZE)
    ensures pages > 0 <==> fault + 4 == esp || fault + 32 == esp || esp <= fault
    ensures pages > 0 ==>
              ((USER_TOP - g - pages) * PGSIZE <= fault <==> !(0 < esp % PGSIZE < esp - fault))
  {
    var last := (USER_TOP - g) * PGSIZE;
    assert pages > 0 ==> pages == (last - esp) / PGSIZE + 1;
    assert (USER_TOP - g - pages) * PGSIZE == last - pages * PGSIZE;
  }

  /** PUSHA with esp 16 bytes into a page: the growth ends at the page of esp, and the access
      faults once more. */
  lemma FaultAgain()
    ensures var last := (USER_TOP - 1) * PGSIZE; var esp := last - PGSIZE + 16;
            && MissingPages(esp - 32, esp, last) == 1 && esp - 32 < last - PGSIZE
            && MissingPages(esp - 32, esp, last - PGSIZE) == 1 && last - 2 * PGSIZE <= esp - 32
  {
  }

  /** The page that round m of a growth adds to a stack of g pages. */
  function StackKey(pid: nat, g: nat, m: nat): Key
    requires g + m < USER_TOP
  {
    Key(pid, USER_TOP - g - m - 1)
  }

  function GrowsOf(grows: map<nat, nat>, pid: nat): nat {
    if pid in grows then grows[pid] else 0
  }

  predicate ListedAt(spt: map<Key, Spte>, filed: map<Key, bool>, key: Key) {
    (key in spt <==> key in filed) && (key in spt ==> filed[key] == (spt[key].readBytes > 0))
  }

  /** `filed` lists the described pages, with whether they have file bytes. */
  ghost predicate Listed(spt: map<Key, Spte>, filed: map<Key, bool>) {
    forall key :: ListedAt(spt, filed, key)
  }

  /** Changing the entry of page key in both. */
  lemma Relisted(spt: map<Key, Spte>, filed: map<Key, bool>, key: Key, e: Spte)
    requires Listed(spt, filed)
    ensures Listed(spt[key := e], filed[key := e.readBytes > 0])
    ensures key in spt && e.readBytes == spt[key].readBytes ==> Listed(spt[key := e], filed)
  {
    var spt', filed' := spt[key := e], filed[key := e.readBytes > 0];
    forall k ensures ListedAt(spt', filed', k) {
      assert ListedAt(spt, filed, k);
    }
    if key in spt && e.readBytes == spt[key].readBytes {
      forall k ensures ListedAt(spt', filed, k) {
        assert ListedAt(spt, filed, k);
      }
    }
  }

  ghost function NewlyFiled(filed: map<Key, bool>, key: Key): map<Key, bool> {
    if key in filed then filed else filed[key := false]
  }

  /** A stack of g pages gets one more: a writable zero page, counted and described; an
      entry that is there already stays (supl_pt_insert). */
  ghost function AddedPage(s: FlatState, pid: nat, g: nat): FlatState
    requires g < USER_TOP
  {
    var key := StackKey(pid, g, 0);
    FlatState(s.flat[key := FlatPage(ZeroPage(), true)], s.grows[pid := g + 1], NewlyFiled(s.filed, key))
  }

  /** n pages more. */
  ghost function GrownState(s: FlatState, pid: nat, g: nat, n: nat): FlatState
    requires g + n <= USER_TOP
  {
    if n == 0 then s else AddedPage(GrownState(s, pid, g, n - 1), pid, g + n - 1)
  }

  predicate InGrowth(key: Key, pid: nat, g: nat, n: nat) {
    key.pid == pid && USER_TOP - g - n <= key.upage < USER_TOP - g
  }

  ghost predicate SameAt<T(!new)>(a: map<Key, T>, b: map<Key, T>, key: Key) {
    (key in a <==> key in b) && (key in a ==> a[key] == b[key])
  }

  /** A growth by n pages: exactly the n pages below the stack are zero pages now, and the
      rest of the memory and of the table is as it was. */
  lemma {:induction false} GrownPages(s: FlatState, pid: nat, g: nat, n: nat, key: Key)
    requires g + n <= USER_TOP && g == GrowsOf(s.grows, pid)
    ensures var t := GrownState(s, pid, g, n);
            && GrowsOf(t.grows, pid) == g + n
            && (key.pid != pid ==> GrowsOf(t.grows, key.pid) == GrowsOf(s.grows, key.pid))
            && (if InGrowth(key, pid, g, n) then
                    key in t.flat && t.flat[key] == FlatPage(ZeroPage(), true) && key in t.filed
                else SameAt(s.flat, t.flat, key) && SameAt(s.filed, t.filed, key))
  {
    if n > 0 {
      GrownPages(s, pid, g, n - 1, key);
    }
  }

  /** Laying a zero page over page `key` breaks the flat memory (see OverlayExact): the
      page is described, and is not a writable page that comes back as zeros. */
  ghost predicate Spoils(s: FlatState, key: Key) {
    key in s.filed && !(key in s.flat && s.flat[key].writable && (!s.filed[key] || s.flat[key].bytes == ZeroPage()))
  }

  ghost function SpoiltAt(s: FlatState, key: Key): set<Key> {
    if Spoils(s, key) then {key} else {}
  }

  /** Those of the first n pages of the growth that do. */
  ghost function GrowthSpoilt(s: FlatState, pid: nat, g: nat, n: nat): set<Key>
    requires g + n <= USER_TOP
  {
    if n == 0 then {} else GrowthSpoilt(s, pid, g, n - 1) + SpoiltAt(s, StackKey(pid, g, n - 1))
  }

  lemma {:induction false} GrowthSpoiltExact(s: FlatState, pid: nat, g: nat, n: nat, key: Key)
    requires g + n <= USER_TOP
    ensures key in GrowthSpoilt(s, pid, g, n) <==> InGrowth(key, pid, g, n) && Spoils(s, key)
  {
    if n > 0 {
      GrowthSpoiltExact(s, pid, g, n - 1, key);
    }
  }

  /** No page is spoilt by the pages added before it. */
  lemma GrownStep(s: FlatState, pid: nat, g: nat, n: nat)
    requires g == GrowsOf(s.grows, pid) && g + n < USER_TOP
    ensures GrowsOf(GrownState(s, pid, g, n).grows, pid) == g + n
    ensures GrownState(s, pid, g, n + 1) == AddedPage(GrownState(s, pid, g, n), pid, g + n)
    ensures StackKey(pid, g + n, 0) == StackKey(pid, g, n)
    ensures Spoils(GrownState(s, pid, g, n), StackKey(pid, g, n)) <==> Spoils(s, StackKey(pid, g, n))
    ensures SpoiltAt(GrownState(s, pid, g, n), StackKey(pid, g, n)) == SpoiltAt(s, StackKey(pid, g, n))
    ensures GrowthSpoilt(s, pid, g, n + 1) == GrowthSpoilt(s, pid, g, n) + SpoiltAt(s, StackKey(pid, g, n))
  {
    GrownPages(s, pid, g, n, StackKey(pid, g, n));
  }

  /** Round m of a growth cannot go on: nothing is left below, no page table, or its page
      is in memory. */
  predicate PresentObstacle(ptes: map<Key, Pte>, pid: nat, g: nat, m: nat, tableOk: bool) {
    g + m >= USER_TOP || !tableOk || Present(ptes, StackKey(pid, g, m))
  }

  /** Whether a page table can be provided in round m. */
  predicate TableFor(tableOk: nat -> bool, m: nat) {
    tableOk(m)
  }

  ghost predicate Obstructed(ptes: map<Key, Pte>, pid: nat, g: nat, pages: nat, tableOk: nat -> bool) {
    exists m :: 0 <= m < pages && PresentObstacle(ptes, pid, g, m, TableFor(tableOk, m))
  }

  lemma ObstructedAt(ptes: map<Key, Pte>, pid: nat, g: nat, pages: nat, tableOk: nat -> bool, m: nat)
    requires m < pages && PresentObstacle(ptes, pid, g, m, TableFor(tableOk, m))
    ensures Obstructed(ptes, pid, g, pages, tableOk)
  {
  }

  /** A page table can be provided in each of the first n rounds. */
  ghost predicate TablesFor(tableOk: nat -> bool, n: nat) {
    forall m | 0 <= m < n :: TableFor(tableOk, m)
  }

  lemma OneMoreTable(tableOk: nat -> bool, n: nat)
    requires TablesFor(tableOk, n) && TableFor(tableOk, n)
    ensures TablesFor(tableOk, n + 1)
  {
  }

  /** Of the pages of `pid` below a stack of g pages, only those that were in memory are. */
  ghost predicate NoNewBelow(ptes: map<Key, Pte>, ptes': map<Key, Pte>, pid: nat, g: nat)
    requires g <= USER_TOP
  {
    forall u: nat | u < USER_TOP - g :: StillIn(ptes, ptes', Key(pid, u))
  }

  lemma NoNewDown(p: map<Key, Pte>, q: map<Key, Pte>, r: map<Key, Pte>, pid: nat, g: nat)
    requires g < USER_TOP && NoNewBelow(p, q, pid, g) && NoNewPages(q, r, Some(StackKey(pid, g, 0)))
    ensures NoNewBelow(p, r, pid, g + 1)
  {
    forall u: nat | u < USER_TOP - g - 1 ensures StillIn(p, r, Key(pid, u)) {
      assert StillIn(p, q, Key(pid, u)) && StillIn(q, r, Key(pid, u));
    }
  }

  /** stack_growth's load_page on a page that is not in memory, when the table has an
      entry for it: kernel page k is cleared and mapped, and the entry stays. */
  ghost predicate OverlaidTo(v: Mem, v': Mem, key: Key, k: nat) {
    && key in v.spt && !Present(v.ptes, key) && k < |v.phys|
    && v' == v.(phys := v.phys[k := ZeroPage()], ptes := v.ptes[key := Pte(k, true, true, false, false)])
  }

  lemma OverlayPageOk(v: Mem, v': Mem, files: Files, s: FlatState, key: Key, k: nat)
    requires OverlaidTo(v, v', key, k) && PageOk(v, files, s.flat, key) && Listed(v.spt, s.filed)
    ensures PageOk(v', files, s.flat[key := FlatPage(ZeroPage(), true)], key) <==> !Spoils(s, key)
  {
    assert ListedAt(v.spt, s.filed, key);
  }

  /** Laying a zero page over a described page gives the flat memory with a zero page
      there exactly when the page does not spoil it. */
  lemma OverlayExact(v: Mem, v': Mem, files: Files, s: FlatState, key: Key, k: nat)
    requires OverlaidTo(v, v', key, k) && Represents(v, files, s.flat, {}) && Listed(v.spt, s.filed)
    requires forall q: Key | Present(v.ptes, q) :: v.ptes[q].kpage != k
    ensures Represents(v', files, s.flat[key := FlatPage(ZeroPage(), true)], {}) <==> !Spoils(s, key)
  {
    var flat' := s.flat[key := FlatPage(ZeroPage(), true)];
    assert PageOk(v, files, s.flat, key);
    OverlayPageOk(v, v', files, s, key, k);
    forall q: Key | q != key ensures PageOk(v', files, flat', q) {
      assert PageOk(v, files, s.flat, q);
      SamePageOk(v, v', files, s.flat, q);
    }
  }

  /** A segment with a page at 0xBFFFD000, which a growth of three pages reaches: the
      page reads as zeros afterwards, but once it has been evicted, still clean, it comes
      back with the bytes of the file. */
  lemma GrowthOverSegment(file: seq<Byte>)
    requires |file| == PGSIZE && file != ZeroPage()
    ensures StackKey(0, 0, 2) == Key(0, 0xBFFFD)
    ensures var key, files: Files := Key(0, 0xBFFFD), (_: nat) => file;
            exists v: Mem, v1: Mem, v2: Mem ::
              && Represents(v, files, map[key := FlatPage(file, true)], {})
              && OverlaidTo(v, v1, key, 0) && v1.phys[0] == ZeroPage()
              && EvictedTo(v1, [], v2, [], key, -1, false)
              && Represents(v2, files, map[key := FlatPage(file, true)], {})
              && !Represents(v2, files, map[key := FlatPage(ZeroPage(), true)], {})
  {
    var key, files: Files := Key(0, 0xBFFFD), (_: nat) => file;
    var e, p := Spte(0, PGSIZE, 0, true, -1), Pte(0, true, true, false, false);
    var flat := map[key := FlatPage(file, true)];
    var v := Mem([ZeroPage()], map[], map[key := e], []);
    var v1 := Mem([ZeroPage()], map[key := p], map[key := e], []);
    var v2 := Mem([ZeroPage()], map[key := p.(present := false)], map[key := e], []);
    assert FilePage(e, file) == file;
    assert Represents(v, files, flat, {}) && Represents(v2, files, flat, {});
    assert v1.phys == v.phys[0 := ZeroPage()] && OverlaidTo(v, v1, key, 0);
    assert EvictedTo(v1, [], v2, [], key, -1, false);
    assert !PageOk(v2, files, map[key := FlatPage(ZeroPage(), true)], key);
  }

  // ---------------------------------------------------------------------------
  // Segments
  // ---------------------------------------------------------------------------

  /** Page j of a segment whose first `readBytes` bytes come from the file at `ofs` and
      whose other bytes are zero. */
  function SegmentPage(file: seq<Byte>, ofs: nat, readBytes: nat, j: nat): Page
    requires ofs + readBytes <= |file|
  {
    seq<Byte>(4096, b requires 0 <= b < 4096 => if 4096 * j + b < readBytes then file[ofs + 4096 * j + b] else 0)
  }

  /** Pages upage .. upage + n of process pid, where they were not described before, hold
      the segment's initial contents. */
  ghost predicate SegmentLoaded(flat0: map<Key, FlatPage>, spt0: map<Key, Spte>, flat: map<Key, FlatPage>,
                                file: seq<Byte>,
                                pid: nat, ofs: nat, upage: nat, readBytes: nat, n: nat, writable: bool)
    requires ofs + readBytes <= |file|
  {
    forall u: nat | upage <= u < upage + n && Key(pid, u) !in spt0 ::
      Key(pid, u) in flat && flat[Key(pid, u)] == FlatPage(SegmentPage(file, ofs, readBytes, u - upage), writable)
  }

  ghost predicate OtherPagesKept(flat0: map<Key, FlatPage>, spt0: map<Key, Spte>, flat: map<Key, FlatPage>, pid: nat,
                                 upage: nat, n: nat)
  {
    forall key: Key | key in spt0 || key.pid != pid || !(upage <= key.upage < upage + n) ::
      (key in flat0 <==> key in flat) && (key in flat0 ==> flat[key] == flat0[key])
  }

  predicate IsSegmentEntry(e: Spte, ofs: nat, readBytes: nat, j: nat) {
    && e.ofs == ofs + 4096 * j
    && e.readBytes == (if readBytes <= 4096 * j then 0
                       else if readBytes - 4096 * j < 4096 then readBytes - 4096 * j else 4096)
    && e.zeroBytes == 4096 - e.readBytes
    && e.slot == -1
  }

  /** Pages from u up are described now if they were before. */
  ghost predicate SameAbove(spt0: map<Key, Spte>, spt: map<Key, Spte>, pid: nat, u: nat) {
    forall w: nat | u <= w :: Key(pid, w) in spt <==> Key(pid, w) in spt0
  }

  /** The entry load_segment writes for page j describes exactly that page. */
  lemma SegmentEntry(file: seq<Byte>, ofs: nat, readBytes: nat, j: nat, e: Spte)
    requires ofs + readBytes <= |file| && IsSegmentEntry(e, ofs, readBytes, j)
    ensures Backed(e, file) && FilePage(e, file) == SegmentPage(file, ofs, readBytes, j)
  {
    var p, q := FilePage(e, file), SegmentPage(file, ofs, readBytes, j);
    forall b | 0 <= b < 4096 ensures p[b] == q[b] {
      if b < e.readBytes {
        assert p[b] == file[e.ofs..e.ofs + e.readBytes][b];
      }
    }
  }

  /** What DescribeSegment does to the table and to the flat memory. */
  function Described(spt: map<Key, Spte>, key: Key, e: Spte): map<Key, Spte> {
    if key in spt then spt else spt[key := e]
  }

  function DescribedFlat(flat: map<Key, FlatPage>, spt: map<Key, Spte>, file: seq<Byte>, key: Key,
                         e: Spte): map<Key, FlatPage>
  {
    if key in spt || !Backed(e, file) then flat else flat[key := FlatPage(FilePage(e, file), e.writable)]
  }

  lemma SegmentStep(flat0: map<Key, FlatPage>, spt0: map<Key, Spte>, flat: map<Key, FlatPage>, spt: map<Key, Spte>,
                    file: seq<Byte>, key: Key, e: Spte, ofs: nat, upage: nat, readBytes: nat)
    requires upage <= key.upage && IsSegmentEntry(e, ofs, readBytes, key.upage - upage)
    requires SameAbove(spt0, spt, key.pid, key.upage)
    requires OtherPagesKept(flat0, spt0, flat, key.pid, upage, key.upage - upage)
    ensures SameAbove(spt0, Described(spt, key, e), key.pid, key.upage + 1)
    ensures OtherPagesKept(flat0, spt0, DescribedFlat(flat, spt, file, key, e), key.pid, upage, key.upage - upage + 1)
    ensures ofs + readBytes <= |file|
            && SegmentLoaded(flat0, spt0, flat, file, key.pid, ofs, upage, readBytes, key.upage - upage, e.writable) ==>
              SegmentLoaded(flat0, spt0, DescribedFlat(flat, spt, file, key, e), file, key.pid, ofs, upage, readBytes,
                            key.upage - upage + 1, e.writable)
  {
    assert key == Key(key.pid, key.upage);
    if ofs + readBytes <= |file| {
      SegmentEntry(file, ofs, readBytes, key.upage - upage, e);
    }
  }

  // ---------------------------------------------------------------------------
  // Specification: flat memory
  // ---------------------------------------------------------------------------

  predicate ValidEvent(e: Event) {
    match e
    case Load(_, offset) => offset < PGSIZE
    case Store(_, offset, _) => offset < PGSIZE
    case Grow(_, _) => true
  }

  ghost function FlatReply(s: FlatState, e: Event): Reply
    requires ValidEvent(e)
  {
    match e
    case Load(key, offset) => if key in s.flat then Value(s.flat[key].bytes[offset]) else NoPage
    case Store(key, _, _) => if key !in s.flat then NoPage else if s.flat[key].writable then Stored else Denied
    case Grow(pid, n) =>
      var g := GrowsOf(s.grows, pid);
      if Refuses(g, n) then Reply.Refused else if g + n <= USER_TOP then Reply.Grown else Halt
  }

  ghost function FlatStep(s: FlatState, e: Event): FlatState
    requires ValidEvent(e)
  {
    match e
    case Load(_, _) => s
    case Store(key, offset, b) =>
      if key in s.flat && s.flat[key].writable
      then s.(flat := s.flat[key := FlatPage(s.flat[key].bytes[offset := b], true)])
      else s
    case Grow(pid, n) =>
      var g := GrowsOf(s.grows, pid);
      if FlatReply(s, e) == Reply.Grown then GrownState(s, pid, g, n) else s
  }

  ghost function FlatRun(s: FlatState, events: seq<Event>): (FlatState, seq<Reply>)
    requires forall e | e in events :: ValidEvent(e)
    decreases |events|
  {
    if events == [] then (s, [])
    else
      var n := |events| - 1;
      var (t, replies) := FlatRun(s, events[..n]);
      (FlatStep(t, events[n]), replies + [FlatReply(t, events[n])])
  }

  /** The pages where the event, a growth, lays a zero page that breaks the flat memory. */
  ghost function StepSpoilt(s: FlatState, e: Event): set<Key>
    requires ValidEvent(e)
  {
    if e.Grow? && FlatReply(s, e) == Reply.Grown then GrowthSpoilt(s, e.pid, GrowsOf(s.grows, e.pid), e.pages) else {}
  }

  /** Those of a whole run. */
  ghost function RunSpoilt(s: FlatState, events: seq<Event>): set<Key>
    requires forall e | e in events :: ValidEvent(e)
    decreases |events|
  {
    if events == [] then {}
    else
      var n := |events| - 1;
      RunSpoilt(s, events[..n]) + StepSpoilt(FlatRun(s, events[..n]).0, events[n])
  }

  /** Round m of a growth cannot go on: nothing is left below, no page table, or its page
      is among `taken`. */
  predicate Obstacle(taken: set<Key>, pid: nat, g: nat, m: nat, tableOk: bool) {
    g + m >= USER_TOP || !tableOk || StackKey(pid, g, m) in taken
  }

  /** Why an event may go unanswered: no page table, an access outside the flat memory, a
      growth out of the address space or onto a page that is described already. */
  ghost predicate Stops(s: FlatState, e: Event, tableOk: nat -> bool)
    requires ValidEvent(e)
  {
    match e
    case Load(key, _) => !TableFor(tableOk, 0) || key !in s.flat
    case Store(key, _, _) => !TableFor(tableOk, 0) || key !in s.flat
    case Grow(pid, n) =>
      && FlatReply(s, e) != Reply.Refused
      && exists m :: 0 <= m < n && Obstacle(s.filed.Keys, pid, GrowsOf(s.grows, pid), m, TableFor(tableOk, m))
  }

  // ---------------------------------------------------------------------------
  // Swap space
  // ---------------------------------------------------------------------------

  /** The number of free swap slots, or of free pool pages. */
  function FreeCount(used: seq<bool>): nat {
    if used == [] then 0 else FreeCount(used[..|used| - 1]) + if used[|used| - 1] then 0 else 1
  }

  lemma {:induction false} FreeCountUpdate(used: seq<bool>, i: nat, v: bool)
    requires i < |used|
    ensures FreeCount(used[i := v]) + (if v then 1 else 0) == FreeCount(used) + if used[i] then 1 else 0
  {
    var n := |used| - 1;
    if i == n {
      assert used[i := v][..n] == used[..n];
    } else {
      assert used[i := v][..n] == used[..n][i := v];
      FreeCountUpdate(used[..n], i, v);
    }
  }

  lemma {:induction false} NoneFree(used: seq<bool>)
    requires forall s | 0 <= s < |used| :: used[s]
    ensures FreeCount(used) == 0
  {
    if used != [] {
      NoneFree(used[..|used| - 1]);
    }
  }

  lemma {:induction false} AllFree(used: seq<bool>)
    requires forall s | 0 <= s < |used| :: !used[s]
    ensures FreeCount(used) == |used|
  {
    if used != [] {
      AllFree(used[..|used| - 1]);
    }
  }

  /** The lowest free slot or pool page; |used| if there is none. */
  function LowestFree(used: seq<bool>): (k: nat)
    ensures k <= |used| && (k < |used| ==> !used[k]) && forall n | 0 <= n < k :: used[n]
  {
    if used == [] || !used[0] then 0 else 1 + LowestFree(used[1..])
  }

  lemma LowestFreeIs(used: seq<bool>, k: nat)
    requires k <= |used| && (k < |used| ==> !used[k]) && forall n | 0 <= n < k :: used[n]
    ensures LowestFree(used) == k
  {
  }

  lemma TakeLowest(used: seq<bool>)
    ensures LowestFree(used) < |used| ==> FreeCount(used) == FreeCount(used[LowestFree(used) := true]) + 1
    ensures LowestFree(used) == |used| ==> FreeCount(used) == 0
  {
    if LowestFree(used) < |used| {
      FreeCountUpdate(used, LowestFree(used), true);
    } else {
      NoneFree(used);
    }
  }

  /** The described pages that are out of memory and in a swap slot. */
  ghost function Swapped(spt: map<Key, Spte>, ptes: map<Key, Pte>): set<Key> {
    set key | key in spt && spt[key].slot >= 0 && !Present(ptes, key)
  }

  /** The described pages, plus the strays: used slots that hold no page out of memory. */
  ghost function WeightOf(spt: map<Key, Spte>, ptes: map<Key, Pte>, used: seq<bool>): int {
    |spt.Keys| + (|used| - FreeCount(used) - |Swapped(spt, ptes)|)
  }

  /** The pages in memory that have one of the first n kernel pages. */
  ghost function Resident(ptes: map<Key, Pte>, n: nat): set<Key> {
    set key | key in ptes && ptes[key].present && ptes[key].kpage < n
  }

  /** A used-up pool holds as many pages as it has kernel pages. */
  lemma {:induction false} ResidentCount(frames: seq<Frame>, used: seq<bool>, ptes: map<Key, Pte>, n: nat)
    requires Owned(frames, used, ptes, -1) && n <= |used| && forall k | 0 <= k < |used| :: used[k]
    ensures |Resident(ptes, n)| >= n
  {
    if n > 0 {
      ResidentCount(frames, used, ptes, n - 1);
      assert PoolPageOk(frames, used, n - 1);
      var i :| 0 <= i < |frames| && frames[i].kpage == n - 1;
      assert FrameOk(frames, used, ptes, -1, i);
      var key := frames[i].key;
      assert key in Resident(ptes, n) && key !in Resident(ptes, n - 1);
      SubsetSize(Resident(ptes, n - 1) + {key}, Resident(ptes, n));
    }
  }

  /** What is in memory is described. */
  lemma ResidentDescribed(frames: seq<Frame>, used: seq<bool>, ptes: map<Key, Pte>, spt: map<Key, Spte>,
                          extra: Option<Key>, n: nat)
    requires Owned(frames, used, ptes, -1) && Known(frames, spt, extra)
    requires extra.Some? ==> !Present(ptes, extra.value)
    ensures Resident(ptes, n) <= spt.Keys
  {
    forall key | key in Resident(ptes, n) ensures key in spt {
      var i := OwnerOf(frames, used, ptes, -1, key);
      assert KnownAt(frames, spt, extra, i);
    }
  }

  /** When every slot and every pool page is used, the described pages and strays are at
      least as many as both together, and one more if the slot of a page that is out of
      memory was just detached. */
  lemma FullWeight(frames: seq<Frame>, used: seq<bool>, ptes: map<Key, Pte>, spt: map<Key, Spte>, swap: seq<bool>,
                   extra: Option<Key>, d: nat)
    requires Owned(frames, used, ptes, -1) && Known(frames, spt, extra) && d <= 1
    requires extra.Some? ==> !Present(ptes, extra.value)
    requires d == 1 ==> extra.Some? && extra.value in spt && spt[extra.value].slot < 0
    requires (forall k | 0 <= k < |used| :: used[k]) && forall s | 0 <= s < |swap| :: swap[s]
    ensures |swap| + |used| + d <= WeightOf(spt, ptes, swap)
  {
    NoneFree(swap);
    ResidentCount(frames, used, ptes, |used|);
    ResidentDescribed(frames, used, ptes, spt, extra, |used|);
    var a, b, c := Swapped(spt, ptes), Resident(ptes, |used|), if d == 1 then {extra.value} else {};
    assert a !! b && (a + b) !! c;
    SubsetSize(a + b + c, spt.Keys);
  }

  /** Only where pages are matters, not the other bits of their entries. */
  lemma SameWeight(spt: map<Key, Spte>, p: map<Key, Pte>, q: map<Key, Pte>, used: seq<bool>)
    requires NoNewPages(p, q, None) && NoNewPages(q, p, None)
    ensures WeightOf(spt, p, used) == WeightOf(spt, q, used)
  {
    forall key: Key ensures Present(p, key) <==> Present(q, key) {
      assert StillIn(p, q, key) && StillIn(q, p, key);
    }
    assert Swapped(spt, p) == Swapped(spt, q);
  }

  /** Mapping a page makes a stray only if the page has a slot. */
  lemma MappedWeight(spt: map<Key, Spte>, ptes: map<Key, Pte>, used: seq<bool>, key: Key, p: Pte)
    requires !Present(ptes, key) && p.present
    ensures WeightOf(spt, ptes[key := p], used) <= WeightOf(spt, ptes, used) + 1
    ensures (key in spt ==> spt[key].slot < 0) ==> WeightOf(spt, ptes[key := p], used) == WeightOf(spt, ptes, used)
  {
    var a := Swapped(spt, ptes);
    assert Swapped(spt, ptes[key := p]) == a - {key};
  }

  /** A slot detached from its entry is a stray until it is freed. */
  lemma DetachedWeight(spt: map<Key, Spte>, ptes: map<Key, Pte>, used: seq<bool>, key: Key, e: Spte)
    requires key in spt && !Present(ptes, key) && e.slot < 0
    ensures WeightOf(spt[key := e], ptes, used) == WeightOf(spt, ptes, used) + if spt[key].slot >= 0 then 1 else 0
  {
    var a := Swapped(spt, ptes);
    assert spt[key := e].Keys == spt.Keys;
    assert Swapped(spt[key := e], ptes) == a - {key};
  }

  lemma FreedWeight(spt: map<Key, Spte>, ptes: map<Key, Pte>, used: seq<bool>, slot: nat)
    requires slot < |used| && used[slot]
    ensures WeightOf(spt, ptes, used[slot := false]) == WeightOf(spt, ptes, used) - 1
  {
    FreeCountUpdate(used, slot, false);
  }

  lemma EntryWeight(spt: map<Key, Spte>, ptes: map<Key, Pte>, used: seq<bool>, key: Key, e: Spte)
    requires key !in spt && e.slot < 0
    ensures WeightOf(spt[key := e], ptes, used) == WeightOf(spt, ptes, used) + 1
  {
    assert spt[key := e].Keys == spt.Keys + {key};
    assert Swapped(spt[key := e], ptes) == Swapped(spt, ptes);
  }

  // ---------------------------------------------------------------------------
  // Where pages are
  // ---------------------------------------------------------------------------

  /** The page tables, the user pool, the swap device, and the pages that were dropped
      because it was full. */
  datatype Layout = Layout(ptes: map<Key, Pte>, spt: map<Key, Spte>, pool: seq<bool>, swap: seq<bool>, lost: set<Key>)

  ghost function Weight(t: Layout): int {
    WeightOf(t.spt, t.ptes, t.swap)
  }

  /** The page has to go to swap when it is evicted. */
  predicate NeedsSwap(p: Pte, e: Spte) {
    p.dirty || e.readBytes == 0
  }

  /** ft_evict_frame on the frame of page v: v is unmapped; if it needs swap space it goes
      to the lowest free slot, and is lost if there is none. */
  ghost function Evicted(t: Layout, v: Key): Layout
    requires v in t.ptes && v in t.spt
  {
    var q, e, s := t.ptes[v := t.ptes[v].(present := false)], t.spt[v], LowestFree(t.swap);
    if !NeedsSwap(t.ptes[v], e) then t.(ptes := q)
    else if s < |t.swap| then t.(ptes := q, spt := t.spt[v := e.(slot := s)], swap := t.swap[s := true])
    else t.(ptes := q, spt := t.spt[v := e.(slot := -1)], lost := t.lost + {v})
  }

  /** Kernel page k was taken from page v, after the clock left the reference bits of q. */
  ghost predicate RecycledBy(a: Layout, b: Layout, k: nat, q: map<Key, Pte>, v: Key) {
    SameButAccessed(a.ptes, q) && Present(q, v) && v in a.spt && q[v].kpage == k && b == Evicted(a.(ptes := q), v)
  }

  ghost predicate Recycled(a: Layout, b: Layout, k: nat) {
    exists q, v :: RecycledBy(a, b, k, q, v)
  }

  /** The first half of ft_alloc_frame: kernel page k is the lowest free page of the pool
      or, if there is none, is taken from a page in memory. */
  ghost predicate Taken(a: Layout, b: Layout, k: nat) {
    var n := LowestFree(a.pool);
    if n < |a.pool| then k == n && b == a.(pool := a.pool[n := true]) else Recycled(a, b, k)
  }

  /** install_frame */
  ghost function MappedAt(t: Layout, key: Key, k: nat, writable: bool): Layout {
    t.(ptes := t.ptes[key := Pte(k, true, writable, false, false)])
  }

  /** The head of load_page_lazy. */
  ghost function Detached(t: Layout, key: Key): Layout
    requires key in t.spt
  {
    t.(spt := t.spt[key := t.spt[key].(slot := -1)])
  }

  /** The end of load_page: a page that comes from a swap slot is dirty, and the slot free. */
  ghost function Filled(t: Layout, key: Key, slot: int): Layout
    requires key in t.ptes
  {
    if 0 <= slot < |t.swap|
    then t.(ptes := t.ptes[key := t.ptes[key].(dirty := true)], swap := t.swap[slot := false])
    else t
  }

  ghost predicate FetchedBy(a: Layout, key: Key, b: Layout, m: Layout, k: nat)
    requires key in a.spt
  {
    && Taken(Detached(a, key), m, k)
    && b == Filled(MappedAt(m, key, k, a.spt[key].writable), key, a.spt[key].slot)
  }

  /** load_page_lazy brought page key in. */
  ghost predicate Fetched(a: Layout, key: Key, b: Layout)
    requires key in a.spt
  {
    exists m, k :: FetchedBy(a, key, b, m, k)
  }

  /** The bits that the processor sets on an access. */
  ghost function Marked(t: Layout, key: Key, store: bool): Layout
    requires key in t.ptes
  {
    var p := t.ptes[key];
    if !store then t.(ptes := t.ptes[key := p.(accessed := true)])
    else if p.writable then t.(ptes := t.ptes[key := p.(accessed := true, dirty := true)])
    else t
  }

  ghost predicate AccessedBy(a: Layout, key: Key, store: bool, b: Layout, m: Layout) {
    && key in a.spt && (if Present(a.ptes, key) then m == a else Fetched(a, key, m))
    && key in m.ptes && b == Marked(m, key, store)
  }

  /** A user access.  Only one to a described page that is not in memory moves anything. */
  ghost predicate Accessed(a: Layout, key: Key, store: bool, b: Layout) {
    if key !in a.spt then b == a else exists m :: AccessedBy(a, key, store, b, m)
  }

  /** The entry stack_growth makes; the fields it does not set are those of `junk`. */
  function StackEntry(junk: Spte): Spte {
    junk.(slot := -1, writable := true, readBytes := 0)
  }

  ghost predicate LaidBy(a: Layout, key: Key, junk: Spte, b: Layout, m: Layout, k: nat) {
    && Taken(a, m, k) && !Present(m.ptes, key)
    && b == MappedAt(m, key, k, true).(spt := if key in m.spt then m.spt else m.spt[key := StackEntry(junk)])
  }

  /** One round of stack_growth, at page key. */
  ghost predicate Laid(a: Layout, key: Key, junk: Spte, b: Layout) {
    exists m, k :: LaidBy(a, key, junk, b, m, k)
  }

  /** Round m of stack_growth took the pages from steps[m] to steps[m + 1]. */
  ghost predicate RoundAt(steps: seq<Layout>, pid: nat, g: nat, junk: Spte, m: nat)
    requires m + 1 < |steps| && g + m < USER_TOP
  {
    Laid(steps[m], StackKey(pid, g, m), junk, steps[m + 1])
  }

  ghost predicate GrownBy(a: Layout, pid: nat, g: nat, n: nat, junk: Spte, b: Layout, steps: seq<Layout>)
    requires g + n <= USER_TOP
  {
    && |steps| == n + 1 && steps[0] == a && steps[n] == b
    && forall m | 0 <= m < n :: RoundAt(steps, pid, g, junk, m)
  }

  /** n rounds of stack_growth. */
  ghost predicate GrownTo(a: Layout, pid: nat, g: nat, n: nat, junk: Spte, b: Layout)
    requires g + n <= USER_TOP
  {
    exists steps :: GrownBy(a, pid, g, n, junk, b, steps)
  }

  /** What an event does to where pages are. */
  ghost predicate Follows(a: Layout, grows: map<nat, nat>, e: Event, junk: Spte, b: Layout) {
    match e
    case Load(key, _) => Accessed(a, key, false, b)
    case Store(key, _, _) => Accessed(a, key, true, b)
    case Grow(pid, n) =>
      var g := GrowsOf(grows, pid);
      if Refuses(g, n) then b == a else g + n <= USER_TOP && GrownTo(a, pid, g, n, junk, b)
  }

  lemma UnmappedWeight(spt: map<Key, Spte>, ptes: map<Key, Pte>, used: seq<bool>, key: Key, e: Spte, p: Pte)
    requires Present(ptes, key) && key in spt && !p.present
    ensures WeightOf(spt[key := e], ptes[key := p], used) == WeightOf(spt, ptes, used) - if e.slot >= 0 then 1 else 0
  {
    var a := Swapped(spt, ptes);
    assert key !in a && spt[key := e].Keys == spt.Keys;
    assert Swapped(spt[key := e], ptes[key := p]) == if e.slot >= 0 then a + {key} else a;
  }

  /** Evicting a page, wherever it goes, makes no stray. */
  lemma EvictWeight(t: Layout, v: Key)
    requires Present(t.ptes, v) && v in t.spt
    ensures Weight(Evicted(t, v)) <= Weight(t)
  {
    var u := Evicted(t, v);
    UnmappedWeight(t.spt, t.ptes, t.swap, v, u.spt[v], u.ptes[v]);
    assert u.spt == t.spt[v := u.spt[v]] && u.ptes == t.ptes[v := u.ptes[v]];
    TakeLowest(t.swap);
  }

  /** What one allocation does to the pool and, if it has a free page, to what is in memory. */
  ghost predicate PoolKept(a: Layout, b: Layout) {
    && FreeCount(a.pool) <= FreeCount(b.pool) + 1
    && (FreeCount(a.pool) > 0 ==> NoNewPages(b.ptes, a.ptes, None))
  }

  lemma RecycledKeeps(a: Layout, b: Layout, k: nat, q: map<Key, Pte>, v: Key)
    requires RecycledBy(a, b, k, q, v)
    ensures NoNewPages(a.ptes, b.ptes, None) && b.pool == a.pool
  {
    AccessedNoNew(a.ptes, q);
    NoNewSet(q, v, b.ptes[v]);
    NoNewTrans(a.ptes, q, b.ptes, None, None);
  }

  lemma TakenKeeps(a: Layout, b: Layout, k: nat)
    requires Taken(a, b, k)
    ensures NoNewPages(a.ptes, b.ptes, None) && PoolKept(a, b)
  {
    TakeLowest(a.pool);
    if LowestFree(a.pool) < |a.pool| {
      NoneNew(a.ptes);
    } else {
      var q, v :| RecycledBy(a, b, k, q, v);
      RecycledKeeps(a, b, k, q, v);
    }
  }

  /** A page that is not in memory is not touched. */
  lemma TakenOther(a: Layout, b: Layout, k: nat, key: Key)
    requires Taken(a, b, k) && !Present(a.ptes, key)
    ensures SameEntry(a.spt, b.spt, key) && !Present(b.ptes, key) && (key in b.lost <==> key in a.lost)
  {
    if LowestFree(a.pool) == |a.pool| {
      var q, v :| RecycledBy(a, b, k, q, v);
      assert SameMapping(a.ptes, q, key) && SameMapping(a.ptes, q, v);
    }
  }

  /** Page v was in memory, had to go to swap, and found neither a free pool page nor a free
      slot. */
  ghost predicate Dropped(a: Layout, v: Key, b: Layout) {
    && Present(a.ptes, v) && v in a.spt && (a.ptes[v].dirty || a.spt[v].readBytes == 0) && b.lost == a.lost + {v}
    && LowestFree(a.pool) == |a.pool| && LowestFree(a.swap) == |a.swap|
  }

  lemma TakenLoses(a: Layout, b: Layout, k: nat)
    requires Taken(a, b, k)
    ensures b.lost == a.lost || exists v :: Dropped(a, v, b)
  {
    if LowestFree(a.pool) == |a.pool| {
      var q, v :| RecycledBy(a, b, k, q, v);
      assert SameMapping(a.ptes, q, v);
      assert b.lost == a.lost || Dropped(a, v, b);
    }
  }

  /** An access to a page that is in memory, or to none, moves nothing; any other access
      loses at most one page, and only if it has to go to swap and pool and device are full. */
  lemma AccessLoses(a: Layout, key: Key, store: bool, b: Layout)
    requires Accessed(a, key, store, b)
    ensures key !in a.spt || Present(a.ptes, key) ==>
              b.spt == a.spt && b.pool == a.pool && b.swap == a.swap && b.lost == a.lost
    ensures b.lost == a.lost || exists v :: v != key && Dropped(a, v, b)
  {
    if key in a.spt {
      var m :| AccessedBy(a, key, store, b, m);
      if !Present(a.ptes, key) {
        var t, k :| FetchedBy(a, key, m, t, k);
        var d := Detached(a, key);
        TakenLoses(d, t, k);
        if t.lost != a.lost {
          var v :| Dropped(d, v, t);
          assert v != key && Dropped(a, v, b);
        }
      }
    }
  }

  lemma LaidKeeps(a: Layout, key: Key, junk: Spte, b: Layout)
    requires Laid(a, key, junk, b)
    ensures NoNewPages(a.ptes, b.ptes, Some(key)) && PoolKept(a, b)
    ensures FreeCount(a.pool) > 0 ==> !Present(a.ptes, key)
  {
    var m, k :| LaidBy(a, key, junk, b, m, k);
    TakenKeeps(a, m, k);
    NoNewSet(m.ptes, key, b.ptes[key]);
    NoNewTrans(a.ptes, m.ptes, b.ptes, None, Some(key));
    if FreeCount(a.pool) > 0 {
      assert StillIn(m.ptes, a.ptes, key);
      NoneLost(m.ptes, key, b.ptes[key]);
      NoNewTrans(b.ptes, m.ptes, a.ptes, None, None);
    }
  }

  /** A step that fills at most n swap slots and n pool pages, and loses a page only if
      fewer of either were free and slots and pool pages together are no more than the
      described pages and strays, and k more. */
  ghost predicate Losses(a: Layout, b: Layout, n: nat, k: int) {
    && a.lost <= b.lost && |a.swap| == |b.swap| && |a.pool| == |b.pool|
    && FreeCount(a.swap) <= FreeCount(b.swap) + n && FreeCount(a.pool) <= FreeCount(b.pool) + n
    && (b.lost != a.lost ==>
          FreeCount(a.swap) < n && FreeCount(a.pool) < n && |a.swap| + |a.pool| <= Weight(a) + k)
  }

  lemma RecycledLosses(frames: seq<Frame>, a: Layout, b: Layout, k: nat, extra: Option<Key>, d: nat,
                       q: map<Key, Pte>, v: Key)
    requires Owned(frames, a.pool, a.ptes, -1) && Known(frames, a.spt, extra) && d <= 1
    requires extra.Some? ==> !Present(a.ptes, extra.value)
    requires d == 1 ==> extra.Some? && extra.value in a.spt && a.spt[extra.value].slot < 0
    requires LowestFree(a.pool) == |a.pool| && RecycledBy(a, b, k, q, v)
    ensures Losses(a, b, 1, 0 - d) && Weight(b) <= Weight(a)
  {
    AccessedNoNew(a.ptes, q);
    SameWeight(a.spt, a.ptes, q, a.swap);
    EvictWeight(a.(ptes := q), v);
    TakeLowest(a.pool);
    TakeLowest(a.swap);
    if LowestFree(a.swap) == |a.swap| {
      FullWeight(frames, a.pool, a.ptes, a.spt, a.swap, extra, d);
    }
  }

  lemma TakenLosses(frames: seq<Frame>, a: Layout, b: Layout, k: nat, extra: Option<Key>, d: nat)
    requires Owned(frames, a.pool, a.ptes, -1) && Known(frames, a.spt, extra) && d <= 1
    requires extra.Some? ==> !Present(a.ptes, extra.value)
    requires d == 1 ==> extra.Some? && extra.value in a.spt && a.spt[extra.value].slot < 0
    requires Taken(a, b, k)
    ensures Losses(a, b, 1, 0 - d) && Weight(b) <= Weight(a)
  {
    if LowestFree(a.pool) < |a.pool| {
      TakeLowest(a.pool);
    } else {
      var q, v :| RecycledBy(a, b, k, q, v);
      RecycledLosses(frames, a, b, k, extra, d, q, v);
    }
  }

  lemma LossesSame(a: Layout, t: Layout, b: Layout, k: int)
    requires Losses(a, t, 1, k) && b.lost == t.lost && b.pool == t.pool
    requires |b.swap| == |t.swap| && FreeCount(t.swap) <= FreeCount(b.swap)
    ensures Losses(a, b, 1, k)
  {
  }

  /** A zero page mapped at a described page that is not in memory, in a page just taken. */
  lemma OverlaidLosses(a: Layout, t: Layout, k: nat, key: Key, junk: Spte)
    requires Taken(a, t, k) && !Present(t.ptes, key) && key in t.spt && Losses(a, t, 1, 0) && Weight(t) <= Weight(a)
    ensures var b := MappedAt(t, key, k, true);
            && Losses(a, b, 1, 0) && Weight(b) <= Weight(a) + 1 && Laid(a, key, junk, b)
            && (FreeCount(a.pool) > 0 ==> !Present(a.ptes, key))
  {
    var b := MappedAt(t, key, k, true);
    MappedWeight(t.spt, t.ptes, t.swap, key, b.ptes[key]);
    LossesSame(a, t, b, 0);
    assert b == b.(spt := t.spt);
    assert LaidBy(a, key, junk, b, t, k);
    LaidKeeps(a, key, junk, b);
  }

  lemma LossesThen(a: Layout, b: Layout, c: Layout, n: nat, k: nat, m: nat, j: int)
    requires Losses(a, b, n, k) && Weight(b) <= Weight(a) + k && Losses(b, c, m, j) && j >= 0
    ensures Losses(a, c, n + m, k + j)
  {
  }

  lemma LossesDetached(a: Layout, t: Layout, b: Layout, d: nat)
    requires t.lost == a.lost && t.swap == a.swap && t.pool == a.pool && Weight(t) == Weight(a) + d
    requires Losses(t, b, 1, 0 - d)
    ensures Losses(a, b, 1, 0)
  {
  }

  lemma LossesWithin(a: Layout, b: Layout, n: nat, k: int, m: nat, j: int)
    requires Losses(a, b, n, k) && n <= m && k <= j
    ensures Losses(a, b, m, j)
  {
  }

  /** A slot whose page was read back is free again, and no stray any more. */
  lemma FilledWeight(t: Layout, key: Key, slot: nat)
    requires Present(t.ptes, key) && slot < |t.swap| && t.swap[slot]
    ensures Weight(Filled(t, key, slot)) == Weight(t) - 1 && FreeCount(t.swap) <= FreeCount(Filled(t, key, slot).swap)
  {
    var p := t.ptes[key].(dirty := true);
    FreeCountUpdate(t.swap, slot, false);
    NoneLost(t.ptes, key, p);
    StillMapped(t.ptes, key, p);
    SameWeight(t.spt, t.ptes, t.ptes[key := p], t.swap);
    FreedWeight(t.spt, t.ptes[key := p], t.swap, slot);
  }

  // ---------------------------------------------------------------------------
  // Runs
  // ---------------------------------------------------------------------------

  /** The pages an event may bring in. */
  function Demand(e: Event): nat {
    if e.Grow? then e.pages else 1
  }

  function TotalDemand(events: seq<Event>): nat {
    if events == [] then 0 else TotalDemand(events[..|events| - 1]) + Demand(events[|events| - 1])
  }

  /** The pages that an event adds to a stack. */
  ghost function PagesGrown(s: FlatState, e: Event): nat {
    if e.Grow? && !Refuses(GrowsOf(s.grows, e.pid), e.pages) then e.pages else 0
  }

  ghost function TotalGrowth(s: FlatState, events: seq<Event>): nat
    requires forall e | e in events :: ValidEvent(e)
    decreases |events|
  {
    if events == [] then 0
    else
      var n := |events| - 1;
      TotalGrowth(s, events[..n]) + PagesGrown(FlatRun(s, events[..n]).0, events[n])
  }

  /** Of the pages of a growth, those that are described already. */
  ghost function Overlaid(s: FlatState, pid: nat, g: nat, n: nat): nat
    requires g + n <= USER_TOP
  {
    if n == 0 then 0 else Overlaid(s, pid, g, n - 1) + if StackKey(pid, g, n - 1) in s.filed then 1 else 0
  }

  lemma NewlyFiledCount(filed: map<Key, bool>, key: Key)
    ensures |NewlyFiled(filed, key).Keys| == |filed.Keys| + if key in filed then 0 else 1
  {
    if key !in filed {
      assert NewlyFiled(filed, key).Keys == filed.Keys + {key};
    }
  }

  /** Round n finds its page described exactly if it was so before the growth. */
  lemma GrownKey(s: FlatState, pid: nat, g: nat, n: nat)
    requires g == GrowsOf(s.grows, pid) && 0 < n && g + n <= USER_TOP
    ensures StackKey(pid, g, n - 1) in GrownState(s, pid, g, n - 1).filed <==> StackKey(pid, g, n - 1) in s.filed
    ensures |GrownState(s, pid, g, n).filed.Keys|
            == |GrownState(s, pid, g, n - 1).filed.Keys| + if StackKey(pid, g, n - 1) in s.filed then 0 else 1
  {
    GrownPages(s, pid, g, n - 1, StackKey(pid, g, n - 1));
    NewlyFiledCount(GrownState(s, pid, g, n - 1).filed, StackKey(pid, g, n - 1));
  }

  lemma {:induction false} GrownFiled(s: FlatState, pid: nat, g: nat, n: nat)
    requires g == GrowsOf(s.grows, pid) && g + n <= USER_TOP
    ensures |GrownState(s, pid, g, n).filed.Keys| + Overlaid(s, pid, g, n) == |s.filed.Keys| + n
  {
    if n > 0 {
      GrownFiled(s, pid, g, n - 1);
      GrownKey(s, pid, g, n);
    }
  }

  ghost function TotalOverlaid(s: FlatState, events: seq<Event>): nat
    requires forall e | e in events :: ValidEvent(e)
    decreases |events|
  {
    if events == [] then 0
    else
      var n := |events| - 1;
      var t, e := FlatRun(s, events[..n]).0, events[n];
      TotalOverlaid(s, events[..n])
      + if e.Grow? && FlatReply(t, e) == Reply.Grown then Overlaid(t, e.pid, GrowsOf(t.grows, e.pid), e.pages) else 0
  }

  /** In a run without a halt, each page grown is newly described or laid over another. */
  lemma {:induction false} GrowthCount(s: FlatState, events: seq<Event>)
    requires (forall e | e in events :: ValidEvent(e)) && Halt !in FlatRun(s, events).1
    ensures |FlatRun(s, events).0.filed.Keys| + TotalOverlaid(s, events) == |s.filed.Keys| + TotalGrowth(s, events)
    decreases |events|
  {
    if events != [] {
      var n := |events| - 1;
      var (t, replies) := FlatRun(s, events[..n]);
      var e := events[n];
      assert FlatRun(s, events).1 == replies + [FlatReply(t, e)];
      assert FlatReply(t, e) in FlatRun(s, events).1 && forall r | r in replies :: r in FlatRun(s, events).1;
      GrowthCount(s, events[..n]);
      if e.Grow? && FlatReply(t, e) == Reply.Grown {
        GrownFiled(t, e.pid, GrowsOf(t.grows, e.pid), e.pages);
      }
    }
  }

  /** One more event. */
  lemma Extended(s: FlatState, events: seq<Event>, n: nat)
    requires (forall e | e in events :: ValidEvent(e)) && n < |events|
    ensures events[n] in events && events[..n + 1][..n] == events[..n]
    ensures var w := FlatRun(s, events[..n]).0;
            && TotalDemand(events[..n + 1]) == TotalDemand(events[..n]) + Demand(events[n])
            && TotalGrowth(s, events[..n + 1]) == TotalGrowth(s, events[..n]) + PagesGrown(w, events[n])
            && RunSpoilt(s, events[..n + 1]) == RunSpoilt(s, events[..n]) + StepSpoilt(w, events[n])
            && FlatRun(s, events[..n + 1]).0 == FlatStep(w, events[n])
            && FlatRun(s, events[..n + 1]).1 == FlatRun(s, events[..n]).1 + [FlatReply(w, events[n])]
  {
    assert events[..n + 1][..n] == events[..n];
  }

  lemma {:induction false} SumsOfPrefix(s: FlatState, events: seq<Event>, n: nat)
    requires (forall e | e in events :: ValidEvent(e)) && n <= |events|
    ensures TotalDemand(events[..n]) <= TotalDemand(events) && TotalGrowth(s, events[..n]) <= TotalGrowth(s, events)
  {
    if n == |events| {
      assert events[..n] == events;
    } else {
      var m := |events| - 1;
      SumsOfPrefix(s, events[..m], n);
      assert events[..m][..n] == events[..n];
    }
  }

  /** The event touches none of these pages. */
  predicate Spared(gone: set<Key>, e: Event) {
    e.Grow? || e.key !in gone
  }

  /** The state of the paging at some moment, but for the contents of frames and slots. */
  datatype Moment = Moment(state: FlatState, torn: set<Key>, layout: Layout)

  /** Event e took the paging from a to b and was answered with r: the flat memory makes a
      step, and the pages spoilt are those that it says; pages move as Follows says; no more
      is filled or lost than Losses says; and the reply is that of the flat memory, unless
      the event touches a page that was lost or spoilt before. */
  ghost predicate Served(a: Moment, e: Event, junk: Spte, r: Reply, b: Moment)
    requires ValidEvent(e)
  {
    && b.state == FlatStep(a.state, e) && b.torn == a.torn + StepSpoilt(a.state, e)
    && Follows(a.layout, a.state.grows, e, junk, b.layout)
    && Losses(a.layout, b.layout, Demand(e), PagesGrown(a.state, e))
    && Weight(b.layout) <= Weight(a.layout) + PagesGrown(a.state, e)
    && (Spared(a.layout.lost + a.torn, e) ==> r == FlatReply(a.state, e))
  }

  ghost predicate StepAt(events: seq<Event>, junk: nat -> Spte, replies: seq<Reply>, trace: seq<Moment>, i: nat)
    requires (forall e | e in events :: ValidEvent(e)) && i < |replies| <= |events| && i + 1 < |trace|
  {
    Served(trace[i], events[i], junk(i), replies[i], trace[i + 1])
  }

  /** `trace` is the state before each event served and after the last of them. */
  ghost predicate IsRun(events: seq<Event>, junk: nat -> Spte, replies: seq<Reply>, trace: seq<Moment>)
    requires forall e | e in events :: ValidEvent(e)
  {
    && |replies| <= |events| && |trace| == |replies| + 1
    && forall i | 0 <= i < |replies| :: StepAt(events, junk, replies, trace, i)
  }

  lemma MoreSteps(events: seq<Event>, junk: nat -> Spte, replies: seq<Reply>, trace: seq<Moment>, r: Reply, b: Moment)
    requires (forall e | e in events :: ValidEvent(e)) && IsRun(events, junk, replies, trace) && |replies| < |events|
    requires events[|replies|] in events
    requires Served(trace[|replies|], events[|replies|], junk(|replies|), r, b)
    ensures IsRun(events, junk, replies + [r], trace + [b])
  {
    forall i | 0 <= i < |replies| + 1 ensures StepAt(events, junk, replies + [r], trace + [b], i) {
      if i < |replies| {
        assert StepAt(events, junk, replies, trace, i);
      }
    }
  }

  /** The flat memory of moment n is that of the flat run, and so are the pages spoilt. */
  lemma {:induction false} RunFlat(events: seq<Event>, junk: nat -> Spte, replies: seq<Reply>, trace: seq<Moment>,
                                   n: nat)
    requires (forall e | e in events :: ValidEvent(e)) && IsRun(events, junk, replies, trace) && n <= |replies|
    ensures trace[n].state == FlatRun(trace[0].state, events[..n]).0
    ensures trace[n].torn == trace[0].torn + RunSpoilt(trace[0].state, events[..n])
  {
    if n > 0 {
      RunFlat(events, junk, replies, trace, n - 1);
      assert StepAt(events, junk, replies, trace, n - 1);
      Extended(trace[0].state, events, n - 1);
    }
  }

  /** Slots and pool pages over the first n events. */
  lemma {:induction false} RunLosses(events: seq<Event>, junk: nat -> Spte, replies: seq<Reply>, trace: seq<Moment>,
                                     n: nat)
    requires (forall e | e in events :: ValidEvent(e)) && IsRun(events, junk, replies, trace) && n <= |replies|
    ensures var s, a, b := trace[0].state, trace[0].layout, trace[n].layout;
            && Losses(a, b, TotalDemand(events[..n]), TotalGrowth(s, events[..n]))
            && Weight(b) <= Weight(a) + TotalGrowth(s, events[..n])
  {
    if n > 0 {
      var s, a, b, c := trace[0].state, trace[0].layout, trace[n - 1].layout, trace[n].layout;
      RunLosses(events, junk, replies, trace, n - 1);
      RunFlat(events, junk, replies, trace, n - 1);
      assert StepAt(events, junk, replies, trace, n - 1);
      Extended(s, events, n - 1);
      LossesThen(a, b, c, TotalDemand(events[..n - 1]), TotalGrowth(s, events[..n - 1]),
                 Demand(events[n - 1]), PagesGrown(trace[n - 1].state, events[n - 1]));
    }
  }

  lemma LossesOfAll(s: FlatState, events: seq<Event>, n: nat, a: Layout, b: Layout)
    requires (forall e | e in events :: ValidEvent(e)) && n <= |events|
    requires Losses(a, b, TotalDemand(events[..n]), TotalGrowth(s, events[..n]))
    ensures Losses(a, b, TotalDemand(events), TotalGrowth(s, events))
  {
    SumsOfPrefix(s, events, n);
    LossesWithin(a, b, TotalDemand(events[..n]), TotalGrowth(s, events[..n]),
                 TotalDemand(events), TotalGrowth(s, events));
  }

  /** The event after the last one served stopped the kernel, in layout c. */
  lemma StoppedLosses(events: seq<Event>, junk: nat -> Spte, replies: seq<Reply>, trace: seq<Moment>, c: Layout)
    requires (forall e | e in events :: ValidEvent(e)) && IsRun(events, junk, replies, trace) && |replies| < |events|
    requires var n := |replies|; Losses(trace[n].layout, c, Demand(events[n]), PagesGrown(trace[n].state, events[n]))
    ensures Losses(trace[0].layout, c, TotalDemand(events), TotalGrowth(trace[0].state, events))
  {
    var n, s := |replies|, trace[0].state;
    RunFlat(events, junk, replies, trace, n);
    RunLosses(events, junk, replies, trace, n);
    Extended(s, events, n);
    LossesThen(trace[0].layout, trace[n].layout, c, TotalDemand(events[..n]), TotalGrowth(s, events[..n]),
               Demand(events[n]), PagesGrown(trace[n].state, events[n]));
    LossesOfAll(s, events, n + 1, trace[0].layout, c);
  }

  lemma StepReply(events: seq<Event>, junk: nat -> Spte, replies: seq<Reply>, trace: seq<Moment>, i: nat)
    requires (forall e | e in events :: ValidEvent(e)) && IsRun(events, junk, replies, trace) && i < |replies|
    requires trace[i].layout.lost + trace[i].torn == {} && events[i] in events
    ensures replies[i] == FlatReply(trace[i].state, events[i])
  {
    assert StepAt(events, junk, replies, trace, i);
  }

  /** Until a page is lost or spoilt, the replies are those of the flat memory. */
  lemma {:induction false} FlatReplies(events: seq<Event>, junk: nat -> Spte, replies: seq<Reply>, trace: seq<Moment>,
                                       m: nat)
    requires (forall e | e in events :: ValidEvent(e)) && IsRun(events, junk, replies, trace) && m <= |replies|
    requires forall i | 0 <= i < m :: trace[i].layout.lost + trace[i].torn == {}
    ensures replies[..m] == FlatRun(trace[0].state, events[..m]).1
  {
    if m > 0 {
      FlatReplies(events, junk, replies, trace, m - 1);
      RunFlat(events, junk, replies, trace, m - 1);
      Extended(trace[0].state, events, m - 1);
      StepReply(events, junk, replies, trace, m - 1);
      assert replies[..m] == replies[..m - 1] + [replies[m - 1]];
    }
  }

  lemma {:induction false} SpoiltOfPrefix(s: FlatState, events: seq<Event>, i: nat, m: nat)
    requires (forall e | e in events :: ValidEvent(e)) && i <= m <= |events|
    ensures RunSpoilt(s, events[..i]) <= RunSpoilt(s, events[..m])
  {
    if i < m {
      SpoiltOfPrefix(s, events, i, m - 1);
      Extended(s, events, m - 1);
    }
  }

  /** Fewer swap slots and fewer pool pages are free than the event asks for. */
  predicate Short(t: Layout, e: Event) {
    FreeCount(t.swap) < Demand(e) && FreeCount(t.pool) < Demand(e)
  }

  /** m is the first event that loses a page, |replies| if none does.  It began short of
      slots and of pool pages, and the replies before it are those of the flat memory unless
      a growth spoilt a page. */
  ghost predicate LosesFirst(events: seq<Event>, replies: seq<Reply>, trace: seq<Moment>, m: nat)
    requires (forall e | e in events :: ValidEvent(e)) && |replies| <= |events| && |trace| == |replies| + 1
  {
    && m <= |replies| && (forall i | 0 <= i <= m :: trace[i].layout.lost == trace[0].layout.lost)
    && (m < |replies| ==> trace[m + 1].layout.lost != trace[m].layout.lost && Short(trace[m].layout, events[m]))
    && (trace[0].layout.lost + trace[0].torn + RunSpoilt(trace[0].state, events[..m]) == {} ==>
          replies[..m] == FlatRun(trace[0].state, events[..m]).1)
  }

  lemma FirstLoss(events: seq<Event>, junk: nat -> Spte, replies: seq<Reply>, trace: seq<Moment>) returns (m: nat)
    requires (forall e | e in events :: ValidEvent(e)) && IsRun(events, junk, replies, trace)
    ensures LosesFirst(events, replies, trace, m)
  {
    m := 0;
    while m < |replies| && trace[m + 1].layout.lost == trace[m].layout.lost
      invariant m <= |replies| && forall i | 0 <= i <= m :: trace[i].layout.lost == trace[0].layout.lost
    {
      m := m + 1;
    }
    if m < |replies| {
      assert StepAt(events, junk, replies, trace, m);
    }
    var s, torn := trace[0].state, trace[0].torn;
    if trace[0].layout.lost + torn + RunSpoilt(s, events[..m]) == {} {
      assert trace[0].layout.lost == torn == RunSpoilt(s, events[..m]) == {};
      forall i | 0 <= i < m ensures trace[i].layout.lost + trace[i].torn == {} {
        RunFlat(events, junk, replies, trace, i);
        SpoiltOfPrefix(s, events, i, m);
      }
      FlatReplies(events, junk, replies, trace, m);
    }
  }

  // ---------------------------------------------------------------------------
  // What a load finds
  // ---------------------------------------------------------------------------

  /** The stack pages of a process before event n, by the growths that were answered so; it
      had g at first. */
  function StackPages(g: nat, events: seq<Event>, replies: seq<Reply>, pid: nat, n: nat): nat
    requires n <= |events| && n <= |replies|
  {
    if n == 0 then g
    else
      var e := events[n - 1];
      StackPages(g, events, replies, pid, n - 1)
      + if e.Grow? && e.pid == pid && replies[n - 1] == Reply.Grown then e.pages else 0
  }

  /** Event i is a growth that made page key a zero page. */
  ghost predicate ZeroedAt(s: FlatState, events: seq<Event>, replies: seq<Reply>, key: Key, i: nat)
    requires i < |events| && i < |replies|
  {
    && events[i].Grow? && events[i].pid == key.pid && replies[i] == Reply.Grown
    && var top := USER_TOP - StackPages(GrowsOf(s.grows, key.pid), events, replies, key.pid, i);
       top - events[i].pages <= key.upage < top
  }

  /** Event i is a store to that byte. */
  predicate StoredAt(events: seq<Event>, replies: seq<Reply>, key: Key, offset: nat, i: nat)
    requires i < |events| && i < |replies|
  {
    events[i].Store? && events[i].key == key && events[i].offset == offset && replies[i] == Stored
  }

  ghost predicate SetAt(s: FlatState, events: seq<Event>, replies: seq<Reply>, key: Key, offset: nat, i: int) {
    && 0 <= i < |events| && i < |replies|
    && (ZeroedAt(s, events, replies, key, i) || StoredAt(events, replies, key, offset, i))
  }

  /** Event j is the last one before event n that gave the byte a value; -1 if none did. */
  ghost predicate LastSet(s: FlatState, events: seq<Event>, replies: seq<Reply>, key: Key, offset: nat, n: nat, j: int)
  {
    && -1 <= j < n && (j >= 0 ==> SetAt(s, events, replies, key, offset, j))
    && forall i | j < i < n :: !SetAt(s, events, replies, key, offset, i)
  }

  /** What a load of the byte finds then: the byte stored, 0 in a page just grown, or the
      byte that was there at first. */
  ghost function Found(s: FlatState, events: seq<Event>, key: Key, offset: nat, j: int): Reply
    requires j < |events| && offset < PGSIZE
  {
    if j >= 0 then Value(if events[j].Store? then events[j].byte else 0)
    else if key in s.flat then Value(s.flat[key].bytes[offset]) else NoPage
  }

  /** Some growth before event n made page key a zero page. */
  ghost predicate GrownBefore(s: FlatState, events: seq<Event>, replies: seq<Reply>, key: Key, n: nat)
    requires n <= |events| && n <= |replies|
  {
    exists i: nat :: i < n && ZeroedAt(s, events, replies, key, i)
  }

  /** How a store to page key is answered then: a grown page is writable, any other page as it
      was at first. */
  ghost function Allowed(s: FlatState, events: seq<Event>, replies: seq<Reply>, key: Key, n: nat): Reply
    requires n <= |events| && n <= |replies|
  {
    if GrownBefore(s, events, replies, key, n) then Stored
    else if key !in s.flat then NoPage else if s.flat[key].writable then Stored else Denied
  }

  /** One byte of one page changed, and nothing else. */
  ghost predicate ByteWritten(flat: map<Key, FlatPage>, flat': map<Key, FlatPage>, key: Key, offset: nat, b: Byte)
    requires offset < PGSIZE
  {
    && flat'.Keys == flat.Keys && key in flat && flat'[key].bytes[offset] == b
    && (forall i | 0 <= i < PGSIZE && i != offset :: flat'[key].bytes[i] == flat[key].bytes[i])
    && (forall k | k in flat && k != key :: flat'[k] == flat[k])
    && forall k | k in flat :: flat'[k].writable == flat[k].writable
  }

  /** The flat memory after a store: unchanged unless the page is there and writable. */
  ghost function StoredFlat(flat: map<Key, FlatPage>, key: Key, offset: nat, b: Byte): map<Key, FlatPage>
    requires offset < PGSIZE
  {
    if key in flat && flat[key].writable then flat[key := FlatPage(flat[key].bytes[offset := b], true)] else flat
  }

  /** A store to a writable page writes that byte; any other changes nothing. */
  ghost predicate StoreEffect(flat: map<Key, FlatPage>, flat': map<Key, FlatPage>, key: Key, offset: nat, b: Byte)
    requires offset < PGSIZE
  {
    if key in flat && flat[key].writable then ByteWritten(flat, flat', key, offset, b) else flat' == flat
  }

  lemma OneByte(flat: map<Key, FlatPage>, key: Key, offset: nat, b: Byte)
    requires offset < PGSIZE
    ensures StoreEffect(flat, StoredFlat(flat, key, offset, b), key, offset, b)
  {
  }

  ghost function LoadReply(flat: map<Key, FlatPage>, key: Key, offset: nat): Reply
    requires offset < PGSIZE
  {
    if key in flat then Value(flat[key].bytes[offset]) else NoPage
  }

  ghost function StoreReply(flat: map<Key, FlatPage>, key: Key): Reply {
    if key !in flat then NoPage else if flat[key].writable then Stored else Denied
  }

  /** The page was made a zero page by the event. */
  predicate Zeroes(s: FlatState, e: Event, key: Key)
  {
    e.Grow? && e.pid == key.pid && !Refuses(GrowsOf(s.grows, e.pid), e.pages)
    && GrowsOf(s.grows, e.pid) + e.pages <= USER_TOP && InGrowth(key, e.pid, GrowsOf(s.grows, e.pid), e.pages)
  }

  /** One event, one byte. */
  lemma StepByte(s: FlatState, e: Event, key: Key, offset: nat)
    requires ValidEvent(e) && offset < PGSIZE
    ensures var t := FlatStep(s, e).flat;
            && LoadReply(t, key, offset)
               == (if Zeroes(s, e, key) then Value(0)
                   else if e.Store? && e.key == key && e.offset == offset && StoreReply(s.flat, key) == Stored then
                     Value(e.byte)
                   else LoadReply(s.flat, key, offset))
            && StoreReply(t, key) == if Zeroes(s, e, key) then Stored else StoreReply(s.flat, key)
  {
    if e.Grow? && FlatReply(s, e) == Reply.Grown {
      GrownPages(s, e.pid, GrowsOf(s.grows, e.pid), e.pages, key);
    }
  }

  lemma StepPages(s: FlatState, e: Event, pid: nat)
    requires ValidEvent(e)
    ensures GrowsOf(FlatStep(s, e).grows, pid)
            == GrowsOf(s.grows, pid) + if e.Grow? && e.pid == pid && FlatReply(s, e) == Reply.Grown then e.pages else 0
  {
    if e.Grow? && FlatReply(s, e) == Reply.Grown {
      GrownPages(s, e.pid, GrowsOf(s.grows, e.pid), e.pages, Key(pid, 0));
    }
  }

  lemma StepFacts(events: seq<Event>, junk: nat -> Spte, replies: seq<Reply>, trace: seq<Moment>, i: nat)
    requires (forall e | e in events :: ValidEvent(e)) && IsRun(events, junk, replies, trace) && i < |replies|
    requires events[i] in events
    ensures trace[i + 1].state == FlatStep(trace[i].state, events[i])
    ensures trace[i].layout.lost <= trace[i + 1].layout.lost && trace[i].torn <= trace[i + 1].torn
    ensures Spared(trace[i].layout.lost + trace[i].torn, events[i]) ==>
              replies[i] == FlatReply(trace[i].state, events[i])
  {
    assert StepAt(events, junk, replies, trace, i);
  }

  lemma {:induction false} StackPagesExact(events: seq<Event>, junk: nat -> Spte, replies: seq<Reply>,
                                           trace: seq<Moment>, pid: nat, n: nat)
    requires (forall e | e in events :: ValidEvent(e)) && IsRun(events, junk, replies, trace) && n <= |replies|
    ensures GrowsOf(trace[n].state.grows, pid)
            == StackPages(GrowsOf(trace[0].state.grows, pid), events, replies, pid, n)
  {
    if n > 0 {
      StackPagesExact(events, junk, replies, trace, pid, n - 1);
      StepFacts(events, junk, replies, trace, n - 1);
      StepPages(trace[n - 1].state, events[n - 1], pid);
    }
  }

  lemma ZeroesExact(events: seq<Event>, junk: nat -> Spte, replies: seq<Reply>, trace: seq<Moment>, key: Key, i: nat)
    requires (forall e | e in events :: ValidEvent(e)) && IsRun(events, junk, replies, trace) && i < |replies|
    ensures Zeroes(trace[i].state, events[i], key) <==> ZeroedAt(trace[0].state, events, replies, key, i)
  {
    StackPagesExact(events, junk, replies, trace, key.pid, i);
    StepFacts(events, junk, replies, trace, i);
  }

  /** A page that is not lost or spoilt at event n was not before. */
  lemma {:induction false} SparedBefore(events: seq<Event>, junk: nat -> Spte, replies: seq<Reply>,
                                        trace: seq<Moment>, key: Key, i: nat, n: nat)
    requires (forall e | e in events :: ValidEvent(e)) && IsRun(events, junk, replies, trace) && i <= n <= |replies|
    requires key !in trace[n].layout.lost + trace[n].torn
    ensures key !in trace[i].layout.lost + trace[i].torn
    decreases n - i
  {
    if i < n {
      StepFacts(events, junk, replies, trace, n - 1);
      SparedBefore(events, junk, replies, trace, key, i, n - 1);
    }
  }

  lemma {:induction false} ByteFound(events: seq<Event>, junk: nat -> Spte, replies: seq<Reply>, trace: seq<Moment>,
                                     key: Key, offset: nat, n: nat, j: int)
    requires (forall e | e in events :: ValidEvent(e)) && IsRun(events, junk, replies, trace) && n <= |replies|
    requires key !in trace[n].layout.lost + trace[n].torn && offset < PGSIZE
    requires LastSet(trace[0].state, events, replies, key, offset, n, j)
    ensures LoadReply(trace[n].state.flat, key, offset) == Found(trace[0].state, events, key, offset, j)
  {
    if n > 0 {
      var s, i := trace[0].state, n - 1;
      SparedBefore(events, junk, replies, trace, key, i, n);
      StepFacts(events, junk, replies, trace, i);
      ZeroesExact(events, junk, replies, trace, key, i);
      StepByte(trace[i].state, events[i], key, offset);
      if j < i {
        assert !SetAt(s, events, replies, key, offset, i);
        ByteFound(events, junk, replies, trace, key, offset, i, j);
      }
    }
  }

  lemma {:induction false} PermissionFound(events: seq<Event>, junk: nat -> Spte, replies: seq<Reply>,
                                           trace: seq<Moment>, key: Key, n: nat)
    requires (forall e | e in events :: ValidEvent(e)) && IsRun(events, junk, replies, trace) && n <= |replies|
    ensures StoreReply(trace[n].state.flat, key) == Allowed(trace[0].state, events, replies, key, n)
  {
    if n > 0 {
      var s, i := trace[0].state, n - 1;
      PermissionFound(events, junk, replies, trace, key, i);
      StepFacts(events, junk, replies, trace, i);
      ZeroesExact(events, junk, replies, trace, key, i);
      StepByte(trace[i].state, events[i], key, 0);
      assert GrownBefore(s, events, replies, key, n) <==>
             GrownBefore(s, events, replies, key, i) || ZeroedAt(s, events, replies, key, i);
    }
  }

  /** If event n is a load of a page that is neither lost nor spoilt, it is answered with the
      byte that event j, the last to set it, left there. */
  ghost predicate LoadFinds(s: FlatState, events: seq<Event>, replies: seq<Reply>, gone: set<Key>, n: nat, j: int)
    requires n < |events| && n < |replies|
  {
    events[n].Load? && events[n].offset < PGSIZE && events[n].key !in gone
    && LastSet(s, events, replies, events[n].key, events[n].offset, n, j) ==>
      replies[n] == Found(s, events, events[n].key, events[n].offset, j)
  }

  /** If it is a store to such a page, it is answered by what the page was at first or, if a
      growth made it, with Stored. */
  ghost predicate StoreAnswered(s: FlatState, events: seq<Event>, replies: seq<Reply>, gone: set<Key>, n: nat)
    requires n < |events| && n < |replies|
  {
    events[n].Store? && events[n].key !in gone ==> replies[n] == Allowed(s, events, replies, events[n].key, n)
  }

  /** Every run: loads find what was stored last. */
  lemma RunLoads(events: seq<Event>, junk: nat -> Spte, replies: seq<Reply>, trace: seq<Moment>, n: nat, j: int)
    requires (forall e | e in events :: ValidEvent(e)) && IsRun(events, junk, replies, trace) && n < |replies|
    ensures LoadFinds(trace[0].state, events, replies, trace[n].layout.lost + trace[n].torn, n, j)
  {
    var e := events[n];
    if e.Load? && e.key !in trace[n].layout.lost + trace[n].torn
       && LastSet(trace[0].state, events, replies, e.key, e.offset, n, j) {
      assert ValidEvent(e);
      StepFacts(events, junk, replies, trace, n);
      ByteFound(events, junk, replies, trace, e.key, e.offset, n, j);
    }
  }

  lemma RunStores(events: seq<Event>, junk: nat -> Spte, replies: seq<Reply>, trace: seq<Moment>, n: nat)
    requires (forall e | e in events :: ValidEvent(e)) && IsRun(events, junk, replies, trace) && n < |replies|
    ensures StoreAnswered(trace[0].state, events, replies, trace[n].layout.lost + trace[n].torn, n)
  {
    var e := events[n];
    if e.Store? && e.key !in trace[n].layout.lost + trace[n].torn {
      StepFacts(events, junk, replies, trace, n);
      PermissionFound(events, junk, replies, trace, e.key, n);
    }
  }

  /** What is in memory is described, so an obstacle in memory is one in the table. */
  lemma PresentDescribed(frames: seq<Frame>, used: seq<bool>, ptes: map<Key, Pte>, spt: map<Key, Spte>,
                         filed: map<Key, bool>, pid: nat, g: nat, pages: nat, tableOk: nat -> bool)
    requires Owned(frames, used, ptes, -1) && Known(frames, spt, None) && Listed(spt, filed)
    requires Obstructed(ptes, pid, g, pages, tableOk)
    ensures exists m :: 0 <= m < pages && Obstacle(filed.Keys, pid, g, m, TableFor(tableOk, m))
  {
    var m :| 0 <= m < pages && PresentObstacle(ptes, pid, g, m, TableFor(tableOk, m));
    if g + m < USER_TOP && StackKey(pid, g, m) !in filed {
      assert ListedAt(spt, filed, StackKey(pid, g, m));
      UndescribedAbsent(frames, used, ptes, spt, StackKey(pid, g, m));
    }
    assert Obstacle(filed.Keys, pid, g, m, TableFor(tableOk, m));
  }

  /** A growth onto pages that are not described, with page tables and addresses for all of
      them, meets no obstacle and spoils nothing. */
  lemma FreshGrowth(frames: seq<Frame>, used: seq<bool>, ptes: map<Key, Pte>, spt: map<Key, Spte>, s: FlatState,
                    pid: nat, g: nat, pages: nat, tableOk: nat -> bool)
    requires Owned(frames, used, ptes, -1) && Known(frames, spt, None) && Listed(spt, s.filed)
    requires g + pages <= USER_TOP && TablesFor(tableOk, pages)
    requires forall m | 0 <= m < pages :: StackKey(pid, g, m) !in s.filed
    ensures !Obstructed(ptes, pid, g, pages, tableOk) && GrowthSpoilt(s, pid, g, pages) == {}
  {
    forall m | 0 <= m < pages ensures !PresentObstacle(ptes, pid, g, m, TableFor(tableOk, m)) {
      assert ListedAt(spt, s.filed, StackKey(pid, g, m));
      UndescribedAbsent(frames, used, ptes, spt, StackKey(pid, g, m));
    }
    forall key: Key ensures key !in GrowthSpoilt(s, pid, g, pages) {
      GrowthSpoiltExact(s, pid, g, pages, key);
      assert InGrowth(key, pid, g, pages) ==> key == StackKey(pid, g, USER_TOP - g - 1 - key.upage);
    }
  }

  /** None of the pages of a growth by n pages was in memory. */
  ghost predicate NonePresent(ptes: map<Key, Pte>, pid: nat, g: nat, n: nat)
    requires g + n <= USER_TOP
  {
    forall m | 0 <= m < n :: !Present(ptes, StackKey(pid, g, m))
  }

  /** While the pool has free pages nothing is evicted, and each round takes one of them. */
  ghost predicate PoolRounds(a: Layout, b: Layout, pid: nat, g: nat, n: nat)
    requires g + n <= USER_TOP
  {
    && FreeCount(a.pool) <= FreeCount(b.pool) + n
    && (n <= FreeCount(a.pool) ==> NoNewPages(b.ptes, a.ptes, None) && NonePresent(a.ptes, pid, g, n))
  }

  lemma PoolRoundsMore(a: Layout, b: Layout, c: Layout, pid: nat, g: nat, n: nat)
    requires g + n < USER_TOP && PoolRounds(a, b, pid, g, n) && PoolKept(b, c)
    requires FreeCount(b.pool) > 0 ==> !Present(b.ptes, StackKey(pid, g, n))
    ensures PoolRounds(a, c, pid, g, n + 1)
  {
    if n + 1 <= FreeCount(a.pool) {
      assert StillIn(b.ptes, a.ptes, StackKey(pid, g, n));
      NoNewTrans(c.ptes, b.ptes, a.ptes, None, None);
    }
  }

  /** One round, on a stack of g pages, leads from c to d. */
  ghost predicate OneRound(c: Moment, d: Moment, pid: nat, g: nat, junk: Spte) {
    && g < USER_TOP && d.state == AddedPage(c.state, pid, g)
    && d.torn == c.torn + SpoiltAt(c.state, StackKey(pid, g, 0))
    && Laid(c.layout, StackKey(pid, g, 0), junk, d.layout)
    && Losses(c.layout, d.layout, 1, 0) && Weight(d.layout) <= Weight(c.layout) + 1
  }

  ghost predicate PathAt(path: seq<Moment>, pid: nat, g: nat, junk: Spte, n: int) {
    0 < n < |path| ==> OneRound(path[n - 1], path[n], pid, g + n - 1, junk)
  }

  /** Each moment follows from the one before by a round of growth of a stack that has g
      pages at first. */
  ghost predicate IsPath(path: seq<Moment>, pid: nat, g: nat, junk: Spte) {
    |path| > 0 && g == GrowsOf(path[0].state.grows, pid) <= USER_TOP && forall n :: PathAt(path, pid, g, junk, n)
  }

  lemma LongerPath(path: seq<Moment>, pid: nat, g: nat, h: nat, junk: Spte, c: Moment, d: Moment)
    requires IsPath(path, pid, g, junk) && g + |path| == h + 1 && path[h - g] == c && OneRound(c, d, pid, h, junk)
    ensures IsPath(path + [d], pid, g, junk)
  {
    forall k ensures PathAt(path + [d], pid, g, junk, k) {
      assert PathAt(path, pid, g, junk, k);
    }
  }

  lemma RoundKey(pid: nat, g: nat, n: nat)
    requires g + n < USER_TOP
    ensures StackKey(pid, g + n, 0) == StackKey(pid, g, n)
  {
  }

  lemma PathRound(path: seq<Moment>, pid: nat, g: nat, junk: Spte, n: nat)
    requires IsPath(path, pid, g, junk) && 0 < n < |path|
    ensures g + n <= USER_TOP && Laid(path[n - 1].layout, StackKey(pid, g, n - 1), junk, path[n].layout)
  {
    assert PathAt(path, pid, g, junk, n);
    RoundKey(pid, g, n - 1);
  }

  lemma RoundState(path: seq<Moment>, pid: nat, g: nat, junk: Spte, n: nat)
    requires IsPath(path, pid, g, junk) && 0 < n < |path|
    ensures g + n <= USER_TOP && path[n].state == AddedPage(path[n - 1].state, pid, g + n - 1)
    ensures path[n].torn == path[n - 1].torn + SpoiltAt(path[n - 1].state, StackKey(pid, g, n - 1))
  {
    assert PathAt(path, pid, g, junk, n);
    RoundKey(pid, g, n - 1);
  }

  lemma GrownLast(s: FlatState, pid: nat, g: nat, n: nat)
    requires 0 < n && g + n <= USER_TOP
    ensures GrownState(s, pid, g, n) == AddedPage(GrownState(s, pid, g, n - 1), pid, g + n - 1)
  {
  }

  /** The flat memory after n rounds. */
  lemma {:induction false} PathState(path: seq<Moment>, pid: nat, g: nat, junk: Spte, n: nat)
    requires IsPath(path, pid, g, junk) && n < |path|
    ensures g + n <= USER_TOP && path[n].state == GrownState(path[0].state, pid, g, n)
    ensures path[n].torn == path[0].torn + GrowthSpoilt(path[0].state, pid, g, n)
    ensures GrowsOf(path[n].state.grows, pid) == g + n
  {
    if n > 0 {
      PathState(path, pid, g, junk, n - 1);
      RoundState(path, pid, g, junk, n);
      GrownStep(path[0].state, pid, g, n - 1);
      GrownLast(path[0].state, pid, g, n);
    }
  }

  lemma RoundLosses(path: seq<Moment>, pid: nat, g: nat, junk: Spte, n: nat)
    requires IsPath(path, pid, g, junk) && 0 < n < |path|
    ensures Losses(path[n - 1].layout, path[n].layout, 1, 0)
    ensures Weight(path[n].layout) <= Weight(path[n - 1].layout) + 1
  {
    assert PathAt(path, pid, g, junk, n);
  }

  /** Slots and pool pages over n rounds. */
  lemma {:induction false} PathLosses(path: seq<Moment>, pid: nat, g: nat, junk: Spte, n: nat)
    requires IsPath(path, pid, g, junk) && n < |path|
    ensures Losses(path[0].layout, path[n].layout, n, n) && Weight(path[n].layout) <= Weight(path[0].layout) + n
  {
    if n > 0 {
      PathLosses(path, pid, g, junk, n - 1);
      RoundLosses(path, pid, g, junk, n);
      LossesThen(path[0].layout, path[n - 1].layout, path[n].layout, n - 1, n - 1, 1, 0);
      LossesWithin(path[0].layout, path[n].layout, n, n - 1, n, n);
    }
  }

  /** What is in memory after n rounds. */
  lemma {:induction false} PathPool(path: seq<Moment>, pid: nat, g: nat, junk: Spte, n: nat)
    requires IsPath(path, pid, g, junk) && n < |path|
    ensures g + n <= USER_TOP && PoolRounds(path[0].layout, path[n].layout, pid, g, n)
    ensures NoNewBelow(path[0].layout.ptes, path[n].layout.ptes, pid, g + n)
  {
    if n > 0 {
      PathPool(path, pid, g, junk, n - 1);
      PathRound(path, pid, g, junk, n);
      var a, b, c := path[0].layout, path[n - 1].layout, path[n].layout;
      LaidKeeps(b, StackKey(pid, g, n - 1), junk, c);
      RoundKey(pid, g, n - 1);
      NoNewDown(a.ptes, b.ptes, c.ptes, pid, g + n - 1);
      PoolRoundsMore(a, b, c, pid, g, n - 1);
    }
  }

  /** How pages moved over all rounds. */
  lemma PathGrown(path: seq<Moment>, pid: nat, g: nat, junk: Spte)
    requires IsPath(path, pid, g, junk)
    ensures var n := |path| - 1; g + n <= USER_TOP && GrownTo(path[0].layout, pid, g, n, junk, path[n].layout)
  {
    var n := |path| - 1;
    PathState(path, pid, g, junk, n);
    var steps := seq(n + 1, i requires 0 <= i <= n => path[i].layout);
    forall m | 0 <= m < n ensures RoundAt(steps, pid, g, junk, m) {
      PathRound(path, pid, g, junk, m + 1);
    }
    assert GrownBy(path[0].layout, pid, g, n, junk, path[n].layout, steps);
  }

  /** The round after the last one of the path stopped the kernel. */
  lemma PathHalted(path: seq<Moment>, d: Moment, pid: nat, g: nat, n: nat, pages: nat, tableOk: nat -> bool, junk: Spte)
    requires IsPath(path, pid, g, junk) && |path| == n + 1 && n < pages && Losses(path[n].layout, d.layout, 1, 0)
    requires PresentObstacle(path[n].layout.ptes, pid, g + n, 0, TableFor(tableOk, n))
    ensures Losses(path[0].layout, d.layout, pages, pages) && Obstructed(path[0].layout.ptes, pid, g, pages, tableOk)
  {
    PathLosses(path, pid, g, junk, n);
    PathPool(path, pid, g, junk, n);
    if g + n < USER_TOP {
      RoundKey(pid, g, n);
      assert StillIn(path[0].layout.ptes, path[n].layout.ptes, StackKey(pid, g, n));
    }
    ObstructedAt(path[0].layout.ptes, pid, g, pages, tableOk, n);
    LossesThen(path[0].layout, path[n].layout, d.layout, n, n, 1, 0);
    LossesWithin(path[0].layout, d.layout, n + 1, n, pages, pages);
  }

  /** With a page table for each round and no page in memory, nothing is in the way. */
  lemma NotObstructed(ptes: map<Key, Pte>, pid: nat, g: nat, pages: nat, tableOk: nat -> bool)
    requires g + pages <= USER_TOP && TablesFor(tableOk, pages) && NonePresent(ptes, pid, g, pages)
    ensures !Obstructed(ptes, pid, g, pages, tableOk)
  {
    forall m | 0 <= m < pages ensures !PresentObstacle(ptes, pid, g, m, TableFor(tableOk, m)) {
      assert !Present(ptes, StackKey(pid, g, m));
    }
  }

  // ---------------------------------------------------------------------------
  // The clock
  // ---------------------------------------------------------------------------

  /** How many frames the clock passes on its way from the cursor to frame j. */
  function Ahead(cursor: int, n: nat, j: nat): int {
    if j > cursor then j - cursor - 1 else j - cursor - 1 + n
  }

  predicate KeysApartAt(frames: seq<Frame>, i: int, j: int) {
    0 <= i < j < |frames| ==> frames[i].key != frames[j].key
  }

  /** No page is in two frames. */
  ghost predicate KeysApart(frames: seq<Frame>) {
    forall i, j :: KeysApartAt(frames, i, j)
  }

  /** After k visits: frames visited have their reference bits cleared and were pinned or
      recently used, the others are as before; frames visited twice are pinned. */
  predicate VisitedAt(frames: seq<Frame>, ptes: map<Key, Pte>, table: map<Key, Pte>, cursor: int, k: nat, j: int) {
    0 <= j < |frames| && frames[j].key in ptes && frames[j].key in table ==>
      var a, before, now := Ahead(cursor, |frames|, j), ptes[frames[j].key].accessed, table[frames[j].key].accessed;
      && (if a < k then !now && (frames[j].pinned || before) else now == before)
      && (a + |frames| < k ==> frames[j].pinned)
  }

  ghost predicate Visited(frames: seq<Frame>, ptes: map<Key, Pte>, table: map<Key, Pte>, cursor: int, k: nat) {
    forall j :: VisitedAt(frames, ptes, table, cursor, k, j)
  }

  /** Where the clock stands after k visits. */
  predicate ClockAt(cursor: int, n: nat, k: nat, c: int) {
    if k == 0 then c == cursor
    else 0 <= c < n && k <= 2 * n && Ahead(cursor, n, c) == if k <= n then k - 1 else k - 1 - n
  }

  predicate PassedAt(frames: seq<Frame>, ptes: map<Key, Pte>, table: map<Key, Pte>, cursor: int, i: nat, second: bool,
                     j: int)
  {
    0 <= j < |frames| && frames[j].key in ptes && frames[j].key in table ==>
      var a, b := Ahead(cursor, |frames|, j), Ahead(cursor, |frames|, i);
      var before, now := ptes[frames[j].key].accessed, table[frames[j].key].accessed;
      && (second || a < b ==> frames[j].pinned || before)
      && (second && a < b ==> frames[j].pinned)
      && now == (before && !second && a > b)
  }

  /** The clock's choice: the first frame after the cursor that is neither pinned nor recently
      used; if there is none, the first that is not pinned.  The reference bits of the frames
      it passed are cleared, all of them in the second case. */
  ghost predicate ClockPick(frames: seq<Frame>, ptes: map<Key, Pte>, table: map<Key, Pte>, cursor: int, i: nat) {
    && i < |frames| && !frames[i].pinned && frames[i].key in ptes
    && var second := ptes[frames[i].key].accessed;
       forall j :: PassedAt(frames, ptes, table, cursor, i, second, j)
  }

  /** The frame visited next. */
  lemma ClockNext(cursor: int, n: nat, k: nat, c: int)
    requires n > 0 && -1 <= cursor < n && ClockAt(cursor, n, k, c) && k < 2 * n
    ensures ClockAt(cursor, n, k + 1, if c + 1 == n then 0 else c + 1)
  {
  }

  /** A visit that goes on clears the reference bit. */
  lemma VisitedMore(frames: seq<Frame>, ptes: map<Key, Pte>, table: map<Key, Pte>, cursor: int, k: nat, c: nat)
    requires KeysApart(frames) && Visited(frames, ptes, table, cursor, k) && c < |frames|
    requires -1 <= cursor < |frames| && ClockAt(cursor, |frames|, k + 1, c)
    requires frames[c].key in table && frames[c].key in ptes && (table[frames[c].key].accessed || frames[c].pinned)
    ensures Visited(frames, ptes, table[frames[c].key := table[frames[c].key].(accessed := false)], cursor, k + 1)
  {
    var more, k' := table[frames[c].key := table[frames[c].key].(accessed := false)], k + 1;
    assert VisitedAt(frames, ptes, table, cursor, k, c);
    forall j ensures VisitedAt(frames, ptes, more, cursor, k', j) {
      assert VisitedAt(frames, ptes, table, cursor, k, j);
      assert KeysApartAt(frames, j, c) && KeysApartAt(frames, c, j);
    }
  }

  lemma Picked(frames: seq<Frame>, ptes: map<Key, Pte>, table: map<Key, Pte>, cursor: int, k: nat, c: nat)
    requires Visited(frames, ptes, table, cursor, k) && c < |frames|
    requires -1 <= cursor < |frames| && ClockAt(cursor, |frames|, k + 1, c)
    requires frames[c].key in table && frames[c].key in ptes && !table[frames[c].key].accessed && !frames[c].pinned
    ensures ClockPick(frames, ptes, table, cursor, c)
  {
    assert VisitedAt(frames, ptes, table, cursor, k, c);
    forall j ensures PassedAt(frames, ptes, table, cursor, c, ptes[frames[c].key].accessed, j) {
      assert VisitedAt(frames, ptes, table, cursor, k, j);
    }
  }

  /** Some frame is not pinned, so the clock does not go round twice without a choice. */
  lemma VisitsEnd(frames: seq<Frame>, ptes: map<Key, Pte>, table: map<Key, Pte>, cursor: int, k: nat, free: nat)
    requires Visited(frames, ptes, table, cursor, k) && -1 <= cursor < |frames| && k <= 2 * |frames|
    requires free < |frames| && !frames[free].pinned && frames[free].key in ptes && frames[free].key in table
    ensures k < 2 * |frames|
  {
    assert VisitedAt(frames, ptes, table, cursor, k, free);
  }

  /** The state of the clock after k visits. */
  ghost predicate Clocking(frames: seq<Frame>, ptes: map<Key, Pte>, table: map<Key, Pte>, cursor: int, k: nat, c: int) {
    KeysApart(frames) ==> ClockAt(cursor, |frames|, k, c) && Visited(frames, ptes, table, cursor, k)
  }

  lemma ClockStart(frames: seq<Frame>, ptes: map<Key, Pte>, cursor: int)
    requires -1 <= cursor < |frames|
    ensures Clocking(frames, ptes, ptes, cursor, 0, cursor)
  {
  }

  /** One visit, of frame c2. */
  lemma ClockStep(frames: seq<Frame>, ptes: map<Key, Pte>, table: map<Key, Pte>, cursor: int, k: nat, c: int,
                  free: nat, c2: nat)
    requires -1 <= cursor < |frames| && -1 <= c < |frames| && c2 == (if c + 1 == |frames| then 0 else c + 1)
    requires Clocking(frames, ptes, table, cursor, k, c)
    requires free < |frames| && !frames[free].pinned && frames[free].key in ptes && frames[free].key in table
    requires frames[c2].key in ptes && frames[c2].key in table
    ensures if !table[frames[c2].key].accessed && !frames[c2].pinned
            then KeysApart(frames) ==> ClockPick(frames, ptes, table, cursor, c2)
            else Clocking(frames, ptes, table[frames[c2].key := table[frames[c2].key].(accessed := false)], cursor,
                          k + 1, c2)
  {
    if KeysApart(frames) {
      VisitsEnd(frames, ptes, table, cursor, k, free);
      ClockNext(cursor, |frames|, k, c);
      if !table[frames[c2].key].accessed && !frames[c2].pinned {
        Picked(frames, ptes, table, cursor, k, c2);
      } else {
        VisitedMore(frames, ptes, table, cursor, k, c2);
      }
    }
  }

  lemma OwnedApart(frames: seq<Frame>, used: seq<bool>, ptes: map<Key, Pte>)
    requires Owned(frames, used, ptes, -1)
    ensures KeysApart(frames)
  {
    forall i, j ensures KeysApartAt(frames, i, j) {
      assert FrameOk(frames, used, ptes, -1, i) && FrameOk(frames, used, ptes, -1, j) && FramesApart(frames, i, j);
    }
  }

  class VirtualMemory {
    const files: Files
    var frames: seq<Frame>
    var cursor: int
    var used: seq<bool>
    var phys: seq<Page>
    var ptes: map<Key, Pte>
    var spt: map<Key, Spte>
    var swapUsed: seq<bool>
    var dev: seq<Sector>
    var grows: map<nat, nat>
    ghost var flat: map<Key, FlatPage>
    ghost var filed: map<Key, bool>
    ghost var lost: set<Key>
    ghost var torn: set<Key>

    ghost function Memory(): Mem
      reads this`phys, this`ptes, this`spt, this`dev
    {
      Mem(phys, ptes, spt, dev)
    }

    /** swap_out: stores the page in the lowest free slot; -1 if there is none. */
    method SwapOut(page: Page) returns (slot: int)
      requires SECTORS_PER_PAGE * |swapUsed| <= |dev|
      modifies this`swapUsed, this`dev
      ensures var low := LowestFree(old(swapUsed)); slot == if low < |old(swapUsed)| then low else -1
      ensures slot < 0 ==> swapUsed == old(swapUsed) && dev == old(dev)
      ensures slot >= 0 ==> swapUsed == old(swapUsed)[slot := true]
      ensures slot >= 0 ==> OnlySlotChanged(old(dev), dev, slot) && SlotPage(dev, slot) == page
    {
      slot := 0;
      while slot < |swapUsed| && swapUsed[slot]
        invariant 0 <= slot <= |swapUsed|
        invariant forall s | 0 <= s < slot :: swapUsed[s]
      {
        slot := slot + 1;
      }
      LowestFreeIs(swapUsed, slot);
      if slot == |swapUsed| {
        return -1;
      }
      swapUsed := swapUsed[slot := true];
      var sector := slot * SECTORS_PER_PAGE;
      for id := 0 to SECTORS_PER_PAGE
        invariant swapUsed == old(swapUsed)[slot := true]
        invariant |dev| == |old(dev)| && OnlySlotChanged(old(dev), dev, slot)
        invariant Joined(dev, sector, id) == page[..512 * id]
      {
        ghost var before := dev;
        dev := dev[sector + id := page[512 * id..512 * (id + 1)]];
        JoinedSame(before, dev, sector, id);
        assert page[..512 * (id + 1)] == page[..512 * id] + page[512 * id..512 * (id + 1)];
      }
      assert page[..512 * SECTORS_PER_PAGE] == page;
    }

    /** swap_in: copies the slot into kernel page k, sector by sector, and frees it. */
    method SwapIn(k: nat, slot: nat)
      requires slot < |swapUsed| && SECTORS_PER_PAGE * |swapUsed| <= |dev| && k < |phys|
      modifies this`swapUsed, this`phys
      ensures phys == old(phys)[k := SlotPage(dev, slot)] && swapUsed == old(swapUsed)[slot := false]
    {
      var sector := slot * SECTORS_PER_PAGE;
      for id := 0 to SECTORS_PER_PAGE
        invariant swapUsed == old(swapUsed)
        invariant |phys| == |old(phys)| && phys == old(phys)[k := phys[k]]
        invariant phys[k][..512 * id] == Joined(dev, sector, id)
      {
        var page := phys[k];
        phys := phys[k := page[..512 * id] + dev[sector + id] + page[512 * (id + 1)..]];
      }
      assert phys[k][..512 * SECTORS_PER_PAGE] == phys[k];
      swapUsed := swapUsed[slot := false];
    }

    /** ft_get_lru_frame: advances the clock to a frame that is neither pinned nor
        recently used, clearing reference bits on the way. */
    method GetLruFrame() returns (i: nat)
      requires -1 <= cursor < |frames| && forall n | 0 <= n < |frames| :: frames[n].key in ptes
      requires exists n :: 0 <= n < |frames| && !frames[n].pinned
      modifies this`cursor, this`ptes, this`frames
      ensures i < |old(frames)| && !old(frames)[i].pinned && frames == old(frames)[i := old(frames)[i].(pinned := true)]
      ensures cursor == i && SameButAccessed(old(ptes), ptes)
      ensures KeysApart(old(frames)) ==> ClockPick(old(frames), old(ptes), ptes, old(cursor), i)
    {
      ghost var free, sweep :| 0 <= free < |frames| && !frames[free].pinned && sweep == -1;
      ghost var k: nat := 0;
      var table, c := ptes, cursor;
      assert frames[free].key in ptes;
      ClockStart(frames, ptes, cursor);
      while true
        invariant -1 <= c < |frames| && frames == old(frames) && cursor == old(cursor) && ptes == old(ptes)
        invariant SameButAccessed(old(ptes), table)
        invariant -1 <= sweep <= 1 && (sweep == 1 ==> c < free)
        invariant frames[free].key in table && (sweep == 1 ==> !table[frames[free].key].accessed)
        invariant sweep == 0 && free <= c ==> !table[frames[free].key].accessed
        invariant Clocking(frames, ptes, table, cursor, k, c)
        decreases 1 - sweep, |frames| - c
      {
        ghost var c0 := c;
        c := c + 1;
        if c == |frames| {
          c := 0;
          sweep := sweep + 1;
        }
        var f := frames[c];
        assert SameMapping(old(ptes), table, f.key);
        ClockStep(frames, ptes, table, cursor, k, c0, free, c);
        if !table[f.key].accessed && !f.pinned {
          i, cursor, ptes := c, c, table;
          frames := frames[i := f.(pinned := true)];
          return;
        }
        AccessedSet(old(ptes), table, f.key, false);
        table, k := table[f.key := table[f.key].(accessed := false)], k + 1;
      }
    }

    /** Ownership, with frame `hole` between owners. */
    ghost predicate Structure(hole: int)
      reads this`frames, this`cursor, this`used, this`phys, this`ptes, this`spt, this`swapUsed, this`dev, this`filed
    {
      && |used| == |phys| > 0 && SECTORS_PER_PAGE * |swapUsed| <= |dev|
      && -1 <= cursor < |frames|
      && Owned(frames, used, ptes, hole) && SlotsOk(spt, swapUsed) && Listed(spt, filed)
    }

    /** The pages that need not be what the flat memory says: those lost to a full swap
        device, those where a growth laid a zero page that breaks the flat memory, and
        `extra`. */
    ghost function Aside(extra: Option<Key>): set<Key>
      reads this`lost, this`torn
    {
      if extra.Some? then lost + torn + {extra.value} else lost + torn
    }

    /** All other pages are the flat memory. */
    ghost predicate Faithful(extra: Option<Key>)
      reads this`phys, this`ptes, this`spt, this`dev, this`flat, this`lost, this`torn
    {
      Represents(Memory(), files, flat, Aside(extra))
    }

    ghost function State(): FlatState
      reads this`flat, this`grows, this`filed
    {
      FlatState(flat, grows, filed)
    }

    ghost function Where(): Layout
      reads this`ptes, this`spt, this`used, this`swapUsed, this`lost
    {
      Layout(ptes, spt, used, swapUsed, lost)
    }

    /** Slot `saved`, if any, was just detached from page `extra` and holds `page`. */
    ghost predicate Held(extra: Option<Key>, saved: int, page: Page)
      reads this`spt, this`swapUsed, this`dev
    {
      saved >= 0 ==>
        && Orphan(spt, swapUsed, dev, saved, page)
        && extra.Some? && extra.value in spt && spt[extra.value].slot < 0
    }

    /** The invariant between steps. */
    ghost predicate Valid()
      reads this
    {
      && Structure(-1) && UnpinnedBut(frames, -1) && Known(frames, spt, None) && Faithful(None)
      && forall pid | pid in grows :: grows[pid] <= USER_TOP
    }

    /** The page for which a frame is wanted, if set aside, is not in memory. */
    ghost predicate Missing(extra: Option<Key>)
      reads this`ptes
    {
      extra.Some? ==> !Present(ptes, extra.value)
    }

    /** The body of ft_evict_frame: unmap the page and save it if it must be saved.  The
        failure of swap_out is ignored. */
    method Evict(key: Key) returns (slot: int, written: bool)
      requires Present(ptes, key) && key in spt && ptes[key].kpage < |phys| && SECTORS_PER_PAGE * |swapUsed| <= |dev|
      modifies this`ptes, this`spt, this`swapUsed, this`dev, this`lost
      ensures EvictedTo(old(Memory()), old(swapUsed), Memory(), swapUsed, key, slot, written)
      ensures |dev| == |old(dev)| && |swapUsed| == |old(swapUsed)|
      ensures Where() == Evicted(old(Where()), key)
      ensures !written && key !in lost ==> !NeedsSwap(old(ptes)[key], old(spt)[key]) && slot == old(spt)[key].slot
    {
      var e := spt[key];
      ptes := ptes[key := ptes[key].(present := false)];
      slot, written := e.slot, false;
      if NeedsSwap(ptes[key], e) {
        slot := SwapOut(phys[ptes[key].kpage]);
        written := slot >= 0;
        lost := if written then lost else lost + {key};
      }
      spt := spt[key := e.(slot := slot)];
      assert !NeedsSwap(old(ptes)[key], e) ==> spt == old(spt);
    }

    /** What an eviction does to contents and swap slots.  A page is lost exactly when it
        needs swap space and every slot is taken, and no other page is affected. */
    method EvictPage(key: Key, ghost extra: Option<Key>, ghost saved: int, ghost page: Page)
      requires Present(ptes, key) && key in spt && ptes[key].kpage < |phys| && SECTORS_PER_PAGE * |swapUsed| <= |dev|
      requires SlotsOk(spt, swapUsed) && Faithful(extra) && Some(key) != extra && Held(extra, saved, page)
      modifies this`ptes, this`spt, this`swapUsed, this`dev, this`lost
      ensures |dev| == |old(dev)| && |swapUsed| == |old(swapUsed)|
      ensures SlotsOk(spt, swapUsed) && Faithful(extra) && Held(extra, saved, page)
      ensures Where() == Evicted(old(Where()), key)
    {
      ghost var v, u, aside := Memory(), swapUsed, Aside(extra);
      var slot, written := Evict(key);
      EvictKeepsSlots(v, u, Memory(), swapUsed, key, slot, written);
      if saved >= 0 {
        EvictKeepsOrphan(v, u, Memory(), swapUsed, key, slot, written, saved, page);
      }
      SetAside(v, files, flat, aside, Aside(extra));
      EvictRepresents(v, u, Memory(), swapUsed, key, slot, written, files, flat, Aside(extra));
    }

    /** ft_evict_frame */
    method EvictFrame(i: nat, ghost extra: Option<Key>, ghost saved: int, ghost page: Page)
      requires Structure(-1) && i < |frames| && frames[i].key in spt && Some(frames[i].key) != extra
      requires Faithful(extra) && Held(extra, saved, page)
      modifies this`ptes, this`spt, this`swapUsed, this`dev, this`lost
      ensures Structure(i) && Faithful(extra) && Held(extra, saved, page)
      ensures Present(old(ptes), frames[i].key) && old(ptes)[frames[i].key].kpage == frames[i].kpage
      ensures Where() == Evicted(old(Where()), frames[i].key)
    {
      ClearOwned(frames, used, ptes, i);
      EvictPage(frames[i].key, extra, saved, page);
      Relisted(old(spt), filed, frames[i].key, spt[frames[i].key]);
      assert spt == old(spt)[frames[i].key := spt[frames[i].key]];
    }

    /** palloc_get_page from the user pool: the lowest free page. */
    method FreePage() returns (found: bool, k: nat)
      ensures found ==> k < |used| && !used[k] && forall n | 0 <= n < k :: used[n]
      ensures !found ==> forall n | 0 <= n < |used| :: used[n]
    {
      k := 0;
      while k < |used|
        invariant k <= |used|
        invariant forall n | 0 <= n < k :: used[n]
      {
        if !used[k] {
          return true, k;
        }
        k := k + 1;
      }
      found := false;
    }

    /** ft_get_lru_frame seen from the invariant: only reference bits and one pin change. */
    method PickVictim(ghost extra: Option<Key>) returns (i: nat)
      requires Structure(-1) && UnpinnedBut(frames, -1) && Known(frames, spt, extra) && Faithful(extra) && |frames| > 0
      modifies this`frames, this`cursor, this`ptes
      ensures i < |frames| && Structure(-1) && UnpinnedBut(frames, i) && Known(frames, spt, extra) && Faithful(extra)
      ensures old(Missing(extra)) ==> Missing(extra)
      ensures SameButAccessed(old(ptes), ptes) && ClockPick(old(frames), old(ptes), ptes, old(cursor), i)
    {
      OwnedApart(frames, used, ptes);
      ghost var m := Memory();
      forall n | 0 <= n < |frames| ensures frames[n].key in ptes {
        assert FrameOk(frames, used, ptes, -1, n);
      }
      assert UnpinnedAt(frames, -1, 0);
      i := GetLruFrame();
      assert KnownAt(old(frames), spt, extra, i) && FrameOk(old(frames), used, old(ptes), -1, i);
      FrameReplaced(old(frames), spt, extra, -1, i, frames[i]);
      LruOwned(old(frames), frames, used, old(ptes), ptes);
      AccessedRepresents(m, ptes, files, flat, Aside(extra));
      assert extra.Some? ==> SameMapping(old(ptes), ptes, extra.value);
    }

    /** The eviction branch of ft_alloc_frame: a frame taken from another page. */
    method Recycle(ghost extra: Option<Key>, ghost saved: int, ghost page: Page) returns (i: nat)
      requires Structure(-1) && UnpinnedBut(frames, -1) && Known(frames, spt, extra) && Faithful(extra)
      requires Missing(extra) && |frames| > 0 && Held(extra, saved, page)
      modifies this`frames, this`cursor, this`ptes, this`spt, this`swapUsed, this`dev, this`lost
      ensures i < |frames| && Structure(i) && UnpinnedBut(frames, i) && Known(frames, spt, extra) && Faithful(extra)
      ensures Held(extra, saved, page) && Recycled(old(Where()), Where(), frames[i].kpage)
    {
      i := PickVictim(extra);
      assert FrameOk(frames, used, ptes, -1, i) && KnownAt(frames, spt, extra, i);
      ghost var key, q, t := frames[i].key, ptes, spt;
      EvictFrame(i, extra, saved, page);
      EntryKnown(frames, t, extra, key, spt[key]);
      assert spt == t[key := spt[key]];
      assert RecycledBy(old(Where()), Where(), frames[i].kpage, q, key);
    }

    /** The first half of ft_alloc_frame: a frame without an owner, from the pool if it
        has a free page, else from another page. */
    method ObtainFrame(key: Key, ghost extra: Option<Key>, ghost saved: int, ghost page: Page) returns (i: nat)
      requires Structure(-1) && UnpinnedBut(frames, -1) && Known(frames, spt, extra) && Faithful(extra)
      requires Missing(extra) && (extra == Some(key) || key in spt) && Held(extra, saved, page)
      modifies this`frames, this`cursor, this`used, this`ptes, this`spt, this`swapUsed, this`dev, this`lost
      ensures i < |frames| && Structure(i) && UnpinnedBut(frames, i) && Known(frames, spt, extra) && Faithful(extra)
      ensures Held(extra, saved, page) && Taken(old(Where()), Where(), frames[i].kpage)
    {
      var found, n := FreePage();
      LowestFreeIs(used, if found then n else |used|);
      if found {
        NewFrameOwned(frames, used, ptes, Frame(n, key, true));
        FrameAppended(frames, spt, extra, Frame(n, key, true));
        i := |frames|;
        used, frames := used[n := true], frames + [Frame(n, key, true)];
      } else {
        assert PoolPageOk(frames, used, 0);
        i := Recycle(extra, saved, page);
      }
    }

    /** install_frame, when a page table is available. */
    method Install(i: nat, key: Key, writable: bool)
      requires i < |frames| && Structure(i) && UnpinnedBut(frames, i) && Known(frames, spt, Some(key))
      requires Faithful(Some(key))
      requires !Present(ptes, key)
      modifies this`frames, this`ptes
      ensures Structure(-1) && UnpinnedBut(frames, -1) && Known(frames, spt, Some(key)) && Faithful(Some(key))
      ensures ptes == old(ptes)[key := Pte(old(frames)[i].kpage, true, writable, false, false)]
      ensures ptes[key].kpage < |phys|
    {
      ghost var m := Memory();
      var f, p := Frame(frames[i].kpage, key, false), Pte(frames[i].kpage, true, writable, false, false);
      assert FrameOk(frames, used, ptes, i, i);
      InstallOwned(frames, used, ptes, i, f, p);
      FrameReplaced(frames, spt, Some(key), i, i, f);
      frames, ptes := frames[i := f], ptes[key := p];
      InstallRepresents(m, key, p, files, flat, Aside(Some(key)));
    }

    /** ft_alloc_frame: a frame mapped at `key`, its contents still arbitrary.
        `tableOk` is whether a page table could be provided for the entry. */
    method AllocFrame(key: Key, writable: bool, tableOk: bool, ghost saved: int, ghost page: Page)
      returns (ok: bool, k: nat, ghost t: Layout)
      requires Structure(-1) && UnpinnedBut(frames, -1) && Known(frames, spt, Some(key)) && Faithful(Some(key))
      requires !Present(ptes, key) && Held(Some(key), saved, page) && (key in spt ==> spt[key].slot < 0)
      modifies this`frames, this`cursor, this`used, this`ptes, this`spt, this`swapUsed, this`dev, this`lost
      ensures ok <==> tableOk
      ensures Taken(old(Where()), t, k) && Where() == if ok then MappedAt(t, key, k, writable) else t
      ensures ok ==> Structure(-1) && UnpinnedBut(frames, -1) && Known(frames, spt, Some(key)) && Faithful(Some(key))
      ensures ok ==> k < |phys| && Held(Some(key), saved, page) && Weight(Where()) <= Weight(old(Where()))
      ensures SameEntry(old(spt), spt, key) && (key in lost <==> key in old(lost))
      ensures Losses(old(Where()), Where(), 1, if saved >= 0 then -1 else 0)
    {
      ghost var a, f := Where(), frames;
      var i := ObtainFrame(key, Some(key), saved, page);
      k := frames[i].kpage;
      ok := tableOk;
      t := Where();
      TakenLosses(f, a, t, k, Some(key), if saved >= 0 then 1 else 0);
      TakenOther(a, t, k, key);
      if ok {
        Install(i, key, writable);
        MappedWeight(spt, t.ptes, swapUsed, key, ptes[key]);
        LossesSame(a, t, Where(), if saved >= 0 then -1 else 0);
      }
    }

    method FillFromSwap(key: Key, k: nat, saved: int, ghost page: Page)
      requires Structure(-1) && Faithful(Some(key)) && Present(ptes, key) && ptes[key].kpage == k < |phys|
      requires Orphan(spt, swapUsed, dev, saved, page)
      modifies this`phys, this`ptes, this`swapUsed
      ensures Structure(-1) && Faithful(Some(key)) && |phys| == |old(phys)| && phys[k] == page
      ensures Where() == Filled(old(Where()), key, saved)
    {
      ghost var m := Memory();
      FreedSlot(spt, swapUsed, saved);
      SwapIn(k, saved);
      RemarkOwned(frames, used, ptes, key, ptes[key].(dirty := true));
      ptes := ptes[key := ptes[key].(dirty := true)];
      FillRepresents(m, frames, used, key, page, ptes[key], files, flat, Aside(Some(key)));
    }

    method FillFromFile(key: Key, k: nat, page: Page)
      requires Structure(-1) && Faithful(Some(key)) && Present(ptes, key) && ptes[key].kpage == k < |phys|
      modifies this`phys
      ensures Structure(-1) && Faithful(Some(key)) && phys == old(phys)[k := page]
    {
      ghost var m := Memory();
      phys := phys[k := page];
      FillRepresents(m, frames, used, key, page, ptes[key], files, flat, Aside(Some(key)));
      assert Memory() == m.(phys := m.phys[k := page], ptes := m.ptes[key := m.ptes[key]]);
    }

    /** load_page: reads a page from its swap slot (and marks it dirty) or from the
        executable, leaving what the frame held (`stale`) behind the bytes it reads and
        clears.  A short file read panics the kernel, because ft_free_frame demands a
        pinned frame and load_page's is not; running out of page tables panics too.  The
        model also stops if the entry's byte counts exceed a page. */
    method LoadPage(key: Key, e: Spte, saved: int, tableOk: bool, ghost page: Page)
      returns (done: bool, ghost stale: Page, ghost t: Layout, ghost k: nat)
      requires Structure(-1) && UnpinnedBut(frames, -1) && Known(frames, spt, Some(key)) && Faithful(Some(key))
      requires !Present(ptes, key) && Held(Some(key), saved, page) && (key in spt ==> spt[key].slot < 0)
      modifies this`frames, this`cursor, this`used, this`phys, this`ptes, this`spt, this`swapUsed, this`dev, this`lost
      ensures done <==> tableOk && (saved >= 0 || Loadable(e, files(key.pid)))
      ensures done ==> Structure(-1) && UnpinnedBut(frames, -1) && Known(frames, spt, Some(key)) && Faithful(Some(key))
      ensures done ==> Taken(old(Where()), t, k) && Where() == Filled(MappedAt(t, key, k, e.writable), key, saved)
      ensures done ==> key in ptes && ptes[key] == Pte(k, true, e.writable, false, saved >= 0) && k < |phys|
      ensures done ==> phys[k] == if saved >= 0 then page else FilledPage(e, files(key.pid), stale)
      ensures SameEntry(old(spt), spt, key) && (key in lost <==> key in old(lost))
      ensures Losses(old(Where()), Where(), 1, if saved >= 0 then -1 else 0)
      ensures done ==> Weight(Where()) <= Weight(old(Where())) - if saved >= 0 then 1 else 0
    {
      ghost var a := Where();
      var page0;
      done, page0, t := AllocFrame(key, e.writable, tableOk, saved, page);
      k, stale := page0, ZeroPage();
      if !done {
        return;
      }
      if saved >= 0 {
        ghost var b := Where();
        FillFromSwap(key, page0, saved, page);
        FilledWeight(b, key, saved);
        LossesSame(a, b, Where(), -1);
      } else if Loadable(e, files(key.pid)) {
        stale := phys[page0];
        FillFromFile(key, page0, FilledPage(e, files(key.pid), phys[page0]));
      } else {
        done := false;
      }
    }

    /** The head of load_page_lazy: takes the slot number out of the table entry. */
    method DetachSlot(key: Key) returns (e: Spte, ghost page: Page)
      requires Valid() && key in spt && !Present(ptes, key)
      modifies this`spt
      ensures e == old(spt)[key] && spt == old(spt)[key := e.(slot := -1)]
      ensures Structure(-1) && Known(frames, spt, Some(key)) && Faithful(Some(key))
      ensures Held(Some(key), e.slot, page) && Where() == Detached(old(Where()), key)
      ensures Weight(Where()) == Weight(old(Where())) + if e.slot >= 0 then 1 else 0
      ensures key !in Aside(None) ==> PageLoaded(e, files(key.pid), flat, key, page)
    {
      ghost var m := Memory();
      e := spt[key];
      SlotlessEntry(spt, swapUsed, key, e.(slot := -1));
      DetachedWeight(spt, ptes, swapUsed, key, e.(slot := -1));
      Relisted(spt, filed, key, e.(slot := -1));
      KnownAside(frames, spt, key);
      EntryKnown(frames, spt, Some(key), key, e.(slot := -1));
      page := if e.slot >= 0 then SlotPage(dev, e.slot) else ZeroPage();
      spt := spt[key := e.(slot := -1)];
      assert key !in Aside(None) ==> PageOk(m, files, flat, key);
      OtherPages(m, Memory(), files, flat, flat, key, Aside(None));
    }

    /** The rest of load_page_lazy. */
    method Reload(key: Key, e: Spte, tableOk: bool, ghost page: Page)
      returns (done: bool, ghost t: Layout, ghost k: nat)
      requires Structure(-1) && UnpinnedBut(frames, -1) && Known(frames, spt, Some(key)) && Faithful(Some(key))
      requires !Present(ptes, key) && key in spt && spt[key] == e.(slot := -1) && Held(Some(key), e.slot, page)
      requires key !in Aside(None) ==> PageLoaded(e, files(key.pid), flat, key, page)
      modifies this`frames, this`cursor, this`used, this`phys, this`ptes, this`spt, this`swapUsed, this`dev, this`lost
      ensures done <==> tableOk && (e.slot >= 0 || Loadable(e, files(key.pid)))
      ensures done ==> Structure(-1) && UnpinnedBut(frames, -1) && Known(frames, spt, None) && Faithful(None)
      ensures done ==> Present(ptes, key) && key in spt && (key in lost <==> key in old(lost))
      ensures done ==> Taken(old(Where()), t, k) && Where() == Filled(MappedAt(t, key, k, e.writable), key, e.slot)
      ensures Losses(old(Where()), Where(), 1, if e.slot >= 0 then -1 else 0)
      ensures done ==> Weight(Where()) <= Weight(old(Where())) - if e.slot >= 0 then 1 else 0
    {
      ghost var stale;
      done, stale, t, k := LoadPage(key, e, e.slot, tableOk, page);
      if done {
        KnownAgain(frames, spt, key);
        LoadedBack(Memory(), e, files, flat, Aside(None), key, page, stale);
      }
    }

    /** load_page_lazy: brings a described page back, from wherever it is. */
    method LoadLazy(key: Key, tableOk: bool) returns (done: bool)
      requires Valid() && key in spt && !Present(ptes, key)
      modifies this`frames, this`cursor, this`used, this`phys, this`ptes, this`spt, this`swapUsed, this`dev, this`lost
      ensures done <==> tableOk && (old(spt[key]).slot >= 0 || Loadable(old(spt[key]), files(key.pid)))
      ensures done ==> Valid() && Present(ptes, key) && key in spt && (key in lost <==> key in old(lost))
      ensures done ==> Fetched(old(Where()), key, Where()) && Weight(Where()) <= Weight(old(Where()))
      ensures Losses(old(Where()), Where(), 1, 0)
    {
      ghost var page, m, k;
      ghost var a := Where();
      var e;
      e, page := DetachSlot(key);
      ghost var t := Where();
      done, m, k := Reload(key, e, tableOk, page);
      ghost var c := Where();
      assert Losses(a, c, 1, 0) by {
        LossesDetached(a, t, c, if e.slot >= 0 then 1 else 0);
      }
      if done {
        assert Fetched(a, key, c) by {
          assert FetchedBy(a, key, c, m, k);
        }
      }
    }

    /** The table entry stack_growth makes for the page it has just mapped; the fields
        it does not set keep whatever malloc returned. */
    method DescribeStack(key: Key, junk: Spte)
      requires Structure(-1) && Known(frames, spt, Some(key)) && Faithful(Some(key)) && key !in spt
      requires Present(ptes, key) && ptes[key].kpage < |phys| && ptes[key].writable
      requires phys[ptes[key].kpage] == ZeroPage()
      modifies this`spt, this`flat, this`filed
      ensures flat == old(flat)[key := FlatPage(ZeroPage(), true)] && filed == old(filed)[key := false]
      ensures Structure(-1) && Known(frames, spt, None) && Faithful(None)
      ensures spt == old(spt)[key := StackEntry(junk)] && Weight(Where()) == Weight(old(Where())) + 1
    {
      ghost var m, f := Memory(), flat;
      var e := StackEntry(junk);
      SlotlessEntry(spt, swapUsed, key, e);
      EntryWeight(spt, ptes, swapUsed, key, e);
      Relisted(spt, filed, key, e);
      EntryKnown(frames, spt, Some(key), key, e);
      spt := spt[key := e];
      flat, filed := flat[key := FlatPage(ZeroPage(), true)], filed[key := false];
      OtherPages(m, Memory(), files, f, flat, key, Aside(Some(key)));
      SetAside(Memory(), files, flat, Aside(Some(key)) + {key}, Aside(None) + {key});
      AllPages(Memory(), files, flat, Aside(None), key);
    }

    /** The table entry load_segment makes for one page; nothing happens if the page is
        described already. */
    method DescribeSegment(key: Key, e: Spte)
      requires Valid() && e.slot == -1 && e.readBytes + e.zeroBytes == PGSIZE
      modifies this`spt, this`flat, this`filed
      ensures Valid() && Weight(Where()) <= Weight(old(Where())) + 1
      ensures spt == Described(old(spt), key, e)
      ensures flat == DescribedFlat(old(flat), old(spt), files(key.pid), key, e)
    {
      if key !in spt {
        ghost var m, f := Memory(), flat;
        UndescribedAbsent(frames, used, ptes, spt, key);
        assert key !in Aside(None) ==> PageOk(m, files, flat, key);
        SlotlessEntry(spt, swapUsed, key, e);
        EntryWeight(spt, ptes, swapUsed, key, e);
        Relisted(spt, filed, key, e);
        EntryKnown(frames, spt, None, key, e);
        spt, filed := spt[key := e], filed[key := e.readBytes > 0];
        if Backed(e, files(key.pid)) {
          flat := flat[key := FlatPage(FilePage(e, files(key.pid)), e.writable)];
        }
        OtherPages(m, Memory(), files, f, flat, key, Aside(None));
        AllPages(Memory(), files, flat, Aside(None), key);
      }
    }

    /** The call of load_page made by stack_growth: no file, no swap slot. */
    method LoadZeroPage(key: Key, tableOk: bool) returns (done: bool, ghost t: Layout, ghost k: nat)
      requires Valid() && key !in spt
      modifies this`frames, this`cursor, this`used, this`phys, this`ptes, this`spt, this`swapUsed, this`dev, this`lost
      ensures done <==> tableOk
      ensures done ==> Structure(-1) && UnpinnedBut(frames, -1) && Known(frames, spt, Some(key)) && Faithful(Some(key))
      ensures done ==> Taken(old(Where()), t, k) && !Present(t.ptes, key) && Where() == MappedAt(t, key, k, true)
      ensures done ==> k < |phys| && phys[k] == ZeroPage() && Weight(Where()) <= Weight(old(Where()))
      ensures key !in spt && Losses(old(Where()), Where(), 1, 0)
    {
      UndescribedAbsent(frames, used, ptes, spt, key);
      KnownAside(frames, spt, key);
      SetAside(Memory(), files, flat, Aside(None), Aside(Some(key)));
      var e := Spte(0, 0, PGSIZE, true, -1);
      ghost var a := Where();
      ghost var stale;
      done, stale, t, k := LoadPage(key, e, -1, tableOk, ZeroPage());
      FilledBacked(e, files(key.pid), stale);
      if done {
        TakenOther(a, t, k, key);
      }
    }

    /** One round of stack_growth on a new page: a zero page, then its table entry. */
    method AddStackPage(key: Key, tableOk: bool, junk: Spte) returns (done: bool)
      requires Valid() && key !in spt
      modifies this`frames, this`cursor, this`used, this`phys, this`ptes, this`spt, this`swapUsed, this`dev, this`lost
      modifies this`flat, this`filed
      ensures done <==> tableOk
      ensures done ==> Valid() && flat == old(flat)[key := FlatPage(ZeroPage(), true)]
      ensures done ==> filed == old(filed)[key := false] && Laid(old(Where()), key, junk, Where())
      ensures Losses(old(Where()), Where(), 1, 0) && (done ==> Weight(Where()) <= Weight(old(Where())) + 1)
    {
      ghost var a := Where();
      ghost var t, k;
      done, t, k := LoadZeroPage(key, tableOk);
      if done {
        ghost var b := Where();
        DescribeStack(key, junk);
        LossesSame(a, b, Where(), 0);
        assert LaidBy(a, key, junk, Where(), t, k);
      }
    }

    /** The table keeps its entry for the page that was just cleared. */
    ghost method KeepEntry(m: Mem, key: Key)
      requires Structure(-1) && Faithful(Some(key)) && Present(ptes, key)
      requires OverlaidTo(m, Memory(), key, ptes[key].kpage)
      requires key !in Aside(None) ==> PageOk(m, files, flat, key)
      modifies this`flat, this`torn
      ensures Structure(-1) && Faithful(None) && flat == old(flat)[key := FlatPage(ZeroPage(), true)]
      ensures torn == old(torn) + SpoiltAt(old(State()), key)
    {
      ghost var s, aside := State(), Aside(Some(key));
      flat, torn := flat[key := FlatPage(ZeroPage(), true)], torn + SpoiltAt(s, key);
      OtherPages(Memory(), Memory(), files, s.flat, flat, key, aside);
      SetAside(Memory(), files, flat, aside + {key}, Aside(None) + {key});
      if key !in Aside(None) {
        OverlayPageOk(m, Memory(), files, s, key, ptes[key].kpage);
      }
      AllPages(Memory(), files, flat, Aside(None), key);
    }

    /** Maps the ownerless frame i, cleared, at a described page that is not in memory. */
    method LayZeros(i: nat, key: Key)
      requires i < |frames| && Structure(i) && UnpinnedBut(frames, i) && Known(frames, spt, None) && Faithful(None)
      requires key in spt && !Present(ptes, key)
      modifies this`frames, this`phys, this`ptes, this`flat, this`torn
      ensures Structure(-1) && UnpinnedBut(frames, -1) && Known(frames, spt, None) && Faithful(None)
      ensures flat == old(flat)[key := FlatPage(ZeroPage(), true)]
      ensures torn == old(torn) + SpoiltAt(old(State()), key)
      ensures Where() == MappedAt(old(Where()), key, old(frames)[i].kpage, true)
    {
      ghost var m := Memory();
      assert key !in Aside(None) ==> PageOk(m, files, flat, key);
      SetAside(m, files, flat, Aside(None), Aside(Some(key)));
      var k := frames[i].kpage;
      KnownAside(frames, spt, key);
      Install(i, key, true);
      KnownAgain(frames, spt, key);
      FillFromFile(key, k, ZeroPage());
      KeepEntry(m, key);
    }

    /** The frame for a page that is described already, and may be in memory. */
    method OverlayFrame(key: Key) returns (i: nat)
      requires Valid() && key in spt
      modifies this`frames, this`cursor, this`used, this`ptes, this`spt, this`swapUsed, this`dev, this`lost
      ensures i < |frames| && Structure(i) && UnpinnedBut(frames, i) && Known(frames, spt, None) && Faithful(None)
      ensures key in spt && StillIn(old(ptes), ptes, key) && Taken(old(Where()), Where(), frames[i].kpage)
      ensures Losses(old(Where()), Where(), 1, 0) && Weight(Where()) <= Weight(old(Where()))
    {
      ghost var a, f := Where(), frames;
      assert ListedAt(spt, filed, key);
      i := ObtainFrame(key, None, -1, ZeroPage());
      assert ListedAt(spt, filed, key);
      TakenLosses(f, a, Where(), frames[i].kpage, None, 0);
      TakenKeeps(a, Where(), frames[i].kpage);
    }

    /** One round of stack_growth on a page that is described already.  The page must not
        be in memory, unless the pool is used up and the frame taken is its own; it then
        reads as zeros, and the table keeps the old entry, so the next reload follows that
        entry. */
    method OverlayPage(key: Key, tableOk: bool, ghost junk: Spte) returns (done: bool)
      requires Valid() && key in spt
      modifies this`frames, this`cursor, this`used, this`phys, this`ptes, this`spt, this`swapUsed, this`dev, this`lost
      modifies this`flat, this`torn
      ensures done ==> tableOk
      ensures !done ==> !tableOk || Present(old(ptes), key)
      ensures done && FreeCount(old(used)) > 0 ==> !Present(old(ptes), key)
      ensures done ==> Valid() && flat == old(flat)[key := FlatPage(ZeroPage(), true)]
      ensures torn == old(torn) + if done then SpoiltAt(old(State()), key) else {}
      ensures done ==> Laid(old(Where()), key, junk, Where())
      ensures Losses(old(Where()), Where(), 1, 0) && (done ==> Weight(Where()) <= Weight(old(Where())) + 1)
    {
      ghost var a := Where();
      var i := OverlayFrame(key);
      ghost var t, k := Where(), frames[i].kpage;
      done := tableOk && !Present(ptes, key);
      if done {
        LayZeros(i, key);
        OverlaidLosses(a, t, k, key, junk);
        assert Where() == MappedAt(t, key, k, true);
      }
    }

    /** The page of one round of stack_growth, new or described already. */
    method LayPage(key: Key, tableOk: bool, junk: Spte) returns (done: bool)
      requires Valid()
      modifies this`frames, this`cursor, this`used, this`phys, this`ptes, this`spt, this`swapUsed, this`dev, this`lost
      modifies this`flat, this`filed, this`torn
      ensures done ==> tableOk && Valid() && Laid(old(Where()), key, junk, Where())
      ensures !done ==> !tableOk || Present(old(ptes), key)
      ensures done ==> flat == old(flat)[key := FlatPage(ZeroPage(), true)] && filed == NewlyFiled(old(filed), key)
      ensures torn == old(torn) + if done then SpoiltAt(old(State()), key) else {}
      ensures Losses(old(Where()), Where(), 1, 0) && (done ==> Weight(Where()) <= Weight(old(Where())) + 1)
    {
      assert ListedAt(spt, filed, key);
      if key in spt {
        assert NewlyFiled(filed, key) == filed;
        done := OverlayPage(key, tableOk, junk);
      } else {
        UndescribedAbsent(frames, used, ptes, spt, key);
        done := AddStackPage(key, tableOk, junk);
      }
    }

    ghost function Now(): Moment
      reads this`flat, this`grows, this`filed, this`torn, this`ptes, this`spt, this`used, this`swapUsed, this`lost
    {
      Moment(State(), torn, Where())
    }

    /** One round of stack_growth.  The frame allocator asserts a user address. */
    method GrowOne(pid: nat, g: nat, tableOk: bool, junk: Spte) returns (done: bool)
      requires Valid() && g == GrowsOf(grows, pid)
      modifies this
      ensures done ==> Valid() && tableOk && OneRound(old(Now()), Now(), pid, g, junk)
      ensures !done ==> PresentObstacle(old(ptes), pid, g, 0, tableOk) && old(torn) <= torn
      ensures Losses(old(Where()), Where(), 1, 0)
    {
      if g >= USER_TOP {
        return false;
      }
      ghost var c := Now();
      done := LayPage(StackKey(pid, g, 0), tableOk, junk);
      if done {
        ghost var t := Where();
        assert Laid(c.layout, StackKey(pid, g, 0), junk, t);
        grows := grows[pid := g + 1];
        assert Where() == t && State() == AddedPage(c.state, pid, g);
        assert Now() == Moment(AddedPage(c.state, pid, g), torn, t);
      }
    }

    /** Round n of stack_growth, seen from the start of the call. */
    method GrowNext(pid: nat, g: nat, n: nat, ghost pages: nat, tableOk: nat -> bool, junk: Spte,
                    ghost path: seq<Moment>)
      returns (done: bool, ghost longer: seq<Moment>)
      requires Valid() && g + n == GrowsOf(grows, pid) && n < pages && TablesFor(tableOk, n)
      requires |path| == n + 1 && path[n] == Now() && IsPath(path, pid, g, junk)
      modifies this
      ensures done ==> Valid() && g + n + 1 == GrowsOf(grows, pid) && TablesFor(tableOk, n + 1)
      ensures done ==> longer == path + [Now()] && IsPath(longer, pid, g, junk)
      ensures !done ==> longer == path && Losses(path[0].layout, Where(), pages, pages)
      ensures !done ==> Obstructed(path[0].layout.ptes, pid, g, pages, tableOk)
      ensures old(torn) <= torn
    {
      ghost var c := Now();
      var h := g + n;
      done := GrowOne(pid, h, TableFor(tableOk, n), junk);
      ghost var d := Now();
      if done {
        longer := path + [d];
        assert IsPath(longer, pid, g, junk) by {
          LongerPath(path, pid, g, h, junk, c, d);
        }
        OneMoreTable(tableOk, n);
      } else {
        PathHalted(path, d, pid, g, n, pages, tableOk, junk);
        longer := path;
      }
    }

    /** The loop of stack_growth. */
    method GrowPages(pid: nat, g: nat, pages: nat, tableOk: nat -> bool, junk: Spte)
      returns (done: bool, ghost path: seq<Moment>)
      requires Valid() && g == GrowsOf(grows, pid)
      modifies this
      ensures |path| > 0 && path[0] == old(Now()) && IsPath(path, pid, g, junk)
      ensures done ==> Valid() && TablesFor(tableOk, pages) && |path| == pages + 1 && path[pages] == Now()
      ensures !done ==> Losses(old(Where()), Where(), pages, pages) && old(torn) <= torn
      ensures !done ==> Obstructed(old(ptes), pid, g, pages, tableOk)
    {
      path := [Now()];
      var n := 0;
      while n < pages
        invariant Valid() && n <= pages && TablesFor(tableOk, n) && g + n == GrowsOf(grows, pid)
        invariant |path| == n + 1 && path[0] == old(Now()) && path[n] == Now() && IsPath(path, pid, g, junk)
        invariant old(torn) <= torn
      {
        done, path := GrowNext(pid, g, n, pages, tableOk, junk, path);
        if !done {
          return;
        }
        n := n + 1;
      }
      done := true;
    }

    /** stack_growth: refuses by the wrapped size test, else lays `pages` zero pages below
        the stack.  A growth that is not refused goes through if every round has a page
        table and an address and finds its page not in memory, and only if the first two
        hold; while the pool has a free page for each round, only if all three do.  One that
        goes through breaks the flat memory exactly when it spoils it. */
    method StackGrowth(pid: nat, pages: nat, tableOk: nat -> bool, junk: Spte) returns (r: Growth)
      requires Valid()
      modifies this
      ensures r.Refused? <==> Refuses(old(GrowsOf(grows, pid)), pages)
      ensures r.Refused? ==> Valid() && State() == old(State()) && torn == old(torn) && Where() == old(Where())
      ensures r.Grown? ==> old(GrowsOf(grows, pid)) + pages <= USER_TOP && TablesFor(tableOk, pages)
      ensures r.Panicked? ==> Obstructed(old(ptes), pid, old(GrowsOf(grows, pid)), pages, tableOk)
      ensures r.Grown? ==> Valid() && State() == GrownState(old(State()), pid, old(GrowsOf(grows, pid)), pages)
      ensures r.Grown? ==> torn == old(torn) + GrowthSpoilt(old(State()), pid, old(GrowsOf(grows, pid)), pages)
      ensures r.Grown? ==> GrownTo(old(Where()), pid, old(GrowsOf(grows, pid)), pages, junk, Where())
      ensures r.Grown? && pages <= FreeCount(old(used)) ==>
                !Obstructed(old(ptes), pid, old(GrowsOf(grows, pid)), pages, tableOk)
      ensures old(torn) <= torn && Losses(old(Where()), Where(), pages, pages)
      ensures r.Grown? ==> Weight(Where()) <= Weight(old(Where())) + pages
    {
      var g := GrowsOf(grows, pid);
      if Refuses(g, pages) {
        return Growth.Refused;
      }
      ghost var path;
      var done;
      done, path := GrowPages(pid, g, pages, tableOk, junk);
      if done {
        PathState(path, pid, g, junk, pages);
        PathLosses(path, pid, g, junk, pages);
        PathGrown(path, pid, g, junk);
        PathPool(path, pid, g, junk, pages);
        if pages <= FreeCount(path[0].layout.pool) {
          NotObstructed(path[0].layout.ptes, pid, g, pages, tableOk);
        }
      }
      r := if done then Growth.Grown else Panicked;
    }

    /** The processor's view of an address: fault the page in unless it is present. */
    method Touch(key: Key, tableOk: bool) returns (r: Access)
      requires Valid()
      modifies this`frames, this`cursor, this`used, this`phys, this`ptes, this`spt, this`swapUsed, this`dev, this`lost
      ensures r.Ready? ==> Valid() && Present(ptes, key) && ptes[key].kpage < |phys| && key in old(spt)
      ensures r.Ready? ==>
                if Present(old(ptes), key) then Where() == old(Where()) else Fetched(old(Where()), key, Where())
      ensures r.Ready? ==> (key in lost <==> key in old(lost)) && Weight(Where()) <= Weight(old(Where()))
      ensures r.Ready? && key !in old(Aside(None)) ==>
                key in flat && phys[ptes[key].kpage] == flat[key].bytes && ptes[key].writable == flat[key].writable
      ensures r.Absent? <==> key !in old(spt)
      ensures r.Absent? ==> Valid() && Where() == old(Where()) && (key !in Aside(None) ==> key !in flat)
      ensures key in flat && key !in old(Aside(None)) && tableOk ==> r.Ready?
      ensures Losses(old(Where()), Where(), 1, 0)
    {
      if key !in Aside(None) {
        FlatPageThere(Memory(), files, flat, Aside(None), key);
      }
      if key !in spt {
        return Absent;
      }
      var done := true;
      if !Present(ptes, key) {
        done := LoadLazy(key, tableOk);
      }
      if !done {
        return Panic;
      }
      if key !in Aside(None) {
        PresentPage(Memory(), files, flat, Aside(None), key);
      }
      PresentInPool(frames, used, ptes, key);
      r := Ready;
    }

    method MarkAccessed(key: Key)
      requires Valid() && Present(ptes, key)
      modifies this`ptes
      ensures Valid() && Where() == Marked(old(Where()), key, false) && Weight(Where()) == Weight(old(Where()))
    {
      ghost var m := Memory();
      var q := ptes[key := ptes[key].(accessed := true)];
      RemarkOwned(frames, used, ptes, key, q[key]);
      AccessedSet(ptes, ptes, key, true);
      NoneLost(ptes, key, q[key]);
      StillMapped(ptes, key, q[key]);
      SameWeight(spt, ptes, q, swapUsed);
      AccessedRepresents(m, q, files, flat, Aside(None));
      ptes := q;
    }

    /** A user read: sets the accessed bit. */
    method UserRead(key: Key, offset: nat, tableOk: bool) returns (r: Option<Reply>)
      requires Valid() && offset < PGSIZE
      modifies this`frames, this`cursor, this`used, this`phys, this`ptes, this`spt, this`swapUsed, this`dev, this`lost
      ensures r.Some? ==> Valid() && Accessed(old(Where()), key, false, Where())
      ensures r.Some? && key !in old(Aside(None)) ==>
                r.value == if key in flat then Value(flat[key].bytes[offset]) else NoPage
      ensures key in flat && key !in old(Aside(None)) && tableOk ==> r.Some?
      ensures Losses(old(Where()), Where(), 1, 0) && (r.Some? ==> Weight(Where()) <= Weight(old(Where())))
    {
      ghost var a := Where();
      var t := Touch(key, tableOk);
      if t.Panic? {
        return None;
      }
      if t.Absent? {
        return Some(NoPage);
      }
      ghost var m := Where();
      MarkAccessed(key);
      LossesSame(a, m, Where(), 0);
      assert AccessedBy(a, key, false, Where(), m);
      r := Some(Value(phys[ptes[key].kpage][offset]));
    }

    /** Writes a byte of a present page: sets accessed and dirty. */
    method StoreByte(key: Key, offset: nat, b: Byte)
      requires Valid() && offset < PGSIZE && Present(ptes, key) && ptes[key].kpage < |phys| && ptes[key].writable
      modifies this`phys, this`ptes, this`flat
      ensures Valid() && flat == StoredFlat(old(flat), key, offset, b)
      ensures Where() == Marked(old(Where()), key, true) && Weight(Where()) == Weight(old(Where()))
    {
      ghost var m, f := Memory(), flat;
      var k := ptes[key].kpage;
      var page: Page := phys[k][offset := b];
      var p := ptes[key].(accessed := true, dirty := true);
      RemarkOwned(frames, used, ptes, key, p);
      assert WeightOf(spt, ptes, swapUsed) == WeightOf(spt, ptes[key := p], swapUsed) by {
        NoneLost(ptes, key, p);
        StillMapped(ptes, key, p);
        SameWeight(spt, ptes, ptes[key := p], swapUsed);
      }
      assert key !in Aside(None) ==> PageOk(m, files, f, key);
      flat := StoredFlat(flat, key, offset, b);
      phys, ptes := phys[k := page], ptes[key := p];
      StoredPages(m, frames, used, key, page, p, files, f, flat, Aside(None));
    }

    /** The store to a page that turned out not to be writable: the flat memory has it
        only if this is a page that need not be what the flat memory says. */
    ghost method StoreFlat(key: Key, offset: nat, b: Byte)
      requires Valid() && offset < PGSIZE && (key !in Aside(None) ==> key !in flat || !flat[key].writable)
      modifies this`flat
      ensures Valid() && flat == StoredFlat(old(flat), key, offset, b)
    {
      ghost var f, aside := flat, Aside(None);
      flat := StoredFlat(flat, key, offset, b);
      OtherPages(Memory(), Memory(), files, f, flat, key, aside);
      assert key !in aside ==> PageOk(Memory(), files, f, key) && flat == f;
      AllPages(Memory(), files, flat, aside, key);
    }

    /** A user write.  On a writable page of the flat memory exactly that byte becomes b. */
    method UserWrite(key: Key, offset: nat, b: Byte, tableOk: bool) returns (r: Option<Reply>)
      requires Valid() && offset < PGSIZE
      modifies this`frames, this`cursor, this`used, this`phys, this`ptes, this`spt, this`swapUsed, this`dev, this`lost
      modifies this`flat
      ensures r.Some? ==> Valid() && flat == StoredFlat(old(flat), key, offset, b)
      ensures r.Some? ==> StoreEffect(old(flat), flat, key, offset, b)
      ensures r.Some? ==> Accessed(old(Where()), key, true, Where())
      ensures r.Some? && key !in old(Aside(None)) ==>
                r.value == if key !in old(flat) then NoPage else if old(flat)[key].writable then Stored else Denied
      ensures key in old(flat) && key !in old(Aside(None)) && tableOk ==> r.Some?
      ensures Losses(old(Where()), Where(), 1, 0) && (r.Some? ==> Weight(Where()) <= Weight(old(Where())))
    {
      ghost var a := Where();
      OneByte(flat, key, offset, b);
      var t := Touch(key, tableOk);
      if t.Panic? {
        return None;
      }
      if t.Absent? {
        StoreFlat(key, offset, b);
        return Some(NoPage);
      }
      ghost var m := Where();
      if ptes[key].writable {
        StoreByte(key, offset, b);
        LossesSame(a, m, Where(), 0);
        r := Some(Stored);
      } else {
        StoreFlat(key, offset, b);
        r := Some(Denied);
      }
      assert AccessedBy(a, key, true, Where(), m);
    }

    /** One round of load_segment. */
    method DescribeOne(key: Key, e: Spte, ghost flat0: map<Key, FlatPage>, ghost spt0: map<Key, Spte>, ghost ofs: nat,
                       ghost upage: nat, ghost readBytes: nat)
      requires Valid() && upage <= key.upage && IsSegmentEntry(e, ofs, readBytes, key.upage - upage)
      requires SameAbove(spt0, spt, key.pid, key.upage)
      requires ofs + readBytes <= |files(key.pid)| ==>
                 SegmentLoaded(flat0, spt0, flat, files(key.pid), key.pid, ofs, upage, readBytes,
                               key.upage - upage, e.writable)
      requires OtherPagesKept(flat0, spt0, flat, key.pid, upage, key.upage - upage)
      modifies this`spt, this`flat, this`filed
      ensures Valid()
      ensures SameAbove(spt0, spt, key.pid, key.upage + 1)
      ensures ofs + readBytes <= |files(key.pid)| ==>
                SegmentLoaded(flat0, spt0, flat, files(key.pid), key.pid, ofs, upage, readBytes,
                              key.upage - upage + 1, e.writable)
      ensures OtherPagesKept(flat0, spt0, flat, key.pid, upage, key.upage - upage + 1)
    {
      SegmentStep(flat0, spt0, flat, spt, files(key.pid), key, e, ofs, upage, readBytes);
      DescribeSegment(key, e);
    }

    /** load_segment: describes a run of pages without loading any. */
    method LoadSegment(pid: nat, ofs: nat, upage: nat, readBytes: nat, zeroBytes: nat, writable: bool)
      requires Valid() && (readBytes + zeroBytes) % PGSIZE == 0 && ofs % PGSIZE == 0
      modifies this`spt, this`flat, this`filed
      ensures Valid()
      ensures ofs + readBytes <= |files(pid)| ==>
                SegmentLoaded(old(flat), old(spt), flat, files(pid), pid, ofs, upage, readBytes,
                              (readBytes + zeroBytes) / PGSIZE, writable)
      ensures OtherPagesKept(old(flat), old(spt), flat, pid, upage, (readBytes + zeroBytes) / PGSIZE)
    {
      var rest, zeros, u, o := readBytes, zeroBytes, upage, ofs;
      ghost var flat0, spt0, total := flat, spt, (readBytes + zeroBytes) / PGSIZE;
      while rest > 0 || zeros > 0
        invariant Valid() && upage <= u <= upage + total
        invariant rest + zeros == 4096 * (upage + total - u) && o == ofs + 4096 * (u - upage)
        invariant rest == if readBytes <= 4096 * (u - upage) then 0 else readBytes - 4096 * (u - upage)
        invariant SameAbove(spt0, spt, pid, u)
        invariant ofs + readBytes <= |files(pid)| ==>
                    SegmentLoaded(flat0, spt0, flat, files(pid), pid, ofs, upage, readBytes, u - upage, writable)
        invariant OtherPagesKept(flat0, spt0, flat, pid, upage, u - upage)
        decreases upage + total - u
      {
        var pageRead := if rest < PGSIZE then rest else PGSIZE;
        DescribeOne(Key(pid, u), Spte(o, pageRead, PGSIZE - pageRead, writable, -1),
                    flat0, spt0, ofs, upage, readBytes);
        rest, zeros := rest - pageRead, zeros - (PGSIZE - pageRead);
        u, o := u + 1, o + PGSIZE;
      }
    }

    /** The user pool, an empty frame table and an empty swap device. */
    constructor (files: Files, pool: seq<Page>, slots: nat, device: seq<Sector>)
      requires |pool| > 0 && SECTORS_PER_PAGE * slots <= |device|
      ensures Valid() && lost == torn == {} && State() == FlatState(map[], map[], map[]) && this.files == files
      ensures Where() == Layout(map[], map[], seq(|pool|, _ => false), seq(slots, _ => false), {})
      ensures Weight(Where()) == 0
    {
      AllFree(seq(slots, _ => false));
      this.files := files;
      frames, cursor := [], -1;
      used, phys := seq(|pool|, _ => false), pool;
      ptes, spt := map[], map[];
      swapUsed, dev := seq(slots, _ => false), device;
      grows, flat, filed, lost, torn := map[], map[], map[], {}, {};
    }

    /** A load, as an event. */
    method Load(key: Key, offset: nat, tableOk: bool, ghost junk: Spte) returns (r: Option<Reply>)
      requires Valid() && offset < PGSIZE
      modifies this
      ensures r.Some? ==> Valid() && Served(old(Now()), Event.Load(key, offset), junk, r.value, Now())
      ensures r.None? && key !in old(Aside(None)) ==> !tableOk || key !in old(flat)
      ensures Losses(old(Where()), Where(), 1, 0) && torn == old(torn)
    {
      r := UserRead(key, offset, tableOk);
    }

    /** A store, as an event. */
    method Store(key: Key, offset: nat, b: Byte, tableOk: bool, ghost junk: Spte) returns (r: Option<Reply>)
      requires Valid() && offset < PGSIZE
      modifies this
      ensures r.Some? ==> Valid() && Served(old(Now()), Event.Store(key, offset, b), junk, r.value, Now())
      ensures r.None? && key !in old(Aside(None)) ==> !tableOk || key !in old(flat)
      ensures Losses(old(Where()), Where(), 1, 0) && torn == old(torn)
    {
      r := UserWrite(key, offset, b, tableOk);
    }

    /** A growth, as an event. */
    method Grow(pid: nat, pages: nat, tableOk: nat -> bool, junk: Spte) returns (r: Option<Reply>)
      requires Valid()
      modifies this
      ensures r.Some? ==> Valid() && Served(old(Now()), Event.Grow(pid, pages), junk, r.value, Now())
      ensures r.Some? ==> r.value != Halt && (r.value == Reply.Grown ==> TablesFor(tableOk, pages))
      ensures r.None? ==> Stops(old(State()), Event.Grow(pid, pages), tableOk)
      ensures r.None? ==> Obstructed(old(ptes), pid, old(GrowsOf(grows, pid)), pages, tableOk)
      ensures Losses(old(Where()), Where(), pages, PagesGrown(old(State()), Event.Grow(pid, pages)))
      ensures old(torn) <= torn
    {
      var g := StackGrowth(pid, pages, tableOk, junk);
      match g {
        case Grown =>
          r := Some(Reply.Grown);
        case Refused =>
          r := Some(Reply.Refused);
        case Panicked =>
          r := None;
          PresentDescribed(old(frames), old(used), old(ptes), old(spt), old(filed),
                           pid, old(GrowsOf(grows, pid)), pages, tableOk);
      }
    }

    /** One user event. */
    method Serve(e: Event, tableOk: nat -> bool, junk: Spte) returns (r: Option<Reply>)
      requires Valid() && ValidEvent(e)
      modifies this
      ensures r.Some? ==> Valid() && Served(old(Now()), e, junk, r.value, Now())
      ensures r.None? && Spared(old(Aside(None)), e) ==> Stops(old(State()), e, tableOk)
      ensures r.None? && e.Grow? ==> Obstructed(old(ptes), e.pid, old(GrowsOf(grows, e.pid)), e.pages, tableOk)
      ensures e.Grow? && r.Some? ==> r.value != Halt && (r.value == Reply.Grown ==> TablesFor(tableOk, e.pages))
      ensures Losses(old(Where()), Where(), Demand(e), PagesGrown(old(State()), e)) && old(torn) <= torn
    {
      match e {
        case Load(key, offset) =>
          r := Load(key, offset, TableFor(tableOk, 0), junk);
        case Store(key, offset, b) =>
          r := Store(key, offset, b, TableFor(tableOk, 0), junk);
        case Grow(pid, pages) =>
          r := Grow(pid, pages, tableOk, junk);
      }
    }

    /** Every run of reads, writes and stack growths of any processes answers like the
        flat memory, whatever was evicted and reloaded on the way, except for accesses to
        pages that were lost, or spoilt by a growth, before.  `trace` is where pages were
        before each event served and after the last of them, and IsRun what each event did
        to that; a page is lost exactly when it is evicted, needs swap space and no slot is
        free.  However long the run, that takes slots and pool pages that together are no
        more than the described pages, strays and pages grown.  The first event to lose a
        page is m, if m < n.  The pages spoilt are those that the flat run says.  n is how many
        events were served, and Stops says why there may be no more. */
    method Run(events: seq<Event>, tableOk: nat -> nat -> bool, junk: nat -> Spte)
      returns (replies: seq<Reply>, n: nat, ghost trace: seq<Moment>, ghost m: nat)
      requires Valid() && forall e | e in events :: ValidEvent(e)
      modifies this
      ensures n == |replies| <= |events| && IsRun(events, junk, replies, trace) && trace[0] == old(Now())
      ensures n == |events| ==> Valid() && trace[n] == Now()
      ensures trace[n].state == FlatRun(old(State()), events[..n]).0
      ensures trace[n].torn == old(torn) + RunSpoilt(old(State()), events[..n])
      ensures LosesFirst(events, replies, trace, m)
      ensures forall i, j | 0 <= i < n ::
                LoadFinds(old(State()), events, replies, trace[i].layout.lost + trace[i].torn, i, j)
      ensures forall i | 0 <= i < n ::
                StoreAnswered(old(State()), events, replies, trace[i].layout.lost + trace[i].torn, i)
      ensures Losses(old(Where()), trace[n].layout, TotalDemand(events), TotalGrowth(old(State()), events))
      ensures Losses(old(Where()), Where(), TotalDemand(events), TotalGrowth(old(State()), events))
      ensures n < |events| && Spared(trace[n].layout.lost + trace[n].torn, events[n]) ==>
                Stops(trace[n].state, events[n], tableOk(n))
    {
      replies, n, trace := [], 0, [Now()];
      while n < |events|
        invariant Valid() && n == |replies| <= |events| && IsRun(events, junk, replies, trace)
        invariant trace[0] == old(Now()) && trace[n] == Now()
      {
        assert events[n] in events;
        var r := Serve(events[n], tableOk(n), junk(n));
        if r.None? {
          StoppedLosses(events, junk, replies, trace, Where());
          break;
        }
        MoreSteps(events, junk, replies, trace, r.value, Now());
        replies, n, trace := replies + [r.value], n + 1, trace + [Now()];
      }
      RunFlat(events, junk, replies, trace, n);
      RunLosses(events, junk, replies, trace, n);
      LossesOfAll(trace[0].state, events, n, trace[0].layout, trace[n].layout);
      forall i, j: int | 0 <= i < n
        ensures LoadFinds(old(State()), events, replies, trace[i].layout.lost + trace[i].torn, i, j)
      {
        RunLoads(events, junk, replies, trace, i, j);
      }
      forall i | 0 <= i < n
        ensures StoreAnswered(old(State()), events, replies, trace[i].layout.lost + trace[i].torn, i)
      {
        RunStores(events, junk, replies, trace, i);
      }
      m := FirstLoss(events, junk, replies, trace);
    }
  }
}
