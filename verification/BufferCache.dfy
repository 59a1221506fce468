/** The 64-slot write-back sector cache (filesys/cache.c) used by one client while
    the dump thread writes dirty slots back at any moment.

    A `logical` disk, the plain array of sectors a client believes it is talking
    to, is the specification.  Slot lookup in the source compares only
    `sector_index` and never looks at `present`; what makes that sound is that
    present slots form a prefix of the slot array and unused slots carry sector 0. */
module BufferCache {
  import opened Storage

  const SLOTS: nat := 64

  /** sector_supl_t: the bookkeeping record of one slot. */
  datatype Supl = Supl(present: bool, accessed: bool, dirty: bool, pinned: int, dataIndex: int, sector: int)

  const UNUSED := Supl(false, false, false, 0, 0, 0)

  /** A sector with `bytes` copied in at `offset`. */
  function Patch(s: Sector, offset: nat, bytes: seq<Byte>): Sector
    requires offset + |bytes| <= 512
  {
    s[..offset] + bytes + s[offset + |bytes|..]
  }

  // ---------------------------------------------------------------------------
  // Specification: a plain disk
  // ---------------------------------------------------------------------------

  datatype Op =
    | Read(index: nat, offset: nat, size: nat)
    | Write(index: nat, offset: nat, bytes: seq<Byte>)

  predicate ValidOp(op: Op, sectors: nat) {
    match op
    case Read(index, offset, size) => index < sectors && offset + size <= 512
    case Write(index, offset, bytes) => index < sectors && offset + |bytes| <= 512
  }

  function PlainStep(disk: seq<Sector>, op: Op): seq<Sector>
    requires ValidOp(op, |disk|)
  {
    match op
    case Read(_, _, _) => disk
    case Write(index, offset, bytes) => disk[index := Patch(disk[index], offset, bytes)]
  }

  function PlainOutput(disk: seq<Sector>, op: Op): seq<Byte>
    requires ValidOp(op, |disk|)
  {
    match op
    case Read(index, offset, size) => disk[index][offset..offset + size]
    case Write(_, _, _) => []
  }

  function PlainRun(disk: seq<Sector>, ops: seq<Op>): (r: (seq<Sector>, seq<seq<Byte>>))
    requires forall op | op in ops :: ValidOp(op, |disk|)
    ensures |r.0| == |disk|
    decreases |ops|
  {
    if ops == [] then (disk, [])
    else
      var n := |ops| - 1;
      var (d, outs) := PlainRun(disk, ops[..n]);
      (PlainStep(d, ops[n]), outs + [PlainOutput(d, ops[n])])
  }

  // What a read finds ------------------------------------------------------------

  /** Byte i of the operation's data is byte pos of the sector. */
  predicate WritesTo(op: Op, sector: nat, pos: nat) {
    op.Write? && op.index == sector && op.offset <= pos < op.offset + |op.bytes|
  }

  /** Operation j is the last one before operation n that wrote the byte; -1 if none did. */
  ghost predicate LastWrite(ops: seq<Op>, sector: nat, pos: nat, n: nat, j: int)
    requires n <= |ops|
  {
    -1 <= j < n && (j >= 0 ==> WritesTo(ops[j], sector, pos)) && forall i | j < i < n :: !WritesTo(ops[i], sector, pos)
  }

  /** The byte then: the one written, or the one that was on the disk. */
  function Found(disk: seq<Sector>, ops: seq<Op>, sector: nat, pos: nat, j: int): Byte
    requires sector < |disk| && pos < 512 && j < |ops| && (j >= 0 ==> WritesTo(ops[j], sector, pos))
  {
    if j >= 0 then ops[j].bytes[pos - ops[j].offset] else disk[sector][pos]
  }

  /** One operation, one byte. */
  lemma StepByte(disk: seq<Sector>, op: Op, sector: nat, pos: nat)
    requires ValidOp(op, |disk|) && sector < |disk| && pos < 512
    ensures |PlainStep(disk, op)| == |disk|
    ensures PlainStep(disk, op)[sector][pos]
            == if WritesTo(op, sector, pos) then op.bytes[pos - op.offset] else disk[sector][pos]
  {
  }

  /** The disk after bytes were written at an offset of one sector: these bytes there, all others kept. */
  ghost predicate SectorWritten(before: seq<Sector>, after: seq<Sector>, index: nat, offset: nat, bytes: seq<Byte>) {
    && |after| == |before|
    && forall i, p | 0 <= i < |after| && 0 <= p < 512 ::
         after[i][p] == if i == index && offset <= p < offset + |bytes| then bytes[p - offset] else before[i][p]
  }

  lemma SectorWriteExact(disk: seq<Sector>, index: nat, offset: nat, bytes: seq<Byte>)
    requires ValidOp(Op.Write(index, offset, bytes), |disk|)
    ensures SectorWritten(disk, PlainStep(disk, Op.Write(index, offset, bytes)), index, offset, bytes)
  {
    forall i, p | 0 <= i < |disk| && 0 <= p < 512 {
      StepByte(disk, Op.Write(index, offset, bytes), i, p);
    }
  }

  /** Every byte of the plain disk is the one written last. */
  lemma {:induction false} PlainByte(disk: seq<Sector>, ops: seq<Op>, sector: nat, pos: nat, n: nat, j: int)
    requires (forall op | op in ops :: ValidOp(op, |disk|)) && sector < |disk| && pos < 512
    requires n <= |ops| && LastWrite(ops, sector, pos, n, j)
    ensures PlainRun(disk, ops[..n]).0[sector][pos] == Found(disk, ops, sector, pos, j)
    decreases n
  {
    if n > 0 {
      var m := n - 1;
      assert ops[..n][..m] == ops[..m] && ops[m] in ops;
      StepByte(PlainRun(disk, ops[..m]).0, ops[m], sector, pos);
      if j < m {
        assert !WritesTo(ops[m], sector, pos);
        PlainByte(disk, ops, sector, pos, m, j);
      }
    }
  }

  lemma {:induction false} OutputAt(disk: seq<Sector>, ops: seq<Op>, n: nat)
    requires (forall op | op in ops :: ValidOp(op, |disk|)) && n < |ops|
    ensures |PlainRun(disk, ops).1| == |ops| && ops[n] in ops
    ensures PlainRun(disk, ops).1[n] == PlainOutput(PlainRun(disk, ops[..n]).0, ops[n])
    decreases |ops|
  {
    var m := |ops| - 1;
    if n < m {
      OutputAt(disk, ops[..m], n);
      assert ops[..m][..n] == ops[..n];
    } else if m > 0 {
      OutputAt(disk, ops[..m], 0);
    }
  }

  /** If operation n is a read, it gives as many bytes as asked for, and its byte i is the one
      that operation j, the last to write it, left there. */
  ghost predicate ReadFinds(disk: seq<Sector>, ops: seq<Op>, outs: seq<seq<Byte>>, n: nat, i: nat, j: int)
    requires n < |ops| && n < |outs|
  {
    ops[n].Read? && ValidOp(ops[n], |disk|) ==>
      && |outs[n]| == ops[n].size
      && (i < ops[n].size && LastWrite(ops, ops[n].index, ops[n].offset + i, n, j) ==>
            outs[n][i] == Found(disk, ops, ops[n].index, ops[n].offset + i, j))
  }

  /** Every run: reads find what was written last. */
  lemma PlainReads(disk: seq<Sector>, ops: seq<Op>, n: nat, i: nat, j: int)
    requires (forall op | op in ops :: ValidOp(op, |disk|)) && n < |ops|
    ensures |PlainRun(disk, ops).1| == |ops| && ReadFinds(disk, ops, PlainRun(disk, ops).1, n, i, j)
  {
    var op, d := ops[n], PlainRun(disk, ops[..n]).0;
    assert |PlainRun(disk, ops).1| == |ops| && PlainRun(disk, ops).1[n] == PlainOutput(d, op) by {
      OutputAt(disk, ops, n);
    }
    if op.Read? && i < op.size && LastWrite(ops, op.index, op.offset + i, n, j) {
      assert d[op.index][op.offset + i] == Found(disk, ops, op.index, op.offset + i, j) by {
        PlainByte(disk, ops, op.index, op.offset + i, n, j);
      }
    }
  }

  // ---------------------------------------------------------------------------
  // The cache contents as a value
  // ---------------------------------------------------------------------------

  datatype Image = Image(aux: seq<Supl>, data: seq<Sector>, disk: seq<Sector>)

  predicate WellSized(m: Image, logical: seq<Sector>) {
    |m.aux| == |m.data| == SLOTS && |m.disk| == |logical|
  }

  /** Slot i of a cache over n sectors, outside any operation. */
  predicate SlotOk(a: Supl, i: int, n: nat) {
    && a.pinned == 0
    && (a.present ==> 0 <= a.sector < n && a.dataIndex == i)
    && (!a.present ==> a.sector == 0 && !a.dirty)
  }

  /** Some slot other than k holds sector s and is dirty. */
  ghost predicate DirtyIn(aux: seq<Supl>, s: int, k: int) {
    exists i :: 0 <= i < |aux| && i != k && aux[i].present && aux[i].dirty && aux[i].sector == s
  }

  /** Everything that holds of the slots other than k, while k is in use for sector
      index: they are in order, they form a prefix, no sector is held twice, what
      they hold is the logical content, and the device differs from the logical disk
      only where one of them is dirty.  k == index == -1 means no slot is in use. */
  ghost predicate Rest(m: Image, logical: seq<Sector>, k: int, index: int)
    requires WellSized(m, logical)
  {
    && (forall i | 0 <= i < SLOTS && i != k :: SlotOk(m.aux[i], i, |m.disk|))
    && (forall i, j | 0 <= i < j < SLOTS && i != k && j != k && m.aux[j].present :: m.aux[i].present)
    && (forall i, j | 0 <= i < j < SLOTS && i != k && j != k && m.aux[i].present && m.aux[j].present ::
          m.aux[i].sector != m.aux[j].sector)
    && (forall i | 0 <= i < SLOTS && i != k && m.aux[i].present ::
          m.aux[i].sector != index && m.data[i] == logical[m.aux[i].sector])
    && (forall s | 0 <= s < |logical| && s != index && m.disk[s] != logical[s] :: DirtyIn(m.aux, s, k))
  }

  /** The invariant between operations. */
  ghost predicate Inv(m: Image, logical: seq<Sector>) {
    WellSized(m, logical) && Rest(m, logical, -1, -1)
  }

  /** Slot k is pinned for sector index and every slot before it is in use. */
  ghost predicate Pinned(m: Image, logical: seq<Sector>, k: int, index: int) {
    && WellSized(m, logical) && Rest(m, logical, k, index)
    && 0 <= k < SLOTS && 0 <= index < |m.disk|
    && (forall i | 0 <= i < k :: m.aux[i].present)
    && m.aux[k].pinned == 1
    && (m.aux[k].dirty ==> m.aux[k].present && m.aux[k].sector == index)
  }

  /** Pinned after a miss: the device has the sector, the slot has nothing to save. */
  ghost predicate Unread(m: Image, logical: seq<Sector>, k: int, index: int) {
    && Pinned(m, logical, k, index)
    && !m.aux[k].dirty && m.disk[index] == logical[index]
  }

  /** Pinned with the sector's data in place; `dirty` is the flag that will be put
      back with the record. */
  ghost predicate Filled(m: Image, logical: seq<Sector>, k: int, index: int, dirty: bool) {
    && Pinned(m, logical, k, index)
    && m.data[k] == logical[index]
    && (dirty || m.disk[index] == logical[index])
  }

  /** The logical disk is a function of the cache contents. */
  lemma LogicalDetermined(m: Image, l1: seq<Sector>, l2: seq<Sector>)
    requires Inv(m, l1) && Inv(m, l2)
    ensures l1 == l2
  {
    forall s | 0 <= s < |l1| ensures l1[s] == l2[s] {
      if m.disk[s] != l1[s] || m.disk[s] != l2[s] {
        assert DirtyIn(m.aux, s, -1);
      }
    }
  }

  // Steps on images --------------------------------------------------------------

  function Dumped(m: Image, j: nat): Image
    requires j < |m.aux| == |m.data|
    requires m.aux[j].dirty ==> 0 <= m.aux[j].sector < |m.disk|
  {
    if m.aux[j].dirty
    then Image(m.aux[j := m.aux[j].(dirty := false)], m.data, m.disk[m.aux[j].sector := m.data[j]])
    else m
  }

  lemma DumpedRest(m: Image, logical: seq<Sector>, k: int, index: int, j: nat)
    requires WellSized(m, logical) && Rest(m, logical, k, index) && j < SLOTS
    requires m.aux[j].dirty ==> m.aux[j].present && 0 <= m.aux[j].sector < |m.disk|
    requires j == k && m.aux[k].dirty ==> m.aux[k].sector == index
    ensures WellSized(Dumped(m, j), logical) && Rest(Dumped(m, j), logical, k, index)
  {
    var m' := Dumped(m, j);
    if m.aux[j].dirty {
      forall s | 0 <= s < |logical| && s != index && m'.disk[s] != logical[s] ensures DirtyIn(m'.aux, s, k) {
        assert DirtyIn(m.aux, s, k);
        var i :| 0 <= i < |m.aux| && i != k && m.aux[i].present && m.aux[i].dirty && m.aux[i].sector == s;
        assert i != j;
        assert m'.aux[i] == m.aux[i];
      }
    }
  }

  /** A dump step leaves a pinned slot as it is, whichever slot it hits. */
  lemma DumpedPinned(m: Image, logical: seq<Sector>, k: int, index: int, dirty: bool, j: nat)
    requires Pinned(m, logical, k, index) && j < SLOTS
    ensures m.aux[j].dirty ==> m.aux[j].present && 0 <= m.aux[j].sector < |m.disk|
    ensures Pinned(Dumped(m, j), logical, k, index)
    ensures Unread(m, logical, k, index) ==> Unread(Dumped(m, j), logical, k, index)
    ensures Filled(m, logical, k, index, dirty) ==> Filled(Dumped(m, j), logical, k, index, dirty)
  {
    if j != k {
      assert SlotOk(m.aux[j], j, |m.disk|);
    }
    DumpedRest(m, logical, k, index, j);
  }

  /** Rest says nothing about slot k itself or about sector index. */
  lemma RestIgnoresSlot(m: Image, m': Image, logical: seq<Sector>, logical': seq<Sector>, k: int, index: int)
    requires WellSized(m, logical) && WellSized(m', logical') && |m.disk| == |m'.disk|
    requires forall i | 0 <= i < SLOTS && i != k :: m.aux[i] == m'.aux[i] && m.data[i] == m'.data[i]
    requires forall s | 0 <= s < |m.disk| && s != index :: m.disk[s] == m'.disk[s] && logical[s] == logical'[s]
    requires Rest(m, logical, k, index)
    ensures Rest(m', logical', k, index)
  {
    forall s | 0 <= s < |logical| && s != index && m'.disk[s] != logical'[s] ensures DirtyIn(m'.aux, s, k) {
      assert DirtyIn(m.aux, s, k);
      var i :| 0 <= i < |m.aux| && i != k && m.aux[i].present && m.aux[i].dirty && m.aux[i].sector == s;
      assert m'.aux[i] == m.aux[i];
    }
  }

  /** Slot k can be taken out of circulation for sector index when it holds index,
      or when it is clean and no slot holds index. */
  lemma TakeSlot(m: Image, logical: seq<Sector>, k: nat, index: nat)
    requires Inv(m, logical) && k < SLOTS && index < |m.disk|
    requires m.aux[k].present ==> m.aux[k].sector == index || !m.aux[k].dirty
    requires forall i | 0 <= i < SLOTS && i != k && m.aux[i].present :: m.aux[i].sector != index
    ensures Rest(m, logical, k, index)
    ensures m.aux[k].present && m.aux[k].sector == index ==> m.data[k] == logical[index]
    ensures (m.aux[k].present && m.aux[k].dirty) || m.disk[index] == logical[index]
  {
    forall s | 0 <= s < |logical| && s != index && m.disk[s] != logical[s] ensures DirtyIn(m.aux, s, k) {
      assert DirtyIn(m.aux, s, -1);
    }
    if m.disk[index] != logical[index] {
      assert DirtyIn(m.aux, index, -1);
    }
  }

  /** A clean slot can be given up for a sector that no slot holds. */
  lemma Vacate(m: Image, logical: seq<Sector>, k: nat, index: nat)
    requires Inv(m, logical) && k < SLOTS && index < |m.disk| && !m.aux[k].dirty
    requires forall i | 0 <= i < SLOTS && m.aux[i].present :: m.aux[i].sector != index
    requires forall i | 0 <= i < k :: m.aux[i].present
    ensures Unread(m.(aux := m.aux[k := m.aux[k].(present := false, pinned := 1)]), logical, k, index)
  {
    TakeSlot(m, logical, k, index);
    RestIgnoresSlot(m, m.(aux := m.aux[k := m.aux[k].(present := false, pinned := 1)]), logical, logical, k, index);
  }

  /** Clearing reference bits does not matter. */
  lemma AccessedIrrelevant(m: Image, m': Image, logical: seq<Sector>)
    requires Inv(m, logical) && WellSized(m', logical) && m.data == m'.data && m.disk == m'.disk
    requires forall i | 0 <= i < SLOTS :: m'.aux[i] == m.aux[i] || m'.aux[i] == m.aux[i].(accessed := false)
    ensures Inv(m', logical)
  {
    forall s | 0 <= s < |logical| && m'.disk[s] != logical[s] ensures DirtyIn(m'.aux, s, -1) {
      assert DirtyIn(m.aux, s, -1);
      var i :| 0 <= i < |m.aux| && i != -1 && m.aux[i].present && m.aux[i].dirty && m.aux[i].sector == s;
      assert m'.aux[i].dirty;
    }
  }

  /** Putting the record of slot k back ends the operation. */
  lemma Settle(m: Image, logical: seq<Sector>, k: int, index: int, info: Supl)
    requires Filled(m, logical, k, index, info.dirty)
    requires info.present && info.sector == index && info.dataIndex == k && info.pinned == 0
    ensures Inv(m.(aux := m.aux[k := info]), logical)
  {
    var m' := m.(aux := m.aux[k := info]);
    forall s | 0 <= s < |logical| && m'.disk[s] != logical[s] ensures DirtyIn(m'.aux, s, -1) {
      if s == index {
        assert m'.aux[k].present && m'.aux[k].dirty && m'.aux[k].sector == s;
      } else {
        assert DirtyIn(m.aux, s, k);
        var i :| 0 <= i < |m.aux| && i != k && m.aux[i].present && m.aux[i].dirty && m.aux[i].sector == s;
        assert m'.aux[i] == m.aux[i];
      }
    }
  }

  // ---------------------------------------------------------------------------
  // The cache
  // ---------------------------------------------------------------------------

  /** Slots the dump thread writes back at the points of an operation where it may run. */
  datatype Schedule = Schedule(beforePin: seq<nat>, afterPin: seq<nat>, afterFill: seq<nat>, afterCopy: seq<nat>)

  predicate ValidSlots(js: seq<nat>) {
    forall j | j in js :: j < SLOTS
  }

  predicate ValidSchedule(d: Schedule) {
    ValidSlots(d.beforePin) && ValidSlots(d.afterPin) && ValidSlots(d.afterFill) && ValidSlots(d.afterCopy)
  }

  class Cache {
    const aux: array<Supl>
    const data: array<Sector>
    var disk: seq<Sector>
    ghost var logical: seq<Sector>

    ghost function Contents(): Image
      reads this, aux, data
    {
      Image(aux[..], data[..], disk)
    }

    ghost predicate Shape()
      reads this
    {
      aux.Length == data.Length == SLOTS
    }

    ghost predicate Valid()
      reads this, aux, data
    {
      Shape() && Inv(Contents(), logical)
    }

    /** cache_init, over a device that holds `device`. */
    constructor (device: seq<Sector>)
      ensures Valid() && logical == device && disk == device
      ensures fresh(aux) && fresh(data)
    {
      aux := new Supl[SLOTS](_ => UNUSED);
      data := new Sector[SLOTS];
      disk, logical := device, device;
    }

    /** cache_lru: an unused slot if there is one, else the first slot of the clock
        that is neither pinned nor recently used; at most two sweeps. */
    method Lru() returns (k: nat)
      requires Shape()
      requires exists i :: 0 <= i < SLOTS && (!aux[i].present || aux[i].pinned == 0)
      modifies aux
      ensures k < SLOTS
      ensures aux[k].present ==> aux[k].pinned == 0 && forall i | 0 <= i < SLOTS :: aux[i].present
      ensures !aux[k].present ==> forall i | 0 <= i < k :: aux[i].present
      ensures forall i | 0 <= i < SLOTS :: aux[i] == old(aux[i]) || aux[i] == old(aux[i]).(accessed := false)
    {
      k := 0;
      while k != SLOTS
        invariant k <= SLOTS
        invariant forall i | 0 <= i < k :: aux[i].present
      {
        if !aux[k].present {
          return;
        }
        k := k + 1;
      }
      k := 0;
      ghost var free, sweep :| 0 <= free < SLOTS && aux[free].pinned == 0 && sweep == 0;
      while !(aux[k].pinned == 0 && !aux[k].accessed && aux[k].present)
        invariant k < SLOTS && 0 <= sweep <= 1 && (sweep == 1 ==> k <= free)
        invariant forall i | 0 <= i < SLOTS :: aux[i] == old(aux[i]) || aux[i] == old(aux[i]).(accessed := false)
        invariant forall i | 0 <= i < SLOTS && (sweep == 1 || i < k) :: !aux[i].accessed
        decreases 1 - sweep, SLOTS - k
      {
        aux[k] := aux[k].(accessed := false);
        k := (k + 1) % SLOTS;
        if k == 0 {
          sweep := sweep + 1;
        }
      }
    }

    /** cache_dump_entry */
    method DumpEntry(j: nat)
      requires Shape() && j < SLOTS
      requires aux[j].dirty ==> aux[j].present && 0 <= aux[j].sector < |disk|
      modifies aux, this`disk
      ensures Contents() == Dumped(old(Contents()), j)
      ensures old(Valid()) ==> Valid()
    {
      if Valid() {
        DumpedRest(Contents(), logical, -1, -1, j);
      }
      if aux[j].dirty {
        aux[j] := aux[j].(dirty := false);
        assert aux[j].present;
        disk := disk[aux[j].sector := data[j]];
      }
    }

    /** Dump steps taken by the dump thread while slot k is pinned. */
    method DumpSome(js: seq<nat>, ghost k: int, ghost index: int, ghost dirty: bool)
      requires Shape() && Pinned(Contents(), logical, k, index) && ValidSlots(js)
      modifies aux, this`disk
      ensures Pinned(Contents(), logical, k, index)
      ensures old(Unread(Contents(), logical, k, index)) ==> Unread(Contents(), logical, k, index)
      ensures old(Filled(Contents(), logical, k, index, dirty)) ==> Filled(Contents(), logical, k, index, dirty)
    {
      for n := 0 to |js|
        invariant Pinned(Contents(), logical, k, index)
        invariant old(Unread(Contents(), logical, k, index)) ==> Unread(Contents(), logical, k, index)
        invariant old(Filled(Contents(), logical, k, index, dirty)) ==> Filled(Contents(), logical, k, index, dirty)
      {
        assert js[n] in js;
        DumpedPinned(Contents(), logical, k, index, dirty, js[n]);
        DumpEntry(js[n]);
      }
    }

    /** cache_dump_all: afterwards the device is the logical disk. */
    method DumpAll()
      requires Valid()
      modifies aux, this`disk
      ensures Valid() && disk == logical
    {
      for j := 0 to SLOTS
        invariant Valid()
        invariant forall i | 0 <= i < j :: !aux[i].dirty
      {
        assert SlotOk(aux[..][j], j, |disk|);
        DumpEntry(j);
        assert forall i | 0 <= i < SLOTS :: aux[i] == Contents().aux[i];
      }
      assert !exists s :: 0 <= s < |disk| && disk[s] != logical[s] && DirtyIn(aux[..], s, -1);
    }

    /** cache_lru outside any operation: only reference bits change. */
    method Victim() returns (k: nat)
      requires Valid()
      modifies aux
      ensures Valid() && k < SLOTS && forall i | 0 <= i < k :: aux[i].present
      ensures forall i | 0 <= i < SLOTS :: aux[i].present == old(aux[i].present) && aux[i].sector == old(aux[i].sector)
    {
      assert SlotOk(aux[..][0], 0, |disk|);
      k := Lru();
      AccessedIrrelevant(old(Contents()), Contents(), logical);
    }

    /** cache_evict, for a sector that no slot holds. */
    method Evict(ghost index: nat) returns (k: nat)
      requires Valid() && index < |disk|
      requires forall i | 0 <= i < SLOTS && aux[i].present :: aux[i].sector != index
      modifies aux, this`disk
      ensures Shape() && k < SLOTS && aux[k].pinned == 0 && !aux[k].present
      ensures Unread(Contents().(aux := aux[..][k := aux[k].(pinned := 1)]), logical, k, index)
    {
      assert SlotOk(aux[..][0], 0, |disk|);
      k := Victim();
      assert SlotOk(aux[..][k], k, |disk|);
      DumpEntry(k);
      ghost var m := Contents();
      assert forall i | 0 <= i < SLOTS :: m.aux[i] == aux[i];
      Vacate(m, logical, k, index);
      aux[k] := aux[k].(present := false);
      assert aux[..][k := aux[k].(pinned := 1)] == m.aux[k := m.aux[k].(present := false, pinned := 1)];
    }

    /** The lookup loop of cache_atomic_get_supl_data_and_pin: it compares sector
        numbers only.  Whatever it returns, no other used slot holds the sector. */
    method Lookup(index: nat) returns (found: bool, k: nat)
      requires Valid()
      ensures found ==> k < SLOTS && aux[k].sector == index && forall i | 0 <= i < k :: aux[i].present
      ensures forall i | 0 <= i < SLOTS && aux[i].present && aux[i].sector == index :: found && i == k
    {
      k := 0;
      while k < SLOTS
        invariant k <= SLOTS
        invariant forall i | 0 <= i < k :: aux[i].sector != index
      {
        if aux[k].sector == index {
          assert forall i | 0 <= i < SLOTS :: SlotOk(aux[i], i, |disk|) && aux[i] == Contents().aux[i];
          return true, k;
        }
        k := k + 1;
      }
      found := false;
    }

    /** cache_atomic_get_supl_data_and_pin */
    method Pin(index: nat) returns (k: nat, info: Supl)
      requires Valid() && index < |disk|
      modifies aux, this`disk
      ensures Shape() && Pinned(Contents(), logical, k, index)
      ensures info == aux[k]
      ensures info.present ==>
                info.sector == index && info.dataIndex == k && Filled(Contents(), logical, k, index, info.dirty)
      ensures !info.present ==> Unread(Contents(), logical, k, index)
    {
      var found;
      found, k := Lookup(index);
      if found {
        ghost var m := Contents();
        assert forall i | 0 <= i < SLOTS :: m.aux[i] == aux[i] && SlotOk(m.aux[i], i, |disk|);
        TakeSlot(m, logical, k, index);
        aux[k] := aux[k].(pinned := aux[k].pinned + 1);
        RestIgnoresSlot(m, Contents(), logical, logical, k, index);
      } else {
        k := Evict(index);
        ghost var before := aux[..];
        aux[k] := aux[k].(pinned := aux[k].pinned + 1);
        assert aux[..] == before[k := before[k].(pinned := 1)];
      }
      info := aux[k];
    }

    /** cache_atomic_set_supl_data_and_unpin */
    method Unpin(k: nat, info: Supl, ghost index: nat)
      requires Shape() && Filled(Contents(), logical, k, index, info.dirty)
      requires info.present && info.sector == index && info.dataIndex == k && info.pinned == 1
      modifies aux
      ensures Valid()
    {
      assert aux[k].pinned == 1;
      Settle(Contents(), logical, k, index, info.(pinned := 0));
      ghost var before := aux[..];
      aux[k] := info;
      aux[k] := aux[k].(pinned := aux[k].pinned - 1);
      assert aux[..] == before[k := info.(pinned := 0)];
    }

    /** cache_read_internal: fills a slot from the device. */
    method Fill(k: nat, index: nat)
      requires Shape() && Unread(Contents(), logical, k, index)
      modifies data
      ensures Filled(Contents(), logical, k, index, false)
    {
      ghost var m := Contents();
      data[k] := disk[index];
      RestIgnoresSlot(m, Contents(), logical, logical, k, index);
    }

    /** The common first half of cache_read and cache_write: pin a slot for the
        sector and, on a miss, read the sector into it. */
    method Fetch(index: nat, dumps: Schedule) returns (k: nat, info: Supl)
      requires Valid() && index < |disk| && ValidSchedule(dumps)
      modifies aux, data, this`disk
      ensures Shape() && Filled(Contents(), logical, k, index, info.dirty)
      ensures info.present && info.sector == index && info.dataIndex == k && info.pinned == 1
    {
      k, info := Pin(index);
      DumpSome(dumps.afterPin, k, index, info.dirty);
      if !info.present {
        Fill(k, index);
        info := info.(present := true, dataIndex := k, sector := index, dirty := false);
      }
      DumpSome(dumps.afterFill, k, index, info.dirty);
    }

    /** cache_read: returns the logical bytes, whatever the dump thread does. */
    method ReadSector(index: nat, offset: nat, size: nat, dumps: Schedule) returns (bytes: seq<Byte>)
      requires Valid() && ValidOp(Op.Read(index, offset, size), |disk|) && ValidSchedule(dumps)
      modifies aux, data, this`disk
      ensures Valid()
      ensures bytes == PlainOutput(logical, Op.Read(index, offset, size))
      ensures |bytes| == size && forall i | 0 <= i < size :: bytes[i] == logical[index][offset + i]
    {
      var k, info := Fetch(index, dumps);
      info := info.(accessed := true);
      bytes := data[info.dataIndex][offset..offset + size];
      DumpSome(dumps.afterCopy, k, index, info.dirty);
      Unpin(k, info, index);
    }

    /** memcpy into the pinned slot: the moment at which the logical disk changes. */
    method CopyIn(k: nat, index: nat, offset: nat, bytes: seq<Byte>, ghost dirty: bool)
      requires Shape() && Filled(Contents(), logical, k, index, dirty) && offset + |bytes| <= 512
      modifies data, this`logical
      ensures Filled(Contents(), logical, k, index, true)
      ensures logical == PlainStep(old(logical), Op.Write(index, offset, bytes))
    {
      ghost var m, l := Contents(), logical;
      data[k] := Patch(data[k], offset, bytes);
      logical := logical[index := Patch(logical[index], offset, bytes)];
      RestIgnoresSlot(m, Contents(), l, logical, k, index);
    }

    /** cache_write */
    method WriteSector(index: nat, offset: nat, bytes: seq<Byte>, dumps: Schedule)
      requires Valid() && ValidOp(Op.Write(index, offset, bytes), |disk|) && ValidSchedule(dumps)
      modifies aux, data, this
      ensures Valid()
      ensures logical == PlainStep(old(logical), Op.Write(index, offset, bytes))
      ensures SectorWritten(old(logical), logical, index, offset, bytes)
    {
      assert SectorWritten(logical, PlainStep(logical, Op.Write(index, offset, bytes)), index, offset, bytes) by {
        SectorWriteExact(logical, index, offset, bytes);
      }
      var k, info := Fetch(index, dumps);
      ghost var dirty := info.dirty;
      info := info.(dirty := true, accessed := true);
      CopyIn(info.dataIndex, index, offset, bytes, dirty);
      DumpSome(dumps.afterCopy, k, index, info.dirty);
      Unpin(k, info, index);
    }

    /** Dump steps taken while no operation is under way. */
    method DumpIdle(js: seq<nat>)
      requires Valid() && ValidSlots(js)
      modifies aux, this`disk
      ensures Valid()
    {
      for n := 0 to |js|
        invariant Valid()
      {
        assert js[n] in js && SlotOk(aux[..][js[n]], js[n], |disk|);
        DumpEntry(js[n]);
      }
    }

    /** Any run of one client against any schedule of dump steps returns what a plain
        disk would return, and dumping everything at the end puts that disk on the
        device. */
    method Run(ops: seq<Op>, dumps: seq<Schedule>) returns (outs: seq<seq<Byte>>)
      requires Valid() && |ops| == |dumps|
      requires forall op | op in ops :: ValidOp(op, |disk|)
      requires forall d | d in dumps :: ValidSchedule(d)
      modifies aux, data, this
      ensures Valid()
      ensures outs == PlainRun(old(logical), ops).1
      ensures disk == logical == PlainRun(old(logical), ops).0
      ensures |outs| == |ops|
      ensures forall n, i, j | 0 <= n < |ops| && 0 <= i :: ReadFinds(old(logical), ops, outs, n, i, j)
    {
      outs := [];
      for n := 0 to |ops|
        invariant Valid() && |logical| == old(|logical|)
        invariant (logical, outs) == PlainRun(old(logical), ops[..n])
      {
        assert ops[n] in ops && dumps[n] in dumps;
        assert ops[..n + 1][..n] == ops[..n];
        DumpIdle(dumps[n].beforePin);
        match ops[n] {
          case Read(index, offset, size) =>
            var bytes := ReadSector(index, offset, size, dumps[n]);
            outs := outs + [bytes];
          case Write(index, offset, bytes) =>
            WriteSector(index, offset, bytes, dumps[n]);
            outs := outs + [[]];
        }
      }
      assert ops[..|ops|] == ops;
      forall n, i, j: int | 0 <= n < |ops| && 0 <= i
        ensures |outs| == |ops| && ReadFinds(old(logical), ops, outs, n, i, j)
      {
        PlainReads(old(logical), ops, n, i, j);
      }
      if |ops| > 0 {
        OutputAt(old(logical), ops, 0);
      }
      DumpAll();
    }
  }
}
