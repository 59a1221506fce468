/** File contents on top of the buffer cache (filesys/inode.c, fixed-length files):
    reads and writes are cut into chunks that stay inside one sector. */
module Inodes {
  import opened Storage
  import opened BufferCache

  const INODE_MAGIC: nat := 0x494e4f44

  /** struct inode: start sector and byte length as read from disk, and the
      in-memory deny-write count. */
  datatype Inode = Inode(start: nat, length: nat, denyWriteCnt: nat)

  function SectorsFor(length: nat): nat {
    (length + 511) / 512
  }

  /** The sectors of a file hold it, and one fewer would not. */
  lemma SectorsExact(length: nat)
    ensures 512 * (SectorsFor(length) - 1) < length <= 512 * SectorsFor(length)
  {
  }

  predicate Fits(inode: Inode, sectors: nat) {
    inode.start + SectorsFor(inode.length) <= sectors
  }

  /** byte_to_sector, for positions inside the file. */
  function ByteToSector(inode: Inode, pos: nat): nat
    requires pos < inode.length
  {
    inode.start + pos / 512
  }

  /** Byte p of the device seen as one long array. */
  function DeviceByte(disk: seq<Sector>, p: nat): Byte
    requires p < 512 * |disk|
  {
    disk[p / 512][p % 512]
  }

  /** The flat contents of a file. */
  function FileBytes(disk: seq<Sector>, inode: Inode): (s: seq<Byte>)
    requires Fits(inode, |disk|)
    ensures |s| == inode.length
  {
    seq<Byte>(inode.length, i requires 0 <= i < inode.length => DeviceByte(disk, 512 * inode.start + i))
  }

  /** How many bytes a transfer of `size` bytes at `offset` moves: as many as were asked
      for and are in the file, and never fewer. */
  function Transferred(inode: Inode, size: int, offset: nat): (r: nat)
    ensures r > 0 ==> r <= size && offset + r <= inode.length
    ensures size > 0 && offset < inode.length ==> r == size || offset + r == inode.length
  {
    if size <= 0 || offset >= inode.length then 0
    else if size < inode.length - offset then size
    else inode.length - offset
  }

  /** `after` is `before` with `bytes` stored at device position `at` and every other
      byte of the device as it was. */
  ghost predicate Overwritten(before: seq<Sector>, after: seq<Sector>, at: nat, bytes: seq<Byte>) {
    && |before| == |after|
    && forall p: nat | p < 512 * |before| ::
         DeviceByte(after, p) == if at <= p < at + |bytes| then bytes[p - at] else DeviceByte(before, p)
  }

  lemma ChunkOverwrites(disk: seq<Sector>, index: nat, offset: nat, bytes: seq<Byte>)
    requires index < |disk| && offset + |bytes| <= 512
    ensures Overwritten(disk, PlainStep(disk, Op.Write(index, offset, bytes)), 512 * index + offset, bytes)
  {
    var after := PlainStep(disk, Op.Write(index, offset, bytes));
    var at := 512 * index + offset;
    forall p: nat | p < 512 * |disk|
      ensures DeviceByte(after, p) == if at <= p < at + |bytes| then bytes[p - at] else DeviceByte(disk, p)
    {
      if p / 512 == index {
        assert p % 512 == p - 512 * index;
      }
    }
  }

  lemma OverwrittenExtend(a: seq<Sector>, b: seq<Sector>, c: seq<Sector>, at: nat, buffer: seq<Byte>, done: nat, n: nat)
    requires done + n <= |buffer|
    requires Overwritten(a, b, at, buffer[..done]) && Overwritten(b, c, at + done, buffer[done..done + n])
    ensures Overwritten(a, c, at, buffer[..done + n])
  {
  }

  /** Effect of an overwrite on the file it was aimed at. */
  lemma OverwriteInFile(before: seq<Sector>, after: seq<Sector>, inode: Inode, offset: nat, bytes: seq<Byte>)
    requires Fits(inode, |before|) && offset + |bytes| <= inode.length
    requires Overwritten(before, after, 512 * inode.start + offset, bytes)
    ensures FileBytes(after, inode) ==
            FileBytes(before, inode)[..offset] + bytes + FileBytes(before, inode)[offset + |bytes|..]
  {
    var f, g := FileBytes(before, inode), FileBytes(after, inode);
    forall i | 0 <= i < inode.length ensures g[i] == (f[..offset] + bytes + f[offset + |bytes|..])[i] {
      assert g[i] == DeviceByte(after, 512 * inode.start + i);
    }
  }

  /** Effect on any file that shares no sector with it: none. */
  lemma OverwriteOutsideFile(before: seq<Sector>, after: seq<Sector>, inode: Inode, other: Inode, offset: nat,
                             bytes: seq<Byte>)
    requires Fits(inode, |before|) && Fits(other, |before|) && offset + |bytes| <= inode.length
    requires other.start + SectorsFor(other.length) <= inode.start ||
             inode.start + SectorsFor(inode.length) <= other.start
    requires Overwritten(before, after, 512 * inode.start + offset, bytes)
    ensures FileBytes(after, other) == FileBytes(before, other)
  {
    forall i | 0 <= i < other.length ensures FileBytes(after, other)[i] == FileBytes(before, other)[i] {
      assert FileBytes(after, other)[i] == DeviceByte(after, 512 * other.start + i);
    }
  }

  /** Size of the next chunk: it stays inside the sector, the file and the request. */
  function ChunkSize(inode: Inode, size: int, offset: nat): int {
    var inodeLeft := inode.length - offset;
    var sectorLeft := 512 - offset % 512;
    var minLeft := if inodeLeft < sectorLeft then inodeLeft else sectorLeft;
    if size < minLeft then size else minLeft
  }

  /** The chunks add up to Transferred. */
  lemma ChunkProgress(inode: Inode, size0: int, offset0: nat, done: nat)
    requires done <= Transferred(inode, size0, offset0) && done < size0
    ensures var n := ChunkSize(inode, size0 - done, offset0 + done);
            && (n <= 0 <==> done == Transferred(inode, size0, offset0))
            && done + n <= Transferred(inode, size0, offset0)
            && (n > 0 ==> offset0 + done + n <= inode.length && (offset0 + done) % 512 + n <= 512)
  {
  }

  lemma ChunkInRange(inode: Inode, sectors: nat, offset: nat)
    requires Fits(inode, sectors) && offset < inode.length
    ensures ByteToSector(inode, offset) < sectors
  {
  }

  lemma ChunkOfFile(disk: seq<Sector>, inode: Inode, offset: nat, n: nat)
    requires Fits(inode, |disk|) && offset + n <= inode.length && offset % 512 + n <= 512 && n > 0
    ensures disk[inode.start + offset / 512][offset % 512..offset % 512 + n] ==
            FileBytes(disk, inode)[offset..offset + n]
  {
    var lhs := disk[inode.start + offset / 512][offset % 512..offset % 512 + n];
    var rhs := FileBytes(disk, inode)[offset..offset + n];
    forall i | 0 <= i < n ensures lhs[i] == rhs[i] {
      var p := 512 * inode.start + offset + i;
      assert p == 512 * (inode.start + offset / 512) + (offset % 512 + i);
      assert p / 512 == inode.start + offset / 512 && p % 512 == offset % 512 + i;
      assert rhs[i] == FileBytes(disk, inode)[offset + i] == DeviceByte(disk, p);
    }
  }

  /** The file bytes that a transfer can reach. */
  function Slice(disk: seq<Sector>, inode: Inode, offset: nat, n: nat): seq<Byte>
    requires Fits(inode, |disk|)
  {
    if offset + n <= inode.length then FileBytes(disk, inode)[offset..offset + n] else []
  }

  lemma SliceExtend(disk: seq<Sector>, inode: Inode, offset: nat, n: nat, m: nat)
    requires Fits(inode, |disk|) && offset + n + m <= inode.length
    ensures Slice(disk, inode, offset, n) + Slice(disk, inode, offset + n, m) == Slice(disk, inode, offset, n + m)
  {
  }

  /** One round of the read loop. */
  method ReadChunk(cache: Cache, inode: Inode, size: int, offset: nat, dumps: Schedule) returns (chunk: seq<Byte>)
    requires cache.Valid() && Fits(inode, |cache.disk|) && ValidSchedule(dumps)
    requires size > 0
    modifies cache.aux, cache.data, cache`disk
    ensures cache.Valid()
    ensures |chunk| == if ChunkSize(inode, size, offset) > 0 then ChunkSize(inode, size, offset) else 0
    ensures chunk == Slice(cache.logical, inode, offset, |chunk|)
  {
    var chunkSize := ChunkSize(inode, size, offset);
    if chunkSize <= 0 {
      return [];
    }
    ChunkInRange(inode, |cache.disk|, offset);
    ChunkOfFile(cache.logical, inode, offset, chunkSize);
    chunk := cache.ReadSector(ByteToSector(inode, offset), offset % 512, chunkSize, dumps);
  }

  /** inode_read_at: exactly the requested slice of the flat contents. */
  method ReadAt(cache: Cache, inode: Inode, size0: int, offset0: nat, dumps: nat -> Schedule) returns (bytes: seq<Byte>)
    requires cache.Valid() && Fits(inode, |cache.disk|) && forall n :: ValidSchedule(dumps(n))
    modifies cache.aux, cache.data, cache`disk
    ensures cache.Valid()
    ensures |bytes| == Transferred(inode, size0, offset0)
    ensures bytes == Slice(cache.logical, inode, offset0, |bytes|)
  {
    var size, offset := size0, offset0;
    bytes := [];
    ghost var disk := cache.logical;
    while size > 0
      invariant cache.Valid() && cache.logical == disk
      invariant offset == offset0 + |bytes| && size == size0 - |bytes|
      invariant |bytes| <= Transferred(inode, size0, offset0)
      invariant bytes == Slice(disk, inode, offset0, |bytes|)
    {
      ChunkProgress(inode, size0, offset0, |bytes|);
      var chunk := ReadChunk(cache, inode, size, offset, dumps(|bytes|));
      if chunk == [] {
        break;
      }
      SliceExtend(disk, inode, offset0, |bytes|, |chunk|);
      bytes := bytes + chunk;
      size := size - |chunk|;
      offset := offset + |chunk|;
    }
  }

  /** One round of the write loop. */
  method WriteChunk(cache: Cache, inode: Inode, buffer: seq<Byte>, done: nat, size: int, offset: nat, dumps: Schedule)
    returns (n: nat)
    requires cache.Valid() && Fits(inode, |cache.disk|) && ValidSchedule(dumps)
    requires 0 < size && done + size <= |buffer|
    modifies cache, cache.aux, cache.data
    ensures cache.Valid()
    ensures n == if ChunkSize(inode, size, offset) > 0 then ChunkSize(inode, size, offset) else 0
    ensures Overwritten(old(cache.logical), cache.logical, 512 * inode.start + offset, buffer[done..done + n])
  {
    var chunkSize := ChunkSize(inode, size, offset);
    if chunkSize <= 0 {
      return 0;
    }
    n := chunkSize;
    ChunkInRange(inode, |cache.disk|, offset);
    var sector, chunk := ByteToSector(inode, offset), buffer[done..done + n];
    assert 512 * sector + offset % 512 == 512 * inode.start + offset;
    ChunkOverwrites(cache.logical, sector, offset % 512, chunk);
    cache.WriteSector(sector, offset % 512, chunk, dumps);
  }

  lemma OverwrittenNothing(disk: seq<Sector>, at: nat, buffer: seq<Byte>)
    ensures Overwritten(disk, disk, at, buffer[..0])
  {
  }

  /** One turn of inode_write_at's loop, seen from the start of the call. */
  method WriteNext(cache: Cache, inode: Inode, buffer: seq<Byte>, done: nat, size: int, offset: nat, dumps: Schedule,
                   ghost start: seq<Sector>) returns (n: nat)
    requires cache.Valid() && Fits(inode, |cache.disk|) && ValidSchedule(dumps)
    requires 0 < size && done + size <= |buffer| && done <= offset
    requires Overwritten(start, cache.logical, 512 * inode.start + offset - done, buffer[..done])
    modifies cache, cache.aux, cache.data
    ensures cache.Valid()
    ensures n == if ChunkSize(inode, size, offset) > 0 then ChunkSize(inode, size, offset) else 0
    ensures done + n <= |buffer|
    ensures Overwritten(start, cache.logical, 512 * inode.start + offset - done, buffer[..done + n])
  {
    ghost var before := cache.logical;
    n := WriteChunk(cache, inode, buffer, done, size, offset, dumps);
    OverwrittenExtend(start, before, cache.logical, 512 * inode.start + offset - done, buffer, done, n);
  }

  /** inode_write_at: stores the first Transferred(...) bytes of the buffer (none if
      writes are denied) and touches no other byte of the device. */
  method WriteAt(cache: Cache, inode: Inode, buffer: seq<Byte>, size0: int, offset0: nat, dumps: nat -> Schedule)
    returns (written: nat)
    requires cache.Valid() && Fits(inode, |cache.disk|) && forall n :: ValidSchedule(dumps(n))
    requires size0 <= |buffer|
    modifies cache, cache.aux, cache.data
    ensures cache.Valid()
    ensures written == if inode.denyWriteCnt > 0 then 0 else Transferred(inode, size0, offset0)
    ensures Overwritten(old(cache.logical), cache.logical, 512 * inode.start + offset0, buffer[..written])
  {
    written := 0;
    OverwrittenNothing(cache.logical, 512 * inode.start + offset0, buffer);
    if inode.denyWriteCnt > 0 {
      return;
    }
    var size, offset := size0, offset0;
    while size > 0
      invariant cache.Valid() && |cache.logical| == |old(cache.logical)|
      invariant offset == offset0 + written && size == size0 - written
      invariant written <= Transferred(inode, size0, offset0)
      invariant Overwritten(old(cache.logical), cache.logical, 512 * inode.start + offset0, buffer[..written])
    {
      ChunkProgress(inode, size0, offset0, written);
      var n := WriteNext(cache, inode, buffer, written, size, offset, dumps(written), old(cache.logical));
      if n == 0 {
        break;
      }
      written := written + n;
      size := size - n;
      offset := offset + n;
    }
  }

  // ---------------------------------------------------------------------------
  // Creating and opening
  // ---------------------------------------------------------------------------

  type Word = w: int | 0 <= w < 0x1_0000_0000

  /** A 32-bit word in memory order. */
  function WordBytes(w: Word): (s: seq<Byte>)
    ensures |s| == 4
  {
    [w % 256, w / 256 % 256, w / 65536 % 256, w / 16777216]
  }

  function WordAt(s: Sector, i: nat): Word
    requires i + 4 <= 512
  {
    s[i] as int + 256 * (s[i + 1] as int) + 65536 * (s[i + 2] as int) + 16777216 * (s[i + 3] as int)
  }

  function Zeros(): Sector {
    seq(512, _ => 0)
  }

  /** struct inode_disk as one sector: start, length, 124 unused words, the parent
      directory's sector, the magic number. */
  function DiskInode(start: Word, length: Word, parent: Word): Sector {
    WordBytes(start) + WordBytes(length) + Zeros()[..496] + WordBytes(parent) + WordBytes(INODE_MAGIC)
  }

  /** What inode_open makes of the sector it reads. */
  function OpenedInode(s: Sector): Inode {
    Inode(WordAt(s, 0), WordAt(s, 4), 0)
  }

  lemma BytesOfWord(w: Word)
    ensures w == w % 256 + 256 * (w / 256 % 256) + 65536 * (w / 65536 % 256) + 16777216 * (w / 16777216)
  {
    var a := w / 256;
    var b := a / 256;
    assert w == 256 * a + w % 256;
    assert a == 256 * b + a % 256;
    assert b == w / 65536 && b / 256 == w / 16777216;
  }

  lemma WordRoundTrip(s: Sector, i: nat, w: Word)
    requires i + 4 <= 512 && s[i..i + 4] == WordBytes(w)
    ensures WordAt(s, i) == w
  {
    var t := s[i..i + 4];
    assert s[i] == t[0] && s[i + 1] == t[1] && s[i + 2] == t[2] && s[i + 3] == t[3];
    BytesOfWord(w);
  }

  /** Opening undoes creating. */
  lemma OpenAfterCreate(start: Word, length: Word, parent: Word)
    ensures OpenedInode(DiskInode(start, length, parent)) == Inode(start, length, 0)
  {
    var s := DiskInode(start, length, parent);
    assert s[0..4] == WordBytes(start) && s[4..8] == WordBytes(length);
    WordRoundTrip(s, 0, start);
    WordRoundTrip(s, 4, length);
  }

  datatype Allocation = NoSpace | Space(start: Word)

  /** `after` is `before` with the inode written and the file's sectors zeroed. */
  ghost predicate Created(before: seq<Sector>, after: seq<Sector>, sector: nat, inode: Sector, start: nat, count: nat) {
    && |after| == |before|
    && forall i | 0 <= i < |before| ::
         after[i] == if start <= i < start + count then Zeros() else if i == sector then inode else before[i]
  }

  lemma CreatedStep(start: seq<Sector>, before: seq<Sector>, after: seq<Sector>, sector: nat, inode: Sector,
                    first: nat, i: nat)
    requires Created(start, before, sector, inode, first, i) && first + i < |before|
    requires after == PlainStep(before, Op.Write(first + i, 0, Zeros()))
    ensures Created(start, after, sector, inode, first, i + 1)
  {
    assert after[first + i] == Zeros();
  }

  /** inode_create.  `memory` and `space` are the answers of calloc and of the free
      map, whose sectors are unused and distinct from the inode's own. */
  method Create(cache: Cache, sector: nat, length: nat, parent: Word, memory: bool, space: Allocation,
                dumps: nat -> Schedule)
    returns (success: bool)
    requires cache.Valid() && sector < |cache.disk| && length < 0x8000_0000 && forall n :: ValidSchedule(dumps(n))
    requires space.Space? ==> Fits(Inode(space.start, length, 0), |cache.disk|)
    requires space.Space? ==> !(space.start <= sector < space.start + SectorsFor(length))
    modifies cache, cache.aux, cache.data
    ensures cache.Valid()
    ensures success <==> memory && space.Space?
    ensures !success ==> cache.logical == old(cache.logical)
    ensures success ==>
              Created(old(cache.logical), cache.logical, sector, DiskInode(space.start, length, parent),
                      space.start, SectorsFor(length))
    ensures 512 * (SectorsFor(length) - 1) < length <= 512 * SectorsFor(length)
  {
    success := false;
    if memory && space.Space? {
      var sectors := SectorsFor(length);
      var inode := DiskInode(space.start, length, parent);
      cache.WriteSector(sector, 0, inode, dumps(0));
      for i := 0 to sectors
        invariant cache.Valid()
        invariant Created(old(cache.logical), cache.logical, sector, inode, space.start, i)
      {
        ghost var before := cache.logical;
        cache.WriteSector(space.start + i, 0, Zeros(), dumps(1 + i));
        CreatedStep(old(cache.logical), before, cache.logical, sector, inode, space.start, i);
      }
      success := true;
    }
  }

  /** A freshly created file opens with the requested length and reads as zeros. */
  lemma CreatedFile(before: seq<Sector>, after: seq<Sector>, sector: nat, start: Word, length: Word, parent: Word)
    requires sector < |before| && Fits(Inode(start, length, 0), |before|)
    requires !(start <= sector < start + SectorsFor(length))
    requires Created(before, after, sector, DiskInode(start, length, parent), start, SectorsFor(length))
    ensures OpenedInode(after[sector]) == Inode(start, length, 0)
    ensures forall i | 0 <= i < length :: FileBytes(after, Inode(start, length, 0))[i] == 0
  {
    OpenAfterCreate(start, length, parent);
    forall i | 0 <= i < length ensures FileBytes(after, Inode(start, length, 0))[i] == 0 {
      var p := 512 * start + i;
      assert p / 512 == start + i / 512;
      assert FileBytes(after, Inode(start, length, 0))[i] == DeviceByte(after, p);
    }
  }

  /** The part of inode_open that reads the on-disk inode. */
  method Open(cache: Cache, sector: nat, dumps: Schedule) returns (inode: Inode)
    requires cache.Valid() && sector < |cache.disk| && ValidSchedule(dumps)
    modifies cache.aux, cache.data, cache`disk
    ensures cache.Valid()
    ensures inode == OpenedInode(cache.logical[sector])
  {
    var bytes := cache.ReadSector(sector, 0, 512, dumps);
    assert bytes == cache.logical[sector];
    inode := OpenedInode(bytes);
  }
}
