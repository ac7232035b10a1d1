/** The lower half of kernel/drivers/nvfs.c: sector, bitmap, inode and extent
    access on a mounted drive.  `vol` mirrors the drive; `trail` records the volume
    after every completed sector write, so a power cut leaves one of its entries. */
module NvfsDriver {
  import opened Bytes
  import opened NvfsFormat
  import opened NvfsImage
  import opened NvfsVolume

  const ERR_NOT_FOUND := 1
  const ERR_NOT_DIR := 2
  const ERR_NOT_FILE := 3
  const ERR_DIR_BUSY := 4
  const ERR_NO_SPACE := 5
  const ERR_NO_INODE := 6
  const ERR_EXISTS := 7
  const ERR_IO := 8
  const ERR_NO_MOUNT := 9
  const ERR_PATH := 10

  lemma UsedIff(g: Geo, d: Image, b: nat)
    requires GeoOk(g, |d|)
    ensures b in View(g, d).used <==> b < Bits(g) && Used(g, d, b)
  {}

  /** No block of s..s+count is marked. */
  ghost predicate FreeRun(v: Vol, s: nat, count: nat) {
    forall b: nat :: s <= b < s + count ==> b !in v.used
  }

  class Drive {
    const geo: Geo
    var disk: Image
    var errno: int
    /** The disk after each sector write: what a power cut leaves. */
    var history: seq<Image>
    ghost var vol: Vol
    ghost var trail: seq<Vol>
    /** The disk when it was mounted. */
    ghost const boot: Image

    /** A drive mounted with the given geometry; nothing has been written yet. */
    constructor (geo: Geo, disk: Image)
      requires GeoOk(geo, |disk|)
      ensures Valid() && Logged() && this.geo == geo && this.disk == disk && trail == [] && boot == disk
    {
      this.geo, this.disk, errno, history := geo, disk, 0, [];
      vol, trail, boot := View(geo, disk), [], disk;
    }

    ghost predicate Valid()
      reads this`disk, this`vol
    {
      GeoOk(geo, |disk|) && vol == View(geo, disk)
    }

    /** The trail shows the images of the history, and nothing has touched the sectors before the
        bitmap, in which the superblock lies. */
    ghost predicate Logged()
      reads this`disk, this`vol, this`history, this`trail
    {
      && Valid() && SameHead(geo, boot, disk) && |history| == |trail|
      && forall k :: 0 <= k < |trail| ==> SameHead(geo, boot, history[k]) && View(geo, history[k]) == trail[k]
    }

    /** The superblock. */
    ghost function Super(): Sector
      reads this`disk
    {
      Sec(disk, geo.offset + 1)
    }

    /** The mirror. */
    lemma Mirrors()
      requires Valid()
      ensures GeoOk(geo, |disk|) && vol == View(geo, disk)
    {
      hide View;
    }

    /** The sizes of the mirrored volume. */
    lemma Sizes()
      requires Valid()
      ensures |vol.blocks| == DataBlocks(geo, |disk|) <= Bits(geo) < 0x8000_0000
      ensures |vol.inodes| == geo.inodeCount > 0 && |vol.inodes| < 0x8000_0000
      ensures forall b :: b in vol.used ==> b < Bits(geo)
    {}

    method ReadSector(lba: nat) returns (ok: bool, buf: Sector)
      ensures ok <==> lba < |disk|
      ensures ok ==> buf == Sec(disk, lba)
    {
      ok := lba < |disk|;
      buf := if ok then disk[lba] else ZeroSector();
    }

    method WriteSector(lba: nat, buf: Sector) returns (ok: bool)
      requires Valid()
      modifies this`disk, this`vol, this`trail, this`history
      ensures Valid()
      ensures old(Logged()) && lba >= geo.offset + geo.bitmapStart ==> Logged()
      ensures ok <==> lba < |disk|
      ensures disk == PutSec(old(disk), lba, buf)
      ensures trail == if ok then old(trail) + [vol] else old(trail)
      ensures !ok ==> vol == old(vol)
    {
      ok := lba < |disk|;
      if ok {
        disk := disk[lba := buf];
        vol := View(geo, disk);
        history, trail := history + [disk], trail + [vol];
      }
    }

    method ReadBlock(block: nat) returns (ok: bool, buf: Sector)
      requires Valid()
      ensures ok <==> block < |vol.blocks|
      ensures ok ==> buf == vol.blocks[block]
    {
      ok, buf := ReadSector(geo.offset + geo.dataStart + block);
    }

    method WriteBlock(block: nat, buf: Sector) returns (ok: bool)
      requires Valid()
      modifies this`disk, this`vol, this`trail, this`history
      ensures old(Logged()) ==> Logged()
      ensures Valid()
      ensures ok <==> block < |old(vol).blocks|
      ensures ok ==> vol == old(vol).(blocks := old(vol).blocks[block := buf]) && trail == old(trail) + [vol]
      ensures !ok ==> vol == old(vol) && trail == old(trail)
      ensures |disk| == |old(disk)| && Super() == old(Super())
    {
      hide View;
      Sizes();
      ghost var d := disk;
      ok := WriteSector(geo.offset + geo.dataStart + block, buf);
      if ok { ViewPutBlock(geo, d, block, buf); }
    }

    /** sb_write_field: one word of the superblock changes, and nothing on the volume. */
    method SbWriteField(offset: nat, val: u32) returns (ok: bool)
      requires Valid() && offset + 4 <= SECTOR_SIZE
      modifies this`disk, this`vol, this`trail, this`history
      ensures Valid() && ok && vol == old(vol) && trail == old(trail) + [vol]
      ensures |disk| == |old(disk)| && Super() == PutU32(old(Super()), offset, val)
    {
      var buf;
      ok, buf := ReadSector(geo.offset + 1);
      if !ok { return; }
      ViewPutSuper(geo, disk, PutU32(buf, offset, val));
      ok := WriteSector(geo.offset + 1, PutU32(buf, offset, val));
    }

    method BitmapTest(block: nat) returns (r: int)
      requires Valid()
      ensures block < Bits(geo) ==> r == if block in vol.used then 1 else 0
    {
      UsedIff(geo, disk, block);
      var ok, buf := ReadSector(geo.offset + geo.bitmapStart + block / BITS_PER_SECTOR);
      if !ok { return -1; }
      var bit := block % BITS_PER_SECTOR;
      r := if Bit(buf[bit / 8], bit % 8) then 1 else 0;
    }

    method BitmapSet(block: nat, on: bool) returns (ok: bool)
      requires Valid() && block < Bits(geo)
      modifies this`disk, this`vol, this`trail, this`history
      ensures old(Logged()) ==> Logged()
      ensures Valid() && ok
      ensures vol == old(vol).(used := if on then old(vol).used + {block} else old(vol).used - {block})
      ensures trail == old(trail) + [vol]
      ensures |disk| == |old(disk)| && Super() == old(Super())
    {
      hide View, UsedSet, Bit, WithBit;
      ViewSetUsed(geo, disk, block, on);
      var bit := block % BITS_PER_SECTOR;
      var buf;
      ok, buf := ReadSector(geo.offset + geo.bitmapStart + block / BITS_PER_SECTOR);
      if !ok { return; }
      var byte8 := WithBit(buf[bit / 8], bit % 8, on);
      assert Pow2(8) == 256;
      ok := WriteSector(geo.offset + geo.bitmapStart + block / BITS_PER_SECTOR, buf[bit / 8 := byte8]);
    }

    /** Is the run that starts at the free bit `start` long enough? */
    method RunIsFree(start: nat, count: nat) returns (free: bool)
      requires Valid() && start < Bits(geo) && start !in vol.used
      ensures free ==> forall b: nat :: start <= b < start + count && b < Bits(geo) ==> b !in vol.used
      ensures start + count <= Bits(geo) && FreeRun(vol, start, count) ==> free
    {
      hide View;
      free := true;
      var j := 1;
      while j < count
        invariant 1 <= j
        invariant forall b: nat :: start <= b < start + j && b < Bits(geo) && b < start + count ==> b !in vol.used
        invariant free
      {
        var r := BitmapTest(start + j);
        if r != 0 { free := false; break; }
        j := j + 1;
      }
    }

    /** The bits of bitmap sector s, whose first block is `base`. */
    method FindInSector(buf: Sector, s: nat, count: nat) returns (r: int)
      requires Valid() && count >= 1 && s < geo.bitmapSectors
      requires buf == Sec(disk, geo.offset + geo.bitmapStart + s)
      ensures r == -1 || BITS_PER_SECTOR * s <= r < BITS_PER_SECTOR * (s + 1)
      ensures r >= 0 ==> forall b: nat :: r <= b < r + count && b < Bits(geo) ==> b !in vol.used
      ensures forall t: nat :: BITS_PER_SECTOR * s <= t < BITS_PER_SECTOR * (s + 1) && t + count <= Bits(geo) ==>
                               FreeRun(vol, t, count) ==> 0 <= r <= t
    {
      hide View;
      var base := s * BITS_PER_SECTOR;
      var b := 0;
      while b < BITS_PER_SECTOR && base + b < Bits(geo)
        invariant 0 <= b <= BITS_PER_SECTOR
        invariant forall t: nat :: base <= t < base + b && t + count <= Bits(geo) ==> !FreeRun(vol, t, count)
      {
        UsedIff(geo, disk, base + b);
        assert (base + b) / BITS_PER_SECTOR == s && (base + b) % BITS_PER_SECTOR == b;
        if Bit(buf[b / 8], b % 8) {
          assert base + b in vol.used;
        } else {
          var free := RunIsFree(base + b, count);
          if free { return base + b; }
        }
        b := b + 1;
      }
      r := -1;
    }

    /** First fit: the lowest free run, or -1. */
    method BitmapFind(count: nat) returns (r: int)
      requires Valid() && count >= 1
      ensures -1 <= r < Bits(geo)
      ensures r >= 0 ==> forall b: nat :: r <= b < r + count && b < Bits(geo) ==> b !in vol.used
      ensures forall s: nat :: s + count <= Bits(geo) && FreeRun(vol, s, count) ==> 0 <= r <= s
    {
      var s := 0;
      while s < geo.bitmapSectors
        invariant s <= geo.bitmapSectors
        invariant forall t: nat :: t < BITS_PER_SECTOR * s && t + count <= Bits(geo) ==> !FreeRun(vol, t, count)
      {
        var ok, buf := ReadSector(geo.offset + geo.bitmapStart + s);
        if !ok { return -1; }
        r := FindInSector(buf, s, count);
        if r >= 0 { return; }
        s := s + 1;
      }
      r := -1;
    }

    method InodeRead(inum: nat) returns (ok: bool, n: Inode)
      requires Valid()
      modifies this`errno
      ensures ok <==> inum < |vol.inodes|
      ensures ok ==> n == vol.inodes[inum] && errno == old(errno)
      ensures !ok ==> errno == ERR_IO
    {
      n := InodeFields(0, 0, 0, 0, 0, 0, NoExtents(), 0);
      if inum >= geo.inodeCount { errno := ERR_IO; return false, n; }
      var buf;
      ok, buf := ReadSector(geo.offset + geo.inodeStart + inum * INODE_SIZE / SECTOR_SIZE);
      var off := inum * INODE_SIZE % SECTOR_SIZE;
      InodePlace(inum);
      if !ok { return; }
      var extentCount := GetU32(buf, off + 8);
      if extentCount > MAX_EXTENTS { extentCount := MAX_EXTENTS; }
      var extents := [];
      for i := 0 to MAX_EXTENTS
        invariant extents == ExtentsFrom(buf, off + 12, i)
      {
        extents := extents + [Extent(GetU32(buf, off + 12 + i * 8), GetU32(buf, off + 12 + i * 8 + 4))];
      }
      n := InodeFields(GetU32(buf, off), buf[off + 4], buf[off + 5], buf[off + 6], buf[off + 7],
                       extentCount, extents, GetU32(buf, off + 124));
    }

    method InodeWrite(inum: nat, n: Inode) returns (ok: bool)
      requires Valid()
      modifies this`disk, this`vol, this`trail, this`history, this`errno
      ensures old(Logged()) ==> Logged()
      ensures Valid()
      ensures ok <==> inum < |old(vol).inodes|
      ensures ok ==> vol == old(vol).(inodes := old(vol).inodes[inum := Clamp(n)]) && trail == old(trail) + [vol]
      ensures !ok ==> vol == old(vol) && trail == old(trail)
      ensures errno == if ok then old(errno) else ERR_IO
    {
      hide View, PutInode;
      Sizes();
      if inum >= geo.inodeCount { errno := ERR_IO; return false; }
      ViewPutNode(geo, disk, inum, n);
      InodePlace(inum);
      var off := inum * INODE_SIZE % SECTOR_SIZE;
      var buf;
      ok, buf := ReadSector(geo.offset + geo.inodeStart + inum * INODE_SIZE / SECTOR_SIZE);
      if !ok { return; }
      var rec := PackInode(buf, off, n);
      ok := WriteSector(geo.offset + geo.inodeStart + inum * INODE_SIZE / SECTOR_SIZE, rec);
    }

    /** extent_load_all fails only on an indirect block off the drive. */
    method ExtentLoadAll(n: Inode) returns (ok: bool, es: seq<Extent>)
      requires Valid() && n.extentCount <= DIRECT_EXTENTS + INDIRECT_ENTS
      ensures ok <==> n.extentCount <= DIRECT_EXTENTS || n.extents[DIRECT_EXTENTS].start < |vol.blocks|
      ensures ok ==> es == ExtentsOf(vol, n)
    {
      if n.extentCount <= DIRECT_EXTENTS {
        return true, n.extents[..n.extentCount];
      }
      es := n.extents[..DIRECT_EXTENTS];
      var ind;
      ok, ind := IndirectReadExtents(n.extents[DIRECT_EXTENTS].start, n.extentCount - DIRECT_EXTENTS);
      es := es + ind;
    }

    method IndirectReadExtents(lba: nat, max: nat) returns (ok: bool, es: seq<Extent>)
      requires Valid()
      ensures ok <==> lba < |vol.blocks|
      ensures ok ==> es == ExtentsFrom(vol.blocks[lba], 0, if max > INDIRECT_ENTS then INDIRECT_ENTS else max)
    {
      es := [];
      var buf;
      ok, buf := ReadBlock(lba);
      if !ok { return; }
      var count := if max > INDIRECT_ENTS then INDIRECT_ENTS else max;
      for i := 0 to count
        invariant es == ExtentsFrom(buf, 0, i)
      {
        es := es + [Extent(GetU32(buf, i * 8), GetU32(buf, i * 8 + 4))];
      }
    }
  }

  function NoExtents(): (es: seq<Extent>)
    ensures |es| == MAX_EXTENTS
  {
    seq(14, _ => Extent(0, 0))
  }

  lemma InodePlace(i: nat)
    ensures i * INODE_SIZE / SECTOR_SIZE == i / 4
    ensures i * INODE_SIZE % SECTOR_SIZE == INODE_SIZE * (i % 4)
  {}

  /** The field-by-field stores of inode_write. */
  method PackInode(buf: Sector, off: nat, n: Inode) returns (rec: Sector)
    requires off + INODE_SIZE <= SECTOR_SIZE
    ensures rec == PutInode(buf, off, n)
  {
    rec := PutU32(buf, off, n.size);
    rec := rec[off + 4 := n.kind][off + 5 := n.c0][off + 6 := n.c1][off + 7 := n.c2];
    rec := PutU32(rec, off + 8, n.extentCount);
    for i := 0 to MAX_EXTENTS
      invariant forall k :: 0 <= k < SECTOR_SIZE ==> rec[k] == Packed(buf, off, n, 12 + 8 * i, k)
    {
      rec := PackExtent(buf, off, n, i, rec);
    }
    rec := PutU32(rec, off + 124, n.mtime);
  }

  method PackExtent(ghost buf: Sector, off: nat, n: Inode, i: nat, was: Sector) returns (rec: Sector)
    requires off + INODE_SIZE <= SECTOR_SIZE && i < MAX_EXTENTS
    requires forall k :: 0 <= k < SECTOR_SIZE ==> was[k] == Packed(buf, off, n, 12 + 8 * i, k)
    ensures forall k :: 0 <= k < SECTOR_SIZE ==> rec[k] == Packed(buf, off, n, 12 + 8 * (i + 1), k)
  {
    rec := PutU32(was, off + 12 + i * 8, n.extents[i].start);
    rec := PutU32(rec, off + 12 + i * 8 + 4, n.extents[i].count);
  }

  /** The sector once the first `done` bytes of the record are stored. */
  ghost function Packed(buf: Sector, off: nat, n: Inode, done: nat, k: nat): byte
    requires off + INODE_SIZE <= SECTOR_SIZE && k < SECTOR_SIZE && done <= INODE_SIZE
  {
    if off <= k < off + done then InodeByte(n, k - off) else buf[k]
  }
}
