/** How many data blocks are free, and what storing a file leaves of them. */
module NvfsSpace {
  import opened Bytes
  import opened Collections
  import opened NvfsFormat
  import opened NvfsImage
  import opened NvfsVolume
  import opened NvfsContents
  import opened NvfsExtents
  import opened NvfsCommit
  import opened NvfsFiles
  import opened NvfsDriver
  import opened NvfsSlots
  import opened NvfsDirs
  import opened NvfsTable
  import opened NvfsDirAdd

  ghost function FreeSet(v: Vol): set<nat> {
    set b: nat | b < |v.blocks| && b !in v.used
  }

  /** Number of free data blocks. */
  ghost function Room(v: Vol): nat {
    |FreeSet(v)|
  }

  lemma OneFree(v: Vol)
    ensures HasFreeBlock(v) <==> Room(v) >= 1
  {
    if HasFreeBlock(v) {
      var b: nat :| b < |v.blocks| && b !in v.used;
      assert b in FreeSet(v);
    }
    if Room(v) >= 1 {
      var b :| b in FreeSet(v);
    }
  }

  lemma TwoFree(v: Vol)
    ensures TwoFreeBlocks(v) <==> Room(v) >= 2
  {
    var s := FreeSet(v);
    if TwoFreeBlocks(v) {
      var a: nat, b: nat :| a < b < |v.blocks| && a !in v.used && b !in v.used;
      assert a in s && b in s;
      TwoMembers(s, a, b);
    }
    if |s| >= 2 {
      var a, b := PickTwo(s);
      assert a < |v.blocks| && a !in v.used && b < |v.blocks| && b !in v.used;
    }
  }

  lemma TwoMembers(s: set<nat>, a: nat, b: nat)
    requires a in s && b in s && a != b
    ensures |s| >= 2
  {
    SubsetSize({a, b}, s);
  }

  lemma PickTwo(s: set<nat>) returns (a: nat, b: nat)
    requires |s| >= 2
    ensures a in s && b in s && a < b
  {
    var x :| x in s;
    assert |s - {x}| >= 1;
    var y :| y in s - {x};
    a, b := if x < y then x else y, if x < y then y else x;
  }

  /** Storing data takes exactly its number of sectors. */
  lemma PreparedTakes(v: Vol, w: Vol, n: Inode, m: Inode, data: seq<byte>)
    requires Prepared(v, w, n, m, data)
    ensures Room(w) + SectorsFor(|data|) == Room(v)
  {
    hide SectorsFor;
    if data != [] {
      var start: u32 :| PreparedAt(v, w, n, m, data, start);
      var k := SectorsFor(|data|);
      Sectors(|data|);
      RunSize(start, k);
      assert FreeSet(w) == FreeSet(v) - RunSet(start, k);
      SubsetSize(RunSet(start, k), FreeSet(v));
    } else {
      Sectors(0);
    }
  }

  lemma Sectors(n: nat)
    ensures SectorsFor(n) > 0 <==> n > 0
  {}

  lemma SwitchFree(v: Vol, i: nat, m: Inode)
    requires i < |v.inodes|
    ensures Room(Switch(v, i, m)) == Room(v)
  {
    assert FreeSet(Switch(v, i, m)) == FreeSet(v);
  }

  ghost predicate HasFreeInode(v: Vol) {
    exists i: nat :: FreeInode(v, i)
  }

  /** Bits beyond the end of the drive are as before. */
  ghost predicate SpareSame(v: Vol, w: Vol) {
    |w.blocks| == |v.blocks| && forall b: nat :: b >= |v.blocks| ==> (b in w.used <==> b in v.used)
  }

  lemma PreparedSpare(v: Vol, w: Vol, n: Inode, m: Inode, data: seq<byte>)
    requires Prepared(v, w, n, m, data)
    ensures SpareSame(v, w)
  {
    hide SectorsFor;
    if data != [] {
      var start: u32 :| PreparedAt(v, w, n, m, data, start);
    }
  }

  lemma RoomFree(v: Vol)
    ensures HasFreeBlock(v) <==> Room(v) > 0
  {
    if HasFreeBlock(v) {
      var b: nat :| b < |v.blocks| && b !in v.used;
      assert b in FreeSet(v);
    }
    if Room(v) > 0 {
      var b :| b in FreeSet(v);
    }
  }

  /** Why a creation fails: no inode, no run for the data, a name that is taken, or a directory that
      cannot grow once the data is stored. */
  ghost function CreateError(g: Geo, v: Vol, dir: nat, key: Name, data: seq<byte>): int {
    if !HasFreeInode(v) then ERR_NO_INODE
    else if data != [] && !Fits(v, SectorsFor(|data|)) then ERR_NO_SPACE
    else if dir < |v.inodes| && key in Entries(Table(v, dir)) then ERR_EXISTS
    else if Room(v) == SectorsFor(|data|) && Spare(g, v) then ERR_IO
    else ERR_NO_SPACE
  }

  /** The error of dir_add after the data is stored, foretold. */
  lemma ErrorForetold(g: Geo, v: Vol, w: Vol, dir: nat, key: Name, data: seq<byte>)
    requires HasFreeInode(v) && (data == [] || Fits(v, SectorsFor(|data|))) && IsDir(v, dir) && IsDir(w, dir)
    requires Table(w, dir) == Table(v, dir) && Room(w) + SectorsFor(|data|) == Room(v) && SpareSame(v, w)
    ensures AddError(g, w, dir, key) == CreateError(g, v, dir, key, data)
  {
    hide Room, Table, Entries, Fits, SectorsFor, HasFreeInode, HasFreeBlock;
    RoomFree(w);
    assert Spare(g, w) <==> Spare(g, v);
  }

  /** A new object with these contents can be stored and listed in the directory: there is an
      inode, a run for the data, and a slot or, behind the data, the blocks for one more. */
  ghost predicate Creatable(v: Vol, dir: nat, data: seq<byte>) {
    && HasFreeInode(v) && (data == [] || Fits(v, SectorsFor(|data|))) && dir < |v.inodes|
    && (HasSlot(v, dir)
        || Room(v) >= SectorsFor(|data|) + (if v.inodes[dir].extentCount == DIRECT_EXTENTS then 2 else 1))
  }

  /** What dir_add finds after the data is stored. */
  lemma GrowsAfter(v: Vol, w: Vol, dir: nat, k: nat)
    requires dir < |v.inodes| && dir < |w.inodes| && w.inodes[dir] == v.inodes[dir] && Room(w) + k == Room(v)
    ensures Growable(w, dir) <==> Room(v) >= k + (if v.inodes[dir].extentCount == DIRECT_EXTENTS then 2 else 1)
  {
    OneFree(w);
    TwoFree(w);
  }

  /** Whether dir_add will succeed, foretold before the data is stored. */
  lemma Foretold(v: Vol, w: Vol, dir: nat, data: seq<byte>)
    requires dir < |v.inodes| && dir < |w.inodes| && w.inodes[dir] == v.inodes[dir]
    requires Room(w) + SectorsFor(|data|) == Room(v)
    requires HasSlot(w, dir) <==> HasSlot(v, dir)
    requires HasFreeInode(v) && (data == [] || Fits(v, SectorsFor(|data|)))
    ensures Creatable(v, dir, data) <==> HasSlot(w, dir) || Growable(w, dir)
  {
    hide HasSlot, Growable, Room, SectorsFor, Fits;
    GrowsAfter(v, w, dir, SectorsFor(|data|));
  }

  lemma CreatableNeeds(v: Vol, dir: nat, data: seq<byte>)
    ensures Creatable(v, dir, data) ==> HasFreeInode(v) && (data == [] || Fits(v, SectorsFor(|data|)))
  {}
}
