/** Directories as tables of 32-byte slots, and the map from names to inodes they stand for. */
module NvfsSlots {
  import opened Bytes
  import opened NvfsFormat

  function SectorSlots(s: Sector, n: nat): (r: seq<Dirent>)
    requires n <= ENTRIES_PER_SECTOR
    ensures |r| == n
    ensures forall e: nat :: e < n ==> r[e] == DirentAt(s, DIRENT_SIZE * e)
  {
    if n == 0 then [] else SectorSlots(s, n - 1) + [DirentAt(s, DIRENT_SIZE * (n - 1))]
  }

  /** The sixteen slots of one block. */
  function Row(s: Sector): (r: seq<Dirent>)
    ensures |r| == ENTRIES_PER_SECTOR
  {
    SectorSlots(s, ENTRIES_PER_SECTOR)
  }

  /** All slots of a directory, block after block. */
  function Slots(bs: seq<Sector>): (r: seq<Dirent>)
    ensures |r| == ENTRIES_PER_SECTOR * |bs|
  {
    if bs == [] then [] else Slots(bs[..|bs| - 1]) + Row(bs[|bs| - 1])
  }

  lemma {:induction false} SlotAt(bs: seq<Sector>, p: nat, e: nat)
    requires p < |bs| && e < ENTRIES_PER_SECTOR
    ensures Slots(bs)[ENTRIES_PER_SECTOR * p + e] == Row(bs[p])[e]
  {
    if p < |bs| - 1 {
      SlotAt(bs[..|bs| - 1], p, e);
    }
  }

  /** The slots from `base` on are those of block p. */
  lemma SlotIn(bs: seq<Sector>, p: nat, base: nat, k: nat)
    requires p < |bs| && base == ENTRIES_PER_SECTOR * p && base <= k < base + ENTRIES_PER_SECTOR
    ensures k < |Slots(bs)| && Slots(bs)[k] == Row(bs[p])[k - base]
  {
    hide Slots, Row;
    SlotAt(bs, p, k - base);
  }

  predicate Live(s: Dirent) { s.inode != 0 }

  /** The entry dir_find and dir_remove look for. */
  predicate Matches(s: Dirent, name: Name) {
    Live(s) && CString(s.name) == name
  }

  /** No two live slots carry the same name. */
  ghost predicate Unique(slots: seq<Dirent>) {
    forall j, k :: 0 <= j < k < |slots| && Live(slots[j]) && Live(slots[k]) ==>
      CString(slots[j].name) != CString(slots[k].name)
  }

  /** The map a slot table stands for (the first slot wins, as in dir_find). */
  function Entries(slots: seq<Dirent>): map<Name, nat> {
    if slots == [] then map[]
    else
      var m := Entries(slots[..|slots| - 1]);
      var s := slots[|slots| - 1];
      if Live(s) && CString(s.name) !in m then m[CString(s.name) := s.inode] else m
  }

  lemma {:induction false} EntriesSound(slots: seq<Dirent>, name: Name) returns (k: nat)
    requires name in Entries(slots)
    ensures k < |slots| && Matches(slots[k], name) && Entries(slots)[name] == slots[k].inode
  {
    var init := slots[..|slots| - 1];
    if name in Entries(init) {
      k := EntriesSound(init, name);
    } else {
      k := |slots| - 1;
    }
  }

  lemma {:induction false} EntriesComplete(slots: seq<Dirent>, k: nat)
    requires k < |slots| && Live(slots[k])
    ensures CString(slots[k].name) in Entries(slots)
  {
    if k < |slots| - 1 {
      EntriesComplete(slots[..|slots| - 1], k);
    }
  }

  /** In a table without duplicates every live slot is the entry of its name. */
  lemma EntryOf(slots: seq<Dirent>, k: nat)
    requires Unique(slots) && k < |slots| && Live(slots[k])
    ensures CString(slots[k].name) in Entries(slots) && Entries(slots)[CString(slots[k].name)] == slots[k].inode
  {
    EntriesComplete(slots, k);
    var j := EntriesSound(slots, CString(slots[k].name));
    assert j == k;
  }

  /** A table in which no slot matches has no such entry, and conversely. */
  lemma NoMatch(slots: seq<Dirent>, name: Name)
    ensures (forall k :: 0 <= k < |slots| ==> !Matches(slots[k], name)) <==> name !in Entries(slots)
  {
    if name in Entries(slots) {
      var k := EntriesSound(slots, name);
    }
    forall k | 0 <= k < |slots| && Matches(slots[k], name) ensures name in Entries(slots) {
      EntriesComplete(slots, k);
    }
  }

  /** Two tables without duplicates whose live slots agree on names stand for the same map,
      up to one name. */
  lemma EntriesDiffer(s: seq<Dirent>, t: seq<Dirent>, name: Name)
    requires Unique(s) && Unique(t)
    requires forall k :: 0 <= k < |s| && Live(s[k]) && CString(s[k].name) != name ==> s[k] in t
    requires forall k :: 0 <= k < |t| && Live(t[k]) && CString(t[k].name) != name ==> t[k] in s
    ensures Entries(t) - {name} == Entries(s) - {name}
  {
    forall n: Name | n != name
      ensures (n in Entries(s) <==> n in Entries(t)) && (n in Entries(s) ==> Entries(s)[n] == Entries(t)[n])
    {
      if n in Entries(s) {
        var k := EntriesSound(s, n);
        var j :| 0 <= j < |t| && t[j] == s[k];
        EntryOf(t, j);
      }
      if n in Entries(t) {
        var k := EntriesSound(t, n);
        var j :| 0 <= j < |s| && s[j] == t[k];
        EntryOf(s, j);
      }
    }
  }

  /** Filling a free slot adds the entry. */
  lemma FillSlot(s: seq<Dirent>, k: nat, d: Dirent)
    requires Unique(s) && k < |s| && !Live(s[k]) && Live(d) && CString(d.name) !in Entries(s)
    ensures Unique(s[k := d]) && Entries(s[k := d]) == Entries(s)[CString(d.name) := d.inode]
  {
    var name := CString(d.name);
    var t := s[k := d];
    NoMatch(s, name);
    assert Unique(t);
    assert forall j :: 0 <= j < |s| && j != k ==> s[j] == t[j];
    EntriesDiffer(s, t, name);
    EntryOf(t, k);
    assert Entries(t) == Entries(s)[name := d.inode] by {
      assert Entries(s)[name := d.inode] - {name} == Entries(s) - {name};
      MapsEqual(Entries(t), Entries(s)[name := d.inode], name);
    }
  }

  lemma MapsEqual(a: map<Name, nat>, b: map<Name, nat>, name: Name)
    requires a - {name} == b - {name}
    requires (name in a <==> name in b) && (name in a ==> a[name] == b[name])
    ensures a == b
  {
    forall n | n in a ensures n in b && a[n] == b[n] {
      if n != name { assert n in (a - {name}); assert (a - {name})[n] == (b - {name})[n]; }
    }
    forall n | n in b ensures n in a {
      if n != name { assert n in (b - {name}); }
    }
  }

  /** Clearing the slot of a name removes the entry. */
  lemma ClearSlot(s: seq<Dirent>, k: nat, d: Dirent)
    requires Unique(s) && k < |s| && Live(s[k]) && !Live(d)
    ensures Unique(s[k := d]) && Entries(s[k := d]) == Entries(s) - {CString(s[k].name)}
  {
    var name := CString(s[k].name);
    var t := s[k := d];
    assert Unique(t);
    assert forall j :: 0 <= j < |s| && j != k ==> s[j] == t[j];
    EntriesDiffer(s, t, name);
    NoMatch(t, name);
    assert Entries(t) - {name} == Entries(t);
  }

  /** Behind a table that does not list its name, a live slot and free ones make no duplicate. */
  lemma AddUnique(s: seq<Dirent>, d: Dirent, rest: seq<Dirent>)
    requires Unique(s) && CString(d.name) !in Entries(s) && forall k :: 0 <= k < |rest| ==> !Live(rest[k])
    ensures Unique(s + [d] + rest)
  {
    hide Entries, CString;
    NoMatch(s, CString(d.name));
    var t := s + [d] + rest;
    assert forall k :: 0 <= k < |s| ==> t[k] == s[k];
    assert forall k :: |s| < k < |t| ==> !Live(t[k]);
  }

  /** A new block whose first slot is filled adds the entry. */
  lemma AddSlots(s: seq<Dirent>, d: Dirent, rest: seq<Dirent>)
    requires Unique(s) && Live(d) && CString(d.name) !in Entries(s)
    requires forall k :: 0 <= k < |rest| ==> !Live(rest[k])
    ensures Unique(s + [d] + rest) && Entries(s + [d] + rest) == Entries(s)[CString(d.name) := d.inode]
  {
    hide Entries, CString, Unique;
    var name := CString(d.name);
    var t := s + [d] + rest;
    AddUnique(s, d, rest);
    assert t[|s|] == d;
    assert forall k :: 0 <= k < |s| ==> t[k] == s[k];
    EntriesDiffer(s, t, name);
    EntryOf(t, |s|);
    assert Entries(s)[name := d.inode] - {name} == Entries(s) - {name};
    MapsEqual(Entries(t), Entries(s)[name := d.inode], name);
  }

  /** dir_empty's answer. */
  lemma EmptyMeansNoEntries(slots: seq<Dirent>)
    ensures (forall k :: 0 <= k < |slots| ==> !Live(slots[k])) <==> Entries(slots) == map[]
  {
    if forall k :: 0 <= k < |slots| ==> !Live(slots[k]) {
      forall n: Name ensures n !in Entries(slots) { NoMatch(slots, n); }
    }
    forall k | 0 <= k < |slots| && Live(slots[k]) ensures Entries(slots) != map[] {
      EntriesComplete(slots, k);
    }
  }

  // ------------------------------------------------- one sector

  /** The 32 bytes dir_add stores: the name cut at 27 bytes and zero padded, then the inode. */
  function DirentBytes(name: seq<byte>, child: u32): (nd: seq<byte>)
    ensures |nd| == DIRENT_SIZE
  {
    Key(name) + Zeros(28 - |Key(name)|) + [ByteOf(child, 0), ByteOf(child, 1), ByteOf(child, 2), ByteOf(child, 3)]
  }

  function PutDirent(s: Sector, e: nat, nd: seq<byte>): Sector
    requires e < ENTRIES_PER_SECTOR && |nd| == DIRENT_SIZE
  {
    s[..DIRENT_SIZE * e] + nd + s[DIRENT_SIZE * (e + 1)..]
  }

  lemma DirentRead(s: Sector, e: nat, nd: seq<byte>)
    requires e < ENTRIES_PER_SECTOR && |nd| == DIRENT_SIZE
    ensures Row(PutDirent(s, e, nd))[e] == Dirent(nd[..28], GetU32(nd, 28))
  {
    var p := PutDirent(s, e, nd);
    assert p[DIRENT_SIZE * e..DIRENT_SIZE * e + 28] == nd[..28];
    assert p[DIRENT_SIZE * e + 28] == nd[28] && p[DIRENT_SIZE * e + 29] == nd[29];
    assert p[DIRENT_SIZE * e + 30] == nd[30] && p[DIRENT_SIZE * e + 31] == nd[31];
  }

  lemma DirentOther(s: Sector, e: nat, nd: seq<byte>, f: nat)
    requires e < ENTRIES_PER_SECTOR && |nd| == DIRENT_SIZE && f < ENTRIES_PER_SECTOR && f != e
    ensures Row(PutDirent(s, e, nd))[f] == Row(s)[f]
  {
    var p := PutDirent(s, e, nd);
    assert forall k :: DIRENT_SIZE * f <= k < DIRENT_SIZE * (f + 1) ==> p[k] == s[k];
    assert p[DIRENT_SIZE * f..DIRENT_SIZE * f + 28] == s[DIRENT_SIZE * f..DIRENT_SIZE * f + 28];
  }

  /** The stored entry carries the name and the inode. */
  lemma DirentHolds(name: seq<byte>, child: u32)
    requires ZeroFree(name)
    ensures CString(DirentBytes(name, child)[..28]) == Key(name) && GetU32(DirentBytes(name, child), 28) == child
  {
    var nd := DirentBytes(name, child);
    var key := Key(name);
    assert nd[..28] == key + Zeros(28 - |key|);
    assert nd[..28][..|key|] == key;
    CStringUnique(nd[..28], key);
    BytesOfWord(child);
  }

  /** Rewriting slot e of block p changes that slot of the directory only. */
  lemma SlotsPut(bs: seq<Sector>, p: nat, e: nat, s: Sector)
    requires p < |bs| && e < ENTRIES_PER_SECTOR
    requires forall f: nat :: f < ENTRIES_PER_SECTOR && f != e ==> Row(s)[f] == Row(bs[p])[f]
    ensures Slots(bs[p := s]) == Slots(bs)[ENTRIES_PER_SECTOR * p + e := Row(s)[e]]
  {
    var t := Slots(bs)[ENTRIES_PER_SECTOR * p + e := Row(s)[e]];
    forall k: nat | k < ENTRIES_PER_SECTOR * |bs| ensures Slots(bs[p := s])[k] == t[k] {
      SlotAt(bs, k / ENTRIES_PER_SECTOR, k % ENTRIES_PER_SECTOR);
      SlotAt(bs[p := s], k / ENTRIES_PER_SECTOR, k % ENTRIES_PER_SECTOR);
    }
  }
}
