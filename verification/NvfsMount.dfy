/** nvfs_mount: reading and checking the superblock of the first drive that carries one. */
module NvfsMount {
  import opened Bytes
  import opened NvfsFormat
  import opened NvfsImage

  datatype Option<T> = None | Some(value: T)

  predicate Signed(s: Sector) {
    s[0] == 78 && s[1] == 86 && s[2] == 70 && s[3] == 83
  }

  /** The superblock fields; an inode block count of zero stands for the count the inodes need. */
  function ParseGeo(s: Sector, offset: nat): Geo {
    var inodeCount := GetU32(s, 28);
    var blocks := GetU32(s, 36);
    Geo(offset, GetU32(s, 16), GetU32(s, 20), GetU32(s, 24), inodeCount,
        if blocks == 0 then inodeCount / 4 else blocks, GetU32(s, 32))
  }

  /** The layout check, with the sums in 32-bit arithmetic. */
  predicate LayoutOk(g: Geo) {
    && 2 <= g.bitmapStart && g.bitmapSectors != 0 && g.inodeBlocks != 0 && g.inodeCount != 0
    && (g.bitmapStart + g.bitmapSectors) % 0x1_0000_0000 <= g.inodeStart
    && (g.inodeStart + g.inodeBlocks) % 0x1_0000_0000 <= g.dataStart
  }

  /** Bitmap, inodes and data lie behind each other and behind the superblock. */
  predicate InOrder(g: Geo) {
    && 2 <= g.bitmapStart < g.bitmapStart + g.bitmapSectors <= g.inodeStart
    && g.inodeStart < g.inodeStart + g.inodeBlocks <= g.dataStart
  }

  /** The superblocks that pass the check are in order exactly when neither 32-bit sum wraps. */
  lemma AcceptedInOrder(s: Sector, offset: nat)
    requires LayoutOk(ParseGeo(s, offset))
    ensures var g := ParseGeo(s, offset);
      InOrder(g) <==> g.bitmapStart + g.bitmapSectors < 0x1_0000_0000 && g.inodeStart + g.inodeBlocks < 0x1_0000_0000
  {
    var g := ParseGeo(s, offset);
    assert GetU32(s, 28) / 4 < 0x1_0000_0000;
    hide GetU32;
    SumWraps(g.bitmapStart, g.bitmapSectors);
    SumWraps(g.inodeStart, g.inodeBlocks);
  }

  lemma SumWraps(a: u32, b: u32)
    ensures (a + b) % 0x1_0000_0000 == if a + b < 0x1_0000_0000 then a + b else a + b - 0x1_0000_0000
  {}

  /** A bitmap of 2^32 - 1 sectors passes the check, though it covers everything behind it. */
  lemma WrappedAccepted()
    ensures LayoutOk(Geo(0, 2, 0xFFFF_FFFF, 10, 128, 32, 42)) && !InOrder(Geo(0, 2, 0xFFFF_FFFF, 10, 128, 32, 42))
  {}

  const OFFSETS: seq<nat> := [0, 2880]

  /** What mount finds on drive `d` at the given offset. */
  function Probe(d: Option<Image>, offset: nat): Option<Geo> {
    if d.None? || offset + 1 >= |d.value| || !Signed(d.value[offset + 1]) then None
    else
      var g := ParseGeo(d.value[offset + 1], offset);
      if LayoutOk(g) then Some(g) else None
  }

  /** The k-th place mount looks at: drives in channel and drive order, two offsets each. */
  function Place(drives: seq<Option<Image>>, k: nat): Option<Geo>
    requires |drives| == 4 && k < 8
  {
    Probe(drives[k / 2], OFFSETS[k % 2])
  }

  ghost predicate FirstPlace(drives: seq<Option<Image>>, k: nat, geo: Geo)
    requires |drives| == 4 && k < 8
  {
    Place(drives, k) == Some(geo) && forall j: nat :: j < k ==> Place(drives, j) == None
  }

  /** One turn of the innermost loop of nvfs_mount. */
  method ProbeAt(d: Option<Image>, offset: nat) returns (found: bool, geo: Geo)
    ensures Probe(d, offset) == if found then Some(geo) else None
  {
    hide ParseGeo;
    found, geo := false, Geo(0, 0, 0, 0, 0, 0, 0);
    if d.Some? && offset + 1 < |d.value| {
      var buf := d.value[offset + 1];
      if buf[0] == 78 && buf[1] == 86 && buf[2] == 70 && buf[3] == 83 {
        geo := ParseGeo(buf, offset);
        var bitmapEnd := (geo.bitmapStart + geo.bitmapSectors) % 0x1_0000_0000;
        var inodeEnd := (geo.inodeStart + geo.inodeBlocks) % 0x1_0000_0000;
        if geo.bitmapStart < 2 || geo.bitmapSectors == 0 || geo.inodeBlocks == 0 || geo.inodeCount == 0
           || bitmapEnd > geo.inodeStart || inodeEnd > geo.dataStart {
          return;
        }
        found := true;
      }
    }
  }

  /** What a superblock without wrapping sums must hold to be mounted, word by word, and the
      geometry it then gives. */
  lemma ProbeMeans(d: Image, offset: nat)
    requires offset + 1 < |d|
    ensures var s := d[offset + 1];
      var bitmap, bitmapSectors, inodes, data := GetU32(s, 16), GetU32(s, 20), GetU32(s, 24), GetU32(s, 32);
      var count := GetU32(s, 28);
      var inodeBlocks := if GetU32(s, 36) == 0 then count / 4 else GetU32(s, 36);
      bitmap + bitmapSectors < 0x1_0000_0000 && inodes + inodeBlocks < 0x1_0000_0000 ==>
        Probe(Some(d), offset) ==
          if && s[..4] == [78, 86, 70, 83] && 2 <= bitmap < bitmap + bitmapSectors <= inodes
             && inodes < inodes + inodeBlocks <= data && 0 < count
          then Some(Geo(offset, bitmap, bitmapSectors, inodes, count, inodeBlocks, data)) else None
  {
    hide GetU32;
    var s := d[offset + 1];
    var g := ParseGeo(s, offset);
    SignedBytes(s);
    if g.bitmapStart + g.bitmapSectors < 0x1_0000_0000 && g.inodeStart + g.inodeBlocks < 0x1_0000_0000 {
      LayoutPlain(g);
      hide Signed, LayoutOk;
    }
  }

  lemma SignedBytes(s: Sector)
    ensures Signed(s) <==> s[..4] == [78, 86, 70, 83]
  {
    assert s[..4] == [s[0], s[1], s[2], s[3]];
  }

  lemma LayoutPlain(g: Geo)
    requires g.bitmapStart + g.bitmapSectors < 0x1_0000_0000 && g.inodeStart + g.inodeBlocks < 0x1_0000_0000
    ensures LayoutOk(g) <==> InOrder(g) && 0 < g.inodeCount
  {}

  /** nvfs_mount takes the first place that carries a signature and a valid layout. */
  method Mount(drives: seq<Option<Image>>) returns (drive: int, geo: Geo)
    requires |drives| == 4
    ensures -1 <= drive < 4
    ensures drive < 0 ==> forall k: nat :: k < 8 ==> Place(drives, k) == None
    ensures drive >= 0 ==> exists k: nat :: k < 8 && k / 2 == drive && FirstPlace(drives, k, geo)
  {
    hide Probe;
    geo := Geo(0, 0, 0, 0, 0, 0, 0);
    for ch := 0 to 2
      invariant forall k: nat :: k < 4 * ch ==> Place(drives, k) == None
    {
      for dr := 0 to 2
        invariant forall k: nat :: k < 4 * ch + 2 * dr ==> Place(drives, k) == None
      {
        var d := drives[2 * ch + dr];
        for i := 0 to 2
          invariant forall k: nat :: k < 4 * ch + 2 * dr + i ==> Place(drives, k) == None
        {
          ghost var k := 4 * ch + 2 * dr + i;
          assert k / 2 == 2 * ch + dr && k % 2 == i;
          var found;
          found, geo := ProbeAt(d, OFFSETS[i]);
          if found {
            assert FirstPlace(drives, k, geo);
            return 2 * ch + dr, geo;
          }
        }
      }
    }
    drive := -1;
  }

  // ------------------------------------------------- the next mount

  /** What mount finds at the volume's own place and at the start of the drive lies before the bitmap. */
  lemma HeadProbe(g: Geo, d: Image, e: Image)
    requires GeoOk(g, |d|) && SameHead(g, d, e)
    ensures Probe(Some(e), g.offset) == Probe(Some(d), g.offset) && Probe(Some(e), 0) == Probe(Some(d), 0)
  {
    hide ParseGeo, LayoutOk;
  }

  /** A drive on which nothing before the bitmap has changed is mounted again, with the same geometry. */
  lemma MountKept(drives: seq<Option<Image>>, k: nat, g: Geo, e: Image)
    requires |drives| == 4 && k < 8 && FirstPlace(drives, k, g) && drives[k / 2].Some?
    requires GeoOk(g, |drives[k / 2].value|) && SameHead(g, drives[k / 2].value, e)
    ensures FirstPlace(drives[k / 2 := Some(e)], k, g)
  {
    HeadProbe(g, drives[k / 2].value, e);
    hide SameHead, ParseGeo, LayoutOk, Signed;
    var next := drives[k / 2 := Some(e)];
    assert g.offset == OFFSETS[k % 2];
    forall j: nat | j < k ensures Place(next, j) == None {
      assert Place(drives, j) == None;
      if j / 2 == k / 2 { assert j % 2 == 0; }
    }
  }

  lemma FirstUnique(drives: seq<Option<Image>>, k: nat, g: Geo, j: nat, h: Geo)
    requires |drives| == 4 && k < 8 && j < 8 && FirstPlace(drives, k, g) && FirstPlace(drives, j, h)
    ensures j == k && h == g
  {
    hide Place;
  }

  /** nvfs_mount when the first place is known. */
  method MountAt(drives: seq<Option<Image>>, ghost k: nat, ghost g: Geo) returns (drive: nat, geo: Geo)
    requires |drives| == 4 && k < 8 && FirstPlace(drives, k, g)
    ensures drive == k / 2 && geo == g
  {
    hide Place;
    var d;
    d, geo := Mount(drives);
    assert d >= 0;
    ghost var j: nat :| j < 8 && j / 2 == d && FirstPlace(drives, j, geo);
    FirstUnique(drives, k, g, j, geo);
    drive := d;
  }
}
