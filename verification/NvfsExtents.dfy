/** extent_read, extent_write and the loops that release the blocks of extents. */
module NvfsExtents {
  import opened Bytes
  import opened Collections
  import opened NvfsFormat
  import opened NvfsImage
  import opened NvfsVolume
  import opened NvfsDriver
  import opened NvfsContents

  /** A caller's buffer lies in the 32-bit address space beside the kernel image. */
  const MAX_BUFFER := 0xFFF0_0000

  /** Everything v has allocated is still there in w, block for block. */
  ghost predicate Shadow(v: Vol, w: Vol) {
    && w.inodes == v.inodes && |w.blocks| == |v.blocks| && v.used <= w.used
    && forall b: nat :: b < |v.blocks| && b in v.used ==> w.blocks[b] == v.blocks[b]
  }

  /** The first j sectors of `data` stored at start, their bits set from block k on, the rest as in v. */
  ghost predicate Wrote(v: Vol, w: Vol, start: nat, data: seq<byte>, k: nat, j: nat) {
    && w.inodes == v.inodes && |w.blocks| == |v.blocks|
    && j <= SectorsFor(|data|) && (j > 0 ==> start + j <= |v.blocks|)
    && w.used == v.used + RunSet(start + k, if k <= j then j - k else 0)
    && (forall i: nat :: i < j ==> w.blocks[start + i] == Chunk(data, i))
    && (forall b: nat :: b < |v.blocks| && b in v.used ==> w.blocks[b] == v.blocks[b])
  }

  lemma WroteShadow(v: Vol, w: Vol, start: nat, data: seq<byte>, k: nat, j: nat)
    requires Wrote(v, w, start, data, k, j)
    ensures Shadow(v, w) && |w.blocks| == |v.blocks|
  {}

  /** How much of sector j the data fills. */
  function ChunkLen(data: seq<byte>, j: nat): int {
    if SECTOR_SIZE > |data| - SECTOR_SIZE * j then |data| - SECTOR_SIZE * j else SECTOR_SIZE
  }

  lemma ChunkCopied(data: seq<byte>, j: nat)
    requires j < SectorsFor(|data|)
    ensures 0 < ChunkLen(data, j) <= SECTOR_SIZE && SECTOR_SIZE * j + ChunkLen(data, j) <= |data|
    ensures data[SECTOR_SIZE * j..SECTOR_SIZE * j + ChunkLen(data, j)] + Zeros(SECTOR_SIZE - ChunkLen(data, j)) ==
      Chunk(data, j)
  {}

  lemma WroteNone(v: Vol, start: nat, data: seq<byte>)
    ensures Wrote(v, v, start, data, 0, 0) && Shadow(v, v)
  {
    assert RunSet(start, 0) == {};
  }

  lemma WroteFits(v: Vol, w: Vol, start: nat, data: seq<byte>, j: nat)
    requires Wrote(v, w, start, data, 0, j) && j > 0
    ensures start + j <= |v.blocks|
  {}

  lemma WroteNext(v: Vol, w: Vol, start: nat, data: seq<byte>, j: nat)
    requires Wrote(v, w, start, data, 0, j) && j < SectorsFor(|data|)
    requires start + j < |v.blocks| && start + j !in v.used
    ensures var w1 := w.(blocks := w.blocks[start + j := Chunk(data, j)]);
      Shadow(v, w1) && Wrote(v, w1.(used := w1.used + {start + j}), start, data, 0, j + 1)
  {
    assert RunSet(start, j) + {start + j} == RunSet(start, j + 1);
  }

  lemma WroteUndo(v: Vol, w: Vol, start: nat, data: seq<byte>, k: nat, j: nat)
    requires Wrote(v, w, start, data, k, j) && k < j
    requires forall b: nat :: start <= b < start + j ==> b !in v.used
    ensures Wrote(v, w.(used := w.used - {start + k}), start, data, k + 1, j)
  {
    assert RunSet(start + k, j - k) - {start + k} == RunSet(start + k + 1, j - k - 1);
  }

  /** A free run of `count` blocks lies on the drive. */
  ghost predicate Fits(v: Vol, count: nat) {
    exists s: nat :: s + count <= |v.blocks| && FreeRun(v, s, count)
  }

  ghost predicate TrailShadows(v: Vol, trail: seq<Vol>, from: nat) {
    forall k :: from <= k < |trail| ==> Shadow(v, trail[k])
  }

  /** One turn of the loop of extent_write: store sector j and mark its block. */
  method StoreSector(dr: Drive, start: nat, data: seq<byte>, j: nat, ghost v: Vol) returns (ok: bool)
    requires dr.Valid() && Wrote(v, dr.vol, start, data, 0, j)
    requires j < SectorsFor(|data|)
    requires start + j < |v.blocks| ==> start + j !in v.used
    modifies dr
    ensures old(dr.Logged()) ==> dr.Logged()
    ensures dr.Valid() && old(dr.trail) <= dr.trail && TrailShadows(v, dr.trail, |old(dr.trail)|)
    ensures ok <==> start + j < |v.blocks|
    ensures ok ==> Wrote(v, dr.vol, start, data, 0, j + 1)
    ensures !ok ==> dr.vol == old(dr.vol)
  {
    hide Drive.Valid, Drive.Logged, Shadow, Wrote, Chunk, SectorsFor, ChunkLen;
    dr.Sizes();
    WroteShadow(v, dr.vol, start, data, 0, j);
    var pos := SECTOR_SIZE * j;
    ChunkCopied(data, j);
    var copy := ChunkLen(data, j);
    var tmp := data[pos..pos + copy] + Zeros(SECTOR_SIZE - copy);
    if start + j < |dr.vol.blocks| { WroteNext(v, dr.vol, start, data, j); }
    ok := dr.WriteBlock(start + j, tmp);
    if ok {
      var _ := dr.BitmapSet(start + j, true);
      WroteShadow(v, dr.vol, start, data, 0, j + 1);
    }
  }

  /** The cleanup after a failed write: unmark the blocks already stored. */
  method UnstoreRun(dr: Drive, start: nat, data: seq<byte>, j: nat, ghost v: Vol)
    requires dr.Valid() && Wrote(v, dr.vol, start, data, 0, j) && |v.blocks| <= Bits(dr.geo)
    requires forall b: nat :: start <= b < start + j ==> b !in v.used
    modifies dr
    ensures old(dr.Logged()) ==> dr.Logged()
    ensures dr.Valid() && old(dr.trail) <= dr.trail && TrailShadows(v, dr.trail, |old(dr.trail)|)
    ensures Shadow(v, dr.vol) && dr.vol.used == v.used
  {
    hide Drive.Valid, Drive.Logged;
    for k := 0 to j
      invariant old(dr.Logged()) ==> dr.Logged()
      invariant dr.Valid() && old(dr.trail) <= dr.trail && TrailShadows(v, dr.trail, |old(dr.trail)|)
      invariant Wrote(v, dr.vol, start, data, k, j)
    {
      WroteUndo(v, dr.vol, start, data, k, j);
      var _ := dr.BitmapSet(start + k, false);
      WroteShadow(v, dr.vol, start, data, k + 1, j);
    }
    assert RunSet(start + j, 0) == {};
  }

  /** The inode extent_write leaves behind for a nonempty file. */
  function Stored(n: Inode, size: u32, start: u32, count: u32): Inode {
    InodeFields(size, n.kind, n.c0, n.c1, n.c2, 1, [Extent(start, count)] + NoExtents()[1..], n.mtime)
  }

  function Emptied(n: Inode): Inode {
    InodeFields(0, n.kind, n.c0, n.c1, n.c2, 0, n.extents, n.mtime)
  }

  /** m is n pointing at the freshly stored data in w. */
  ghost predicate Prepared(v: Vol, w: Vol, n: Inode, m: Inode, data: seq<byte>) {
    if data == [] then m == Emptied(n) && w == v
    else exists start: u32 :: PreparedAt(v, w, n, m, data, start)
  }

  ghost predicate PreparedAt(v: Vol, w: Vol, n: Inode, m: Inode, data: seq<byte>, start: u32) {
    && 0 < |data| <= MAX_BUFFER
    && m == Stored(n, |data|, start, SectorsFor(|data|))
    && Wrote(v, w, start, data, 0, SectorsFor(|data|))
    && FreeRun(v, start, SectorsFor(|data|))
  }

  /** extent_write finds the first free run, stores the data there and marks the blocks; the
      inode is changed in memory only.  It succeeds exactly when a free run lies on the
      drive, and no sector write on the way touches anything allocated. */
  method ExtentWrite(dr: Drive, n: Inode, data: seq<byte>) returns (ok: bool, m: Inode)
    requires dr.Valid() && |data| <= MAX_BUFFER
    modifies dr
    ensures old(dr.Logged()) ==> dr.Logged()
    ensures dr.Valid() && old(dr.trail) <= dr.trail && TrailShadows(old(dr.vol), dr.trail, |old(dr.trail)|)
    ensures ok <==> data == [] || Fits(old(dr.vol), SectorsFor(|data|))
    ensures !ok ==> m == n && Shadow(old(dr.vol), dr.vol) && dr.vol.used == old(dr.vol).used
    ensures ok ==> Prepared(old(dr.vol), dr.vol, n, m, data)
  {
    hide Drive.Valid, Drive.Logged, Shadow, Wrote;
    dr.Sizes();
    var needed := (|data| + SECTOR_SIZE - 1) / SECTOR_SIZE;
    if |data| == 0 { return true, Emptied(n); }
    var start := dr.BitmapFind(needed);
    ghost var v := dr.vol;
    if start < 0 { WroteNone(v, 0, data); return false, n; }
    var j := 0;
    var stored := true;
    WroteNone(v, start, data);
    while j < needed && stored
      invariant old(dr.Logged()) ==> dr.Logged()
      invariant dr.Valid() && old(dr.trail) <= dr.trail && TrailShadows(v, dr.trail, |old(dr.trail)|)
      invariant 0 <= j <= needed && Wrote(v, dr.vol, start, data, 0, j)
      invariant !stored ==> start + j >= |v.blocks| && j < needed
      decreases needed - j, stored
    {
      stored := StoreSector(dr, start, data, j, v);
      if stored { j := j + 1; }
    }
    if j < needed {
      UnstoreRun(dr, start, data, j, v);
      return false, n;
    }
    WroteFits(v, dr.vol, start, data, needed);
    assert FreeRun(v, start, needed);
    m := Stored(n, |data|, start, needed);
    assert PreparedAt(v, dr.vol, n, m, data, start);
    return true, m;
  }

  // ------------------------------------------------- releasing blocks

  /** w is v with the marks of some blocks of bs removed. */
  ghost predicate Freed(v: Vol, w: Vol, bs: seq<nat>) {
    && w.inodes == v.inodes && w.blocks == v.blocks
    && w.used <= v.used && v.used - SeqSet(bs) <= w.used
  }

  lemma FreeOne(v: Vol, w: Vol, bs: seq<nat>, p: nat)
    requires p < |bs| && w == v.(used := v.used - SeqSet(bs[..p]))
    ensures w.(used := w.used - {bs[p]}) == v.(used := v.used - SeqSet(bs[..p + 1]))
    ensures Freed(v, v.(used := v.used - SeqSet(bs[..p + 1])), bs)
  {
    assert SeqSet(bs[..p + 1]) == SeqSet(bs[..p]) + {bs[p]};
  }

  /** Unmark every block of a list of extents, in file order. */
  method FreeExtents(dr: Drive, es: seq<Extent>)
    requires dr.Valid()
    requires forall b :: b in BlockList(es) ==> b < Bits(dr.geo)
    modifies dr
    ensures old(dr.Logged()) ==> dr.Logged()
    ensures dr.Valid() && old(dr.trail) <= dr.trail && dr.errno == old(dr.errno)
    ensures dr.vol == old(dr.vol).(used := old(dr.vol).used - SeqSet(BlockList(es)))
    ensures |dr.trail| == |old(dr.trail)| + |BlockList(es)|
    ensures forall k :: |old(dr.trail)| <= k < |dr.trail| ==> Freed(old(dr.vol), dr.trail[k], BlockList(es))
    ensures forall k :: |old(dr.trail)| <= k < |dr.trail| ==> BlockList(es)[0] !in dr.trail[k].used
  {
    hide Drive.Valid, Drive.Logged, BlockList, Freed;
    ghost var v, bs := dr.vol, BlockList(es);
    ghost var p := 0;
    NoBlocks(es);
    assert SeqSet(bs[..0]) == {};
    for i := 0 to |es|
      invariant old(dr.Logged()) ==> dr.Logged()
      invariant dr.Valid() && old(dr.trail) <= dr.trail && dr.errno == old(dr.errno)
      invariant p == |BlockList(es[..i])| <= |bs|
      invariant dr.vol == v.(used := v.used - SeqSet(bs[..p]))
      invariant |dr.trail| == |old(dr.trail)| + p
      invariant forall k :: |old(dr.trail)| <= k < |dr.trail| ==>
        Freed(v, dr.trail[k], bs) && bs[0] !in dr.trail[k].used
    {
      BlockListGrows(es, i);
      for j := 0 to es[i].count
        invariant old(dr.Logged()) ==> dr.Logged()
        invariant dr.Valid() && old(dr.trail) <= dr.trail && dr.errno == old(dr.errno)
        invariant p == |BlockList(es[..i])| + j <= |bs|
        invariant dr.vol == v.(used := v.used - SeqSet(bs[..p]))
        invariant |dr.trail| == |old(dr.trail)| + p
        invariant forall k :: |old(dr.trail)| <= k < |dr.trail| ==>
          Freed(v, dr.trail[k], bs) && bs[0] !in dr.trail[k].used
      {
        BlockListAt(es, i, j);
        FreeOne(v, dr.vol, bs, p);
        assert bs[p] in bs;
        var _ := dr.BitmapSet(es[i].start + j, false);
        assert bs[0] in bs[..p + 1];
        p := p + 1;
      }
    }
    assert es[..|es|] == es;
    assert bs[..p] == bs;
  }

  lemma NoBlocks(es: seq<Extent>)
    ensures BlockList(es[..0]) == []
  {}

  lemma BlockListGrows(es: seq<Extent>, i: nat)
    requires i < |es|
    ensures |BlockList(es[..i + 1])| == |BlockList(es[..i])| + es[i].count <= |BlockList(es)|
  {
    BlockListSplit(es, i);
    BlockListPrefix(es, i + 1);
  }

  // ------------------------------------------------- reading

  lemma RefsInclude(v: Vol, n: Inode)
    ensures forall b :: b in BlockList(ExtentsOf(v, n)) ==> b in RefsOf(v, n)
    ensures n.extentCount > DIRECT_EXTENTS ==> n.extents[DIRECT_EXTENTS].start in RefsOf(v, n)
  {}

  lemma LoadedBlocks(v: Vol, n: Inode)
    ensures ObjOf(v, n).blocks == Load(v, BlockList(ExtentsOf(v, n))) && ObjOf(v, n).size == n.size
  {}

  lemma FlatPart(bs: seq<Sector>, p: nat, copy: nat)
    requires p < |bs| && copy <= SECTOR_SIZE
    ensures SECTOR_SIZE * p + copy <= |Flat(bs)|
    ensures Flat(bs)[SECTOR_SIZE * p..SECTOR_SIZE * p + copy] == bs[p][..copy]
  {
    hide Flat;
    FlatAt(bs, p);
    var at := SECTOR_SIZE * p;
    assert Flat(bs)[at..at + copy] == Flat(bs)[at..at + SECTOR_SIZE][..copy];
  }

  /** `out` is the beginning of `whole`, cut at `remain`; unless that is reached, it ends with block p. */
  ghost predicate ReadSoFar(whole: seq<byte>, out: seq<byte>, remain: nat, p: nat) {
    && |out| <= |whole| && |out| <= remain && out == whole[..|out|]
    && (|out| < remain ==> |out| == SECTOR_SIZE * p)
  }

  lemma ReadMore(whole: seq<byte>, out: seq<byte>, remain: nat, p: nat, part: seq<byte>)
    requires ReadSoFar(whole, out, remain, p) && |out| < remain && SECTOR_SIZE * p + |part| <= |whole|
    requires |part| == (if SECTOR_SIZE > remain - |out| then remain - |out| else SECTOR_SIZE)
    requires whole[SECTOR_SIZE * p..SECTOR_SIZE * p + |part|] == part
    ensures ReadSoFar(whole, out + part, remain, p + 1)
  {
    PrefixMore(whole, out, part);
  }

  lemma PrefixMore(whole: seq<byte>, out: seq<byte>, part: seq<byte>)
    requires |out| + |part| <= |whole| && out == whole[..|out|] && part == whole[|out|..|out| + |part|]
    ensures out + part == whole[..|out| + |part|]
  {}

  /** extent_read delivers the first `max` bytes of the file. */
  method ExtentRead(dr: Drive, n: Inode, max: nat) returns (ok: bool, out: seq<byte>)
    requires dr.Valid() && n.extentCount <= DIRECT_EXTENTS + INDIRECT_ENTS
    requires forall b :: b in RefsOf(dr.vol, n) ==> b < |dr.vol.blocks|
    ensures ok
    ensures out == Take(FileBytes(ObjOf(dr.vol, n)), max)
  {
    hide Drive.Valid, Drive.Logged, BlockList, Flat, FileBytes, RefsOf, ExtentsOf, Load, ObjOf, Take;
    RefsInclude(dr.vol, n);
    LoadedBlocks(dr.vol, n);
    var remain := if n.size > max then max else n.size;
    out := [];
    var es;
    ok, es := dr.ExtentLoadAll(n);
    if !ok { return; }
    ghost var bs := BlockList(es);
    ghost var secs := Load(dr.vol, bs);
    ghost var p := 0;
    NoBlocks(es);
    NothingRead(Flat(secs), remain);
    hide ReadSoFar;
    var i := 0;
    while i < |es| && |out| < remain
      invariant 0 <= i <= |es| && p <= |bs| && ReadSoFar(Flat(secs), out, remain, p)
      invariant |out| < remain ==> p == |BlockList(es[..i])|
    {
      BlockListGrows(es, i);
      var j := 0;
      while j < es[i].count && |out| < remain
        invariant 0 <= j <= es[i].count && p <= |bs| && ReadSoFar(Flat(secs), out, remain, p)
        invariant |out| < remain ==> p == |BlockList(es[..i])| + j
      {
        BlockListAt(es, i, j);
        assert bs[p] in bs;
        var got, tmp := dr.ReadBlock(es[i].start + j);
        if !got { return false, out; }
        var copy := if SECTOR_SIZE > remain - |out| then remain - |out| else SECTOR_SIZE;
        FlatPart(secs, p, copy);
        ReadMore(Flat(secs), out, remain, p, tmp[..copy]);
        out := out + tmp[..copy];
        p := p + 1;
        j := j + 1;
      }
      i := i + 1;
    }
    assert es[..|es|] == es;
    ReadParts(Flat(secs), out, remain, p);
    ReadAll(ObjOf(dr.vol, n), max, out);
  }

  lemma NothingRead(whole: seq<byte>, remain: nat)
    ensures ReadSoFar(whole, [], remain, 0)
  {}

  lemma ReadParts(whole: seq<byte>, out: seq<byte>, remain: nat, p: nat)
    requires ReadSoFar(whole, out, remain, p)
    ensures |out| <= |whole| && |out| <= remain && out == whole[..|out|]
    ensures |out| < remain ==> |out| == SECTOR_SIZE * p
  {}

  function Take(s: seq<byte>, max: nat): seq<byte> {
    if max <= |s| then s[..max] else s
  }

  lemma ReadAll(o: Obj, max: nat, out: seq<byte>)
    requires |out| <= |Flat(o.blocks)| && out == Flat(o.blocks)[..|out|]
    requires |out| <= o.size && |out| <= max
    requires |out| < o.size && |out| < max ==> |out| == |Flat(o.blocks)|
    ensures out == Take(FileBytes(o), max)
  {}
}
