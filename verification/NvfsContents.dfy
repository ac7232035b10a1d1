/** File contents: how a byte string is cut into sectors, how it is read back, and
    the order of the data blocks of a list of extents. */
module NvfsContents {
  import opened Bytes
  import opened NvfsFormat
  import opened NvfsVolume

  // ------------------------------------------------- bytes and sectors

  function Flat(bs: seq<Sector>): (r: seq<byte>)
    ensures |r| == SECTOR_SIZE * |bs|
  {
    if bs == [] then [] else Flat(bs[..|bs| - 1]) + bs[|bs| - 1]
  }

  /** Sector j of the stored form of `data`, zero padded. */
  function Chunk(data: seq<byte>, j: nat): Sector
    requires SECTOR_SIZE * j <= |data|
  {
    if SECTOR_SIZE * (j + 1) <= |data| then data[SECTOR_SIZE * j..SECTOR_SIZE * (j + 1)]
    else data[SECTOR_SIZE * j..] + Zeros(SECTOR_SIZE * (j + 1) - |data|)
  }

  function SectorsFor(size: nat): nat { (size + SECTOR_SIZE - 1) / SECTOR_SIZE }

  function Chunks(data: seq<byte>, n: nat): (bs: seq<Sector>)
    requires n <= SectorsFor(|data|)
    ensures |bs| == n
    ensures forall j: nat :: j < n ==> bs[j] == Chunk(data, j)
  {
    if n == 0 then [] else Chunks(data, n - 1) + [Chunk(data, n - 1)]
  }

  /** The bytes extent_read can deliver: the size recorded in the inode, if the blocks hold that much. */
  function FileBytes(o: Obj): seq<byte> {
    if o.size <= |Flat(o.blocks)| then Flat(o.blocks)[..o.size] else Flat(o.blocks)
  }

  lemma {:induction false} FlatAt(bs: seq<Sector>, p: nat)
    requires p < |bs|
    ensures Flat(bs)[SECTOR_SIZE * p..SECTOR_SIZE * (p + 1)] == bs[p]
  {
    if p < |bs| - 1 {
      FlatAt(bs[..|bs| - 1], p);
      assert Flat(bs)[SECTOR_SIZE * p..SECTOR_SIZE * (p + 1)]
          == Flat(bs[..|bs| - 1])[SECTOR_SIZE * p..SECTOR_SIZE * (p + 1)];
    }
  }

  /** Cutting into sectors and joining again gives the data followed by padding. */
  lemma {:induction false} FlatChunks(data: seq<byte>, n: nat)
    requires n <= SectorsFor(|data|)
    ensures SECTOR_SIZE * n <= |data| ==> Flat(Chunks(data, n)) == data[..SECTOR_SIZE * n]
    ensures SECTOR_SIZE * n >= |data| ==> Flat(Chunks(data, n))[..|data|] == data
  {
    if n > 0 {
      FlatChunks(data, n - 1);
      var cs := Chunks(data, n);
      assert cs[..n - 1] == Chunks(data, n - 1);
    }
  }

  /** Stored data reads back as it was written. */
  lemma StoredReadsBack(kind: byte, data: seq<byte>)
    requires |data| < 0x1_0000_0000
    ensures FileBytes(Obj(kind, |data|, Chunks(data, SectorsFor(|data|)))) == data
  {
    FlatChunks(data, SectorsFor(|data|));
  }

  // ------------------------------------------------- blocks in file order

  lemma {:induction false} BlockListSplit(es: seq<Extent>, i: nat)
    requires i < |es|
    ensures BlockList(es[..i + 1]) == BlockList(es[..i]) + Run(es[i].start, es[i].count)
  {
    assert es[..i + 1][..i] == es[..i];
  }

  lemma {:induction false} BlockListPrefix(es: seq<Extent>, i: nat)
    requires i <= |es|
    ensures |BlockList(es[..i])| <= |BlockList(es)|
    ensures BlockList(es)[..|BlockList(es[..i])|] == BlockList(es[..i])
    decreases |es| - i
  {
    if i < |es| {
      BlockListPrefix(es, i + 1);
      BlockListSplit(es, i);
    } else {
      assert es[..i] == es;
    }
  }

  /** Block j of extent i in the list of all blocks. */
  lemma BlockListAt(es: seq<Extent>, i: nat, j: nat)
    requires i < |es| && j < es[i].count
    ensures |BlockList(es[..i])| + j < |BlockList(es)|
    ensures BlockList(es)[|BlockList(es[..i])| + j] == es[i].start + j
  {
    BlockListSplit(es, i);
    BlockListPrefix(es, i + 1);
    var whole := BlockList(es);
    var upto := BlockList(es[..i + 1]);
    assert whole[|BlockList(es[..i])| + j] == upto[|BlockList(es[..i])| + j];
  }

  lemma RunMember(start: nat, count: nat, b: nat)
    ensures b in Run(start, count) <==> start <= b < start + count
  {
    if start <= b < start + count {
      assert Run(start, count)[b - start] == b;
    }
  }
}
