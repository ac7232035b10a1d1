/** The page frame allocator: one bit per 4 KB frame, first fit. */
module Frames {
  import opened Bytes
  import opened Collections

  const FRAME_SIZE := 4096

  ghost predicate AllFree(used: set<nat>, start: nat, count: nat) {
    forall f: nat :: start <= f < start + count ==> f !in used
  }

  lemma FrameAt(i: nat)
    ensures i * FRAME_SIZE % FRAME_SIZE == 0 && i * FRAME_SIZE / FRAME_SIZE == i
  {}

  class FrameTable {
    const bitmap: array<byte>
    const total: nat
    /** The frames whose bit is set. */
    ghost var used: set<nat>

    /** The bits are the set; frame 0 is never free, its address being the failure value. */
    ghost predicate Valid()
      reads this, bitmap
    {
      && total <= 8 * bitmap.Length && 0 in used
      && (forall f :: f in used ==> f < total)
      && forall f: nat :: f < total ==> (f in used <==> Bit(bitmap[f / 8], f % 8))
    }

    constructor (bitmap: array<byte>, total: nat, ghost used: set<nat>)
      requires total <= 8 * bitmap.Length && 0 in used && forall f :: f in used ==> f < total
      requires forall f: nat :: f < total ==> (f in used <==> Bit(bitmap[f / 8], f % 8))
      ensures Valid() && this.bitmap == bitmap && this.total == total && this.used == used
    {
      this.bitmap := bitmap;
      this.total := total;
      this.used := used;
    }

    /** Frame 0 is in use, and nothing beyond the end. */
    lemma Bounded()
      requires Valid()
      ensures 0 in used && forall f :: f in used ==> f < total
    {}

    /** test_bit. */
    method TestBit(frame: nat) returns (r: bool)
      requires Valid() && frame < total
      ensures r <==> frame in used
    {
      r := Bit(bitmap[frame / 8], frame % 8);
    }

    /** set_bit and clear_bit. */
    method PutBit(frame: nat, on: bool)
      requires Valid() && frame < total && (frame == 0 ==> on)
      modifies this`used, bitmap
      ensures Valid() && used == if on then old(used) + {frame} else old(used) - {frame}
    {
      ghost var was := bitmap[frame / 8];
      var b := WithBit(bitmap[frame / 8], frame % 8, on);
      assert Pow2(8) == 256;
      bitmap[frame / 8] := b;
      used := if on then used + {frame} else used - {frame};
      forall f: nat | f < total && f != frame ensures f in used <==> Bit(bitmap[f / 8], f % 8) {
        if f / 8 == frame / 8 { WithBitOther(was, frame % 8, on, f % 8); }
      }
    }

    /** alloc_frame: the lowest free frame, by address; 0 when there is none. */
    method AllocFrame() returns (addr: nat)
      requires Valid()
      modifies this`used, bitmap
      ensures Valid() && addr % FRAME_SIZE == 0
      ensures addr == 0 <==> old(used) == RunSet(0, total)
      ensures addr == 0 ==> used == old(used)
      ensures addr != 0 ==>
        addr / FRAME_SIZE < total && addr / FRAME_SIZE !in old(used) && used == old(used) + {addr / FRAME_SIZE}
      ensures addr != 0 ==> forall f: nat :: f < addr / FRAME_SIZE ==> f in old(used)
    {
      Bounded();
      hide Valid;
      var i: nat := 0;
      while i < total
        invariant i <= total && Valid() && used == old(used)
        invariant forall f: nat :: f < i ==> f in used
      {
        var taken := TestBit(i);
        if !taken {
          PutBit(i, true);
          FrameAt(i);
          return i * FRAME_SIZE;
        }
        i := i + 1;
      }
      addr := 0;
    }

    /** free_frame. */
    method FreeFrame(addr: nat)
      requires Valid() && (addr == 0 || addr >= FRAME_SIZE)
      modifies this`used, bitmap
      ensures Valid() && used == if addr == 0 then old(used) else old(used) - {addr / FRAME_SIZE}
    {
      if addr == 0 { return; }
      var frame := addr / FRAME_SIZE;
      if frame < total { PutBit(frame, false); }
    }

    /** get_free_frame_count. */
    method FreeCount() returns (count: nat)
      requires Valid()
      ensures count + |used| == total
    {
      count := 0;
      var i: nat := 0;
      ghost var seen: set<nat> := {};
      while i < total
        invariant i <= total && count + |seen| == i
        invariant forall f :: f in seen <==> f in used && f < i
      {
        var taken := TestBit(i);
        if taken { seen := seen + {i}; } else { count := count + 1; }
        i := i + 1;
      }
      assert seen == used;
    }

    /** The inner loop of alloc_frames. */
    method RunFree(start: nat, count: nat) returns (ok: bool)
      requires Valid() && start + count <= total
      ensures ok <==> AllFree(used, start, count)
    {
      var j: nat := 0;
      while j < count
        invariant j <= count && AllFree(used, start, j)
      {
        var taken := TestBit(start + j);
        if taken { return false; }
        j := j + 1;
      }
      ok := true;
    }

    /** Setting the bits of a run. */
    method SetRun(start: nat, count: nat)
      requires Valid() && start + count <= total
      modifies this`used, bitmap
      ensures Valid() && used == old(used) + RunSet(start, count)
    {
      var j: nat := 0;
      while j < count
        invariant j <= count && Valid() && used == old(used) + RunSet(start, j)
      {
        PutBit(start + j, true);
        j := j + 1;
      }
    }

    /** alloc_frames: the lowest run of free frames, by address; 0 when there is none. */
    method AllocFrames(count: nat) returns (addr: nat)
      requires Valid()
      modifies this`used, bitmap
      ensures Valid() && addr % FRAME_SIZE == 0
      ensures addr == 0 <==> count == 0 || forall s: nat :: s + count <= total ==> !AllFree(old(used), s, count)
      ensures addr == 0 ==> used == old(used)
      ensures addr != 0 ==> addr / FRAME_SIZE + count <= total && AllFree(old(used), addr / FRAME_SIZE, count)
      ensures addr != 0 ==> used == old(used) + RunSet(addr / FRAME_SIZE, count)
      ensures addr != 0 ==> forall s: nat :: s < addr / FRAME_SIZE ==> !AllFree(old(used), s, count)
    {
      if count == 0 || count > total { return 0; }
      var start: nat := 0;
      while start <= total - count
        invariant start <= total - count + 1 && Valid() && used == old(used)
        invariant forall s: nat :: s < start ==> !AllFree(used, s, count)
      {
        var ok := RunFree(start, count);
        if ok {
          SetRun(start, count);
          return start * FRAME_SIZE;
        }
        start := start + 1;
      }
      addr := 0;
    }

    /** free_frames. */
    method FreeFrames(addr: nat, count: nat)
      requires Valid() && addr >= FRAME_SIZE
      modifies this`used, bitmap
      ensures Valid() && used == old(used) - RunSet(addr / FRAME_SIZE, count)
    {
      var start := addr / FRAME_SIZE;
      var j: nat := 0;
      while j < count
        invariant j <= count && Valid() && used == old(used) - RunSet(start, j)
      {
        if start + j < total { PutBit(start + j, false); }
        j := j + 1;
      }
    }
  }
}
