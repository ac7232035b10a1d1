/** The kernel heap: first-fit allocation over boundary tags.  Memory is addressed by word;
    pointers handed to callers are byte addresses just after a block's header. */
module Heap {
  import opened Bytes
  import opened HeapTiling

  const HEAP_START := 0x80_0000
  const HEAP_SIZE := 0x20_0000
  const WORDS := 0x8_0000
  const WRAP := 0x1_0000_0000
  const MIN_BLOCK := 12

  /** The payload pointer of the block that starts at word i. */
  function Pointer(i: int): int {
    HEAP_START + 4 * i + 4
  }

  /** `(size + 3) & ~3` in 32 bits. */
  function Rounded(size: u32): u32 {
    (size + 3) % WRAP / 4 * 4
  }

  /** The range test that free and realloc make on the header address. */
  predicate InHeap(ptr: u32) {
    HEAP_START <= ptr - 4 < HEAP_START + HEAP_SIZE
  }

  /** The header word of a payload pointer. */
  function Word(ptr: u32): nat
    requires InHeap(ptr)
  {
    (ptr - 4 - HEAP_START) / 4
  }

  lemma WordOfPointer(i: nat)
    requires i < WORDS
    ensures 0 < Pointer(i) < WRAP && InHeap(Pointer(i)) && Pointer(i) % 4 == 0 && Word(Pointer(i)) == i
  {}

  lemma RoundedUp(size: u32)
    ensures Rounded(size) % 4 == 0
    ensures size <= 0xFFFF_FFFC ==> size <= Rounded(size) < size + 4
    ensures size > 0xFFFF_FFFC ==> Rounded(size) == 0
  {
    if size <= 0xFFFF_FFFC {
      assert (size + 3) % WRAP == size + 3;
    } else {
      assert (size + 3) % WRAP == size + 3 - WRAP;
    }
  }

  /** Bytes of a block for a request of `size` bytes, computed in 32 bits. */
  function NeedBytes(size: u32): u32 {
    var need := (8 + Rounded(size)) % WRAP;
    if need < MIN_BLOCK then MIN_BLOCK else need
  }

  function Need(size: u32): nat {
    NeedBytes(size) / 4
  }

  /** The 32-bit sums wrap for the last eleven sizes, and only then the block is too small. */
  lemma NeedHolds(size: u32)
    ensures NeedBytes(size) % 4 == 0 && Need(size) >= MIN_WORDS
    ensures 4 * (Need(size) - 2) >= size <==> size <= 0xFFFF_FFF4
    ensures size > 0xFFFF_FFF4 ==> Need(size) == MIN_WORDS
    ensures size <= 0xFFFF_FFF4 ==> Need(size) == if size <= 4 then 3 else 2 + (size + 3) / 4
  {
    RoundedUp(size);
    hide Rounded;
    var sum: int := 8 + Rounded(size);
    if size <= 0xFFFF_FFF4 {
      assert sum % WRAP == sum;
    } else if size <= 0xFFFF_FFFC {
      assert sum % WRAP == sum - WRAP;
    }
  }

  /** Bit 0 of a header is the in-use bit; the other bits are the size. */
  lemma TagParts(tag: u32, words: int, used: bool)
    requires tag == 4 * words + (if used then 1 else 0)
    ensures tag / 2 * 2 == 4 * words && (tag % 2 == 0 <==> !used)
  {
    var half: int := 2 * words;
    if used { assert tag == 2 * half + 1; } else { assert tag == 2 * half; }
    assert tag / 2 == half;
  }

  /** Rounding first and then again changes nothing, short of the sizes that wrap. */
  lemma RoundedAgain(size: u32)
    requires 0 < size <= 0xFFFF_FFF4
    ensures 0 < Rounded(size) && Need(Rounded(size)) == Need(size) && (Rounded(size) > HEAP_SIZE <==> size > HEAP_SIZE)
  {
    RoundedUp(size);
    RoundedUp(Rounded(size));
    hide Rounded;
    assert Rounded(Rounded(size)) == Rounded(size);
  }

  ghost predicate Fits(t: Tiling, k: nat, need: nat)
    requires |t.cuts| == |t.used| + 1 && k < |t.used|
  {
    !t.used[k] && t.cuts[k] + need <= t.cuts[k + 1]
  }

  ghost predicate NoFitBefore(t: Tiling, n: nat, need: nat)
    requires |t.cuts| == |t.used| + 1 && n <= |t.used|
  {
    forall k :: 0 <= k < n ==> !Fits(t, k, need)
  }

  /** Block k is the lowest free block of at least `need` words. */
  ghost predicate FirstFit(t: Tiling, k: nat, need: nat) {
    |t.cuts| == |t.used| + 1 && k < |t.used| && Fits(t, k, need) && NoFitBefore(t, k, need)
  }

  ghost predicate NoFit(t: Tiling, need: nat) {
    |t.cuts| == |t.used| + 1 && NoFitBefore(t, |t.used|, need)
  }

  lemma FitExcludes(t: Tiling, k: nat, need: nat)
    ensures FirstFit(t, k, need) ==> !NoFit(t, need)
  {}

  /** A request finds no room when every free block is too short for it. */
  lemma NoFitMeans(t: Tiling, need: nat)
    requires |t.cuts| == |t.used| + 1
    ensures NoFit(t, need) <==> forall j :: 0 <= j < |t.used| ==> t.used[j] || t.cuts[j + 1] - t.cuts[j] < need
  {
    assert forall j :: 0 <= j < |t.used| ==> (Fits(t, j, need) <==> !t.used[j] && t.cuts[j + 1] - t.cuts[j] >= need);
  }

  /** What malloc computes for a request that is not too large. */
  lemma NeedOf(size: u32)
    requires 0 < size <= HEAP_SIZE
    ensures Rounded(size) + 8 < WRAP && (Rounded(size) + 8) % 4 == 0 && Rounded(size) + 8 >= MIN_BLOCK
    ensures Need(size) == (Rounded(size) + 8) / 4 && Need(size) >= MIN_WORDS
  {
    RoundedUp(size);
    hide Rounded;
  }

  /** Block k handed out for `need` words: split when the rest makes a block. */
  ghost function Allot(t: Tiling, k: nat, need: nat): Tiling
    requires |t.cuts| == |t.used| + 1 && k < |t.used|
  {
    if t.cuts[k] + need + MIN_WORDS <= t.cuts[k + 1] then Split(t, k, need) else Mark(t, k, true)
  }

  ghost function AllotSize(t: Tiling, k: nat, need: nat): int
    requires |t.cuts| == |t.used| + 1 && k < |t.used|
  {
    var lo: int, hi: int := t.cuts[k], t.cuts[k + 1];
    if lo + need + MIN_WORDS <= hi then need else hi - lo
  }

  /** Handing out block k adds one live block, of the needed size or up to two words more. */
  lemma AllotLaws(t: Tiling, m: nat, k: nat, need: nat)
    requires Shape(t, m) && k < |t.used| && need >= MIN_WORDS && t.cuts[k] + need <= t.cuts[k + 1]
    ensures Shape(Allot(t, k, need), m)
    ensures Live(Allot(t, k, need)) == Live(t)[t.cuts[k] := AllotSize(t, k, need)]
    ensures need <= AllotSize(t, k, need) < need + MIN_WORDS
    ensures Coalesced(t) && !t.used[k] ==> Coalesced(Allot(t, k, need))
  {
    hide Live, Coalesced;
    if t.cuts[k] + need + MIN_WORDS <= t.cuts[k + 1] {
      SplitShape(t, m, k, need);
      SplitLive(t, m, k, need);
      if Coalesced(t) && !t.used[k] { FreeSplitCoalesced(t, m, k, need); }
    } else {
      MarkLive(t, m, k);
      if Coalesced(t) { MarkCoalesced(t, k); }
    }
  }

  /** A grant of `need` words: the lowest free block that fits becomes the only new live block,
      and no word of a live block changes. */
  ghost predicate Granted(m: seq<u32>, t: Tiling, w: seq<u32>, s: Tiling, k: nat, need: nat) {
    && FirstFit(t, k, need) && |s.cuts| == |s.used| + 1 && t.cuts[k] !in Live(t)
    && need <= AllotSize(t, k, need) < need + MIN_WORDS
    && Live(s) == Live(t)[t.cuts[k] := AllotSize(t, k, need)]
    && Kept(m, w, Live(t))
    && (Coalesced(t) ==> Coalesced(s))
  }

  lemma AllotGranted(m: seq<u32>, t: Tiling, w: seq<u32>, k: nat, need: nat)
    requires Shape(t, |m|) && need >= MIN_WORDS && FirstFit(t, k, need)
    requires SameOutside(m, w, t.cuts[k], t.cuts[k + 1])
    ensures Granted(m, t, w, Allot(t, k, need), k, need)
  {
    AllotLaws(t, |m|, k, need);
    StartFree(t, |m|, k);
    hide Live, Coalesced, Allot, AllotSize;
    Spares(m, w, t, k, k + 1, Live(t));
  }

  /** The words i + 1 .. i + 1 + n of m are the words at + 1 .. at + 1 + n of w. */
  ghost predicate Copied(m: seq<u32>, i: nat, w: seq<u32>, at: nat, n: int) {
    0 <= n && i + n < |m| && at + n < |w| && w[at + 1..at + 1 + n] == m[i + 1..i + 1 + n]
  }

  /** Block k, in use, cut down to `need` words in place: its payload stays, up to its new size. */
  ghost predicate Shrunk(m: seq<u32>, t: Tiling, w: seq<u32>, s: Tiling, k: nat, need: nat) {
    && k < |t.used| && t.used[k] && |t.cuts| == |t.used| + 1 && |s.cuts| == |s.used| + 1
    && need <= AllotSize(t, k, need) < need + MIN_WORDS
    && Live(s) == Live(t)[t.cuts[k] := AllotSize(t, k, need)]
    && Copied(m, t.cuts[k], w, t.cuts[k], AllotSize(t, k, need) - 2)
    && Kept(m, w, Live(t) - {t.cuts[k]})
    && (Coalesced(t) ==> (Coalesced(s) <==> !LeavesPair(t, k, need)))
  }

  /** The cut-off remainder would lie before a free block. */
  ghost predicate LeavesPair(t: Tiling, k: nat, need: nat)
    requires |t.cuts| == |t.used| + 1 && k < |t.used|
  {
    t.cuts[k] + need + MIN_WORDS <= t.cuts[k + 1] && k + 1 < |t.used| && !t.used[k + 1]
  }

  /** The block at i given up for the first fit k of `need` words, with its payload copied. */
  ghost predicate Moved(m: seq<u32>, t: Tiling, w: seq<u32>, s: Tiling, i: nat, k: nat, need: nat) {
    && FirstFit(t, k, need) && |s.cuts| == |s.used| + 1 && t.cuts[k] !in Live(t) && i in Live(t)
    && need <= AllotSize(t, k, need) < need + MIN_WORDS
    && Live(s) == Live(t)[t.cuts[k] := AllotSize(t, k, need)] - {i}
    && Copied(m, i, w, t.cuts[k], Live(t)[i] - 2)
    && Kept(m, w, Live(t) - {i})
    && (Coalesced(t) ==> Coalesced(s))
  }

  lemma AllotShrinks(m: seq<u32>, t: Tiling, w: seq<u32>, k: nat, need: nat)
    requires Shape(t, |m|) && need >= MIN_WORDS && k < |t.used| && t.used[k] && t.cuts[k] + need <= t.cuts[k + 1]
    requires SameOutside(m, w, t.cuts[k], t.cuts[k + 1])
    requires Copied(m, t.cuts[k], w, t.cuts[k], AllotSize(t, k, need) - 2)
    ensures Shrunk(m, t, w, Allot(t, k, need), k, need)
  {
    AllotLaws(t, |m|, k, need);
    hide Live, Coalesced, Allot, AllotSize, Copied, LeavesPair;
    if Coalesced(t) { ShrinkCoalesced(t, |m|, k, need); }
    Spares(m, w, t, k, k + 1, Live(t) - {t.cuts[k]});
  }

  /** Cutting a block down leaves two free neighbours exactly when the remainder meets a free block. */
  lemma ShrinkCoalesced(t: Tiling, m: nat, k: nat, need: nat)
    requires Shape(t, m) && need >= MIN_WORDS && k < |t.used| && t.cuts[k] + need <= t.cuts[k + 1] && Coalesced(t)
    ensures |Allot(t, k, need).cuts| == |Allot(t, k, need).used| + 1
    ensures Coalesced(Allot(t, k, need)) <==> !LeavesPair(t, k, need)
  {
    if t.cuts[k] + need + MIN_WORDS <= t.cuts[k + 1] { SplitCoalesced(t, m, k, need); } else { MarkCoalesced(t, k); }
  }

  /** Writing inside the payload of block k. */
  lemma PayloadWritten(m: seq<u32>, t: Tiling, k: nat, w: seq<u32>)
    requires Tiled(m, t) && k < |t.used| && SameOutside(m, w, t.cuts[k] + 1, t.cuts[k + 1] - 1)
    ensures Tiled(w, t) && Kept(m, w, Live(t) - {t.cuts[k]})
  {
    assert Tagged(m, t, k);
    MarkTiled(m, t, k, t.used[k], w);
    assert Mark(t, k, t.used[k]) == t;
    hide Live;
    Spares(m, w, t, k, k + 1, Live(t) - {t.cuts[k]});
  }

  /** A kept block carries its payload along. */
  lemma CopiedKept(m: seq<u32>, i: nat, w: seq<u32>, at: nat, n: int, x: seq<u32>, live: map<nat, int>)
    requires Copied(m, i, w, at, n) && Kept(w, x, live) && at in live && n + 2 <= live[at]
    ensures Copied(m, i, x, at, n)
  {
    assert KeptRun(w, x, at, live[at]);
    assert x[at + 1..at + 1 + n] == w[at + 1..at + 1 + n];
  }

  lemma CopiedFrom(m: seq<u32>, w: seq<u32>, i: nat, x: seq<u32>, at: nat, n: int, live: map<nat, int>)
    requires Copied(w, i, x, at, n) && Kept(m, w, live) && i in live && n + 2 <= live[i]
    ensures Copied(m, i, x, at, n)
  {
    assert KeptRun(m, w, i, live[i]);
    assert w[i + 1..i + 1 + n] == m[i + 1..i + 1 + n];
  }

  lemma GrantedFacts(m: seq<u32>, t: Tiling, w: seq<u32>, s: Tiling, k: nat, need: nat, i: nat)
    requires Granted(m, t, w, s, k, need) && Shape(t, WORDS) && i in Live(t)
    ensures |s.cuts| == |s.used| + 1 && i in Live(s) && Live(s)[i] == Live(t)[i]
    ensures k < |t.used| && t.cuts[k] in Live(s) && need <= Live(s)[t.cuts[k]] && t.cuts[k] != i && t.cuts[k] < WORDS
  {
    InOrder(t, WORDS, k + 1, |t.used|);
  }

  /** Malloc, copy and free, one after the other, move a block. */
  lemma MoveLaws(m: seq<u32>, t: Tiling, m1: seq<u32>, s: Tiling, k: nat, need: nat, i: nat, m2: seq<u32>,
                 w: seq<u32>, u: Tiling)
    requires Granted(m, t, m1, s, k, need) && i in Live(t) && Live(t)[i] < need
    requires Copied(m1, i, m2, t.cuts[k], Live(t)[i] - 2) && Kept(m1, m2, Live(s) - {t.cuts[k]})
    requires |u.cuts| == |u.used| + 1 && Live(u) == Live(s) - {i} && Kept(m2, w, Live(u))
    requires Coalesced(s) ==> Coalesced(u)
    ensures Moved(m, t, w, u, i, k, need)
  {
    assert |t.cuts| == |t.used| + 1 && k < |t.used|;
    hide Kept, Copied, Coalesced, Live, FirstFit, AllotSize;
    var rest := Live(t) - {i};
    CopiedFrom(m, m1, i, m2, t.cuts[k], Live(t)[i] - 2, Live(t));
    CopiedKept(m, i, m2, t.cuts[k], Live(t)[i] - 2, w, Live(u));
    KeptLess(m, m1, Live(t), rest);
    KeptLess(m1, m2, Live(s) - {t.cuts[k]}, rest);
    KeptLess(m2, w, Live(u), rest);
    KeptTwice(m, m1, m2, rest);
    KeptTwice(m, m2, w, rest);
  }

  lemma GrantedSize(m: seq<u32>, t: Tiling, w: seq<u32>, s: Tiling, k: nat, size: u32)
    requires Granted(m, t, w, s, k, Need(size)) && size <= HEAP_SIZE
    ensures t.cuts[k] in Live(s) && 4 * (Live(s)[t.cuts[k]] - 2) >= size
  {
    NeedHolds(size);
  }

  /** The payload of a block of n words at word i: from the pointer to the last word, its footer. */
  lemma PayloadSpan(i: nat, n: int, size: u32)
    requires i < WORDS && 4 * (n - 2) >= size
    ensures 0 < Pointer(i) == 0x80_0004 + 4 * i && Pointer(i) + size <= 0x80_0000 + 4 * (i + n - 1)
  {}

  function Min(a: int, b: int): int {
    if a < b then a else b
  }

  /** What a caller of realloc gets: the block at i replaced by the one behind r, large enough
      unless the size wrapped, with the common part of the payload, and every other live block as it was. */
  ghost predicate Resized(m: seq<u32>, t: Tiling, w: seq<u32>, s: Tiling, i: nat, r: u32, size: u32) {
    && |t.cuts| == |t.used| + 1 && |s.cuts| == |s.used| + 1 && i in Live(t) && InHeap(r) && Word(r) in Live(s)
    && Live(s) - {Word(r)} == Live(t) - {i} && (Word(r) == i || Word(r) !in Live(t))
    && (4 * (Live(s)[Word(r)] - 2) >= size <==> size <= 0xFFFF_FFF4)
    && (size <= HEAP_SIZE ==> Copied(m, i, w, Word(r), Min(Live(t)[i] - 2, Rounded(size) / 4)))
    && Kept(m, w, Live(t) - {i})
  }

  lemma CopiedLess(m: seq<u32>, i: nat, w: seq<u32>, at: nat, n: int, less: int)
    requires Copied(m, i, w, at, n) && 0 <= less <= n
    ensures Copied(m, i, w, at, less)
  {
    assert w[at + 1..at + 1 + less] == w[at + 1..at + 1 + n][..less];
    assert m[i + 1..i + 1 + less] == m[i + 1..i + 1 + n][..less];
  }

  lemma ShrunkResizes(m: seq<u32>, t: Tiling, w: seq<u32>, s: Tiling, i: nat, k: nat, r: u32, size: u32)
    requires Shrunk(m, t, w, s, k, Need(size)) && t.cuts[k] == i
    requires i in Live(t) && 0 < size && i < WORDS && r == Pointer(i)
    requires Need(size) <= Live(t)[i]
    ensures Resized(m, t, w, s, i, r, size)
  {
    WordOfPointer(i);
    NeedHolds(size);
    hide Live, Coalesced, Kept, Copied, LeavesPair;
    assert Live(s) - {i} == Live(t) - {i};
    if size <= HEAP_SIZE {
      RoundedNeed(size);
      CopiedLess(m, i, w, i, AllotSize(t, k, Need(size)) - 2, Min(Live(t)[i] - 2, Rounded(size) / 4));
    }
  }

  lemma RoundedNeed(size: u32)
    requires 0 < size <= HEAP_SIZE
    ensures Rounded(size) / 4 == Need(size) - 2
  {}

  lemma MovedInside(m: seq<u32>, t: Tiling, w: seq<u32>, s: Tiling, i: nat, k: nat, need: nat)
    requires Moved(m, t, w, s, i, k, need) && Shape(t, WORDS)
    ensures t.cuts[k] < WORDS
  {
    InOrder(t, WORDS, k + 1, |t.used|);
  }

  lemma MovedResizes(m: seq<u32>, t: Tiling, w: seq<u32>, s: Tiling, i: nat, k: nat, r: u32, size: u32)
    requires Moved(m, t, w, s, i, k, Need(size)) && 0 < size && t.cuts[k] < WORDS && r == Pointer(t.cuts[k])
    requires Live(t)[i] < Need(size)
    ensures Resized(m, t, w, s, i, r, size)
  {
    WordOfPointer(t.cuts[k]);
    NeedHolds(size);
    hide Live, Coalesced, Kept, Copied, FirstFit;
    assert Live(s) - {t.cuts[k]} == Live(t) - {i};
    if size <= HEAP_SIZE { RoundedNeed(size); }
  }

  /** Byte b of the payload of the block at i. */
  function PayloadByte(m: seq<u32>, i: nat, b: nat): byte
    requires i + 1 + b / 4 < |m|
  {
    ByteOf(m[i + 1 + b / 4], b % 4)
  }

  /** The first `bytes` bytes of the payload of the block at i are zero. */
  ghost predicate Zeroed(m: seq<u32>, i: nat, bytes: nat) {
    i + 1 + (bytes + 3) / 4 <= |m| && forall b: nat :: b < bytes ==> PayloadByte(m, i, b) == 0
  }

  /** The same by words: the whole ones, and the low bytes of a last one. */
  ghost predicate ZeroWords(m: seq<u32>, i: nat, bytes: nat) {
    && i + 1 + (bytes + 3) / 4 <= |m|
    && (forall j :: i < j < i + 1 + bytes / 4 ==> m[j] == 0)
    && (bytes % 4 != 0 ==> m[i + 1 + bytes / 4] % Bytes256(bytes % 4) == 0)
  }

  lemma ZeroBytes(m: seq<u32>, i: nat, bytes: nat)
    requires ZeroWords(m, i, bytes)
    ensures Zeroed(m, i, bytes)
  {
    forall b: nat | b < bytes ensures PayloadByte(m, i, b) == 0 {
      if b / 4 < bytes / 4 {
        assert m[i + 1 + b / 4] == 0;
      } else {
        LowBytes(m[i + 1 + b / 4], bytes % 4, b % 4);
      }
    }
  }

  lemma LowBytes(w: u32, n: nat, k: nat)
    requires k < n < 4 && w % Bytes256(n) == 0
    ensures ByteOf(w, k) == 0
  {
    if n == 2 { TwoLow(w); }
    if n == 3 { ThreeLow(w); }
  }

  lemma TwoLow(w: u32)
    requires w % 0x1_0000 == 0
    ensures w % 0x100 == 0 && w / 0x100 % 0x100 == 0
  {
    var q := w / 0x1_0000;
    assert w == 0x100 * (0x100 * q);
  }

  lemma ThreeLow(w: u32)
    requires w % 0x100_0000 == 0
    ensures w % 0x100 == 0 && w / 0x100 % 0x100 == 0 && w / 0x1_0000 % 0x100 == 0
  {
    var q := w / 0x100_0000;
    assert w == 0x1_0000 * (0x100 * q);
    TwoLow(w);
    assert w / 0x1_0000 == 0x100 * q;
  }

  /** 256 to the power n, for the bytes of a word that are not whole. */
  function Bytes256(n: nat): int {
    if n == 1 then 0x100 else if n == 2 then 0x1_0000 else 0x100_0000
  }

  lemma ClearLow(w: u32, n: nat)
    ensures 0 <= w - w % Bytes256(n) <= w && (w - w % Bytes256(n)) % Bytes256(n) == 0
  {}

  lemma GrantedStart(m: seq<u32>, t: Tiling, w: seq<u32>, s: Tiling, k: nat, need: nat)
    requires Granted(m, t, w, s, k, need) && Shape(t, WORDS)
    ensures k < |t.used| && t.cuts[k] < WORDS && t.cuts[k] in Live(s)
  {
    InOrder(t, WORDS, k + 1, |t.used|);
  }

  /** Writing the payload of the new block leaves the grant as it is. */
  lemma GrantedFilled(m: seq<u32>, t: Tiling, w: seq<u32>, s: Tiling, k: nat, need: nat, x: seq<u32>)
    requires Granted(m, t, w, s, k, need) && Kept(w, x, Live(s) - {t.cuts[k]})
    ensures Granted(m, t, x, s, k, need)
  {
    assert k < |t.used|;
    hide Live, Kept, FirstFit, Coalesced;
    KeptLess(w, x, Live(s) - {t.cuts[k]}, Live(t));
    KeptTwice(m, w, x, Live(t));
  }

  /** The division in calloc tells exactly when the product leaves 32 bits. */
  lemma NoOverflow(num: nat, size: nat, max: nat)
    requires size > 0
    ensures num > max / size <==> num * size > max
  {
    var q := max / size;
    if num <= q { assert num * size <= q * size; } else { assert num * size >= (q + 1) * size; }
  }

  class Heap {
    const mem: array<u32>
    ghost var tiling: Tiling

    ghost predicate Valid()
      reads this, mem
    {
      mem.Length == WORDS && Tiled(mem[..], tiling)
    }

    /** Sizes of the blocks in use, by first word. */
    ghost function Blocks(): map<nat, int>
      requires Valid()
      reads this, mem
    {
      Live(tiling)
    }

    /** heap_init: one free block. */
    constructor (memory: array<u32>)
      requires memory.Length == WORDS
      modifies memory
      ensures mem == memory && Valid() && tiling == Tiling([0, WORDS], [false])
    {
      mem := memory;
      tiling := Tiling([0, WORDS], [false]);
      new;
      Retag(0, HEAP_SIZE, false);
    }

    /** `*hdr = bytes` (or `bytes | 1`) and `set_footer`. */
    method Retag(i: nat, bytes: u32, used: bool)
      requires bytes % 4 == 0 && bytes >= MIN_BLOCK && i + bytes / 4 <= mem.Length
      modifies mem
      ensures SameOutside(old(mem[..]), mem[..], i, i + bytes / 4) && Tags(mem[..], i, bytes / 4, used)
      ensures forall j :: i < j < i + bytes / 4 - 1 ==> mem[j] == old(mem[j])
    {
      mem[i] := bytes + (if used then 1 else 0);
      mem[i + bytes / 4 - 1] := bytes;
    }

    /** The block that starts at word i is tagged as the tiling says. */
    lemma HeaderOf(k: nat)
      requires Valid() && k < |tiling.used|
      ensures |tiling.cuts| == |tiling.used| + 1 && tiling.cuts[k] + MIN_WORDS <= tiling.cuts[k + 1] <= WORDS
      ensures mem[tiling.cuts[k]] == 4 * (tiling.cuts[k + 1] - tiling.cuts[k]) + (if tiling.used[k] then 1 else 0)
      ensures mem[tiling.cuts[k + 1] - 1] == 4 * (tiling.cuts[k + 1] - tiling.cuts[k])
    {
      assert Tagged(mem[..], tiling, k);
      InOrder(tiling, WORDS, k + 1, |tiling.used|);
    }

    lemma NotFirst(k: nat)
      requires Valid() && k < |tiling.used| && tiling.cuts[k] > 0
      ensures k > 0
    {}

    /** `*hdr & ~1` and `!(*hdr & 1)` of block k. */
    method Header(ghost k: nat, i: nat) returns (size: u32, isFree: bool)
      requires Valid() && k < |tiling.used| && i == tiling.cuts[k]
      ensures size == 4 * (tiling.cuts[k + 1] - tiling.cuts[k]) && isFree == !tiling.used[k]
      ensures tiling.cuts[k] + MIN_WORDS <= tiling.cuts[k + 1] <= WORDS
    {
      HeaderOf(k);
      TagParts(mem[i], tiling.cuts[k + 1] - tiling.cuts[k], tiling.used[k]);
      hide Tiled;
      size, isFree := mem[i] / 2 * 2, mem[i] % 2 == 0;
    }

    /** Cutting `need` bytes off the front of block k, the rest becoming a free block. */
    method SplitBlock(ghost k: nat, i: nat, need: u32, remaining: u32)
      requires Valid() && k < |tiling.used| && i == tiling.cuts[k]
      requires need % 4 == 0 && need >= MIN_BLOCK && remaining >= MIN_BLOCK
      requires need + remaining == 4 * (tiling.cuts[k + 1] - tiling.cuts[k])
      modifies this, mem
      ensures Valid() && tiling == Split(old(tiling), k, need / 4)
      ensures SameOutside(old(mem[..]), mem[..], i, i + (need + remaining) / 4)
      ensures forall j :: i < j < i + need / 4 - 1 ==> mem[j] == old(mem[j])
    {
      ghost var m := mem[..];
      ghost var t := tiling;
      HeaderOf(k);
      hide Tiled;
      Retag(i, need, true);
      Retag(i + need / 4, remaining, false);
      SplitTiled(m, t, k, need / 4, mem[..]);
      tiling := Split(t, k, need / 4);
    }

    /** malloc once a free block is found: split it or hand it out whole. */
    method Take(ghost k: nat, i: nat, need: u32)
      requires Valid() && k < |tiling.used| && i == tiling.cuts[k]
      requires need % 4 == 0 && need >= MIN_BLOCK && tiling.cuts[k] + need / 4 <= tiling.cuts[k + 1] && !tiling.used[k]
      modifies this, mem
      ensures Valid() && tiling == Allot(old(tiling), k, need / 4)
      ensures SameOutside(old(mem[..]), mem[..], old(tiling).cuts[k], old(tiling).cuts[k + 1])
    {
      HeaderOf(k);
      ghost var m := mem[..];
      var blockSize := mem[i];
      var remaining: u32 := blockSize - need;
      if remaining >= MIN_BLOCK {
        SplitBlock(k, i, need, remaining);
      } else {
        Retag(i, blockSize, true);
        MarkTiled(m, tiling, k, true, mem[..]);
        tiling := Mark(tiling, k, true);
      }
    }

    /** The walk over the blocks, from the start of the heap. */
    method FindFit(need: u32) returns (found: bool, i: nat, ghost k: nat)
      requires Valid() && need % 4 == 0
      ensures found ==> FirstFit(tiling, k, need / 4) && i == tiling.cuts[k]
      ensures !found ==> NoFit(tiling, need / 4)
    {
      HeaderOf(0);
      i, k := 0, 0;
      hide Tiled;
      while i < WORDS
        invariant |tiling.cuts| == |tiling.used| + 1 && k <= |tiling.used| && i == tiling.cuts[k]
        invariant NoFitBefore(tiling, k, need / 4)
        invariant i < WORDS <==> k < |tiling.used|
        decreases WORDS - i
      {
        var blockSize, isFree := Header(k, i);
        if blockSize == 0 || blockSize > HEAP_SIZE { assert false; }
        if isFree && blockSize >= need { return true, i, k; }
        i := i + blockSize / 4;
        k := k + 1;
        Ends(k);
      }
      found := false;
    }

    lemma Ends(k: nat)
      requires Valid() && k < |tiling.cuts|
      ensures tiling.cuts[k] < WORDS <==> k < |tiling.used|
    {}

    /** malloc_impl. */
    method Malloc(size: u32) returns (ptr: u32, ghost k: nat)
      requires Valid()
      modifies this, mem
      ensures Valid()
      ensures ptr == 0 <==> size == 0 || size > HEAP_SIZE || NoFit(old(tiling), Need(size))
      ensures |old(tiling).cuts| == |old(tiling).used| + 1
      ensures ptr == 0 <==> size == 0 || size > HEAP_SIZE || forall j :: 0 <= j < |old(tiling).used| ==>
        old(tiling).used[j] || old(tiling).cuts[j + 1] - old(tiling).cuts[j] < Need(size)
      ensures ptr == 0 ==> tiling == old(tiling) && mem[..] == old(mem[..])
      ensures ptr != 0 ==> Granted(old(mem[..]), old(tiling), mem[..], tiling, k, Need(size))
      ensures ptr != 0 ==> FirstFit(old(tiling), k, Need(size)) && tiling == Allot(old(tiling), k, Need(size))
      ensures ptr != 0 ==> ptr == Pointer(old(tiling).cuts[k]) && 4 * (Blocks()[old(tiling).cuts[k]] - 2) >= size
      ensures ptr != 0 ==> var lo: int := old(tiling).cuts[k];
        ptr == 0x80_0004 + 4 * lo && ptr + size <= 0x80_0000 + 4 * (lo + Blocks()[lo] - 1)
    {
      NoFitMeans(tiling, Need(size));
      hide SameOutside, Granted, Live, Allot, NoFitBefore, NoFit, Need, Rounded, Pointer;
      k := 0;
      if size == 0 || size > HEAP_SIZE { return 0, k; }
      NeedOf(size);
      var need: u32 := Rounded(size) + 8;
      var found, i;
      found, i, k := FindFit(need);
      FitExcludes(tiling, k, need / 4);
      if !found { return 0, k; }
      HeaderOf(k);
      ghost var m, t := mem[..], tiling;
      assert Shape(t, |m|);
      hide Tiled, Shape;
      Take(k, i, need);
      ptr := Pointer(i);
      AllotGranted(m, t, mem[..], k, need / 4);
      GrantedSize(m, t, mem[..], tiling, k, size);
      PayloadSpan(i, Blocks()[i], size);
    }

    /** Clearing the in-use bit of block k. */
    method Unmark(ghost k: nat, i: nat)
      requires Valid() && k < |tiling.used| && i == tiling.cuts[k] && tiling.used[k]
      modifies this, mem
      ensures Valid() && tiling == Mark(old(tiling), k, false) && Kept(old(mem[..]), mem[..], Blocks())
    {
      HeaderOf(k);
      ghost var m, t := mem[..], tiling;
      var size, isFree := Header(k, i);
      Retag(i, size, false);
      MarkTiled(m, t, k, false, mem[..]);
      tiling := Mark(t, k, false);
      UnmarkLive(t, WORDS, k);
      assert Shape(t, |m|);
      hide Tiled, Live;
      Spares(m, mem[..], t, k, k + 1, Live(tiling));
    }

    lemma KeptSelf()
      requires Valid()
      ensures Kept(mem[..], mem[..], Blocks())
    {
      Spares(mem[..], mem[..], tiling, 0, 0, Blocks());
    }

    /** Joining the free block k with a free successor. */
    method MergeNext(ghost k: nat, i: nat)
      requires Valid() && k < |tiling.used| && i == tiling.cuts[k] && !tiling.used[k]
      modifies this, mem
      ensures Valid() && tiling == JoinNext(old(tiling), k) && Kept(old(mem[..]), mem[..], old(Blocks()))
    {
      HeaderOf(k);
      KeptSelf();
      hide Tiled, Kept, Live, Merge;
      var size := mem[i];
      var next := i + size / 4;
      Ends(k + 1);
      if next < WORDS {
        var nextSize, isFree := Header(k + 1, next);
        if nextSize >= MIN_BLOCK && nextSize < HEAP_SIZE && isFree {
          Join(k, i, size + nextSize);
        }
      }
    }

    /** Joining the free block k with a free predecessor, unless it starts at or before the fourth word. */
    method MergePrev(ghost k: nat, i: nat)
      requires Valid() && k < |tiling.used| && i == tiling.cuts[k] && !tiling.used[k]
      modifies this, mem
      ensures Valid() && tiling == JoinPrev(old(tiling), k) && Kept(old(mem[..]), mem[..], old(Blocks()))
    {
      hide Tiled, Kept, Live, Merge;
      HeaderOf(k);
      KeptSelf();
      var size := mem[i];
      if i > MIN_WORDS {
        NotFirst(k);
        HeaderOf(k - 1);
        var prevSize := mem[i - 1];
        if prevSize >= MIN_BLOCK && prevSize < HEAP_SIZE {
          var prev := i - prevSize / 4;
          if prev >= 0 && prev < i && mem[prev] % 2 == 0 {
            Join(k - 1, prev, size + prevSize);
          }
        }
      }
    }

    /** Tagging blocks k and k + 1, both free, as one. */
    method Join(ghost k: nat, i: nat, bytes: u32)
      requires Valid() && k + 1 < |tiling.used| && i == tiling.cuts[k] && !tiling.used[k] && !tiling.used[k + 1]
      requires bytes == 4 * (tiling.cuts[k + 2] - tiling.cuts[k])
      modifies this, mem
      ensures Valid() && tiling == Merge(old(tiling), k) && Kept(old(mem[..]), mem[..], old(Blocks()))
    {
      HeaderOf(k);
      HeaderOf(k + 1);
      ghost var m, t := mem[..], tiling;
      assert Shape(t, |m|);
      StartFree(t, WORDS, k);
      StartFree(t, WORDS, k + 1);
      hide Tiled, Live;
      Retag(i, bytes, false);
      MergeTiled(m, t, k, mem[..]);
      Spares(m, mem[..], t, k, k + 2, Live(t));
      tiling := Merge(t, k);
    }

    /** Pointers the callers may pass back: live ones, and those that the checks turn away. */
    ghost predicate Passable(ptr: u32)
      requires Valid()
      reads this, mem
    {
      InHeap(ptr) ==> ptr % 4 == 0 && (Word(ptr) in Blocks() || mem[Word(ptr)] % 2 == 0)
    }

    ghost predicate Owned(ptr: u32)
      requires Valid()
      reads this, mem
    {
      InHeap(ptr) && ptr % 4 == 0 && Word(ptr) in Blocks()
    }

    /** The tags of the block behind an owned pointer. */
    lemma OwnedBlock(ptr: u32) returns (k: nat)
      requires Valid() && Owned(ptr)
      ensures k < |tiling.used| && tiling.used[k] && tiling.cuts[k] == Word(ptr)
      ensures tiling.cuts[k + 1] - tiling.cuts[k] == Blocks()[Word(ptr)]
      ensures mem[Word(ptr)] == 4 * Blocks()[Word(ptr)] + 1
    {
      k := LiveSound(tiling, |tiling.used|, Word(ptr));
      HeaderOf(k);
    }

    /** Giving up block k and joining it with its free neighbours. */
    method GiveUp(ghost k: nat, i: nat)
      requires Valid() && k < |tiling.used| && i == tiling.cuts[k] && tiling.used[k]
      modifies this, mem
      ensures Valid() && tiling == Release(old(tiling), k) && Kept(old(mem[..]), mem[..], Blocks())
      ensures Blocks() == old(Blocks()) - {i} && (old(Coalesced(tiling)) ==> Coalesced(tiling))
    {
      ghost var m, t := mem[..], tiling;
      assert Shape(t, WORDS);
      ReleaseLaws(t, WORDS, k);
      UnmarkLive(t, WORDS, k);
      Unmark(k, i);
      assert Shape(tiling, WORDS);
      hide Tiled, Shape, Kept, Coalesced, Live, Merge;
      ghost var m1, live := mem[..], Blocks();
      JoinNextLaws(tiling, WORDS, k);
      MergeNext(k, i);
      ghost var m2 := mem[..];
      KeptTwice(m, m1, m2, live);
      MergePrev(k, i);
      KeptTwice(m, m2, mem[..], live);
    }

    /** free_impl. */
    method Free(ptr: u32)
      requires Valid() && Passable(ptr)
      modifies this, mem
      ensures Valid()
      ensures !old(Owned(ptr)) ==> tiling == old(tiling) && mem[..] == old(mem[..])
      ensures old(Owned(ptr)) ==> Blocks() == old(Blocks()) - {Word(ptr)} && Kept(old(mem[..]), mem[..], Blocks())
      ensures old(Owned(ptr) && Coalesced(tiling)) ==> Coalesced(tiling)
    {
      if ptr == 0 || !InHeap(ptr) { return; }
      var i := Word(ptr);
      if mem[i] % 2 == 0 {
        if Owned(ptr) { var k := OwnedBlock(ptr); }
        return;
      }
      ghost var k := OwnedBlock(ptr);
      GiveUp(k, i);
    }

    /** realloc in place. */
    method Shrink(ghost k: nat, i: nat, need: u32)
      requires Valid() && k < |tiling.used| && i == tiling.cuts[k] && tiling.used[k]
      requires need % 4 == 0 && need >= MIN_BLOCK && tiling.cuts[k] + need / 4 <= tiling.cuts[k + 1]
      modifies this, mem
      ensures Valid() && Shrunk(old(mem[..]), old(tiling), mem[..], tiling, k, need / 4)
    {
      ghost var m, t := mem[..], tiling;
      assert Shape(t, |m|) && |m| == WORDS;
      var oldSize, isFree := Header(k, i);
      var remaining: u32 := oldSize - need;
      hide Tiled, Shape, Shrunk;
      if remaining >= MIN_BLOCK {
        SplitBlock(k, i, need, remaining);
      }
      assert t.used[k := true] == t.used;
      AllotShrinks(m, t, mem[..], k, need / 4);
    }

    /** Copying n words to another place in the heap. */
    method CopyWords(to: nat, from: nat, n: nat)
      requires to + n <= mem.Length && from + n <= mem.Length && (to + n <= from || from + n <= to)
      modifies mem
      ensures mem[to..to + n] == old(mem[from..from + n]) && SameOutside(old(mem[..]), mem[..], to, to + n)
    {
      var j := 0;
      while j < n
        invariant j <= n && mem[to..to + j] == old(mem[from..from + j])
        invariant forall l :: 0 <= l < mem.Length && !(to <= l < to + j) ==> mem[l] == old(mem[l])
      {
        mem[to + j] := mem[from + j];
        assert mem[to..to + j + 1] == mem[to..to + j] + [mem[to + j]];
        assert old(mem[from..from + j + 1]) == old(mem[from..from + j]) + [old(mem[from + j])];
        j := j + 1;
      }
    }

    /** `(old_size - 8) / 4` of a live block. */
    method PayloadWords(i: nat) returns (n: nat)
      requires Valid() && i in Blocks()
      ensures n == Blocks()[i] - 2
    {
      hide Live;
      ghost var b := BlockOf(i);
      var oldSize, isFree := Header(b, i);
      n := oldSize / 4 - 2;
    }

    /** The block that starts at a live word. */
    lemma BlockOf(i: nat) returns (k: nat)
      requires Valid() && i in Blocks()
      ensures k < |tiling.used| && tiling.used[k] && tiling.cuts[k] == i && tiling.cuts[k + 1] == i + Blocks()[i]
      ensures i + Blocks()[i] <= WORDS
    {
      k := LiveSound(tiling, |tiling.used|, i);
      InOrder(tiling, WORDS, k + 1, |tiling.used|);
    }

    /** Filling n payload words of the live block `to` from the live block `from`. */
    method Fill(to: nat, from: nat, n: nat)
      requires Valid() && to in Blocks() && from in Blocks() && to != from
      requires n + 2 <= Blocks()[to] && n + 2 <= Blocks()[from]
      modifies mem
      ensures Valid() && Copied(old(mem[..]), from, mem[..], to, n) && Kept(old(mem[..]), mem[..], Blocks() - {to})
    {
      ghost var m := mem[..];
      if to < from { LiveApart(tiling, WORDS, to, from); } else { LiveApart(tiling, WORDS, from, to); }
      ghost var k := BlockOf(to);
      hide Tiled, Live;
      CopyWords(to + 1, from + 1, n);
      PayloadWritten(m, tiling, k, mem[..]);
    }

    /** The end of realloc: the payload copied over, the old block freed. */
    method CopyAndFree(to: nat, from: nat, n: nat) returns (ghost mid: seq<u32>)
      requires Valid() && to in Blocks() && from in Blocks() && to != from
      requires n + 2 <= Blocks()[to] && n + 2 <= Blocks()[from]
      modifies this, mem
      ensures Valid() && Copied(old(mem[..]), from, mid, to, n) && Kept(old(mem[..]), mid, old(Blocks()) - {to})
      ensures Kept(mid, mem[..], Blocks()) && Blocks() == old(Blocks()) - {from}
      ensures old(Coalesced(tiling)) ==> Coalesced(tiling)
    {
      hide Tiled, Live, Kept, Copied, Coalesced, Release;
      Fill(to, from, n);
      mid := mem[..];
      ghost var c := BlockOf(from);
      GiveUp(c, from);
    }

    /** realloc to another block. */
    method Move(i: nat, size: u32) returns (r: u32, ghost k: nat)
      requires Valid() && i in Blocks() && size > 0 && Need(size) > Blocks()[i]
      modifies this, mem
      ensures Valid()
      ensures r == 0 <==> size > HEAP_SIZE || NoFit(old(tiling), Need(size))
      ensures r == 0 ==> tiling == old(tiling) && mem[..] == old(mem[..])
      ensures r != 0 ==>
        Moved(old(mem[..]), old(tiling), mem[..], tiling, i, k, Need(size)) && r == Pointer(old(tiling).cuts[k])
    {
      hide Tagged, Live, NoFit, Kept, Copied, AllotSize, Moved, Granted, Need, Coalesced, FirstFit, Pointer, Word,
        InHeap, Allot;
      ghost var m, t := mem[..], tiling;
      var n := PayloadWords(i);
      assert Shape(t, WORDS);
      hide Tiled, Shape;
      r, k := Malloc(size);
      if r == 0 { return; }
      ghost var m1, s := mem[..], tiling;
      GrantedFacts(m, t, m1, s, k, Need(size), i);
      WordOfPointer(t.cuts[k]);
      ghost var m2 := CopyAndFree(Word(r), i, n);
      MoveLaws(m, t, m1, s, k, Need(size), i, m2, mem[..], tiling);
    }

    /** realloc_impl on a live pointer and a non-zero size. */
    method Resize(ptr: u32, size: u32) returns (r: u32, ghost k: nat)
      requires Valid() && Owned(ptr) && size > 0
      modifies this, mem
      ensures Valid()
      ensures Need(size) <= old(Blocks())[Word(ptr)] ==>
        && r == ptr && Shrunk(old(mem[..]), old(tiling), mem[..], tiling, k, Need(size))
        && old(tiling).cuts[k] == Word(ptr)
      ensures Need(size) > old(Blocks())[Word(ptr)] ==> (r == 0 <==> size > HEAP_SIZE || NoFit(old(tiling), Need(size)))
      ensures Need(size) > old(Blocks())[Word(ptr)] && r != 0 ==>
        Moved(old(mem[..]), old(tiling), mem[..], tiling, Word(ptr), k, Need(size)) && r == Pointer(old(tiling).cuts[k])
      ensures r == 0 ==> tiling == old(tiling) && mem[..] == old(mem[..])
      ensures r != 0 ==> Resized(old(mem[..]), old(tiling), mem[..], tiling, Word(ptr), r, size)
    {
      hide Moved, Resized, Shrunk, NoFit, Rounded;
      k := OwnedBlock(ptr);
      ghost var m, t := mem[..], tiling;
      var i := Word(ptr);
      var oldSize, isFree := Header(k, i);
      var need := NeedBytes(size);
      NeedHolds(size);
      if need <= oldSize {
        hide Tiled, Live, Need, NeedBytes;
        Shrink(k, i, need);
        ShrunkResizes(m, t, mem[..], tiling, i, k, ptr, size);
        return ptr, k;
      }
      RoundedAgain(size);
      assert Shape(t, WORDS);
      hide Tiled, Shape, Live, Need, NeedBytes;
      r, k := Move(i, Rounded(size));
      if r != 0 {
        MovedInside(m, t, mem[..], tiling, i, k, Need(size));
        MovedResizes(m, t, mem[..], tiling, i, k, r, size);
      }
    }

    /** realloc_impl. */
    method Realloc(ptr: u32, size: u32) returns (r: u32, ghost k: nat)
      requires Valid() && Passable(ptr)
      modifies this, mem
      ensures Valid()
      ensures ptr == 0 ==> (r == 0 <==> size == 0 || size > HEAP_SIZE || NoFit(old(tiling), Need(size)))
      ensures ptr == 0 && r != 0 ==>
        Granted(old(mem[..]), old(tiling), mem[..], tiling, k, Need(size)) && r == Pointer(old(tiling).cuts[k])
      ensures ptr != 0 && !old(Owned(ptr)) ==> r == 0
      ensures old(Owned(ptr)) && size == 0 ==>
        r == 0 && Blocks() == old(Blocks()) - {Word(ptr)} && Kept(old(mem[..]), mem[..], Blocks())
      ensures old(Owned(ptr)) && size != 0 ==>
        (r == 0 <==> Need(size) > old(Blocks())[Word(ptr)] && (size > HEAP_SIZE || NoFit(old(tiling), Need(size))))
      ensures old(Owned(ptr)) && size != 0 && Need(size) <= old(Blocks())[Word(ptr)] ==>
        && r == ptr && Shrunk(old(mem[..]), old(tiling), mem[..], tiling, k, Need(size))
        && old(tiling).cuts[k] == Word(ptr)
      ensures old(Owned(ptr)) && r != 0 ==> Resized(old(mem[..]), old(tiling), mem[..], tiling, Word(ptr), r, size)
      ensures r == 0 && !(old(Owned(ptr)) && size == 0) ==> tiling == old(tiling) && mem[..] == old(mem[..])
    {
      k := 0;
      if ptr == 0 {
        r, k := Malloc(size);
        return;
      }
      if size == 0 {
        Free(ptr);
        return 0, k;
      }
      if !InHeap(ptr) { return 0, k; }
      if mem[Word(ptr)] % 2 == 0 {
        if Owned(ptr) { var b := OwnedBlock(ptr); }
        return 0, k;
      }
      r, k := Resize(ptr, size);
    }

    /** lib_memset of `bytes` zero bytes at the payload of block k; a last part of a word
        keeps its high bytes. */
    method Zero(ghost k: nat, i: nat, bytes: u32)
      requires Valid() && k < |tiling.used| && i == tiling.cuts[k]
      requires bytes <= 4 * (tiling.cuts[k + 1] - tiling.cuts[k] - 2)
      modifies mem
      ensures Valid() && Zeroed(mem[..], i, bytes) && Kept(old(mem[..]), mem[..], Blocks() - {i})
    {
      ghost var m := mem[..];
      HeaderOf(k);
      var j: nat := i + 1;
      hide Tiled, Live, Bytes256, Zeroed;
      while j < i + 1 + bytes / 4
        invariant i < j <= i + 1 + bytes / 4
        invariant forall l :: i < l < j ==> mem[l] == 0
        invariant SameOutside(m, mem[..], i + 1, j)
      {
        mem[j] := 0;
        j := j + 1;
      }
      if bytes % 4 != 0 {
        ClearLow(mem[j], bytes % 4);
        mem[j] := mem[j] - mem[j] % Bytes256(bytes % 4);
      }
      PayloadWritten(m, tiling, k, mem[..]);
      ZeroBytes(mem[..], i, bytes);
    }

    /** calloc_impl. */
    method Calloc(num: u32, size: u32) returns (ptr: u32, ghost k: nat)
      requires Valid()
      modifies this, mem
      ensures Valid()
      ensures ptr == 0 <==> num * size == 0 || num * size > HEAP_SIZE || NoFit(old(tiling), Need(num * size))
      ensures ptr == 0 ==> tiling == old(tiling) && mem[..] == old(mem[..])
      ensures ptr != 0 ==>
        Granted(old(mem[..]), old(tiling), mem[..], tiling, k, Need(num * size)) && ptr == Pointer(old(tiling).cuts[k])
      ensures ptr != 0 ==> Zeroed(mem[..], old(tiling).cuts[k], num * size)
    {
      hide Live, Zeroed, Granted, Kept, Need, NoFit, FirstFit, Allot;
      k := 0;
      if num == 0 || size == 0 { return 0, k; }
      NoOverflow(num, size, 0xFFFF_FFFF);
      if num > 0xFFFF_FFFF / size { return 0, k; }
      var total: u32 := num * size;
      ghost var m, t := mem[..], tiling;
      ptr, k := Malloc(total);
      if ptr != 0 {
        ghost var m1 := mem[..];
        GrantedStart(m, t, m1, tiling, k, Need(total));
        WordOfPointer(t.cuts[k]);
        ghost var b := BlockOf(t.cuts[k]);
        hide Tiled;
        Zero(b, Word(ptr), total);
        GrantedFilled(m, t, m1, tiling, k, Need(total), mem[..]);
      }
    }
  }

  /** Six words for a first request of 16 bytes, three for one of 4. */
  lemma FirstBlockOfSix()
    ensures Need(16) == 6 && Need(4) == 3 && !NoFit(Tiling([0, WORDS], [false]), 6)
    ensures Allot(Tiling([0, WORDS], [false]), 0, 6) == Tiling([0, 6, WORDS], [true, false])
    ensures LeavesPair(Tiling([0, 6, WORDS], [true, false]), 0, 3) && Coalesced(Tiling([0, 6, WORDS], [true, false]))
  {
    assert Fits(Tiling([0, WORDS], [false]), 0, 6);
  }

  lemma OnlyBlock(k: nat, need: nat)
    requires FirstFit(Tiling([0, WORDS], [false]), k, need)
    ensures k == 0
  {}

  lemma BlockAtStart(t: Tiling, k: nat)
    requires t == Tiling([0, 6, WORDS], [true, false]) && k < |t.used| && t.cuts[k] == 0
    ensures k == 0
  {}

  lemma LiveOfSix()
    ensures Live(Tiling([0, 6, WORDS], [true, false])) == map[0 := 6]
  {
    var t := Tiling([0, 6, WORDS], [true, false]);
    assert LiveUpTo(t, 1) == map[0 := 6];
  }

  /** malloc and then realloc on a fresh heap: cutting the only block from six words down to three
      leaves its rest and the free remainder side by side. */
  method ReallocLeavesPair(memory: array<u32>) returns (h: Heap)
    requires memory.Length == WORDS
    modifies memory
    ensures fresh(h) && h.Valid() && |h.tiling.cuts| == |h.tiling.used| + 1 && !Coalesced(h.tiling)
  {
    hide Need, NoFit, Allot, Granted, Resized, LeavesPair, Coalesced, FirstFit, Kept;
    FirstBlockOfSix();
    h := new Heap(memory);
    var p, k := h.Malloc(16);
    OnlyBlock(k, 6);
    WordOfPointer(0);
    LiveOfSix();
    var r, j := h.Realloc(p, 4);
    BlockAtStart(Tiling([0, 6, WORDS], [true, false]), j);
  }
}
