/** Boundary tags as a tiling of the heap: consecutive blocks, each with its size in the
    first word (bit 0 set when in use) and again in the last word.  Sizes are counted in
    words here and in bytes in the tags. */
module HeapTiling {
  import opened Bytes

  const MIN_WORDS := 3

  /** Block k covers the words cuts[k]..cuts[k + 1]. */
  datatype Tiling = Tiling(cuts: seq<nat>, used: seq<bool>)

  ghost predicate Shape(t: Tiling, n: nat) {
    && |t.cuts| == |t.used| + 1 && |t.used| > 0 && t.cuts[0] == 0 && t.cuts[|t.used|] == n
    && forall j, k :: 0 <= j < k < |t.cuts| ==> t.cuts[j] + MIN_WORDS <= t.cuts[k]
  }

  /** Header and footer of a block of `size` words at `start`. */
  ghost predicate Tags(m: seq<u32>, start: int, size: int, used: bool) {
    && 0 <= start && 0 < size && start + size <= |m|
    && m[start] == 4 * size + (if used then 1 else 0) && m[start + size - 1] == 4 * size
  }

  ghost predicate Tagged(m: seq<u32>, t: Tiling, k: nat)
    requires |t.cuts| == |t.used| + 1 && k < |t.used|
  {
    var lo: int, hi: int := t.cuts[k], t.cuts[k + 1];
    Tags(m, lo, hi - lo, t.used[k])
  }

  ghost predicate Tiled(m: seq<u32>, t: Tiling) {
    Shape(t, |m|) && forall k :: 0 <= k < |t.used| ==> Tagged(m, t, k)
  }

  /** Words outside lo..hi are unchanged. */
  ghost predicate SameOutside(m: seq<u32>, w: seq<u32>, lo: int, hi: int) {
    |w| == |m| && forall i :: 0 <= i < |m| && !(lo <= i < hi) ==> w[i] == m[i]
  }

  // ------------------------------------------------- changes of the tiling

  /** Block k changes its owner. */
  function Mark(t: Tiling, k: nat, u: bool): Tiling
    requires k < |t.used|
  {
    Tiling(t.cuts, t.used[k := u])
  }

  /** Block k gives its first `size` words, in use, and leaves the rest free. */
  function Split(t: Tiling, k: nat, size: nat): Tiling
    requires k < |t.used| && |t.cuts| == |t.used| + 1
  {
    Tiling(t.cuts[..k + 1] + [t.cuts[k] + size] + t.cuts[k + 1..], t.used[..k] + [true, false] + t.used[k + 1..])
  }

  /** Blocks k and k + 1 become one free block. */
  function Merge(t: Tiling, k: nat): Tiling
    requires k + 1 < |t.used| && |t.cuts| == |t.used| + 1
  {
    Tiling(t.cuts[..k + 1] + t.cuts[k + 2..], t.used[..k] + [false] + t.used[k + 2..])
  }

  /** A block outside the changed words keeps its tags. */
  lemma TaggedKept(m: seq<u32>, t: Tiling, j: nat, w: seq<u32>, s: Tiling, i: nat, lo: int, hi: int)
    requires |t.cuts| == |t.used| + 1 && j < |t.used| && Tagged(m, t, j) && SameOutside(m, w, lo, hi)
    requires |s.cuts| == |s.used| + 1 && i < |s.used|
    requires s.cuts[i] == t.cuts[j] && s.cuts[i + 1] == t.cuts[j + 1] && s.used[i] == t.used[j]
    requires t.cuts[j + 1] <= lo || hi <= t.cuts[j]
    ensures Tagged(w, s, i)
  {}

  lemma InOrder(t: Tiling, n: nat, j: nat, k: nat)
    requires Shape(t, n) && j <= k < |t.cuts|
    ensures t.cuts[j] <= t.cuts[k] <= n
  {}

  /** A change of memory inside block k that retags it. */
  lemma MarkTiled(m: seq<u32>, t: Tiling, k: nat, u: bool, w: seq<u32>)
    requires Tiled(m, t) && k < |t.used| && SameOutside(m, w, t.cuts[k], t.cuts[k + 1])
    requires Tags(w, t.cuts[k], t.cuts[k + 1] - t.cuts[k], u)
    ensures Tiled(w, Mark(t, k, u))
  {
    var s := Mark(t, k, u);
    assert |t.cuts| == |t.used| + 1 && Shape(s, |w|);
    hide Tags, Shape, SameOutside;
    forall j | 0 <= j < |s.used| ensures Tagged(w, s, j) {
      if j != k {
        if j < k { InOrder(t, |m|, j + 1, k); } else { InOrder(t, |m|, k + 1, j); }
        TaggedKept(m, t, j, w, s, j, t.cuts[k], t.cuts[k + 1]);
      }
    }
  }

  /** Block j of the split tiling is block j or j - 1 of the old one, around the two new ones. */
  lemma SplitAt(t: Tiling, k: nat, size: nat, j: nat)
    requires k < |t.used| && |t.cuts| == |t.used| + 1 && j < |t.cuts| + 1
    ensures |Split(t, k, size).cuts| == |t.cuts| + 1 && |Split(t, k, size).used| == |t.used| + 1
    ensures Split(t, k, size).cuts[j] ==
      if j <= k then t.cuts[j] else if j == k + 1 then t.cuts[k] + size else t.cuts[j - 1]
    ensures j <= |t.used| ==>
      Split(t, k, size).used[j] == if j < k then t.used[j] else if j <= k + 1 then j == k else t.used[j - 1]
  {}

  lemma SplitShape(t: Tiling, n: nat, k: nat, size: nat)
    requires Shape(t, n) && k < |t.used| && MIN_WORDS <= size && size + MIN_WORDS <= t.cuts[k + 1] - t.cuts[k]
    ensures Shape(Split(t, k, size), n)
  {
    var s := Split(t, k, size);
    forall i, j | 0 <= i < j < |s.cuts| ensures s.cuts[i] + MIN_WORDS <= s.cuts[j] {
      SplitOrder(t, n, k, size, i, j);
    }
  }

  lemma SplitOrder(t: Tiling, n: nat, k: nat, size: nat, i: nat, j: nat)
    requires Shape(t, n) && k < |t.used| && MIN_WORDS <= size && size + MIN_WORDS <= t.cuts[k + 1] - t.cuts[k]
    requires i < j < |t.cuts| + 1
    ensures Split(t, k, size).cuts[i] + MIN_WORDS <= Split(t, k, size).cuts[j]
  {
    SplitAt(t, k, size, i);
    SplitAt(t, k, size, j);
    hide Split;
    if j == k + 1 {
      assert i < k ==> t.cuts[i] + MIN_WORDS <= t.cuts[k];
    } else if i == k + 1 {
      assert k + 1 < j - 1 ==> t.cuts[k + 1] + MIN_WORDS <= t.cuts[j - 1];
    } else {
      var i', j' := if i <= k then i else i - 1, if j <= k then j else j - 1;
      assert t.cuts[i'] + MIN_WORDS <= t.cuts[j'];
    }
  }

  /** A free block cut in two, with all four tags written. */
  lemma SplitTiled(m: seq<u32>, t: Tiling, k: nat, size: nat, w: seq<u32>)
    requires Tiled(m, t) && k < |t.used| && MIN_WORDS <= size && size + MIN_WORDS <= t.cuts[k + 1] - t.cuts[k]
    requires SameOutside(m, w, t.cuts[k], t.cuts[k + 1])
    requires Tags(w, t.cuts[k], size, true) && Tags(w, t.cuts[k] + size, t.cuts[k + 1] - t.cuts[k] - size, false)
    ensures Tiled(w, Split(t, k, size))
  {
    var s := Split(t, k, size);
    SplitShape(t, |m|, k, size);
    assert |t.cuts| == |t.used| + 1 && |w| == |m|;
    hide Tags, Shape, SameOutside;
    forall j | 0 <= j < |s.used| ensures Tagged(w, s, j) {
      if j != k && j != k + 1 { SplitTagged(m, t, k, size, w, j); }
    }
  }

  /** The blocks around a split keep their tags. */
  lemma SplitTagged(m: seq<u32>, t: Tiling, k: nat, size: nat, w: seq<u32>, j: nat)
    requires Tiled(m, t) && k < |t.used| && j <= |t.used| && j != k && j != k + 1
    requires SameOutside(m, w, t.cuts[k], t.cuts[k + 1])
    ensures Tagged(w, Split(t, k, size), j)
  {
    var s := Split(t, k, size);
    assert |t.cuts| == |t.used| + 1;
    SplitAt(t, k, size, j);
    SplitAt(t, k, size, j + 1);
    hide Tags, Shape, SameOutside, Split;
    if j < k {
      InOrder(t, |m|, j + 1, k);
      TaggedKept(m, t, j, w, s, j, t.cuts[k], t.cuts[k + 1]);
    } else {
      InOrder(t, |m|, k + 1, j - 1);
      TaggedKept(m, t, j - 1, w, s, j, t.cuts[k], t.cuts[k + 1]);
    }
  }

  lemma MergeShape(t: Tiling, n: nat, k: nat)
    requires Shape(t, n) && k + 1 < |t.used|
    ensures Shape(Merge(t, k), n)
  {
    var s := Merge(t, k);
    forall i, j | 0 <= i < j < |s.cuts| ensures s.cuts[i] + MIN_WORDS <= s.cuts[j] {
      var i' := if i <= k then i else i + 1;
      var j' := if j <= k then j else j + 1;
      assert s.cuts[i] == t.cuts[i'] && s.cuts[j] == t.cuts[j'];
    }
  }

  /** Two blocks joined, with the outer tags written. */
  lemma MergeTiled(m: seq<u32>, t: Tiling, k: nat, w: seq<u32>)
    requires Tiled(m, t) && k + 1 < |t.used| && SameOutside(m, w, t.cuts[k], t.cuts[k + 2])
    requires Tags(w, t.cuts[k], t.cuts[k + 2] - t.cuts[k], false)
    ensures Tiled(w, Merge(t, k))
  {
    var s := Merge(t, k);
    MergeShape(t, |m|, k);
    assert |t.cuts| == |t.used| + 1 && |w| == |m|;
    hide Tags, Shape, SameOutside;
    forall j | 0 <= j < |s.used| ensures Tagged(w, s, j) {
      if j < k {
        InOrder(t, |m|, j + 1, k);
        TaggedKept(m, t, j, w, s, j, t.cuts[k], t.cuts[k + 2]);
      } else if j > k {
        InOrder(t, |m|, k + 2, j + 1);
        TaggedKept(m, t, j + 1, w, s, j, t.cuts[k], t.cuts[k + 2]);
      }
    }
  }

  // ------------------------------------------------- live blocks

  /** Size in words of the live block that starts at each word. */
  ghost function LiveUpTo(t: Tiling, n: nat): map<nat, int>
    requires |t.cuts| == |t.used| + 1 && n <= |t.used|
  {
    if n == 0 then map[]
    else
      var lo: int, hi: int := t.cuts[n - 1], t.cuts[n];
      if t.used[n - 1] then LiveUpTo(t, n - 1)[lo := hi - lo] else LiveUpTo(t, n - 1)
  }

  ghost function Live(t: Tiling): map<nat, int>
    requires |t.cuts| == |t.used| + 1
  {
    LiveUpTo(t, |t.used|)
  }

  /** Block k is in use, starts at word i and has `size` words. */
  ghost predicate Holds(t: Tiling, k: nat, i: nat, size: int) {
    |t.cuts| == |t.used| + 1 && k < |t.used| && t.used[k] && t.cuts[k] == i && t.cuts[k + 1] == i + size
  }

  lemma {:induction false} LiveSound(t: Tiling, n: nat, i: nat) returns (k: nat)
    requires |t.cuts| == |t.used| + 1 && n <= |t.used| && i in LiveUpTo(t, n)
    ensures k < n && Holds(t, k, i, LiveUpTo(t, n)[i])
  {
    if t.used[n - 1] && t.cuts[n - 1] == i { k := n - 1; } else { k := LiveSound(t, n - 1, i); }
  }

  lemma {:induction false} LiveComplete(t: Tiling, m: nat, n: nat, k: nat)
    requires Shape(t, m) && k < n <= |t.used| && t.used[k]
    ensures t.cuts[k] in LiveUpTo(t, n) && LiveUpTo(t, n)[t.cuts[k]] == t.cuts[k + 1] - t.cuts[k]
  {
    if k < n - 1 {
      LiveComplete(t, m, n - 1, k);
      assert t.cuts[k] < t.cuts[n - 1];
    }
  }

  /** The live blocks of t are those that some block holds. */
  lemma LiveIff(t: Tiling, m: nat, i: nat, size: int)
    requires Shape(t, m)
    ensures (i in Live(t) && Live(t)[i] == size) <==> exists k: nat :: Holds(t, k, i, size)
  {
    if i in Live(t) && Live(t)[i] == size { var k := LiveSound(t, |t.used|, i); }
    forall k: nat | Holds(t, k, i, size) ensures i in Live(t) && Live(t)[i] == size {
      LiveComplete(t, m, |t.used|, k);
    }
  }

  /** Two tilings hold the same live blocks except at word x. */
  ghost predicate SameLiveBut(t: Tiling, s: Tiling, x: nat) {
    && (forall k: nat, i: nat, size: int :: Holds(t, k, i, size) && i != x ==> exists j: nat :: Holds(s, j, i, size))
    && (forall k: nat, i: nat, size: int :: Holds(s, k, i, size) && i != x ==> exists j: nat :: Holds(t, j, i, size))
  }

  lemma LiveBut(t: Tiling, s: Tiling, m: nat, x: nat)
    requires Shape(t, m) && Shape(s, m) && SameLiveBut(t, s, x)
    ensures Live(s) - {x} == Live(t) - {x}
  {
    forall i: nat | i != x ensures (i in Live(s) <==> i in Live(t)) && (i in Live(s) ==> Live(s)[i] == Live(t)[i]) {
      if i in Live(s) { LiveIff(s, m, i, Live(s)[i]); LiveIff(t, m, i, Live(s)[i]); }
      if i in Live(t) { LiveIff(t, m, i, Live(t)[i]); LiveIff(s, m, i, Live(t)[i]); }
    }
  }

  lemma MapsMeet(a: map<nat, int>, b: map<nat, int>, x: nat)
    requires a - {x} == b - {x} && (x in a <==> x in b) && (x in a ==> a[x] == b[x])
    ensures a == b
  {
    forall i | i in a ensures i in b && a[i] == b[i] {
      if i != x { assert i in a - {x}; assert (a - {x})[i] == (b - {x})[i]; }
    }
    forall i | i in b ensures i in a {
      if i != x { assert i in b - {x}; }
    }
  }

  lemma StartFree(t: Tiling, m: nat, k: nat)
    requires Shape(t, m) && k < |t.used| && !t.used[k]
    ensures t.cuts[k] !in Live(t)
  {
    if t.cuts[k] in Live(t) { var j := LiveSound(t, |t.used|, t.cuts[k]); }
  }

  /** What is live once the block at cuts[k] is in use with `size` words and the rest is as before. */
  lemma LiveNow(t: Tiling, s: Tiling, m: nat, k: nat, size: int)
    requires Shape(t, m) && Shape(s, m) && k < |t.used| && SameLiveBut(t, s, t.cuts[k])
    requires Holds(s, k, t.cuts[k], size)
    ensures Live(s) == Live(t)[t.cuts[k] := size]
  {
    var x := t.cuts[k];
    LiveBut(t, s, m, x);
    LiveIff(s, m, x, size);
    hide Shape, Holds, SameLiveBut;
    MapsMeet(Live(s), Live(t)[x := size], x);
  }

  lemma MarkSame(t: Tiling, m: nat, k: nat, u: bool)
    requires Shape(t, m) && k < |t.used|
    ensures SameLiveBut(t, Mark(t, k, u), t.cuts[k])
  {
    var s := Mark(t, k, u);
    assert forall j: nat, i: nat, size: int :: Holds(t, j, i, size) && i != t.cuts[k] ==> Holds(s, j, i, size);
    assert forall j: nat, i: nat, size: int :: Holds(s, j, i, size) && i != t.cuts[k] ==> Holds(t, j, i, size);
  }

  /** Handing block k out whole. */
  lemma MarkLive(t: Tiling, m: nat, k: nat)
    requires Shape(t, m) && k < |t.used|
    ensures Live(Mark(t, k, true)) == Live(t)[t.cuts[k] := t.cuts[k + 1] - t.cuts[k]]
  {
    MarkSame(t, m, k, true);
    LiveNow(t, Mark(t, k, true), m, k, t.cuts[k + 1] - t.cuts[k]);
  }

  /** Taking block k back. */
  lemma UnmarkLive(t: Tiling, m: nat, k: nat)
    requires Shape(t, m) && k < |t.used|
    ensures Live(Mark(t, k, false)) == Live(t) - {t.cuts[k]}
  {
    var s := Mark(t, k, false);
    MarkSame(t, m, k, false);
    LiveBut(t, s, m, t.cuts[k]);
    StartFree(s, m, k);
    hide Shape;
    assert Live(s) - {t.cuts[k]} == Live(s);
  }

  /** Handing out, or keeping, the first `size` words of block k. */
  lemma SplitLive(t: Tiling, m: nat, k: nat, size: nat)
    requires Shape(t, m) && k < |t.used| && MIN_WORDS <= size && size + MIN_WORDS <= t.cuts[k + 1] - t.cuts[k]
    ensures Live(Split(t, k, size)) == Live(t)[t.cuts[k] := size]
  {
    var s := Split(t, k, size);
    SplitShape(t, m, k, size);
    SplitSame(t, m, k, size);
    LiveNow(t, s, m, k, size);
  }

  lemma SplitHolds(t: Tiling, k: nat, size: nat, j: nat, i: nat, n: int)
    requires |t.cuts| == |t.used| + 1 && k < |t.used| && j != k
    ensures Holds(t, j, i, n) <==> Holds(Split(t, k, size), if j < k then j else j + 1, i, n)
  {}

  lemma SplitSame(t: Tiling, m: nat, k: nat, size: nat)
    requires Shape(t, m) && k < |t.used| && size + MIN_WORDS <= t.cuts[k + 1] - t.cuts[k]
    ensures SameLiveBut(t, Split(t, k, size), t.cuts[k])
  {
    var s := Split(t, k, size);
    assert |t.cuts| == |t.used| + 1;
    SplitAt(t, k, size, k);
    SplitAt(t, k, size, k + 1);
    hide Split;
    forall j: nat, i: nat, n: int | Holds(t, j, i, n) && i != t.cuts[k] ensures exists l: nat :: Holds(s, l, i, n) {
      SplitHolds(t, k, size, j, i, n);
    }
    forall j: nat, i: nat, n: int | Holds(s, j, i, n) && i != t.cuts[k] ensures exists l: nat :: Holds(t, l, i, n) {
      assert j != k && j != k + 1;
      SplitHolds(t, k, size, if j < k then j else j - 1, i, n);
    }
  }

  /** Joining two free blocks. */
  lemma MergeLive(t: Tiling, m: nat, k: nat)
    requires Shape(t, m) && k + 1 < |t.used| && !t.used[k] && !t.used[k + 1]
    ensures Live(Merge(t, k)) == Live(t)
  {
    var s := Merge(t, k);
    MergeShape(t, m, k);
    MergeSame(t, m, k);
    LiveBut(t, s, m, t.cuts[k]);
    StartFree(t, m, k);
    StartFree(s, m, k);
    hide Shape, SameLiveBut;
    MapsMeet(Live(s), Live(t), t.cuts[k]);
  }

  lemma MergeSame(t: Tiling, m: nat, k: nat)
    requires Shape(t, m) && k + 1 < |t.used| && !t.used[k] && !t.used[k + 1]
    ensures SameLiveBut(t, Merge(t, k), t.cuts[k])
  {
    var s := Merge(t, k);
    assert |t.cuts| == |t.used| + 1;
    hide Shape;
    forall j: nat, i: nat, n: int | Holds(t, j, i, n) ensures exists l: nat :: Holds(s, l, i, n) {
      if j < k { assert Holds(s, j, i, n); } else { assert Holds(s, j - 1, i, n); }
    }
    forall j: nat, i: nat, n: int | Holds(s, j, i, n) ensures exists l: nat :: Holds(t, l, i, n) {
      if j < k { assert Holds(t, j, i, n); } else { assert Holds(t, j + 1, i, n); }
    }
  }

  // ------------------------------------------------- no two free neighbours

  /** Two neighbours are both free only when the first is the 12-byte block at the start. */
  ghost predicate Coalesced(t: Tiling)
    requires |t.cuts| == |t.used| + 1
  {
    forall k :: 0 <= k < |t.used| - 1 && !t.used[k] && !t.used[k + 1] ==> k == 0 && t.cuts[1] == MIN_WORDS
  }

  lemma MarkCoalesced(t: Tiling, k: nat)
    requires |t.cuts| == |t.used| + 1 && k < |t.used| && Coalesced(t)
    ensures Coalesced(Mark(t, k, true))
  {}

  /** Splitting keeps the neighbours apart exactly when the remainder meets no free block. */
  lemma SplitCoalesced(t: Tiling, m: nat, k: nat, size: nat)
    requires Shape(t, m) && k < |t.used| && Coalesced(t)
    requires MIN_WORDS <= size && size + MIN_WORDS <= t.cuts[k + 1] - t.cuts[k]
    ensures Coalesced(Split(t, k, size)) <==> (k + 1 < |t.used| ==> t.used[k + 1])
  {
    var s := Split(t, k, size);
    assert |t.cuts| == |t.used| + 1;
    hide Shape;
    if k + 1 < |t.used| && !t.used[k + 1] {
      assert !s.used[k + 1] && !s.used[k + 2];
    } else {
      forall j | 0 <= j < |s.used| - 1 && !s.used[j] && !s.used[j + 1] ensures j == 0 && s.cuts[1] == MIN_WORDS {
        var i := if j < k then j else j - 1;
        assert !t.used[i] && !t.used[i + 1];
      }
    }
  }

  /** The free block that is split in malloc has no free neighbour after it. */
  lemma FreeSplitCoalesced(t: Tiling, m: nat, k: nat, size: nat)
    requires Shape(t, m) && k < |t.used| && Coalesced(t) && !t.used[k]
    requires MIN_WORDS <= size && size + MIN_WORDS <= t.cuts[k + 1] - t.cuts[k]
    ensures Coalesced(Split(t, k, size))
  {
    SplitCoalesced(t, m, k, size);
  }

  /** What free makes of the tiling: block k free, joined with a free successor and then with a
      free predecessor that does not end at the third word of the heap. */
  function JoinNext(t: Tiling, k: nat): Tiling
    requires k < |t.used| && |t.cuts| == |t.used| + 1
  {
    if k + 1 < |t.used| && !t.used[k + 1] then Merge(t, k) else t
  }

  function JoinPrev(t: Tiling, k: nat): Tiling
    requires k < |t.used| && |t.cuts| == |t.used| + 1
  {
    if k > 0 && t.cuts[k] > MIN_WORDS && !t.used[k - 1] then Merge(t, k - 1) else t
  }

  function Release(t: Tiling, k: nat): Tiling
    requires k < |t.used| && |t.cuts| == |t.used| + 1
  {
    JoinPrev(JoinNext(Mark(t, k, false), k), k)
  }

  /** Neighbours other than those of block k are apart. */
  ghost predicate ApartBut(t: Tiling, k: nat)
    requires |t.cuts| == |t.used| + 1
  {
    forall j :: 0 <= j < |t.used| - 1 && j != k - 1 && !t.used[j] && !t.used[j + 1] ==> j == 0 && t.cuts[1] == MIN_WORDS
  }

  lemma JoinNextApart(t: Tiling, m: nat, k: nat)
    requires Shape(t, m) && k < |t.used| && t.used[k] && Coalesced(t)
    ensures ApartBut(JoinNext(Mark(t, k, false), k), k)
  {
    var u := Mark(t, k, false);
    var s := JoinNext(u, k);
    if s != u {
      forall j | 0 <= j < |s.used| - 1 && j != k - 1 && !s.used[j] && !s.used[j + 1]
        ensures j == 0 && s.cuts[1] == MIN_WORDS
      {
        var i := if j < k then j else j + 1;
        assert !t.used[i] && !t.used[i + 1];
      }
    }
  }

  /** Only the second block can start at or before the fourth word. */
  lemma SecondCut(t: Tiling, m: nat, k: nat)
    requires Shape(t, m) && k < |t.used|
    ensures k > 0 && t.cuts[k] <= MIN_WORDS ==> k == 1 && t.cuts[1] == MIN_WORDS
  {
    assert k > 1 ==> t.cuts[0] + MIN_WORDS <= t.cuts[1] && t.cuts[1] + MIN_WORDS <= t.cuts[k];
    assert k == 1 ==> t.cuts[0] + MIN_WORDS <= t.cuts[1];
  }

  lemma JoinPrevCoalesced(t: Tiling, m: nat, k: nat)
    requires Shape(t, m) && k < |t.used| && !t.used[k] && ApartBut(t, k)
    ensures Coalesced(JoinPrev(t, k))
  {
    var s := JoinPrev(t, k);
    if s != t {
      forall j | 0 <= j < |s.used| - 1 && !s.used[j] && !s.used[j + 1] ensures j == 0 && s.cuts[1] == MIN_WORDS {
        var i := if j < k - 1 then j else j + 1;
        assert !t.used[i] && !t.used[i + 1];
      }
    } else {
      SecondCut(t, m, k);
    }
  }

  lemma JoinNextLaws(t: Tiling, m: nat, k: nat)
    requires Shape(t, m) && k < |t.used| && !t.used[k]
    ensures k < |JoinNext(t, k).used| && Shape(JoinNext(t, k), m) && Live(JoinNext(t, k)) == Live(t)
    ensures !JoinNext(t, k).used[k] && JoinNext(t, k).cuts[k] == t.cuts[k]
  {
    if JoinNext(t, k) != t { MergeShape(t, m, k); MergeLive(t, m, k); }
  }

  lemma JoinPrevLaws(t: Tiling, m: nat, k: nat)
    requires Shape(t, m) && k < |t.used| && !t.used[k]
    ensures Shape(JoinPrev(t, k), m) && Live(JoinPrev(t, k)) == Live(t)
  {
    if JoinPrev(t, k) != t { MergeShape(t, m, k - 1); MergeLive(t, m, k - 1); }
  }

  /** Freeing block k takes it, and nothing else, off the live blocks, and keeps free blocks apart. */
  lemma ReleaseLaws(t: Tiling, m: nat, k: nat)
    requires Shape(t, m) && k < |t.used| && t.used[k]
    ensures Shape(Release(t, k), m) && Live(Release(t, k)) == Live(t) - {t.cuts[k]}
    ensures Coalesced(t) ==> Coalesced(Release(t, k))
  {
    assert Shape(Mark(t, k, false), m);
    hide JoinNext, JoinPrev, ApartBut, Coalesced, LiveUpTo;
    var s := JoinNext(Mark(t, k, false), k);
    UnmarkLive(t, m, k);
    JoinNextLaws(Mark(t, k, false), m, k);
    JoinPrevLaws(s, m, k);
    if Coalesced(t) { JoinNextApart(t, m, k); JoinPrevCoalesced(s, m, k); }
  }

  // ------------------------------------------------- what a change leaves alone

  ghost predicate KeptRun(m: seq<u32>, w: seq<u32>, i: nat, size: int) {
    |w| == |m| && i + size <= |m| && forall j :: i <= j < i + size ==> w[j] == m[j]
  }

  /** Every block in `live` keeps all its words, tags and payload alike. */
  ghost predicate Kept(m: seq<u32>, w: seq<u32>, live: map<nat, int>) {
    |w| == |m| && forall i :: i in live ==> KeptRun(m, w, i, live[i])
  }

  /** A change confined to blocks a..b spares every live block outside them. */
  lemma Spares(m: seq<u32>, w: seq<u32>, t: Tiling, a: nat, b: nat, live: map<nat, int>)
    requires Shape(t, |m|) && a <= b < |t.cuts| && SameOutside(m, w, t.cuts[a], t.cuts[b])
    requires forall i :: i in live ==> i in Live(t) && live[i] == Live(t)[i]
    requires forall j :: a <= j < b ==> t.cuts[j] !in live
    ensures Kept(m, w, live)
  {
    forall i | i in live ensures KeptRun(m, w, i, live[i]) {
      var k := LiveSound(t, |t.used|, i);
      InOrder(t, |m|, k + 1, |t.used|);
      if k < a { InOrder(t, |m|, k + 1, a); } else { InOrder(t, |m|, b, k); }
    }
  }

  lemma KeptTwice(m: seq<u32>, w: seq<u32>, x: seq<u32>, live: map<nat, int>)
    requires Kept(m, w, live) && Kept(w, x, live)
    ensures Kept(m, x, live)
  {}

  lemma KeptLess(m: seq<u32>, w: seq<u32>, live: map<nat, int>, less: map<nat, int>)
    requires Kept(m, w, live) && forall i :: i in less ==> i in live && less[i] == live[i]
    ensures Kept(m, w, less)
  {}

  /** Live blocks lie inside the heap and do not overlap. */
  lemma LiveApart(t: Tiling, m: nat, i: nat, j: nat)
    requires Shape(t, m) && i in Live(t) && j in Live(t) && i < j
    ensures MIN_WORDS <= Live(t)[i] && i + Live(t)[i] <= j && j + Live(t)[j] <= m
  {
    var a := LiveSound(t, |t.used|, i);
    var b := LiveSound(t, |t.used|, j);
    InOrder(t, m, b + 1, |t.used|);
    if b <= a { InOrder(t, m, b, a); } else { InOrder(t, m, a + 1, b); }
  }
}
