/** How block ownership moves: every change the driver makes to a volume either
    leaves the inode table alone or replaces one inode. */
module NvfsOwnership {
  import opened NvfsFormat
  import opened NvfsVolume

  /** Block b belongs to some inode other than i. */
  ghost predicate Foreign(v: Vol, leaked: set<nat>, i: nat, b: nat)
    requires i < |v.inodes|
  {
    b in v.used && b !in leaked && b !in Owned(v, i)
  }

  /** w is v with inode i replaced and with every block of the other inodes kept, such that
      the blocks of the new inode i and the blocks in `left` come from the old inode i,
      from `leaked` or from the free blocks. */
  ghost predicate Moves(v: Vol, leaked: set<nat>, w: Vol, left: set<nat>, i: nat)
    requires i < |v.inodes|
  {
    && |w.inodes| == |v.inodes| && |w.blocks| == |v.blocks|
    && (forall j: nat :: j < |v.inodes| && j != i ==> w.inodes[j] == v.inodes[j])
    && (forall b: nat :: b < |v.blocks| && Foreign(v, leaked, i, b) ==> w.blocks[b] == v.blocks[b] && b in w.used)
    && SoundInode(w, left, i)
    && (forall b :: b in Owned(w, i) ==> !Foreign(v, leaked, i, b))
    && (forall b :: b in left ==> b < |v.blocks| && b in w.used && !Foreign(v, leaked, i, b))
    && (forall b: nat :: b < |v.blocks| && b in w.used ==> b in left || b in Owned(w, i) || Foreign(v, leaked, i, b))
  }

  /** A block of another inode is foreign to i. */
  lemma OthersAreForeign(v: Vol, leaked: set<nat>, i: nat, j: nat, b: nat)
    requires Acct(v, leaked) && i < |v.inodes| && j < |v.inodes| && i != j && b in Owned(v, j)
    ensures b < |v.blocks| && Foreign(v, leaked, i, b)
  {
    assert SoundInode(v, leaked, j);
    if i < j {
      assert Apart(Owned(v, i), Owned(v, j));
    } else {
      assert Apart(Owned(v, j), Owned(v, i));
    }
  }

  /** The inodes other than i keep their blocks and their contents. */
  lemma MovesKeeps(v: Vol, leaked: set<nat>, w: Vol, left: set<nat>, i: nat, j: nat)
    requires Acct(v, leaked) && i < |v.inodes| && Moves(v, leaked, w, left, i)
    requires j < |v.inodes| && j != i
    ensures w.inodes[j] == v.inodes[j] && Owned(w, j) == Owned(v, j)
    ensures w.inodes[j].kind != TYPE_FREE ==> ObjOf(w, w.inodes[j]) == ObjOf(v, v.inodes[j])
  {
    var n := v.inodes[j];
    if n.kind != TYPE_FREE {
      forall b | b in RefsOf(v, n) ensures Blk(w, b) == Blk(v, b) {
        OthersAreForeign(v, leaked, i, j, b);
      }
      Frame(v, w, n);
    }
  }

  lemma MovesSound(v: Vol, leaked: set<nat>, w: Vol, left: set<nat>, i: nat, j: nat)
    requires Acct(v, leaked) && i < |v.inodes| && Moves(v, leaked, w, left, i)
    requires j < |v.inodes|
    ensures SoundInode(w, left, j)
  {
    if j != i {
      MovesKeeps(v, leaked, w, left, i, j);
      assert SoundInode(v, leaked, j);
      forall b | b in Owned(w, j) ensures b < |w.blocks| && b in w.used && b !in left {
        OthersAreForeign(v, leaked, i, j, b);
      }
    }
  }

  lemma MovesApart(v: Vol, leaked: set<nat>, w: Vol, left: set<nat>, i: nat, j: nat, k: nat)
    requires Acct(v, leaked) && i < |v.inodes| && Moves(v, leaked, w, left, i)
    requires j < k < |v.inodes|
    ensures Apart(Owned(w, j), Owned(w, k))
  {
    if j != i { MovesKeeps(v, leaked, w, left, i, j); }
    if k != i { MovesKeeps(v, leaked, w, left, i, k); }
    forall b | b in Owned(w, j) ensures b !in Owned(w, k) {
      if j == i {
        if b in Owned(v, k) { OthersAreForeign(v, leaked, i, k, b); }
      } else if k == i {
        OthersAreForeign(v, leaked, i, j, b);
      } else {
        assert Apart(Owned(v, j), Owned(v, k));
      }
    }
  }

  lemma MovesCovered(v: Vol, leaked: set<nat>, w: Vol, left: set<nat>, i: nat, b: nat)
    requires Acct(v, leaked) && i < |v.inodes| && Moves(v, leaked, w, left, i)
    requires b < |w.blocks| && b in w.used && b !in left
    ensures Referenced(w, b)
  {
    if b !in Owned(w, i) {
      assert Foreign(v, leaked, i, b);
      assert Referenced(v, b);
      var j: nat :| j < |v.inodes| && b in Owned(v, j);
      MovesKeeps(v, leaked, w, left, i, j);
      assert b in Owned(w, j);
    }
  }

  /** Block ownership survives every such move. */
  lemma MovesAcct(v: Vol, leaked: set<nat>, w: Vol, left: set<nat>, i: nat)
    requires Acct(v, leaked) && i < |v.inodes| && Moves(v, leaked, w, left, i)
    ensures Acct(w, left)
  {
    forall j: nat | j < |w.inodes| ensures SoundInode(w, left, j) {
      MovesSound(v, leaked, w, left, i, j);
    }
    forall j: nat, k: nat | j < k < |w.inodes| ensures Apart(Owned(w, j), Owned(w, k)) {
      MovesApart(v, leaked, w, left, i, j, k);
    }
    forall b: nat | b < |w.blocks| && b in w.used && b !in left ensures Referenced(w, b) {
      MovesCovered(v, leaked, w, left, i, b);
    }
  }

  ghost predicate SameObj(v: Vol, w: Vol, j: nat)
    requires j < |v.inodes| && j < |w.inodes|
  {
    && (v.inodes[j].kind == TYPE_FREE <==> w.inodes[j].kind == TYPE_FREE)
    && (v.inodes[j].kind != TYPE_FREE ==> ObjOf(w, w.inodes[j]) == ObjOf(v, v.inodes[j]))
  }

  /** What the move did to the contents of the volume. */
  lemma MovesObjects(v: Vol, leaked: set<nat>, w: Vol, left: set<nat>, i: nat)
    requires Acct(v, leaked) && i < |v.inodes| && Moves(v, leaked, w, left, i)
    ensures Objects(w) ==
      if w.inodes[i].kind == TYPE_FREE then Objects(v) - {i} else Objects(v)[i := ObjOf(w, w.inodes[i])]
  {
    forall j: nat | j < |v.inodes| && j != i ensures SameObj(v, w, j) {
      MovesKeeps(v, leaked, w, left, i, j);
    }
    ObjectsDiffer(v, w, i);
  }

  lemma ObjectsDiffer(v: Vol, w: Vol, i: nat)
    requires |v.inodes| == |w.inodes| && i < |v.inodes|
    requires forall j: nat :: j < |v.inodes| && j != i ==> SameObj(v, w, j)
    ensures Objects(w) ==
      if w.inodes[i].kind == TYPE_FREE then Objects(v) - {i} else Objects(v)[i := ObjOf(w, w.inodes[i])]
  {
    hide ObjOf;
    var m := if w.inodes[i].kind == TYPE_FREE then Objects(v) - {i} else Objects(v)[i := ObjOf(w, w.inodes[i])];
    forall j: nat ensures j in Objects(w) <==> j in m {
      if j < |v.inodes| && j != i { assert SameObj(v, w, j); }
    }
    forall j: nat | j in m ensures Objects(w)[j] == m[j] {
      if j != i { assert SameObj(v, w, j); }
    }
  }

  /** The inode table is untouched and so is every referenced block. */
  ghost predicate Rebooks(v: Vol, leaked: set<nat>, w: Vol, left: set<nat>) {
    && w.inodes == v.inodes && |w.blocks| == |v.blocks|
    && (forall b: nat :: b < |v.blocks| && b in v.used && b !in leaked ==> w.blocks[b] == v.blocks[b] && b in w.used)
    && (forall b: nat :: b in left ==> b < |v.blocks| && b in w.used && !(b in v.used && b !in leaked))
    && (forall b: nat :: b < |v.blocks| && b in w.used ==> b in left || (b in v.used && b !in leaked))
  }

  lemma RebooksMoves(v: Vol, leaked: set<nat>, w: Vol, left: set<nat>, i: nat)
    requires Acct(v, leaked) && Rebooks(v, leaked, w, left) && i < |v.inodes|
    ensures Moves(v, leaked, w, left, i) && Owned(w, i) == Owned(v, i)
    ensures v.inodes[i].kind != TYPE_FREE ==> ObjOf(w, w.inodes[i]) == ObjOf(v, v.inodes[i])
  {
    hide Owned, ObjOf;
    assert SoundInode(v, leaked, i);
    hide Acct;
    RebooksOwn(v, leaked, w, left, i);
    assert SoundInode(w, left, i);
  }

  /** An inode keeps its blocks and contents when only free and leaked blocks change. */
  lemma RebooksOwn(v: Vol, leaked: set<nat>, w: Vol, left: set<nat>, i: nat)
    requires i < |v.inodes| && SoundInode(v, leaked, i) && Rebooks(v, leaked, w, left)
    ensures Owned(w, i) == Owned(v, i)
    ensures v.inodes[i].kind != TYPE_FREE ==> ObjOf(w, w.inodes[i]) == ObjOf(v, v.inodes[i])
  {
    hide RefsOf, ObjOf;
    var n := v.inodes[i];
    if n.kind != TYPE_FREE {
      forall b | b in RefsOf(v, n) ensures Blk(w, b) == Blk(v, b) {
        assert b in Owned(v, i);
      }
      Frame(v, w, n);
    }
  }

  /** Writes to free or leaked blocks and changes to their bits keep block ownership
      and every object on the volume. */
  lemma RebooksAcct(v: Vol, leaked: set<nat>, w: Vol, left: set<nat>)
    requires Acct(v, leaked) && Rebooks(v, leaked, w, left) && |v.inodes| > 0
    ensures Acct(w, left) && Objects(w) == Objects(v)
  {
    RebooksMoves(v, leaked, w, left, 0);
    MovesAcct(v, leaked, w, left, 0);
    MovesObjects(v, leaked, w, left, 0);
  }
}
