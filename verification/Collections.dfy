/** Sequences and sets of numbers, shared by the models. */
module Collections {

  /** No element occurs twice. */
  ghost predicate NoDup(s: seq<nat>) {
    forall p, q :: 0 <= p < q < |s| ==> s[p] != s[q]
  }

  ghost function SeqSet(s: seq<nat>): set<nat> { set b | b in s }

  /** The numbers from `start` on, `count` of them. */
  ghost function RunSet(start: nat, count: nat): set<nat>
    ensures forall b: nat :: b in RunSet(start, count) <==> start <= b < start + count
  {
    if count == 0 then {} else RunSet(start, count - 1) + {start + count - 1}
  }

  lemma {:induction false} RunSize(start: nat, count: nat)
    ensures |RunSet(start, count)| == count
  {
    if count > 0 { RunSize(start, count - 1); }
  }

  lemma SubsetSize(s: set<nat>, t: set<nat>)
    requires s <= t
    ensures |s| <= |t| && |t - s| == |t| - |s|
  {
    assert t == s + (t - s);
  }
}
