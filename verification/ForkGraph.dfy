/** Slots, the tree of forks they form, and the fork graph that answers how two
    slots are related (the `ForkGraph` trait of the program cache). */
module ForkGraphs {

  /** A slot number; a `u64` in the source. */
  type Slot = nat

  /** How one slot is related to another. */
  datatype BlockRelation = Ancestor | Equal | Descendant | Unrelated | Unknown

  /** What a block store answers about two slots. */
  datatype ForkGraph = ForkGraph(relationship: (Slot, Slot) -> BlockRelation)

  /** A tree of forks: the parent of each slot, always an earlier slot. */
  type ForkTree = t: map<Slot, Slot> | forall s :: s in t ==> t[s] < s
    witness map[]

  /** `a` is `s` or one of its ancestors. */
  predicate OnFork(t: ForkTree, a: Slot, s: Slot)
    decreases s
  {
    a == s || (s in t && OnFork(t, a, t[s]))
  }

  /** The graph is exact on slots at or above `root`; below it may answer
      anything, and for slots on different forks it may say `Unknown`. */
  ghost predicate ExactFrom(g: ForkGraph, t: ForkTree, root: Slot) {
    forall a: Slot, b: Slot :: a >= root && b >= root ==>
      && (g.relationship(a, b) == Equal <==> a == b)
      && (g.relationship(a, b) == Ancestor <==> a != b && OnFork(t, a, b))
      && (g.relationship(a, b) == Descendant <==> a != b && OnFork(t, b, a))
  }

  lemma {:induction false} OnForkIsOlder(t: ForkTree, a: Slot, s: Slot)
    requires OnFork(t, a, s)
    ensures a <= s
    decreases s
  {
    if a != s { OnForkIsOlder(t, a, t[s]); }
  }

  lemma {:induction false} OnForkTransitive(t: ForkTree, a: Slot, b: Slot, s: Slot)
    requires OnFork(t, a, b) && OnFork(t, b, s)
    ensures OnFork(t, a, s)
    decreases s
  {
    if b != s { OnForkTransitive(t, a, b, t[s]); }
  }

  /** Two ancestors of one slot lie on one line. */
  lemma {:induction false} OnForkLinear(t: ForkTree, a: Slot, b: Slot, s: Slot)
    requires OnFork(t, a, s) && OnFork(t, b, s) && a <= b
    ensures OnFork(t, a, b)
    decreases s
  {
    if b == s {
    } else if a == s {
      OnForkIsOlder(t, b, s);
      assert false;
    } else {
      OnForkLinear(t, a, b, t[s]);
    }
  }
}
