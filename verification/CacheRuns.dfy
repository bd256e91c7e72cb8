/** The program cache as a state machine: what every run of assigns, prunes and
    evictions keeps true, and that lookups never leave their fork. */
module CacheRuns {
  import opened Sequences
  import opened ForkGraphs
  import opened ProgramEntries
  import opened VersionLists
  import opened Lookups
  import opened Pruning
  import opened Eviction

  /** The index of the cache and the slot of its last rerooting. */
  datatype CacheState = CacheState(entries: Entries, root: Slot) {
    function Versions(key: Pubkey): seq<Entry> {
      if key in entries then entries[key] else []
    }
  }

  datatype Op =
    | Assign(env: Environment, key: Pubkey, entry: Entry)
    | Prune(graph: ForkGraph, newRoot: Slot, upcoming: Option<Environment>)
    | PruneByDeploymentSlot(slot: Slot)
    | RemovePrograms(keys: set<Pubkey>)
    | Evict

  /** The versions `assign_program` may leave, over all answers of its search. */
  ghost predicate MayAssign(versions: seq<Entry>, env: Environment, entry: Entry, after: seq<Entry>) {
    exists found, index :: BisectionResult(versions, env, entry, found, index)
      && after == Assigned(versions, entry, found, index)
  }

  /** Every program's versions changed by `f`, programs left without any dropped. */
  function MapVersions(entries: Entries, f: seq<Entry> -> seq<Entry>): Entries {
    map k | k in entries && f(entries[k]) != [] :: f(entries[k])
  }

  function NotDeployedIn(slot: Slot): seq<Entry> -> seq<Entry> {
    versions => Filter(versions, (e: Entry) => e.deploymentSlot != slot)
  }

  ghost predicate Step(s: CacheState, op: Op, s': CacheState) {
    match op
    case Assign(env, key, entry) =>
      && s'.root == s.root
      && key in s'.entries
      && s'.entries == s.entries[key := s'.entries[key]]
      && MayAssign(s.Versions(key), env, entry, s'.entries[key])
    case Prune(graph, newRoot, upcoming) =>
      && s'.root == newRoot
      && s'.entries == MapVersions(s.entries, versions => Pruned(Reroot(graph, s.root, newRoot), versions, upcoming))
    case PruneByDeploymentSlot(slot) =>
      s' == s.(entries := MapVersions(s.entries, NotDeployedIn(slot)))
    case RemovePrograms(keys) =>
      s' == s.(entries := s.entries - keys)
    case Evict =>
      s'.root == s.root && Evicted(s.entries, s'.entries)
  }

  /** A run from an empty cache: `states[i + 1]` follows `states[i]` by `ops[i]`. */
  ghost predicate IsRun(states: seq<CacheState>, ops: seq<Op>) {
    && |states| == |ops| + 1
    && states[0].entries == map[]
    && forall i :: 0 <= i < |ops| ==> Step(states[i], ops[i], states[i + 1])
  }

  /** A relation between earlier and later versions that no kind of step breaks. */
  ghost predicate Stable(r: (Entry, Entry) -> bool) {
    forall a, b, a', b' :: r(a, b) && SameOrUnloaded(a, a') && SameOrUnloaded(b, b') ==> r(a', b')
  }

  ghost predicate AllPairwise(s: CacheState, r: (Entry, Entry) -> bool) {
    forall k :: k in s.entries ==> Pairwise(s.entries[k], r)
  }

  lemma StepKeepsPairwise(s: CacheState, op: Op, s': CacheState, r: (Entry, Entry) -> bool)
    requires Step(s, op, s') && AllPairwise(s, r) && Stable(r)
    requires op.Assign? ==> Pairwise(s'.entries[op.key], r)
    ensures AllPairwise(s', r)
  {
    forall k | k in s'.entries ensures Pairwise(s'.entries[k], r) {
      match op
      case Assign(env, key, entry) =>
        if k != key { assert Pairwise(s.entries[k], r); }
      case Prune(graph, newRoot, upcoming) =>
        PrunedPairwise(Reroot(graph, s.root, newRoot), s.entries[k], upcoming, r);
      case PruneByDeploymentSlot(slot) =>
        FilterPairwise(s.entries[k], (e: Entry) => e.deploymentSlot != slot, r);
      case RemovePrograms(_) =>
      case Evict =>
        var versions, versions' := s.entries[k], s'.entries[k];
        assert ListEvicted(versions, versions');
        forall i, j | 0 <= i < j < |versions'| ensures r(versions'[i], versions'[j]) {
          assert SameOrUnloaded(versions[i], versions'[i]) && SameOrUnloaded(versions[j], versions'[j]);
          assert r(versions[i], versions[j]);
        }
    }
  }

  lemma PrecedesIsStable(env: Environment, r: (Entry, Entry) -> bool)
    requires forall a, b :: r(a, b) <==> Precedes(env, a, b)
    ensures Stable(r)
  {
    forall a, b, a', b' | r(a, b) && SameOrUnloaded(a, a') && SameOrUnloaded(b, b') ensures r(a', b') {
      assert Compare(env, a', b') == Compare(env, a, b);
    }
  }

  lemma StepKeepsWeakOrder(s: CacheState, op: Op, s': CacheState)
    requires Step(s, op, s') && AllPairwise(s, NotAfter)
    ensures AllPairwise(s', NotAfter)
  {
    if op.Assign? {
      var versions := s.Versions(op.key);
      var found, index :| BisectionResult(versions, op.env, op.entry, found, index)
        && s'.entries[op.key] == Assigned(versions, op.entry, found, index);
      AssignKeepsWeakOrder(versions, op.env, op.entry, found, index);
    }
    StepKeepsPairwise(s, op, s', NotAfter);
  }

  lemma StepKeepsCanonical(s: CacheState, op: Op, s': CacheState, env: Environment)
    requires Step(s, op, s') && (op.Assign? ==> op.env == env)
    requires forall k :: k in s.entries ==> Canonical(s.entries[k], env)
    ensures forall k :: k in s'.entries ==> Canonical(s'.entries[k], env)
  {
    var r := (a, b) => Precedes(env, a, b);
    PrecedesIsStable(env, r);
    if op.Assign? {
      var versions := s.Versions(op.key);
      var found, index :| BisectionResult(versions, env, op.entry, found, index)
        && s'.entries[op.key] == Assigned(versions, op.entry, found, index);
      AssignKeepsCanonical(versions, env, op.entry, found, index);
    }
    StepKeepsPairwise(s, op, s', r);
  }

  /** Over every run each list stays sorted by (effective, deployment) slot. */
  lemma {:induction false} RunKeepsWeakOrder(states: seq<CacheState>, ops: seq<Op>, n: nat)
    requires IsRun(states, ops) && n < |states|
    ensures AllPairwise(states[n], NotAfter)
  {
    if n > 0 {
      RunKeepsWeakOrder(states, ops, n - 1);
      StepKeepsWeakOrder(states[n - 1], ops[n - 1], states[n]);
    }
  }

  ghost predicate AssignsPass(ops: seq<Op>, env: Environment) {
    forall i :: 0 <= i < |ops| && ops[i].Assign? ==> ops[i].env == env
  }

  /** Over every run whose assigns all pass one environment, each list is strictly
      sorted and holds at most one version per deployment slot and environment. */
  lemma {:induction false} RunKeepsCanonical(states: seq<CacheState>, ops: seq<Op>, env: Environment, n: nat)
    requires IsRun(states, ops) && AssignsPass(ops, env) && n < |states|
    ensures forall k :: k in states[n].entries ==>
      Canonical(states[n].entries[k], env) && OnePerSlot(states[n].entries[k])
  {
    if n > 0 {
      RunKeepsCanonical(states, ops, env, n - 1);
      StepKeepsCanonical(states[n - 1], ops[n - 1], states[n], env);
    }
    forall k | k in states[n].entries ensures OnePerSlot(states[n].entries[k]) {
      CanonicalMeaning(states[n].entries[k], env);
    }
  }

  // ----- Properties of single versions, over runs -----

  lemma AssignedMember(versions: seq<Entry>, entry: Entry, found: bool, index: nat, e: Entry)
    requires if found then index < |versions| else index <= |versions|
    requires e in Assigned(versions, entry, found, index)
    ensures e == entry || e in versions
  {
    match Place(versions, entry, found, index) {
      case Ok(placed) => FilterMember(placed, e => Retained(entry, e), e);
      case Err(_) =>
    }
  }

  /** Every version after a step was there before, up to unloading, or is the
      one assigned; what pruning keeps lies on the new root's fork or above. */
  lemma StepOrigin(s: CacheState, op: Op, s': CacheState, k: Pubkey, e: Entry)
    requires Step(s, op, s') && k in s'.entries && e in s'.entries[k]
    ensures (op.Assign? && e == op.entry)
         || (k in s.entries && exists o :: o in s.entries[k] && SameOrUnloaded(o, e))
    ensures op.Prune? ==>
      IsAtOrAbove(Reroot(op.graph, s.root, op.newRoot), e) || IsAncestor(Reroot(op.graph, s.root, op.newRoot), e)
  {
    match op
    case Assign(env, key, entry) =>
      if k == key {
        var versions := s.Versions(key);
        var found, index :| BisectionResult(versions, env, entry, found, index)
          && s'.entries[key] == Assigned(versions, entry, found, index);
        AssignedMember(versions, entry, found, index, e);
      }
      assert e != entry ==> k in s.entries && e in s.entries[k] && SameOrUnloaded(e, e);
    case Prune(graph, newRoot, upcoming) =>
      PrunedMember(Reroot(graph, s.root, newRoot), s.entries[k], upcoming, e);
      assert SameOrUnloaded(e, e);
    case PruneByDeploymentSlot(slot) =>
      FilterMember(s.entries[k], (e: Entry) => e.deploymentSlot != slot, e);
      assert SameOrUnloaded(e, e);
    case RemovePrograms(_) =>
      assert e in s.entries[k] && SameOrUnloaded(e, e);
    case Evict =>
      var i :| 0 <= i < |s'.entries[k]| && s'.entries[k][i] == e;
      assert ListEvicted(s.entries[k], s'.entries[k]);
      assert s.entries[k][i] in s.entries[k] && SameOrUnloaded(s.entries[k][i], e);
  }

  /** What callers of the cache promise about the forks: rerooting follows the
      tree with a graph exact from the old root on, and a version assigned at or
      below the root lies on the rooted fork. */
  ghost predicate FollowsTree(t: ForkTree, states: seq<CacheState>, ops: seq<Op>) {
    && |states| == |ops| + 1
    && forall i :: 0 <= i < |ops| ==>
      && (ops[i].Prune? ==> ExactFrom(ops[i].graph, t, states[i].root) && OnFork(t, states[i].root, ops[i].newRoot))
      && (ops[i].Assign? && ops[i].entry.deploymentSlot <= states[i].root ==>
            OnFork(t, ops[i].entry.deploymentSlot, states[i].root))
  }

  ghost predicate Rooted(t: ForkTree, s: CacheState) {
    forall k, e :: k in s.entries && e in s.entries[k] && e.deploymentSlot <= s.root ==>
      OnFork(t, e.deploymentSlot, s.root)
  }

  lemma {:induction false} RunKeepsRooted(t: ForkTree, states: seq<CacheState>, ops: seq<Op>, n: nat)
    requires IsRun(states, ops) && FollowsTree(t, states, ops) && n < |states|
    ensures Rooted(t, states[n])
  {
    if n > 0 {
      RunKeepsRooted(t, states, ops, n - 1);
      var s, op, s' := states[n - 1], ops[n - 1], states[n];
      assert Step(s, op, s');
      forall k, e | k in s'.entries && e in s'.entries[k] && e.deploymentSlot <= s'.root
        ensures OnFork(t, e.deploymentSlot, s'.root)
      {
        StepOrigin(s, op, s', k, e);
        if op.Prune? {
          OnForkIsOlder(t, s.root, s'.root);
          if e.deploymentSlot <= s.root { OnForkTransitive(t, e.deploymentSlot, s.root, s'.root); }
        }
      }
    }
  }

  /** Fork safety over whole runs: a batch at or above the root is only ever
      given versions deployed at its own slot or at an ancestor of it, although
      below the root the fork graph is not asked. */
  lemma ForkSafety(t: ForkTree, states: seq<CacheState>, ops: seq<Op>, n: nat,
                   graph: ForkGraph, slot: Slot, key: Pubkey, env: Environment, criteria: Criteria)
    requires IsRun(states, ops) && FollowsTree(t, states, ops) && n < |states|
    requires ExactFrom(graph, t, states[n].root) && OnFork(t, states[n].root, slot)
    ensures var answer := Lookup(states[n].Versions(key), View(states[n].root, graph, slot), env, criteria);
      answer.Some? ==> OnFork(t, answer.value.deploymentSlot, slot)
  {
    var s := states[n];
    var view := View(s.root, graph, slot);
    var newest := Last(s.Versions(key), e => Decides(view, e));
    if newest.Some? {
      RunKeepsRooted(t, states, ops, n);
      OnForkIsOlder(t, s.root, slot);
      var d := newest.value.deploymentSlot;
      assert key in s.entries && newest.value in s.entries[key];
      if d <= s.root { OnForkTransitive(t, d, s.root, slot); }
    }
  }

  lemma {:induction false} RunKeepsDelay(states: seq<CacheState>, ops: seq<Op>, n: nat)
    requires IsRun(states, ops) && n < |states|
    requires forall i :: 0 <= i < |ops| && ops[i].Assign? ==> StandardDelay([ops[i].entry])
    ensures forall k :: k in states[n].entries ==> StandardDelay(states[n].entries[k])
  {
    if n > 0 {
      RunKeepsDelay(states, ops, n - 1);
      var s, op, s' := states[n - 1], ops[n - 1], states[n];
      assert Step(s, op, s');
      forall k, e | k in s'.entries && e in s'.entries[k]
        ensures e.deploymentSlot <= e.effectiveSlot <= e.deploymentSlot + DELAY_VISIBILITY_SLOT_OFFSET
      {
        StepOrigin(s, op, s', k, e);
        if op.Assign? && e == op.entry {
          assert op.entry in [op.entry];
        } else {
          var o :| o in s.entries[k] && SameOrUnloaded(o, e);
          assert StandardDelay(s.entries[k]);
        }
      }
    }
  }

  /** Pruning preserves lookups over whole runs: from an empty cache, if assigns
      pass one environment and versions have the standard delay, a rerooting
      changes no answer at or above the new root. */
  lemma PruneIsInvisible(t: ForkTree, states: seq<CacheState>, ops: seq<Op>, n: nat, assignEnv: Environment,
                         graphAfter: ForkGraph, slot: Slot, key: Pubkey, env: Environment, criteria: Criteria)
    requires IsRun(states, ops) && FollowsTree(t, states, ops) && AssignsPass(ops, assignEnv)
    requires forall i :: 0 <= i < |ops| && ops[i].Assign? ==> StandardDelay([ops[i].entry])
    requires n < |ops| && ops[n].Prune? && ops[n].upcoming == None
    requires ExactFrom(graphAfter, t, ops[n].newRoot) && OnFork(t, ops[n].newRoot, slot)
    ensures Lookup(states[n + 1].Versions(key), View(states[n + 1].root, graphAfter, slot), env, criteria)
         == Lookup(states[n].Versions(key), View(states[n].root, ops[n].graph, slot), env, criteria)
  {
    var s, s' := states[n], states[n + 1];
    assert Step(s, ops[n], s');
    var m := Reroot(ops[n].graph, s.root, ops[n].newRoot);
    RunKeepsCanonical(states, ops, assignEnv, n);
    RunKeepsDelay(states, ops, n);
    OnForkIsOlder(t, s.root, m.newRoot);
    var versions := s.Versions(key);
    assert Canonical(versions, assignEnv);
    assert s'.Versions(key) == Pruned(m, versions, None);
    PrunePreservesLookup(t, m, View(s.root, m.graph, slot), View(m.newRoot, graphAfter, slot), versions, assignEnv, env,
      criteria);
  }
}
