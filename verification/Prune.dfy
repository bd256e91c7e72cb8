/** Pruning one program's versions when the root moves, and why batches on the
    new root's forks do not notice. */
module Pruning {
  import opened Sequences
  import opened ForkGraphs
  import opened ProgramEntries
  import opened VersionLists
  import opened Lookups

  /** A move of the root, as `prune` sees it before the block store follows. */
  datatype Reroot = Reroot(graph: ForkGraph, latestRoot: Slot, newRoot: Slot)

  /** Below the new root and, as far as the cache knows, on its fork. */
  predicate IsAncestor(m: Reroot, e: Entry) {
    && e.deploymentSlot < m.newRoot
    && (m.graph.relationship(e.deploymentSlot, m.newRoot) == Ancestor || e.deploymentSlot <= m.latestRoot)
  }

  predicate IsAtOrAbove(m: Reroot, e: Entry) {
    && e.deploymentSlot >= m.newRoot
    && m.graph.relationship(e.deploymentSlot, m.newRoot) in {BlockRelation.Equal, BlockRelation.Descendant}
  }

  predicate EnvironmentsDiffer(a: Entry, b: Entry) {
    && a.program.GetEnvironment().Some? && b.program.GetEnvironment().Some?
    && a.program.GetEnvironment() != b.program.GetEnvironment()
  }

  /** Whether `e` survives, given the newest ancestor seen behind it. */
  predicate Survives(m: Reroot, newest: Option<Entry>, e: Entry) {
    || IsAtOrAbove(m, e)
    || (IsAncestor(m, e) && (newest.None? || EnvironmentsDiffer(e, newest.value)))
  }

  function NewestAncestor(m: Reroot, newest: Option<Entry>, e: Entry): Option<Entry> {
    if newest.None? && IsAncestor(m, e) then Some(e) else newest
  }

  /** The versions that survive: those at or above the new root on its forks,
      the newest ancestor, and older ancestors for another environment. */
  function Survivors(m: Reroot, versions: seq<Entry>, newest: Option<Entry>): seq<Entry> {
    if versions == [] then []
    else
      var e := versions[|versions| - 1];
      var rest := Survivors(m, versions[..|versions| - 1], NewestAncestor(m, newest, e));
      if Survives(m, newest, e) then rest + [e] else rest
  }

  /** The second filter of `prune`: drop what the upcoming environment outdates. */
  function ForEnvironment(versions: seq<Entry>, upcoming: Option<Environment>): seq<Entry> {
    if upcoming.None? then versions else Filter(versions, e => MatchesEnvironment(e, upcoming.value))
  }

  function Pruned(m: Reroot, versions: seq<Entry>, upcoming: Option<Environment>): seq<Entry> {
    ForEnvironment(Survivors(m, versions, None), upcoming)
  }

  /** The loop of `prune` over one program's versions, newest first. */
  method PruneVersions(m: Reroot, versions: seq<Entry>, upcoming: Option<Environment>) returns (kept: seq<Entry>)
    ensures kept == Pruned(m, versions, upcoming)
  {
    kept := [];
    var firstAncestorFound, firstAncestorEnv := false, None;
    ghost var newest: Option<Entry> := None;
    var i := |versions|;
    assert versions[..i] == versions;
    while i > 0
      invariant 0 <= i <= |versions|
      invariant firstAncestorFound == newest.Some?
      invariant newest.Some? ==> firstAncestorEnv == newest.value.program.GetEnvironment()
      invariant Pruned(m, versions, upcoming) == ForEnvironment(Survivors(m, versions[..i], newest), upcoming) + kept
    {
      i := i - 1;
      var e := versions[i];
      var relation := m.graph.relationship(e.deploymentSlot, m.newRoot);
      var survives := false;
      ghost var before := newest;
      if e.deploymentSlot >= m.newRoot {
        survives := relation == BlockRelation.Equal || relation == BlockRelation.Descendant;
      } else if relation == Ancestor || e.deploymentSlot <= m.latestRoot {
        if !firstAncestorFound {
          firstAncestorFound, firstAncestorEnv, survives := true, e.program.GetEnvironment(), true;
          newest := Some(e);
        } else {
          survives := e.program.GetEnvironment().Some? && firstAncestorEnv.Some?
                      && e.program.GetEnvironment() != firstAncestorEnv;
        }
      }
      assert survives == Survives(m, before, e) && newest == NewestAncestor(m, before, e);
      PruneStep(m, versions, upcoming, i, before, kept);
      var outdated := upcoming.Some? && !MatchesEnvironment(e, upcoming.value);
      if survives && !outdated { kept := [e] + kept; }
    }
  }

  lemma PruneStep(m: Reroot, versions: seq<Entry>, upcoming: Option<Environment>, i: nat, newest: Option<Entry>,
                  kept: seq<Entry>)
    requires i < |versions|
    ensures ForEnvironment(Survivors(m, versions[..i + 1], newest), upcoming) + kept
         == ForEnvironment(Survivors(m, versions[..i], NewestAncestor(m, newest, versions[i])), upcoming)
            + (if && Survives(m, newest, versions[i])
                  && (upcoming.Some? ==> MatchesEnvironment(versions[i], upcoming.value))
               then [versions[i]] + kept else kept)
  {
    var e := versions[i];
    var rest := Survivors(m, versions[..i], NewestAncestor(m, newest, e));
    assert versions[..i + 1][..i] == versions[..i];
    if Survives(m, newest, e) {
      ForEnvironmentConcat(rest, [e], upcoming);
      var kept' := ForEnvironment(rest, upcoming);
      assert (kept' + [e]) + kept == kept' + ([e] + kept);
    }
  }

  lemma ForEnvironmentConcat(s: seq<Entry>, t: seq<Entry>, upcoming: Option<Environment>)
    ensures ForEnvironment(s + t, upcoming) == ForEnvironment(s, upcoming) + ForEnvironment(t, upcoming)
  {
    if upcoming.Some? { FilterConcat(s, t, e => MatchesEnvironment(e, upcoming.value)); }
  }

  lemma {:induction false} SurvivorsMember(m: Reroot, versions: seq<Entry>, newest: Option<Entry>, e: Entry)
    requires e in Survivors(m, versions, newest)
    ensures e in versions && (IsAtOrAbove(m, e) || IsAncestor(m, e))
  {
    var last := versions[|versions| - 1];
    var init := versions[..|versions| - 1];
    var rest := Survivors(m, init, NewestAncestor(m, newest, last));
    if e in rest {
      SurvivorsMember(m, init, NewestAncestor(m, newest, last), e);
    }
  }

  /** Any relation between earlier and later versions survives pruning. */
  lemma {:induction false} SurvivorsPairwise(m: Reroot, versions: seq<Entry>, newest: Option<Entry>,
                                             r: (Entry, Entry) -> bool)
    requires Pairwise(versions, r)
    ensures Pairwise(Survivors(m, versions, newest), r)
  {
    if versions != [] {
      var e := versions[|versions| - 1];
      var init := versions[..|versions| - 1];
      var rest := Survivors(m, init, NewestAncestor(m, newest, e));
      SurvivorsPairwise(m, init, NewestAncestor(m, newest, e), r);
      forall i | 0 <= i < |rest| ensures r(rest[i], e) {
        SurvivorsMember(m, init, NewestAncestor(m, newest, e), rest[i]);
        var k :| 0 <= k < |init| && init[k] == rest[i];
        assert versions[k] == rest[i];
      }
    }
  }

  lemma PrunedPairwise(m: Reroot, versions: seq<Entry>, upcoming: Option<Environment>, r: (Entry, Entry) -> bool)
    requires Pairwise(versions, r)
    ensures Pairwise(Pruned(m, versions, upcoming), r)
  {
    SurvivorsPairwise(m, versions, None, r);
    if upcoming.Some? {
      FilterPairwise(Survivors(m, versions, None), e => MatchesEnvironment(e, upcoming.value), r);
    }
  }

  lemma PrunedMember(m: Reroot, versions: seq<Entry>, upcoming: Option<Environment>, e: Entry)
    requires e in Pruned(m, versions, upcoming)
    ensures e in versions && (IsAtOrAbove(m, e) || IsAncestor(m, e))
  {
    if upcoming.Some? {
      FilterMember(Survivors(m, versions, None), e => MatchesEnvironment(e, upcoming.value), e);
    }
    SurvivorsMember(m, versions, None, e);
  }

  // ----- Pruning preserves lookups -----

  /** Versions take effect in their deployment slot or one slot later. */
  ghost predicate StandardDelay(versions: seq<Entry>) {
    forall e :: e in versions ==> e.deploymentSlot <= e.effectiveSlot <= e.deploymentSlot + DELAY_VISIBILITY_SLOT_OFFSET
  }

  /** The views of one batch before and after the root moved to an ancestor of
      its slot; the block store may have been rerooted in between. */
  ghost predicate ViewsOf(t: ForkTree, m: Reroot, before: View, after: View) {
    && ExactFrom(m.graph, t, m.latestRoot)
    && ExactFrom(after.graph, t, m.newRoot)
    && m.latestRoot <= m.newRoot
    && before == View(m.latestRoot, m.graph, after.slot)
    && after.root == m.newRoot
    && OnFork(t, m.newRoot, after.slot)
  }

  /** On the batch's fork, both views and the pruning agree on every version. */
  lemma BranchAgrees(t: ForkTree, m: Reroot, before: View, after: View, e: Entry)
    requires ViewsOf(t, m, before, after)
    ensures IsAtOrAbove(m, e) || IsAncestor(m, e) ==> (OnBranch(before, e) <==> OnBranch(after, e))
    ensures OnBranch(before, e) ==> IsAtOrAbove(m, e) || IsAncestor(m, e)
    ensures IsAncestor(m, e) ==> OnBranch(before, e) && OnBranch(after, e)
  {
    var d := e.deploymentSlot;
    OnForkIsOlder(t, m.newRoot, after.slot);
    if d >= m.newRoot {
      if OnFork(t, d, after.slot) { OnForkLinear(t, m.newRoot, d, after.slot); }
    } else if d > m.latestRoot {
      if OnFork(t, d, m.newRoot) {
        OnForkTransitive(t, d, m.newRoot, after.slot);
      } else if OnFork(t, d, after.slot) {
        OnForkLinear(t, d, m.newRoot, after.slot);
      }
    }
  }

  lemma {:induction false} DecidingVersionSurvives(t: ForkTree, m: Reroot, before: View, after: View,
                                                   versions: seq<Entry>)
    requires ViewsOf(t, m, before, after) && StandardDelay(versions)
    ensures Last(Survivors(m, versions, None), e => Decides(after, e)) == Last(versions, e => Decides(before, e))
  {
    if versions != [] {
      var init, e := versions[..|versions| - 1], versions[|versions| - 1];
      BranchAgrees(t, m, before, after, e);
      OnForkIsOlder(t, m.newRoot, after.slot);
      DecidingVersionSurvives(t, m, before, after, init);
    }
  }

  /** The environment of an older version fits only if the newest ancestor's
      does, or if it is not pruned for it. */
  ghost predicate FittingSurvive(m: Reroot, versions: seq<Entry>, newest: Option<Entry>, fits: Entry -> bool) {
    && (forall e :: e in versions && fits(e) ==> IsAtOrAbove(m, e) || IsAncestor(m, e))
    && match (if newest.Some? then newest else Last(versions, e => IsAncestor(m, e)))
       case None => true
       case Some(first) =>
         || (newest.None? && fits(first))
         || forall e :: e in versions && fits(e) && IsAncestor(m, e) ==> EnvironmentsDiffer(e, first)
  }

  lemma {:induction false} FittingVersionSurvives(m: Reroot, versions: seq<Entry>, newest: Option<Entry>,
                                                  fits: Entry -> bool)
    requires FittingSurvive(m, versions, newest, fits)
    ensures Last(Survivors(m, versions, newest), fits) == Last(versions, fits)
  {
    if versions != [] {
      var init, e := versions[..|versions| - 1], versions[|versions| - 1];
      if !fits(e) {
        FittingVersionSurvives(m, init, NewestAncestor(m, newest, e), fits);
      }
    }
  }

  /** Pruning preserves lookups: when all assigns passed one environment and
      versions have the standard delay, no batch at or above the new root gets
      another answer, for any environment and criterion. */
  lemma PrunePreservesLookup(t: ForkTree, m: Reroot, before: View, after: View,
                             versions: seq<Entry>, assignEnv: Environment, env: Environment, criteria: Criteria)
    requires ViewsOf(t, m, before, after)
    requires Canonical(versions, assignEnv) && StandardDelay(versions)
    ensures Lookup(Pruned(m, versions, None), after, env, criteria) == Lookup(versions, before, env, criteria)
  {
    DecidingVersionSurvives(t, m, before, after, versions);
    var newest := Last(versions, e => Decides(before, e));
    if newest.Some? && IsEffective(before, newest.value) {
      var slot := newest.value.deploymentSlot;
      var fits := e => Fits(before, slot, env, e);
      NewestFitsSurvive(t, m, before, after, versions, assignEnv, env);
      FittingVersionSurvives(m, versions, None, fits);
      LastCongruent(Survivors(m, versions, None), fits, e => Fits(after, slot, env, e));
      LastCongruent(versions, fits, e => Fits(before, newest.value.deploymentSlot, env, e));
    }
  }

  lemma {:induction false} LastCongruent(versions: seq<Entry>, p: Entry -> bool, q: Entry -> bool)
    requires forall e :: p(e) == q(e)
    ensures Last(versions, p) == Last(versions, q)
  {
    if versions != [] { LastCongruent(versions[..|versions| - 1], p, q); }
  }

  lemma NewestFitsSurvive(t: ForkTree, m: Reroot, before: View, after: View,
                          versions: seq<Entry>, assignEnv: Environment, env: Environment)
    requires ViewsOf(t, m, before, after)
    requires Canonical(versions, assignEnv) && StandardDelay(versions)
    requires Last(versions, e => Decides(before, e)).Some?
    ensures FittingSurvive(m, versions, None,
      e => Fits(before, Last(versions, e => Decides(before, e)).value.deploymentSlot, env, e))
  {
    var n := LastIndex(versions, e => Decides(before, e));
    var slot := versions[n].deploymentSlot;
    forall e | e in versions && Fits(before, slot, env, e) ensures IsAtOrAbove(m, e) || IsAncestor(m, e) {
      assert OnBranch(before, versions[n]) && OnBranch(before, e);
      BranchAgrees(t, m, before, after, e);
    }
    if Last(versions, e => IsAncestor(m, e)).Some? {
      var f := LastIndex(versions, e => IsAncestor(m, e));
      forall e | e in versions && Fits(before, slot, env, e) && IsAncestor(m, e) &&
        !Fits(before, slot, env, versions[f])
        ensures EnvironmentsDiffer(e, versions[f])
      {
        var k :| 0 <= k < |versions| && versions[k] == e;
        OlderFitDiffers(t, m, before, after, versions, assignEnv, env, n, f, k);
      }
    }
  }

  /** If the newest ancestor is for another environment than an older version of
      the deciding slot, the two environments differ: the newest ancestor is
      effective, so it is the deciding version itself. */
  lemma OlderFitDiffers(t: ForkTree, m: Reroot, before: View, after: View,
                        versions: seq<Entry>, assignEnv: Environment, env: Environment, n: nat, f: nat, k: nat)
    requires ViewsOf(t, m, before, after) && Canonical(versions, assignEnv) && StandardDelay(versions)
    requires n < |versions| && Decides(before, versions[n])
    requires forall j :: n < j < |versions| ==> !Decides(before, versions[j])
    requires f < |versions| && IsAncestor(m, versions[f])
    requires forall j :: f < j < |versions| ==> !IsAncestor(m, versions[j])
    requires k < |versions| && IsAncestor(m, versions[k])
    requires Fits(before, versions[n].deploymentSlot, env, versions[k])
    requires !Fits(before, versions[n].deploymentSlot, env, versions[f])
    ensures EnvironmentsDiffer(versions[k], versions[f])
  {
    BranchAgrees(t, m, before, after, versions[f]);
    OnForkIsOlder(t, m.newRoot, after.slot);
    assert versions[f] in versions && Decides(before, versions[f]);
    assert IsAncestor(m, versions[n]);
    assert n == f;
    assert k < f;
    assert Precedes(assignEnv, versions[k], versions[f]);
  }
}
