/** Which version of a program a batch at some slot gets: the declarative answer,
    and the backward scan of `extract` that computes it. */
module Lookups {
  import opened Sequences
  import opened ForkGraphs
  import opened ProgramEntries
  import opened VersionLists

  datatype Criteria =
    | DeployedOnOrAfterSlot(slot: Slot)
    | Tombstone
    | NoCriteria

  /** Where a batch looks from: its slot, and the cache's root and fork graph. */
  datatype View = View(root: Slot, graph: ForkGraph, slot: Slot)

  predicate MatchesEnvironment(e: Entry, env: Environment) {
    e.program.GetEnvironment().None? || e.program.GetEnvironment() == Some(env)
  }

  predicate MatchesCriteria(e: Entry, criteria: Criteria) {
    match criteria
    case DeployedOnOrAfterSlot(slot) => e.deploymentSlot >= slot
    case Tombstone => e.IsTombstone()
    case NoCriteria => true
  }

  /** At or below the root every version counts as on the branch; above it the
      fork graph decides. */
  predicate OnBranch(view: View, e: Entry) {
    e.deploymentSlot <= view.root
    || view.graph.relationship(e.deploymentSlot, view.slot) in {BlockRelation.Equal, BlockRelation.Ancestor}
  }

  predicate IsEffective(view: View, e: Entry) {
    e.effectiveSlot <= view.slot
  }

  /** The version decides the lookup, unless a later one does. */
  predicate Decides(view: View, e: Entry) {
    OnBranch(view, e) && (IsEffective(view, e) || e.IsImplicitDelayVisibilityTombstone(view.slot))
  }

  /** An effective version deployed in `slot` that fits the environment. */
  predicate Fits(view: View, slot: Slot, env: Environment, e: Entry) {
    e.deploymentSlot == slot && IsEffective(view, e) && MatchesEnvironment(e, env)
  }

  /** The answer, without a scan: the newest on-branch version that is effective
      or pending decides. If it is pending the program is invisible; otherwise
      the newest effective version of its deployment slot that fits the environment is
      handed out, if it meets the criteria and is loaded. */
  function Lookup(versions: seq<Entry>, view: View, env: Environment, criteria: Criteria): Option<Entry> {
    match Last(versions, e => Decides(view, e))
    case None => None
    case Some(newest) =>
      if !IsEffective(view, newest) then Some(newest.DelayTombstone())
      else
        match Last(versions, e => Fits(view, newest.deploymentSlot, env, e))
        case None => None
        case Some(fitting) =>
          if MatchesCriteria(fitting, criteria) && !fitting.program.Unloaded? then Some(fitting) else None
  }

  /** The scan of `extract`: from the newest version backwards, remembering the
      deployment slot of a version that only failed on its environment. The
      order of the list is what rules out a pending version behind it. */
  method Scan(versions: seq<Entry>, view: View, env: Environment, criteria: Criteria) returns (answer: Option<Entry>)
    requires WeaklySorted(versions)
    ensures answer == Lookup(versions, view, env, criteria)
  {
    var filterByDeploymentSlot: Option<Slot> := None;
    ghost var newest := 0;
    var i := |versions|;
    while i > 0
      invariant 0 <= i <= |versions|
      invariant filterByDeploymentSlot.None? ==>
        forall j :: i <= j < |versions| ==> !Decides(view, versions[j])
      invariant filterByDeploymentSlot.Some? ==>
        && i <= newest < |versions|
        && Decides(view, versions[newest]) && IsEffective(view, versions[newest])
        && (forall j :: newest < j < |versions| ==> !Decides(view, versions[j]))
        && filterByDeploymentSlot.value == versions[newest].deploymentSlot
        && (forall j :: i <= j < |versions| ==> !Fits(view, versions[newest].deploymentSlot, env, versions[j]))
    {
      i := i - 1;
      var e := versions[i];
      if filterByDeploymentSlot.Some? {
        assert NotAfter(e, versions[newest]);
        if filterByDeploymentSlot.value != e.deploymentSlot { continue; }
      }
      if OnBranch(view, e) {
        if IsEffective(view, e) {
          if filterByDeploymentSlot.None? { newest := i; }
          if !MatchesEnvironment(e, env) {
            if filterByDeploymentSlot.None? { filterByDeploymentSlot := Some(e.deploymentSlot); }
            continue;
          }
          LastAt(versions, e => Decides(view, e), newest);
          LastAt(versions, x => Fits(view, versions[newest].deploymentSlot, env, x), i);
          if !MatchesCriteria(e, criteria) { return None; }
          if e.program.Unloaded? { return None; }
          return Some(e);
        } else if e.IsImplicitDelayVisibilityTombstone(view.slot) {
          LastAt(versions, e => Decides(view, e), i);
          return Some(e.DelayTombstone());
        }
      }
    }
    if filterByDeploymentSlot.Some? {
      LastAt(versions, e => Decides(view, e), newest);
    }
    return None;
  }

}
