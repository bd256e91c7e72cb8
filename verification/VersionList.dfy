/** The sorted list of versions of one program: where `assign_program` inserts a
    version, which versions it removes, and what that keeps true of the list. */
module VersionLists {
  import opened Sequences
  import opened ProgramEntries

  datatype Ordering = Less | Equal | Greater

  /** The entry needs no environment, or the one given. */
  predicate IsCurrent(env: Environment, e: Entry) {
    var own := e.program.GetEnvironment();
    own == None || own == Some(env)
  }

  /** The order `assign_program` searches by: effective slot, deployment slot,
      then entries of another environment before those of `env`. */
  function Compare(env: Environment, a: Entry, b: Entry): Ordering {
    if a.effectiveSlot != b.effectiveSlot then
      if a.effectiveSlot < b.effectiveSlot then Less else Greater
    else if a.deploymentSlot != b.deploymentSlot then
      if a.deploymentSlot < b.deploymentSlot then Less else Greater
    else if IsCurrent(env, a) == IsCurrent(env, b) then Equal
    else if IsCurrent(env, b) then Less
    else Greater
  }

  /** The order by (effective slot, deployment slot) alone. */
  predicate NotAfter(a: Entry, b: Entry) {
    a.effectiveSlot < b.effectiveSlot
    || (a.effectiveSlot == b.effectiveSlot && a.deploymentSlot <= b.deploymentSlot)
  }

  ghost predicate WeaklySorted(versions: seq<Entry>) {
    Pairwise(versions, NotAfter)
  }

  /** What the final `retain` of `assign_program` tolerates next to `entry`. */
  predicate Retained(entry: Entry, existing: Entry) {
    || existing.deploymentSlot != entry.deploymentSlot
    || (existing.program.GetEnvironment().Some? && entry.program.GetEnvironment().Some?
        && existing.program.GetEnvironment() != entry.program.GetEnvironment())
    || existing.SameVersion(entry)
  }

  /** Strictly before `b` in the search order of `env`, and allowed beside it. */
  predicate Precedes(env: Environment, a: Entry, b: Entry) {
    Compare(env, a, b) == Less && Retained(a, b)
  }

  /** The list as assigns that all pass `env` leave it. */
  ghost predicate Canonical(versions: seq<Entry>, env: Environment) {
    Pairwise(versions, (a, b) => Precedes(env, a, b))
  }

  /** What a bisection for `entry` may answer on any list, sorted or not: an
      equal element, or a place between a smaller and a greater one. */
  ghost predicate BisectionResult(versions: seq<Entry>, env: Environment, entry: Entry, found: bool, index: nat) {
    if found then index < |versions| && Compare(env, versions[index], entry) == Equal
    else
      && index <= |versions|
      && (index > 0 ==> Compare(env, versions[index - 1], entry) == Less)
      && (index < |versions| ==> Compare(env, versions[index], entry) == Greater)
  }

  /** `slice::binary_search_by` over the versions. */
  method Bisect(versions: seq<Entry>, env: Environment, entry: Entry) returns (found: bool, index: nat)
    ensures BisectionResult(versions, env, entry, found, index)
  {
    var lo, hi := 0, |versions|;
    while lo < hi
      invariant 0 <= lo <= hi <= |versions|
      invariant lo > 0 ==> Compare(env, versions[lo - 1], entry) == Less
      invariant hi < |versions| ==> Compare(env, versions[hi], entry) == Greater
    {
      var mid := lo + (hi - lo) / 2;
      match Compare(env, versions[mid], entry) {
        case Equal => return true, mid;
        case Less => lo := mid + 1;
        case Greater => hi := mid;
      }
    }
    return false, lo;
  }

  /** The replacements `assign_program` accepts at an occupied place. */
  predicate MayReplace(existing: Entry, entry: Entry) {
    match (existing.program, entry.program)
    case (Builtin(_), Builtin(_)) => true
    case (Unloaded(_), Loaded(_)) => true
    case (Closed, Closed) => existing.owner != entry.owner
    case _ => false
  }

  /** The list after `entry` was put where the search pointed; `Err` when the
      place is taken by a version it must not replace. */
  function Place(versions: seq<Entry>, entry: Entry, found: bool, index: nat): Result<seq<Entry>, ()>
    requires if found then index < |versions| else index <= |versions|
  {
    if !found then Ok(versions[..index] + [entry] + versions[index..])
    else if MayReplace(versions[index], entry) then Ok(versions[index := entry])
    else Err(())
  }

  /** The list after `assign_program`. */
  function Assigned(versions: seq<Entry>, entry: Entry, found: bool, index: nat): seq<Entry>
    requires if found then index < |versions| else index <= |versions|
  {
    match Place(versions, entry, found, index)
    case Ok(placed) => Filter(placed, e => Retained(entry, e))
    case Err(_) => versions
  }

  /** Placing keeps any relation between list members that the new entry
      respects: bisection never lands on the wrong side, although a list built
      under several environments need not be sorted by the search order. */
  lemma PlaceSplits(versions: seq<Entry>, env: Environment, entry: Entry, found: bool, index: nat)
    requires WeaklySorted(versions)
    requires BisectionResult(versions, env, entry, found, index)
    ensures forall j :: 0 <= j < index ==> NotAfter(versions[j], entry)
    ensures forall j :: (if found then index < j else index <= j) && j < |versions| ==> NotAfter(entry, versions[j])
  {
    if !found && index > 0 {
      assert NotAfter(versions[index - 1], entry);
    }
    if !found && index < |versions| {
      assert NotAfter(entry, versions[index]);
    }
  }

  /** Each list stays sorted by (effective slot, deployment slot), whatever
      environments successive assigns pass and wherever the search lands. */
  lemma AssignKeepsWeakOrder(versions: seq<Entry>, env: Environment, entry: Entry, found: bool, index: nat)
    requires WeaklySorted(versions)
    requires BisectionResult(versions, env, entry, found, index)
    ensures WeaklySorted(Assigned(versions, entry, found, index))
  {
    PlaceSplits(versions, env, entry, found, index);
    match Place(versions, entry, found, index) {
      case Ok(placed) =>
        if !found { InsertPairwise(versions, index, entry, NotAfter); }
        FilterPairwise(placed, e => Retained(entry, e), NotAfter);
      case Err(_) =>
    }
  }

  /** With one environment the search order is a strict order on the list, and
      versions of one deployment slot only share it when `retain` allows. */
  lemma AssignKeepsCanonical(versions: seq<Entry>, env: Environment, entry: Entry, found: bool, index: nat)
    requires Canonical(versions, env)
    requires BisectionResult(versions, env, entry, found, index)
    ensures Canonical(Assigned(versions, entry, found, index), env)
  {
    match Place(versions, entry, found, index) {
      case Err(_) =>
      case Ok(placed) =>
        // Pairs that involve the new entry are only ordered so far.
        var ordered := (a: Entry, b: Entry) =>
          Compare(env, a, b) == Less && (a == entry || b == entry || Retained(a, b));
        PlacedIsOrdered(versions, env, entry, found, index, placed, ordered);
        var keep := e => Retained(entry, e);
        var result := Filter(placed, keep);
        FilterPairwise(placed, keep, ordered);
        forall i, j | 0 <= i < j < |result| ensures Precedes(env, result[i], result[j]) {
          FilterMember(placed, keep, result[i]);
          FilterMember(placed, keep, result[j]);
        }
    }
  }

  lemma PlacedIsOrdered(versions: seq<Entry>, env: Environment, entry: Entry, found: bool, index: nat,
                        placed: seq<Entry>, ordered: (Entry, Entry) -> bool)
    requires Canonical(versions, env)
    requires BisectionResult(versions, env, entry, found, index)
    requires Place(versions, entry, found, index) == Ok(placed)
    requires forall a, b :: ordered(a, b) <==>
      Compare(env, a, b) == Less && (a == entry || b == entry || Retained(a, b))
    ensures Pairwise(placed, ordered)
  {
    forall i, j | 0 <= i < j < |versions| ensures ordered(versions[i], versions[j]) {
      assert Precedes(env, versions[i], versions[j]);
    }
    if found {
      forall i, j | 0 <= i < j < |placed| ensures ordered(placed[i], placed[j]) {
        assert Precedes(env, versions[i], versions[j]);
      }
    } else {
      forall j | 0 <= j < index ensures ordered(versions[j], entry) {
        if j < index - 1 { assert Precedes(env, versions[j], versions[index - 1]); }
      }
      forall j | index <= j < |versions| ensures ordered(entry, versions[j]) {
        if index < j { assert Precedes(env, versions[index], versions[j]); }
      }
      InsertPairwise(versions, index, entry, ordered);
    }
  }

  /** At most one version per deployment slot and environment. */
  ghost predicate OnePerSlot(versions: seq<Entry>) {
    forall i, j :: 0 <= i < j < |versions| ==>
      !(versions[i].deploymentSlot == versions[j].deploymentSlot
        && versions[i].program.GetEnvironment() == versions[j].program.GetEnvironment())
  }

  lemma CanonicalMeaning(versions: seq<Entry>, env: Environment)
    requires Canonical(versions, env)
    ensures OnePerSlot(versions)
  {
    forall i, j | 0 <= i < j < |versions| ensures
      !(versions[i].deploymentSlot == versions[j].deploymentSlot
        && versions[i].program.GetEnvironment() == versions[j].program.GetEnvironment())
    {
      assert Precedes(env, versions[i], versions[j]);
    }
  }
}
