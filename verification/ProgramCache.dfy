/** The program cache itself: `ProgramCache` and the batch view it fills. Its
    index changes only by the steps of `CacheRuns`. */
module ProgramCaches {
  import opened Sequences
  import opened ForkGraphs
  import opened ProgramEntries
  import opened VersionLists
  import opened Lookups
  import opened Pruning
  import opened Eviction
  import opened CacheRuns
  import opened Words
  import CooperativeLoading

  type ThreadId = CooperativeLoading.ThreadId

  /** One program a batch asks for. */
  datatype Request = Request(key: Pubkey, criteria: Criteria)

  /** How often each shared statistics record was used. */
  type UseCounts = map<StatsHandle, nat>

  function Uses(counts: UseCounts, h: StatsHandle): nat {
    if h in counts then counts[h] else 0
  }

  /** Replacing a version adds the replaced one's uses to the new one's. */
  function MergedUses(counts: UseCounts, entry: Entry, replaced: Entry): UseCounts {
    counts[entry.stats := (Uses(counts, entry.stats) + Uses(counts, replaced.stats)) % U64_MODULUS]
  }

  /** What `extract` has served and left missing after some requests. */
  datatype Served = Served(entries: map<Pubkey, Entry>, counts: UseCounts, missing: seq<Request>)

  function Answer(s: CacheState, view: View, env: Environment, r: Request): Option<Entry> {
    Lookup(s.Versions(r.key), view, env, r.criteria)
  }

  function ServeOne(s: CacheState, view: View, env: Environment, count: bool, so: Served, r: Request): Served {
    match Answer(s, view, env, r)
    case None => so.(missing := so.missing + [r])
    case Some(e) =>
      so.(entries := so.entries[r.key := e],
          counts := if count then so.counts[e.stats := (Uses(so.counts, e.stats) + 1) % U64_MODULUS] else so.counts)
  }

  function Serve(s: CacheState, view: View, env: Environment, count: bool, so: Served, requests: seq<Request>): Served {
    if requests == [] then so
    else ServeOne(s, view, env, count, Serve(s, view, env, count, so, requests[..|requests| - 1]),
      requests[|requests| - 1])
  }

  /** The missing program a batch may load itself: the first that nobody loads. */
  function FirstUnclaimed(missing: seq<Request>, loading: map<Pubkey, (Slot, ThreadId)>): Option<Pubkey> {
    if missing == [] then None
    else
      match FirstUnclaimed(missing[..|missing| - 1], loading)
      case Some(k) => Some(k)
      case None => if missing[|missing| - 1].key in loading then None else Some(missing[|missing| - 1].key)
  }

  /** The task is for a program left missing that nobody loads; without one,
      somebody loads every missing program. */
  lemma {:induction false} UnclaimedMeaning(missing: seq<Request>, loading: map<Pubkey, (Slot, ThreadId)>)
    ensures var r := FirstUnclaimed(missing, loading);
      match r
      case Some(k) => k !in loading && exists q :: q in missing && q.key == k
      case None => forall q :: q in missing ==> q.key in loading
  {
    if missing != [] {
      var init := missing[..|missing| - 1];
      UnclaimedMeaning(init, loading);
      assert missing == init + [missing[|missing| - 1]];
    }
  }

  lemma ServeNext(s: CacheState, view: View, env: Environment, count: bool, so: Served, requests: seq<Request>, i: nat)
    requires i < |requests|
    ensures Serve(s, view, env, count, so, requests[..i + 1])
         == ServeOne(s, view, env, count, Serve(s, view, env, count, so, requests[..i]), requests[i])
  {
    assert requests[..i + 1][..i] == requests[..i];
  }

  lemma NextUnclaimed(missing: seq<Request>, r: Request, loading: map<Pubkey, (Slot, ThreadId)>)
    ensures FirstUnclaimed(missing + [r], loading)
         == if FirstUnclaimed(missing, loading).None? && r.key !in loading then Some(r.key)
            else FirstUnclaimed(missing, loading)
  {
    assert (missing + [r])[..|missing|] == missing;
  }

  /** The versions extracted for one batch of transactions. */
  class TxBatch {
    var entries: map<Pubkey, Entry>
    var modifiedEntries: map<Pubkey, Entry>
    const slot: Slot

    constructor (slot: Slot)
      ensures this.slot == slot && entries == map[] && modifiedEntries == map[]
    {
      this.slot := slot;
      entries, modifiedEntries := map[], map[];
    }

    /** A version modified in this batch hides the extracted one, and either
        stays invisible until it takes effect. */
    function Find(key: Pubkey): Option<Entry>
      reads this
    {
      var stored := if key in modifiedEntries then Some(modifiedEntries[key])
                    else if key in entries then Some(entries[key]) else None;
      match stored
      case None => None
      case Some(e) => if e.IsImplicitDelayVisibilityTombstone(slot) then Some(e.DelayTombstone()) else Some(e)
    }
  }

  /** What a batch finds is what was looked up for it: `Find`'s own visibility
      check never changes an extracted answer. */
  lemma FoundIsLookedUp(batch: TxBatch, key: Pubkey, versions: seq<Entry>, view: View, env: Environment,
                        criteria: Criteria)
    requires key in batch.entries && key !in batch.modifiedEntries && view.slot == batch.slot
    requires Lookup(versions, view, env, criteria) == Some(batch.entries[key])
    ensures batch.Find(key) == Lookup(versions, view, env, criteria)
  {
    var newest := Last(versions, e => Decides(view, e)).value;
    if IsEffective(view, newest) {
      var fitting := Last(versions, e => Fits(view, newest.deploymentSlot, env, e)).value;
      assert IsEffective(view, fitting);
    }
  }

  class ProgramCache {
    var entries: Entries
    var loadingEntries: map<Pubkey, (Slot, ThreadId)>
    var latestRootSlot: Slot
    var forkGraph: Option<ForkGraph>
    var useCounts: UseCounts
    var cookie: nat

    constructor (rootSlot: Slot)
      ensures State() == CacheState(map[], rootSlot)
      ensures loadingEntries == map[] && forkGraph == None && useCounts == map[] && cookie == 0
    {
      entries, loadingEntries, useCounts := map[], map[], map[];
      latestRootSlot, forkGraph, cookie := rootSlot, None, 0;
    }

    function State(): CacheState
      reads this
    {
      CacheState(entries, latestRootSlot)
    }

    ghost predicate Sorted()
      reads this
    {
      AllPairwise(State(), NotAfter)
    }

    /** Insert one version; `true` when it must not replace what is there. */
    method AssignProgram(env: Environment, key: Pubkey, entry: Entry) returns (wasOccupied: bool)
      modifies `entries, `useCounts
      ensures Step(old(State()), Assign(env, key, entry), State())
      ensures wasOccupied ==> State() == old(State()) && useCounts == old(useCounts)
      ensures !wasOccupied ==> entry in entries[key]
    {
      var versions := State().Versions(key);
      var found, index := Bisect(versions, env, entry);
      if found {
        var existing := versions[index];
        if !MayReplace(existing, entry) {
          assert MayAssign(versions, env, entry, Assigned(versions, entry, found, index));
          assert entries == entries[key := versions];
          return true;
        }
        useCounts := MergedUses(useCounts, entry, existing);
        versions := versions[index := entry];
      } else {
        versions := versions[..index] + [entry] + versions[index..];
      }
      assert versions[index] == entry;
      FilterMember(versions, e => Retained(entry, e), entry);
      entries := entries[key := Filter(versions, e => Retained(entry, e))];
      assert MayAssign(old(State()).Versions(key), env, entry, entries[key]) by {
        assert entries[key] == Assigned(old(State()).Versions(key), entry, found, index);
      }
      return false;
    }

    /** Drop what the new root makes superfluous, then move the root. Without a
        fork graph nothing happens. */
    method Prune(newRootSlot: Slot, upcoming: Option<Environment>)
      modifies `entries, `latestRootSlot
      ensures forkGraph.None? ==> State() == old(State())
      ensures forkGraph.Some? ==> Step(old(State()), Op.Prune(forkGraph.value, newRootSlot, upcoming), State())
    {
      if forkGraph.None? { return; }
      var m := Reroot(forkGraph.value, latestRootSlot, newRootSlot);
      var pruned: Entries := map[];
      var keys := entries.Keys;
      while keys != {}
        invariant keys <= entries.Keys
        invariant entries == old(entries) && latestRootSlot == old(latestRootSlot)
        invariant forall k :: k in pruned <==> k in entries && k !in keys && Pruned(m, entries[k], upcoming) != []
        invariant forall k :: k in pruned ==> pruned[k] == Pruned(m, entries[k], upcoming)
      {
        var k :| k in keys;
        var kept := PruneVersions(m, entries[k], upcoming);
        if kept != [] { pruned := pruned[k := kept]; }
        keys := keys - {k};
      }
      assert pruned == MapVersions(entries, versions => Pruned(m, versions, upcoming));
      entries, latestRootSlot := pruned, newRootSlot;
    }

    /** Drop every version deployed in `slot`. */
    method PruneByDeploymentSlot(slot: Slot)
      modifies `entries
      ensures Step(old(State()), Op.PruneByDeploymentSlot(slot), State())
    {
      var pruned: Entries := map[];
      var keys := entries.Keys;
      while keys != {}
        invariant keys <= entries.Keys && entries == old(entries)
        invariant forall k :: k in pruned <==> k in entries && k !in keys && NotDeployedIn(slot)(entries[k]) != []
        invariant forall k :: k in pruned ==> pruned[k] == NotDeployedIn(slot)(entries[k])
      {
        var k :| k in keys;
        var kept := Filter(entries[k], (e: Entry) => e.deploymentSlot != slot);
        assert kept == NotDeployedIn(slot)(entries[k]);
        if kept != [] { pruned := pruned[k := kept]; }
        keys := keys - {k};
      }
      assert pruned == MapVersions(entries, NotDeployedIn(slot));
      entries := pruned;
    }

    /** The given programs go, with all their versions; every other is left alone. */
    method RemovePrograms(keys: seq<Pubkey>)
      modifies `entries
      ensures Step(old(State()), Op.RemovePrograms(set k | k in keys), State())
      ensures forall k :: State().Versions(k) == if k in keys then [] else old(State()).Versions(k)
    {
      for n := 0 to |keys|
        invariant latestRootSlot == old(latestRootSlot)
        invariant entries == old(entries) - set k | k in keys[..n]
      {
        assert keys[..n + 1] == keys[..n] + [keys[n]];
        entries := entries - {keys[n]};
      }
      assert keys[..|keys|] == keys;
    }

    method FindAnswer(r: Request, view: View, env: Environment) returns (answer: Option<Entry>)
      requires Sorted()
      ensures answer == Answer(State(), view, env, r)
    {
      answer := None;
      if r.key in entries {
        answer := Scan(entries[r.key], view, env, r.criteria);
      }
    }

    /** One turn of the loop in `extract`: hand the answer out, or keep the request
        and claim its loading if this call has no task and nobody else loads it. */
    method ServeRequest(r: Request, batch: TxBatch, view: View, env: Environment, incrementUsageCounter: bool,
                        thread: ThreadId, missingBefore: seq<Request>, taskBefore: Option<Pubkey>)
      returns (missing: seq<Request>, task: Option<Pubkey>)
      requires Sorted()
      modifies `loadingEntries, `useCounts, batch`entries
      ensures Served(batch.entries, useCounts, missing)
           == ServeOne(State(), view, env, incrementUsageCounter,
                       Served(old(batch.entries), old(useCounts), missingBefore), r)
      ensures (loadingEntries, task) ==
        if Answer(State(), view, env, r).Some? then (old(loadingEntries), taskBefore)
        else CooperativeLoading.Claim(old(loadingEntries), taskBefore, r.key, (batch.slot, thread))
    {
      missing, task := missingBefore, taskBefore;
      var answer := FindAnswer(r, view, env);
      if answer.Some? {
        var e := answer.value;
        if incrementUsageCounter {
          useCounts := useCounts[e.stats := (Uses(useCounts, e.stats) + 1) % U64_MODULUS];
        }
        batch.entries := batch.entries[r.key := e];
      } else {
        missing := missing + [r];
        if task.None? && r.key !in loadingEntries {
          loadingEntries := loadingEntries[r.key := (batch.slot, thread)];
          task := Some(r.key);
        }
      }
    }

    /** Serve a batch: every request gets its declarative answer or stays missing,
        in order; of the missing programs the first that nobody loads yet becomes
        this thread's task. */
    method Extract(requests: seq<Request>, batch: TxBatch, env: Environment, incrementUsageCounter: bool,
                   thread: ThreadId)
      returns (missing: seq<Request>, task: Option<Pubkey>)
      requires forkGraph.Some? && Sorted()
      modifies `loadingEntries, `useCounts, batch`entries
      ensures var view := View(latestRootSlot, forkGraph.value, batch.slot);
        Served(batch.entries, useCounts, missing)
          == Serve(State(), view, env, incrementUsageCounter, Served(old(batch.entries), old(useCounts), []), requests)
      ensures task == FirstUnclaimed(missing, old(loadingEntries))
      ensures loadingEntries == if task.None? then old(loadingEntries)
                                else old(loadingEntries)[task.value := (batch.slot, thread)]
    {
      var view := View(latestRootSlot, forkGraph.value, batch.slot);
      ghost var s, start := State(), Served(batch.entries, useCounts, []);
      missing, task := [], None;
      for i := 0 to |requests|
        invariant State() == s
        invariant Served(batch.entries, useCounts, missing)
               == Serve(s, view, env, incrementUsageCounter, start, requests[..i])
        invariant task == FirstUnclaimed(missing, old(loadingEntries))
        invariant loadingEntries == if task.None? then old(loadingEntries)
                                    else old(loadingEntries)[task.value := (batch.slot, thread)]
      {
        ServeNext(s, view, env, incrementUsageCounter, start, requests, i);
        NextUnclaimed(missing, requests[i], old(loadingEntries));
        missing, task := ServeRequest(requests[i], batch, view, env, incrementUsageCounter, thread, missing, task);
      }
      assert requests[..|requests|] == requests;
    }

    /** Store the program a task has loaded, end the task and wake the waiting. */
    method FinishCooperativeLoadingTask(env: Environment, key: Pubkey, loaded: Entry) returns (wasOccupied: bool)
      modifies `entries, `useCounts, `loadingEntries, `cookie
      ensures Step(old(State()), Assign(env, key, loaded), State())
      ensures loadingEntries == old(loadingEntries) - {key}
      ensures cookie == (old(cookie) + 1) % U64_MODULUS
    {
      loadingEntries := loadingEntries - {key};
      wasOccupied := AssignProgram(env, key, loaded);
      cookie := (cookie + 1) % U64_MODULUS;
    }

    /** Take the executable from the version that looks like `entry`. */
    method UnloadProgramEntry(key: Pubkey, entry: Entry)
      requires key in entries && FindVersion(entries[key], entry).Some?
      modifies `entries
      ensures Evicted(old(entries), entries)
      ensures LoadedPositions(entries) ==
        LoadedPositions(old(entries)) - {(key, FindVersion(old(entries)[key], entry).value)}
    {
      var i := FindVersion(entries[key], entry).value;
      var unloaded := entries[key][i].ToUnloaded();
      if unloaded.None? {
        NothingToUnload(entries, key, i);
      } else {
        UnloadOne(entries, key, i, unloaded.value);
        entries := entries[key := entries[key][i := unloaded.value]];
      }
    }

    /** The loaded versions, in whatever order the map is walked. */
    method GetFlattenedEntries() returns (candidates: seq<(Pubkey, Entry)>, ghost positions: seq<Position>)
      ensures AreCandidates(entries, candidates, positions)
      ensures Elements(positions) == LoadedPositions(entries)
    {
      candidates, positions := [], [];
      var keys := entries.Keys;
      while keys != {}
        invariant keys <= entries.Keys
        invariant AreCandidates(entries, candidates, positions)
        invariant forall p :: p in positions <==> p in LoadedPositions(entries) && p.0 !in keys
      {
        var k :| k in keys;
        keys := keys - {k};
        var versions := entries[k];
        for i := 0 to |versions|
          invariant AreCandidates(entries, candidates, positions)
          invariant forall p :: p in positions <==>
            p in LoadedPositions(entries) && p.0 !in keys && (p.0 == k ==> p.1 < i)
        {
          if versions[i].program.Loaded? {
            candidates, positions := candidates + [(k, versions[i])], positions + [(k, i)];
          }
        }
      }
    }

    /** Unload one candidate, wherever its version now is. */
    method UnloadCandidate(candidate: (Pubkey, Entry), ghost before: Entries, ghost done: set<Position>,
                           ghost p: Position)
      requires Progress(before, entries, done)
      requires p in LoadedPositions(before) - done
      requires candidate == (p.0, before[p.0][p.1])
      modifies `entries
      ensures Progress(before, entries, done + {p})
    {
      CandidateIsFound(before, entries, p);
      ghost var now, found := entries, FindVersion(entries[p.0], candidate.1).value;
      UnloadProgramEntry(candidate.0, candidate.1);
      UnloadProgress(before, now, entries, done, p, found);
    }

    method UnloadPrefix(candidates: seq<(Pubkey, Entry)>, ghost positions: seq<Position>, n: nat)
      requires AreCandidates(entries, candidates, positions) && n <= |candidates|
      modifies `entries
      ensures Progress(old(entries), entries, Elements(positions[..n]))
    {
      StartOfProgress(entries);
      ghost var before := entries;
      for i := 0 to n
        invariant Progress(before, entries, Elements(positions[..i]))
      {
        NextElement(positions, i);
        UnloadCandidate(candidates[i], before, Elements(positions[..i]), positions[i]);
      }
    }

    method GetEntriesByUses() returns (sorted: seq<(Pubkey, Entry)>, ghost order: seq<Position>)
      ensures ByUses(entries, useCounts, sorted, order)
    {
      var candidates, positions := GetFlattenedEntries();
      sorted, order := SortByUses(entries, useCounts, candidates, positions);
    }

    /** Unload the least used programs until `target` stay loaded. */
    method SortAndUnload(target: nat)
      modifies `entries
      ensures Step(old(State()), Evict, State())
      ensures KeepsTarget(old(entries), entries, target)
      ensures DropsLeastUsed(old(entries), entries, useCounts)
    {
      var sorted, order := GetEntriesByUses();
      UnloadDownTo(sorted, order, target);
    }

    method UnloadDownTo(sorted: seq<(Pubkey, Entry)>, ghost order: seq<Position>, target: nat)
      requires ByUses(entries, useCounts, sorted, order)
      modifies `entries
      ensures Evicted(old(entries), entries) && KeepsTarget(old(entries), entries, target)
      ensures DropsLeastUsed(old(entries), entries, useCounts)
    {
      ghost var before, counts := entries, useCounts;
      var numToUnload := if |sorted| > target then |sorted| - target else 0;
      UnloadPrefix(sorted, order, numToUnload);
      PrefixUnloaded(before, entries, counts, sorted, order, numToUnload, target);
    }

    method UnloadVictim(candidates: seq<(Pubkey, Entry)>, index: nat,
                        ghost before: Entries, ghost positions: seq<Position>, ghost done: set<Position>)
      returns (rest: seq<(Pubkey, Entry)>, ghost restPositions: seq<Position>, ghost nowDone: set<Position>)
      requires AreCandidates(before, candidates, positions) && index < |candidates|
      requires Progress(before, entries, done) && done !! Elements(positions)
      modifies `entries
      ensures AreCandidates(before, rest, restPositions) && |rest| == |candidates| - 1
      ensures Progress(before, entries, nowDone) && |nowDone| == |done| + 1 && nowDone !! Elements(restPositions)
    {
      CandidatesWithout(before, candidates, positions, index);
      rest, restPositions, nowDone :=
        SwapRemove(candidates, index), SwapRemove(positions, index), done + {positions[index]};
      UnloadCandidate(candidates[index], before, done, positions[index]);
    }

    /** Unload randomly sampled programs until `target` stay loaded, for any random
        draws, any retention scores and any threshold of a high score. */
    method EvictUsingRandomSelection(target: nat, draws: nat -> nat, score: Entry -> nat, avoidAbove: nat)
      modifies `entries
      ensures Step(old(State()), Evict, State())
      ensures KeepsTarget(old(entries), entries, target)
    {
      ghost var before := entries;
      var candidates, positions := GetFlattenedEntries();
      DistinctCount(positions);
      StartOfProgress(entries);
      var numToUnload := if |candidates| > target then |candidates| - target else 0;
      ghost var total, done := |candidates|, Elements([]);
      var draw := 0;
      for n := 0 to numToUnload
        invariant AreCandidates(before, candidates, positions) && |candidates| == total - n
        invariant Progress(before, entries, done) && |done| == n && done !! Elements(positions)
      {
        var index;
        index, draw := SampleVictim(candidates, draws, draw, score, avoidAbove);
        candidates, positions, done := UnloadVictim(candidates, index, before, positions, done);
      }
      ProgressCount(before, entries, done);
    }
  }

  /** Samples up to `1 + MAX_ADDITIONAL_SAMPLES` candidates and picks the one with
      the lowest retention score, stopping early at a score that is low enough. */
  method SampleVictim(candidates: seq<(Pubkey, Entry)>, draws: nat -> nat, first: nat, score: Entry -> nat,
                      avoidAbove: nat)
    returns (index: nat, next: nat)
    requires candidates != []
    ensures index < |candidates| && first < next <= first + 1 + MAX_ADDITIONAL_SAMPLES
    ensures forall d :: first <= d < next ==> score(candidates[index].1) <= score(candidates[draws(d) % |candidates|].1)
    ensures exists d :: first <= d < next && index == draws(d) % |candidates|
  {
    index, next := draws(first) % |candidates|, first + 1;
    for n := 0 to MAX_ADDITIONAL_SAMPLES
      invariant index < |candidates| && next == first + 1 + n
      invariant forall d :: first <= d < next ==>
        score(candidates[index].1) <= score(candidates[draws(d) % |candidates|].1)
      invariant exists d :: first <= d < next && index == draws(d) % |candidates|
    {
      var sample := draws(next) % |candidates|;
      if score(candidates[index].1) > score(candidates[sample].1) { index := sample; }
      next := next + 1;
      if score(candidates[index].1) < avoidAbove { break; }
    }
  }

  const MAX_ADDITIONAL_SAMPLES: nat := 3

  /** Nothing new is loaded and at least `target` versions stay loaded if there
      were as many; exactly as many if no two versions of a program look alike. */
  ghost predicate KeepsTarget(before: Entries, after: Entries, target: nat) {
    && LoadedPositions(after) <= LoadedPositions(before)
    && |LoadedPositions(after)| >= Min(|LoadedPositions(before)|, target)
    && (Distinguishable(before) ==> |LoadedPositions(after)| == Min(|LoadedPositions(before)|, target))
  }

  /** No version that was dropped had been used more than one that was kept. */
  ghost predicate DropsLeastUsed(before: Entries, after: Entries, counts: UseCounts) {
    Distinguishable(before) ==>
      forall p, q ::
        && p in LoadedPositions(before) - LoadedPositions(after)
        && q in LoadedPositions(before) * LoadedPositions(after)
        ==>
        UsesAt(before, counts, p) <= UsesAt(before, counts, q)
  }

  /** All loaded versions, least used first. */
  ghost predicate ByUses(entries: Entries, counts: UseCounts, sorted: seq<(Pubkey, Entry)>, order: seq<Position>) {
    && AreCandidates(entries, sorted, order) && Elements(order) == LoadedPositions(entries)
    && Pairwise(sorted, UsedLess(counts))
  }

  lemma PrefixUnloaded(before: Entries, after: Entries, counts: UseCounts, sorted: seq<(Pubkey, Entry)>,
                       order: seq<Position>, n: nat, target: nat)
    requires ByUses(before, counts, sorted, order) && n == if |sorted| > target then |sorted| - target else 0
    requires Progress(before, after, Elements(order[..n]))
    ensures Evicted(before, after) && KeepsTarget(before, after, target)
    ensures DropsLeastUsed(before, after, counts)
  {
    DistinctCount(order);
    DistinctCount(order[..n]);
    ProgressCount(before, after, Elements(order[..n]));
    LeastUsedFirst(before, counts, sorted, order, n);
  }

  function Min(a: nat, b: nat): nat { if a <= b then a else b }

  function UsesAt(entries: Entries, counts: UseCounts, p: Position): nat
    requires p in LoadedPositions(entries)
  {
    Uses(counts, entries[p.0][p.1].stats)
  }

  function UsedLess(counts: UseCounts): ((Pubkey, Entry), (Pubkey, Entry)) -> bool {
    (a: (Pubkey, Entry), b: (Pubkey, Entry)) => Uses(counts, a.1.stats) <= Uses(counts, b.1.stats)
  }

  /** Candidates by how often they were used, least first. */
  method SortByUses(ghost entries: Entries, counts: UseCounts, candidates: seq<(Pubkey, Entry)>,
                    ghost positions: seq<Position>)
    returns (sorted: seq<(Pubkey, Entry)>, ghost order: seq<Position>)
    requires AreCandidates(entries, candidates, positions)
    ensures AreCandidates(entries, sorted, order)
    ensures Elements(order) == Elements(positions)
    ensures Pairwise(sorted, UsedLess(counts))
  {
    sorted, order := [], [];
    for i := 0 to |candidates|
      invariant AreCandidates(entries, sorted, order)
      invariant Elements(order) == Elements(positions[..i])
      invariant Pairwise(sorted, UsedLess(counts))
    {
      var c := candidates[i];
      var k := 0;
      while k < |sorted| && Uses(counts, sorted[k].1.stats) <= Uses(counts, c.1.stats)
        invariant 0 <= k <= |sorted|
        invariant forall j :: 0 <= j < k ==> UsedLess(counts)(sorted[j], c)
      {
        k := k + 1;
      }
      forall j | k <= j < |sorted| ensures UsedLess(counts)(c, sorted[j]) {
        if k < j { assert UsedLess(counts)(sorted[k], sorted[j]); }
      }
      InsertPairwise(sorted, k, c, UsedLess(counts));
      InsertElement(order, positions, i, k);
      sorted, order := sorted[..k] + [c] + sorted[k..], order[..k] + [positions[i]] + order[k..];
    }
    assert positions[..|candidates|] == positions;
  }

  lemma InsertElement(order: seq<Position>, positions: seq<Position>, i: nat, k: nat)
    requires i < |positions| && k <= |order|
    requires Distinct(order) && Distinct(positions) && Elements(order) == Elements(positions[..i])
    ensures var inserted := order[..k] + [positions[i]] + order[k..];
      Distinct(inserted) && Elements(inserted) == Elements(positions[..i + 1])
  {
    assert positions[..i + 1] == positions[..i] + [positions[i]];
    assert positions[i] !in positions[..i];
    assert positions[i] !in Elements(order);
    assert order == order[..k] + order[k..];
    var inserted := order[..k] + [positions[i]] + order[k..];
    assert Elements(inserted) == Elements(order) + {positions[i]};
    InsertPairwise(order, k, positions[i], (a: Position, b: Position) => a != b);
  }

  /** What a prefix of the sorted candidates leaves was used at least as often. */
  lemma LeastUsedFirst(entries: Entries, counts: UseCounts, sorted: seq<(Pubkey, Entry)>, order: seq<Position>, n: nat)
    requires AreCandidates(entries, sorted, order) && Elements(order) == LoadedPositions(entries)
    requires Pairwise(sorted, UsedLess(counts)) && n <= |order|
    ensures forall p, q :: p in Elements(order[..n]) && q in LoadedPositions(entries) - Elements(order[..n]) ==>
      UsesAt(entries, counts, p) <= UsesAt(entries, counts, q)
  {
    forall p, q | p in Elements(order[..n]) && q in LoadedPositions(entries) - Elements(order[..n])
      ensures UsesAt(entries, counts, p) <= UsesAt(entries, counts, q)
    {
      assert order == order[..n] + order[n..];
      assert q in order[n..];
      var i :| 0 <= i < n && order[i] == p;
      var j :| n <= j < |order| && order[j] == q;
      assert UsedLess(counts)(sorted[i], sorted[j]);
    }
  }
}
