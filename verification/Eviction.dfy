/** Unloading versions to free memory: what it does to lookups, and how many
    versions stay loaded. */
module Eviction {
  import opened Sequences
  import opened ProgramEntries
  import opened Lookups

  type Entries = map<Pubkey, seq<Entry>>

  /** A place in the two-level index. */
  type Position = (Pubkey, nat)

  /** Either the same version, or the same version without its executable. */
  predicate SameOrUnloaded(before: Entry, after: Entry) {
    after == before || before.ToUnloaded() == Some(after)
  }

  ghost predicate ListEvicted(before: seq<Entry>, after: seq<Entry>) {
    |before| == |after| && forall i :: 0 <= i < |before| ==> SameOrUnloaded(before[i], after[i])
  }

  /** Nothing was moved or dropped; some versions lost their executable. */
  ghost predicate Evicted(before: Entries, after: Entries) {
    before.Keys == after.Keys && forall k :: k in before ==> ListEvicted(before[k], after[k])
  }

  lemma LastEvicted(before: seq<Entry>, after: seq<Entry>, p: Entry -> bool)
    requires ListEvicted(before, after)
    requires forall x, y :: SameOrUnloaded(x, y) ==> p(x) == p(y)
    ensures Last(before, p).Some? == Last(after, p).Some?
    ensures Last(before, p).Some? ==> SameOrUnloaded(Last(before, p).value, Last(after, p).value)
  {
    if Last(before, p).Some? {
      var i := LastIndex(before, p);
      assert SameOrUnloaded(before[i], after[i]);
      forall j | i < j < |after| ensures !p(after[j]) { assert SameOrUnloaded(before[j], after[j]); }
      LastAt(after, p, i);
    } else {
      forall j | 0 <= j < |after| ensures !p(after[j]) { assert SameOrUnloaded(before[j], after[j]); }
    }
  }

  /** Eviction is harmless: a lookup keeps its answer, or a loaded program turns
      into a miss. A miss never turns into a hit, and no answer into another. */
  lemma EvictionOnlyLosesHits(before: seq<Entry>, after: seq<Entry>, view: View, env: Environment, criteria: Criteria)
    requires ListEvicted(before, after)
    ensures Lookup(after, view, env, criteria) == Lookup(before, view, env, criteria)
         || (Lookup(after, view, env, criteria).None?
             && Lookup(before, view, env, criteria).Some?
             && Lookup(before, view, env, criteria).value.program.Loaded?)
  {
    var decides := e => Decides(view, e);
    LastEvicted(before, after, decides);
    if Last(before, decides).Some? {
      var slot := Last(before, decides).value.deploymentSlot;
      LastEvicted(before, after, e => Fits(view, slot, env, e));
      assert Last(after, decides).value.deploymentSlot == slot;
    }
  }

  // ----- How many versions stay loaded -----

  function LoadedPositions(entries: Entries): set<Position> {
    set k, i | k in entries && 0 <= i < |entries[k]| && entries[k][i].program.Loaded? :: (k, i)
  }

  /** No two versions of a program look alike to the cache's own equality. */
  ghost predicate Distinguishable(entries: Entries) {
    forall k, i, j :: k in entries && 0 <= i < j < |entries[k]| ==> !entries[k][i].SameVersion(entries[k][j])
  }

  /** `iter().find(|entry| entry == remove_entry)`. */
  function FindVersion(versions: seq<Entry>, target: Entry): (r: Option<nat>)
    ensures r.Some? ==> r.value < |versions| && versions[r.value].SameVersion(target)
    ensures r.Some? ==> forall j :: 0 <= j < r.value ==> !versions[j].SameVersion(target)
    ensures r.None? ==> forall j :: 0 <= j < |versions| ==> !versions[j].SameVersion(target)
  {
    if versions == [] then None
    else if versions[0].SameVersion(target) then Some(0)
    else
      match FindVersion(versions[1..], target)
      case None => None
      case Some(i) => Some(i + 1)
  }

  /** How far an eviction has come: the candidates at `done` were unloaded, from
      `before` to `now`. Unless two versions look alike, exactly they were. */
  ghost predicate Progress(before: Entries, now: Entries, done: set<Position>) {
    && Evicted(before, now)
    && LoadedPositions(now) <= LoadedPositions(before)
    && |LoadedPositions(before)| <= |LoadedPositions(now)| + |done|
    && done <= LoadedPositions(before)
    && (Distinguishable(before) ==> LoadedPositions(now) == LoadedPositions(before) - done)
  }

  /** The lookup inside an eviction succeeds: unloading keeps every version in
      its place and recognisable. */
  lemma CandidateIsFound(before: Entries, now: Entries, p: Position)
    requires Evicted(before, now) && p in LoadedPositions(before)
    ensures p.0 in now && p.1 < |now[p.0]|
    ensures FindVersion(now[p.0], before[p.0][p.1]).Some?
    ensures Distinguishable(before) ==> FindVersion(now[p.0], before[p.0][p.1]) == Some(p.1)
  {
    var (k, i) := p;
    assert SameOrUnloaded(before[k][i], now[k][i]);
    assert now[k][i].SameVersion(before[k][i]);
    var f := FindVersion(now[k], before[k][i]).value;
    assert SameOrUnloaded(before[k][f], now[k][f]);
    assert before[k][f].SameVersion(before[k][i]);
  }

  /** One version lost its executable, if it had one; nothing else changed. */
  ghost predicate UnloadedAt(before: Entries, after: Entries, p: Position) {
    Evicted(before, after) && LoadedPositions(after) == LoadedPositions(before) - {p}
  }

  lemma NothingToUnload(entries: Entries, key: Pubkey, i: nat)
    requires key in entries && i < |entries[key]| && !entries[key][i].program.Loaded?
    ensures UnloadedAt(entries, entries, (key, i))
  {
  }

  lemma UnloadOne(entries: Entries, key: Pubkey, i: nat, e: Entry)
    requires key in entries && i < |entries[key]| && entries[key][i].ToUnloaded() == Some(e)
    ensures UnloadedAt(entries, entries[key := entries[key][i := e]], (key, i))
  {
    var after := entries[key := entries[key][i := e]];
    forall k, j | k in entries && 0 <= j < |entries[k]|
      ensures (k, j) in LoadedPositions(after) <==> (k, j) in LoadedPositions(entries) && (k, j) != (key, i)
    {
    }
  }

  lemma EvictedTwice(before: Entries, now: Entries, after: Entries)
    requires Evicted(before, now) && Evicted(now, after)
    ensures Evicted(before, after)
  {
    forall k | k in before ensures ListEvicted(before[k], after[k]) {
      assert ListEvicted(before[k], now[k]) && ListEvicted(now[k], after[k]);
      forall i | 0 <= i < |before[k]| ensures SameOrUnloaded(before[k][i], after[k][i]) {
        assert SameOrUnloaded(before[k][i], now[k][i]) && SameOrUnloaded(now[k][i], after[k][i]);
      }
    }
  }

  /** The same step, on sets of positions. */
  lemma RemoveOne(before: set<Position>, now: set<Position>, done: set<Position>, p: Position, q: Position)
    requires now <= before && |before| <= |now| + |done| && p in before - done
    ensures now - {q} <= before && |before| <= |now - {q}| + |done + {p}|
    ensures now == before - done && p == q ==> now - {q} == before - (done + {p})
  {
    assert |now| <= |now - {q}| + 1 by {
      if q in now { assert now == (now - {q}) + {q}; } else { assert now == now - {q}; }
    }
  }

  lemma UnloadProgress(before: Entries, now: Entries, after: Entries, done: set<Position>, p: Position, found: nat)
    requires Progress(before, now, done) && p in LoadedPositions(before) - done
    requires p.0 in now && FindVersion(now[p.0], before[p.0][p.1]) == Some(found)
    requires UnloadedAt(now, after, (p.0, found))
    ensures Progress(before, after, done + {p})
  {
    assert Evicted(before, after) by { EvictedTwice(before, now, after); }
    assert Distinguishable(before) ==> found == p.1 by { CandidateIsFound(before, now, p); }
    RemoveOne(LoadedPositions(before), LoadedPositions(now), done, p, (p.0, found));
  }

  // ----- Candidates -----

  function Elements(positions: seq<Position>): set<Position> {
    set p | p in positions
  }

  ghost predicate Distinct(positions: seq<Position>) {
    forall i, j :: 0 <= i < j < |positions| ==> positions[i] != positions[j]
  }

  /** Copies of loaded versions of `entries`, and where each was found. */
  ghost predicate AreCandidates(entries: Entries, candidates: seq<(Pubkey, Entry)>, positions: seq<Position>) {
    && |candidates| == |positions|
    && Distinct(positions)
    && forall i :: 0 <= i < |positions| ==>
         && positions[i] in LoadedPositions(entries)
         && candidates[i] == (positions[i].0, entries[positions[i].0][positions[i].1])
  }

  lemma {:induction false} DistinctCount(positions: seq<Position>)
    requires Distinct(positions)
    ensures |Elements(positions)| == |positions|
  {
    if positions != [] {
      var init, p := positions[..|positions| - 1], positions[|positions| - 1];
      DistinctCount(init);
      assert positions == init + [p];
      assert Elements(positions) == Elements(init) + {p};
    }
  }

  /** `Vec::swap_remove`: the last element takes the removed one's place. */
  function SwapRemove<T>(s: seq<T>, i: nat): (r: seq<T>)
    requires i < |s|
  {
    s[i := s[|s| - 1]][..|s| - 1]
  }

  lemma SwapRemoveElements(positions: seq<Position>, i: nat)
    requires Distinct(positions) && i < |positions|
    ensures Distinct(SwapRemove(positions, i))
    ensures Elements(SwapRemove(positions, i)) == Elements(positions) - {positions[i]}
  {
    var r := SwapRemove(positions, i);
    forall p ensures p in r <==> p in positions && p != positions[i] {
      if p in positions && p != positions[i] {
        var k :| 0 <= k < |positions| && positions[k] == p;
        assert r[if k == |positions| - 1 then i else k] == p;
      }
    }
  }

  lemma CandidatesWithout(entries: Entries, candidates: seq<(Pubkey, Entry)>, positions: seq<Position>, i: nat)
    requires AreCandidates(entries, candidates, positions) && i < |positions|
    ensures AreCandidates(entries, SwapRemove(candidates, i), SwapRemove(positions, i))
    ensures Elements(SwapRemove(positions, i)) == Elements(positions) - {positions[i]}
    ensures positions[i] in Elements(positions)
  {
    SwapRemoveElements(positions, i);
  }

  lemma NextElement(positions: seq<Position>, i: nat)
    requires Distinct(positions) && i < |positions|
    ensures Elements(positions[..i + 1]) == Elements(positions[..i]) + {positions[i]}
    ensures positions[i] !in Elements(positions[..i])
  {
    assert positions[..i + 1] == positions[..i] + [positions[i]];
  }

  lemma StartOfProgress(entries: Entries)
    ensures Progress(entries, entries, Elements([]))
  {
  }

  lemma CardinalityOfDifference<T>(a: set<T>, b: set<T>)
    requires b <= a
    ensures |a - b| == |a| - |b|
  {
    assert a == (a - b) + b;
  }

  /** After unloading `done`, at least the rest is still loaded, and exactly the
      rest if no two versions look alike. */
  lemma ProgressCount(before: Entries, now: Entries, done: set<Position>)
    requires Progress(before, now, done)
    ensures |LoadedPositions(now)| >= |LoadedPositions(before)| - |done|
    ensures Distinguishable(before) ==> |LoadedPositions(now)| == |LoadedPositions(before)| - |done|
  {
    CardinalityOfDifference(LoadedPositions(before), done);
  }
}
