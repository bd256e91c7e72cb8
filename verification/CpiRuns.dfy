/** Synchronisation over any sequence of invocations. */
module CpiRuns {
  import opened Words
  import opened Sequences
  import opened AlignedMemories
  import opened GuestImages
  import opened GuestParser
  import opened Deserialization
  import opened CpiSync

  /** The space the serializer gives an account for its data, less the padding. */
  function Given(cfg: Config, c: CallerAccount): nat {
    if cfg.deprecated then c.originalLen else SaturatingAdd(c.originalLen, MAX_PERMITTED_DATA_INCREASE)
  }

  /** An exit accepts at least what was given, and no more unless the loader is a
      deprecated one and accounts may be resized freely. */
  lemma GivenIsReserved(cfg: Config, c: CallerAccount)
    requires c.originalLen <= U64_MAX
    ensures Given(cfg, c) <= Reserved(cfg, c)
    ensures Given(cfg, c) == Reserved(cfg, c) <==>
      !cfg.deprecated || cfg.restrictions || c.originalLen == U64_MAX
  {
  }

  // ----- One account -----

  /** Both length words agree, and what is set aside beyond the data is zero. */
  ghost predicate Tidy(cfg: Config, c: CallerAccount, m: seq<Byte>) {
    && 8 <= c.dataAt && c.dataAt + Given(cfg, c) <= |m| && c.originalLen <= U64_MAX
    && c.len == c.sliceLen <= Given(cfg, c)
    && ReadWord(m, c.dataAt - 8) == c.len
    && forall p :: c.dataAt + c.len <= p < c.dataAt + Given(cfg, c) ==> m[p] == 0
  }

  /** The caller sees exactly what the record says. */
  ghost predicate Synced(c: CallerAccount, m: seq<Byte>, a: Account) {
    && c.lamports == a.lamports && c.owner == a.owner && c.len == c.sliceLen == |a.data|
    && 8 <= c.dataAt && Holds(m, c.dataAt, a.data) && ReadWord(m, c.dataAt - 8) == |a.data|
  }

  /** The second length word is written only together with the first: it agrees
      after exit exactly if the length changed or it agreed before. */
  lemma LengthWordAfterExit(c: CallerAccount, m: seq<Byte>, a: Account, c': CallerAccount, m': seq<Byte>)
    requires Left(c, m, a, c', m') && 8 <= c.dataAt && |a.data| <= U64_MAX
    ensures ReadWord(m', c.dataAt - 8) == |a.data| <==> c.len != |a.data| || ReadWord(m, c.dataAt - 8) == |a.data|
  {
    if c.len != |a.data| {
      HoldsWord(m', c.dataAt - 8, |a.data|);
    } else {
      assert m'[c.dataAt - 8..c.dataAt] == m[c.dataAt - 8..c.dataAt];
    }
  }

  /** An exit without data over a length word that says otherwise. */
  lemma StaleWordStays(a: Account)
    requires a.data == []
    ensures var c, m := CallerAccount(a.lamports, a.owner, 0, 8, 0, 0), Word(1);
      Left(c, m, a, c, m) && ReadWord(m, c.dataAt - 8) != |a.data|
  {
    var m := Word(1);
    assert Holds(m, 0, m);
    HoldsWord(m, 0, 1);
  }

  /** Growing or shrinking keeps a zero tail zero, however far it reaches. */
  lemma ZeroTailStays(c: CallerAccount, m: seq<Byte>, a: Account, c': CallerAccount, m': seq<Byte>, end: nat)
    requires Left(c, m, a, c', m') && c.len == c.sliceLen && end <= |m|
    requires forall p :: c.dataAt + c.len <= p < end ==> m[p] == 0
    ensures forall p :: c'.dataAt + c'.len <= p < end ==> m'[p] == 0
  {
  }

  /** An exit that stays in the space given. */
  lemma ExitSyncs(cfg: Config, c: CallerAccount, m: seq<Byte>, a: Account, c': CallerAccount, m': seq<Byte>)
    requires Tidy(cfg, c, m) && Left(c, m, a, c', m') && |a.data| <= Given(cfg, c)
    ensures Tidy(cfg, c', m') && Synced(c', m', a)
  {
    LengthWordAfterExit(c, m, a, c', m');
    ZeroTailStays(c, m, a, c', m', c.dataAt + Given(cfg, c));
  }

  /** A callee that changes nothing leaves the caller as it was. */
  lemma ExitOfNoChange(c: CallerAccount, m: seq<Byte>, a: Account, c': CallerAccount, m': seq<Byte>)
    requires Synced(c, m, a) && Left(c, m, a, c', m')
    ensures c' == c && m' == m
  {
    forall p | 0 <= p < |m| ensures m'[p] == m[p] {
      if c.dataAt <= p < c.dataAt + |a.data| {
        assert m[c.dataAt..c.dataAt + |a.data|][p - c.dataAt] == m'[c.dataAt..c.dataAt + |a.data|][p - c.dataAt];
      }
    }
  }

  /** Entering and leaving with nothing changed in between: copy mode. */
  lemma RoundTripOfNoChange(cfg: Config, program: Key, c: CallerAccount, m: seq<Byte>, a: Account, a': Account,
                            c': CallerAccount, m': seq<Byte>)
    requires !cfg.vas && c.len == c.sliceLen && c.dataAt + c.len <= |m|
    requires Entered(cfg, program, c, m, a, m, a') && Left(c, m, a', c', m')
    ensures c' == c && m' == m
  {
    forall p | 0 <= p < |m| ensures m'[p] == m[p] {
      if c.dataAt <= p < c.dataAt + c.len {
        assert m[c.dataAt..c.dataAt + c.len][p - c.dataAt] == m'[c.dataAt..c.dataAt + c.len][p - c.dataAt];
      }
    }
  }

  // ----- Several accounts -----

  ghost predicate Apart(cfg: Config, c: CallerAccount, d: CallerAccount) {
    c.dataAt + Given(cfg, c) <= d.dataAt - 8 || d.dataAt + Given(cfg, d) <= c.dataAt - 8
  }

  ghost predicate AllApart(cfg: Config, cs: seq<CallerAccount>) {
    forall i, j :: 0 <= i < |cs| && 0 <= j < |cs| && i != j ==> Apart(cfg, cs[i], cs[j])
  }

  ghost predicate AllTidy(cfg: Config, cs: seq<CallerAccount>, m: seq<Byte>) {
    forall i :: 0 <= i < |cs| ==> Tidy(cfg, cs[i], m)
  }

  /** The state a caller's memory is in between invocations. */
  ghost predicate InOrder(cfg: Config, cs: seq<CallerAccount>, m: seq<Byte>) {
    AllTidy(cfg, cs, m) && AllApart(cfg, cs)
  }

  /** Every data slice lies in the memory. */
  ghost predicate AllSliced(cs: seq<CallerAccount>, size: nat) {
    forall i :: 0 <= i < |cs| ==> cs[i].dataAt + cs[i].sliceLen <= size
  }

  /** What one account sees of a change elsewhere. */
  lemma Elsewhere(cfg: Config, d: CallerAccount, m: seq<Byte>, m': seq<Byte>)
    requires Tidy(cfg, d, m) && |m'| == |m|
    requires forall p :: d.dataAt - 8 <= p < d.dataAt + Given(cfg, d) ==> m'[p] == m[p]
    ensures Tidy(cfg, d, m')
    ensures forall b :: Synced(d, m, b) ==> Synced(d, m', b)
  {
    assert m'[d.dataAt - 8..d.dataAt] == m[d.dataAt - 8..d.dataAt];
    assert m'[d.dataAt..d.dataAt + d.len] == m[d.dataAt..d.dataAt + d.len];
  }

  lemma StaysApart(cfg: Config, cs: seq<CallerAccount>, i: nat, c': CallerAccount)
    requires AllApart(cfg, cs) && i < |cs| && c'.dataAt == cs[i].dataAt && c'.originalLen == cs[i].originalLen
    ensures AllApart(cfg, cs[i := c'])
  {
    var cs' := cs[i := c'];
    forall j, k | 0 <= j < |cs'| && 0 <= k < |cs'| && j != k ensures Apart(cfg, cs'[j], cs'[k]) {
      assert Apart(cfg, cs[j], cs[k]);
    }
  }

  ghost predicate KeepsOthers(cs: seq<CallerAccount>, m: seq<Byte>, cs': seq<CallerAccount>, m': seq<Byte>, i: nat)
    requires |cs'| == |cs|
  {
    forall j, b :: 0 <= j < |cs| && j != i && Synced(cs[j], m, b) ==> Synced(cs'[j], m', b)
  }

  lemma ExitKeepsOrder(cfg: Config, cs: seq<CallerAccount>, m: seq<Byte>, i: nat, a: Account,
                       c': CallerAccount, m': seq<Byte>)
    requires InOrder(cfg, cs, m) && i < |cs|
    requires Left(cs[i], m, a, c', m') && |a.data| <= Given(cfg, cs[i])
    ensures InOrder(cfg, cs[i := c'], m') && Synced(c', m', a) && KeepsOthers(cs, m, cs[i := c'], m', i)
  {
    ExitSyncs(cfg, cs[i], m, a, c', m');
    forall j | 0 <= j < |cs| && j != i
      ensures Tidy(cfg, cs[j], m') && forall b :: Synced(cs[j], m, b) ==> Synced(cs[j], m', b)
    {
      assert Apart(cfg, cs[i], cs[j]);
      Elsewhere(cfg, cs[j], m, m');
    }
    StaysApart(cfg, cs, i, c');
  }

  /** Unless the loader is a deprecated one without restrictions, what an exit accepts
      is what the account was given. */
  lemma AcceptedFits(cfg: Config, c: CallerAccount, m: seq<Byte>, len: nat)
    requires Tidy(cfg, c, m) && !IsOutgrown(cfg, c, len) && (cfg.deprecated ==> cfg.restrictions)
    ensures len <= Given(cfg, c)
  {
    GivenIsReserved(cfg, c);
  }

  /** One round of the exit loop. */
  method LeaveOne(memory: array<Byte>, cfg: Config, cs: seq<CallerAccount>, n: nat, a: Account)
    returns (cs': seq<CallerAccount>, r: Result<(), CpiError>)
    requires n < |cs| && AllSliced(cs, memory.Length)
    modifies memory
    ensures |cs'| == |cs| && forall j :: 0 <= j < |cs| && j != n ==> cs'[j] == cs[j]
    ensures r.Ok? ==> Left(cs[n], old(memory[..]), a, cs'[n], memory[..]) && AllSliced(cs', memory.Length)
    ensures r.Ok? && InOrder(cfg, cs, old(memory[..])) && |a.data| <= Given(cfg, cs[n]) ==>
      && InOrder(cfg, cs', memory[..]) && Synced(cs'[n], memory[..], a)
      && KeepsOthers(cs, old(memory[..]), cs', memory[..], n)
    ensures r.Ok? && InOrder(cfg, cs, old(memory[..])) && (cfg.deprecated ==> cfg.restrictions) ==>
      |a.data| <= Given(cfg, cs[n])
    ensures InOrder(cfg, cs, old(memory[..])) && Synced(cs[n], old(memory[..]), a) ==>
      r.Ok? && cs' == cs && memory[..] == old(memory[..])
  {
    ghost var m := memory[..];
    assert InOrder(cfg, cs, m) && Synced(cs[n], m, a) ==> !IsOutgrown(cfg, cs[n], |a.data|) by {
      if InOrder(cfg, cs, m) { GivenIsReserved(cfg, cs[n]); }
    }
    var c;
    c, r := UpdateCaller(memory, cfg, cs[n], a);
    cs' := cs[n := c];
    if r.Err? { return; }
    if InOrder(cfg, cs, m) {
      if cfg.deprecated ==> cfg.restrictions { AcceptedFits(cfg, cs[n], m, |a.data|); }
      if |a.data| <= Given(cfg, cs[n]) { ExitKeepsOrder(cfg, cs, m, n, a, c, memory[..]); }
      if Synced(cs[n], m, a) { ExitOfNoChange(cs[n], m, a, c, memory[..]); }
    }
  }

  /** Entry leaves a tidy caller's memory alone: what it would clear is zero. */
  lemma EntryLeavesMemory(cfg: Config, program: Key, c: CallerAccount, m: seq<Byte>, a: Account,
                          m': seq<Byte>, a': Account)
    requires Tidy(cfg, c, m) && Entered(cfg, program, c, m, a, m', a')
    requires cfg.vas && c.len < |a.data| ==> |a.data| <= Given(cfg, c)
    ensures m' == m
  {
  }

  /** In copy mode an entered account is in step with the caller at once. */
  lemma EnteredIsSynced(cfg: Config, program: Key, c: CallerAccount, m: seq<Byte>, a: Account, a': Account)
    requires !cfg.vas && Tidy(cfg, c, m) && Entered(cfg, program, c, m, a, m, a')
    ensures Synced(c, m, a')
  {
  }

  ghost predicate EnteredUpTo(cfg: Config, program: Key, cs: seq<CallerAccount>, m: seq<Byte>,
                              accounts: seq<Account>, after: seq<Account>, n: nat)
    requires n <= |cs| == |accounts| == |after|
  {
    forall i :: 0 <= i < n ==> Entered(cfg, program, cs[i], m, accounts[i], m, after[i])
  }

  /** A record longer than the caller's length word is one entry truncates; without
      restrictions nothing bounds how much longer it is. */
  ghost predicate MayEnter(cfg: Config, c: CallerAccount, len: nat) {
    cfg.vas && !cfg.restrictions && c.len < len ==> len <= Given(cfg, c)
  }

  /** The entry loop of `cpi_common`. */
  method EnterAll(memory: array<Byte>, cfg: Config, ctx: Context, cs: seq<CallerAccount>, accounts: seq<Account>)
    returns (after: seq<Account>, r: Result<Context, CpiError>)
    requires |cs| == |accounts| && AllSliced(cs, memory.Length)
    modifies memory
    ensures |after| == |cs|
    ensures
      && r.Ok? && AllTidy(cfg, cs, old(memory[..]))
      && (forall i :: 0 <= i < |cs| ==> MayEnter(cfg, cs[i], |accounts[i].data|))
      ==> && memory[..] == old(memory[..])
          && EnteredUpTo(cfg, ctx.program, cs, old(memory[..]), accounts, after, |cs|)
  {
    after := accounts;
    var now := ctx;
    ghost var start, program := memory[..], ctx.program;
    ghost var tidy :=
      AllTidy(cfg, cs, start) && forall i :: 0 <= i < |cs| ==> MayEnter(cfg, cs[i], |accounts[i].data|);
    for n := 0 to |cs|
      invariant |after| == |cs| && now.program == program
      invariant tidy ==> memory[..] == start && EnteredUpTo(cfg, program, cs, start, accounts, after, n)
    {
      var result := UpdateCallee(memory, cfg, now, cs[n], accounts[n]);
      if result.Err? { return after, Err(result.error); }
      if tidy {
        assert Tidy(cfg, cs[n], start);
        GivenIsReserved(cfg, cs[n]);
        EntryLeavesMemory(cfg, program, cs[n], start, accounts[n], memory[..], result.value.0);
      }
      after, now := after[n := result.value.0], result.value.1;
    }
    r := Ok(now);
  }

  ghost predicate SyncedUpTo(cs: seq<CallerAccount>, m: seq<Byte>, accounts: seq<Account>,
                             writable: seq<bool>, n: nat)
    requires n <= |cs| == |accounts| == |writable|
  {
    forall i :: 0 <= i < n && writable[i] ==> Synced(cs[i], m, accounts[i])
  }

  /** A call whose callee does nothing: in copy mode the accounts that were entered
      are those the exit loop leaves alone, together with all memory. */
  lemma IdleCallIsInvisible(cfg: Config, program: Key, cs: seq<CallerAccount>, m: seq<Byte>,
                            accounts: seq<Account>, after: seq<Account>, writable: seq<bool>)
    requires !cfg.vas && |cs| == |accounts| == |after| == |writable| && AllTidy(cfg, cs, m)
    requires EnteredUpTo(cfg, program, cs, m, accounts, after, |cs|)
    ensures SyncedUpTo(cs, m, after, writable, |cs|)
  {
    forall i | 0 <= i < |cs| && writable[i] ensures Synced(cs[i], m, after[i]) {
      EnteredIsSynced(cfg, program, cs[i], m, accounts[i], after[i]);
    }
  }

  /** Every record that is written back fits the space its account was given. */
  ghost predicate FitsUpTo(cfg: Config, cs: seq<CallerAccount>, accounts: seq<Account>, writable: seq<bool>, n: nat)
    requires n <= |cs| == |accounts| == |writable|
  {
    forall i :: 0 <= i < n && writable[i] ==> |accounts[i].data| <= Given(cfg, cs[i])
  }

  lemma SyncedNext(cs: seq<CallerAccount>, m: seq<Byte>, cs': seq<CallerAccount>, m': seq<Byte>,
                   accounts: seq<Account>, writable: seq<bool>, n: nat)
    requires n < |cs| == |cs'| == |accounts| == |writable|
    requires SyncedUpTo(cs, m, accounts, writable, n) && Synced(cs'[n], m', accounts[n])
    requires KeepsOthers(cs, m, cs', m', n)
    ensures SyncedUpTo(cs', m', accounts, writable, n + 1)
  {
  }

  /** The exit loop after `n` rounds. */
  ghost predicate Leaving(cfg: Config, cs: seq<CallerAccount>, start: seq<Byte>, accounts: seq<Account>,
                          writable: seq<bool>, cs': seq<CallerAccount>, m: seq<Byte>, n: nat)
    requires n <= |cs| == |accounts| == |writable|
  {
    && |cs'| == |cs| && AllSliced(cs', |m|)
    && (forall i :: 0 <= i < |cs| && (i >= n || !writable[i]) ==> cs'[i] == cs[i])
    && (InOrder(cfg, cs, start) ==>
          && (FitsUpTo(cfg, cs, accounts, writable, n) ==>
                InOrder(cfg, cs', m) && SyncedUpTo(cs', m, accounts, writable, n))
          && ((cfg.deprecated ==> cfg.restrictions) ==> FitsUpTo(cfg, cs, accounts, writable, n))
          && (SyncedUpTo(cs, start, accounts, writable, |cs|) ==> cs' == cs && m == start))
  }

  /** One round, skipping what the callee could not write. */
  method LeaveNext(memory: array<Byte>, cfg: Config, cs: seq<CallerAccount>, accounts: seq<Account>,
                   writable: seq<bool>, n: nat, ghost from: seq<CallerAccount>, ghost start: seq<Byte>)
    returns (cs': seq<CallerAccount>, r: Result<(), CpiError>)
    requires n < |from| == |accounts| == |writable|
    requires Leaving(cfg, from, start, accounts, writable, cs, memory[..], n)
    modifies memory
    ensures |cs'| == |cs|
    ensures r.Ok? ==> Leaving(cfg, from, start, accounts, writable, cs', memory[..], n + 1)
    ensures InOrder(cfg, from, start) && SyncedUpTo(from, start, accounts, writable, |from|) ==> r.Ok?
  {
    cs', r := cs, Ok(());
    if writable[n] {
      ghost var m := memory[..];
      cs', r := LeaveOne(memory, cfg, cs, n, accounts[n]);
      if r.Err? { return; }
      if InOrder(cfg, from, start) && FitsUpTo(cfg, from, accounts, writable, n + 1) {
        assert FitsUpTo(cfg, from, accounts, writable, n);
        SyncedNext(cs, m, cs', memory[..], accounts, writable, n);
      }
    }
  }

  /** The exit loop of `cpi_common`. Only a deprecated loader without restrictions can
      succeed in writing back more than an account was given. */
  method LeaveAll(memory: array<Byte>, cfg: Config, cs: seq<CallerAccount>, accounts: seq<Account>,
                  writable: seq<bool>)
    returns (cs': seq<CallerAccount>, r: Result<(), CpiError>)
    requires |cs| == |accounts| == |writable| && AllSliced(cs, memory.Length)
    modifies memory
    ensures |cs'| == |cs|
    ensures r.Ok? && InOrder(cfg, cs, old(memory[..])) && FitsUpTo(cfg, cs, accounts, writable, |cs|) ==>
      InOrder(cfg, cs', memory[..]) && SyncedUpTo(cs', memory[..], accounts, writable, |cs|)
    ensures r.Ok? && InOrder(cfg, cs, old(memory[..])) && (cfg.deprecated ==> cfg.restrictions) ==>
      FitsUpTo(cfg, cs, accounts, writable, |cs|)
    ensures r.Ok? ==> forall i :: 0 <= i < |cs| && !writable[i] ==> cs'[i] == cs[i]
    ensures InOrder(cfg, cs, old(memory[..])) && SyncedUpTo(cs, old(memory[..]), accounts, writable, |cs|) ==>
      r.Ok? && cs' == cs && memory[..] == old(memory[..])
  {
    cs', r := cs, Ok(());
    ghost var start := memory[..];
    for n := 0 to |cs|
      invariant r.Ok? && Leaving(cfg, cs, start, accounts, writable, cs', memory[..], n)
    {
      cs', r := LeaveNext(memory, cfg, cs', accounts, writable, n, cs, start);
      if r.Err? { return; }
    }
  }

  // ----- Runs -----

  datatype State = State(cs: seq<CallerAccount>, memory: seq<Byte>, accounts: seq<Account>)

  datatype Step =
    | CallerRuns              // the program edits its memory, keeping the lengths and the tails in order
    | Enter(account: nat)     // one round of the entry loop
    | CalleeRuns              // the callee changes the records
    | Leave(account: nat)     // one round of the exit loop

  ghost predicate Next(cfg: Config, program: Key, s: State, step: Step, t: State) {
    && |t.cs| == |s.cs| == |t.accounts| == |s.accounts|
    && match step
      case CallerRuns => t.accounts == s.accounts && InOrder(cfg, t.cs, t.memory)
      case CalleeRuns => t.cs == s.cs && t.memory == s.memory
      case Enter(i) =>
        && i < |s.cs| && t.cs == s.cs && t.accounts == s.accounts[i := t.accounts[i]]
        && (cfg.vas && cfg.restrictions && s.cs[i].len < |s.accounts[i].data| ==>
              |s.accounts[i].data| <= Reserved(cfg, s.cs[i]))
        && Entered(cfg, program, s.cs[i], s.memory, s.accounts[i], t.memory, t.accounts[i])
      case Leave(i) =>
        && i < |s.cs| && t.accounts == s.accounts && t.cs == s.cs[i := t.cs[i]]
        && !IsOutgrown(cfg, s.cs[i], |s.accounts[i].data|)
        && Left(s.cs[i], s.memory, s.accounts[i], t.cs[i], t.memory)
  }

  /** Where the code does not bound a record by the space given, the record fits. Under
      the restrictions every step is in room. */
  ghost predicate InRoom(cfg: Config, s: State, step: Step) {
    match step
    case Enter(i) => i < |s.cs| && i < |s.accounts| ==> MayEnter(cfg, s.cs[i], |s.accounts[i].data|)
    case Leave(i) =>
      i < |s.cs| && i < |s.accounts| && cfg.deprecated && !cfg.restrictions ==>
        |s.accounts[i].data| <= Given(cfg, s.cs[i])
    case _ => true
  }

  ghost predicate IsRun(cfg: Config, program: Key, run: seq<State>, steps: seq<Step>) {
    && |run| == |steps| + 1 && InOrder(cfg, run[0].cs, run[0].memory)
    && forall i :: 0 <= i < |steps| ==> Next(cfg, program, run[i], steps[i], run[i + 1])
  }

  /** After an exit the caller sees the account as the callee left it. */
  ghost predicate ShowsExit(step: Step, t: State) {
    step.Leave? ==>
      && step.account < |t.cs| == |t.accounts|
      && Synced(t.cs[step.account], t.memory, t.accounts[step.account])
  }

  lemma StepKeepsSync(cfg: Config, program: Key, s: State, step: Step, t: State)
    requires InOrder(cfg, s.cs, s.memory) && Next(cfg, program, s, step, t)
    requires !cfg.restrictions ==> InRoom(cfg, s, step)
    ensures InOrder(cfg, t.cs, t.memory)
    ensures ShowsExit(step, t)
  {
    match step
    case CallerRuns =>
    case CalleeRuns =>
    case Enter(i) =>
      GivenIsReserved(cfg, s.cs[i]);
      EntryLeavesMemory(cfg, program, s.cs[i], s.memory, s.accounts[i], t.memory, t.accounts[i]);
    case Leave(i) =>
      if cfg.deprecated ==> cfg.restrictions { AcceptedFits(cfg, s.cs[i], s.memory, |s.accounts[i].data|); }
      ExitKeepsOrder(cfg, s.cs, s.memory, i, s.accounts[i], t.cs[i], t.memory);
  }

  /** After any sequence of invocations the caller's lengths agree and its tails are
      zero; after each exit, the caller sees the account as the callee left it. */
  lemma {:induction false} RunKeepsSync(cfg: Config, program: Key, run: seq<State>, steps: seq<Step>, n: nat)
    requires IsRun(cfg, program, run, steps) && n < |run|
    requires !cfg.restrictions ==> forall i :: 0 <= i < n ==> InRoom(cfg, run[i], steps[i])
    ensures InOrder(cfg, run[n].cs, run[n].memory)
    ensures n > 0 ==> ShowsExit(steps[n - 1], run[n])
  {
    if n > 0 {
      RunKeepsSync(cfg, program, run, steps, n - 1);
      assert Next(cfg, program, run[n - 1], steps[n - 1], run[n]);
      StepKeepsSync(cfg, program, run[n - 1], steps[n - 1], run[n]);
    }
  }
}
