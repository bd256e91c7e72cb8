/** Preparing an instruction for a cross-program invocation: the account metas of
    the callee are merged per account and checked against the caller. */
module CpiPreparation {
  import opened Words
  import opened Sequences

  type Pubkey = nat

  const MAX_ACCOUNTS_PER_TRANSACTION: nat := 256

  datatype Meta = Meta(key: Pubkey, signer: bool, writable: bool)

  datatype InstructionAccount = InstructionAccount(index: nat, signer: bool, writable: bool)

  datatype InstructionError = MissingAccount | PrivilegeEscalation

  /** A configured instruction; `calleeMap` takes an account's index in the
      transaction to its index in the instruction. */
  datatype Frame = Frame(accounts: seq<InstructionAccount>, calleeMap: seq<nat>, program: nat) {
    /** `get_index_of_account_in_instruction`. */
    function Find(x: nat): Option<nat> {
      if x < |calleeMap| && calleeMap[x] < |accounts| then Some(calleeMap[x]) else None
    }
  }

  datatype Call = Call(metas: seq<Meta>, program: Pubkey, signers: seq<Pubkey>)

  // ----- Accounts of the transaction -----

  /** `find_index_of_account`: the first position of a key. */
  function IndexOf(keys: seq<Pubkey>, key: Pubkey): (r: Option<nat>)
    ensures r.Some? ==> r.value < |keys| && keys[r.value] == key && key !in keys[..r.value]
    ensures r.None? ==> key !in keys
  {
    if keys == [] then None
    else
      var init := keys[..|keys| - 1];
      var r := IndexOf(init, key);
      if r.Some? then assert init[..r.value] == keys[..r.value]; r
      else if keys[|keys| - 1] == key then Some(|keys| - 1)
      else None
  }

  function Position(keys: seq<Pubkey>, key: Pubkey): nat {
    var r := IndexOf(keys, key);
    if r.Some? then r.value else |keys|
  }

  function Positions(keys: seq<Pubkey>, metas: seq<Meta>): seq<nat> {
    seq(|metas|, i requires 0 <= i < |metas| => Position(keys, metas[i].key))
  }

  predicate AllKnown(keys: seq<Pubkey>, metas: seq<Meta>) {
    forall i :: 0 <= i < |metas| ==> metas[i].key in keys
  }

  // ----- What preparation means -----

  ghost predicate AnySigner(ix: seq<nat>, metas: seq<Meta>, n: nat, x: nat)
    requires n <= |ix| && n <= |metas|
  {
    exists j :: 0 <= j < n && ix[j] == x && metas[j].signer
  }

  ghost predicate AnyWritable(ix: seq<nat>, metas: seq<Meta>, n: nat, x: nat)
    requires n <= |ix| && n <= |metas|
  {
    exists j :: 0 <= j < n && ix[j] == x && metas[j].writable
  }

  /** Every position of an account carries the union of all its flags. */
  ghost function Combined(ix: seq<nat>, metas: seq<Meta>, i: nat): InstructionAccount
    requires i < |ix| == |metas|
  {
    InstructionAccount(ix[i], AnySigner(ix, metas, |ix|, ix[i]), AnyWritable(ix, metas, |ix|, ix[i]))
  }

  predicate FirstAt(calleeMap: seq<nat>, ix: seq<nat>, x: nat)
    requires x < |calleeMap|
  {
    if x in ix then calleeMap[x] < |ix| && ix[calleeMap[x]] == x && x !in ix[..calleeMap[x]]
    else calleeMap[x] == U16_MAX
  }

  /** The map to first occurrences, with the sentinel for accounts not used. */
  ghost predicate FirstMap(calleeMap: seq<nat>, ix: seq<nat>) {
    |calleeMap| == MAX_ACCOUNTS_PER_TRANSACTION && forall x :: 0 <= x < |calleeMap| ==> FirstAt(calleeMap, ix, x)
  }

  /** No account occurs for the first time beyond the reach of a 16-bit index. */
  predicate FirstsFit(ix: seq<nat>) {
    forall p :: U16_MAX < p < |ix| ==> ix[p] in ix[..U16_MAX + 1]
  }

  /** What the privilege check holds against a callee account. */
  function Violation(caller: Frame, a: InstructionAccount, key: Pubkey,
                     signers: seq<Pubkey>): Option<InstructionError> {
    var p := caller.Find(a.index);
    if p.None? then Some(MissingAccount)
    else
      var c := caller.accounts[p.value];
      if a.writable && !c.writable then Some(PrivilegeEscalation)
      else if a.signer && !(c.signer || key in signers) then Some(PrivilegeEscalation)
      else None
  }

  ghost predicate Allowed(caller: Frame, ix: seq<nat>, call: Call, i: nat)
    requires i < |ix| == |call.metas|
  {
    Violation(caller, Combined(ix, call.metas, i), call.metas[i].key, call.signers).None?
  }

  predicate ProgramKnown(keys: seq<Pubkey>, caller: Frame, program: Pubkey) {
    program in keys && caller.Find(Position(keys, program)).Some?
  }

  /** `f` is what `call` becomes when `caller` makes it. */
  ghost predicate IsPrepared(keys: seq<Pubkey>, caller: Frame, call: Call, f: Frame) {
    var ix := Positions(keys, call.metas);
    && AllKnown(keys, call.metas) && ProgramKnown(keys, caller, call.program)
    && |f.accounts| == |ix| && f.program == Position(keys, call.program) && FirstMap(f.calleeMap, ix)
    && forall i :: 0 <= i < |ix| ==> f.accounts[i] == Combined(ix, call.metas, i) && Allowed(caller, ix, call, i)
  }

  /** `e` is the first thing wrong with `call`: metas, then privileges in order of
      the accounts, then the program. */
  ghost predicate IsRefused(keys: seq<Pubkey>, caller: Frame, call: Call, e: InstructionError) {
    var ix := Positions(keys, call.metas);
    if !AllKnown(keys, call.metas) then e == MissingAccount
    else if forall i :: 0 <= i < |ix| ==> Allowed(caller, ix, call, i) then
      e == MissingAccount && !ProgramKnown(keys, caller, call.program)
    else FirstViolation(caller, ix, call, e)
  }

  ghost predicate FirstViolation(caller: Frame, ix: seq<nat>, call: Call, e: InstructionError)
    requires |ix| == |call.metas|
  {
    exists i :: 0 <= i < |ix| && !Allowed(caller, ix, call, i) &&
      (forall j :: 0 <= j < i ==> Allowed(caller, ix, call, j)) &&
      Violation(caller, Combined(ix, call.metas, i), call.metas[i].key, call.signers) == Some(e)
  }

  // ----- First pass: merge the metas -----

  /** The state after `n` metas: the first position of an account has all its flags
      so far, a later one some of them. */
  ghost predicate Merged(ix: seq<nat>, metas: seq<Meta>, n: nat, accounts: seq<InstructionAccount>, calleeMap: seq<nat>)
    requires n <= |ix| == |metas|
  {
    && |accounts| == n && FirstMap(calleeMap, ix[..n])
    && forall i :: 0 <= i < n ==> MergedAt(ix, metas, n, accounts[i], i, calleeMap)
  }

  ghost predicate MergedAt(ix: seq<nat>, metas: seq<Meta>, n: nat, a: InstructionAccount, i: nat, calleeMap: seq<nat>)
    requires i < n <= |ix| == |metas|
  {
    && a.index == ix[i] < |calleeMap|
    && (a.signer ==> AnySigner(ix, metas, n, ix[i])) && (a.writable ==> AnyWritable(ix, metas, n, ix[i]))
    && (calleeMap[ix[i]] == i ==>
         (AnySigner(ix, metas, n, ix[i]) ==> a.signer) && (AnyWritable(ix, metas, n, ix[i]) ==> a.writable))
  }

  ghost predicate Misplaced(ix: seq<nat>, accounts: seq<InstructionAccount>) {
    exists p :: 0 <= p < |accounts| && p < |ix| && accounts[p].index != ix[p]
  }

  lemma MisplacedStays(ix: seq<nat>, before: seq<InstructionAccount>, after: seq<InstructionAccount>)
    requires |before| <= |after| && forall i :: 0 <= i < |before| ==> after[i].index == before[i].index
    ensures Misplaced(ix, before) ==> Misplaced(ix, after)
  {
    if Misplaced(ix, before) {
      var p :| 0 <= p < |before| && p < |ix| && before[p].index != ix[p];
      assert after[p].index != ix[p];
    }
  }

  function Or(a: InstructionAccount, m: Meta): InstructionAccount {
    a.(signer := a.signer || m.signer, writable := a.writable || m.writable)
  }

  lemma FirstMapNext(ix: seq<nat>, n: nat, calleeMap: seq<nat>)
    requires n < |ix| && FirstMap(calleeMap, ix[..n]) && ix[n] < |calleeMap|
    ensures ix[n] in ix[..n] ==> FirstMap(calleeMap, ix[..n + 1])
    ensures ix[n] !in ix[..n] ==> FirstMap(calleeMap[ix[n] := n], ix[..n + 1])
  {
    var now := if ix[n] in ix[..n] then calleeMap else calleeMap[ix[n] := n];
    var before, after := ix[..n], ix[..n + 1];
    assert after == before + [ix[n]];
    forall x | 0 <= x < |now| ensures FirstAt(now, after, x) {
      assert FirstAt(calleeMap, before, x);
      if x in before {
        assert after[..now[x]] == before[..now[x]];
      } else if x == ix[n] {
        assert after[..n] == before;
      }
    }
  }

  lemma MergedNew(ix: seq<nat>, metas: seq<Meta>, n: nat, accounts: seq<InstructionAccount>, calleeMap: seq<nat>)
    requires n < |ix| == |metas| && Merged(ix, metas, n, accounts, calleeMap)
    requires ix[n] < |calleeMap| && ix[n] !in ix[..n]
    ensures Merged(ix, metas, n + 1, accounts + [InstructionAccount(ix[n], metas[n].signer, metas[n].writable)],
      calleeMap[ix[n] := n])
  {
    FirstMapNext(ix, n, calleeMap);
    var after := accounts + [InstructionAccount(ix[n], metas[n].signer, metas[n].writable)];
    forall i | 0 <= i < n + 1 ensures MergedAt(ix, metas, n + 1, after[i], i, calleeMap[ix[n] := n]) {
      if i < n {
        assert MergedAt(ix, metas, n, accounts[i], i, calleeMap);
        assert ix[i] in ix[..n];
      } else {
        assert forall j :: 0 <= j < n ==> ix[j] in ix[..n];
      }
    }
  }

  lemma MergedAgain(ix: seq<nat>, metas: seq<Meta>, n: nat, accounts: seq<InstructionAccount>, calleeMap: seq<nat>)
    requires n < |ix| == |metas| && Merged(ix, metas, n, accounts, calleeMap)
    requires ix[n] < |calleeMap| && ix[n] in ix[..n]
    ensures calleeMap[ix[n]] < |accounts|
    ensures var a := Or(accounts[calleeMap[ix[n]]], metas[n]);
      Merged(ix, metas, n + 1, accounts[calleeMap[ix[n]] := a] + [a], calleeMap)
  {
    FirstMapNext(ix, n, calleeMap);
    assert FirstAt(calleeMap, ix[..n], ix[n]);
    var first := calleeMap[ix[n]];
    var a := Or(accounts[first], metas[n]);
    var after := accounts[first := a] + [a];
    assert MergedAt(ix, metas, n, accounts[first], first, calleeMap);
    forall i | 0 <= i < n + 1 ensures MergedAt(ix, metas, n + 1, after[i], i, calleeMap) {
      if i < n {
        assert MergedAt(ix, metas, n, accounts[i], i, calleeMap);
        assert after[i] == if i == first then a else accounts[i];
      }
    }
  }

  /** The 16-bit sentinel is taken for a position when it is one. */
  lemma SentinelCollides(ix: seq<nat>, metas: seq<Meta>, n: nat, accounts: seq<InstructionAccount>, calleeMap: seq<nat>)
    requires U16_MAX < n < |ix| == |metas| && Merged(ix, metas, n, accounts, calleeMap)
    requires ix[n] < |calleeMap| && ix[n] !in ix[..n]
    ensures calleeMap[ix[n]] == U16_MAX && accounts[U16_MAX].index != ix[n]
  {
    assert FirstAt(calleeMap, ix[..n], ix[n]);
    assert MergedAt(ix, metas, n, accounts[U16_MAX], U16_MAX, calleeMap);
    assert ix[U16_MAX] in ix[..n];
  }

  /** One account more than 16 bits count, after 65536 times the same one. */
  lemma TooManyMetas()
    ensures var metas := seq(U16_MAX + 2, i => Meta(if i <= U16_MAX then 0 else 1, false, false));
      AllKnown([0, 1], metas) && !FirstsFit(Positions([0, 1], metas))
  {
    var metas := seq(U16_MAX + 2, i => Meta(if i <= U16_MAX then 0 else 1, false, false));
    var ix := Positions([0, 1], metas);
    assert forall i :: 0 <= i <= U16_MAX ==> ix[i] == Position([0, 1], 0);
    assert ix[U16_MAX + 1] == Position([0, 1], 1);
    assert ix[U16_MAX + 1] !in ix[..U16_MAX + 1];
  }

  lemma FirstsFitNext(ix: seq<nat>, n: nat)
    requires n < |ix|
    ensures FirstsFit(ix[..n + 1]) <==> FirstsFit(ix[..n]) && (n <= U16_MAX || ix[n] in ix[..n])
  {
    var before, after := ix[..n], ix[..n + 1];
    if n > U16_MAX {
      assert before[..U16_MAX + 1] == after[..U16_MAX + 1] == ix[..U16_MAX + 1];
      assert forall p :: 0 <= p < n ==> before[p] == after[p];
      assert after[n] == ix[n];
      if FirstsFit(before) && ix[n] in before {
        var p :| 0 <= p < n && before[p] == ix[n];
        assert p <= U16_MAX ==> ix[..U16_MAX + 1][p] == ix[n];
      }
    }
  }

  /** One meta, with its account at `x`. */
  method MergeMeta(x: nat, m: Meta, accounts: seq<InstructionAccount>, calleeMap: seq<nat>, ghost ix: seq<nat>,
                   ghost metas: seq<Meta>)
    returns (accounts': seq<InstructionAccount>, calleeMap': seq<nat>)
    requires |accounts| < |ix| == |metas| && x == ix[|accounts|] && m == metas[|accounts|]
    requires |calleeMap| == MAX_ACCOUNTS_PER_TRANSACTION && x < |calleeMap|
    ensures |accounts'| == |accounts| + 1 && |calleeMap'| == |calleeMap|
    ensures forall i :: 0 <= i < |accounts| ==> accounts'[i].index == accounts[i].index
    ensures Merged(ix, metas, |accounts|, accounts, calleeMap) ==>
      if |accounts| <= U16_MAX || x in ix[..|accounts|] then Merged(ix, metas, |accounts| + 1, accounts', calleeMap')
      else accounts'[|accounts|].index != x
    ensures accounts'[|accounts|].index == x ||
      exists i :: 0 <= i < |accounts| && accounts'[|accounts|].index == accounts[i].index
  {
    ghost var n := |accounts|;
    if Merged(ix, metas, n, accounts, calleeMap) {
      assert FirstAt(calleeMap, ix[..n], x);
      if x in ix[..n] {
        MergedAgain(ix, metas, n, accounts, calleeMap);
      } else if n <= U16_MAX {
        MergedNew(ix, metas, n, accounts, calleeMap);
      } else {
        SentinelCollides(ix, metas, n, accounts, calleeMap);
      }
    }
    if calleeMap[x] < |accounts| {
      var a := Or(accounts[calleeMap[x]], m);
      return accounts[calleeMap[x] := a] + [a], calleeMap;
    } else {
      return accounts + [InstructionAccount(x, m.signer, m.writable)], calleeMap[x := |accounts| % (U16_MAX + 1)];
    }
  }

  method MergeMetas(keys: seq<Pubkey>, metas: seq<Meta>)
    returns (r: Result<seq<InstructionAccount>, InstructionError>, calleeMap: seq<nat>)
    requires |keys| <= MAX_ACCOUNTS_PER_TRANSACTION
    ensures r.Ok? <==> AllKnown(keys, metas)
    ensures r.Err? ==> r.error == MissingAccount
    ensures |calleeMap| == MAX_ACCOUNTS_PER_TRANSACTION
    ensures r.Ok? ==> |r.value| == |metas| && forall i :: 0 <= i < |metas| ==> r.value[i].index < |calleeMap|
    ensures r.Ok? ==>
      if FirstsFit(Positions(keys, metas)) then Merged(Positions(keys, metas), metas, |metas|, r.value, calleeMap)
      else Misplaced(Positions(keys, metas), r.value)
  {
    calleeMap := seq(MAX_ACCOUNTS_PER_TRANSACTION, _ => U16_MAX);
    ghost var ix := Positions(keys, metas);
    var accounts: seq<InstructionAccount> := [];
    for n := 0 to |metas|
      invariant |calleeMap| == MAX_ACCOUNTS_PER_TRANSACTION && |accounts| == n
      invariant forall i :: 0 <= i < n ==> metas[i].key in keys
      invariant forall i :: 0 <= i < n ==> accounts[i].index < |calleeMap|
      invariant if FirstsFit(ix[..n]) then Merged(ix, metas, n, accounts, calleeMap) else Misplaced(ix, accounts)
    {
      var found := IndexOf(keys, metas[n].key);
      if found.None? { return Err(MissingAccount), calleeMap; }
      FirstsFitNext(ix, n);
      ghost var before := accounts;
      accounts, calleeMap := MergeMeta(found.value, metas[n], accounts, calleeMap, ix, metas);
      MisplacedStays(ix, before, accounts);
    }
    assert ix[..|metas|] == ix;
    r := Ok(accounts);
  }

  // ----- Second pass: spread the flags, check the privileges -----

  /** `a` at position `i` with its flags united with those of the first position. */
  lemma SpreadIsCombined(ix: seq<nat>, metas: seq<Meta>, accounts: seq<InstructionAccount>, calleeMap: seq<nat>, i: nat)
    requires |ix| == |metas| && i < |ix| && Merged(ix, metas, |ix|, accounts, calleeMap)
    ensures ix[i] < |calleeMap| && calleeMap[ix[i]] <= i
    ensures calleeMap[ix[i]] == i ==> accounts[i] == Combined(ix, metas, i)
    ensures accounts[i].index == ix[i] && ix[calleeMap[ix[i]]] == ix[i]
    ensures Combined(ix, metas, i) == Combined(ix, metas, calleeMap[ix[i]])
    ensures accounts[i].signer ==> Combined(ix, metas, i).signer
    ensures accounts[i].writable ==> Combined(ix, metas, i).writable
  {
    assert MergedAt(ix, metas, |ix|, accounts[i], i, calleeMap);
    assert ix[..|ix|] == ix;
    assert FirstAt(calleeMap, ix, ix[i]);
    TakeContains(ix, calleeMap[ix[i]], i);
  }

  lemma TakeContains(s: seq<nat>, p: nat, i: nat)
    requires p <= |s| && i < |s|
    ensures i < p ==> s[i] in s[..p]
  {
    assert i < p ==> s[..p][i] == s[i];
  }

  method CheckPrivileges(caller: Frame, call: Call, merged: seq<InstructionAccount>, calleeMap: seq<nat>,
                         ghost ix: seq<nat>)
    returns (r: Result<seq<InstructionAccount>, InstructionError>)
    requires |merged| == |call.metas| == |ix| && forall i :: 0 <= i < |merged| ==> merged[i].index < |calleeMap|
    requires forall i, j :: 0 <= i < |ix| && 0 <= j < |ix| && ix[i] == ix[j] ==> call.metas[i].key == call.metas[j].key
    ensures r.Ok? ==> |r.value| == |merged| && forall i :: 0 <= i < |merged| ==> r.value[i].index == merged[i].index
    ensures Merged(ix, call.metas, |ix|, merged, calleeMap) ==>
      match r
      case Ok(accounts) => forall i :: 0 <= i < |ix| ==>
        accounts[i] == Combined(ix, call.metas, i) && Allowed(caller, ix, call, i)
      case Err(e) => FirstViolation(caller, ix, call, e)
  {
    ghost var good := Merged(ix, call.metas, |ix|, merged, calleeMap);
    var accounts := merged;
    for i := 0 to |accounts|
      invariant |accounts| == |merged| && forall j :: 0 <= j < |merged| ==> accounts[j].index == merged[j].index
      invariant forall j :: i <= j < |ix| ==> accounts[j] == merged[j]
      invariant good ==>
        forall j :: 0 <= j < i ==> accounts[j] == Combined(ix, call.metas, j) && Allowed(caller, ix, call, j)
    {
      var first := calleeMap[accounts[i].index];
      if good { SpreadIsCombined(ix, call.metas, merged, calleeMap, i); }
      if i != first {
        if first >= |accounts| { return Err(MissingAccount); }
        var a := accounts[first];
        var b := accounts[i];
        accounts := accounts[i := b.(signer := b.signer || a.signer, writable := b.writable || a.writable)];
      } else {
        var violation := Violation(caller, accounts[i], call.metas[i].key, call.signers);
        if violation.Some? { return Err(violation.value); }
      }
    }
    r := Ok(accounts);
  }

  /** `prepare_next_cpi_instruction`. */
  method PrepareNextCpi(keys: seq<Pubkey>, caller: Frame, call: Call) returns (r: Result<Frame, InstructionError>)
    requires |keys| <= MAX_ACCOUNTS_PER_TRANSACTION
    ensures !AllKnown(keys, call.metas) ==> r == Err(MissingAccount)
    ensures FirstsFit(Positions(keys, call.metas)) ==>
      match r
      case Ok(f) => IsPrepared(keys, caller, call, f)
      case Err(e) => IsRefused(keys, caller, call, e)
    // Past the reach of a 16-bit index an account takes the place of another.
    ensures r.Ok? && !FirstsFit(Positions(keys, call.metas)) ==>
      Misplaced(Positions(keys, call.metas), r.value.accounts)
  {
    var merged, calleeMap := MergeMetas(keys, call.metas);
    if merged.Err? { return Err(merged.error); }
    ghost var ix := Positions(keys, call.metas);
    forall i, j | 0 <= i < |ix| && 0 <= j < |ix| && ix[i] == ix[j] ensures call.metas[i].key == call.metas[j].key {
      assert keys[ix[i]] == call.metas[i].key && keys[ix[j]] == call.metas[j].key;
    }
    var accounts := CheckPrivileges(caller, call, merged.value, calleeMap, ix);
    if accounts.Err? { return Err(accounts.error); }
    var program := IndexOf(keys, call.program);
    if program.None? || caller.Find(program.value).None? { return Err(MissingAccount); }
    assert ix[..|ix|] == ix;
    MisplacedStays(ix, merged.value, accounts.value);
    r := Ok(Frame(accounts.value, calleeMap, program.value));
  }
}
