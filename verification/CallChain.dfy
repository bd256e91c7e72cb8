/** Chains of nested invocations and the privileges their accounts can have. */
module CallChains {
  import opened Words
  import opened CpiPreparation

  /** What the message says of its accounts. */
  datatype Message = Message(signer: nat -> bool, writable: nat -> bool)

  /** The accounts, with the message's privileges. */
  ghost predicate AreListed(message: Message, ix: seq<nat>, accounts: seq<InstructionAccount>) {
    && |accounts| == |ix|
    && forall i :: 0 <= i < |ix| ==>
         accounts[i] == InstructionAccount(ix[i], message.signer(ix[i]), message.writable(ix[i]))
  }

  ghost predicate IsTopLevel(message: Message, ix: seq<nat>, f: Frame) {
    AreListed(message, ix, f.accounts) && FirstMap(f.calleeMap, ix)
  }

  /** No entry of 16 bits is the position of an account that is first met later. */
  lemma MisfitHasNoEntry(ix: seq<nat>, calleeMap: seq<nat>)
    requires !FirstsFit(ix) && forall x :: 0 <= x < |calleeMap| ==> calleeMap[x] <= U16_MAX
    requires forall i :: 0 <= i < |ix| ==> ix[i] < |calleeMap|
    ensures !FirstMap(calleeMap, ix)
  {
    var p :| 0 <= p < |ix| && p > U16_MAX && ix[p] !in ix[..U16_MAX + 1];
    forall q | 0 <= q <= U16_MAX ensures ix[q] != ix[p] {
      assert ix[..U16_MAX + 1][q] == ix[q];
    }
    assert !FirstAt(calleeMap, ix, ix[p]);
  }

  /** One instruction of `prepare_top_level_instructions`; `ix` are bytes. Every account
      can be found exactly if each is first met at a 16-bit position. */
  method PrepareTopLevel(message: Message, ix: seq<nat>, program: nat) returns (f: Frame)
    requires forall i :: 0 <= i < |ix| ==> ix[i] < MAX_ACCOUNTS_PER_TRANSACTION
    ensures f.program == program && AreListed(message, ix, f.accounts)
    ensures FirstsFit(ix) <==> FirstMap(f.calleeMap, ix)
  {
    var calleeMap: seq<nat> := seq(MAX_ACCOUNTS_PER_TRANSACTION, _ => U16_MAX);
    var accounts: seq<InstructionAccount> := [];
    for n := 0 to |ix|
      invariant |calleeMap| == MAX_ACCOUNTS_PER_TRANSACTION && AreListed(message, ix[..n], accounts)
      invariant forall x :: 0 <= x < |calleeMap| ==> calleeMap[x] <= U16_MAX
      invariant FirstsFit(ix[..n]) ==> FirstMap(calleeMap, ix[..n])
    {
      var x := ix[n];
      FirstsFitNext(ix, n);
      if FirstsFit(ix[..n]) {
        FirstMapNext(ix, n, calleeMap);
        assert FirstAt(calleeMap, ix[..n], x);
        assert n == U16_MAX && x !in ix[..n] ==> calleeMap[x := n] == calleeMap;
      }
      if calleeMap[x] > |accounts| {
        calleeMap := calleeMap[x := |accounts| % (U16_MAX + 1)];
      }
      accounts := accounts + [InstructionAccount(x, message.signer(x), message.writable(x))];
    }
    assert ix[..|ix|] == ix;
    if !FirstsFit(ix) { MisfitHasNoEntry(ix, calleeMap); }
    f := Frame(accounts, calleeMap, program);
  }

  /** `frames[0]` is a top-level instruction, and each further frame is what its
      predecessor calls. */
  ghost predicate IsChain(keys: seq<Pubkey>, message: Message, ix: seq<nat>, calls: seq<Call>, frames: seq<Frame>) {
    && |keys| <= MAX_ACCOUNTS_PER_TRANSACTION
    && |frames| == |calls| + 1 && |ix| <= U16_MAX && IsTopLevel(message, ix, frames[0])
    && forall n :: 0 <= n < |calls| ==>
         |calls[n].metas| <= U16_MAX && IsPrepared(keys, frames[n], calls[n], frames[n + 1])
  }

  /** Some frame above vouched for the key with a derived address of its own. */
  predicate Vouched(calls: seq<Call>, n: nat, key: Pubkey)
    requires n <= |calls|
  {
    exists m :: 0 <= m < n && key in calls[m].signers
  }

  /** The accounts of a frame, by position in the transaction. */
  ghost function Indices(f: Frame): seq<nat> {
    seq(|f.accounts|, i requires 0 <= i < |f.accounts| => f.accounts[i].index)
  }

  lemma IndicesMatch(f: Frame, ix: seq<nat>)
    requires |f.accounts| == |ix| && forall i :: 0 <= i < |ix| ==> f.accounts[i].index == ix[i]
    ensures Indices(f) == ix
  {
  }

  /** Every frame of a chain can be searched: a key is found exactly if it is there. */
  lemma FramesAreIndexed(keys: seq<Pubkey>, message: Message, ix: seq<nat>, calls: seq<Call>, frames: seq<Frame>,
                         n: nat)
    requires IsChain(keys, message, ix, calls, frames) && n < |frames|
    ensures FirstMap(frames[n].calleeMap, Indices(frames[n])) && |frames[n].accounts| <= U16_MAX
  {
    IndicesMatch(frames[n], if n == 0 then ix else Positions(keys, calls[n - 1].metas));
  }

  lemma FindFinds(f: Frame, x: nat)
    requires FirstMap(f.calleeMap, Indices(f)) && |f.accounts| <= U16_MAX
    ensures f.Find(x).Some? ==> f.accounts[f.Find(x).value].index == x
    ensures x < MAX_ACCOUNTS_PER_TRANSACTION ==> (f.Find(x).Some? <==> x in Indices(f))
  {
    if x < |f.calleeMap| {
      assert FirstAt(f.calleeMap, Indices(f), x);
    }
  }

  /** Privileges only shrink: whatever the depth, an account is one of the top-level
      instruction's; writable only if the message made it writable; a signer only
      if the message made it one or some frame above vouched for it. */
  lemma {:induction false} PrivilegesShrink(keys: seq<Pubkey>, message: Message, ix: seq<nat>, calls: seq<Call>,
                                            frames: seq<Frame>, n: nat, i: nat)
    requires IsChain(keys, message, ix, calls, frames) && n < |frames| && i < |frames[n].accounts|
    ensures var a := frames[n].accounts[i];
      && a.index in ix
      && (a.writable ==> message.writable(a.index))
      && (a.signer ==> message.signer(a.index) || (a.index < |keys| && Vouched(calls, n, keys[a.index])))
  {
    if n > 0 {
      var caller, call := frames[n - 1], calls[n - 1];
      var at := Positions(keys, call.metas);
      assert IsPrepared(keys, caller, call, frames[n]);
      assert Allowed(caller, at, call, i);
      FramesAreIndexed(keys, message, ix, calls, frames, n - 1);
      FindFinds(caller, at[i]);
      PrivilegesShrink(keys, message, ix, calls, frames, n - 1, caller.Find(at[i]).value);
      assert keys[at[i]] == call.metas[i].key;
    }
  }
}
