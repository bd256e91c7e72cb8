/** The stack of invoked instructions and its re-entrancy rule. */
module InvocationStacks {
  import opened Sequences

  type Pubkey = nat

  datatype InstructionError =
    | CallDepth
    | UnsupportedProgramId
    | ReentrancyNotAllowed
    | UnbalancedInstruction
    | MaxInstructionTraceLengthExceeded
    | SysvarNotUpdated

  /** The program of each instruction in the trace (`None` if its account is not in
      the transaction), the trace indices of the running ones, and the number of
      syscall contexts. The last instruction of the trace is a placeholder. */
  datatype State = State(trace: seq<Option<Pubkey>>, stack: seq<nat>, nextTopLevel: nat, cpis: nat,
                         syscallContexts: nat) {
    predicate Valid() {
      trace != [] && forall k :: 0 <= k < |stack| ==> stack[k] < |trace| && (|stack| > 1 ==> stack[k] < |trace| - 1)
    }

    function ProgramAt(level: nat): Option<Pubkey>
      requires Valid() && level < |stack|
    {
      trace[stack[level]]
    }

    function Next(): nat {
      if stack == [] then nextTopLevel else if trace == [] then 0 else |trace| - 1
    }

    predicate Runs(program: Pubkey)
      requires Valid()
    {
      exists level :: 0 <= level < |stack| && ProgramAt(level) == Some(program)
    }

    /** Each program occupies one contiguous block of the stack. */
    ghost predicate Contiguous()
      requires Valid()
    {
      forall i, j, k :: 0 <= i < j < k < |stack| && ProgramAt(i) == ProgramAt(k) && ProgramAt(i).Some? ==>
        ProgramAt(j) == ProgramAt(i)
    }

    /** The next program may be stacked. */
    ghost predicate MayEnter()
      requires Valid()
    {
      Next() < |trace| && trace[Next()].Some? &&
      (Runs(trace[Next()].value) ==> ProgramAt(|stack| - 1) == trace[Next()])
    }
  }

  // ----- Steps -----

  ghost predicate Entered(s: State, t: State) {
    && s.Valid() && s.MayEnter()
    && t.stack == s.stack + [s.Next()]
    && s.trace <= t.trace && (s.stack != [] ==> |s.trace| < |t.trace|)
  }

  ghost predicate Refused(s: State, t: State) {
    t.stack == s.stack && s.trace <= t.trace
  }

  ghost predicate Left(s: State, t: State) {
    t.trace == s.trace && t.stack == if s.stack == [] then [] else s.stack[..|s.stack| - 1]
  }

  /** A nested call is configured in the placeholder, top-level instructions before
      any of them runs. */
  ghost predicate Configured(s: State, t: State) {
    && t.stack == s.stack && |t.trace| == |s.trace| > 0
    && (s.stack == [] || t.trace == s.trace[|s.trace| - 1 := t.trace[|s.trace| - 1]])
  }

  ghost predicate Step(s: State, t: State) {
    Entered(s, t) || Refused(s, t) || Left(s, t) || Configured(s, t)
  }

  ghost predicate IsRun(run: seq<State>) {
    run != [] && run[0].stack == [] && run[0].trace != [] && forall i :: 0 < i < |run| ==> Step(run[i - 1], run[i])
  }

  lemma StepKeepsContiguity(s: State, t: State)
    requires s.Valid() && s.Contiguous() && Step(s, t)
    ensures t.Valid() && t.Contiguous()
  {
    if Entered(s, t) {
      EnterKeepsContiguity(s, t);
    } else if |t.stack| > 1 {
      assert forall k :: 0 <= k < |t.stack| ==> t.ProgramAt(k) == s.ProgramAt(k);
    }
  }

  lemma EnterKeepsContiguity(s: State, t: State)
    requires s.Valid() && s.Contiguous() && Entered(s, t)
    ensures t.Valid() && t.Contiguous()
  {
    var n := |s.stack|;
    assert forall k :: 0 <= k < n ==> t.ProgramAt(k) == s.ProgramAt(k);
    forall i, j | 0 <= i < j < n && t.ProgramAt(i) == t.ProgramAt(n)
      ensures t.ProgramAt(j) == t.ProgramAt(i)
    {
      assert s.Runs(s.ProgramAt(i).value);
      assert s.ProgramAt(n - 1) == s.ProgramAt(i);
    }
  }

  /** Over every run of pushes, pops and configurations, each program id stays in
      one block of the stack. */
  lemma {:induction false} RunKeepsContiguity(run: seq<State>, n: nat)
    requires IsRun(run) && n < |run|
    ensures run[n].Valid() && run[n].Contiguous()
  {
    if n > 0 {
      RunKeepsContiguity(run, n - 1);
      StepKeepsContiguity(run[n - 1], run[n]);
    }
  }

  /** A program that is running is entered again only by itself. */
  lemma ReentryIsDirect(run: seq<State>, n: nat, level: nat)
    requires IsRun(run) && 0 < n < |run| && Entered(run[n - 1], run[n]) && level < |run[n - 1].stack|
    ensures run[n].Valid()
    ensures run[n].ProgramAt(level) == run[n].ProgramAt(|run[n].stack| - 1) ==>
      forall k :: level <= k < |run[n].stack| ==> run[n].ProgramAt(k) == run[n].ProgramAt(level)
  {
    RunKeepsContiguity(run, n);
    RunKeepsContiguity(run, n - 1);
    assert run[n].ProgramAt(|run[n].stack| - 1).Some?;
  }

  // ----- The operations -----

  class InvokeContext {
    var state: State
    const stackCapacity: nat
    const traceCapacity: nat
    /** The program a default frame names: that of the first account. */
    const placeholder: Option<Pubkey>

    constructor (topLevel: nat, stackCapacity: nat, traceCapacity: nat, placeholder: Option<Pubkey>)
      ensures state.Valid() && state.stack == [] && |state.trace| == topLevel + 1
      ensures this.stackCapacity == stackCapacity && this.traceCapacity == traceCapacity
    {
      state := State(seq(topLevel + 1, _ => placeholder), [], 0, 0, 0);
      this.stackCapacity := stackCapacity;
      this.traceCapacity := traceCapacity;
      this.placeholder := placeholder;
    }

    /** `push`: the re-entrancy rule, then the transaction's own conditions. Whether
        lamports balance and the instructions sysvar can be updated is given. */
    method Push(balanced: bool, sysvarUpdated: bool) returns (r: Result<(), InstructionError>)
      requires state.Valid()
      modifies this
      ensures state.Valid()
      ensures r.Ok? ==> Entered(old(state), state) && state.syscallContexts == old(state).syscallContexts + 1
      ensures r.Err? ==> Refused(old(state), state) || (Entered(old(state), state) && r.error == SysvarNotUpdated)
      ensures old(state).Next() < |old(state).trace| && old(state).trace[old(state).Next()].Some? ==>
        (r == Err(ReentrancyNotAllowed) <==> !old(state).MayEnter())
      ensures r == Err(ReentrancyNotAllowed) ==> state == old(state)
      ensures |state.stack| <= stackCapacity || |old(state).stack| > stackCapacity
    {
      if state.Next() >= |state.trace| { return Err(CallDepth); }
      var program := state.trace[state.Next()];
      if program.None? { return Err(UnsupportedProgramId); }
      if state.stack != [] {
        var contains := state.Runs(program.value);
        var isLast := state.ProgramAt(|state.stack| - 1) == program;
        if contains && !isLast { return Err(ReentrancyNotAllowed); }
      }
      assert state.MayEnter();
      state := state.(syscallContexts := state.syscallContexts + 1);
      assert forall level :: 0 <= level < |state.stack| ==> state.ProgramAt(level) == old(state).ProgramAt(level);
      r := PushTransaction(balanced, sysvarUpdated);
    }

    method PushTransaction(balanced: bool, sysvarUpdated: bool) returns (r: Result<(), InstructionError>)
      requires state.Valid() && state.MayEnter()
      modifies this
      ensures state.Valid() && state.syscallContexts == old(state).syscallContexts
      ensures r.Ok? ==> Entered(old(state), state)
      ensures r.Err? ==> r.error != ReentrancyNotAllowed
      ensures r.Err? ==> Refused(old(state), state) || (Entered(old(state), state) && r.error == SysvarNotUpdated)
      ensures |state.stack| <= stackCapacity || |old(state).stack| > stackCapacity
    {
      var level, index := |state.stack|, state.Next();
      if level > 0 && !balanced { return Err(UnbalancedInstruction); }
      if state.nextTopLevel + state.cpis >= traceCapacity { return Err(MaxInstructionTraceLengthExceeded); }
      if level == 0 {
        state := state.(nextTopLevel := state.nextTopLevel + 1);
      } else {
        state := state.(cpis := state.cpis + 1, trace := state.trace + [placeholder]);
      }
      if level >= stackCapacity { return Err(CallDepth); }
      state := state.(stack := state.stack + [index]);
      if !sysvarUpdated { return Err(SysvarNotUpdated); }
      return Ok(());
    }

    /** `pop`: the frame goes even if the instruction turns out unbalanced. */
    method Pop(balanced: bool) returns (r: Result<(), InstructionError>)
      requires state.Valid()
      modifies this
      ensures state.Valid() && Left(old(state), state)
      ensures r ==
        if old(state).stack == [] then Err(CallDepth) else if balanced then Ok(()) else Err(UnbalancedInstruction)
      ensures old(state).syscallContexts >= |old(state).stack| ==> state.syscallContexts >= |state.stack|
    {
      state := state.(syscallContexts := if state.syscallContexts == 0 then 0 else state.syscallContexts - 1);
      if state.stack == [] { return Err(CallDepth); }
      state := state.(stack := state.stack[..|state.stack| - 1]);
      if !balanced { return Err(UnbalancedInstruction); }
      return Ok(());
    }

    /** `configure_instruction_at_index` for a nested call. */
    method ConfigureCpi(program: Option<Pubkey>)
      requires state.Valid()
      modifies this
      ensures state.Valid() && Configured(old(state), state)
      ensures old(state).stack != [] ==> state.trace[state.Next()] == program
    {
      state := state.(trace := state.trace[|state.trace| - 1 := program]);
    }
  }
}
