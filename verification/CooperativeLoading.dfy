/** Threads sharing the work of loading missing programs: any interleaving of
    `extract`, which runs under the cache's read lock and takes the lock on the
    loading map once per missing program, and of
    `finish_cooperative_loading_task`, which runs under the write lock and
    notifies the waiting threads at its end. */
module CooperativeLoading {
  import opened Sequences
  import opened Words
  import opened ProgramEntries

  type ThreadId = nat

  /** What a missing program does to the loading map and to the task of the
      `extract` that misses it. */
  function Claim<W>(loading: map<Pubkey, W>, task: Option<Pubkey>, key: Pubkey, who: W)
    : (map<Pubkey, W>, Option<Pubkey>)
  {
    if task.None? && key !in loading then (loading[key := who], Some(key)) else (loading, task)
  }

  datatype State = State(
    loading: map<Pubkey, ThreadId>,           // who loads which program
    readers: map<ThreadId, Option<Pubkey>>,   // threads inside `extract`, with their task
    writer: Option<(ThreadId, Pubkey)>,       // the thread inside finish, not yet notified
    tasks: set<(ThreadId, Pubkey)>,           // tasks handed out and not finished
    notifications: nat
  ) {
    /** The cookie counts notifications in 64 bits. */
    function Cookie(): nat {
      notifications % U64_MODULUS
    }
  }

  datatype Step =
    | BeginExtract(t: ThreadId)
    | Miss(t: ThreadId, key: Pubkey)
    | EndExtract(t: ThreadId)
    | BeginFinish(t: ThreadId, key: Pubkey)
    | Notify

  const INITIAL := State(map[], map[], None, {}, 0)

  /** The next state, where the locks allow the step. A task is only finished by
      the thread that was given it. */
  ghost predicate Next(s: State, step: Step, s': State) {
    match step
    case BeginExtract(t) =>
      s.writer.None? && t !in s.readers && s' == s.(readers := s.readers[t := None])
    case Miss(t, key) =>
      && t in s.readers
      && var (loading, task) := Claim(s.loading, s.readers[t], key, t);
         s' == s.(loading := loading, readers := s.readers[t := task],
                  tasks := if task == s.readers[t] then s.tasks else s.tasks + {(t, key)})
    case EndExtract(t) =>
      t in s.readers && s' == s.(readers := s.readers - {t})
    case BeginFinish(t, key) =>
      && s.writer.None? && s.readers == map[] && (t, key) in s.tasks
      && s' == s.(loading := s.loading - {key}, tasks := s.tasks - {(t, key)}, writer := Some((t, key)))
    case Notify =>
      s.writer.Some? && s' == s.(writer := None, notifications := s.notifications + 1)
  }

  ghost predicate IsRun(states: seq<State>, steps: seq<Step>) {
    && |states| == |steps| + 1
    && states[0] == INITIAL
    && forall i :: 0 <= i < |steps| ==> Next(states[i], steps[i], states[i + 1])
  }

  /** The tasks handed out are exactly those in the loading map. */
  ghost predicate TasksAreLoading(s: State) {
    forall t, k :: (t, k) in s.tasks <==> k in s.loading && s.loading[k] == t
  }

  lemma {:induction false} RunKeepsTasks(states: seq<State>, steps: seq<Step>, n: nat)
    requires IsRun(states, steps) && n < |states|
    ensures TasksAreLoading(states[n])
  {
    if n > 0 {
      RunKeepsTasks(states, steps, n - 1);
      assert Next(states[n - 1], steps[n - 1], states[n]);
    }
  }

  /** In every interleaving a program has at most one outstanding loader. */
  lemma OneLoaderPerProgram(states: seq<State>, steps: seq<Step>, n: nat, t: ThreadId, u: ThreadId, key: Pubkey)
    requires IsRun(states, steps) && n < |states|
    requires (t, key) in states[n].tasks && (u, key) in states[n].tasks
    ensures t == u
  {
    RunKeepsTasks(states, steps, n);
  }

  /** Step `i` gives thread `t` the task of loading `key`. */
  ghost predicate Claims(states: seq<State>, steps: seq<Step>, i: nat, t: ThreadId, key: Pubkey)
    requires IsRun(states, steps) && i < |steps|
  {
    steps[i] == Miss(t, key) && (t, key) !in states[i].tasks && (t, key) in states[i + 1].tasks
  }

  lemma {:induction false} TaskIsKept(states: seq<State>, steps: seq<Step>, i: nat, j: nat, t: ThreadId)
    requires IsRun(states, steps) && i <= j < |states|
    requires t in states[i].readers && states[i].readers[t].Some?
    requires forall m :: i <= m < j ==> steps[m] != EndExtract(t)
    ensures t in states[j].readers && states[j].readers[t].Some?
    decreases j - i
  {
    if i < j {
      assert Next(states[i], steps[i], states[i + 1]);
      TaskIsKept(states, steps, i + 1, j, t);
    }
  }

  /** Each `extract` hands out at most one task: between two claims of a thread
      it must have left the first `extract`. */
  lemma OneTaskPerExtract(states: seq<State>, steps: seq<Step>, i: nat, j: nat, t: ThreadId, k: Pubkey, l: Pubkey)
    requires IsRun(states, steps) && i < j < |steps|
    requires Claims(states, steps, i, t, k) && Claims(states, steps, j, t, l)
    ensures exists m :: i < m < j && steps[m] == EndExtract(t)
  {
    if forall m :: i + 1 <= m < j ==> steps[m] != EndExtract(t) {
      assert Next(states[i], steps[i], states[i + 1]);
      assert Next(states[j], steps[j], states[j + 1]);
      TaskIsKept(states, steps, i + 1, j, t);
      assert false;
    }
  }

  // ----- Waiting -----

  /** `wait` blocks while the cookie is the one its thread read. */
  predicate Blocks(s: State, cookie: nat) {
    s.Cookie() == cookie
  }

  /** The task of loading `key` was given to `u` and its notification is still due. */
  predicate IsPending(s: State, u: ThreadId, key: Pubkey) {
    (key in s.loading && s.loading[key] == u) || s.writer == Some((u, key))
  }

  /** Notifications are never lost: a task that was pending and no longer is has
      been notified in between. */
  lemma {:induction false} FinishingNotifies(states: seq<State>, steps: seq<Step>, p: nat, r: nat, u: ThreadId,
                                             key: Pubkey)
    requires IsRun(states, steps) && p <= r < |states|
    ensures states[p].notifications <= states[r].notifications
    ensures IsPending(states[p], u, key) && !IsPending(states[r], u, key) ==>
      states[p].notifications < states[r].notifications
    decreases r - p
  {
    if p < r {
      FinishingNotifies(states, steps, p + 1, r, u, key);
      RunKeepsTasks(states, steps, p);
      assert Next(states[p], steps[p], states[p + 1]);
    }
  }

  /** No lost wake-up: a thread reads its cookie, then an `extract` of it finds
      `key` being loaded. Once that task is finished, its wait does not block,
      unless 2^64 notifications (or a multiple) came in between. */
  lemma WaitReturns(states: seq<State>, steps: seq<Step>, p: nat, q: nat, r: nat, key: Pubkey)
    requires IsRun(states, steps) && p <= q <= r < |states|
    requires key in states[q].loading
    requires !IsPending(states[r], states[q].loading[key], key)
    ensures Blocks(states[r], states[p].Cookie()) <==>
      (states[r].notifications - states[p].notifications) % U64_MODULUS == 0
    ensures states[r].notifications - states[p].notifications < U64_MODULUS ==>
      !Blocks(states[r], states[p].Cookie())
  {
    FinishingNotifies(states, steps, p, q, states[q].loading[key], key);
    FinishingNotifies(states, steps, q, r, states[q].loading[key], key);
    SameRemainder(states[p].notifications, states[r].notifications);
  }

  lemma SameRemainder(a: nat, b: nat)
    requires a <= b
    ensures a % U64_MODULUS == b % U64_MODULUS <==> (b - a) % U64_MODULUS == 0
  {
  }
}
