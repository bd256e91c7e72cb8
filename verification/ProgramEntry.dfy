/** The versions of programs kept by the program cache
    (`ProgramCacheEntry` and `ProgramCacheEntryType`). */
module ProgramEntries {
  import opened Sequences
  import opened ForkGraphs

  /** A program address. */
  type Pubkey = nat

  /** A runtime environment, known only by identity (`Arc::ptr_eq`). */
  datatype Environment = Environment(id: nat)

  /** The shared usage statistics of a program, known by handle: entries that
      share an `Arc<ProgramStatistics>` carry the same handle. */
  datatype StatsHandle = StatsHandle(id: nat)

  datatype Owner = NativeLoader | LoaderV1 | LoaderV2 | LoaderV3 | LoaderV4

  /** A verified executable, compiled for the environment it was loaded with. */
  datatype Executable = Executable(loader: Environment, image: nat)

  datatype Program =
    | FailedVerification(environment: Environment)
    | Closed
    | DelayVisibility
    | Unloaded(environment: Environment)
    | Loaded(executable: Executable)
    | Builtin(functions: nat)
  {
    function GetEnvironment(): Option<Environment> {
      match this
      case Loaded(executable) => Some(executable.loader)
      case FailedVerification(env) => Some(env)
      case Unloaded(env) => Some(env)
      case _ => None
    }
  }

  /** How many slots a redeployed program stays invisible. */
  const DELAY_VISIBILITY_SLOT_OFFSET: nat := 1

  datatype Entry = Entry(
    program: Program,
    owner: Owner,
    accountSize: nat,
    deploymentSlot: Slot,
    effectiveSlot: Slot,
    stats: StatsHandle
  ) {
    predicate IsTombstone() {
      program.FailedVerification? || program.Closed? || program.DelayVisibility?
    }

    /** The equality the cache searches with (`PartialEq`): it ignores the
        payload, the owner and the environment. */
    predicate SameVersion(other: Entry) {
      && effectiveSlot == other.effectiveSlot
      && deploymentSlot == other.deploymentSlot
      && IsTombstone() == other.IsTombstone()
    }

    /** The version was deployed at or before `slot` and takes effect only
        after it, by exactly the standard delay. */
    predicate IsImplicitDelayVisibilityTombstone(slot: Slot) {
      && !program.Builtin?
      && (if effectiveSlot >= deploymentSlot then effectiveSlot - deploymentSlot else 0)
           == DELAY_VISIBILITY_SLOT_OFFSET
      && deploymentSlot <= slot < effectiveSlot
    }

    /** The entry without its executable, for `Loaded` entries only. */
    function ToUnloaded(): Option<Entry> {
      if program.Loaded? then Some(this.(program := Unloaded(program.executable.loader)))
      else None
    }

    /** The tombstone handed out while the version is still invisible. */
    function DelayTombstone(): Entry {
      Entry(DelayVisibility, owner, 0, deploymentSlot, deploymentSlot, stats)
    }
  }
}
