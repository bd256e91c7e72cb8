/** Keeping an account in the caller's memory and its record in step across a
    cross-program invocation, with the data copied (no direct mapping). */
module CpiSync {
  import opened Words
  import opened Sequences
  import opened AlignedMemories
  import opened GuestImages
  import opened Serializers
  import opened GuestParser
  import opened Deserialization

  /** `OutsideBuffer` stands for an access the source makes unchecked with address-space
      adjustments: it assumes that the space it reserves for an account is there. */
  datatype CpiError =
    | Refused(error: AccountError)
    | AccountDataTooSmall
    | AccessViolation
    | UnalignedPointer
    | OutsideBuffer

  /** The features in force; `deprecated` loaders do not check alignment. */
  datatype Config = Config(restrictions: bool, vas: bool, deprecated: bool)

  /** An account as the caller sees it. Its data is `memory[dataAt..dataAt + sliceLen]`;
      `len` is the length word of the account info, and another length word stands
      right before the data. */
  datatype CallerAccount =
    CallerAccount(lamports: nat, owner: Key, originalLen: nat, dataAt: nat, sliceLen: nat, len: nat)

  /** The longest data an exit accepts. */
  function Reserved(cfg: Config, c: CallerAccount): nat {
    if cfg.restrictions && cfg.deprecated then c.originalLen
    else SaturatingAdd(c.originalLen, MAX_PERMITTED_DATA_INCREASE)
  }

  // ----- Memory -----

  method Store(memory: array<Byte>, at: nat, bytes: seq<Byte>)
    requires at + |bytes| <= memory.Length
    modifies memory
    ensures forall p :: 0 <= p < memory.Length ==>
      memory[p] == if at <= p < at + |bytes| then bytes[p - at] else old(memory[p])
  {
    forall p | 0 <= p < |bytes| {
      memory[at + p] := bytes[p];
    }
  }

  method Clear(memory: array<Byte>, from: nat, to: nat)
    requires from <= to <= memory.Length
    modifies memory
    ensures forall p :: 0 <= p < memory.Length ==> memory[p] == if from <= p < to then 0 else old(memory[p])
  {
    forall p | from <= p < to {
      memory[p] := 0;
    }
  }

  // ----- Entry -----

  /** What entry makes of the data and of the caller's memory. */
  ghost predicate DataEntered(cfg: Config, program: Key, c: CallerAccount, m: seq<Byte>, a: Account,
                              m': seq<Byte>, data: seq<Byte>)
  {
    && |m'| == |m|
    && (!cfg.vas ==> m' == m && Holds(m, c.dataAt, data) && |data| == c.sliceLen)
    && (cfg.vas ==>
          && (forall p :: 0 <= p < |m| ==>
                m'[p] == if c.dataAt + c.len <= p < c.dataAt + |a.data| then 0 else m[p])
          && if CanDataBeChanged(a, program) then Holds(m', c.dataAt, data) && |data| == c.sliceLen
             else data == a.data && |data| == c.len)
  }

  /** What entry makes of the account and of the caller's memory. */
  ghost predicate Entered(cfg: Config, program: Key, c: CallerAccount, m: seq<Byte>, a: Account,
                          m': seq<Byte>, a': Account)
  {
    && a' == a.(lamports := c.lamports, owner := c.owner, data := a'.data)
    && DataEntered(cfg, program, c, m, a, m', a'.data)
  }

  /** `update_callee_account`. The account record gets what the caller wrote. */
  method UpdateCallee(memory: array<Byte>, cfg: Config, ctx: Context, c: CallerAccount, a: Account)
    returns (r: Result<(Account, Context, bool), CpiError>)
    requires c.dataAt + c.sliceLen <= memory.Length
    modifies memory
    ensures r.Ok? ==>
      Entered(cfg, ctx.program, c, old(memory[..]), a, memory[..], r.value.0) && r.value.1.program == ctx.program
    ensures r.Ok? && cfg.vas && cfg.restrictions && c.len < |a.data| ==> |a.data| <= Reserved(cfg, c)
    ensures r.Ok? ==> (r.value.2 <==> (cfg.vas && |a.data| != c.len) || a.owner != c.owner)
  {
    var updated := UpdateLamports(ctx, a, c.lamports);
    if updated.Err? { return Err(Refused(updated.error)); }
    var data := UpdateCalleeData(memory, cfg, ctx, c, updated.value);
    if data.Err? { return Err(data.error); }
    var b, now := data.value.0, data.value.1;
    var owned := UpdateOwner(now, b, c.owner);
    if owned.Err? { return Err(Refused(owned.error)); }
    r := Ok((owned.value, now, (cfg.vas && |a.data| != c.len) || b.owner != c.owner));
  }

  method UpdateCalleeData(memory: array<Byte>, cfg: Config, ctx: Context, c: CallerAccount, a: Account)
    returns (r: Result<(Account, Context), CpiError>)
    requires c.dataAt + c.sliceLen <= memory.Length
    modifies memory
    ensures r.Ok? ==> r.value.0 == a.(data := r.value.0.data) && r.value.1.program == ctx.program
    ensures r.Ok? ==> DataEntered(cfg, ctx.program, c, old(memory[..]), a, memory[..], r.value.0.data)
    ensures r.Ok? && cfg.vas && cfg.restrictions && c.len < |a.data| ==> |a.data| <= Reserved(cfg, c)
  {
    if !cfg.vas {
      r := CopyToCallee(ctx, a, memory[c.dataAt..c.dataAt + c.sliceLen]);
    } else {
      r := ResizeCallee(memory, cfg, ctx, c, a);
      if r.Err? { return; }
      if CanDataBeChanged(a, ctx.program) {
        var update := SetData(r.value.1, r.value.0, memory[c.dataAt..c.dataAt + c.sliceLen]);
        r := if update.Err? then Err(Refused(update.error)) else Ok(update.value);
      }
    }
  }

  /** An account that may not change is accepted as long as it did not. */
  method CopyToCallee(ctx: Context, a: Account, data: seq<Byte>) returns (r: Result<(Account, Context), CpiError>)
    ensures r.Ok? ==> r.value.0 == a.(data := data) && r.value.1.program == ctx.program
    ensures a.data == data ==> r == Ok((a, ctx))
  {
    var allowed := CanDataBeResized(ctx, a, |data|);
    if allowed.Ok? {
      r := Ok(SetData(ctx, a, data).value);
    } else if a.data != data {
      r := Err(Refused(allowed.error));
    } else {
      r := Ok((a, ctx));
    }
  }

  /** The length first: what a shorter account no longer uses is cleared. */
  method ResizeCallee(memory: array<Byte>, cfg: Config, ctx: Context, c: CallerAccount, a: Account)
    returns (r: Result<(Account, Context), CpiError>)
    requires cfg.vas && c.dataAt + c.sliceLen <= memory.Length
    modifies memory
    ensures r.Ok? ==> var b := r.value.0;
      && b == a.(data := b.data) && |b.data| == c.len && r.value.1.program == ctx.program
      && (!CanDataBeChanged(a, ctx.program) ==> b == a)
    ensures r.Ok? && cfg.restrictions && c.len < |a.data| ==> |a.data| <= Reserved(cfg, c)
    ensures r.Ok? ==> forall p :: 0 <= p < memory.Length ==>
      memory[p] == if c.dataAt + c.len <= p < c.dataAt + |a.data| then 0 else old(memory[p])
  {
    if |a.data| == c.len { return Ok((a, ctx)); }
    if c.len < |a.data| {
      if cfg.restrictions && |a.data| > Reserved(cfg, c) { return Err(Refused(InvalidRealloc)); }
      if c.dataAt + |a.data| > memory.Length { return Err(OutsideBuffer); }
      Clear(memory, c.dataAt + c.len, c.dataAt + |a.data|);
    }
    var update := SetDataLength(ctx, a, c.len);
    if update.Err? { return Err(Refused(update.error)); }
    r := Ok(update.value);
  }

  // ----- Exit -----

  /** What exit makes of the caller's account and memory. */
  ghost predicate Left(c: CallerAccount, m: seq<Byte>, a: Account, c': CallerAccount, m': seq<Byte>) {
    var end := c.dataAt + |a.data|;
    && c' == c.(lamports := a.lamports, owner := a.owner, sliceLen := |a.data|, len := |a.data|)
    && |m'| == |m| && Holds(m', c.dataAt, a.data)
    && (forall p :: end <= p < |m| ==>
          m'[p] == if |a.data| < c.len && p < c.dataAt + c.sliceLen then 0 else m[p])
    && (forall p :: 0 <= p < c.dataAt && (p < c.dataAt - 8 || c.len == |a.data|) ==> m'[p] == m[p])
    && (c.len != |a.data| ==> c.dataAt >= 8 && Holds(m', c.dataAt - 8, Word(|a.data|)))
  }

  /** The record outgrew what an exit accepts. */
  predicate IsOutgrown(cfg: Config, c: CallerAccount, len: nat) {
    len > Reserved(cfg, c) && (cfg.restrictions || c.len != len)
  }

  /** The length word changed during the call, and the slice does not fit it. */
  predicate IsTooSmall(c: CallerAccount, len: nat) {
    if c.len == len then c.sliceLen != len else c.sliceLen < len < c.len
  }

  /** `update_caller_account`. The caller gets what the callee left. */
  method UpdateCaller(memory: array<Byte>, cfg: Config, c: CallerAccount, a: Account)
    returns (c': CallerAccount, r: Result<(), CpiError>)
    requires c.dataAt + c.sliceLen <= memory.Length
    modifies memory
    ensures r.Ok? ==> Left(c, old(memory[..]), a, c', memory[..])
    ensures r == Err(Refused(InvalidRealloc)) <==> IsOutgrown(cfg, c, |a.data|)
    ensures r == Err(AccountDataTooSmall) <==> !IsOutgrown(cfg, c, |a.data|) && IsTooSmall(c, |a.data|)
    ensures r in {Err(Refused(InvalidRealloc)), Err(AccountDataTooSmall)} ==> memory[..] == old(memory[..])
    ensures r.Err? && r.error !in {Refused(InvalidRealloc), AccountDataTooSmall} ==>
      c.len != |a.data| && CannotResize(cfg, c, |a.data|, memory.Length, r.error)
  {
    var post := |a.data|;
    c' := c.(lamports := a.lamports, owner := a.owner);
    if post > Reserved(cfg, c) && (cfg.restrictions || c.len != post) { return c', Err(Refused(InvalidRealloc)); }
    if c.len != post {
      c', r := ResizeCaller(memory, cfg, c', post, Word(post));
      if r.Err? { return; }
    }
    if c'.sliceLen != post { return c', Err(AccountDataTooSmall); }
    Store(memory, c.dataAt, a.data);
    r := Ok(());
  }

  ghost predicate CannotResize(cfg: Config, c: CallerAccount, len: nat, size: nat, e: CpiError) {
    match e
    case AccessViolation => c.dataAt < 8 || (!cfg.vas && c.dataAt + len > size)
    case OutsideBuffer => cfg.vas && c.dataAt + len > size
    case UnalignedPointer => !cfg.deprecated && (c.dataAt - 8) % 8 != 0
    case _ => false
  }

  method ResizeCaller(memory: array<Byte>, cfg: Config, c: CallerAccount, post: nat, word: seq<Byte>)
    returns (c': CallerAccount, r: Result<(), CpiError>)
    requires c.dataAt + c.sliceLen <= memory.Length && c.len != post && |word| == 8
    modifies memory
    ensures r.Ok? ==> c' == c.(sliceLen := post, len := post) && 8 <= c.dataAt && c.dataAt + post <= memory.Length
    ensures r.Ok? ==> forall p :: 0 <= p < memory.Length ==>
      memory[p] ==
        if c.dataAt - 8 <= p < c.dataAt then word[p + 8 - c.dataAt]
        else if post < c.len && c.dataAt + post <= p < c.dataAt + c.sliceLen then 0
        else old(memory[p])
    ensures r == Err(AccountDataTooSmall) <==> IsTooSmall(c, post)
    ensures r == Err(AccountDataTooSmall) ==> memory[..] == old(memory[..])
    ensures r.Err? && r.error != AccountDataTooSmall ==> CannotResize(cfg, c, post, memory.Length, r.error)
  {
    c' := c;
    if post < c.len {
      if post > c.sliceLen { return c', Err(AccountDataTooSmall); }
      Clear(memory, c.dataAt + post, c.dataAt + c.sliceLen);
    }
    if c.dataAt + post > memory.Length { return c', Err(if cfg.vas then OutsideBuffer else AccessViolation); }
    c' := c.(sliceLen := post, len := post);
    if c.dataAt < 8 { return c', Err(AccessViolation); }
    if !cfg.deprecated && (c.dataAt - 8) % 8 != 0 { return c', Err(UnalignedPointer); }
    Store(memory, c.dataAt - 8, word);
    r := Ok(());
  }
}
