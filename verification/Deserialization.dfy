/** Reading the parameters of an instruction back after it ran. The cursor finds
    every field where the serializer put it, in both ABIs and all layouts. */
module Deserialization {
  import opened Sequences
  import opened AlignedMemories
  import opened Words
  import opened GuestImages
  import opened Serializers
  import opened Serialization
  import opened GuestParser

  const MAX_ACCOUNT_DATA_LEN: nat := 10 * 1024 * 1024
  const MAX_ACCOUNT_DATA_GROWTH_PER_TRANSACTION: nat := 2 * MAX_ACCOUNT_DATA_LEN

  datatype AccountError =
    | InvalidArgument
    | InvalidRealloc
    | AccountDataSizeChanged
    | MaxAccountsDataAllocationsExceeded
    | ReadonlyDataModified
    | ExternalAccountDataModified
    | ExternalAccountLamportSpend
    | ReadonlyLamportChange
    | ModifiedProgramId

  // ----- What the current program may do to an account -----

  /** The current program and how much account data grew in this transaction. */
  datatype Context = Context(program: Key, resizeDelta: int)

  function CanDataBeResized(ctx: Context, a: Account, newLen: nat): Result<(), AccountError> {
    if newLen != |a.data| && a.owner != ctx.program then Err(AccountDataSizeChanged)
    else if newLen > MAX_ACCOUNT_DATA_LEN then Err(InvalidRealloc)
    else if ctx.resizeDelta + newLen - |a.data| > MAX_ACCOUNT_DATA_GROWTH_PER_TRANSACTION then
      Err(MaxAccountsDataAllocationsExceeded)
    else if !a.isWritable then Err(ReadonlyDataModified)
    else if a.owner != ctx.program then Err(ExternalAccountDataModified)
    else Ok(())
  }

  function SetLamports(ctx: Context, a: Account, lamports: nat): Result<Account, AccountError> {
    if a.owner != ctx.program && lamports < a.lamports then Err(ExternalAccountLamportSpend)
    else if !a.isWritable then Err(ReadonlyLamportChange)
    else Ok(a.(lamports := lamports))
  }

  function SetData(ctx: Context, a: Account, data: seq<Byte>): Result<(Account, Context), AccountError> {
    match CanDataBeResized(ctx, a, |data|)
    case Err(e) => Err(e)
    case Ok(_) => Ok((a.(data := data), ctx.(resizeDelta := ctx.resizeDelta + |data| - |a.data|)))
  }

  /** Truncates, or grows with zeros. */
  function Resized(data: seq<Byte>, len: nat): (r: seq<Byte>)
    ensures |r| == len
  {
    if len <= |data| then data[..len] else data + Zeros(len - |data|)
  }

  function SetDataLength(ctx: Context, a: Account, len: nat): Result<(Account, Context), AccountError> {
    match CanDataBeResized(ctx, a, len)
    case Err(e) => Err(e)
    case Ok(_) => Ok((a.(data := Resized(a.data, len)), ctx.(resizeDelta := ctx.resizeDelta + len - |a.data|)))
  }

  predicate IsZeroed(data: seq<Byte>) {
    forall i :: 0 <= i < |data| ==> data[i] == 0
  }

  function SetOwner(ctx: Context, a: Account, owner: Key): Result<Account, AccountError> {
    if a.owner != ctx.program || !a.isWritable || !IsZeroed(a.data) then Err(ModifiedProgramId)
    else Ok(a.(owner := owner))
  }

  // ----- One account -----

  /** How far an account's item reaches in the buffer, from its length at
      serialization alone. */
  function AccountSpan(abi: Abi, direct: bool, preLen: nat): nat {
    DataOffset(abi) + HostDataSize(abi, direct, preLen) + SuffixSize(abi)
  }

  /** Reading the data back, in each layout its own way. */
  method UpdateData(ctx: Context, a: Account, buffer: seq<Byte>, start: nat, len: nat, vas: bool, directMapping: bool)
    returns (r: Result<(Account, Context), AccountError>)
    ensures r.Ok? ==> var b := r.value.0;
      && b == a.(data := b.data) && |b.data| == len && r.value.1.program == ctx.program
      && (if IsCopied(vas, directMapping, ctx.program, a) then Holds(buffer, start, b.data)
          else b.data == Resized(a.data, len))
    ensures |a.data| == len && (!(vas && directMapping) ==> Holds(buffer, start, a.data)) ==>
      && (r.Ok? ==> r.value == (a, ctx))
      && (len <= MAX_ACCOUNT_DATA_LEN && ctx.resizeDelta <= MAX_ACCOUNT_DATA_GROWTH_PER_TRANSACTION ==> r.Ok?)
  {
    if !vas {
      if start + len > |buffer| { return Err(InvalidArgument); }
      var data := buffer[start..start + len];
      var allowed := CanDataBeResized(ctx, a, len);
      if allowed.Ok? { return SetData(ctx, a, data); }
      if a.data != data { return Err(allowed.error); }
      return Ok((a, ctx));
    } else if !directMapping && CanDataBeChanged(a, ctx.program) {
      if start + len > |buffer| { return Err(InvalidArgument); }
      return SetData(ctx, a, buffer[start..start + len]);
    } else if |a.data| != len {
      return SetDataLength(ctx, a, len);
    }
    return Ok((a, ctx));
  }

  method UpdateLamports(ctx: Context, a: Account, lamports: nat) returns (r: Result<Account, AccountError>)
    ensures r.Ok? ==> r.value == a.(lamports := lamports)
    ensures a.lamports == lamports ==> r == Ok(a)
  {
    if a.lamports == lamports { return Ok(a); }
    r := SetLamports(ctx, a, lamports);
  }

  method UpdateOwner(ctx: Context, a: Account, owner: Key) returns (r: Result<Account, AccountError>)
    ensures r.Ok? ==> r.value == a.(owner := owner)
    ensures a.owner == owner ==> r == Ok(a)
  {
    if a.owner == owner { return Ok(a); }
    r := SetOwner(ctx, a, owner);
  }

  /** The data is read from the buffer; otherwise the program had no access to it
      there, and only its length counts. */
  predicate IsCopied(vas: bool, directMapping: bool, program: Key, before: Account) {
    !vas || (!directMapping && CanDataBeChanged(before, program))
  }

  /** The account is `before`, brought into agreement with the buffer. */
  ghost predicate Agrees(abi: Abi, copied: bool, before: Account, a: Account, preLen: nat, buffer: seq<Byte>, at: nat) {
    && a == before.(lamports := a.lamports, data := a.data, owner := a.owner)
    && at + LamportsOffset(abi) + (if abi.V0? then 8 else 16) <= |buffer|
    && a.lamports == ReadWord(buffer, at + LamportsOffset(abi))
    && |a.data| == (if abi.V0? then preLen else ReadWord(buffer, at + LamportsOffset(V1) + 8))
    && a.owner == (if abi.V0? then before.owner
                   else buffer[at + OwnerOffset(V1, preLen)..at + OwnerOffset(V1, preLen) + 32])
    && (if copied then Holds(buffer, at + DataOffset(abi), a.data) else a.data == Resized(before.data, |a.data|))
  }

  /** The buffer still says what the account says. */
  ghost predicate Untouched(abi: Abi, direct: bool, a: Account, preLen: nat, buffer: seq<Byte>, at: nat) {
    && |a.data| == preLen
    && at + DataOffset(abi) <= |buffer|
    && a.lamports == ReadWord(buffer, at + LamportsOffset(abi))
    && (abi.V1? ==> preLen == ReadWord(buffer, at + LamportsOffset(V1) + 8))
    && (abi.V1? ==> Holds(buffer, at + OwnerOffset(V1, preLen), a.owner))
    && (!direct ==> Holds(buffer, at + DataOffset(abi), a.data))
  }

  /** The account and the transaction are within the size limits. */
  predicate WithinLimits(ctx: Context, preLen: nat) {
    preLen <= MAX_ACCOUNT_DATA_LEN && ctx.resizeDelta <= MAX_ACCOUNT_DATA_GROWTH_PER_TRANSACTION
  }

  method DeserializeAccountV0(ctx: Context, a: Account, preLen: nat, buffer: seq<Byte>, at: nat, vas: bool,
                              directMapping: bool)
    returns (r: Result<(Account, Context), AccountError>, start: nat)
    ensures r.Ok? ==> Agrees(V0, IsCopied(vas, directMapping, ctx.program, a), a, r.value.0, preLen, buffer, at)
    ensures r.Ok? ==> r.value.1.program == ctx.program
    ensures r.Ok? ==> start == at + AccountSpan(V0, vas && directMapping, preLen)
    ensures Untouched(V0, vas && directMapping, a, preLen, buffer, at) ==>
      (r.Ok? ==> r.value == (a, ctx)) && (WithinLimits(ctx, preLen) ==> r.Ok?)
  {
    start := at + 1 + 1 + 1 + 32;
    if start + 8 > |buffer| { return Err(InvalidArgument), start; }
    var lamports := ReadWord(buffer, start);
    start := start + 8 + 8;
    r := UpdateAccountV0(ctx, a, lamports, buffer, start, preLen, vas, directMapping);
    if r.Err? { return; }
    if !(vas && directMapping) { start := start + preLen; }
    start := start + 32 + 1 + 8;
  }

  method UpdateAccountV0(ctx: Context, a: Account, lamports: nat, buffer: seq<Byte>, dataAt: nat, len: nat, vas: bool,
                         directMapping: bool)
    returns (r: Result<(Account, Context), AccountError>)
    ensures r.Ok? ==> var b := r.value.0;
      && b == a.(lamports := lamports, data := b.data) && |b.data| == len && r.value.1.program == ctx.program
      && (if IsCopied(vas, directMapping, ctx.program, a) then Holds(buffer, dataAt, b.data)
          else b.data == Resized(a.data, len))
    ensures (&& a.lamports == lamports && |a.data| == len
             && (!(vas && directMapping) ==> Holds(buffer, dataAt, a.data))) ==>
      (r.Ok? ==> r.value == (a, ctx)) && (WithinLimits(ctx, len) ==> r.Ok?)
  {
    var updated := UpdateLamports(ctx, a, lamports);
    if updated.Err? { return Err(updated.error); }
    r := UpdateData(ctx, updated.value, buffer, dataAt, len, vas, directMapping);
  }

  /** Where the fields of an untouched item are. */
  lemma HostFields(abi: Abi, direct: bool, a: Account, buffer: seq<Byte>, at: nat)
    requires Holds(buffer, at, HostItem(abi, direct, First(a)))
    ensures Holds(buffer, at + LamportsOffset(abi), Word(a.lamports))
    ensures Holds(buffer, at + LamportsOffset(abi) + 8, Word(|a.data|))
    ensures abi.V1? ==> Holds(buffer, at + 40, a.owner)
    ensures !direct ==> Holds(buffer, at + DataOffset(abi), a.data)
  {
    HoldsParts(buffer, at, Prefix(abi, a) + HostData(abi, direct, a.data), Suffix(abi, a));
    HoldsParts(buffer, at, Prefix(abi, a), HostData(abi, direct, a.data));
    PrefixFields(abi, a, buffer, at);
    if !direct { HoldsParts(buffer, at + DataOffset(abi), a.data, Zeros(Slack(abi, |a.data|))); }
  }

  lemma PrefixFields(abi: Abi, a: Account, buffer: seq<Byte>, at: nat)
    requires Holds(buffer, at, Prefix(abi, a))
    ensures Holds(buffer, at + LamportsOffset(abi), Word(a.lamports))
    ensures Holds(buffer, at + LamportsOffset(abi) + 8, Word(|a.data|))
    ensures abi.V1? ==> Holds(buffer, at + 40, a.owner)
  {
    if abi.V0? {
      var front := [NON_DUP_MARKER, Bit(a.isSigner), Bit(a.isWritable)] + a.key;
      HoldsParts(buffer, at, front + Word(a.lamports), Word(|a.data|));
      HoldsParts(buffer, at, front, Word(a.lamports));
    } else {
      var front := [NON_DUP_MARKER, Bit(a.isSigner), Bit(a.isWritable), Bit(a.isExecutable), 0, 0, 0, 0] + a.key;
      HoldsParts(buffer, at, front + a.owner + Word(a.lamports), Word(|a.data|));
      HoldsParts(buffer, at, front + a.owner, Word(a.lamports));
      HoldsParts(buffer, at, front, a.owner);
    }
  }

  datatype HeaderV1 = HeaderV1(owner: Key, lamports: nat, postLen: nat)

  /** The fields before the data, at the cursor. */
  method ReadHeaderV1(buffer: seq<Byte>, at: nat) returns (r: Option<HeaderV1>, start: nat)
    ensures r.Some? <==> at + DataOffset(V1) <= |buffer|
    ensures r.Some? ==>
      && r.value.owner == buffer[at + OwnerOffset(V1, 0)..at + OwnerOffset(V1, 0) + 32]
      && r.value.lamports == ReadWord(buffer, at + LamportsOffset(V1))
      && r.value.postLen == ReadWord(buffer, at + LamportsOffset(V1) + 8)
      && start == at + DataOffset(V1)
  {
    start := at + 1 + 1 + 1 + 1 + 4 + 32;
    if start + 32 > |buffer| { return None, start; }
    var owner := buffer[start..start + 32];
    start := start + 32;
    if start + 8 > |buffer| { return None, start; }
    var lamports := ReadWord(buffer, start);
    start := start + 8;
    if start + 8 > |buffer| { return None, start; }
    var postLen := ReadWord(buffer, start);
    start := start + 8;
    r := Some(HeaderV1(owner, lamports, postLen));
  }

  method DeserializeAccountV1(ctx: Context, a: Account, preLen: nat, buffer: seq<Byte>, at: nat, vas: bool,
                              directMapping: bool)
    returns (r: Result<(Account, Context), AccountError>, start: nat)
    ensures r.Ok? ==> Agrees(V1, IsCopied(vas, directMapping, ctx.program, a), a, r.value.0, preLen, buffer, at)
    ensures r.Ok? ==> r.value.1.program == ctx.program
    ensures r.Ok? ==> start == at + AccountSpan(V1, vas && directMapping, preLen)
    ensures r.Ok? ==>
      |r.value.0.data| <= preLen + MAX_PERMITTED_DATA_INCREASE && |r.value.0.data| <= MAX_ACCOUNT_DATA_LEN
    ensures Untouched(V1, vas && directMapping, a, preLen, buffer, at) ==>
      (r.Ok? ==> r.value == (a, ctx)) && (WithinLimits(ctx, preLen) ==> r.Ok?)
  {
    var header;
    header, start := ReadHeaderV1(buffer, at);
    if header.None? { return Err(InvalidArgument), start; }
    r := UpdateAccountV1(ctx, a, header.value, buffer, start, preLen, vas, directMapping);
    if r.Err? { return; }
    if !(vas && directMapping) {
      start := start + preLen + MAX_PERMITTED_DATA_INCREASE + AlignOffset(preLen);
    } else {
      start := start + BPF_ALIGN_OF_U128;
    }
    start := start + 8;
  }

  method UpdateAccountV1(ctx: Context, a: Account, h: HeaderV1, buffer: seq<Byte>, dataAt: nat, preLen: nat, vas: bool,
                         directMapping: bool)
    returns (r: Result<(Account, Context), AccountError>)
    ensures r.Ok? ==> var b := r.value.0;
      && |b.data| == h.postLen && r.value.1.program == ctx.program
      && h.postLen <= preLen + MAX_PERMITTED_DATA_INCREASE && h.postLen <= MAX_ACCOUNT_DATA_LEN
      && b == a.(lamports := h.lamports, owner := h.owner, data := b.data)
      && (if IsCopied(vas, directMapping, ctx.program, a) then Holds(buffer, dataAt, b.data)
          else b.data == Resized(a.data, h.postLen))
    ensures (&& a.lamports == h.lamports && a.owner == h.owner && |a.data| == h.postLen == preLen
             && (!(vas && directMapping) ==> Holds(buffer, dataAt, a.data))) ==>
      (r.Ok? ==> r.value == (a, ctx)) && (WithinLimits(ctx, preLen) ==> r.Ok?)
  {
    var updated := UpdateLamports(ctx, a, h.lamports);
    if updated.Err? { return Err(updated.error); }
    if SaturatingSub(h.postLen, preLen) > MAX_PERMITTED_DATA_INCREASE || h.postLen > MAX_ACCOUNT_DATA_LEN {
      return Err(InvalidRealloc);
    }
    r := UpdateData(ctx, updated.value, buffer, dataAt, h.postLen, vas, directMapping);
    if r.Err? { return; }
    var owned := UpdateOwner(r.value.1, r.value.0, h.owner);
    if owned.Err? { return Err(owned.error); }
    r := Ok((owned.value, r.value.1));
  }

  // ----- All accounts -----

  /** Where item `i` starts in the buffer, from the lengths at serialization. */
  function Cursor(abi: Abi, direct: bool, items: seq<Item>, preLens: seq<nat>, i: nat): nat
    requires i <= |items| == |preLens|
  {
    if i == 0 then 8
    else Cursor(abi, direct, items, preLens, i - 1) + Span(abi, direct, items[i - 1], preLens[i - 1])
  }

  function Span(abi: Abi, direct: bool, item: Item, preLen: nat): nat {
    match item
    case First(_) => AccountSpan(abi, direct, preLen)
    case Duplicate(_) => if abi.V0? then 1 else 8
  }

  /** The lengths the accounts have. */
  ghost predicate LengthsOf(items: seq<Item>, preLens: seq<nat>) {
    |items| == |preLens| && forall i :: 0 <= i < |items| && items[i].First? ==> preLens[i] == |items[i].account.data|
  }

  /** The bytes of the first `n` items, by their sizes. */
  function SizeUpTo(abi: Abi, direct: bool, items: seq<Item>, n: nat): nat
    requires n <= |items|
  {
    if n == 0 then 0 else SizeUpTo(abi, direct, items, n - 1) + ItemSize(abi, direct, items[n - 1])
  }

  lemma {:induction false} SizesAddUp(abi: Abi, direct: bool, items: seq<Item>, n: nat)
    requires n <= |items|
    ensures |HostItems(abi, direct, items[..n])| == SizeUpTo(abi, direct, items, n)
  {
    if n > 0 {
      SizesAddUp(abi, direct, items, n - 1);
      NextSizeAddsUp(abi, direct, items, n - 1);
    }
  }

  lemma NextSizeAddsUp(abi: Abi, direct: bool, items: seq<Item>, n: nat)
    requires n < |items| && |HostItems(abi, direct, items[..n])| == SizeUpTo(abi, direct, items, n)
    ensures |HostItems(abi, direct, items[..n + 1])| == SizeUpTo(abi, direct, items, n + 1)
  {
    SizeNext(abi, direct, items, n);
  }

  lemma SpanIsSize(abi: Abi, direct: bool, item: Item, preLen: nat)
    requires item.First? ==> preLen == |item.account.data|
    ensures Span(abi, direct, item, preLen) == ItemSize(abi, direct, item)
  {
  }

  lemma {:induction false} CursorIsSize(abi: Abi, direct: bool, items: seq<Item>, preLens: seq<nat>, n: nat)
    requires LengthsOf(items, preLens) && n <= |items|
    ensures Cursor(abi, direct, items, preLens, n) == 8 + SizeUpTo(abi, direct, items, n)
  {
    if n > 0 {
      CursorIsSize(abi, direct, items, preLens, n - 1);
      SpanIsSize(abi, direct, items[n - 1], preLens[n - 1]);
    }
  }

  /** The deserializer's cursor is where the serializer put the item. */
  lemma CursorHitsItem(abi: Abi, direct: bool, items: seq<Item>, preLens: seq<nat>, i: nat)
    requires LengthsOf(items, preLens) && i <= |items|
    ensures Cursor(abi, direct, items, preLens, i) == 8 + |HostItems(abi, direct, items[..i])|
  {
    SizesAddUp(abi, direct, items, i);
    CursorIsSize(abi, direct, items, preLens, i);
  }

  /** `deserialize_parameters`. After success every account agrees with the buffer
      at the serializer's offsets; with an untouched buffer nothing changes, and
      within the size limits nothing fails. */
  method Deserialize(abi: Abi, vas: bool, directMapping: bool, ctx: Context, items: seq<Item>, preLens: seq<nat>,
                     buffer: seq<Byte>)
    returns (after: seq<Item>, r: Result<Context, AccountError>)
    requires |items| == |preLens|
    ensures |after| == |items|
    ensures r.Ok? ==> AgreesUpTo(abi, vas, directMapping, ctx.program, items, after, preLens, buffer, |items|)
    ensures AllUntouched(abi, vas && directMapping, items, preLens, buffer) ==>
      after == items && (r.Ok? ==> r.value == ctx)
    ensures AllUntouched(abi, vas && directMapping, items, preLens, buffer) && AllWithinLimits(ctx, items, preLens) ==>
      r.Ok?
  {
    after := items;
    var now := ctx;
    var start := 8;
    ghost var direct, program := vas && directMapping, ctx.program;
    for i := 0 to |items|
      invariant |after| == |items| && start == Cursor(abi, direct, items, preLens, i) && now.program == program
      invariant AgreesUpTo(abi, vas, directMapping, program, items, after, preLens, buffer, i)
      invariant AllUntouched(abi, direct, items, preLens, buffer) ==> after == items && now == ctx
    {
      var result;
      after, result, start := DeserializeNext(abi, vas, directMapping, now, items, after, preLens, buffer, i, start);
      if result.Err? { return after, Err(result.error); }
      now := result.value;
    }
    return after, Ok(now);
  }

  ghost predicate AllWithinLimits(ctx: Context, items: seq<Item>, preLens: seq<nat>)
    requires |items| == |preLens|
  {
    forall i :: 0 <= i < |items| && items[i].First? ==> WithinLimits(ctx, preLens[i])
  }

  /** One turn of the loop. */
  method DeserializeNext(abi: Abi, vas: bool, directMapping: bool, ctx: Context, items: seq<Item>, before: seq<Item>,
                         preLens: seq<nat>, buffer: seq<Byte>, i: nat, at: nat)
    returns (after: seq<Item>, r: Result<Context, AccountError>, start: nat)
    requires i < |items| == |preLens| == |before| && at == Cursor(abi, vas && directMapping, items, preLens, i)
    requires AgreesUpTo(abi, vas, directMapping, ctx.program, items, before, preLens, buffer, i)
    ensures |after| == |items|
    ensures r.Ok? ==> AgreesUpTo(abi, vas, directMapping, ctx.program, items, after, preLens, buffer, i + 1)
    ensures r.Ok? ==>
      start == Cursor(abi, vas && directMapping, items, preLens, i + 1) && r.value.program == ctx.program
    ensures AllUntouched(abi, vas && directMapping, items, preLens, buffer) && before == items ==>
      after == items && (r.Ok? ==> r.value == ctx) && (AllWithinLimits(ctx, items, preLens) ==> r.Ok?)
  {
    after := before;
    assert AllUntouched(abi, vas && directMapping, items, preLens, buffer) ==>
      ItemUntouched(abi, vas && directMapping, items[i], preLens[i], buffer, at);
    var item;
    item, r, start := DeserializeItem(abi, vas, directMapping, ctx, items[i], preLens[i], buffer, at);
    if r.Err? { return; }
    AgreesNext(abi, vas, directMapping, ctx.program, items, before, preLens, buffer, i, item);
    after := before[i := item];
  }

  /** The first `n` items agree with the buffer, each at its cursor. */
  ghost predicate AgreesUpTo(abi: Abi, vas: bool, directMapping: bool, program: Key, items: seq<Item>, after: seq<Item>,
                             preLens: seq<nat>, buffer: seq<Byte>, n: nat)
    requires n <= |items| == |after| == |preLens|
  {
    forall i :: 0 <= i < n ==>
      ItemAgrees(abi, vas, directMapping, program, items[i], after[i], preLens[i], buffer,
        Cursor(abi, vas && directMapping, items, preLens, i))
  }

  lemma AgreesNext(abi: Abi, vas: bool, directMapping: bool, program: Key, items: seq<Item>, after: seq<Item>,
                   preLens: seq<nat>, buffer: seq<Byte>, n: nat, item: Item)
    requires n < |items| == |after| == |preLens|
    requires AgreesUpTo(abi, vas, directMapping, program, items, after, preLens, buffer, n)
    requires ItemAgrees(abi, vas, directMapping, program, items[n], item, preLens[n], buffer,
      Cursor(abi, vas && directMapping, items, preLens, n))
    ensures AgreesUpTo(abi, vas, directMapping, program, items, after[n := item], preLens, buffer, n + 1)
  {
  }

  method DeserializeItem(abi: Abi, vas: bool, directMapping: bool, ctx: Context, item: Item, preLen: nat,
                         buffer: seq<Byte>, at: nat)
    returns (after: Item, r: Result<Context, AccountError>, start: nat)
    ensures r.Ok? ==> ItemAgrees(abi, vas, directMapping, ctx.program, item, after, preLen, buffer, at)
    ensures r.Ok? ==> start == at + Span(abi, vas && directMapping, item, preLen) && r.value.program == ctx.program
    ensures ItemUntouched(abi, vas && directMapping, item, preLen, buffer, at) ==>
      after == item && (r.Ok? ==> r.value == ctx) && ((item.First? ==> WithinLimits(ctx, preLen)) ==> r.Ok?)
  {
    after, start := item, at;
    match item
    case Duplicate(_) =>
      start := start + 1;
      if abi.V1? { start := start + 7; }
      r := Ok(ctx);
    case First(a) =>
      var result;
      if abi.V0? {
        result, start := DeserializeAccountV0(ctx, a, preLen, buffer, start, vas, directMapping);
      } else {
        result, start := DeserializeAccountV1(ctx, a, preLen, buffer, start, vas, directMapping);
      }
      if result.Err? { return item, Err(result.error), start; }
      after, r := First(result.value.0), Ok(result.value.1);
  }

  ghost predicate ItemUntouched(abi: Abi, direct: bool, item: Item, preLen: nat, buffer: seq<Byte>, at: nat) {
    item.First? ==> Untouched(abi, direct, item.account, preLen, buffer, at)
  }

  /** A duplicate stays what it is; an account agrees with the buffer. */
  ghost predicate ItemAgrees(abi: Abi, vas: bool, directMapping: bool, program: Key, before: Item, after: Item,
                             preLen: nat, buffer: seq<Byte>, at: nat)
  {
    match before
    case Duplicate(_) => after == before
    case First(a) =>
      after.First? && Agrees(abi, IsCopied(vas, directMapping, program, a), a, after.account, preLen, buffer, at)
  }

  ghost predicate AllUntouched(abi: Abi, direct: bool, items: seq<Item>, preLens: seq<nat>, buffer: seq<Byte>)
    requires |items| == |preLens|
  {
    forall i :: 0 <= i < |items| ==>
      ItemUntouched(abi, direct, items[i], preLens[i], buffer, Cursor(abi, direct, items, preLens, i))
  }

  /** A buffer as it was serialized counts as untouched: the cursors agree. */
  lemma SerializedIsUntouched(input: Input, direct: bool, preLens: seq<nat>)
    requires WellFormed(input.items) && LengthsOf(input.items, preLens)
    ensures AllUntouched(input.abi, direct, input.items, preLens, HostImage(input, direct))
  {
    var buffer := HostImage(input, direct);
    forall i | 0 <= i < |input.items|
      ensures ItemUntouched(input.abi, direct, input.items[i], preLens[i], buffer,
        Cursor(input.abi, direct, input.items, preLens, i))
    {
      SerializedItemIsUntouched(input, direct, preLens, i);
    }
  }

  lemma SerializedItemIsUntouched(input: Input, direct: bool, preLens: seq<nat>, i: nat)
    requires WellFormed(input.items) && LengthsOf(input.items, preLens) && i < |input.items|
    ensures ItemUntouched(input.abi, direct, input.items[i], preLens[i], HostImage(input, direct),
      Cursor(input.abi, direct, input.items, preLens, i))
  {
    if input.items[i].First? {
      var at, image := Cursor(input.abi, direct, input.items, preLens, i), HostImage(input, direct);
      assert Holds(image, at, HostItem(input.abi, direct, input.items[i])) by {
        CursorHitsItem(input.abi, direct, input.items, preLens, i);
        HostItemInImage(input, direct, i);
      }
      ItemIsUntouched(input.abi, direct, input.items[i].account, image, at);
    }
  }

  lemma ItemIsUntouched(abi: Abi, direct: bool, a: Account, buffer: seq<Byte>, at: nat)
    requires Holds(buffer, at, HostItem(abi, direct, First(a))) && a.lamports <= U64_MAX && |a.data| <= U64_MAX
    ensures Untouched(abi, direct, a, |a.data|, buffer, at)
  {
    HostFields(abi, direct, a, buffer, at);
    HoldsWord(buffer, at + LamportsOffset(abi), a.lamports);
    HoldsWord(buffer, at + LamportsOffset(abi) + 8, |a.data|);
  }

  lemma {:induction false} HostItemsFrom(abi: Abi, direct: bool, items: seq<Item>, i: nat) returns (rest: seq<Byte>)
    requires i < |items|
    ensures HostItems(abi, direct, items) == HostItems(abi, direct, items[..i]) + HostItem(abi, direct, items[i]) + rest
    decreases |items|
  {
    var init, last := items[..|items| - 1], HostItem(abi, direct, items[|items| - 1]);
    var before, item := HostItems(abi, direct, items[..i]), HostItem(abi, direct, items[i]);
    if i == |items| - 1 {
      rest := [];
      Reassociate(before, item, [], []);
    } else {
      var r := HostItemsFrom(abi, direct, init, i);
      assert init[..i] == items[..i];
      Reassociate(before, item, r, last);
      rest := r + last;
    }
  }

  lemma HoldsInPrefix(bytes: seq<Byte>, more: seq<Byte>, at: nat, part: seq<Byte>)
    requires Holds(bytes, at, part)
    ensures Holds(bytes + more, at, part)
  {
    assert (bytes + more)[at..at + |part|] == bytes[at..at + |part|];
  }

  lemma HostItemInImage(input: Input, direct: bool, i: nat)
    requires WellFormed(input.items) && i < |input.items|
    ensures Holds(HostImage(input, direct), 8 + |HostItems(input.abi, direct, input.items[..i])|,
      HostItem(input.abi, direct, input.items[i]))
  {
    var abi, items := input.abi, input.items;
    var w, before, item := Word(|items|), HostItems(abi, direct, items[..i]), HostItem(abi, direct, items[i]);
    var rest := HostItemsFrom(abi, direct, items, i);
    var n := Word(|input.data|);
    Regroup(w, before, item, rest, n, input.data, input.programId);
    SliceOfConcat(w + before, item, rest + n + input.data + input.programId);
    var body := HostBody(input, direct);
    if input.pointers {
      var metadata := AllMetadata(abi, items);
      HoldsInPrefix(body, Zeros(AlignOffset(|body|)), |w + before|, item);
      HoldsInPrefix(body + Zeros(AlignOffset(|body|)), PointerWords(metadata), |w + before|, item);
    }
  }
}
