/** A serialized input as the start of invocations, and whether an exit stays inside
    the space its account has there. */
module CpiRoom {
  import opened Words
  import opened AlignedMemories
  import opened GuestImages
  import opened Serialization
  import opened GuestParser
  import opened Deserialization
  import opened CpiSync
  import opened CpiRuns

  // ----- The caller's accounts at the start of the program -----

  /** Where an item stands in the image. */
  function ItemAt(input: Input, i: nat): nat
    requires i <= |input.items|
  {
    8 + |ItemsImage(input.abi, input.items[..i])|
  }

  /** A caller's account as the serializer's metadata locate it. */
  function CallerOf(input: Input, i: nat): CallerAccount
    requires i < |input.items| && input.items[i].First?
  {
    var a := input.items[i].account;
    CallerAccount(a.lamports, a.owner, |a.data|, ItemAt(input, i) + DataOffset(input.abi), |a.data|, |a.data|)
  }

  /** Distinct accounts, each taken at its first occurrence. */
  ghost predicate IsPick(input: Input, picks: seq<nat>) {
    && (forall k :: 0 <= k < |picks| ==> picks[k] < |input.items| && input.items[picks[k]].First?)
    && forall k, l :: 0 <= k < |picks| && 0 <= l < |picks| && k != l ==> picks[k] != picks[l]
  }

  function Callers(input: Input, picks: seq<nat>): seq<CallerAccount>
    requires IsPick(input, picks)
  {
    seq(|picks|, k requires 0 <= k < |picks| => CallerOf(input, picks[k]))
  }

  /** The metadata after each item. */
  function Rows(abi: Abi, items: seq<Item>): (r: seq<seq<Metadata>>)
    requires WellFormed(items)
    ensures |r| == |items| + 1 && forall k :: 0 <= k < |r| ==> |r[k]| == k
  {
    seq(|items| + 1, k requires 0 <= k <= |items| => WellFormedPrefix(items, k); AllMetadata(abi, items[..k]))
  }

  lemma RowsGrow(abi: Abi, items: seq<Item>, k: nat)
    requires WellFormed(items) && k < |items|
    ensures Rows(abi, items)[k] <= Rows(abi, items)[k + 1]
    ensures items[k].First? ==>
      Rows(abi, items)[k + 1][k] == MetadataAt(abi, items[k].account, 8 + |ItemsImage(abi, items[..k])|)
  {
    AllMetadataNext(abi, items, k);
  }

  lemma {:induction false} RowsKeep(rows: seq<seq<Metadata>>, i: nat, j: nat)
    requires i < j < |rows| && forall k :: 0 <= k < |rows| ==> |rows[k]| == k
    requires forall k :: 0 <= k < |rows| - 1 ==> rows[k] <= rows[k + 1]
    ensures rows[j][i] == rows[i + 1][i]
  {
    if i + 1 < j {
      RowsKeep(rows, i, j - 1);
      assert rows[j - 1] <= rows[j - 1 + 1];
    }
  }

  /** The metadata handed to the runtime are where the model finds the account. */
  lemma MetadataLocates(abi: Abi, items: seq<Item>, i: nat)
    requires WellFormed(items) && i < |items| && items[i].First?
    ensures AllMetadata(abi, items)[i] == MetadataAt(abi, items[i].account, 8 + |ItemsImage(abi, items[..i])|)
  {
    var rows := Rows(abi, items);
    assert rows[|items|] == AllMetadata(abi, items) by { assert items[..|items|] == items; }
    forall k | 0 <= k < |rows| - 1 ensures rows[k] <= rows[k + 1] { RowsGrow(abi, items, k); }
    RowsKeep(rows, i, |items|);
    RowsGrow(abi, items, i);
  }

  lemma CallerAtMetadata(input: Input, i: nat)
    requires WellFormed(input.items) && i < |input.items| && input.items[i].First?
    ensures var metadata := AllMetadata(input.abi, input.items)[i];
      && metadata.vmDataAddr == MM_INPUT_START + CallerOf(input, i).dataAt
      && metadata.originalDataLen == CallerOf(input, i).originalLen
  {
    MetadataLocates(input.abi, input.items, i);
  }

  lemma ItemHeld(input: Input, i: nat)
    requires WellFormed(input.items) && i < |input.items|
    ensures Holds(Image(input), ItemAt(input, i), ItemImage(input.abi, input.items[i]))
  {
    HostItemInImage(input, false, i);
    HostImageIsImage(input);
    HostItemsAreImage(input.abi, input.items[..i]);
    HostItemIsImage(input.abi, input.items[i]);
  }

  /** The parts of an account in memory that its exit works on. */
  lemma ItemParts(abi: Abi, a: Account, m: seq<Byte>, at: nat)
    requires Holds(m, at, ItemImage(abi, First(a)))
    ensures Holds(m, at + DataOffset(abi) - 8, Word(|a.data|)) && Holds(m, at + DataOffset(abi), a.data)
    ensures Holds(m, at + DataOffset(abi) + |a.data|, Zeros(Slack(abi, |a.data|)))
    ensures Holds(m, at + DataOffset(abi) + |a.data| + Slack(abi, |a.data|), Suffix(abi, a))
  {
    var data, zeros := a.data, Zeros(Slack(abi, |a.data|));
    HoldsParts(m, at, Prefix(abi, a) + data + zeros, Suffix(abi, a));
    HoldsParts(m, at, Prefix(abi, a) + data, zeros);
    HoldsParts(m, at, Prefix(abi, a), data);
    PrefixFields(abi, a, m, at);
  }

  lemma HoldsZeros(m: seq<Byte>, from: nat, n: nat)
    requires Holds(m, from, Zeros(n))
    ensures from + n <= |m| && forall p :: from <= p < from + n ==> m[p] == 0
  {
    forall p | from <= p < from + n ensures m[p] == 0 {
      assert m[from..from + n][p - from] == 0;
    }
  }

  lemma ItemIsTidyAt(cfg: Config, abi: Abi, a: Account, m: seq<Byte>, at: nat, c: CallerAccount)
    requires Holds(m, at, ItemImage(abi, First(a))) && |a.data| <= U64_MAX && (cfg.deprecated <==> abi.V0?)
    requires c == CallerAccount(a.lamports, a.owner, |a.data|, at + DataOffset(abi), |a.data|, |a.data|)
    ensures Tidy(cfg, c, m) && Synced(c, m, a)
  {
    assert Synced(c, m, a) by {
      ItemParts(abi, a, m, at);
      HoldsWord(m, c.dataAt - 8, |a.data|);
    }
    assert Holds(m, c.dataAt + c.len, Zeros(Slack(abi, |a.data|))) by { ItemParts(abi, a, m, at); }
    HoldsZeros(m, c.dataAt + c.len, Slack(abi, |a.data|));
    assert Given(cfg, c) <= c.len + Slack(abi, |a.data|);
  }

  lemma ItemIsTidy(cfg: Config, input: Input, i: nat)
    requires WellFormed(input.items) && i < |input.items| && input.items[i].First?
    requires cfg.deprecated <==> input.abi.V0?
    ensures Tidy(cfg, CallerOf(input, i), Image(input))
    ensures Synced(CallerOf(input, i), Image(input), input.items[i].account)
  {
    ItemHeld(input, i);
    ItemIsTidyAt(cfg, input.abi, input.items[i].account, Image(input), ItemAt(input, i), CallerOf(input, i));
  }

  lemma {:induction false} ItemEnds(abi: Abi, items: seq<Item>, i: nat, j: nat)
    requires i < j <= |items|
    ensures |ItemsImage(abi, items[..i])| + |ItemImage(abi, items[i])| <= |ItemsImage(abi, items[..j])|
    decreases j
  {
    assert items[..j][..j - 1] == items[..j - 1];
    if i < j - 1 { ItemEnds(abi, items, i, j - 1); }
  }

  lemma RoomInItem(abi: Abi, a: Account)
    ensures |ItemImage(abi, First(a))| >= DataOffset(abi) + |a.data| + Slack(abi, |a.data|)
  {
  }

  lemma ItemsAreApart(cfg: Config, input: Input, i: nat, j: nat)
    requires i < j < |input.items| && input.items[i].First? && input.items[j].First?
    requires cfg.deprecated <==> input.abi.V0?
    ensures Apart(cfg, CallerOf(input, i), CallerOf(input, j))
  {
    ItemEnds(input.abi, input.items, i, j);
    RoomInItem(input.abi, input.items[i].account);
  }

  /** A serialized input is in order for every configuration, and every account is in
      step with its record: every run of invocations can start there. */
  lemma SerializedIsInOrder(cfg: Config, input: Input, picks: seq<nat>)
    requires WellFormed(input.items) && IsPick(input, picks) && (cfg.deprecated <==> input.abi.V0?)
    ensures InOrder(cfg, Callers(input, picks), Image(input))
    ensures forall k :: 0 <= k < |picks| ==>
      Synced(Callers(input, picks)[k], Image(input), input.items[picks[k]].account)
  {
    var cs := Callers(input, picks);
    forall k | 0 <= k < |picks|
      ensures Tidy(cfg, cs[k], Image(input)) && Synced(cs[k], Image(input), input.items[picks[k]].account)
    {
      ItemIsTidy(cfg, input, picks[k]);
    }
    forall k, l | 0 <= k < |picks| && 0 <= l < |picks| && k != l ensures Apart(cfg, cs[k], cs[l]) {
      if picks[k] < picks[l] {
        ItemsAreApart(cfg, input, picks[k], picks[l]);
      } else {
        ItemsAreApart(cfg, input, picks[l], picks[k]);
      }
    }
  }

  /** Any sequence of calls of a program that was just started: after each exit the
      caller sees the account as the callee left it. */
  lemma SerializedRunKeepsSync(cfg: Config, program: Key, input: Input, picks: seq<nat>, run: seq<State>,
                               steps: seq<Step>, n: nat)
    requires WellFormed(input.items) && IsPick(input, picks) && (cfg.deprecated <==> input.abi.V0?)
    requires |run| == |steps| + 1 && run[0].cs == Callers(input, picks) && run[0].memory == Image(input)
    requires forall i :: 0 <= i < |steps| ==> Next(cfg, program, run[i], steps[i], run[i + 1])
    requires n < |run| && (!cfg.restrictions ==> forall i :: 0 <= i < n ==> InRoom(cfg, run[i], steps[i]))
    ensures InOrder(cfg, run[n].cs, run[n].memory)
    ensures n > 0 ==> ShowsExit(steps[n - 1], run[n])
  {
    SerializedIsInOrder(cfg, input, picks);
    RunKeepsSync(cfg, program, run, steps, n);
  }

  // ----- Room -----

  /** The data of an account and the slack behind it. */
  function Room(abi: Abi, len: nat): nat { len + Slack(abi, len) }

  /** Nothing changes but the second length word and `room` bytes of data. */
  ghost predicate StaysInside(c: CallerAccount, room: nat, m: seq<Byte>, m': seq<Byte>) {
    && |m'| == |m|
    && forall p :: 0 <= p < |m| && !(c.dataAt - 8 <= p < c.dataAt + room) ==> m'[p] == m[p]
  }

  /** The memory an exit makes. */
  function Exited(c: CallerAccount, m: seq<Byte>, data: seq<Byte>): seq<Byte>
    requires 8 <= c.dataAt && c.dataAt + |data| <= |m|
  {
    seq(|m|, p requires 0 <= p < |m| =>
      if c.dataAt <= p < c.dataAt + |data| then data[p - c.dataAt]
      else if c.len != |data| && c.dataAt - 8 <= p < c.dataAt then Word(|data|)[p - (c.dataAt - 8)]
      else if |data| < c.len && c.dataAt + |data| <= p < c.dataAt + c.sliceLen then 0
      else m[p])
  }

  function Exiting(c: CallerAccount, a: Account): CallerAccount {
    c.(lamports := a.lamports, owner := a.owner, sliceLen := |a.data|, len := |a.data|)
  }

  lemma ExitedIsLeft(c: CallerAccount, m: seq<Byte>, a: Account)
    requires 8 <= c.dataAt && c.dataAt + |a.data| <= |m|
    ensures Left(c, m, a, Exiting(c, a), Exited(c, m, a.data))
  {
    var m' := Exited(c, m, a.data);
    HoldsEach(m', c.dataAt, a.data);
    if c.len != |a.data| { HoldsEach(m', c.dataAt - 8, Word(|a.data|)); }
  }

  lemma HoldsEach(m: seq<Byte>, at: nat, part: seq<Byte>)
    requires at + |part| <= |m| && forall k :: 0 <= k < |part| ==> m[at + k] == part[k]
    ensures Holds(m, at, part)
  {
  }

  lemma FitsStaysInside(c: CallerAccount, room: nat, m: seq<Byte>, a: Account, c': CallerAccount, m': seq<Byte>)
    requires Left(c, m, a, c', m') && c.sliceLen <= room && |a.data| <= room
    ensures StaysInside(c, room, m, m')
  {
  }

  /** Data that differs from the memory it will overwrite. */
  function Different(c: CallerAccount, m: seq<Byte>, n: nat): (r: seq<Byte>)
    requires c.dataAt + n <= |m|
    ensures |r| == n && forall k :: 0 <= k < n ==> r[k] != m[c.dataAt + k]
  {
    seq(n, k requires 0 <= k < n => if m[c.dataAt + k] == 0 then 1 else 0)
  }

  lemma HoldsAt(m: seq<Byte>, at: nat, part: seq<Byte>, k: nat)
    requires Holds(m, at, part) && k < |part|
    ensures m[at + k] == part[k]
  {
    assert m[at..at + |part|][k] == part[k];
  }

  lemma LongGoesOutside(c: CallerAccount, room: nat, m: seq<Byte>, a: Account, n: nat)
    requires 8 <= c.dataAt && c.dataAt + n <= |m| && room < n && a.data == Different(c, m, n)
    ensures Left(c, m, a, Exiting(c, a), Exited(c, m, a.data))
    ensures !StaysInside(c, room, m, Exited(c, m, a.data))
  {
    ExitedIsLeft(c, m, a);
    HoldsAt(Exited(c, m, a.data), c.dataAt, a.data, room);
  }

  /** Every exit with `n` bytes stays inside. */
  ghost predicate AlwaysInside(c: CallerAccount, room: nat, m: seq<Byte>, n: nat) {
    forall a: Account, c', m' :: |a.data| == n && Left(c, m, a, c', m') ==> StaysInside(c, room, m, m')
  }

  /** Which lengths stay inside whatever the callee wrote: those that fit the room. */
  lemma LengthDecides(c: CallerAccount, room: nat, m: seq<Byte>, n: nat)
    requires 8 <= c.dataAt && c.sliceLen <= room && c.dataAt + n <= |m|
    ensures AlwaysInside(c, room, m, n) <==> n <= room
  {
    if n <= room {
      forall a: Account, c', m' | |a.data| == n && Left(c, m, a, c', m') ensures StaysInside(c, room, m, m') {
        FitsStaysInside(c, room, m, a, c', m');
      }
    } else {
      var key: Key := Zeros(32);
      var a := Account(key, key, 0, Different(c, m, n), false, true, false, false);
      LongGoesOutside(c, room, m, a, n);
    }
  }

  /** An exit after the program started stays inside the room the serializer gave its
      account exactly if the new length fits it: in version 0, if the account did not
      grow. */
  lemma SerializedLengthDecides(input: Input, i: nat, n: nat)
    requires WellFormed(input.items) && i < |input.items| && input.items[i].First?
    requires CallerOf(input, i).dataAt + n <= |Image(input)|
    ensures var c := CallerOf(input, i);
      AlwaysInside(c, Room(input.abi, c.originalLen), Image(input), n) <==>
      n <= if input.abi.V0? then c.originalLen
           else c.originalLen + MAX_PERMITTED_DATA_INCREASE + AlignOffset(c.originalLen)
  {
    var c := CallerOf(input, i);
    LengthDecides(c, Room(input.abi, c.originalLen), Image(input), n);
  }

  /** Every exit that is accepted stays inside. */
  ghost predicate AcceptedStayInside(cfg: Config, c: CallerAccount, room: nat, m: seq<Byte>) {
    forall n: nat :: n <= |m| - c.dataAt && !IsOutgrown(cfg, c, n) ==> AlwaysInside(c, room, m, n)
  }

  /** The configurations in which the check on the new length keeps exits inside:
      all but deprecated loaders without restrictions. */
  lemma AcceptedExits(cfg: Config, input: Input, i: nat)
    requires WellFormed(input.items) && i < |input.items| && input.items[i].First?
    requires cfg.deprecated <==> input.abi.V0?
    ensures var c := CallerOf(input, i);
      AcceptedStayInside(cfg, c, Room(input.abi, c.originalLen), Image(input)) <==>
      !cfg.deprecated || cfg.restrictions || c.originalLen == U64_MAX
  {
    var c, m := CallerOf(input, i), Image(input);
    var room := Room(input.abi, c.originalLen);
    ItemHeld(input, i);
    ItemParts(input.abi, input.items[i].account, m, ItemAt(input, i));
    if !cfg.deprecated || cfg.restrictions || c.originalLen == U64_MAX {
      forall n: nat | n <= |m| - c.dataAt && !IsOutgrown(cfg, c, n) ensures AlwaysInside(c, room, m, n) {
        LengthDecides(c, room, m, n);
      }
    } else {
      LengthDecides(c, room, m, room + 1);
      assert !IsOutgrown(cfg, c, room + 1);
    }
  }

  // ----- What an exit that does not stay inside writes over -----

  lemma OwnerBehindData(a: Account, m: seq<Byte>, at: nat)
    requires Holds(m, at, ItemImage(V0, First(a)))
    ensures Holds(m, at + DataOffset(V0) + |a.data|, a.owner)
  {
    ItemParts(V0, a, m, at);
    var behind := at + DataOffset(V0) + |a.data|;
    HoldsParts(m, behind, a.owner + [Bit(a.isExecutable)], Word(U64_MAX));
    HoldsParts(m, behind, a.owner, [Bit(a.isExecutable)]);
  }

  lemma SharedByte(m: seq<Byte>, at: nat, data: seq<Byte>, k: nat, owner: Key)
    requires Holds(m, at, data) && k < |data| && Holds(m, at + k, owner)
    ensures data[k] == owner[0]
  {
    HoldsAt(m, at, data, k);
    HoldsAt(m, at + k, owner, 0);
  }

  /** In version 0 the owner stands right behind the data: after an account grew, the
      first byte of its owner is a byte of its data. */
  lemma GrowthReachesOwner(m: seq<Byte>, at: nat, b: Account, c: CallerAccount, a: Account,
                           c': CallerAccount, m': seq<Byte>)
    requires Holds(m, at, ItemImage(V0, First(b))) && c.dataAt == at + DataOffset(V0)
    requires Left(c, m, a, c', m') && |b.data| < |a.data|
    ensures Holds(m, c.dataAt + |b.data|, b.owner)
    ensures Holds(m', c.dataAt + |b.data|, b.owner) ==> a.data[|b.data|] == b.owner[0]
  {
    OwnerBehindData(b, m, at);
    if Holds(m', c.dataAt + |b.data|, b.owner) { SharedByte(m', c.dataAt, a.data, |b.data|, b.owner); }
  }

  /** A later exit that writes into the data of an earlier one undoes it. */
  lemma LaterExitUndoes(c: CallerAccount, a: Account, d: CallerAccount, b: Account, m: seq<Byte>,
                        d': CallerAccount, m': seq<Byte>, k: nat)
    requires Left(d, m, b, d', m') && k < |b.data|
    requires c.dataAt <= d.dataAt + k < c.dataAt + |a.data| && a.data[d.dataAt + k - c.dataAt] != b.data[k]
    ensures !Holds(m', c.dataAt, a.data)
  {
    HoldsAt(m', d.dataAt, b.data, k);
    if Holds(m', c.dataAt, a.data) { HoldsAt(m', c.dataAt, a.data, d.dataAt + k - c.dataAt); }
  }

  /** Two exits of empty accounts that follow each other. */
  lemma ExitsOverlap(m: seq<Byte>, at: nat, owner: Account, c: CallerAccount, d: CallerAccount, a: Account, b: Account)
    requires Holds(m, at, ItemImage(V0, First(owner))) && owner.data == []
    requires c.dataAt == at + DataOffset(V0) && d.dataAt == c.dataAt + 92 && d.dataAt + 1 <= |m|
    requires |a.data| == 93 && |b.data| == 1 && owner.owner[0] != a.data[0] && a.data[92] != b.data[0]
    ensures var m1 := Exited(c, m, a.data);
      && Holds(m, c.dataAt, owner.owner) && !Holds(m1, c.dataAt, owner.owner)
      && Holds(m1, c.dataAt, a.data) && !Holds(Exited(d, m1, b.data), c.dataAt, a.data)
  {
    var m1 := Exited(c, m, a.data);
    ExitedIsLeft(c, m, a);
    GrowthReachesOwner(m, at, owner, c, a, Exiting(c, a), m1);
    ExitedIsLeft(d, m1, b);
    LaterExitUndoes(c, a, d, b, m1, Exiting(d, b), Exited(d, m1, b.data), 0);
  }

  function Empty(key: Key): Account { Account(key, Zeros(32), 0, [], false, true, false, false) }

  /** Two empty accounts of a deprecated program. */
  function TwoAccounts(): Input {
    Input(V0, [First(Empty(Repeat(1, 32))), First(Empty(Repeat(2, 32)))], [], Zeros(32), false)
  }

  lemma TwoAccountsAt()
    ensures WellFormed(TwoAccounts().items) && |Image(TwoAccounts())| == 232
    ensures CallerOf(TwoAccounts(), 0).dataAt == 59 && CallerOf(TwoAccounts(), 1).dataAt == 151
  {
    var items := TwoAccounts().items;
    assert items[..1][..0] == [] && items[..2] == items && items[..0] == [];
    assert |ItemImage(V0, items[0])| == 92 && |ItemImage(V0, items[1])| == 92;
    assert ItemsImage(V0, items[..1]) == ItemsImage(V0, []) + ItemImage(V0, items[0]);
    assert ItemsImage(V0, items) == ItemsImage(V0, items[..1]) + ItemImage(V0, items[1]);
  }

  /** Without restrictions both exits are accepted. The first writes over the owner of
      its account and over the second account; the second then over the first's data. */
  lemma ExitsCollide(cfg: Config, a: Account, b: Account)
    requires cfg.deprecated && !cfg.restrictions && a.data == Repeat(7, 93) && b.data == [9]
    ensures var input := TwoAccounts();
      var c, d, m := CallerOf(input, 0), CallerOf(input, 1), Image(input);
      var m1 := Exited(c, m, a.data);
      var m2 := Exited(d, m1, b.data);
      && Left(c, m, a, Exiting(c, a), m1) && !IsOutgrown(cfg, c, |a.data|)
      && Left(d, m1, b, Exiting(d, b), m2) && !IsOutgrown(cfg, d, |b.data|)
      && Holds(m, c.dataAt, Zeros(32)) && !Holds(m1, c.dataAt, Zeros(32))
      && Holds(m1, c.dataAt, a.data) && !Holds(m2, c.dataAt, a.data)
  {
    var input := TwoAccounts();
    var c, d, m := CallerOf(input, 0), CallerOf(input, 1), Image(input);
    assert c.dataAt == 59 && d.dataAt == 151 && |m| == 232 by { TwoAccountsAt(); }
    ItemHeld(input, 0);
    ExitsOverlap(m, 8, input.items[0].account, c, d, a, b);
    ExitedIsLeft(c, m, a);
    ExitedIsLeft(d, Exited(c, m, a.data), b);
  }
}
