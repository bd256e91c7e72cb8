/** The `Serializer`: one buffer and a list of regions, in three layouts that all
    show the guest the same bytes. */
module Serializers {
  import opened AlignedMemories
  import opened Words
  import opened GuestImages
  import opened MemoryLayouts

  lemma ModShift(a: nat, b: nat, k: nat)
    requires a % 8 == b % 8
    ensures (a + k) % 8 == (b + k) % 8
  {
  }

  lemma PushAligned(l: Layout)
    requires l.regionStart <= |l.buffer| && l.Aligned()
    ensures l.Push().Aligned()
  {
    ModShift(l.regionStart, l.vaddr, |l.buffer| - l.regionStart);
  }

  lemma ShrinkAligned(l: Layout, len: nat, writable: bool)
    requires l.regions != [] && l.Aligned()
    ensures l.Shrink(len, writable).Aligned()
  {
  }

  /** Mapping data in place skips as many guest addresses as the padding skips
      host bytes, modulo eight. */
  lemma MapAligned(l: Layout, data: seq<Byte>, writable: bool)
    requires l.Aligned()
    ensures l.Map(data, |data| + MAX_PERMITTED_DATA_INCREASE, writable)
             .Append(Zeros(BPF_ALIGN_OF_U128)).Skip(BPF_ALIGN_OF_U128 - AlignOffset(|data|)).Aligned()
  {
    var n, k := |data|, BPF_ALIGN_OF_U128 - AlignOffset(|data|);
    AlignOffsetAligns(n);
    SkipKeepsRemainder(l.regionStart, l.vaddr, n, AlignOffset(n));
  }

  lemma SkipKeepsRemainder(a: nat, b: nat, n: nat, pad: nat)
    requires a % 8 == b % 8 && (n + pad) % 8 == 0 && pad < 8
    ensures (a + (8 - pad)) % 8 == (b + (n + MAX_PERMITTED_DATA_INCREASE)) % 8
  {
  }

  /** Storing account data and its room to grow as a region of its own, shrunk to
      the data, shows the guest the data followed by zeros. */
  lemma SeparateAccount(l: Layout, data: seq<Byte>, increase: nat, writable: bool)
    requires l.Ok() && l.regionStart == |l.buffer|
    ensures var stored := l.Append(data).Append(Zeros(increase));
      stored.regionStart <= |stored.buffer|
      && stored.Push().Shrink(|data|, writable).Ok()
      && stored.Push().Shrink(|data|, writable).Guest() == l.Guest() + data + Zeros(increase)
  {
    AppendGuest(l, data);
    AppendGuest(l.Append(data), Zeros(increase));
    var stored := l.Append(data).Append(Zeros(increase));
    PushGuest(stored);
    var r := Region(InBuffer(l.regionStart), l.vaddr, |data| + increase, true);
    assert stored.buffer[l.regionStart..][|data|..] == Zeros(increase);
    assert RegionBytes(r, stored.buffer) == stored.buffer[l.regionStart..];
    ShrinkGuest(stored.Push(), l.regions, r, |data|, writable);
  }

  /** Mapping account data in place, with padding that keeps the next region
      aligned, shows the guest the data followed by the same zeros. */
  lemma DirectAccount(l: Layout, data: seq<Byte>, writable: bool)
    requires l.Ok() && l.regionStart == |l.buffer|
    ensures var padded := l.Map(data, |data| + MAX_PERMITTED_DATA_INCREASE, writable)
                           .Append(Zeros(BPF_ALIGN_OF_U128)).Skip(BPF_ALIGN_OF_U128 - AlignOffset(|data|));
      padded.Ok() && padded.Guest() == l.Guest() + data + Zeros(Slack(V1, |data|))
  {
    var mapped := l.Map(data, |data| + MAX_PERMITTED_DATA_INCREASE, writable);
    MapGuest(l, data, |data| + MAX_PERMITTED_DATA_INCREASE, writable);
    AppendGuest(mapped, Zeros(BPF_ALIGN_OF_U128));
    var filled := mapped.Append(Zeros(BPF_ALIGN_OF_U128));
    var k := BPF_ALIGN_OF_U128 - AlignOffset(|data|);
    SkipGuest(filled, k);
    assert filled.Open() == Zeros(BPF_ALIGN_OF_U128);
    assert filled.Open()[k..] == Zeros(AlignOffset(|data|));
    assert filled.Closed() == mapped.Guest() by {
      PlacedIgnoresTail(mapped.regions, mapped.buffer, Zeros(BPF_ALIGN_OF_U128), mapped.vaddr);
      assert mapped.Open() == [];
    }
    JoinZeros(l.Guest() + data, MAX_PERMITTED_DATA_INCREASE, AlignOffset(|data|));
  }

  lemma JoinZeros(s: seq<Byte>, m: nat, n: nat)
    ensures s + Zeros(m) + Zeros(n) == s + Zeros(m + n)
  {
  }

  lemma EmptyAccount(l: Layout, data: seq<Byte>, increase: nat)
    requires l.Ok() && data == [] && increase == 0
    ensures l.Append(data).Append(Zeros(increase)).Ok()
    ensures l.Append(data).Append(Zeros(increase)).Guest() == l.Guest() + data + Zeros(increase)
  {
    AppendGuest(l, data);
    AppendGuest(l.Append(data), Zeros(increase));
  }

  lemma ClosedIsPlaced(l: Layout)
    requires l.Ok() && l.regionStart == |l.buffer| && l.regions != []
    requires var r := l.regions[|l.regions| - 1]; r.vmAddr + r.len == l.vaddr
    ensures l.Guest() == Placed(l.regions, l.buffer)
  {
    PlacedLength(l.regions, l.buffer, l.vaddr);
    AddNothing(Placed(l.regions, l.buffer));
    assert l.Open() == [];
  }

  /** What the buffer holds of an account's data. */
  function HostData(abi: Abi, direct: bool, data: seq<Byte>): (r: seq<Byte>)
    ensures |r| == HostDataSize(abi, direct, |data|)
  {
    if !direct then data + Zeros(Slack(abi, |data|))
    else if abi.V0? then [] else Zeros(BPF_ALIGN_OF_U128)
  }

  function HostDataSize(abi: Abi, direct: bool, len: nat): nat {
    if !direct then len + Slack(abi, len)
    else if abi.V0? then 0 else BPF_ALIGN_OF_U128
  }

  /** The current program may change the account's data. */
  predicate CanDataBeChanged(a: Account, program: Key) {
    a.isWritable && a.owner == program
  }

  class Serializer {
    const buffer: AlignedMemory
    const isLoaderV1: bool
    const virtualAddressSpaceAdjustments: bool
    const accountDataDirectMapping: bool
    var regions: seq<Region>
    var vaddr: nat
    var regionStart: nat

    function Version(): Abi { if isLoaderV1 then V0 else V1 }

    function Direct(): bool { virtualAddressSpaceAdjustments && accountDataDirectMapping }

    function Current(): Layout
      requires buffer.length <= buffer.mem.Length
      reads this, buffer, buffer.mem
    {
      Layout(buffer.Contents(), regions, vaddr, regionStart)
    }

    ghost predicate Valid()
      reads this, buffer, buffer.mem
    {
      && buffer.Valid() && Current().Ok()
      && (!isLoaderV1 ==> Current().Aligned())
      && (!virtualAddressSpaceAdjustments ==> regions == [] && regionStart == 0 && vaddr == MM_INPUT_START)
    }

    ghost function Guest(): seq<Byte>
      requires Valid()
      reads this, buffer, buffer.mem
    {
      Current().Guest()
    }

    /** There is buffer left for `n` more bytes, and addresses do not saturate. */
    ghost predicate Room(n: nat)
      requires Valid()
      reads this, buffer, buffer.mem
    {
      && buffer.length + n <= buffer.mem.Length
      && MM_INPUT_START + |Guest()| + buffer.mem.Length <= U64_MAX
    }

    constructor (size: nat, isLoaderV1: bool, virtualAddressSpaceAdjustments: bool, accountDataDirectMapping: bool)
      ensures Valid() && Guest() == [] && buffer.Contents() == [] && buffer.mem.Length == size
      ensures this.isLoaderV1 == isLoaderV1
      ensures this.virtualAddressSpaceAdjustments == virtualAddressSpaceAdjustments
      ensures this.accountDataDirectMapping == accountDataDirectMapping
      ensures vaddr == MM_INPUT_START
      ensures fresh(buffer) && fresh(buffer.mem)
    {
      buffer := new AlignedMemory.WithCapacity(size);
      regions, regionStart, vaddr := [], 0, MM_INPUT_START;
      this.isLoaderV1 := isLoaderV1;
      this.virtualAddressSpaceAdjustments := virtualAddressSpaceAdjustments;
      this.accountDataDirectMapping := accountDataDirectMapping;
    }

    /** Append zeros without reporting an address. */
    method Fill(num: nat)
      requires Valid() && buffer.length + num <= buffer.mem.Length
      modifies buffer, buffer.mem
      ensures Valid() && Current() == old(Current()).Append(Zeros(num))
      ensures Guest() == old(Guest()) + Zeros(num)
    {
      AppendGuest(Current(), Zeros(num));
      var ok := buffer.FillWrite(num, 0);
      assert ok;
    }

    /** Append bytes and report the guest address they got. */
    method WriteAll(bytes: seq<Byte>) returns (addr: nat)
      requires Valid() && Room(|bytes|)
      modifies buffer, buffer.mem
      ensures Valid() && Current() == old(Current()).Append(bytes)
      ensures Guest() == old(Guest()) + bytes
      ensures addr == MM_INPUT_START + |old(Guest())|
    {
      GuestLength(Current());
      AppendGuest(Current(), bytes);
      addr := SaturatingSub(SaturatingAdd(vaddr, buffer.length), regionStart);
      buffer.WriteAllUnchecked(bytes);
    }

    /** Append a 64-bit word; in version 1 it must fall on a word boundary. */
    method WriteWord(n: nat) returns (addr: nat)
      requires Valid() && Room(8) && (!isLoaderV1 ==> buffer.length % 8 == 0)
      modifies buffer, buffer.mem
      ensures Valid() && Current() == old(Current()).Append(Word(n))
      ensures Guest() == old(Guest()) + Word(n)
      ensures addr == MM_INPUT_START + |old(Guest())|
    {
      addr := WriteAll(Word(n));
    }

    method PushRegion()
      requires Valid() && virtualAddressSpaceAdjustments
      modifies this
      ensures Valid() && Current() == old(Current()).Push() && Guest() == old(Guest())
    {
      PushGuest(Current());
      if !isLoaderV1 { PushAligned(Current()); }
      regions := regions + [Region(InBuffer(regionStart), vaddr, buffer.length - regionStart, true)];
      vaddr := vaddr + (buffer.length - regionStart);
      regionStart := buffer.length;
    }

    /** Make an account's data visible to the guest, followed by zeros to grow
        into: by copying it, as a region of its own, or by mapping it in place. */
    method WriteAccount(a: Account, program: Key) returns (addr: nat)
      requires Valid() && Room(HostDataSize(Version(), Direct(), |a.data|))
      modifies this, buffer, buffer.mem
      ensures Valid()
      ensures buffer.Contents() == old(buffer.Contents()) + HostData(Version(), Direct(), a.data)
      ensures Guest() == old(Guest()) + a.data + Zeros(Slack(Version(), |a.data|))
      ensures addr == MM_INPUT_START + |old(Guest())|
    {
      GuestLength(Current());
      if !virtualAddressSpaceAdjustments {
        addr := CopyAccount(a);
      } else {
        PushRegion();
        addr := vaddr;
        if !accountDataDirectMapping { SeparateRegion(a, program); } else { MapRegion(a, program); }
      }
    }

    method CopyAccount(a: Account) returns (addr: nat)
      requires Valid() && !virtualAddressSpaceAdjustments && Room(HostDataSize(Version(), false, |a.data|))
      modifies buffer, buffer.mem
      ensures Valid()
      ensures buffer.Contents() == old(buffer.Contents()) + HostData(Version(), false, a.data)
      ensures Guest() == old(Guest()) + a.data + Zeros(Slack(Version(), |a.data|))
      ensures addr == MM_INPUT_START + |old(Guest())|
    {
      GuestLength(Current());
      addr := SaturatingAdd(vaddr, buffer.length);
      var _ := WriteAll(a.data);
      if !isLoaderV1 {
        Fill(MAX_PERMITTED_DATA_INCREASE + AlignOffset(|a.data|));
      } else {
        AddNothing(Guest());
        AddNothing(buffer.Contents());
      }
    }

    /** Copy the data into the buffer as a region of exactly its length. */
    method SeparateRegion(a: Account, program: Key)
      requires Valid() && virtualAddressSpaceAdjustments && !accountDataDirectMapping
      requires regionStart == buffer.length && Room(HostDataSize(Version(), false, |a.data|))
      modifies this, buffer, buffer.mem
      ensures Valid()
      ensures buffer.Contents() == old(buffer.Contents()) + HostData(Version(), false, a.data)
      ensures Guest() == old(Guest()) + a.data + Zeros(Slack(Version(), |a.data|))
    {
      StoreRegion(a.data, CanDataBeChanged(a, program));
      if !isLoaderV1 {
        Fill(AlignOffset(|a.data|));
        JoinZeros(old(Guest()) + a.data, MAX_PERMITTED_DATA_INCREASE, AlignOffset(|a.data|));
        JoinZeros(old(buffer.Contents()) + a.data, MAX_PERMITTED_DATA_INCREASE, AlignOffset(|a.data|));
      }
    }

    method StoreRegion(data: seq<Byte>, writable: bool)
      requires Valid() && virtualAddressSpaceAdjustments
      requires regionStart == buffer.length && Room(|data| + Increase())
      modifies this, buffer, buffer.mem
      ensures Valid()
      ensures buffer.Contents() == old(buffer.Contents()) + data + Zeros(Increase())
      ensures Guest() == old(Guest()) + data + Zeros(Increase())
    {
      StoreData(data);
      if |data| + Increase() > 0 {
        CloseAccountRegion(data, writable, old(Current()));
      } else {
        EmptyAccount(old(Current()), data, Increase());
      }
    }

    function Increase(): nat { if isLoaderV1 then 0 else MAX_PERMITTED_DATA_INCREASE }

    method StoreData(data: seq<Byte>)
      requires Valid() && Room(|data| + Increase())
      modifies buffer, buffer.mem
      ensures Valid() && Current() == old(Current()).Append(data).Append(Zeros(Increase()))
    {
      var _ := WriteAll(data);
      if !isLoaderV1 { Fill(MAX_PERMITTED_DATA_INCREASE); } else { AddNothing(buffer.Contents()); }
    }

    /** Turn what was stored since `start` into a region of the data's length. */
    method CloseAccountRegion(data: seq<Byte>, writable: bool, ghost start: Layout)
      requires Valid() && virtualAddressSpaceAdjustments
      requires start.Ok() && start.regionStart == |start.buffer|
      requires Current() == start.Append(data).Append(Zeros(Increase()))
      modifies this
      ensures Valid() && Guest() == start.Guest() + data + Zeros(Increase())
    {
      SeparateAccount(start, data, Increase(), writable);
      PushRegion();
      if !isLoaderV1 { ShrinkAligned(Current(), |data|, writable); }
      var last := |regions| - 1;
      regions := regions[last := regions[last].(len := |data|, writable := writable)];
    }

    /** Map the data where the account keeps it. */
    method MapRegion(a: Account, program: Key)
      requires Valid() && Direct() && regionStart == buffer.length && Room(HostDataSize(Version(), true, |a.data|))
      modifies this, buffer, buffer.mem
      ensures Valid()
      ensures buffer.Contents() == old(buffer.Contents()) + HostData(Version(), true, a.data)
      ensures Guest() == old(Guest()) + a.data + Zeros(Slack(Version(), |a.data|))
    {
      var writable := CanDataBeChanged(a, program) && !a.isShared;
      if isLoaderV1 { MapExactly(a.data, writable); } else { MapWithRoom(a.data, writable); }
    }

    method MapExactly(data: seq<Byte>, writable: bool)
      requires Valid() && virtualAddressSpaceAdjustments && isLoaderV1 && regionStart == buffer.length
      modifies this
      ensures Valid() && buffer.Contents() == old(buffer.Contents()) + []
      ensures Guest() == old(Guest()) + data + Zeros(0)
    {
      AddNothing(Guest() + data);
      if |data| > 0 {
        MapGuest(Current(), data, |data|, writable);
        regions := regions + [Region(AccountData(data), vaddr, |data|, writable)];
        vaddr := vaddr + |data|;
      }
    }

    method MapWithRoom(data: seq<Byte>, writable: bool)
      requires Valid() && virtualAddressSpaceAdjustments && !isLoaderV1 && regionStart == buffer.length
      requires buffer.length + BPF_ALIGN_OF_U128 <= buffer.mem.Length
      modifies this, buffer, buffer.mem
      ensures Valid() && buffer.Contents() == old(buffer.Contents()) + Zeros(BPF_ALIGN_OF_U128)
      ensures Guest() == old(Guest()) + data + Zeros(Slack(V1, |data|))
    {
      ghost var start := Current();
      regions := regions + [Region(AccountData(data), vaddr, |data|, writable)];
      vaddr := vaddr + (|data| + MAX_PERMITTED_DATA_INCREASE);
      assert Current() == start.Map(data, |data| + MAX_PERMITTED_DATA_INCREASE, writable);
      PadMapped(AlignOffset(|data|));
      DirectAccount(start, data, writable);
      MapAligned(start, data, writable);
    }

    /** Pad after mapped data so that the next region starts aligned. */
    method PadMapped(alignOffset: nat)
      requires buffer.Valid() && buffer.length + BPF_ALIGN_OF_U128 <= buffer.mem.Length
      requires alignOffset <= BPF_ALIGN_OF_U128
      modifies this, buffer, buffer.mem
      ensures buffer.Valid()
      ensures Current() == old(Current()).Append(Zeros(BPF_ALIGN_OF_U128)).Skip(BPF_ALIGN_OF_U128 - alignOffset)
    {
      var ok := buffer.FillWrite(BPF_ALIGN_OF_U128, 0);
      assert ok;
      regionStart := regionStart + BPF_ALIGN_OF_U128 - alignOffset;
    }

    /** Close the last region; serialization is over. */
    method Finish()
      requires Valid()
      modifies this
      ensures buffer.Valid() && Current() == old(Current()).Push() && Current().Ok()
      ensures Placed(regions, buffer.Contents()) == old(Guest())
      ensures !isLoaderV1 ==> Current().Aligned()
    {
      PushGuest(Current());
      if !isLoaderV1 { PushAligned(Current()); }
      regions := regions + [Region(InBuffer(regionStart), vaddr, buffer.length - regionStart, true)];
      vaddr := vaddr + (buffer.length - regionStart);
      regionStart := buffer.length;
      ClosedIsPlaced(Current());
    }
  }
}
