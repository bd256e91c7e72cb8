/** Serializing the parameters of an instruction: in both ABIs and all three
    layouts the guest sees the same image, the reported addresses are the same,
    and the buffer is filled exactly. */
module Serialization {
  import opened Sequences
  import opened AlignedMemories
  import opened Words
  import opened GuestImages
  import opened MemoryLayouts
  import opened Serializers

  // ----- What the host buffer holds -----

  function HostItem(abi: Abi, direct: bool, item: Item): seq<Byte> {
    match item
    case First(a) => Prefix(abi, a) + HostData(abi, direct, a.data) + Suffix(abi, a)
    case Duplicate(position) => DuplicateImage(abi, position)
  }

  function HostItems(abi: Abi, direct: bool, items: seq<Item>): seq<Byte> {
    if items == [] then [] else HostItems(abi, direct, items[..|items| - 1]) + HostItem(abi, direct, items[|items| - 1])
  }

  function HostBody(input: Input, direct: bool): seq<Byte> {
    Word(|input.items|) + HostItems(input.abi, direct, input.items) + Word(|input.data|) + input.data + input.programId
  }

  function HostImage(input: Input, direct: bool): seq<Byte>
    requires WellFormed(input.items)
  {
    if input.pointers then WithPointers(HostBody(input, direct), AllMetadata(input.abi, input.items))
    else HostBody(input, direct)
  }

  lemma HostItemsNext(abi: Abi, direct: bool, items: seq<Item>, i: nat)
    requires i < |items|
    ensures HostItems(abi, direct, items[..i + 1]) ==
      HostItems(abi, direct, items[..i]) + HostItem(abi, direct, items[i])
  {
    assert items[..i + 1][..i] == items[..i];
  }

  lemma HostItemIsImage(abi: Abi, item: Item)
    ensures HostItem(abi, false, item) == ItemImage(abi, item)
  {
    if item.First? {
      var zeros := Zeros(Slack(abi, |item.account.data|));
      assert Prefix(abi, item.account) + (item.account.data + zeros) ==
        Prefix(abi, item.account) + item.account.data + zeros;
    }
  }

  /** Without direct mapping the buffer is the image. */
  lemma {:induction false} HostItemsAreImage(abi: Abi, items: seq<Item>)
    ensures HostItems(abi, false, items) == ItemsImage(abi, items)
  {
    if items != [] {
      HostItemsAreImage(abi, items[..|items| - 1]);
      HostItemIsImage(abi, items[|items| - 1]);
    }
  }

  lemma HostImageIsImage(input: Input)
    requires WellFormed(input.items)
    ensures HostImage(input, false) == Image(input)
  {
    HostItemsAreImage(input.abi, input.items);
  }

  // ----- The size, computed before anything is written -----

  function ItemSize(abi: Abi, direct: bool, item: Item): nat {
    match item
    case Duplicate(_) => if abi.V0? then 1 else 8
    case First(a) => DataOffset(abi) + HostDataSize(abi, direct, |a.data|) + SuffixSize(abi)
  }

  lemma SizeNext(abi: Abi, direct: bool, items: seq<Item>, i: nat)
    requires i < |items|
    ensures |HostItems(abi, direct, items[..i + 1])| ==
      |HostItems(abi, direct, items[..i])| + ItemSize(abi, direct, items[i])
  {
    HostItemsNext(abi, direct, items, i);
  }

  lemma HostBodySize(input: Input, direct: bool)
    ensures |HostBody(input, direct)| == 8 + |HostItems(input.abi, direct, input.items)| + 8 + |input.data| + 32
  {
  }

  lemma HostImageSize(input: Input, direct: bool, n: nat)
    requires WellFormed(input.items)
    requires n == |HostBody(input, direct)|
    ensures |HostImage(input, direct)| == if input.pointers then n + AlignOffset(n) + |input.items| * 8 else n
  {
    WithPointersLength(HostBody(input, direct), AllMetadata(input.abi, input.items));
  }

  /** The size of the buffer, one field at a time. */
  method ComputeSize(input: Input, direct: bool) returns (size: nat)
    requires WellFormed(input.items)
    ensures size == |HostImage(input, direct)|
  {
    size := 8;
    for i := 0 to |input.items|
      invariant size == 8 + |HostItems(input.abi, direct, input.items[..i])|
    {
      SizeNext(input.abi, direct, input.items, i);
      var itemSize := ComputeItemSize(input.abi, direct, input.items[i]);
      size := size + itemSize;
    }
    assert input.items[..|input.items|] == input.items;
    HostBodySize(input, direct);
    size := size + 8 + |input.data| + 32;
    HostImageSize(input, direct, size);
    if input.pointers {
      size := size + AlignOffset(size) + |input.items| * 8;
    }
  }

  method ComputeItemSize(abi: Abi, direct: bool, item: Item) returns (size: nat)
    ensures size == ItemSize(abi, direct, item)
  {
    size := 1;
    match item
    case Duplicate(_) =>
      if abi.V1? { size := size + 7; }
    case First(a) =>
      if abi.V0? {
        size := size + 1 + 1 + 32 + 8 + 8 + 32 + 1 + 8;
        if !direct { size := size + |a.data|; }
      } else {
        size := size + 1 + 1 + 1 + 4 + 32 + 32 + 8 + 8 + 8;
        if !direct {
          size := size + |a.data| + MAX_PERMITTED_DATA_INCREASE + AlignOffset(|a.data|);
        } else {
          size := size + BPF_ALIGN_OF_U128;
        }
      }
  }

  // ----- Writing items -----

  /** Room for `host` more bytes of buffer and `guest` more of guest memory. */
  ghost predicate Fits(s: Serializer, host: nat, guest: nat)
    requires s.Valid()
    reads s, s.buffer, s.buffer.mem
  {
    && s.buffer.length + host <= s.buffer.mem.Length
    && MM_INPUT_START + |s.Guest()| + guest + s.buffer.mem.Length <= U64_MAX
  }

  lemma Join(g: seq<Byte>, a: seq<Byte>, b: seq<Byte>)
    ensures g + a + b == g + (a + b)
  {
  }

  /** Write two pieces in a row; both get the guest addresses they have in a row. */
  method WriteBoth(s: Serializer, a: seq<Byte>, b: seq<Byte>) returns (aAddr: nat, bAddr: nat)
    requires s.Valid() && Fits(s, |a| + |b|, |a| + |b|)
    modifies s.buffer, s.buffer.mem
    ensures s.Valid() && s.Guest() == old(s.Guest()) + (a + b)
    ensures s.buffer.Contents() == old(s.buffer.Contents()) + (a + b)
    ensures aAddr == MM_INPUT_START + |old(s.Guest())| && bAddr == aAddr + |a|
  {
    Join(s.Guest(), a, b);
    Join(s.buffer.Contents(), a, b);
    aAddr := s.WriteAll(a);
    bAddr := s.WriteAll(b);
  }

  /** Write the lamports and the data length, on word boundaries in version 1. */
  method WriteWords(s: Serializer, m: nat, n: nat) returns (addr: nat)
    requires s.Valid() && Fits(s, 16, 16) && (!s.isLoaderV1 ==> s.buffer.length % 8 == 0)
    modifies s.buffer, s.buffer.mem
    ensures s.Valid() && s.Guest() == old(s.Guest()) + (Word(m) + Word(n))
    ensures s.buffer.Contents() == old(s.buffer.Contents()) + (Word(m) + Word(n))
    ensures addr == MM_INPUT_START + |old(s.Guest())|
  {
    Join(s.Guest(), Word(m), Word(n));
    Join(s.buffer.Contents(), Word(m), Word(n));
    if !s.isLoaderV1 { AddMultiplesOf8(s.buffer.length, 8); }
    addr := s.WriteWord(m);
    var _ := s.WriteWord(n);
  }

  /** What precedes the data: flags, key, in version 1 the owner, and two words. */
  method WritePrefix(s: Serializer, a: Account) returns (keyAddr: nat, ownerAddr: nat, lamportsAddr: nat)
    requires s.Valid() && Fits(s, DataOffset(s.Version()), DataOffset(s.Version()))
    requires !s.isLoaderV1 ==> s.buffer.length % 8 == 0
    modifies s.buffer, s.buffer.mem
    ensures s.Valid() && s.Guest() == old(s.Guest()) + Prefix(s.Version(), a)
    ensures s.buffer.Contents() == old(s.buffer.Contents()) + Prefix(s.Version(), a)
    ensures var base := MM_INPUT_START + |old(s.Guest())|;
      keyAddr == base + KeyOffset(s.Version()) && lamportsAddr == base + LamportsOffset(s.Version())
      && (!s.isLoaderV1 ==> ownerAddr == base + OwnerOffset(V1, |a.data|))
  {
    ghost var guest, contents, start := s.Guest(), s.buffer.Contents(), s.buffer.length;
    ghost var words := Word(a.lamports) + Word(|a.data|);
    var flags := [NON_DUP_MARKER, Bit(a.isSigner), Bit(a.isWritable)]
                 + if s.isLoaderV1 then [] else [Bit(a.isExecutable), 0, 0, 0, 0];
    ghost var head := flags + a.key;
    var _, keyAt := WriteBoth(s, flags, a.key);
    keyAddr, ownerAddr := keyAt, 0;
    if !s.isLoaderV1 {
      ownerAddr := s.WriteAll(a.owner);
      AlignedAfter(start, s.buffer.length, 72);
      Join(guest, head, a.owner);
      Join(contents, head, a.owner);
      head := head + a.owner;
    }
    lamportsAddr := WriteWords(s, a.lamports, |a.data|);
    Join(guest, head, words);
    Join(contents, head, words);
    PrefixParts(s.Version(), a, head);
  }

  lemma AlignedAfter(start: nat, after: nat, n: nat)
    requires start % 8 == 0 && n % 8 == 0 && after == start + n
    ensures after % 8 == 0
  {
  }

  lemma PrefixParts(abi: Abi, a: Account, head: seq<Byte>)
    requires head == [NON_DUP_MARKER, Bit(a.isSigner), Bit(a.isWritable)]
                     + (if abi.V0? then [] else [Bit(a.isExecutable), 0, 0, 0, 0])
                     + a.key + (if abi.V0? then [] else a.owner)
    ensures Prefix(abi, a) == head + (Word(a.lamports) + Word(|a.data|))
  {
    var flags := [NON_DUP_MARKER, Bit(a.isSigner), Bit(a.isWritable)]
      + if abi.V0? then [] else [Bit(a.isExecutable), 0, 0, 0, 0];
    if abi.V0? {
      assert head == flags + a.key;
    } else {
      assert flags == [NON_DUP_MARKER, Bit(a.isSigner), Bit(a.isWritable), Bit(a.isExecutable), 0, 0, 0, 0];
    }
    Join(head, Word(a.lamports), Word(|a.data|));
  }

  lemma HostDataAligned(direct: bool, len: nat)
    ensures HostDataSize(V1, direct, len) % 8 == 0
  {
    if !direct {
      AlignOffsetAligns(len);
      AddMultiplesOf8(len + AlignOffset(len), MAX_PERMITTED_DATA_INCREASE);
    }
  }

  lemma AlignedAfterData(start: nat, after: nat, direct: bool, len: nat)
    requires start % 8 == 0 && after == start + DataOffset(V1) + HostDataSize(V1, direct, len)
    ensures after % 8 == 0
  {
    HostDataAligned(direct, len);
    AddMultiplesOf8(start, DataOffset(V1));
    AddMultiplesOf8(start + DataOffset(V1), HostDataSize(V1, direct, len));
  }

  /** What follows the data: in version 0 owner and executable flag, then the
      unused rent epoch. */
  method WriteSuffix(s: Serializer, a: Account) returns (ownerAddr: nat)
    requires s.Valid() && Fits(s, SuffixSize(s.Version()), SuffixSize(s.Version()))
    requires !s.isLoaderV1 ==> s.buffer.length % 8 == 0
    modifies s.buffer, s.buffer.mem
    ensures s.Valid() && s.Guest() == old(s.Guest()) + Suffix(s.Version(), a)
    ensures s.buffer.Contents() == old(s.buffer.Contents()) + Suffix(s.Version(), a)
    ensures s.isLoaderV1 ==> ownerAddr == MM_INPUT_START + |old(s.Guest())|
  {
    ownerAddr := 0;
    if s.isLoaderV1 {
      ghost var guest, contents := s.Guest(), s.buffer.Contents();
      var executable := [Bit(a.isExecutable)];
      var ownerAt, _ := WriteBoth(s, a.owner, executable);
      ownerAddr := ownerAt;
      var _ := s.WriteWord(U64_MAX);
      Join(guest, a.owner + executable, Word(U64_MAX));
      Join(contents, a.owner + executable, Word(U64_MAX));
    } else {
      var _ := s.WriteWord(U64_MAX);
    }
  }

  lemma JoinItem(g: seq<Byte>, prefix: seq<Byte>, data: seq<Byte>, zeros: seq<Byte>, suffix: seq<Byte>)
    ensures g + prefix + data + zeros + suffix == g + (prefix + data + zeros + suffix)
  {
  }

  lemma JoinHost(g: seq<Byte>, prefix: seq<Byte>, data: seq<Byte>, suffix: seq<Byte>)
    ensures g + prefix + data + suffix == g + (prefix + data + suffix)
  {
  }

  method WriteFirst(s: Serializer, a: Account, program: Key) returns (m: Metadata)
    requires s.Valid() && Fits(s, ItemSize(s.Version(), s.Direct(), First(a)), |ItemImage(s.Version(), First(a))|)
    requires !s.isLoaderV1 ==> s.buffer.length % 8 == 0
    modifies s, s.buffer, s.buffer.mem
    ensures s.Valid() && s.Guest() == old(s.Guest()) + ItemImage(s.Version(), First(a))
    ensures s.buffer.Contents() == old(s.buffer.Contents()) + HostItem(s.Version(), s.Direct(), First(a))
    ensures m == MetadataAt(s.Version(), a, |old(s.Guest())|)
  {
    ghost var guest, contents, start := s.Guest(), s.buffer.Contents(), s.buffer.length;
    var keyAddr, ownerAddr, lamportsAddr := WritePrefix(s, a);
    var dataAddr := s.WriteAccount(a, program);
    if !s.isLoaderV1 { AlignedAfterData(start, s.buffer.length, s.Direct(), |a.data|); }
    var ownerAt := WriteSuffix(s, a);
    m := Metadata(|a.data|, dataAddr, keyAddr, lamportsAddr, if s.isLoaderV1 then ownerAt else ownerAddr);
    JoinItem(guest, Prefix(s.Version(), a), a.data, Zeros(Slack(s.Version(), |a.data|)), Suffix(s.Version(), a));
    JoinHost(contents, Prefix(s.Version(), a), HostData(s.Version(), s.Direct(), a.data), Suffix(s.Version(), a));
  }

  method WriteItem(s: Serializer, item: Item, program: Key, metadata: seq<Metadata>) returns (m: Metadata)
    requires s.Valid() && Fits(s, ItemSize(s.Version(), s.Direct(), item), |ItemImage(s.Version(), item)|)
    requires !s.isLoaderV1 ==> s.buffer.length % 8 == 0
    requires item.Duplicate? ==> item.position < |metadata|
    modifies s, s.buffer, s.buffer.mem
    ensures s.Valid() && s.Guest() == old(s.Guest()) + ItemImage(s.Version(), item)
    ensures s.buffer.Contents() == old(s.buffer.Contents()) + HostItem(s.Version(), s.Direct(), item)
    ensures m ==
      if item.Duplicate? then metadata[item.position] else MetadataAt(s.Version(), item.account, |old(s.Guest())|)
  {
    match item
    case Duplicate(position) =>
      m := metadata[position];
      var _ := s.WriteAll([position % 256] + if s.isLoaderV1 then [] else Zeros(7));
    case First(a) =>
      m := WriteFirst(s, a, program);
  }

  lemma ItemSizeAligned(direct: bool, item: Item)
    ensures ItemSize(V1, direct, item) % 8 == 0
  {
    if item.First? {
      HostDataAligned(direct, |item.account.data|);
      AlignedAfter(HostDataSize(V1, direct, |item.account.data|), ItemSize(V1, direct, item), 96);
    }
  }

  lemma {:induction false} HostItemsAligned(direct: bool, items: seq<Item>)
    ensures |HostItems(V1, direct, items)| % 8 == 0
  {
    if items != [] {
      var init, item := items[..|items| - 1], items[|items| - 1];
      HostItemsAligned(direct, init);
      ItemSizeAligned(direct, item);
      assert items[..|items| - 1] == init && items[..|items|] == items;
      SizeNext(V1, direct, items, |items| - 1);
      AlignedAfter(|HostItems(V1, direct, init)|, |HostItems(V1, direct, items)|, ItemSize(V1, direct, item));
    }
  }

  lemma HostItemsGrow(abi: Abi, direct: bool, items: seq<Item>, i: nat)
    requires i < |items|
    ensures |HostItems(abi, direct, items[..i])| <= |HostItems(abi, direct, items[..i + 1])|
  {
    HostItemsNext(abi, direct, items, i);
  }

  lemma {:induction false} HostItemsMonotone(abi: Abi, direct: bool, items: seq<Item>, i: nat)
    requires i <= |items|
    ensures |HostItems(abi, direct, items[..i])| <= |HostItems(abi, direct, items)|
    decreases |items| - i
  {
    if i < |items| {
      HostItemsGrow(abi, direct, items, i);
      HostItemsMonotone(abi, direct, items, i + 1);
    } else {
      assert items[..i] == items;
    }
  }

  /** The count of accounts and every account, each with its addresses. */
  method WriteItems(s: Serializer, items: seq<Item>, program: Key) returns (metadata: seq<Metadata>)
    requires s.Valid() && s.Guest() == [] && s.buffer.Contents() == [] && WellFormed(items)
    requires Fits(s, 8 + |HostItems(s.Version(), s.Direct(), items)|, 8 + |ItemsImage(s.Version(), items)|)
    modifies s, s.buffer, s.buffer.mem
    ensures s.Valid() && s.Guest() == Word(|items|) + ItemsImage(s.Version(), items)
    ensures s.buffer.Contents() == Word(|items|) + HostItems(s.Version(), s.Direct(), items)
    ensures metadata == AllMetadata(s.Version(), items)
  {
    var _ := s.WriteWord(|items|);
    metadata := [];
    AddNone(Word(|items|));
    for i := 0 to |items|
      invariant s.Valid() && Written(s, items, i, metadata)
    {
      metadata := WriteNextItem(s, items, i, program, metadata);
    }
    assert items[..|items|] == items;
  }

  /** The first `i` items are written, to the guest and to the host. */
  ghost predicate Written(s: Serializer, items: seq<Item>, i: nat, metadata: seq<Metadata>)
    requires s.Valid() && i <= |items|
    reads s, s.buffer, s.buffer.mem
  {
    && s.Guest() == Word(|items|) + ItemsImage(s.Version(), items[..i])
    && s.buffer.Contents() == Word(|items|) + HostItems(s.Version(), s.Direct(), items[..i])
    && WellFormed(items[..i]) && metadata == AllMetadata(s.Version(), items[..i])
  }

  method WriteNextItem(s: Serializer, items: seq<Item>, i: nat, program: Key, metadata: seq<Metadata>)
    returns (extended: seq<Metadata>)
    requires s.Valid() && WellFormed(items) && i < |items| && Written(s, items, i, metadata)
    requires 8 + |HostItems(s.Version(), s.Direct(), items)| <= s.buffer.mem.Length
    requires MM_INPUT_START + 8 + |ItemsImage(s.Version(), items)| + s.buffer.mem.Length <= U64_MAX
    modifies s, s.buffer, s.buffer.mem
    ensures s.Valid() && Written(s, items, i + 1, extended)
  {
    ghost var abi, direct := s.Version(), s.Direct();
    RoomForItem(abi, direct, items, i, s.buffer.mem.Length);
    assert |s.Guest()| == 8 + |ItemsImage(abi, items[..i])|;
    assert s.buffer.length == 8 + |HostItems(abi, direct, items[..i])|;
    var m := WriteItem(s, items[i], program, metadata);
    extended := metadata + [m];
    WellFormedPrefix(items, i + 1);
    ExtendImages(abi, direct, items, i);
    AllMetadataNext(abi, items, i);
  }

  lemma AddNone(s: seq<Byte>)
    ensures s + [] == s && [] + s == s
  {
  }

  lemma RoomForItem(abi: Abi, direct: bool, items: seq<Item>, i: nat, capacity: nat)
    requires i < |items|
    requires 8 + |HostItems(abi, direct, items)| <= capacity
    ensures 8 + |HostItems(abi, direct, items[..i])| + ItemSize(abi, direct, items[i]) <= capacity
    ensures |ItemsImage(abi, items[..i])| + |ItemImage(abi, items[i])| <= |ItemsImage(abi, items)|
    ensures abi.V1? ==> (8 + |HostItems(V1, direct, items[..i])|) % 8 == 0
  {
    ItemsImageNext(abi, items, i);
    ItemsImageMonotone(abi, items, i + 1);
    SizeNext(abi, direct, items, i);
    HostItemsMonotone(abi, direct, items, i + 1);
    if abi.V1? {
      HostItemsAligned(direct, items[..i]);
      AlignedAfter(|HostItems(V1, direct, items[..i])|, 8 + |HostItems(V1, direct, items[..i])|, 8);
    }
  }

  lemma ExtendImages(abi: Abi, direct: bool, items: seq<Item>, i: nat)
    requires i < |items|
    ensures Word(|items|) + ItemsImage(abi, items[..i]) + ItemImage(abi, items[i]) ==
      Word(|items|) + ItemsImage(abi, items[..i + 1])
    ensures Word(|items|) + HostItems(abi, direct, items[..i]) + HostItem(abi, direct, items[i])
         == Word(|items|) + HostItems(abi, direct, items[..i + 1])
  {
    ItemsImageNext(abi, items, i);
    HostItemsNext(abi, direct, items, i);
    Join(Word(|items|), ItemsImage(abi, items[..i]), ItemImage(abi, items[i]));
    Join(Word(|items|), HostItems(abi, direct, items[..i]), HostItem(abi, direct, items[i]));
  }

  // ----- The whole serialization -----

  /** The instruction data and the program's key. */
  method WriteTail(s: Serializer, data: seq<Byte>, programId: Key) returns (dataAddr: nat)
    requires s.Valid() && Fits(s, 40 + |data|, 40 + |data|) && (!s.isLoaderV1 ==> s.buffer.length % 8 == 0)
    modifies s.buffer, s.buffer.mem
    ensures s.Valid() && s.Guest() == old(s.Guest()) + (Word(|data|) + data + programId)
    ensures s.buffer.Contents() == old(s.buffer.Contents()) + (Word(|data|) + data + programId)
    ensures dataAddr == MM_INPUT_START + |old(s.Guest())| + 8
  {
    JoinHost(s.Guest(), Word(|data|), data, programId);
    JoinHost(s.buffer.Contents(), Word(|data|), data, programId);
    var _ := s.WriteWord(|data|);
    dataAddr := s.WriteAll(data);
    var _ := s.WriteAll(programId);
  }

  /** One word per account, the address of its data. */
  method WritePointers(s: Serializer, metadata: seq<Metadata>)
    requires s.Valid() && !s.isLoaderV1 && s.buffer.length % 8 == 0
    requires Fits(s, |metadata| * 8, |metadata| * 8)
    modifies s.buffer, s.buffer.mem
    ensures s.Valid() && s.Guest() == old(s.Guest()) + PointerWords(metadata)
    ensures s.buffer.Contents() == old(s.buffer.Contents()) + PointerWords(metadata)
  {
    ghost var guest, contents := s.Guest(), s.buffer.Contents();
    AddNone(guest);
    AddNone(contents);
    for i := 0 to |metadata|
      invariant s.Valid() && s.Guest() == guest + PointerWords(metadata[..i])
      invariant s.buffer.Contents() == contents + PointerWords(metadata[..i])
      invariant s.buffer.length % 8 == 0
    {
      PointerWordsLength(metadata[..i]);
      NextPointer(metadata, i, guest);
      NextPointer(metadata, i, contents);
      WritePointer(s, metadata[i].vmDataAddr);
    }
    assert metadata[..|metadata|] == metadata;
  }

  method WritePointer(s: Serializer, addr: nat)
    requires s.Valid() && Fits(s, 8, 8) && s.buffer.length % 8 == 0
    modifies s.buffer, s.buffer.mem
    ensures s.Valid() && s.Guest() == old(s.Guest()) + Word(addr)
    ensures s.buffer.Contents() == old(s.buffer.Contents()) + Word(addr) && s.buffer.length % 8 == 0
  {
    AddMultiplesOf8(s.buffer.length, 8);
    var _ := s.WriteWord(addr);
  }

  lemma NextPointer(metadata: seq<Metadata>, i: nat, bytes: seq<Byte>)
    requires i < |metadata|
    ensures |PointerWords(metadata[..i + 1])| == |PointerWords(metadata[..i])| + 8
    ensures bytes + PointerWords(metadata[..i]) + Word(metadata[i].vmDataAddr) ==
      bytes + PointerWords(metadata[..i + 1])
  {
    assert metadata[..i + 1][..i] == metadata[..i];
    Join(bytes, PointerWords(metadata[..i]), Word(metadata[i].vmDataAddr));
  }

  datatype InstructionError = MaxAccountsExceeded

  datatype Serialized = Serialized(buffer: seq<Byte>, regions: seq<Region>, metadata: seq<Metadata>,
                                   instructionDataAddr: nat)

  /** The result of serializing `input`. Only the host buffer depends on the
      layout: the guest image, the addresses and the metadata do not. */
  ghost predicate IsSerialized(input: Input, direct: bool, out: Serialized)
    requires WellFormed(input.items)
  {
    && out.buffer == HostImage(input, direct)
    && out.regions != [] && InOrder(out.regions, |out.buffer|, MM_INPUT_START + |Image(input)|)
    && Placed(out.regions, out.buffer) == Image(input)
    && out.metadata == AllMetadata(input.abi, input.items)
    && out.instructionDataAddr == MM_INPUT_START + 8 + |ItemsImage(input.abi, input.items)| + 8
    && (input.abi.V1? ==> forall i :: 0 <= i < |out.regions| && out.regions[i].host.InBuffer? ==>
          out.regions[i].host.offset % 8 == out.regions[i].vmAddr % 8)
  }

  /** Any two layouts give the guest the same memory at the same addresses; without
      direct mapping, that memory is the buffer itself, byte for byte. */
  lemma OneGuestImage(input: Input, directA: bool, a: Serialized, directB: bool, b: Serialized)
    requires WellFormed(input.items)
    requires IsSerialized(input, directA, a) && IsSerialized(input, directB, b)
    ensures Placed(a.regions, a.buffer) == Placed(b.regions, b.buffer)
    ensures a.metadata == b.metadata && a.instructionDataAddr == b.instructionDataAddr
    ensures !directA ==> Placed(b.regions, b.buffer) == a.buffer
  {
    if !directA {
      HostImageIsImage(input);
    }
  }

  lemma AlignOffsetDepends(a: nat, b: nat)
    requires a % 8 == b % 8
    ensures AlignOffset(a) == AlignOffset(b)
  {
    AlignOffsetAligns(a);
    AlignOffsetAligns(b);
  }

  /** The padding before the account pointers is the same in every layout. */
  lemma SamePadding(input: Input, direct: bool)
    requires input.abi.V1?
    ensures AlignOffset(|HostBody(input, direct)|) == AlignOffset(|Body(input)|)
  {
    ItemsAreAligned(input.items);
    HostItemsAligned(direct, input.items);
    var rest := 48 + |input.data|;
    SameRemainder(|HostItems(V1, direct, input.items)|, |ItemsImage(V1, input.items)|, rest);
    AlignOffsetDepends(|HostItems(V1, direct, input.items)| + rest, |ItemsImage(V1, input.items)| + rest);
    assert |HostBody(input, direct)| == |HostItems(V1, direct, input.items)| + rest;
    assert |Body(input)| == |ItemsImage(V1, input.items)| + rest;
  }

  lemma SameRemainder(a: nat, b: nat, k: nat)
    requires a % 8 == 0 && b % 8 == 0
    ensures (a + k) % 8 == (b + k) % 8
  {
  }

  method WriteBody(s: Serializer, input: Input) returns (metadata: seq<Metadata>, dataAddr: nat)
    requires s.Valid() && s.Guest() == [] && s.buffer.Contents() == [] && WellFormed(input.items)
    requires s.Version() == input.abi
    requires Fits(s, |HostBody(input, s.Direct())|, |Body(input)|)
    modifies s, s.buffer, s.buffer.mem
    ensures s.Valid() && s.Guest() == Body(input) && s.buffer.Contents() == HostBody(input, s.Direct())
    ensures metadata == AllMetadata(input.abi, input.items)
    ensures dataAddr == MM_INPUT_START + 8 + |ItemsImage(input.abi, input.items)| + 8
  {
    ghost var direct := s.Direct();
    HostBodySize(input, direct);
    metadata := WriteItems(s, input.items, input.programId);
    if !s.isLoaderV1 {
      HostItemsAligned(direct, input.items);
      AlignedAfter(|HostItems(V1, direct, input.items)|, s.buffer.length, 8);
    }
    dataAddr := WriteTail(s, input.data, input.programId);
    JoinHost(Word(|input.items|) + ItemsImage(input.abi, input.items), Word(|input.data|), input.data, input.programId);
    JoinHost(Word(|input.items|) + HostItems(input.abi, direct, input.items), Word(|input.data|), input.data,
      input.programId);
  }

  /** Pad to a word boundary and add the account pointers. */
  method WritePointerArray(s: Serializer, input: Input, metadata: seq<Metadata>, padding: nat)
    requires s.Valid() && !s.isLoaderV1 && input.abi.V1? && WellFormed(input.items) && input.pointers
    requires s.Guest() == Body(input) && s.buffer.Contents() == HostBody(input, s.Direct())
    requires padding == AlignOffset(|HostBody(input, s.Direct())|) && metadata == AllMetadata(V1, input.items)
    requires |HostImage(input, s.Direct())| <= s.buffer.mem.Length
    requires MM_INPUT_START + |Image(input)| + s.buffer.mem.Length <= U64_MAX
    modifies s.buffer, s.buffer.mem
    ensures s.Valid() && s.Guest() == Image(input) && s.buffer.Contents() == HostImage(input, s.Direct())
  {
    SamePadding(input, s.Direct());
    WithPointersLength(Body(input), metadata);
    WithPointersLength(HostBody(input, s.Direct()), metadata);
    ghost var start := s.buffer.length;
    s.Fill(padding);
    AlignedAfterPadding(start, s.buffer.length);
    WritePointers(s, metadata);
  }

  lemma AlignedAfterPadding(start: nat, after: nat)
    requires after == start + AlignOffset(start)
    ensures after % 8 == 0
  {
    AlignOffsetAligns(start);
  }

  /** `serialize_parameters`. */
  method Serialize(input: Input, virtualAddressSpaceAdjustments: bool, accountDataDirectMapping: bool)
    returns (r: Result<Serialized, InstructionError>)
    requires WellFormed(input.items) && |input.data| <= U64_MAX && (input.pointers ==> input.abi.V1?)
    requires MM_INPUT_START + |Image(input)| +
      |HostImage(input, virtualAddressSpaceAdjustments && accountDataDirectMapping)| <= U64_MAX
    ensures |input.items| > MAX_ACCOUNTS_PER_INSTRUCTION ==> r == Err(MaxAccountsExceeded)
    ensures |input.items| <= MAX_ACCOUNTS_PER_INSTRUCTION ==>
      r.Ok? && IsSerialized(input, virtualAddressSpaceAdjustments && accountDataDirectMapping, r.value)
  {
    if |input.items| > MAX_ACCOUNTS_PER_INSTRUCTION { return Err(MaxAccountsExceeded); }
    var direct := virtualAddressSpaceAdjustments && accountDataDirectMapping;
    var size := ComputeSize(input, direct);
    var s := new Serializer(size, input.abi.V0?, virtualAddressSpaceAdjustments, accountDataDirectMapping);
    var metadata, dataAddr := WriteInput(s, input);
    GuestLength(s.Current());
    s.Finish();
    return Ok(Serialized(s.buffer.Contents(), s.regions, metadata, dataAddr));
  }

  method WriteInput(s: Serializer, input: Input) returns (metadata: seq<Metadata>, dataAddr: nat)
    requires s.Valid() && s.Guest() == [] && s.buffer.Contents() == [] && WellFormed(input.items)
    requires s.Version() == input.abi && (input.pointers ==> input.abi.V1?)
    requires |HostImage(input, s.Direct())| <= s.buffer.mem.Length
    requires MM_INPUT_START + |Image(input)| + s.buffer.mem.Length <= U64_MAX
    modifies s, s.buffer, s.buffer.mem
    ensures s.Valid() && s.Guest() == Image(input) && s.buffer.Contents() == HostImage(input, s.Direct())
    ensures metadata == AllMetadata(input.abi, input.items)
    ensures dataAddr == MM_INPUT_START + 8 + |ItemsImage(input.abi, input.items)| + 8
  {
    ImageSizes(input, s.Direct());
    metadata, dataAddr := WriteBody(s, input);
    if input.pointers {
      WritePointerArray(s, input, metadata, AlignOffset(s.buffer.length));
    }
  }

  lemma ImageSizes(input: Input, direct: bool)
    requires WellFormed(input.items)
    ensures |Body(input)| <= |Image(input)| && |HostBody(input, direct)| <= |HostImage(input, direct)|
  {
    WithPointersLength(Body(input), AllMetadata(input.abi, input.items));
    WithPointersLength(HostBody(input, direct), AllMetadata(input.abi, input.items));
  }
}
