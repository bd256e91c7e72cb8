/** The bytes a program sees as its input, for both ABIs, written down once and
    without reference to how the serializer lays them out in host memory. */
module GuestImages {
  import opened AlignedMemories
  import opened Words

  // ----- Little-endian words -----

  function LittleEndian(n: nat, width: nat): (r: seq<Byte>)
    ensures |r| == width
    decreases width
  {
    if width == 0 then [] else [n % 256] + LittleEndian(n / 256, width - 1)
  }

  function FromLittleEndian(s: seq<Byte>): nat {
    if s == [] then 0 else s[0] + 256 * FromLittleEndian(s[1..])
  }

  function Pow256(k: nat): nat {
    if k == 0 then 1 else 256 * Pow256(k - 1)
  }

  lemma {:induction false} LittleEndianInverse(n: nat, width: nat)
    requires n < Pow256(width)
    ensures FromLittleEndian(LittleEndian(n, width)) == n
    decreases width
  {
    if width > 0 {
      LittleEndianInverse(n / 256, width - 1);
      assert LittleEndian(n, width)[1..] == LittleEndian(n / 256, width - 1);
    }
  }

  const WORD_SIZE: nat := 8

  /** The bytes of a 64-bit word, lowest first. */
  function Word(n: nat): (r: seq<Byte>)
    ensures |r| == 8
  {
    seq(WORD_SIZE, i requires 0 <= i < WORD_SIZE => LittleEndian(n, WORD_SIZE)[i])
  }

  lemma WordInverse(n: nat)
    requires n <= U64_MAX
    ensures FromLittleEndian(Word(n)) == n
  {
    assert Pow256(8) == U64_MODULUS by {
      assert Pow256(2) == 0x1_0000;
      assert Pow256(4) == 0x1_0000_0000;
      assert Pow256(6) == 0x1_0000_0000_0000;
    }
    LittleEndianInverse(n, WORD_SIZE);
    assert Word(n) == LittleEndian(n, WORD_SIZE);
  }

  // ----- Accounts -----

  type Key = s: seq<Byte> | |s| == 32 witness Repeat(0, 32)

  /** An account as one instruction sees it. */
  datatype Account = Account(
    key: Key,
    owner: Key,
    lamports: nat,
    data: seq<Byte>,
    isSigner: bool,
    isWritable: bool,
    isExecutable: bool,
    isShared: bool
  )

  /** An instruction account, or a repetition of an earlier one. */
  datatype Item = First(account: Account) | Duplicate(position: nat)

  /** Words are 64 bits, and a repetition repeats an earlier first occurrence. */
  ghost predicate WellFormed(items: seq<Item>) {
    forall i :: 0 <= i < |items| ==>
      && (items[i].First? ==> items[i].account.lamports <= U64_MAX && |items[i].account.data| <= U64_MAX)
      && (items[i].Duplicate? ==> items[i].position < i && items[items[i].position].First?)
  }

  lemma WellFormedPrefix(items: seq<Item>, i: nat)
    requires WellFormed(items) && i <= |items|
    ensures WellFormed(items[..i])
  {
  }

  const MM_INPUT_START: nat := 0x4_0000_0000
  const MAX_ACCOUNTS_PER_INSTRUCTION: nat := 255
  const NON_DUP_MARKER: Byte := 255
  const MAX_PERMITTED_DATA_INCREASE: nat := 10240
  const BPF_ALIGN_OF_U128: nat := 8

  datatype Abi = V0 | V1

  function Bit(b: bool): Byte { if b then 1 else 0 }

  function Zeros(n: nat): seq<Byte> { Repeat(0, n) }

  /** How far `n` is from the next multiple of eight (`align_offset`). */
  function AlignOffset(n: nat): (r: nat)
    ensures r < BPF_ALIGN_OF_U128
  {
    if n % BPF_ALIGN_OF_U128 == 0 then 0 else BPF_ALIGN_OF_U128 - n % BPF_ALIGN_OF_U128
  }

  lemma AlignOffsetAligns(n: nat)
    ensures (n + AlignOffset(n)) % BPF_ALIGN_OF_U128 == 0
  {
  }

  /** What precedes the data of an account. */
  function Prefix(abi: Abi, a: Account): (r: seq<Byte>)
    ensures |r| == DataOffset(abi)
  {
    match abi
    case V0 => [NON_DUP_MARKER, Bit(a.isSigner), Bit(a.isWritable)] + a.key + Word(a.lamports) + Word(|a.data|)
    case V1 => [NON_DUP_MARKER, Bit(a.isSigner), Bit(a.isWritable), Bit(a.isExecutable), 0, 0, 0, 0]
               + a.key + a.owner + Word(a.lamports) + Word(|a.data|)
  }

  function DataOffset(abi: Abi): nat { if abi.V0? then 51 else 88 }
  function KeyOffset(abi: Abi): nat { if abi.V0? then 3 else 8 }
  function LamportsOffset(abi: Abi): nat { if abi.V0? then 35 else 72 }

  function OwnerOffset(abi: Abi, len: nat): nat {
    if abi.V0? then 51 + len else 40
  }

  /** The room to grow behind the data, with its alignment. */
  function Slack(abi: Abi, len: nat): nat {
    if abi.V0? then 0 else MAX_PERMITTED_DATA_INCREASE + AlignOffset(len)
  }

  /** What follows the data and its slack. */
  function Suffix(abi: Abi, a: Account): (r: seq<Byte>)
    ensures |r| == SuffixSize(abi)
  {
    match abi
    case V0 => a.owner + [Bit(a.isExecutable)] + Word(U64_MAX)
    case V1 => Word(U64_MAX)
  }

  function SuffixSize(abi: Abi): nat { if abi.V0? then 41 else 8 }

  /** A repetition is the position it repeats, padded to a word in version 1. */
  function DuplicateImage(abi: Abi, position: nat): seq<Byte> {
    [position % 256] + (if abi.V0? then [] else Zeros(7))
  }

  function ItemImage(abi: Abi, item: Item): seq<Byte> {
    match item
    case First(a) => Prefix(abi, a) + a.data + Zeros(Slack(abi, |a.data|)) + Suffix(abi, a)
    case Duplicate(position) => DuplicateImage(abi, position)
  }

  function ItemsImage(abi: Abi, items: seq<Item>): seq<Byte> {
    if items == [] then [] else ItemsImage(abi, items[..|items| - 1]) + ItemImage(abi, items[|items| - 1])
  }

  // ----- Addresses handed to the runtime -----

  datatype Metadata = Metadata(originalDataLen: nat, vmDataAddr: nat, vmKeyAddr: nat, vmLamportsAddr: nat,
                               vmOwnerAddr: nat)

  /** Where the fields of an account are that starts at `at` in the image. */
  function MetadataAt(abi: Abi, a: Account, at: nat): Metadata {
    var base := MM_INPUT_START + at;
    Metadata(|a.data|, base + DataOffset(abi), base + KeyOffset(abi), base + LamportsOffset(abi),
      base + OwnerOffset(abi, |a.data|))
  }

  function AllMetadata(abi: Abi, items: seq<Item>): (r: seq<Metadata>)
    requires WellFormed(items)
    ensures |r| == |items|
  {
    if items == [] then []
    else
      var init := items[..|items| - 1];
      var rest := AllMetadata(abi, init);
      rest + [match items[|items| - 1]
              case First(a) => MetadataAt(abi, a, 8 + |ItemsImage(abi, init)|)
              case Duplicate(p) => rest[p]]
  }

  // ----- The whole input -----

  datatype Input = Input(abi: Abi, items: seq<Item>, data: seq<Byte>, programId: Key, pointers: bool) {
    /** As the instruction context provides it: account pointers exist in version 1 only. */
    ghost predicate Valid() {
      && WellFormed(items) && |items| <= MAX_ACCOUNTS_PER_INSTRUCTION && |data| <= U64_MAX
      && (pointers ==> abi.V1?)
    }
  }

  function PointerWords(metadata: seq<Metadata>): seq<Byte> {
    if metadata == [] then []
    else PointerWords(metadata[..|metadata| - 1]) + Word(metadata[|metadata| - 1].vmDataAddr)
  }

  /** The account pointers follow, on a word boundary. */
  function WithPointers(body: seq<Byte>, metadata: seq<Metadata>): seq<Byte> {
    body + Zeros(AlignOffset(|body|)) + PointerWords(metadata)
  }

  lemma {:induction false} PointerWordsLength(metadata: seq<Metadata>)
    ensures |PointerWords(metadata)| == |metadata| * 8
  {
    if metadata != [] { PointerWordsLength(metadata[..|metadata| - 1]); }
  }

  lemma WithPointersLength(body: seq<Byte>, metadata: seq<Metadata>)
    ensures |WithPointers(body, metadata)| == |body| + AlignOffset(|body|) + |metadata| * 8
  {
    PointerWordsLength(metadata);
  }

  /** Everything up to the account pointers. */
  function Body(input: Input): seq<Byte> {
    Word(|input.items|) + ItemsImage(input.abi, input.items) + Word(|input.data|) + input.data + input.programId
  }

  /** The bytes of the program's input region. */
  function Image(input: Input): seq<Byte>
    requires WellFormed(input.items)
  {
    if input.pointers then WithPointers(Body(input), AllMetadata(input.abi, input.items)) else Body(input)
  }

  lemma AddMultiplesOf8(a: nat, b: nat)
    requires a % 8 == 0 && b % 8 == 0
    ensures (a + b) % 8 == 0
  {
  }

  lemma ItemIsAligned(item: Item)
    ensures |ItemImage(V1, item)| % 8 == 0
  {
    match item
    case Duplicate(_) =>
    case First(a) =>
      var n := |a.data| + AlignOffset(|a.data|);
      AlignOffsetAligns(|a.data|);
      assert |ItemImage(V1, item)| == n + 10336;
      AddMultiplesOf8(n, 10336);
  }

  /** Version 1 keeps every account on a word boundary. */
  lemma {:induction false} ItemsAreAligned(items: seq<Item>)
    ensures |ItemsImage(V1, items)| % 8 == 0
  {
    if items != [] {
      ItemsAreAligned(items[..|items| - 1]);
      ItemIsAligned(items[|items| - 1]);
      AddMultiplesOf8(|ItemsImage(V1, items[..|items| - 1])|, |ItemImage(V1, items[|items| - 1])|);
    }
  }

  lemma ItemsImageNext(abi: Abi, items: seq<Item>, i: nat)
    requires i < |items|
    ensures ItemsImage(abi, items[..i + 1]) == ItemsImage(abi, items[..i]) + ItemImage(abi, items[i])
  {
    assert items[..i + 1][..i] == items[..i];
  }

  lemma AllMetadataNext(abi: Abi, items: seq<Item>, i: nat)
    requires WellFormed(items) && i < |items|
    ensures AllMetadata(abi, items[..i + 1]) == AllMetadata(abi, items[..i])
      + [match items[i]
         case First(a) => MetadataAt(abi, a, 8 + |ItemsImage(abi, items[..i])|)
         case Duplicate(p) => AllMetadata(abi, items[..i])[p]]
  {
    assert items[..i + 1][..i] == items[..i];
  }

  lemma ItemsImageGrows(abi: Abi, items: seq<Item>, i: nat)
    requires i < |items|
    ensures |ItemsImage(abi, items[..i])| <= |ItemsImage(abi, items[..i + 1])|
  {
    ItemsImageNext(abi, items, i);
  }

  lemma {:induction false} ItemsImageMonotone(abi: Abi, items: seq<Item>, i: nat)
    requires i <= |items|
    ensures |ItemsImage(abi, items[..i])| <= |ItemsImage(abi, items)|
    decreases |items| - i
  {
    if i < |items| {
      ItemsImageGrows(abi, items, i);
      ItemsImageMonotone(abi, items, i + 1);
    } else {
      assert items[..i] == items;
    }
  }
}
