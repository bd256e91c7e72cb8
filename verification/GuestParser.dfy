/** The parser a version 0 program runs over its input: it inverts the
    serializer. */
module GuestParser {
  import opened AlignedMemories
  import opened Words
  import opened GuestImages

  datatype AccountInfo = AccountInfo(
    key: seq<Byte>,
    isSigner: bool,
    isWritable: bool,
    lamports: nat,
    data: seq<Byte>,
    owner: seq<Byte>,
    executable: bool,
    unused: nat
  )

  /** What a program should see of an account. */
  function Info(a: Account): AccountInfo {
    AccountInfo(a.key, a.isSigner, a.isWritable, a.lamports, a.data, a.owner, a.isExecutable, U64_MAX)
  }

  /** What a program should see of its accounts: repetitions are clones. */
  function Infos(items: seq<Item>): (r: seq<AccountInfo>)
    requires WellFormed(items)
    ensures |r| == |items|
  {
    if items == [] then []
    else
      WellFormedPrefix(items, |items| - 1);
      var rest := Infos(items[..|items| - 1]);
      rest + [match items[|items| - 1]
              case First(a) => Info(a)
              case Duplicate(p) => rest[p]]
  }

  function ReadWord(bytes: seq<Byte>, at: nat): nat
    requires at + 8 <= |bytes|
  {
    FromLittleEndian(bytes[at..at + 8])
  }

  lemma SliceOfConcat(a: seq<Byte>, b: seq<Byte>, c: seq<Byte>)
    ensures (a + b + c)[|a|..|a| + |b|] == b
  {
  }

  /** `part` stands at `at` in `bytes`. */
  predicate Holds(bytes: seq<Byte>, at: nat, part: seq<Byte>) {
    at + |part| <= |bytes| && bytes[at..at + |part|] == part
  }

  lemma HoldsParts(bytes: seq<Byte>, at: nat, a: seq<Byte>, b: seq<Byte>)
    requires Holds(bytes, at, a + b)
    ensures Holds(bytes, at, a) && Holds(bytes, at + |a|, b)
  {
    var whole := bytes[at..at + |a + b|];
    assert whole[..|a|] == a && whole[|a|..] == b;
    assert bytes[at..at + |a|] == whole[..|a|];
    assert bytes[at + |a|..at + |a| + |b|] == whole[|a|..];
  }

  lemma HoldsWord(bytes: seq<Byte>, at: nat, n: nat)
    requires Holds(bytes, at, Word(n)) && n <= U64_MAX
    ensures at + 8 <= |bytes| && ReadWord(bytes, at) == n
  {
    WordInverse(n);
  }

  /** Where the fields of an account in the image are. */
  lemma AccountFields(bytes: seq<Byte>, at: nat, a: Account)
    requires Holds(bytes, at, ItemImage(V0, First(a)))
    ensures Holds(bytes, at, [NON_DUP_MARKER, Bit(a.isSigner), Bit(a.isWritable)])
    ensures Holds(bytes, at + 3, a.key)
    ensures Holds(bytes, at + 35, Word(a.lamports))
    ensures Holds(bytes, at + 43, Word(|a.data|))
    ensures Holds(bytes, at + 51, a.data)
    ensures Holds(bytes, at + 51 + |a.data|, a.owner)
    ensures Holds(bytes, at + 83 + |a.data|, [Bit(a.isExecutable)])
    ensures Holds(bytes, at + 84 + |a.data|, Word(U64_MAX))
    ensures |ItemImage(V0, First(a))| == 92 + |a.data|
  {
    var flags := [NON_DUP_MARKER, Bit(a.isSigner), Bit(a.isWritable)];
    var front := Prefix(V0, a) + a.data;
    assert front + Zeros(0) == front;
    HoldsParts(bytes, at, front, Suffix(V0, a));
    HoldsParts(bytes, at, Prefix(V0, a), a.data);
    HoldsParts(bytes, at, flags + a.key + Word(a.lamports), Word(|a.data|));
    HoldsParts(bytes, at, flags + a.key, Word(a.lamports));
    HoldsParts(bytes, at, flags, a.key);
    HoldsParts(bytes, at + |front|, a.owner + [Bit(a.isExecutable)], Word(U64_MAX));
    HoldsParts(bytes, at + |front|, a.owner, [Bit(a.isExecutable)]);
  }

  lemma FlagsAt(bytes: seq<Byte>, at: nat, x: Byte, y: Byte, z: Byte)
    requires Holds(bytes, at, [x, y, z])
    ensures bytes[at] == x && bytes[at + 1] == y && bytes[at + 2] == z
  {
    var part := bytes[at..at + 3];
    assert part[0] == x && part[1] == y && part[2] == z;
  }

  lemma ByteAt(bytes: seq<Byte>, at: nat, x: Byte)
    requires Holds(bytes, at, [x])
    ensures bytes[at] == x
  {
    assert bytes[at..at + 1][0] == x;
  }

  /** One account, read field by field. */
  method ParseAccount(bytes: seq<Byte>, start: nat, ghost a: Account) returns (info: AccountInfo, offset: nat)
    requires Holds(bytes, start, ItemImage(V0, First(a))) && a.lamports <= U64_MAX && |a.data| <= U64_MAX
    ensures info == Info(a) && offset == start + |ItemImage(V0, First(a))|
  {
    AccountFields(bytes, start, a);
    var isSigner, isWritable, key, lamports, dataLen;
    isSigner, isWritable, key, offset := ParseIdentity(bytes, start, a);
    lamports, offset := ParseWord(bytes, offset, a.lamports);
    dataLen, offset := ParseWord(bytes, offset, |a.data|);
    var data := bytes[offset..offset + dataLen];
    offset := offset + dataLen;
    var owner, executable, unused;
    owner, executable, offset := ParseOwner(bytes, offset, a);
    unused, offset := ParseWord(bytes, offset, U64_MAX);
    info := AccountInfo(key, isSigner, isWritable, lamports, data, owner, executable, unused);
  }

  method ParseIdentity(bytes: seq<Byte>, start: nat, ghost a: Account)
    returns (isSigner: bool, isWritable: bool, key: seq<Byte>, offset: nat)
    requires Holds(bytes, start, [NON_DUP_MARKER, Bit(a.isSigner), Bit(a.isWritable)]) && Holds(bytes, start + 3, a.key)
    ensures isSigner == a.isSigner && isWritable == a.isWritable && key == a.key && offset == start + 35
  {
    FlagsAt(bytes, start, NON_DUP_MARKER, Bit(a.isSigner), Bit(a.isWritable));
    offset := start + 1;
    isSigner := bytes[offset] != 0;
    offset := offset + 1;
    isWritable := bytes[offset] != 0;
    offset := offset + 1;
    key := bytes[offset..offset + 32];
    offset := offset + 32;
  }

  method ParseWord(bytes: seq<Byte>, start: nat, ghost n: nat) returns (word: nat, offset: nat)
    requires Holds(bytes, start, Word(n)) && n <= U64_MAX
    ensures word == n && offset == start + 8
  {
    HoldsWord(bytes, start, n);
    word := ReadWord(bytes, start);
    offset := start + 8;
  }

  method ParseOwner(bytes: seq<Byte>, start: nat, ghost a: Account)
    returns (owner: seq<Byte>, executable: bool, offset: nat)
    requires Holds(bytes, start, a.owner) && Holds(bytes, start + 32, [Bit(a.isExecutable)])
    ensures owner == a.owner && executable == a.isExecutable && offset == start + 33
  {
    owner := bytes[start..start + 32];
    offset := start + 32;
    ByteAt(bytes, offset, Bit(a.isExecutable));
    executable := bytes[offset] != 0;
    offset := offset + 1;
  }

  lemma Regroup(w: seq<Byte>, a: seq<Byte>, item: seq<Byte>, rest: seq<Byte>, n: seq<Byte>, d: seq<Byte>, p: seq<Byte>)
    ensures w + (a + item + rest) + n + d + p == (w + a) + item + (rest + n + d + p)
  {
  }

  /** Where an item stands in the image. */
  lemma ItemInImage(input: Input, i: nat)
    requires i < |input.items|
    ensures Holds(Body(input), 8 + |ItemsImage(input.abi, input.items[..i])|, ItemImage(input.abi, input.items[i]))
  {
    var w, before, item :=
      Word(|input.items|), ItemsImage(input.abi, input.items[..i]), ItemImage(input.abi, input.items[i]);
    var rest := ItemsFrom(input.abi, input.items, i);
    var n := Word(|input.data|);
    Regroup(w, before, item, rest, n, input.data, input.programId);
    SliceOfConcat(w + before, item, rest + n + input.data + input.programId);
  }

  lemma Reassociate(a: seq<Byte>, item: seq<Byte>, rest: seq<Byte>, last: seq<Byte>)
    ensures a + item + rest + last == a + item + (rest + last)
    ensures a + item == a + item + []
  {
  }

  /** What follows item `i` among the items. */
  lemma {:induction false} ItemsFrom(abi: Abi, items: seq<Item>, i: nat) returns (rest: seq<Byte>)
    requires i < |items|
    ensures ItemsImage(abi, items) == ItemsImage(abi, items[..i]) + ItemImage(abi, items[i]) + rest
    decreases |items|
  {
    var init, last := items[..|items| - 1], ItemImage(abi, items[|items| - 1]);
    var before, item := ItemsImage(abi, items[..i]), ItemImage(abi, items[i]);
    if i == |items| - 1 {
      rest := [];
      Reassociate(before, item, [], []);
    } else {
      var r := ItemsFrom(abi, init, i);
      assert init[..i] == items[..i];
      Reassociate(before, item, r, last);
      rest := r + last;
    }
  }

  lemma InfosNext(items: seq<Item>, i: nat)
    requires WellFormed(items) && i < |items| && WellFormed(items[..i]) && WellFormed(items[..i + 1])
    ensures Infos(items[..i + 1]) == Infos(items[..i])
      + [match items[i]
         case First(a) => Info(a)
         case Duplicate(p) => Infos(items[..i])[p]]
  {
    assert items[..i + 1][..i] == items[..i];
  }

  lemma TailInImage(input: Input)
    ensures var at := 8 + |ItemsImage(input.abi, input.items)|;
      && Holds(Body(input), 0, Word(|input.items|))
      && Holds(Body(input), at, Word(|input.data|))
      && Holds(Body(input), at + 8, input.data)
      && Holds(Body(input), at + 8 + |input.data|, input.programId)
  {
    var b := Body(input);
    var items := Word(|input.items|) + ItemsImage(input.abi, input.items);
    assert b[0..|b|] == b;
    HoldsParts(b, 0, items + Word(|input.data|) + input.data, input.programId);
    HoldsParts(b, 0, items + Word(|input.data|), input.data);
    HoldsParts(b, 0, items, Word(|input.data|));
    HoldsParts(b, 0, Word(|input.items|), ItemsImage(input.abi, input.items));
  }

  /** The guest parser of version 0 inverts the serializer: for any accounts, data
      lengths and repetitions it recovers the program's key, every field of every
      account and the instruction data. */
  method DeserializeForAbiV0(bytes: seq<Byte>, ghost input: Input)
    returns (programId: seq<Byte>, accounts: seq<AccountInfo>, instructionData: seq<Byte>)
    requires input.abi.V0? && input.Valid() && bytes == Image(input)
    ensures programId == input.programId && instructionData == input.data
    ensures accounts == Infos(input.items)
  {
    TailInImage(input);
    var numAccounts, offset := ParseWord(bytes, 0, |input.items|);
    accounts, offset := ParseItems(bytes, offset, numAccounts, input);
    var dataLen;
    dataLen, offset := ParseWord(bytes, offset, |input.data|);
    instructionData := bytes[offset..offset + dataLen];
    offset := offset + dataLen;
    programId := bytes[offset..offset + 32];
  }

  method ParseItems(bytes: seq<Byte>, start: nat, numAccounts: nat, ghost input: Input)
    returns (accounts: seq<AccountInfo>, offset: nat)
    requires input.abi.V0? && input.Valid() && bytes == Body(input) && numAccounts == |input.items| && start == 8
    ensures accounts == Infos(input.items) && offset == 8 + |ItemsImage(V0, input.items)|
  {
    accounts, offset := [], start;
    for i := 0 to numAccounts
      invariant Parsed(input, i, accounts, offset)
    {
      accounts, offset := ParseNext(bytes, accounts, offset, input, i);
    }
    assert input.items[..numAccounts] == input.items;
  }

  /** The first `i` items are parsed. */
  ghost predicate Parsed(input: Input, i: nat, accounts: seq<AccountInfo>, offset: nat)
    requires i <= |input.items|
  {
    && offset == 8 + |ItemsImage(V0, input.items[..i])|
    && WellFormed(input.items[..i]) && accounts == Infos(input.items[..i])
  }

  method ParseNext(bytes: seq<Byte>, accounts: seq<AccountInfo>, start: nat, ghost input: Input, ghost i: nat)
    returns (extended: seq<AccountInfo>, offset: nat)
    requires input.abi.V0? && input.Valid() && bytes == Body(input) && i < |input.items|
    requires Parsed(input, i, accounts, start)
    ensures Parsed(input, i + 1, extended, offset)
  {
    ItemInImage(input, i);
    offset, extended := ParseItem(bytes, start, accounts, input.items[i]);
    WellFormedPrefix(input.items, i + 1);
    InfosNext(input.items, i);
    ItemsImageNext(V0, input.items, i);
  }

  method ParseItem(bytes: seq<Byte>, start: nat, accounts: seq<AccountInfo>, ghost item: Item)
    returns (offset: nat, extended: seq<AccountInfo>)
    requires Holds(bytes, start, ItemImage(V0, item))
    requires item.First? ==> item.account.lamports <= U64_MAX && |item.account.data| <= U64_MAX
    requires item.Duplicate? ==> item.position < |accounts| && item.position < NON_DUP_MARKER
    ensures offset == start + |ItemImage(V0, item)|
    ensures extended == accounts
      + [match item
         case First(a) => Info(a)
         case Duplicate(p) => accounts[p]]
  {
    Marker(bytes, start, item);
    var dupInfo := bytes[start];
    if dupInfo == NON_DUP_MARKER {
      var info;
      info, offset := ParseAccount(bytes, start, item.account);
      extended := accounts + [info];
    } else {
      offset := start + 1;
      extended := accounts + [accounts[dupInfo]];
    }
  }

  /** The first byte of an item tells a repetition from a first occurrence. */
  lemma Marker(bytes: seq<Byte>, at: nat, item: Item)
    requires Holds(bytes, at, ItemImage(V0, item))
    requires item.Duplicate? ==> item.position < NON_DUP_MARKER
    ensures at < |bytes| && bytes[at] == if item.First? then NON_DUP_MARKER else item.position
  {
    match item
    case First(a) =>
      AccountFields(bytes, at, a);
      FlagsAt(bytes, at, NON_DUP_MARKER, Bit(a.isSigner), Bit(a.isWritable));
    case Duplicate(p) =>
      assert ItemImage(V0, item) == [p];
      ByteAt(bytes, at, p);
  }
}
