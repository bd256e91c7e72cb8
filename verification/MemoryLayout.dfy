/** Host buffer and memory regions under construction, and the guest memory they
    amount to. */
module MemoryLayouts {
  import opened AlignedMemories
  import opened GuestImages

  /** Where the bytes of a region are: in the serialization buffer, or in the
      account itself. */
  datatype Host = InBuffer(offset: nat) | AccountData(bytes: seq<Byte>)

  datatype Region = Region(host: Host, vmAddr: nat, len: nat, writable: bool)

  predicate HasBytes(r: Region, size: nat) {
    match r.host
    case InBuffer(offset) => offset + r.len <= size
    case AccountData(bytes) => r.len <= |bytes|
  }

  function RegionBytes(r: Region, buffer: seq<Byte>): seq<Byte> {
    if !HasBytes(r, |buffer|) then []
    else
      match r.host
      case InBuffer(offset) => buffer[offset..offset + r.len]
      case AccountData(bytes) => bytes[..r.len]
  }

  /** Regions follow one another, within the buffer and below `end`. */
  predicate InOrder(regions: seq<Region>, size: nat, end: nat) {
    if regions == [] then MM_INPUT_START <= end
    else
      var r := regions[|regions| - 1];
      r.vmAddr + r.len <= end && HasBytes(r, size) && InOrder(regions[..|regions| - 1], size, r.vmAddr)
  }

  function Pad(s: seq<Byte>, n: nat): seq<Byte> {
    s + Zeros(if |s| <= n then n - |s| else 0)
  }

  /** Guest memory: each region at its address, zero elsewhere. */
  function Placed(regions: seq<Region>, buffer: seq<Byte>): seq<Byte> {
    if regions == [] then []
    else
      var r := regions[|regions| - 1];
      var at := if r.vmAddr >= MM_INPUT_START then r.vmAddr - MM_INPUT_START else 0;
      Pad(Placed(regions[..|regions| - 1], buffer), at) + RegionBytes(r, buffer)
  }

  lemma {:induction false} PlacedLength(regions: seq<Region>, buffer: seq<Byte>, end: nat)
    requires InOrder(regions, |buffer|, end)
    ensures MM_INPUT_START <= end && |Placed(regions, buffer)| <= end - MM_INPUT_START
    ensures regions != [] ==> var r := regions[|regions| - 1];
      MM_INPUT_START <= r.vmAddr && |Placed(regions, buffer)| == r.vmAddr + r.len - MM_INPUT_START
  {
    if regions != [] {
      PlacedLength(regions[..|regions| - 1], buffer, regions[|regions| - 1].vmAddr);
    }
  }

  lemma PlacedOfMore(regions: seq<Region>, r: Region, buffer: seq<Byte>)
    requires MM_INPUT_START <= r.vmAddr
    ensures Placed(regions + [r], buffer) ==
      Pad(Placed(regions, buffer), r.vmAddr - MM_INPUT_START) + RegionBytes(r, buffer)
  {
    assert (regions + [r])[..|regions|] == regions;
  }

  lemma InOrderOfMore(regions: seq<Region>, r: Region, size: nat, end: nat)
    ensures InOrder(regions + [r], size, end) <==>
      r.vmAddr + r.len <= end && HasBytes(r, size) && InOrder(regions, size, r.vmAddr)
  {
    assert (regions + [r])[..|regions|] == regions;
  }

  lemma {:induction false} InOrderMonotone(regions: seq<Region>, size: nat, end: nat, size': nat, end': nat)
    requires InOrder(regions, size, end) && size <= size' && end <= end'
    ensures InOrder(regions, size', end')
  {
    if regions != [] {
      var r := regions[|regions| - 1];
      InOrderMonotone(regions[..|regions| - 1], size, r.vmAddr, size', r.vmAddr);
    }
  }

  lemma {:induction false} PlacedIgnoresTail(regions: seq<Region>, buffer: seq<Byte>, bytes: seq<Byte>, end: nat)
    requires InOrder(regions, |buffer|, end)
    ensures Placed(regions, buffer + bytes) == Placed(regions, buffer)
  {
    if regions != [] {
      var r := regions[|regions| - 1];
      PlacedIgnoresTail(regions[..|regions| - 1], buffer, bytes, r.vmAddr);
      assert RegionBytes(r, buffer + bytes) == RegionBytes(r, buffer);
    }
  }

  /** The mutable part of a serializer. */
  datatype Layout = Layout(buffer: seq<Byte>, regions: seq<Region>, vaddr: nat, regionStart: nat) {

    predicate Ok() {
      regionStart <= |buffer| && MM_INPUT_START <= vaddr && InOrder(regions, |buffer|, vaddr)
    }

    function Open(): seq<Byte>
      requires Ok()
    {
      buffer[regionStart..]
    }

    function Closed(): seq<Byte>
      requires Ok()
    {
      Pad(Placed(regions, buffer), vaddr - MM_INPUT_START)
    }

    /** What the guest would see if serialization ended here. */
    function Guest(): seq<Byte>
      requires Ok()
    {
      Closed() + Open()
    }

    /** Host and guest addresses agree modulo eight. */
    ghost predicate Aligned() {
      && regionStart % 8 == vaddr % 8
      && forall i :: 0 <= i < |regions| && regions[i].host.InBuffer? ==>
           regions[i].host.offset % 8 == regions[i].vmAddr % 8
    }

    function Append(bytes: seq<Byte>): Layout {
      this.(buffer := buffer + bytes)
    }

    /** Close the open region (`push_region`). */
    function Push(): Layout
      requires regionStart <= |buffer|
    {
      var len := |buffer| - regionStart;
      this.(regions := regions + [Region(InBuffer(regionStart), vaddr, len, true)],
            regionStart := |buffer|, vaddr := vaddr + len)
    }

    /** Shrink the last region to the account data it holds. */
    function Shrink(len: nat, writable: bool): Layout
      requires regions != []
    {
      var last := |regions| - 1;
      this.(regions := regions[last := regions[last].(len := len, writable := writable)])
    }

    /** Map account data directly, reserving `reserved` guest addresses. */
    function Map(data: seq<Byte>, reserved: nat, writable: bool): Layout {
      this.(regions := regions + [Region(AccountData(data), vaddr, |data|, writable)], vaddr := vaddr + reserved)
    }

    /** Leave the first bytes of the open region out of it. */
    function Skip(n: nat): Layout {
      this.(regionStart := regionStart + n)
    }
  }

  lemma GuestLength(l: Layout)
    requires l.Ok()
    ensures |l.Closed()| == l.vaddr - MM_INPUT_START
    ensures |l.Guest()| == l.vaddr - MM_INPUT_START + |l.buffer| - l.regionStart
  {
    PlacedLength(l.regions, l.buffer, l.vaddr);
  }

  lemma AppendGuest(l: Layout, bytes: seq<Byte>)
    requires l.Ok()
    ensures l.Append(bytes).Ok() && l.Append(bytes).Guest() == l.Guest() + bytes
  {
    var after, open, closed := l.Append(bytes), l.Open(), l.Closed();
    assert after.Ok() by { InOrderMonotone(l.regions, |l.buffer|, l.vaddr, |l.buffer + bytes|, l.vaddr); }
    assert after.Closed() == closed by { PlacedIgnoresTail(l.regions, l.buffer, bytes, l.vaddr); }
    assert after.Open() == open + bytes;
    JoinAfter(closed, open, bytes);
  }

  lemma JoinAfter(a: seq<Byte>, b: seq<Byte>, c: seq<Byte>)
    ensures a + (b + c) == a + b + c
  {
  }

  /** Guest memory of a layout whose last region is closed and nothing else open:
      what came before it, the region, and `rest` reserved addresses. */
  lemma ClosedGuest(l: Layout, regions: seq<Region>, r: Region, rest: nat)
    requires l.regions == regions + [r] && l.regionStart == |l.buffer|
    requires InOrder(regions, |l.buffer|, r.vmAddr) && MM_INPUT_START <= r.vmAddr
    requires HasBytes(r, |l.buffer|) && r.vmAddr + r.len + rest == l.vaddr
    ensures l.Ok()
    ensures l.Guest() ==
      Pad(Placed(regions, l.buffer), r.vmAddr - MM_INPUT_START) + RegionBytes(r, l.buffer) + Zeros(rest)
  {
    InOrderOfMore(regions, r, |l.buffer|, l.vaddr);
    PlacedOfMore(regions, r, l.buffer);
    PlacedLength(l.regions, l.buffer, l.vaddr);
    assert l.Open() == [];
    assert l.Guest() == l.Closed();
  }

  lemma AddNothing(s: seq<Byte>)
    ensures s + Zeros(0) == s
  {
  }

  /** Closing a region does not change guest memory. */
  lemma PushGuest(l: Layout)
    requires l.Ok()
    ensures l.Push().Ok() && l.Push().Guest() == l.Guest()
  {
    var r := Region(InBuffer(l.regionStart), l.vaddr, |l.buffer| - l.regionStart, true);
    assert RegionBytes(r, l.buffer) == l.Open();
    ClosedGuest(l.Push(), l.regions, r, 0);
    AddNothing(l.Guest());
  }

  lemma ShiftZeros(head: seq<Byte>, long: seq<Byte>, short: seq<Byte>, n: nat)
    requires |long| == |short| + n && long[..|short|] == short && long[|short|..] == Zeros(n)
    ensures head + long + Zeros(0) == head + short + Zeros(n)
  {
    assert long == short + Zeros(n);
  }

  /** Zeros at the end of a region need not be mapped. */
  lemma ShrinkGuest(l: Layout, regions: seq<Region>, r: Region, len: nat, writable: bool)
    requires l.Ok() && l.regions == regions + [r] && l.regionStart == |l.buffer|
    requires len <= r.len && r.vmAddr + r.len == l.vaddr && r.host.InBuffer?
    requires HasBytes(r, |l.buffer|) && RegionBytes(r, l.buffer)[len..] == Zeros(r.len - len)
    ensures l.Shrink(len, writable).Ok() && l.Shrink(len, writable).Guest() == l.Guest()
  {
    var r' := r.(len := len, writable := writable);
    var s := l.Shrink(len, writable);
    assert InOrder(regions, |l.buffer|, r.vmAddr) by { InOrderOfMore(regions, r, |l.buffer|, l.vaddr); }
    assert MM_INPUT_START <= r.vmAddr by { PlacedLength(regions, l.buffer, r.vmAddr); }
    var head := Pad(Placed(regions, l.buffer), r.vmAddr - MM_INPUT_START);
    var long, short := RegionBytes(r, l.buffer), RegionBytes(r', l.buffer);
    assert l.Guest() == head + long + Zeros(0) by { ClosedGuest(l, regions, r, 0); }
    assert s.Ok() && s.Guest() == head + short + Zeros(r.len - len) by {
      assert s.regions == regions + [r'];
      ClosedGuest(s, regions, r', r.len - len);
    }
    RegionPrefix(r, len, writable, l.buffer);
    ShiftZeros(head, long, short, r.len - len);
  }

  lemma RegionPrefix(r: Region, len: nat, writable: bool, buffer: seq<Byte>)
    requires r.host.InBuffer? && HasBytes(r, |buffer|) && len <= r.len
    ensures |RegionBytes(r, buffer)| == r.len
    ensures RegionBytes(r.(len := len, writable := writable), buffer) == RegionBytes(r, buffer)[..len]
  {
  }

  /** Mapped account data appears in guest memory, followed by zeros. */
  lemma MapGuest(l: Layout, data: seq<Byte>, reserved: nat, writable: bool)
    requires l.Ok() && l.regionStart == |l.buffer| && |data| <= reserved
    ensures l.Map(data, reserved, writable).Ok()
    ensures l.Map(data, reserved, writable).Guest() == l.Guest() + data + Zeros(reserved - |data|)
  {
    ClosedGuest(l.Map(data, reserved, writable), l.regions, Region(AccountData(data), l.vaddr, |data|, writable),
      reserved - |data|);
    assert data[..|data|] == data;
    assert l.Open() == [];
    assert l.Guest() == l.Closed();
  }

  /** Starting a region `n` bytes later leaves those bytes out of guest memory. */
  lemma SkipGuest(l: Layout, n: nat)
    requires l.Ok() && l.regionStart + n <= |l.buffer|
    ensures l.Skip(n).Ok() && l.Skip(n).Guest() == l.Closed() + l.Open()[n..]
  {
    assert l.Skip(n).Open() == l.Open()[n..];
  }

  /** Guest memory, address by address: inside a region its bytes. */
  lemma {:induction false} PlacedInside(regions: seq<Region>, buffer: seq<Byte>, end: nat, i: nat, j: nat)
    requires InOrder(regions, |buffer|, end) && i < |regions| && j < regions[i].len
    ensures MM_INPUT_START <= regions[i].vmAddr && |RegionBytes(regions[i], buffer)| == regions[i].len
    ensures var at := regions[i].vmAddr - MM_INPUT_START + j;
      at < |Placed(regions, buffer)| && Placed(regions, buffer)[at] == RegionBytes(regions[i], buffer)[j]
  {
    var last := |regions| - 1;
    if i < last {
      PlacedInside(regions[..last], buffer, regions[last].vmAddr, i, j);
      PlacedEarlier(regions, buffer, end, regions[i].vmAddr - MM_INPUT_START + j);
    } else {
      PlacedInLast(regions, buffer, end, j);
    }
  }

  lemma PlacedEarlier(regions: seq<Region>, buffer: seq<Byte>, end: nat, k: nat)
    requires regions != [] && InOrder(regions, |buffer|, end) && k < |Placed(regions[..|regions| - 1], buffer)|
    ensures k < |Placed(regions, buffer)| && Placed(regions, buffer)[k] == Placed(regions[..|regions| - 1], buffer)[k]
  {
    var before, at, bytes := PlacedLast(regions, buffer, end);
    PadIndex(before, at, bytes, k);
  }

  lemma PlacedInLast(regions: seq<Region>, buffer: seq<Byte>, end: nat, j: nat)
    requires regions != [] && InOrder(regions, |buffer|, end) && j < regions[|regions| - 1].len
    ensures var r := regions[|regions| - 1];
      && MM_INPUT_START <= r.vmAddr && |RegionBytes(r, buffer)| == r.len
      && r.vmAddr - MM_INPUT_START + j < |Placed(regions, buffer)|
      && Placed(regions, buffer)[r.vmAddr - MM_INPUT_START + j] == RegionBytes(r, buffer)[j]
  {
    var before, at, bytes := PlacedLast(regions, buffer, end);
    PadIndex(before, at, bytes, j);
  }

  lemma PlacedLast(regions: seq<Region>, buffer: seq<Byte>, end: nat)
    returns (before: seq<Byte>, at: nat, bytes: seq<Byte>)
    requires regions != [] && InOrder(regions, |buffer|, end)
    ensures var init, r := regions[..|regions| - 1], regions[|regions| - 1];
      && InOrder(init, |buffer|, at + MM_INPUT_START) && at + MM_INPUT_START == r.vmAddr
      && before == Placed(init, buffer) && |before| <= at
      && bytes == RegionBytes(r, buffer) && |bytes| == r.len
    ensures Placed(regions, buffer) == Pad(before, at) + bytes
  {
    var init, r := regions[..|regions| - 1], regions[|regions| - 1];
    PlacedLength(init, buffer, r.vmAddr);
    before, at, bytes := Placed(init, buffer), r.vmAddr - MM_INPUT_START, RegionBytes(r, buffer);
  }

  lemma PadIndex(s: seq<Byte>, n: nat, more: seq<Byte>, k: nat)
    requires |s| <= n
    ensures |Pad(s, n) + more| == n + |more|
    ensures k < |s| ==> (Pad(s, n) + more)[k] == s[k]
    ensures k < |more| ==> (Pad(s, n) + more)[n + k] == more[k]
  {
  }

  /** Guest memory, address by address: zero outside every region. */
  lemma {:induction false} PlacedOutside(regions: seq<Region>, buffer: seq<Byte>, end: nat, at: nat)
    requires InOrder(regions, |buffer|, end) && at < |Placed(regions, buffer)|
    requires forall i :: 0 <= i < |regions| ==>
      !(regions[i].vmAddr <= MM_INPUT_START + at < regions[i].vmAddr + regions[i].len)
    ensures Placed(regions, buffer)[at] == 0
  {
    PlacedLength(regions, buffer, end);
    var init, r := regions[..|regions| - 1], regions[|regions| - 1];
    PlacedLength(init, buffer, r.vmAddr);
    if at < |Placed(init, buffer)| {
      PlacedOutside(init, buffer, r.vmAddr, at);
    }
  }

  lemma {:induction false} InOrderPrefix(regions: seq<Region>, size: nat, end: nat, i: nat)
    requires InOrder(regions, size, end) && i < |regions|
    ensures InOrder(regions[..i], size, regions[i].vmAddr) && HasBytes(regions[i], size)
    ensures regions[i].vmAddr + regions[i].len <= regions[|regions| - 1].vmAddr + regions[|regions| - 1].len
  {
    var init, r := regions[..|regions| - 1], regions[|regions| - 1];
    if i < |init| {
      InOrderPrefix(init, size, r.vmAddr, i);
      assert init[..i] == regions[..i];
    }
  }

  lemma OverwriteZeros(placed: seq<Byte>, bytes: seq<Byte>, at: nat, n: nat)
    requires |placed| <= at && at + |bytes| <= n
    ensures |Pad(placed, n)| == n
    ensures Overwrite(Pad(placed, n), at, bytes) == Pad(Pad(placed, at) + bytes, n)
  {
  }

  lemma PlacedNext(regions: seq<Region>, buffer: seq<Byte>, end: nat, i: nat)
    requires InOrder(regions, |buffer|, end) && i < |regions|
    ensures MM_INPUT_START <= regions[i].vmAddr && |Placed(regions[..i], buffer)| <= regions[i].vmAddr - MM_INPUT_START
    ensures |RegionBytes(regions[i], buffer)| == regions[i].len
    ensures Placed(regions[..i + 1], buffer)
         == Pad(Placed(regions[..i], buffer), regions[i].vmAddr - MM_INPUT_START) + RegionBytes(regions[i], buffer)
  {
    RegionFits(regions, buffer, end, i);
    TakeNext(regions, i);
    PlacedOfMore(regions[..i], regions[i], buffer);
  }

  lemma TakeNext(regions: seq<Region>, i: nat)
    requires i < |regions|
    ensures regions[..i + 1] == regions[..i] + [regions[i]]
  {
  }

  lemma RegionFits(regions: seq<Region>, buffer: seq<Byte>, end: nat, i: nat)
    requires InOrder(regions, |buffer|, end) && i < |regions|
    ensures MM_INPUT_START <= regions[i].vmAddr && |Placed(regions[..i], buffer)| <= regions[i].vmAddr - MM_INPUT_START
    ensures |RegionBytes(regions[i], buffer)| == regions[i].len
    ensures regions[i].vmAddr + regions[i].len <= regions[|regions| - 1].vmAddr + regions[|regions| - 1].len
  {
    InOrderPrefix(regions, |buffer|, end, i);
    PlacedLength(regions[..i], buffer, regions[i].vmAddr);
  }

  lemma ConcatNext(regions: seq<Region>, buffer: seq<Byte>, end: nat, i: nat, size: nat, mem: seq<Byte>)
    requires InOrder(regions, |buffer|, end) && i < |regions|
    requires MM_INPUT_START + size == regions[|regions| - 1].vmAddr + regions[|regions| - 1].len
    requires mem == Pad(Placed(regions[..i], buffer), size)
    ensures MM_INPUT_START <= regions[i].vmAddr
    ensures regions[i].vmAddr - MM_INPUT_START + |RegionBytes(regions[i], buffer)| <= |mem|
    ensures Overwrite(mem, regions[i].vmAddr - MM_INPUT_START, RegionBytes(regions[i], buffer))
         == Pad(Placed(regions[..i + 1], buffer), size)
  {
    RegionFits(regions, buffer, end, i);
    var placed, bytes, at :=
      Placed(regions[..i], buffer), RegionBytes(regions[i], buffer), regions[i].vmAddr - MM_INPUT_START;
    assert Placed(regions[..i + 1], buffer) == Pad(placed, at) + bytes by { PlacedNext(regions, buffer, end, i); }
    OverwriteZeros(placed, bytes, at, size);
  }

  /** Copies every region to its place in zeroed memory (`concat_regions`). */
  method ConcatRegions(regions: seq<Region>, buffer: seq<Byte>, ghost end: nat) returns (mem: seq<Byte>)
    requires InOrder(regions, |buffer|, end) && regions != []
    ensures mem == Placed(regions, buffer)
  {
    PlacedLength(regions, buffer, end);
    var last := regions[|regions| - 1];
    var size := last.vmAddr - MM_INPUT_START + last.len;
    mem := Zeros(size);
    for i := 0 to |regions|
      invariant mem == Pad(Placed(regions[..i], buffer), size)
    {
      ConcatNext(regions, buffer, end, i, size, mem);
      mem := Overwrite(mem, regions[i].vmAddr - MM_INPUT_START, RegionBytes(regions[i], buffer));
    }
    assert regions[..|regions|] == regions;
    AddNothing(Placed(regions, buffer));
  }
}
