/** A byte buffer with a growing length and a fixed capacity, and its shortcut of
    not writing zeros into memory that was allocated zeroed. */
module AlignedMemories {

  type Byte = x: int | 0 <= x < 256

  function Repeat(value: Byte, num: nat): (r: seq<Byte>)
    ensures |r| == num && forall i :: 0 <= i < num ==> r[i] == value
  {
    seq(num, _ => value)
  }

  /** The allocated block, how much of it is in use, and whether the shortcut is
      on (`zero_up_to_max_len`). */
  datatype Memory = Memory(block: seq<Byte>, length: nat, zeroed: bool) {
    predicate Fits() {
      length <= |block|
    }

    function Contents(): seq<Byte>
      requires Fits()
    {
      block[..length]
    }

    /** What the shortcut relies on. */
    ghost predicate ZeroTail() {
      zeroed ==> forall i :: length <= i < |block| ==> block[i] == 0
    }
  }

  datatype Op =
    | Fill(num: nat, value: Byte)
    | Write(bytes: seq<Byte>)
    | Edit(at: nat, value: Byte)

  /** Overwrite the block from `at` on. */
  function Overwrite(block: seq<Byte>, at: nat, bytes: seq<Byte>): (r: seq<Byte>)
    requires at + |bytes| <= |block|
    ensures |r| == |block|
  {
    block[..at] + bytes + block[at + |bytes|..]
  }

  /** One operation, and whether it was accepted. */
  function Apply(m: Memory, op: Op): (r: (Memory, bool))
    requires m.Fits()
    ensures r.0.Fits() && |r.0.block| == |m.block| && r.0.zeroed == m.zeroed
  {
    match op
    case Fill(num, value) =>
      if m.length + num > |m.block| then (m, false)
      else if m.zeroed && value == 0 then (m.(length := m.length + num), true)
      else (m.(block := Overwrite(m.block, m.length, Repeat(value, num)), length := m.length + num), true)
    case Write(bytes) =>
      if m.length + |bytes| > |m.block| then (m, false)
      else (m.(block := Overwrite(m.block, m.length, bytes), length := m.length + |bytes|), true)
    case Edit(at, value) =>
      if at >= m.length then (m, false) else (m.(block := m.block[at := value]), true)
  }

  /** What an operation means for the contents, with no shortcut in sight. */
  function Meaning(contents: seq<Byte>, capacity: nat, op: Op): (seq<Byte>, bool) {
    match op
    case Fill(num, value) =>
      if |contents| + num > capacity then (contents, false) else (contents + Repeat(value, num), true)
    case Write(bytes) =>
      if |contents| + |bytes| > capacity then (contents, false) else (contents + bytes, true)
    case Edit(at, value) =>
      if at >= |contents| then (contents, false) else (contents[at := value], true)
  }

  /** One operation does what it means, also where the shortcut writes nothing,
      and leaves the tail zero. A refused one changes nothing. */
  lemma ApplyMeans(m: Memory, op: Op)
    requires m.Fits() && m.ZeroTail()
    ensures var (after, ok) := Apply(m, op);
      && (after.Contents(), ok) == Meaning(m.Contents(), |m.block|, op)
      && after.ZeroTail()
      && (!ok ==> after == m)
  {
    var (after, ok) := Apply(m, op);
    if op.Fill? && ok {
      assert after.Contents() == m.Contents() + Repeat(op.value, op.num);
    }
  }

  /** The state and the answers after a whole run. */
  function Run(m: Memory, ops: seq<Op>): (r: (Memory, seq<bool>))
    requires m.Fits()
    ensures r.0.Fits() && |r.0.block| == |m.block| && r.0.zeroed == m.zeroed
  {
    if ops == [] then (m, [])
    else
      var (before, oks) := Run(m, ops[..|ops| - 1]);
      var (after, ok) := Apply(before, ops[|ops| - 1]);
      (after, oks + [ok])
  }

  /** Skipping the zero fill is a refinement: over any run, a pre-zeroed memory
      has exactly the contents and gives exactly the answers of one of the same
      capacity that always writes, whatever garbage that one was allocated with. */
  lemma {:induction false} ShortcutIsInvisible(fast: Memory, slow: Memory, ops: seq<Op>)
    requires fast.Fits() && slow.Fits() && |fast.block| == |slow.block|
    requires fast.zeroed && fast.ZeroTail() && !slow.zeroed
    requires fast.Contents() == slow.Contents()
    ensures var (fast', fastOks) := Run(fast, ops);
      var (slow', slowOks) := Run(slow, ops);
      fast'.Contents() == slow'.Contents() && fastOks == slowOks && fast'.ZeroTail()
  {
    if ops != [] {
      var init := ops[..|ops| - 1];
      ShortcutIsInvisible(fast, slow, init);
      ApplyMeans(Run(fast, init).0, ops[|ops| - 1]);
      ApplyMeans(Run(slow, init).0, ops[|ops| - 1]);
    }
  }

  class AlignedMemory {
    const mem: array<Byte>
    const zeroUpToMaxLen: bool
    var length: nat

    ghost predicate Valid()
      reads this, mem
    {
      length <= mem.Length && State().ZeroTail()
    }

    ghost function State(): Memory
      reads this, mem
    {
      Memory(mem[..], length, zeroUpToMaxLen)
    }

    function Contents(): (r: seq<Byte>)
      requires length <= mem.Length
      reads this, mem
      ensures |r| == length
    {
      mem[..length]
    }

    /** Memory allocated as it comes (`with_capacity`). */
    constructor WithCapacity(maxLen: nat)
      ensures Valid() && Contents() == [] && mem.Length == maxLen && !zeroUpToMaxLen && fresh(mem)
    {
      mem := new Byte[maxLen];
      length, zeroUpToMaxLen := 0, false;
    }

    /** Memory allocated zeroed (`with_capacity_zeroed`). */
    constructor WithCapacityZeroed(maxLen: nat)
      ensures Valid() && Contents() == [] && mem.Length == maxLen && zeroUpToMaxLen && fresh(mem)
    {
      mem := new Byte[maxLen](_ => 0);
      length, zeroUpToMaxLen := 0, true;
    }

    method FillWrite(num: nat, value: Byte) returns (ok: bool)
      requires Valid()
      modifies this, mem
      ensures Valid() && (State(), ok) == Apply(old(State()), Fill(num, value))
      ensures (Contents(), ok) == Meaning(old(Contents()), mem.Length, Fill(num, value))
    {
      ApplyMeans(State(), Fill(num, value));
      if length + num > mem.Length { return false; }
      if zeroUpToMaxLen && value == 0 {
        // The tail is zero already.
      } else {
        CopyIn(Repeat(value, num));
      }
      length := length + num;
      return true;
    }

    method CopyIn(bytes: seq<Byte>)
      requires length + |bytes| <= mem.Length
      modifies mem
      ensures mem[..] == Overwrite(old(mem[..]), length, bytes)
    {
      forall i | 0 <= i < |bytes| {
        mem[length + i] := bytes[i];
      }
      assert mem[..] == Overwrite(old(mem[..]), length, bytes);
    }

    /** Append without a capacity check: the caller promises there is room
        (`write_unchecked`, `write_all_unchecked`). */
    method WriteAllUnchecked(bytes: seq<Byte>)
      requires Valid() && length + |bytes| <= mem.Length
      modifies this, mem
      ensures Valid() && State() == Apply(old(State()), Op.Write(bytes)).0
      ensures Contents() == old(Contents()) + bytes
    {
      ApplyMeans(State(), Op.Write(bytes));
      CopyIn(bytes);
      length := length + |bytes|;
    }

    /** Append with a capacity check (`io::Write::write`). */
    method Write(bytes: seq<Byte>) returns (ok: bool)
      requires Valid()
      modifies this, mem
      ensures Valid() && (State(), ok) == Apply(old(State()), Op.Write(bytes))
      ensures (Contents(), ok) == Meaning(old(Contents()), mem.Length, Op.Write(bytes))
    {
      ApplyMeans(State(), Op.Write(bytes));
      if length + |bytes| > mem.Length { return false; }
      CopyIn(bytes);
      length := length + |bytes|;
      return true;
    }

    /** Change a byte in use (through `as_slice_mut`). */
    method Set(at: nat, value: Byte)
      requires Valid() && at < length
      modifies mem
      ensures Valid() && State() == Apply(old(State()), Edit(at, value)).0
    {
      ApplyMeans(State(), Edit(at, value));
      mem[at] := value;
    }
  }
}
