/** Instructions and their eight-byte encoding, laid out as in sections 3.1 and 3.2
    of RFC 9669. */
module Ebpf {
  import opened Words
  import AlignedMemories

  type Byte = AlignedMemories.Byte

  const INSN_SIZE: nat := 8

  const U16_MODULUS: nat := 0x1_0000
  const I64_END: int := 0x8000_0000_0000_0000

  predicate IsI64(n: int) { -I64_END <= n < I64_END }

  datatype Insn = Insn(ptr: nat, opc: nat, dst: nat, src: nat, off: int, imm: int) {
    /** The fields fit the encoding; `imm` may be any 64-bit value. */
    predicate Encodable() {
      opc < 256 && dst < 16 && src < 16 && -0x8000 <= off < 0x8000
    }
  }

  datatype SbpfVersion = V0 | V1 | V2 | V3 | V4 | Reserved {
    predicate ManualStackFrameBump() { V1? || V2? }
    predicate EnablePqr() { V2? }
    predicate DisableNeg() { V2? }
    predicate CallxUsesSrcReg() { V2? }
    predicate MoveMemoryInstructionClasses() { V2? }
    predicate StaticSyscalls() { V3? || V4? || Reserved? }
    predicate CallxUsesDstReg() { V3? || V4? || Reserved? }
  }

  // ----- Two's complement -----

  /** The value of `n` modulo `modulus`, read as a signed number. */
  function Signed(n: int, modulus: int): (r: int)
    requires modulus > 0
    ensures -modulus <= 2 * r < modulus
  {
    var u := n % modulus;
    if 2 * u < modulus then u else u - modulus
  }

  lemma SignedIsIdentity(x: int, modulus: int)
    requires modulus > 0
    ensures Signed(x, modulus) == x <==> -modulus <= 2 * x < modulus
  {
    if 0 <= 2 * x < modulus {
      ModIs(x, modulus, x, 0);
    } else if -modulus <= 2 * x < 0 {
      ModIs(x, modulus, x + modulus, -1);
    }
  }

  lemma ModIs(x: int, m: int, r: int, q: int)
    requires 0 <= r < m && x == q * m + r
    ensures x % m == r && x / m == q
  {
    var d := x / m - q;
    assert x == (x / m) * m + x % m;
    assert d * m == r - x % m by {
      assert (x / m - q) * m == (x / m) * m - q * m;
    }
    MultipleGrows(d, m);
  }

  lemma MultipleGrows(d: int, m: int)
    requires m > 0
    ensures d >= 1 ==> d * m >= m
    ensures d <= -1 ==> d * m <= -m
  {
  }

  /** A number modulo 256 * n, from its lowest byte and the rest. */
  lemma SplitByte(x: int, n: int)
    requires n > 0
    ensures x % (256 * n) == x % 256 + 256 * ((x / 256) % n)
  {
    var q, b := (x / 256) / n, x % 256 + 256 * ((x / 256) % n);
    assert x == q * (256 * n) + b by {
      assert x == 256 * (x / 256) + x % 256;
      assert x / 256 == q * n + (x / 256) % n;
      assert 256 * (q * n) == q * (256 * n);
    }
    ModIs(x, 256 * n, b, q);
  }

  // ----- Encoding -----

  /** `to_array`. */
  function ToArray(insn: Insn): (r: seq<Byte>)
    requires insn.Encodable()
    ensures |r| == INSN_SIZE
  {
    [ insn.opc,
      insn.src * 16 + insn.dst,
      insn.off % 256,
      (insn.off / 256) % 256,
      insn.imm % 256,
      (insn.imm / 256) % 256,
      (insn.imm / 0x1_0000) % 256,
      (insn.imm / 0x100_0000) % 256 ]
  }

  predicate IsPcInProgram(prog: seq<Byte>, pc: nat) {
    SaturatingMul(SaturatingAdd(pc, 1), INSN_SIZE) <= |prog|
  }

  /** The guard is what keeps the unchecked reads inside the program. */
  lemma PcInProgram(prog: seq<Byte>, pc: nat)
    requires |prog| < U64_MAX
    ensures IsPcInProgram(prog, pc) <==> INSN_SIZE * pc + INSN_SIZE <= |prog|
  {
  }

  function ReadU32(prog: seq<Byte>, at: nat): nat
    requires at + 4 <= |prog|
  {
    prog[at] as int + 256 * (prog[at + 1] as int + 256 * (prog[at + 2] as int + 256 * prog[at + 3] as int))
  }

  /** `get_insn_unchecked`. */
  function GetInsn(prog: seq<Byte>, pc: nat): Insn
    requires INSN_SIZE * pc + INSN_SIZE <= |prog|
  {
    var at := INSN_SIZE * pc;
    Insn(pc, prog[at], prog[at + 1] % 16, prog[at + 1] / 16,
         Signed(prog[at + 2] as int + 256 * prog[at + 3] as int, U16_MODULUS),
         Signed(ReadU32(prog, at + 4), U32_MODULUS))
  }

  /** `augment_lddw_unchecked`: the immediate of both halves. */
  function AugmentLddw(prog: seq<Byte>, insn: Insn): Insn
    requires INSN_SIZE * (insn.ptr + 1) + INSN_SIZE <= |prog|
  {
    var high := Signed(ReadU32(prog, INSN_SIZE * (insn.ptr + 1) + 4), U32_MODULUS);
    insn.(imm := Signed(insn.imm % U32_MODULUS + U32_MODULUS * (high % U32_MODULUS), U64_MODULUS))
  }

  /** The instruction stands at `pc` in the program. */
  predicate Emitted(prog: seq<Byte>, pc: nat, insn: Insn) {
    insn.Encodable() && INSN_SIZE * pc + INSN_SIZE <= |prog| &&
      prog[INSN_SIZE * pc..INSN_SIZE * pc + INSN_SIZE] == ToArray(insn)
  }

  lemma ImmediateBytes(imm: int)
    ensures imm % 256 + 256 * ((imm / 256) % 256 + 256 * ((imm / 0x1_0000) % 256 + 256 * ((imm / 0x100_0000) % 256))) ==
      imm % U32_MODULUS
  {
    SplitByte(imm, 0x100_0000);
    SplitByte(imm / 256, 0x1_0000);
    SplitByte(imm / 256 / 256, 0x100);
    assert imm / 256 / 256 == imm / 0x1_0000;
    assert imm / 256 / 256 / 256 == imm / 0x100_0000;
  }

  lemma EmittedBytes(prog: seq<Byte>, pc: nat, insn: Insn, k: nat)
    requires Emitted(prog, pc, insn) && k < INSN_SIZE
    ensures prog[INSN_SIZE * pc + k] == ToArray(insn)[k]
  {
    assert prog[INSN_SIZE * pc..INSN_SIZE * pc + INSN_SIZE][k] == prog[INSN_SIZE * pc + k];
  }

  lemma EmittedImmediate(prog: seq<Byte>, pc: nat, insn: Insn)
    requires Emitted(prog, pc, insn)
    ensures ReadU32(prog, INSN_SIZE * pc + 4) == insn.imm % U32_MODULUS
  {
    EmittedBytes(prog, pc, insn, 4);
    EmittedBytes(prog, pc, insn, 5);
    EmittedBytes(prog, pc, insn, 6);
    EmittedBytes(prog, pc, insn, 7);
    ImmediateBytes(insn.imm);
  }

  lemma OffsetBytes(off: int)
    requires -0x8000 <= off < 0x8000
    ensures Signed(off % 256 + 256 * ((off / 256) % 256), U16_MODULUS) == off
  {
    SplitByte(off, 256);
    SignedIsIdentity(off, U16_MODULUS);
  }

  lemma SignedOfMod(x: int, m: int)
    requires m > 0
    ensures Signed(x % m, m) == Signed(x, m) && Signed(x, m) % m == x % m
  {
    ModIs(x % m, m, x % m, 0);
    ModIs(Signed(x, m), m, x % m, if 2 * (x % m) < m then 0 else -1);
  }

  /** Decoding what was encoded gives every field back, with the immediate cut to
      32 bits: it is recovered exactly if it was a 32-bit number. */
  lemma DecodeEncode(prog: seq<Byte>, pc: nat, insn: Insn)
    requires Emitted(prog, pc, insn)
    ensures GetInsn(prog, pc) == insn.(ptr := pc, imm := Signed(insn.imm, U32_MODULUS))
    ensures GetInsn(prog, pc) == insn.(ptr := pc) <==> -0x8000_0000 <= insn.imm < 0x8000_0000
  {
    EmittedBytes(prog, pc, insn, 0);
    EmittedBytes(prog, pc, insn, 1);
    EmittedBytes(prog, pc, insn, 2);
    EmittedBytes(prog, pc, insn, 3);
    OffsetBytes(insn.off);
    EmittedImmediate(prog, pc, insn);
    SignedOfMod(insn.imm, U32_MODULUS);
    SignedIsIdentity(insn.imm, U32_MODULUS);
  }

  /** The smallest immediate that is lost. */
  lemma WideImmediateIsCut(insn: Insn)
    requires insn.Encodable() && insn.ptr == 0 && insn.imm == 0x8000_0000
    ensures Emitted(ToArray(insn), 0, insn) && GetInsn(ToArray(insn), 0) == insn.(imm := -0x8000_0000)
  {
    DecodeEncode(ToArray(insn), 0, insn);
  }

  // ----- 64-bit immediates -----

  /** What the two instructions of `lddw` carry. */
  function LowHalf(imm: int): int { Signed(imm, U32_MODULUS) }
  function HighHalf(imm: int): int { imm / U32_MODULUS }

  lemma SplitWord(imm: int)
    ensures imm % U64_MODULUS == imm % U32_MODULUS + U32_MODULUS * ((imm / U32_MODULUS) % U32_MODULUS)
  {
    var m := U32_MODULUS;
    var q, b := (imm / m) / m, imm % m + m * ((imm / m) % m);
    ModIs(imm, U64_MODULUS, b, q);
  }

  /** Merging the halves gives the full 64-bit immediate back. */
  lemma MergeLddw(prog: seq<Byte>, pc: nat, first: Insn, second: Insn, imm: int)
    requires Emitted(prog, pc, first) && Emitted(prog, pc + 1, second)
    requires first.imm == LowHalf(imm) && second.imm == HighHalf(imm)
    requires IsI64(imm)
    ensures AugmentLddw(prog, GetInsn(prog, pc)) == first.(ptr := pc, imm := imm)
  {
    DecodeEncode(prog, pc, first);
    EmittedImmediate(prog, pc + 1, second);
    MergeHalves(imm);
    SignedOfMod(first.imm, U32_MODULUS);
    SignedOfMod(second.imm, U32_MODULUS);
  }

  lemma MergeHalves(imm: int)
    requires IsI64(imm)
    ensures Signed(LowHalf(imm) % U32_MODULUS + U32_MODULUS * (HighHalf(imm) % U32_MODULUS), U64_MODULUS) == imm
  {
    SplitWord(imm);
    SignedOfMod(imm, U32_MODULUS);
    SignedOfMod(imm, U64_MODULUS);
    SignedIsIdentity(imm, U64_MODULUS);
  }
}
