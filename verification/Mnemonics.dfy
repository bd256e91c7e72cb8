/** The instruction map of the assembler: mnemonic to operand form and opcode. Every
    mnemonic is a stem of letters and, for some, a width. */
module Mnemonics {
  import opened Sequences
  import opened Ebpf
  import opened AsmParser

  datatype InstructionType =
    | AluBinary
    | AluUnary
    | LoadDwImm
    | LoadReg
    | StoreImm
    | StoreReg
    | JumpUnconditional
    | JumpConditional
    | Syscall
    | CallImm
    | CallReg
    | Endian(size: int)
    | NoOperand

  const BPF_ALU32: nat := 0x04
  const BPF_JMP64: nat := 0x05
  const BPF_PQR: nat := 0x06
  const BPF_JMP32: nat := 0x06
  const BPF_ALU64: nat := 0x07
  const BPF_X: nat := 0x08
  const BPF_B: nat := 0x10

  const LD_DW_IMM: nat := 0x18
  const ADD64_IMM: nat := 0x07
  const OR64_IMM: nat := 0x47
  const NEG32: nat := 0x84
  const NEG64: nat := 0x87
  const LE: nat := 0xd4
  const BE: nat := 0xdc
  const JA: nat := 0x05
  const CALL_IMM: nat := 0x85
  const CALL_REG: nat := 0x8d
  const EXIT: nat := 0x95

  datatype Family = Alu | Neg | Pqr | Jump | Swap | LoadStore | Misc

  /** The first letters tell which table a stem can be in. */
  function FamilyOf(stem: string): Family {
    if |stem| < 2 then Misc
    else
      var a, b := stem[0], stem[1];
      if a == 'j' then (if b == 'a' then Misc else Jump)
      else if a == 'n' then Neg
      else if a == 'b' then Swap
      else if a == 'l' then
        if b == 'e' then Swap else if b == 'm' then Pqr else if b == 's' then Alu
        else if |stem| > 2 && stem[2] == 'x' then LoadStore else Misc
      else if a == 's' then (if b == 'u' then Alu else if b == 't' then LoadStore else if b == 'y' then Misc else Pqr)
      else if a == 'u' then Pqr
      else if a == 'c' || a == 'e' then Misc
      else Alu
  }

  function AluCode(stem: string): (r: Option<nat>)
    ensures r.Some? ==> FamilyOf(stem).Alu?
    ensures r.Some? ==> r.value <= 0xf0 && r.value % 16 == 0
  {
    if stem == "add" then Some(0x00)
    else if stem == "sub" then Some(0x10)
    else if stem == "mul" then Some(0x20)
    else if stem == "div" then Some(0x30)
    else if stem == "or" then Some(0x40)
    else if stem == "and" then Some(0x50)
    else if stem == "lsh" then Some(0x60)
    else if stem == "rsh" then Some(0x70)
    else if stem == "mod" then Some(0x90)
    else if stem == "xor" then Some(0xa0)
    else if stem == "mov" then Some(0xb0)
    else if stem == "arsh" then Some(0xc0)
    else if stem == "hor" then Some(0xf0)
    else None
  }

  /** The code, and whether there is a 32-bit form. */
  function PqrCode(stem: string): (r: Option<(nat, bool)>)
    ensures r.Some? ==> FamilyOf(stem).Pqr?
    ensures r.Some? ==> r.value.0 <= 0xe0 && r.value.0 % 32 == 0
  {
    if stem == "uhmul" then Some((0x20, false))
    else if stem == "udiv" then Some((0x40, true))
    else if stem == "urem" then Some((0x60, true))
    else if stem == "lmul" then Some((0x80, true))
    else if stem == "shmul" then Some((0xa0, false))
    else if stem == "sdiv" then Some((0xc0, true))
    else if stem == "srem" then Some((0xe0, true))
    else None
  }

  function JumpCode(stem: string): (r: Option<nat>)
    ensures r.Some? ==> FamilyOf(stem).Jump?
    ensures r.Some? ==> r.value <= 0xd0 && r.value % 16 == 0
  {
    if stem == "jeq" then Some(0x10)
    else if stem == "jgt" then Some(0x20)
    else if stem == "jge" then Some(0x30)
    else if stem == "jset" then Some(0x40)
    else if stem == "jne" then Some(0x50)
    else if stem == "jsgt" then Some(0x60)
    else if stem == "jsge" then Some(0x70)
    else if stem == "jlt" then Some(0xa0)
    else if stem == "jle" then Some(0xb0)
    else if stem == "jslt" then Some(0xc0)
    else if stem == "jsle" then Some(0xd0)
    else None
  }

  /** Loads and stores, whose opcodes moved in version 2. */
  function MemoryEntry(v: SbpfVersion, stem: string): (r: Option<(InstructionType, nat)>)
    ensures r.Some? ==> FamilyOf(stem).LoadStore?
    ensures r.Some? ==> r.value.1 <= 0x9f
  {
    var moved := v.MoveMemoryInstructionClasses();
    if stem == "ldxb" then Some((LoadReg, if moved then 0x2c else 0x71))
    else if stem == "ldxh" then Some((LoadReg, if moved then 0x3c else 0x69))
    else if stem == "ldxw" then Some((LoadReg, if moved then 0x8c else 0x61))
    else if stem == "ldxdw" then Some((LoadReg, if moved then 0x9c else 0x79))
    else if stem == "stb" then Some((StoreImm, if moved then 0x27 else 0x72))
    else if stem == "sth" then Some((StoreImm, if moved then 0x37 else 0x6a))
    else if stem == "stw" then Some((StoreImm, if moved then 0x87 else 0x62))
    else if stem == "stdw" then Some((StoreImm, if moved then 0x97 else 0x7a))
    else if stem == "stxb" then Some((StoreReg, if moved then 0x2f else 0x73))
    else if stem == "stxh" then Some((StoreReg, if moved then 0x3f else 0x6b))
    else if stem == "stxw" then Some((StoreReg, if moved then 0x8f else 0x63))
    else if stem == "stxdw" then Some((StoreReg, if moved then 0x9f else 0x7b))
    else None
  }

  function MiscEntry(stem: string): (r: Option<(InstructionType, nat)>)
    ensures r.Some? ==> FamilyOf(stem).Misc?
    ensures r.Some? ==> r.value.1 <= 0x9f
  {
    if stem == "lddw" then Some((LoadDwImm, LD_DW_IMM))
    else if stem == "ja" then Some((JumpUnconditional, JA))
    else if stem == "syscall" then Some((Syscall, CALL_IMM))
    else if stem == "call" then Some((CallImm, CALL_IMM))
    else if stem == "callx" then Some((CallReg, CALL_REG))
    else if stem == "exit" then Some((NoOperand, EXIT))
    else None
  }

  function Sized(suffix: string, type_: InstructionType, wide: nat,
                 narrow: Option<nat>): (r: Option<(InstructionType, nat)>)
    ensures r.Some? ==> r.value.1 == wide || (narrow.Some? && r.value.1 == narrow.value)
  {
    if suffix == "" || suffix == "64" then Some((type_, wide))
    else if suffix == "32" && narrow.Some? then Some((type_, narrow.value))
    else None
  }

  function EndianEntry(suffix: string, opc: nat): (r: Option<(InstructionType, nat)>)
    ensures r.Some? ==> r.value.1 == opc
  {
    if suffix == "16" then Some((Endian(16), opc))
    else if suffix == "32" then Some((Endian(32), opc))
    else if suffix == "64" then Some((Endian(64), opc))
    else None
  }

  function Entry(v: SbpfVersion, stem: string, suffix: string): (r: Option<(InstructionType, nat)>)
    ensures r.Some? ==> r.value.1 + BPF_X < 256
  {
    match FamilyOf(stem)
    case Alu =>
      var code := AluCode(stem);
      if code.None? then None else Sized(suffix, AluBinary, BPF_ALU64 + code.value, Some(BPF_ALU32 + code.value))
    case Neg =>
      if stem == "neg" then Sized(suffix, AluUnary, NEG64, Some(NEG32)) else None
    case Pqr =>
      var code := PqrCode(stem);
      if code.None? then None
      else
        var narrow := if code.value.1 then Some(BPF_PQR + code.value.0) else None;
        Sized(suffix, AluBinary, BPF_PQR + BPF_B + code.value.0, narrow)
    case Jump =>
      var code := JumpCode(stem);
      if code.None? then None else Sized(suffix, JumpConditional, BPF_JMP64 + code.value, Some(BPF_JMP32 + code.value))
    case Swap =>
      if stem == "be" then EndianEntry(suffix, BE) else if stem == "le" then EndianEntry(suffix, LE) else None
    case LoadStore =>
      if suffix == "" then MemoryEntry(v, stem) else None
    case Misc =>
      if suffix == "" then MiscEntry(stem) else None
  }

  /** The instruction map at `name`. */
  function Lookup(v: SbpfVersion, name: string): (r: Option<(InstructionType, nat)>)
    ensures r.Some? ==> r.value.1 + BPF_X < 256
  {
    var n := Run(Letter, name);
    Entry(v, name[..n], name[n..])
  }
}
