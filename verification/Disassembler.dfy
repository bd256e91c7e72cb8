/** Printing instructions. Jumps and calls by immediate, which print names from the
    analysis of a whole program, are not part of this model. */
module Disassembler {
  import opened Sequences
  import opened Ebpf
  import opened AsmText
  import opened Mnemonics

  datatype Form =
    | AluImm
    | AluReg
    | Unary
    | Load
    | StoreConst
    | StoreValue
    | ByteSwap
    | LoadWide
    | CallRegister
    | Leave

  /** How an opcode prints: its operands, and the two parts of its name. */
  datatype Shape = Shape(form: Form, stem: string, suffix: string)

  function AluStem(op: nat): string {
    match op
    case 0 => "add"
    case 1 => "sub"
    case 2 => "mul"
    case 3 => "div"
    case 4 => "or"
    case 5 => "and"
    case 6 => "lsh"
    case 7 => "rsh"
    case 9 => "mod"
    case 10 => "xor"
    case 11 => "mov"
    case 12 => "arsh"
    case _ => ""
  }

  function AluShape(v: SbpfVersion, op: nat, reg: bool, suffix: string): Option<Shape> {
    if AluStem(op) == "" || (v.EnablePqr() && op in {2, 3, 9}) then None
    else Some(Shape(if reg then AluReg else AluImm, AluStem(op), suffix))
  }

  /** Product, quotient and remainder: the stem and the width. */
  function PqrShape(op: nat, reg: bool): Option<Shape> {
    var form := if reg then AluReg else AluImm;
    match op
    case 3 => Some(Shape(form, "uhmul", "64"))
    case 4 => Some(Shape(form, "udiv", "32"))
    case 5 => Some(Shape(form, "udiv", "64"))
    case 6 => Some(Shape(form, "urem", "32"))
    case 7 => Some(Shape(form, "urem", "64"))
    case 8 => Some(Shape(form, "lmul", "32"))
    case 9 => Some(Shape(form, "lmul", "64"))
    case 11 => Some(Shape(form, "shmul", "64"))
    case 12 => Some(Shape(form, "sdiv", "32"))
    case 13 => Some(Shape(form, "sdiv", "64"))
    case 14 => Some(Shape(form, "srem", "32"))
    case 15 => Some(Shape(form, "srem", "64"))
    case _ => None
  }

  /** Loads and stores before version 2 and after. */
  function OldMemoryShape(opc: nat): Option<Shape> {
    match opc
    case 0x71 => Some(Shape(Load, "ldxb", ""))
    case 0x69 => Some(Shape(Load, "ldxh", ""))
    case 0x61 => Some(Shape(Load, "ldxw", ""))
    case 0x79 => Some(Shape(Load, "ldxdw", ""))
    case 0x72 => Some(Shape(StoreConst, "stb", ""))
    case 0x6a => Some(Shape(StoreConst, "sth", ""))
    case 0x62 => Some(Shape(StoreConst, "stw", ""))
    case 0x7a => Some(Shape(StoreConst, "stdw", ""))
    case 0x73 => Some(Shape(StoreValue, "stxb", ""))
    case 0x6b => Some(Shape(StoreValue, "stxh", ""))
    case 0x63 => Some(Shape(StoreValue, "stxw", ""))
    case 0x7b => Some(Shape(StoreValue, "stxdw", ""))
    case _ => None
  }

  function MovedMemoryShape(opc: nat): Option<Shape> {
    match opc
    case 0x2c => Some(Shape(Load, "ldxb", ""))
    case 0x3c => Some(Shape(Load, "ldxh", ""))
    case 0x8c => Some(Shape(Load, "ldxw", ""))
    case 0x9c => Some(Shape(Load, "ldxdw", ""))
    case 0x27 => Some(Shape(StoreConst, "stb", ""))
    case 0x37 => Some(Shape(StoreConst, "sth", ""))
    case 0x87 => Some(Shape(StoreConst, "stw", ""))
    case 0x97 => Some(Shape(StoreConst, "stdw", ""))
    case 0x2f => Some(Shape(StoreValue, "stxb", ""))
    case 0x3f => Some(Shape(StoreValue, "stxh", ""))
    case 0x8f => Some(Shape(StoreValue, "stxw", ""))
    case 0x9f => Some(Shape(StoreValue, "stxdw", ""))
    case _ => None
  }

  function MemoryShape(v: SbpfVersion, opc: nat): Option<Shape> {
    if v.MoveMemoryInstructionClasses() then MovedMemoryShape(opc) else OldMemoryShape(opc)
  }

  /** The single opcodes. */
  function OtherShape(v: SbpfVersion, opc: nat): Option<Shape> {
    if opc == LD_DW_IMM then Some(Shape(LoadWide, "lddw", ""))
    else if opc == NEG32 && !v.DisableNeg() then Some(Shape(Unary, "neg", "32"))
    else if opc == NEG64 && !v.DisableNeg() then Some(Shape(Unary, "neg", "64"))
    else if opc == LE then Some(Shape(ByteSwap, "le", ""))
    else if opc == BE then Some(Shape(ByteSwap, "be", ""))
    else if opc == BPF_ALU64 + 0xf0 then Some(Shape(AluImm, "hor", "64"))
    else if opc == CALL_REG then Some(Shape(CallRegister, "callx", ""))
    else if opc == EXIT then Some(Shape(Leave, "exit", ""))
    else None
  }

  /** The opcodes the disassembler knows, other than jumps and calls by immediate. */
  function ShapeOf(v: SbpfVersion, opc: nat): Option<Shape> {
    var op, reg := opc / 16, (opc / 8) % 2 == 1;
    if MemoryShape(v, opc).Some? then MemoryShape(v, opc)
    else if OtherShape(v, opc).Some? then OtherShape(v, opc)
    else if opc % 8 == BPF_ALU32 then AluShape(v, op, reg, "32")
    else if opc % 8 == BPF_ALU64 then AluShape(v, op, reg, "64")
    else if opc % 8 == BPF_PQR && v.EnablePqr() then PqrShape(op, reg)
    else None
  }

  function CallxRegister(v: SbpfVersion, insn: Insn): nat {
    if v.CallxUsesSrcReg() then insn.src else if v.CallxUsesDstReg() then insn.dst else insn.imm % 256
  }

  function Name(shape: Shape, insn: Insn): string {
    if shape.form.ByteSwap? then shape.stem + Dec(insn.imm) else shape.stem + shape.suffix
  }

  /** `disassemble_instruction`. */
  function Text(v: SbpfVersion, shape: Shape, insn: Insn): string {
    var name := Name(shape, insn);
    match shape.form
    case AluImm => name + " " + RegText(insn.dst) + ", " + Dec(insn.imm)
    case AluReg => name + " " + RegText(insn.dst) + ", " + RegText(insn.src)
    case Unary => name + " " + RegText(insn.dst)
    case Load => name + " " + RegText(insn.dst) + ", " + MemText(insn.src, insn.off)
    case StoreConst => name + " " + MemText(insn.dst, insn.off) + ", " + Dec(insn.imm)
    case StoreValue => name + " " + MemText(insn.dst, insn.off) + ", " + RegText(insn.src)
    case ByteSwap => name + " " + RegText(insn.dst)
    case LoadWide => name + " " + RegText(insn.dst) + ", " + Hex(insn.imm)
    case CallRegister => name + " " + RegText(CallxRegister(v, insn))
    case Leave => name
  }
}
