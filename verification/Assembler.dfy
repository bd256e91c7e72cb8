/** The two-pass assembler on parsed statements. */
module Assembler {
  import opened Words
  import opened Sequences
  import opened Ebpf
  import P = AsmParser
  import opened Mnemonics

  datatype AsmError =
    | InvalidRegister
    | InvalidOffset
    | InvalidImmediate
    | LabelNotFound
    | LabelCollision
    | UnexpectedOperands
    | InvalidDirective
    | InvalidInstruction

  // ----- One instruction -----

  /** `insn`, the range checks. */
  function MakeInsn(at: nat, opc: nat, dst: int, src: int, off: int, imm: int): (r: Result<Insn, AsmError>)
    requires opc < 256
    ensures r.Ok? ==> r.value.Encodable() && r.value.ptr == at && -0x8000_0000 <= r.value.imm < 0x8000_0000
  {
    if !(0 <= dst < 16) || !(0 <= src < 16) then Err(InvalidRegister)
    else if off < -0x8000 || off > 0x7fff then Err(InvalidOffset)
    else if imm < -0x8000_0000 || imm > 0x7fff_ffff then Err(InvalidImmediate)
    else Ok(Insn(at, opc, dst, src, off, imm))
  }

  /** What the environment supplies: the version, and the hash of a symbol name. */
  datatype Config = Config(version: SbpfVersion, hash: string -> nat)

  type Labels = map<string, int>

  function Jump(at: nat, opc: nat, dst: int, src: int, imm: int, labels: Labels, target: string)
    : (r: Result<Insn, AsmError>)
    requires opc < 256
    ensures r.Ok? ==> r.value.Encodable() && r.value.ptr == at && -0x8000_0000 <= r.value.imm < 0x8000_0000
    ensures r.Ok? ==> target in labels && r.value.ptr + r.value.off + 1 == labels[target]
  {
    if target !in labels then Err(LabelNotFound) else MakeInsn(at, opc, dst, src, labels[target] - at - 1, imm)
  }

  function EmitAlu(v: SbpfVersion, at: nat, opc: nat, operands: seq<P.Operand>): Result<Insn, AsmError>
    requires opc + BPF_X < 256
  {
    if |operands| != 2 || !operands[0].Register? then Err(UnexpectedOperands)
    else if operands[1].Register? then MakeInsn(at, opc + BPF_X, operands[0].reg, operands[1].reg, 0, 0)
    else if !operands[1].Integer? then Err(UnexpectedOperands)
    else if operands[0].reg == 10 && opc == ADD64_IMM && !v.ManualStackFrameBump() then
      MakeInsn(at, OR64_IMM, 0, 0, 0, 0)
    else MakeInsn(at, opc, operands[0].reg, 0, 0, operands[1].value)
  }

  function EmitJump(at: nat, opc: nat, labels: Labels, operands: seq<P.Operand>): Result<Insn, AsmError>
    requires opc + BPF_X < 256
  {
    if |operands| != 3 || !operands[0].Register? then Err(UnexpectedOperands)
    else
      var dst, b, target := operands[0].reg, operands[1], operands[2];
      if b.Register? && target.Integer? then MakeInsn(at, opc + BPF_X, dst, b.reg, target.value, 0)
      else if b.Integer? && target.Integer? then MakeInsn(at, opc, dst, 0, target.value, b.value)
      else if b.Register? && target.Label? then Jump(at, opc + BPF_X, dst, b.reg, 0, labels, target.target)
      else if b.Integer? && target.Label? then Jump(at, opc, dst, 0, b.value, labels, target.target)
      else Err(UnexpectedOperands)
  }

  /** A call, to an offset or to a label. */
  function EmitCall(v: SbpfVersion, at: nat, labels: Labels, operand: P.Operand): Result<Insn, AsmError> {
    var src, base := if v.StaticSyscalls() then 1 else 0, if v.StaticSyscalls() then at + 1 else 0;
    match operand
    case Integer(imm) => MakeInsn(at, CALL_IMM, 0, src, 0, imm + at + 1 - base)
    case Label(target) =>
      if target !in labels then Err(LabelNotFound) else MakeInsn(at, CALL_IMM, 0, src, 0, labels[target] - base)
    case _ => Err(UnexpectedOperands)
  }

  function EmitCallx(v: SbpfVersion, at: nat, reg: int): Result<Insn, AsmError> {
    if v.CallxUsesSrcReg() then MakeInsn(at, CALL_REG, 0, reg, 0, 0)
    else if v.CallxUsesDstReg() then MakeInsn(at, CALL_REG, reg, 0, 0, 0)
    else MakeInsn(at, CALL_REG, 0, 0, 0, reg)
  }

  /** The first instruction a mnemonic and its operands stand for. */
  function EmitFirst(c: Config, at: nat, labels: Labels, type_: InstructionType, opc: nat,
                     operands: seq<P.Operand>): Result<Insn, AsmError>
    requires opc + BPF_X < 256
  {
    match type_
    case AluBinary => EmitAlu(c.version, at, opc, operands)
    case JumpConditional => EmitJump(at, opc, labels, operands)
    case NoOperand => if operands == [] then MakeInsn(at, opc, 0, 0, 0, 0) else Err(UnexpectedOperands)
    case _ =>
      if |operands| == 1 then
        match (type_, operands[0])
        case (AluUnary, Register(dst)) => MakeInsn(at, opc, dst, 0, 0, 0)
        case (Endian(size), Register(dst)) => MakeInsn(at, opc, dst, 0, 0, size)
        case (CallReg, Register(reg)) => EmitCallx(c.version, at, reg)
        case (JumpUnconditional, Integer(off)) => MakeInsn(at, opc, 0, 0, off, 0)
        case (JumpUnconditional, Label(target)) => Jump(at, opc, 0, 0, 0, labels, target)
        case (CallImm, operand) => EmitCall(c.version, at, labels, operand)
        case (Syscall, Label(name)) => MakeInsn(at, opc, 0, 0, 0, Signed(c.hash(name), U32_MODULUS))
        case (Syscall, Integer(imm)) => MakeInsn(at, opc, 0, 0, 0, imm)
        case _ => Err(UnexpectedOperands)
      else if |operands| == 2 then
        match (type_, operands[0], operands[1])
        case (LoadReg, Register(dst), Memory(src, off)) => MakeInsn(at, opc, dst, src, off, 0)
        case (StoreReg, Memory(dst, off), Register(src)) => MakeInsn(at, opc, dst, src, off, 0)
        case (StoreImm, Memory(dst, off), Integer(imm)) => MakeInsn(at, opc, dst, 0, off, imm)
        case (LoadDwImm, Register(dst), Integer(imm)) => MakeInsn(at, opc, dst, 0, 0, LowHalf(imm))
        case _ => Err(UnexpectedOperands)
      else Err(UnexpectedOperands)
  }

  function EmitInstruction(c: Config, at: nat, labels: Labels, name: string,
                           operands: seq<P.Operand>): Result<seq<Insn>, AsmError> {
    var entry := Lookup(c.version, name);
    if entry.None? then Err(InvalidInstruction)
    else
      var first := EmitFirst(c, at, labels, entry.value.0, entry.value.1, operands);
      if first.Err? then Err(first.error)
      else if entry.value.0.LoadDwImm? && |operands| == 2 && operands[1].Integer? then
        Ok([first.value, Insn(at + 1, 0, 0, 0, 0, HighHalf(operands[1].value))])
      else Ok([first.value])
  }

  // ----- Statements -----

  predicate IsFill(s: P.Statement) {
    s.Directive? && s.name == "fill" && |s.operands| == 2 && s.operands[0].Integer? && s.operands[1].Integer?
  }

  function FillInsn(at: nat, value: int): (r: Insn)
    ensures r.Encodable() && r.ptr == at
  {
    Insn(at, value % 256, (value / 0x100) % 16, (value / 0x1000) % 16, Signed(value / 0x1_0000, U16_MODULUS),
      (value / U32_MODULUS) % U32_MODULUS)
  }

  function Fill(at: nat, repeat: int, value: int): (r: seq<Insn>) {
    if repeat <= 0 then [] else Fill(at, repeat - 1, value) + [FillInsn(at + repeat - 1, value)]
  }

  function EmitStatement(c: Config, at: nat, labels: Labels, s: P.Statement): Result<seq<Insn>, AsmError> {
    match s
    case LabelStatement(_) => Ok([])
    case Directive(_, _) =>
      if IsFill(s) then Ok(Fill(at, s.operands[0].value, s.operands[1].value)) else Err(InvalidDirective)
    case Instruction(name, operands) => EmitInstruction(c, at, labels, name, operands)
  }

  /** How far the first pass moves on; a negative fill count moves back. */
  function Advance(s: P.Statement): int {
    match s
    case LabelStatement(_) => 0
    case Directive(_, _) => if IsFill(s) then s.operands[0].value else 0
    case Instruction(name, _) => if name == "lddw" then 2 else 1
  }

  /** Where the first pass takes statement `n` to be. */
  function Start(statements: seq<P.Statement>, n: nat): int
    requires n <= |statements|
  {
    if n == 0 then 0 else Start(statements, n - 1) + Advance(statements[n - 1])
  }

  function LabelsOf(statements: seq<P.Statement>, n: nat): Labels
    requires n <= |statements|
  {
    if n == 0 then map["entrypoint" := 0]
    else if statements[n - 1].LabelStatement? then
      LabelsOf(statements, n - 1)[statements[n - 1].name := Start(statements, n - 1)]
    else LabelsOf(statements, n - 1)
  }

  /** The instructions of the first `n` statements. */
  function Assembled(c: Config, labels: Labels, statements: seq<P.Statement>, n: nat): Result<seq<Insn>, AsmError>
    requires n <= |statements|
  {
    if n == 0 then Ok([])
    else
      var before := Assembled(c, labels, statements, n - 1);
      if before.Err? then before
      else
        var more := EmitStatement(c, |before.value|, labels, statements[n - 1]);
        if more.Err? then more else Ok(before.value + more.value)
  }

  function Program(insns: seq<Insn>): (r: seq<Byte>)
    requires forall k :: 0 <= k < |insns| ==> insns[k].Encodable()
    ensures |r| == INSN_SIZE * |insns|
  {
    if insns == [] then [] else Program(insns[..|insns| - 1]) + ToArray(insns[|insns| - 1])
  }

  // ----- The two passes -----

  /** Function entry points by the low 32 bits of their position. */
  type Registry = map<nat, nat>

  ghost predicate RegistryOk(registry: Registry) {
    forall key :: key in registry ==> registry[key] % U32_MODULUS == key
  }

  predicate IsFunctionLabel(name: string) { "function_" <= name || name == "entrypoint" }

  method RegisterFunction(registry: Registry, target: int) returns (r: Result<Registry, AsmError>)
    requires RegistryOk(registry)
    ensures r.Ok? ==> RegistryOk(r.value) && r.value == registry[target % U32_MODULUS := target % U64_MODULUS]
    ensures r.Ok? ==> forall key :: key in registry ==> key in r.value && r.value[key] == registry[key]
    ensures r.Err? ==>
      && r.error == LabelCollision && target % U32_MODULUS in registry
      && registry[target % U32_MODULUS] != target % U64_MODULUS
  {
    SplitWord(target);
    var key, value := target % U32_MODULUS, target % U64_MODULUS;
    if key in registry && registry[key] != value { return Err(LabelCollision); }
    r := Ok(registry[key := value]);
  }

  method FirstPass(statements: seq<P.Statement>) returns (labels: Labels, r: Result<Registry, AsmError>)
    ensures r.Ok? ==> labels == LabelsOf(statements, |statements|) && RegistryOk(r.value)
    ensures r.Ok? ==>
      forall i :: 0 <= i < |statements| && statements[i].LabelStatement? && IsFunctionLabel(statements[i].name) ==>
      Start(statements, i) % U32_MODULUS in r.value &&
        r.value[Start(statements, i) % U32_MODULUS] == Start(statements, i) % U64_MODULUS
    ensures r.Err? ==> r.error == LabelCollision
  {
    var at := 0;
    var registry: Registry := map[];
    labels := map["entrypoint" := 0];
    for n := 0 to |statements|
      invariant at == Start(statements, n) && labels == LabelsOf(statements, n) && RegistryOk(registry)
      invariant forall i :: 0 <= i < n && statements[i].LabelStatement? && IsFunctionLabel(statements[i].name) ==>
        Start(statements, i) % U32_MODULUS in registry &&
          registry[Start(statements, i) % U32_MODULUS] == Start(statements, i) % U64_MODULUS
    {
      match statements[n]
      case LabelStatement(name) =>
        if IsFunctionLabel(name) {
          r := RegisterFunction(registry, at);
          if r.Err? { return; }
          registry := r.value;
        }
        labels := labels[name := at];
      case Directive(_, _) =>
        if IsFill(statements[n]) { at := at + statements[n].operands[0].value; }
      case Instruction(name, _) =>
        at := at + if name == "lddw" then 2 else 1;
    }
    r := Ok(registry);
  }

  method EmitFill(instructions: seq<Insn>, repeat: int, value: int) returns (more: seq<Insn>)
    ensures more == instructions + Fill(|instructions|, repeat, value)
  {
    more := instructions;
    for i := 0 to if repeat < 0 then 0 else repeat
      invariant more == instructions + Fill(|instructions|, i, value) && |more| == |instructions| + i
    {
      more := more + [FillInsn(|more|, value)];
    }
  }

  method SecondPass(c: Config, statements: seq<P.Statement>, labels: Labels, functions: Registry)
    returns (r: Result<seq<Insn>, AsmError>, registry: Registry)
    requires RegistryOk(functions)
    ensures r.Ok? ==> Assembled(c, labels, statements, |statements|) == r
    ensures r.Err? && r.error != LabelCollision ==> Assembled(c, labels, statements, |statements|) == r
    ensures RegistryOk(registry)
  {
    registry := functions;
    var instructions: seq<Insn> := [];
    for n := 0 to |statements|
      invariant Assembled(c, labels, statements, n) == Ok(instructions) && RegistryOk(registry)
    {
      match statements[n]
      case LabelStatement(_) =>
        assert instructions + [] == instructions;
      case Directive(_, operands) =>
        if !IsFill(statements[n]) {
          AssembledFails(c, labels, statements, n + 1, |statements|);
          return Err(InvalidDirective), registry;
        }
        instructions := EmitFill(instructions, operands[0].value, operands[1].value);
      case Instruction(name, operands) =>
        var entry := Lookup(c.version, name);
        if entry.Some? && entry.value.0.CallImm? && |operands| == 1 && operands[0].Integer? {
          var registered := RegisterFunction(registry, operands[0].value + |instructions| + 1);
          if registered.Err? { return Err(registered.error), registry; }
          registry := registered.value;
        }
        var emitted := EmitInstruction(c, |instructions|, labels, name, operands);
        if emitted.Err? {
          AssembledFails(c, labels, statements, n + 1, |statements|);
          return Err(emitted.error), registry;
        }
        instructions := instructions + emitted.value;
    }
    r := Ok(instructions);
  }

  lemma {:induction false} AssembledFails(c: Config, labels: Labels, statements: seq<P.Statement>, n: nat, m: nat)
    requires n <= m <= |statements| && Assembled(c, labels, statements, n).Err?
    ensures Assembled(c, labels, statements, m) == Assembled(c, labels, statements, n)
  {
    if n < m {
      AssembledFails(c, labels, statements, n, m - 1);
    }
  }
}
