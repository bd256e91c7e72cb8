/** The assembler undoes the disassembler. */
module AsmRoundTrip {
  import opened Sequences
  import opened Ebpf
  import P = AsmParser
  import opened AsmText
  import opened Mnemonics
  import opened Assembler
  import opened AssemblerLabels
  import opened Disassembler
  import opened AsmNames

  // ----- One instruction -----

  function OperandsOf(v: SbpfVersion, form: Form, insn: Insn): seq<P.Operand> {
    match form
    case AluImm => [P.Register(insn.dst), P.Integer(insn.imm)]
    case AluReg => [P.Register(insn.dst), P.Register(insn.src)]
    case Unary => [P.Register(insn.dst)]
    case Load => [P.Register(insn.dst), P.Memory(insn.src, insn.off)]
    case StoreConst => [P.Memory(insn.dst, insn.off), P.Integer(insn.imm)]
    case StoreValue => [P.Memory(insn.dst, insn.off), P.Register(insn.src)]
    case ByteSwap => [P.Register(insn.dst)]
    case LoadWide => [P.Register(insn.dst), P.Integer(insn.imm)]
    case CallRegister => [P.Register(CallxRegister(v, insn))]
    case Leave => []
  }

  /** The fields a form does not print are zero, and the others in range. */
  predicate Canonical(v: SbpfVersion, form: Form, insn: Insn) {
    && insn.Encodable()
    && match form
      case AluImm => insn.src == 0 && insn.off == 0 && -0x8000_0000 <= insn.imm < 0x8000_0000
      case AluReg => insn.off == 0 && insn.imm == 0
      case Unary => insn.src == 0 && insn.off == 0 && insn.imm == 0
      case Load => insn.imm == 0
      case StoreConst => insn.src == 0 && -0x8000_0000 <= insn.imm < 0x8000_0000
      case StoreValue => insn.imm == 0
      case ByteSwap => insn.src == 0 && insn.off == 0 && (insn.imm == 16 || insn.imm == 32 || insn.imm == 64)
      case LoadWide => insn.src == 0 && insn.off == 0 && IsI64(insn.imm)
      case CallRegister =>
        && insn.off == 0
        && (v.CallxUsesSrcReg() || insn.src == 0) && (v.CallxUsesDstReg() || insn.dst == 0)
        && (if v.CallxUsesSrcReg() || v.CallxUsesDstReg() then insn.imm == 0 else 0 <= insn.imm < 256)
      case Leave => insn.dst == 0 && insn.src == 0 && insn.off == 0 && insn.imm == 0
  }

  /** An instruction the disassembler prints in full. */
  predicate Printable(v: SbpfVersion, insn: Insn) {
    ShapeOf(v, insn.opc).Some? && Canonical(v, ShapeOf(v, insn.opc).value.form, insn)
  }

  /** Moving the frame pointer is dropped where the version does it itself. */
  predicate IsDroppedBump(v: SbpfVersion, insn: Insn) {
    insn.opc == ADD64_IMM && insn.dst == 10 && !v.ManualStackFrameBump()
  }

  /** The encoded form of a decoded instruction. */
  function Halves(insn: Insn): seq<Insn> {
    if insn.opc == LD_DW_IMM then [insn.(imm := LowHalf(insn.imm)), Insn(insn.ptr + 1, 0, 0, 0, 0, HighHalf(insn.imm))]
    else [insn]
  }

  lemma OperandsRead(v: SbpfVersion, shape: Shape, insn: Insn)
    requires Canonical(v, shape.form, insn) && Name(shape, insn) != "" && All(P.Alnum, Name(shape, insn))
    ensures LineReads(Text(v, shape, insn), P.Instruction(Name(shape, insn), OperandsOf(v, shape.form, insn)))
  {
    var name, dst, src := Name(shape, insn), RegText(insn.dst), RegText(insn.src);
    RegisterReads(insn.dst);
    RegisterReads(insn.src);
    match shape.form
    case AluImm =>
      IntegerReads(insn.imm);
      TwoOperands(name, dst, P.Register(insn.dst), Dec(insn.imm), P.Integer(insn.imm));
    case AluReg =>
      TwoOperands(name, dst, P.Register(insn.dst), src, P.Register(insn.src));
    case Unary =>
      OneOperand(name, dst, P.Register(insn.dst));
    case Load =>
      MemoryReads(insn.src, insn.off);
      TwoOperands(name, dst, P.Register(insn.dst), MemText(insn.src, insn.off), P.Memory(insn.src, insn.off));
    case StoreConst =>
      MemoryReads(insn.dst, insn.off);
      IntegerReads(insn.imm);
      TwoOperands(name, MemText(insn.dst, insn.off), P.Memory(insn.dst, insn.off), Dec(insn.imm), P.Integer(insn.imm));
    case StoreValue =>
      MemoryReads(insn.dst, insn.off);
      TwoOperands(name, MemText(insn.dst, insn.off), P.Memory(insn.dst, insn.off), src, P.Register(insn.src));
    case ByteSwap =>
      OneOperand(name, dst, P.Register(insn.dst));
    case LoadWide =>
      HexReads(insn.imm);
      TwoOperands(name, dst, P.Register(insn.dst), Hex(insn.imm), P.Integer(insn.imm));
    case CallRegister =>
      RegisterReads(CallxRegister(v, insn));
      OneOperand(name, RegText(CallxRegister(v, insn)), P.Register(CallxRegister(v, insn)));
    case Leave =>
      NoOperands(name);
  }

  lemma SuffixDigits(suffix: string)
    requires suffix == "" || suffix == "32" || suffix == "64"
    ensures All(P.Digit, suffix)
  {
  }

  lemma NameFound(v: SbpfVersion, insn: Insn)
    requires Printable(v, insn)
    ensures var shape := ShapeOf(v, insn.opc).value;
      && Name(shape, insn) != "" && All(P.Alnum, Name(shape, insn))
      && Lookup(v, Name(shape, insn)) == Some(
           if shape.form.ByteSwap? then (Endian(insn.imm), insn.opc)
           else (TypeOf(shape.form), if shape.form.AluReg? then insn.opc - BPF_X else insn.opc))
  {
    var shape := ShapeOf(v, insn.opc).value;
    if shape.form.ByteSwap? {
      SwapShape(v, insn.opc);
      SwapIsFound(v, shape.stem, insn.imm);
    } else {
      ShapeKnown(v, insn.opc);
      SuffixDigits(shape.suffix);
      NameIsFound(v, shape.stem, shape.suffix);
    }
  }

  /** What the assembler makes of a printed instruction: the instruction itself, or
      nothing in its place if it moved the frame pointer. */
  function Reassembled(v: SbpfVersion, insn: Insn): seq<Insn> {
    if IsDroppedBump(v, insn) then [Insn(insn.ptr, OR64_IMM, 0, 0, 0, 0)] else Halves(insn)
  }

  lemma EmitGivesBack(c: Config, labels: Labels, insn: Insn)
    requires Printable(c.version, insn)
    ensures var shape := ShapeOf(c.version, insn.opc).value;
      EmitInstruction(c, insn.ptr, labels, Name(shape, insn), OperandsOf(c.version, shape.form, insn)) ==
        Ok(Reassembled(c.version, insn))
  {
    var shape := ShapeOf(c.version, insn.opc).value;
    NameFound(c.version, insn);
    SingleOpcodes(c.version, insn.opc);
    EmitFields(c, labels, shape.form, insn);
  }

  lemma EmitFields(c: Config, labels: Labels, form: Form, insn: Insn)
    requires Canonical(c.version, form, insn)
    requires form.CallRegister? ==> insn.opc == CALL_REG
    requires insn.opc == ADD64_IMM ==> form.AluImm?
    requires form.AluReg? ==> BPF_X <= insn.opc
    requires !form.AluReg? ==> insn.opc + BPF_X < 256
    ensures var opc := if form.AluReg? then insn.opc - BPF_X else insn.opc;
      var type_ := if form.ByteSwap? then Endian(insn.imm) else TypeOf(form);
      EmitFirst(c, insn.ptr, labels, type_, opc, OperandsOf(c.version, form, insn)) ==
        Ok(if IsDroppedBump(c.version, insn) then Insn(insn.ptr, OR64_IMM, 0, 0, 0, 0)
           else if form.LoadWide? then insn.(imm := LowHalf(insn.imm)) else insn)
  {
  }

  // ----- Whole programs -----

  predicate AllPrintable(v: SbpfVersion, insns: seq<Insn>) {
    forall i :: 0 <= i < |insns| ==> Printable(v, insns[i])
  }

  function StatementOf(v: SbpfVersion, insn: Insn): P.Statement
    requires Printable(v, insn)
  {
    var shape := ShapeOf(v, insn.opc).value;
    P.Instruction(Name(shape, insn), OperandsOf(v, shape.form, insn))
  }

  /** A listing: one instruction a line. */
  function Listing(v: SbpfVersion, insns: seq<Insn>): string
    requires AllPrintable(v, insns)
  {
    if insns == [] then "" else Text(v, ShapeOf(v, insns[0].opc).value, insns[0]) + ("\n" + Listing(v, insns[1..]))
  }

  function StatementsOf(v: SbpfVersion, insns: seq<Insn>): seq<P.Statement>
    requires AllPrintable(v, insns)
  {
    if insns == [] then [] else [StatementOf(v, insns[0])] + StatementsOf(v, insns[1..])
  }

  lemma TextReads(v: SbpfVersion, insn: Insn)
    requires Printable(v, insn)
    ensures LineReads(Text(v, ShapeOf(v, insn.opc).value, insn), StatementOf(v, insn))
  {
    NameFound(v, insn);
    OperandsRead(v, ShapeOf(v, insn.opc).value, insn);
  }

  lemma ReadLine(text: string, statement: P.Statement, rest: string)
    requires LineReads(text, statement) && Stops(P.White, rest) && P.ParseStatements(rest).Got?
    ensures var r := P.ParseStatements(rest);
      P.ParseStatements(text + ("\n" + rest)) == P.Got([statement] + r.value, r.rest)
  {
    assert LineEnd("\n" + rest);
    assert P.ParseStatement(text + ("\n" + rest)) == P.Got(statement, "\n" + rest);
    SkipOne(P.White, '\n', rest);
  }

  lemma {:induction false} ListingReads(v: SbpfVersion, insns: seq<Insn>)
    requires AllPrintable(v, insns)
    ensures Stops(P.White, Listing(v, insns))
    ensures P.ParseStatements(Listing(v, insns)) == P.Got(StatementsOf(v, insns), "")
  {
    if insns != [] {
      ListingReads(v, insns[1..]);
      TextReads(v, insns[0]);
      ReadLine(Text(v, ShapeOf(v, insns[0].opc).value, insns[0]), StatementOf(v, insns[0]), Listing(v, insns[1..]));
    }
  }

  lemma {:induction false} StatementsMatch(v: SbpfVersion, insns: seq<Insn>, i: nat)
    requires AllPrintable(v, insns) && i < |insns|
    ensures |StatementsOf(v, insns)| == |insns| && StatementsOf(v, insns)[i] == StatementOf(v, insns[i])
  {
    if |insns| > 1 {
      StatementsMatch(v, insns[1..], if i == 0 then 0 else i - 1);
    }
  }

  /** Instructions stand one after the other, `lddw` taking two places. */
  function Offset(insns: seq<Insn>, n: nat): nat
    requires n <= |insns|
  {
    if n == 0 then 0 else Offset(insns, n - 1) + |Halves(insns[n - 1])|
  }

  ghost predicate Laid(insns: seq<Insn>) {
    forall i :: 0 <= i < |insns| ==> insns[i].ptr == Offset(insns, i)
  }

  function Rebuilt(v: SbpfVersion, insns: seq<Insn>, n: nat): (r: seq<Insn>)
    requires n <= |insns|
    ensures |r| == Offset(insns, n)
  {
    if n == 0 then [] else Rebuilt(v, insns, n - 1) + Reassembled(v, insns[n - 1])
  }

  lemma {:induction false} ListingAssembles(c: Config, labels: Labels, insns: seq<Insn>, n: nat)
    requires AllPrintable(c.version, insns) && Laid(insns) && n <= |insns| == |StatementsOf(c.version, insns)|
    ensures Assembled(c, labels, StatementsOf(c.version, insns), n) == Ok(Rebuilt(c.version, insns, n))
  {
    if n > 0 {
      ListingAssembles(c, labels, insns, n - 1);
      StatementsMatch(c.version, insns, n - 1);
      EmitGivesBack(c, labels, insns[n - 1]);
    }
  }

  ghost predicate StandsAt(v: SbpfVersion, all: seq<Insn>, insn: Insn, at: nat) {
    && at + |Halves(insn)| <= |all|
    && forall k :: 0 <= k < |Halves(insn)| ==> all[at + k] == Reassembled(v, insn)[k]
  }

  lemma {:induction false} RebuiltAt(v: SbpfVersion, insns: seq<Insn>, i: nat, n: nat)
    requires i < n <= |insns|
    ensures StandsAt(v, Rebuilt(v, insns, n), insns[i], Offset(insns, i))
  {
    var before := Rebuilt(v, insns, n - 1);
    if i < n - 1 {
      RebuiltAt(v, insns, i, n - 1);
      StillStands(v, before, Reassembled(v, insns[n - 1]), insns[i], Offset(insns, i));
    } else {
      StandsLast(v, before, insns[i]);
    }
  }

  lemma StillStands(v: SbpfVersion, all: seq<Insn>, more: seq<Insn>, insn: Insn, at: nat)
    requires StandsAt(v, all, insn, at)
    ensures StandsAt(v, all + more, insn, at)
  {
  }

  lemma StandsLast(v: SbpfVersion, before: seq<Insn>, insn: Insn)
    ensures StandsAt(v, before + Reassembled(v, insn), insn, |before|)
  {
  }

  /** What is read back at `pc`, both halves of a wide load merged. */
  function Decoded(prog: seq<Byte>, pc: nat): Option<Insn> {
    if INSN_SIZE * pc + INSN_SIZE > |prog| then None
    else
      var insn := GetInsn(prog, pc);
      if insn.opc != LD_DW_IMM then Some(insn)
      else if INSN_SIZE * (pc + 1) + INSN_SIZE > |prog| then None
      else Some(AugmentLddw(prog, insn))
  }

  lemma RebuiltEncodable(v: SbpfVersion, insns: seq<Insn>, n: nat)
    requires AllPrintable(v, insns) && n <= |insns|
    ensures AllEncodable(Rebuilt(v, insns, n))
  {
    if n > 0 {
      RebuiltEncodable(v, insns, n - 1);
      assert Printable(v, insns[n - 1]);
    }
  }

  lemma NarrowImmediate(v: SbpfVersion, insn: Insn)
    requires Printable(v, insn) && insn.opc != LD_DW_IMM
    ensures -0x8000_0000 <= insn.imm < 0x8000_0000
  {
    SingleOpcodes(v, insn.opc);
  }

  lemma ReadNarrow(all: seq<Insn>, at: nat, insn: Insn)
    requires AllEncodable(all) && at < |all| && all[at] == insn && insn.ptr == at
    requires insn.opc != LD_DW_IMM && -0x8000_0000 <= insn.imm < 0x8000_0000
    ensures Decoded(Program(all), at) == Some(insn)
  {
    DecodeProgram(all, at);
  }

  lemma ReadWide(all: seq<Insn>, at: nat, insn: Insn)
    requires AllEncodable(all) && at + 1 < |all| && insn.ptr == at && insn.opc == LD_DW_IMM && IsI64(insn.imm)
    requires all[at] == insn.(imm := LowHalf(insn.imm)) && all[at + 1].imm == HighHalf(insn.imm)
    ensures Decoded(Program(all), at) == Some(insn)
  {
    DecodeProgram(all, at);
    WideDecodes(all, at, insn.imm);
  }

  lemma ReadBack(v: SbpfVersion, all: seq<Insn>, insn: Insn)
    requires Printable(v, insn) && AllEncodable(all) && StandsAt(v, all, insn, insn.ptr)
    ensures Decoded(Program(all), insn.ptr) == Some(insn) <==> !IsDroppedBump(v, insn)
  {
    var at, first := insn.ptr, Reassembled(v, insn)[0];
    assert all[at + 0] == first;
    if insn.opc == LD_DW_IMM {
      SingleOpcodes(v, insn.opc);
      assert all[at + 1] == Halves(insn)[1];
      ReadWide(all, at, insn);
    } else {
      NarrowImmediate(v, insn);
      ReadNarrow(all, at, first);
    }
  }

  lemma ReadBackAt(v: SbpfVersion, insns: seq<Insn>, all: seq<Insn>, i: nat)
    requires AllPrintable(v, insns) && Laid(insns) && i < |insns| && all == Rebuilt(v, insns, |insns|)
    requires AllEncodable(all)
    ensures Decoded(Program(all), insns[i].ptr) == Some(insns[i]) <==> !IsDroppedBump(v, insns[i])
  {
    RebuiltAt(v, insns, i, |insns|);
    ReadBack(v, all, insns[i]);
  }

  /** Printing a program, parsing the listing and assembling it gives the program
      back, instruction by instruction; only a dropped frame-pointer bump is lost. */
  lemma AssemblerUndoesDisassembler(c: Config, insns: seq<Insn>)
    requires AllPrintable(c.version, insns) && Laid(insns)
    ensures var statements, all := StatementsOf(c.version, insns), Rebuilt(c.version, insns, |insns|);
      && P.Parse(Listing(c.version, insns)) == Some(statements)
      && IsAssembly(c, statements, all) && AllEncodable(all)
      && forall i :: 0 <= i < |insns| ==>
        (Decoded(Program(all), insns[i].ptr) == Some(insns[i]) <==> !IsDroppedBump(c.version, insns[i]))
  {
    var v, n := c.version, |insns|;
    var statements, all := StatementsOf(v, insns), Rebuilt(v, insns, n);
    ListingReads(v, insns);
    SkipNothing(P.White, Listing(v, insns));
    if n > 0 {
      StatementsMatch(v, insns, 0);
    }
    ListingAssembles(c, LabelsOf(statements, n), insns, n);
    RebuiltEncodable(v, insns, n);
    forall i | 0 <= i < n
      ensures Decoded(Program(all), insns[i].ptr) == Some(insns[i]) <==> !IsDroppedBump(v, insns[i])
    {
      ReadBackAt(v, insns, all, i);
    }
  }

  /** A frame-pointer bump that a version without them prints but does not assemble. */
  lemma BumpIsDropped(hash: string -> nat)
    ensures var c, insns := Config(V0, hash), [Insn(0, ADD64_IMM, 10, 0, 0, 8)];
      && AllPrintable(c.version, insns) && Laid(insns)
      && Decoded(Program(Rebuilt(c.version, insns, 1)), 0) != Some(insns[0])
  {
    AssemblerUndoesDisassembler(Config(V0, hash), [Insn(0, ADD64_IMM, 10, 0, 0, 8)]);
  }
}
