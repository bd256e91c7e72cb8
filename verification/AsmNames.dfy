/** Every name the disassembler prints is found by the assembler, with the opcode it
    was printed for. */
module AsmNames {
  import opened Sequences
  import opened Ebpf
  import P = AsmParser
  import opened AsmText
  import opened Mnemonics
  import opened Disassembler

  // ----- Names -----

  lemma AluStemKnown(op: nat)
    requires AluStem(op) != ""
    ensures op <= 15 && AluCode(AluStem(op)) == Some(16 * op)
    ensures All(P.Letter, AluStem(op))
  {
  }

  lemma PqrStemKnown(op: nat, reg: bool)
    requires PqrShape(op, reg).Some?
    ensures op <= 15
    ensures var s := PqrShape(op, reg).value;
      && PqrCode(s.stem).Some? && PqrCode(s.stem).value.0 == 32 * (op / 2)
      && if op % 2 == 1 then s.suffix == "64" else s.suffix == "32" && PqrCode(s.stem).value.1
  {
  }

  lemma PqrStemLetters(op: nat, reg: bool)
    requires PqrShape(op, reg).Some?
    ensures All(P.Letter, PqrShape(op, reg).value.stem)
  {
  }

  lemma OldMemoryKnown(v: SbpfVersion, opc: nat)
    requires !v.MoveMemoryInstructionClasses() && OldMemoryShape(opc).Some?
    ensures var s := OldMemoryShape(opc).value; MemoryEntry(v, s.stem) == Some((TypeOf(s.form), opc)) && s.suffix == ""
    ensures All(P.Letter, OldMemoryShape(opc).value.stem)
  {
  }

  lemma MovedMemoryKnown(v: SbpfVersion, opc: nat)
    requires v.MoveMemoryInstructionClasses() && MovedMemoryShape(opc).Some?
    ensures var s := MovedMemoryShape(opc).value;
      MemoryEntry(v, s.stem) == Some((TypeOf(s.form), opc)) && s.suffix == ""
    ensures All(P.Letter, MovedMemoryShape(opc).value.stem)
  {
  }

  function TypeOf(form: Form): InstructionType {
    match form
    case AluImm => AluBinary
    case AluReg => AluBinary
    case Unary => AluUnary
    case Load => LoadReg
    case StoreConst => StoreImm
    case StoreValue => StoreReg
    case ByteSwap => Endian(0)
    case LoadWide => LoadDwImm
    case CallRegister => CallReg
    case Leave => NoOperand
  }

  lemma MiscKnown(stem: string)
    requires stem == "lddw" || stem == "callx" || stem == "exit"
    ensures MiscEntry(stem) ==
      Some(if stem == "lddw" then (LoadDwImm, LD_DW_IMM)
           else if stem == "callx" then (CallReg, CALL_REG)
           else (NoOperand, EXIT))
    ensures All(P.Letter, stem)
  {
  }

  lemma OtherKnown(v: SbpfVersion, opc: nat)
    requires OtherShape(v, opc).Some? && !OtherShape(v, opc).value.form.ByteSwap?
    ensures var s := OtherShape(v, opc).value; Entry(v, s.stem, s.suffix) == Some((TypeOf(s.form), opc))
    ensures All(P.Letter, OtherShape(v, opc).value.stem)
  {
    var s := OtherShape(v, opc).value;
    if s.form in {LoadWide, CallRegister, Leave} {
      MiscKnown(s.stem);
    } else if s.form.Unary? {
      NegKnown(v, s.suffix);
    } else {
      HorKnown(v);
    }
  }

  lemma NegKnown(v: SbpfVersion, suffix: string)
    ensures Entry(v, "neg", suffix) == Sized(suffix, AluUnary, NEG64, Some(NEG32)) && All(P.Letter, "neg")
  {
  }

  lemma HorKnown(v: SbpfVersion)
    ensures Entry(v, "hor", "64") == Some((AluBinary, BPF_ALU64 + 0xf0)) && All(P.Letter, "hor")
  {
  }

  /** The assembler finds under the printed name what the opcode stands for. */
  ghost predicate Known(v: SbpfVersion, shape: Shape, opc: nat) {
    && Entry(v, shape.stem, shape.suffix) == Some((TypeOf(shape.form), if shape.form.AluReg? then opc - BPF_X else opc))
    && shape.stem != "" && All(P.Letter, shape.stem)
    && (shape.suffix == "" || shape.suffix == "32" || shape.suffix == "64")
  }

  lemma OpcodeParts(opc: nat)
    requires opc < 256
    ensures opc == opc % 8 + (if (opc / 8) % 2 == 1 then BPF_X else 0) + 16 * (opc / 16)
  {
  }

  lemma AluEntry(v: SbpfVersion, stem: string, suffix: string, op: nat)
    requires AluCode(stem) == Some(16 * op) && (suffix == "32" || suffix == "64")
    ensures Entry(v, stem, suffix) == Some((AluBinary, 16 * op + if suffix == "32" then BPF_ALU32 else BPF_ALU64))
  {
  }

  lemma AluShapeKnown(v: SbpfVersion, opc: nat, suffix: string)
    requires opc < 256 && opc % 8 == (if suffix == "32" then BPF_ALU32 else BPF_ALU64)
    requires suffix == "32" || suffix == "64"
    requires AluShape(v, opc / 16, (opc / 8) % 2 == 1, suffix).Some?
    ensures Known(v, AluShape(v, opc / 16, (opc / 8) % 2 == 1, suffix).value, opc)
  {
    AluStemKnown(opc / 16);
    AluEntry(v, AluStem(opc / 16), suffix, opc / 16);
    OpcodeParts(opc);
  }

  lemma PqrEntry(v: SbpfVersion, stem: string, suffix: string, op: nat)
    requires PqrCode(stem).Some? && PqrCode(stem).value.0 == 32 * (op / 2)
    requires if op % 2 == 1 then suffix == "64" else suffix == "32" && PqrCode(stem).value.1
    ensures Entry(v, stem, suffix) == Some((AluBinary, 16 * op + BPF_PQR))
  {
  }

  lemma PqrShapeKnown(v: SbpfVersion, opc: nat)
    requires opc < 256 && opc % 8 == BPF_PQR && PqrShape(opc / 16, (opc / 8) % 2 == 1).Some?
    ensures Known(v, PqrShape(opc / 16, (opc / 8) % 2 == 1).value, opc)
  {
    var shape := PqrShape(opc / 16, (opc / 8) % 2 == 1).value;
    PqrStemKnown(opc / 16, (opc / 8) % 2 == 1);
    PqrStemLetters(opc / 16, (opc / 8) % 2 == 1);
    PqrEntry(v, shape.stem, shape.suffix, opc / 16);
    OpcodeParts(opc);
  }

  lemma MemoryShapeKnown(v: SbpfVersion, opc: nat)
    requires MemoryShape(v, opc).Some?
    ensures Known(v, MemoryShape(v, opc).value, opc)
  {
    if v.MoveMemoryInstructionClasses() {
      MovedMemoryKnown(v, opc);
    } else {
      OldMemoryKnown(v, opc);
    }
  }

  lemma ShapeKnown(v: SbpfVersion, opc: nat)
    requires opc < 256 && ShapeOf(v, opc).Some? && !ShapeOf(v, opc).value.form.ByteSwap?
    ensures Known(v, ShapeOf(v, opc).value, opc)
  {
    if MemoryShape(v, opc).Some? {
      MemoryShapeKnown(v, opc);
    } else if OtherShape(v, opc).Some? {
      OtherKnown(v, opc);
    } else if opc % 8 == BPF_PQR {
      PqrShapeKnown(v, opc);
    } else {
      AluShapeKnown(v, opc, if opc % 8 == BPF_ALU32 then "32" else "64");
    }
  }

  lemma NameIsFound(v: SbpfVersion, stem: string, suffix: string)
    requires stem != "" && All(P.Letter, stem) && All(P.Digit, suffix)
    ensures Lookup(v, stem + suffix) == Entry(v, stem, suffix)
    ensures stem + suffix != "" && All(P.Alnum, stem + suffix)
  {
    assert Stops(P.Letter, suffix) by {
      assert suffix != "" ==> P.Has(P.Digit, suffix[0]);
    }
    RunOf(P.Letter, stem, suffix);
  }

  lemma TwoDigits(n: nat)
    requires n == 16 || n == 32 || n == 64
    ensures Dec(n) == if n == 16 then "16" else if n == 32 then "32" else "64"
  {
    assert Digits(10, n / 10) == [DigitChar(n / 10)];
  }

  lemma SwapIsFound(v: SbpfVersion, stem: string, imm: int)
    requires (stem == "be" || stem == "le") && (imm == 16 || imm == 32 || imm == 64)
    ensures Lookup(v, stem + Dec(imm)) == Some((Endian(imm), if stem == "be" then BE else LE))
    ensures stem + Dec(imm) != "" && All(P.Alnum, stem + Dec(imm))
  {
    TwoDigits(imm);
    DigitsRead(10, imm);
    SwapEntry(v, stem, Dec(imm));
    NameIsFound(v, stem, Dec(imm));
  }

  lemma SwapEntry(v: SbpfVersion, stem: string, suffix: string)
    requires stem == "be" || stem == "le"
    ensures Entry(v, stem, suffix) == EndianEntry(suffix, if stem == "be" then BE else LE)
    ensures All(P.Letter, stem)
  {
  }

  lemma SwapShape(v: SbpfVersion, opc: nat)
    requires ShapeOf(v, opc).Some? && ShapeOf(v, opc).value.form.ByteSwap?
    ensures var stem := ShapeOf(v, opc).value.stem; (stem == "be" && opc == BE) || (stem == "le" && opc == LE)
  {
  }

  lemma SingleOpcodes(v: SbpfVersion, opc: nat)
    requires ShapeOf(v, opc).Some?
    ensures ShapeOf(v, opc).value.form.LoadWide? <==> opc == LD_DW_IMM
    ensures ShapeOf(v, opc).value.form.CallRegister? ==> opc == CALL_REG
    ensures opc == ADD64_IMM ==> ShapeOf(v, opc).value.form.AluImm?
  {
  }
}
