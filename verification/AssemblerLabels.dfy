/** What two-pass assembly achieves: positions, labels and bytes. */
module AssemblerLabels {
  import opened Words
  import opened Sequences
  import opened Ebpf
  import P = AsmParser
  import AsmText
  import opened Mnemonics
  import opened Assembler

  ghost predicate IsAssembly(c: Config, statements: seq<P.Statement>, insns: seq<Insn>) {
    Assembled(c, LabelsOf(statements, |statements|), statements, |statements|) == Ok(insns)
  }

  // ----- Positions -----

  lemma EmitsInOrder(c: Config, at: nat, labels: Labels, s: P.Statement)
    requires EmitStatement(c, at, labels, s).Ok?
    ensures var part := EmitStatement(c, at, labels, s).value;
      forall k :: 0 <= k < |part| ==> part[k].ptr == at + k && part[k].Encodable()
  {
    if IsFill(s) {
      FillInOrder(at, s.operands[0].value, s.operands[1].value);
    }
  }

  lemma {:induction false} FillInOrder(at: nat, repeat: int, value: int)
    ensures |Fill(at, repeat, value)| == if repeat < 0 then 0 else repeat
    ensures forall k :: 0 <= k < |Fill(at, repeat, value)| ==> Fill(at, repeat, value)[k] == FillInsn(at + k, value)
    decreases if repeat < 0 then 0 else repeat
  {
    if repeat > 0 {
      FillInOrder(at, repeat - 1, value);
    }
  }

  /** Instruction `k` has pointer `k`. */
  lemma {:induction false} PointersAreIndices(c: Config, labels: Labels, statements: seq<P.Statement>, n: nat)
    requires n <= |statements| && Assembled(c, labels, statements, n).Ok?
    ensures var insns := Assembled(c, labels, statements, n).value;
      forall k :: 0 <= k < |insns| ==> insns[k].ptr == k && insns[k].Encodable()
  {
    if n > 0 {
      PointersAreIndices(c, labels, statements, n - 1);
      EmitsInOrder(c, |Assembled(c, labels, statements, n - 1).value|, labels, statements[n - 1]);
    }
  }

  /** Where the instructions of statement `i` are. */
  lemma {:induction false} StatementAt(c: Config, labels: Labels, statements: seq<P.Statement>, i: nat, n: nat)
    returns (at: nat, part: seq<Insn>)
    requires i < n <= |statements| && Assembled(c, labels, statements, n).Ok?
    ensures var before, insns := Assembled(c, labels, statements, i), Assembled(c, labels, statements, n).value;
      && before.Ok? && at == |before.value| && EmitStatement(c, at, labels, statements[i]) == Ok(part)
      && at + |part| <= |insns| && forall k :: 0 <= k < |part| ==> insns[at + k] == part[k]
  {
    var before, more := AssembledNext(c, labels, statements, n);
    if i == n - 1 {
      at, part := |before|, more;
    } else {
      at, part := StatementAt(c, labels, statements, i, n - 1);
      assert forall k :: 0 <= k < |part| ==> (before + more)[at + k] == part[k];
    }
  }

  lemma AssembledNext(c: Config, labels: Labels, statements: seq<P.Statement>, n: nat)
    returns (before: seq<Insn>, more: seq<Insn>)
    requires 0 < n <= |statements| && Assembled(c, labels, statements, n).Ok?
    ensures Assembled(c, labels, statements, n - 1) == Ok(before)
    ensures EmitStatement(c, |before|, labels, statements[n - 1]) == Ok(more)
    ensures Assembled(c, labels, statements, n).value == before + more
  {
    before := Assembled(c, labels, statements, n - 1).value;
    more := EmitStatement(c, |before|, labels, statements[n - 1]).value;
  }

  /** Moved back in the first pass, but not taken back in the second. */
  function Lost(statements: seq<P.Statement>, n: nat): nat
    requires n <= |statements|
  {
    if n == 0 then 0
    else
      var s := statements[n - 1];
      Lost(statements, n - 1) + if IsFill(s) && s.operands[0].value < 0 then -s.operands[0].value else 0
  }

  predicate NoNegativeFill(statements: seq<P.Statement>, n: nat)
    requires n <= |statements|
  {
    forall i :: 0 <= i < n && IsFill(statements[i]) ==> statements[i].operands[0].value >= 0
  }

  lemma {:induction false} NothingLost(statements: seq<P.Statement>, n: nat)
    requires n <= |statements|
    ensures Lost(statements, n) == 0 <==> NoNegativeFill(statements, n)
  {
    if n > 0 {
      NothingLost(statements, n - 1);
    }
  }

  lemma EmitsAdvance(c: Config, at: nat, labels: Labels, s: P.Statement)
    requires EmitStatement(c, at, labels, s).Ok?
    ensures |EmitStatement(c, at, labels, s).value| == if IsFill(s) && s.operands[0].value < 0 then 0 else Advance(s)
  {
    match s
    case LabelStatement(_) =>
    case Directive(_, _) => FillInOrder(at, s.operands[0].value, s.operands[1].value);
    case Instruction(name, operands) => OnlyLddwIsWide(c.version, name);
  }

  lemma OnlyLddwIsWide(v: SbpfVersion, name: string)
    ensures Lookup(v, name).Some? && Lookup(v, name).value.0.LoadDwImm? <==> name == "lddw"
  {
    var n := P.Run(P.Letter, name);
    assert name == name[..n] + name[n..];
    WideEntry(v, name[..n], name[n..]);
    AsmText.RunOf(P.Letter, "lddw", "");
    assert "lddw" + "" == "lddw";
  }

  lemma WideEntry(v: SbpfVersion, stem: string, suffix: string)
    ensures Entry(v, stem, suffix).Some? && Entry(v, stem, suffix).value.0.LoadDwImm? <==>
      stem == "lddw" && suffix == ""
  {
  }

  /** The passes agree on a position exactly if no negative fill comes before it. */
  lemma {:induction false} PassesAgree(c: Config, labels: Labels, statements: seq<P.Statement>, n: nat)
    requires n <= |statements| && Assembled(c, labels, statements, n).Ok?
    ensures |Assembled(c, labels, statements, n).value| == Start(statements, n) + Lost(statements, n)
    ensures |Assembled(c, labels, statements, n).value| == Start(statements, n) <==> NoNegativeFill(statements, n)
  {
    NothingLost(statements, n);
    if n > 0 {
      PassesAgree(c, labels, statements, n - 1);
      EmitsAdvance(c, |Assembled(c, labels, statements, n - 1).value|, labels, statements[n - 1]);
    }
  }

  // ----- Labels -----

  ghost predicate LastDefinition(statements: seq<P.Statement>, name: string, j: nat) {
    && j < |statements| && statements[j] == P.LabelStatement(name)
    && forall k :: j < k < |statements| ==> statements[k] != P.LabelStatement(name)
  }

  /** A label stands for its last definition; the entry point needs none. */
  lemma {:induction false} LabelMeaning(statements: seq<P.Statement>, name: string, n: nat)
    requires n <= |statements|
    ensures name in LabelsOf(statements, n) <==> name == "entrypoint" || P.LabelStatement(name) in statements[..n]
    ensures forall j: nat :: LastDefinition(statements[..n], name, j) ==>
      LabelsOf(statements, n)[name] == Start(statements, j)
    ensures name == "entrypoint" && P.LabelStatement(name) !in statements[..n] ==> LabelsOf(statements, n)[name] == 0
  {
    if n > 0 {
      LabelMeaning(statements, name, n - 1);
      var init, now := statements[..n - 1], statements[..n];
      assert now == init + [statements[n - 1]];
      forall j: nat | LastDefinition(now, name, j) ensures LabelsOf(statements, n)[name] == Start(statements, j) {
        if j < n - 1 {
          assert now[n - 1] != P.LabelStatement(name);
          assert LastDefinition(init, name, j);
        }
      }
    }
  }

  /** The label a jump names. */
  function JumpTarget(v: SbpfVersion, s: P.Statement): Option<string> {
    if !s.Instruction? || Lookup(v, s.name).None? then None
    else
      var type_ := Lookup(v, s.name).value.0;
      if type_.JumpUnconditional? && |s.operands| == 1 && s.operands[0].Label? then Some(s.operands[0].target)
      else if type_.JumpConditional? && |s.operands| == 3 && s.operands[2].Label? then Some(s.operands[2].target)
      else None
  }

  lemma JumpOffset(c: Config, at: nat, labels: Labels, s: P.Statement)
    requires JumpTarget(c.version, s).Some? && EmitStatement(c, at, labels, s).Ok?
    ensures var part, target := EmitStatement(c, at, labels, s).value, JumpTarget(c.version, s).value;
      |part| == 1 && target in labels && part[0].ptr + part[0].off + 1 == labels[target]
  {
  }

  /** Every jump to a label goes to the first instruction after the label's last
      definition, exactly if no negative fill comes before that definition. */
  lemma JumpsHitLabels(c: Config, statements: seq<P.Statement>, insns: seq<Insn>, i: nat, j: nat) returns (at: nat)
    requires IsAssembly(c, statements, insns) && i < |statements|
    requires JumpTarget(c.version, statements[i]).Some?
    requires LastDefinition(statements, JumpTarget(c.version, statements[i]).value, j)
    ensures at < |insns| && insns[at].ptr == at
    ensures var labels := LabelsOf(statements, |statements|);
      && Assembled(c, labels, statements, i).Ok? && at == |Assembled(c, labels, statements, i).value|
      && Assembled(c, labels, statements, j).Ok?
      && (at + insns[at].off + 1 == |Assembled(c, labels, statements, j).value| <==> NoNegativeFill(statements, j))
  {
    var labels, n := LabelsOf(statements, |statements|), |statements|;
    var part;
    at, part := StatementAt(c, labels, statements, i, n);
    JumpOffset(c, at, labels, statements[i]);
    assert insns[at + 0] == part[0];
    var _, _ := StatementAt(c, labels, statements, j, n);
    PassesAgree(c, labels, statements, j);
    assert statements[..n] == statements;
    LabelMeaning(statements, JumpTarget(c.version, statements[i]).value, n);
    PointersAreIndices(c, labels, statements, n);
  }

  /** A jump to a label behind a negative fill. */
  function BackwardFill(): seq<P.Statement> {
    [P.Directive("fill", [P.Integer(-1), P.Integer(0)]), P.LabelStatement("x"), P.Instruction("ja", [P.Label("x")])]
  }

  lemma JaIsJump(v: SbpfVersion)
    ensures Lookup(v, "ja") == Some((JumpUnconditional, JA))
  {
    AsmText.RunOf(P.Letter, "ja", "");
    assert "ja" + "" == "ja";
  }

  /** It assembles, and the jump goes one instruction before the label. */
  lemma BackwardFillMisses(c: Config)
    ensures var statements, insns := BackwardFill(), [Insn(0, JA, 0, 0, -2, 0)];
      && IsAssembly(c, statements, insns) && LastDefinition(statements, "x", 1)
      && JumpTarget(c.version, statements[2]) == Some("x")
      && Assembled(c, LabelsOf(statements, 3), statements, 1) == Ok([])
      && insns[0].ptr + insns[0].off + 1 == -1
  {
    var statements, none: seq<Insn> := BackwardFill(), [];
    var labels := LabelsOf(statements, 3);
    assert labels["x"] == -1 by { assert Start(statements, 1) == -1; }
    assert Assembled(c, labels, statements, 1) == Ok([]) by {
      assert EmitStatement(c, 0, labels, statements[0]) == Ok(none) && none + none == none;
    }
    assert Assembled(c, labels, statements, 2) == Ok([]) by { assert none + none == none; }
    var jump := Insn(0, JA, 0, 0, -2, 0);
    assert EmitStatement(c, 0, labels, statements[2]) == Ok([jump]) by { JaIsJump(c.version); }
    assert none + [jump] == [jump];
  }

  // ----- Bytes -----

  ghost predicate AllEncodable(insns: seq<Insn>) {
    forall k :: 0 <= k < |insns| ==> insns[k].Encodable()
  }

  lemma {:induction false} ProgramHolds(insns: seq<Insn>, k: nat)
    requires AllEncodable(insns) && k < |insns|
    ensures Emitted(Program(insns), k, insns[k])
  {
    var init := insns[..|insns| - 1];
    var before, last := Program(init), ToArray(insns[|insns| - 1]);
    if k == |insns| - 1 {
      assert (before + last)[|before|..|before| + |last|] == last;
    } else {
      ProgramHolds(init, k);
      assert (before + last)[INSN_SIZE * k..INSN_SIZE * k + INSN_SIZE] ==
        before[INSN_SIZE * k..INSN_SIZE * k + INSN_SIZE];
    }
  }

  /** Decoding the emitted bytes returns every instruction, its immediate cut to 32
      bits; only a fill can have a wider one. */
  lemma DecodeProgram(insns: seq<Insn>, k: nat)
    requires AllEncodable(insns) && k < |insns| && insns[k].ptr == k
    ensures GetInsn(Program(insns), k) == insns[k].(imm := Signed(insns[k].imm, U32_MODULUS))
    ensures GetInsn(Program(insns), k) == insns[k] <==> -0x8000_0000 <= insns[k].imm < 0x8000_0000
  {
    ProgramHolds(insns, k);
    DecodeEncode(Program(insns), k, insns[k]);
  }

  /** What an instruction statement emits survives encoding, a 64-bit immediate
      included. */
  lemma InstructionDecodes(c: Config, statements: seq<P.Statement>, insns: seq<Insn>, i: nat)
    returns (at: nat, part: seq<Insn>)
    requires IsAssembly(c, statements, insns) && i < |statements| && statements[i].Instruction?
    ensures AllEncodable(insns) && at + |part| <= |insns| && part != [] && insns[at..at + |part|] == part
    ensures EmitStatement(c, at, LabelsOf(statements, |statements|), statements[i]) == Ok(part)
    ensures GetInsn(Program(insns), at) == part[0] && part[0].ptr == at
    ensures |part| == 2 && IsI64(statements[i].operands[1].value) ==>
      AugmentLddw(Program(insns), GetInsn(Program(insns), at)) == part[0].(imm := statements[i].operands[1].value)
  {
    var labels, n := LabelsOf(statements, |statements|), |statements|;
    at, part := StatementAt(c, labels, statements, i, n);
    PointersAreIndices(c, labels, statements, n);
    ImmediatesFit(c, at, labels, statements[i].name, statements[i].operands);
    PartDecodes(insns, at, part, if |part| == 2 then statements[i].operands[1].value else 0);
    PartIsSlice(insns, at, part);
  }

  lemma PartIsSlice(insns: seq<Insn>, at: nat, part: seq<Insn>)
    requires at + |part| <= |insns| && forall k :: 0 <= k < |part| ==> insns[at + k] == part[k]
    ensures insns[at..at + |part|] == part
  {
  }

  lemma PartDecodes(insns: seq<Insn>, at: nat, part: seq<Insn>, imm: int)
    requires AllEncodable(insns) && 1 <= |part| <= 2 && at + |part| <= |insns| && insns[at].ptr == at
    requires forall k :: 0 <= k < |part| ==> insns[at + k] == part[k]
    requires -0x8000_0000 <= part[0].imm < 0x8000_0000
    requires |part| == 2 ==> part[0].imm == LowHalf(imm) && part[1].imm == HighHalf(imm)
    ensures part[0].ptr == at && GetInsn(Program(insns), at) == part[0]
    ensures |part| == 2 && IsI64(imm) ==>
      AugmentLddw(Program(insns), GetInsn(Program(insns), at)) == part[0].(imm := imm)
  {
    assert insns[at + 0] == part[0];
    var prog := Program(insns);
    assert GetInsn(prog, at) == part[0] by { DecodeProgram(insns, at); }
    if |part| == 2 && IsI64(imm) {
      assert insns[at + 1] == part[1];
      assert AugmentLddw(prog, GetInsn(prog, at)) == part[0].(imm := imm) by { WideDecodes(insns, at, imm); }
    }
  }

  lemma WideDecodes(insns: seq<Insn>, at: nat, imm: int)
    requires AllEncodable(insns) && at + 1 < |insns| && IsI64(imm) && insns[at].ptr == at
    requires insns[at].imm == LowHalf(imm) && insns[at + 1].imm == HighHalf(imm)
    ensures AugmentLddw(Program(insns), GetInsn(Program(insns), at)) == insns[at].(imm := imm)
  {
    ProgramHolds(insns, at);
    ProgramHolds(insns, at + 1);
    MergeLddw(Program(insns), at, insns[at], insns[at + 1], imm);
  }

  lemma ImmediatesFit(c: Config, at: nat, labels: Labels, name: string, operands: seq<P.Operand>)
    requires EmitInstruction(c, at, labels, name, operands).Ok?
    ensures var part := EmitInstruction(c, at, labels, name, operands).value;
      && 1 <= |part| <= 2 && -0x8000_0000 <= part[0].imm < 0x8000_0000
      && (|part| == 2 ==>
            && |operands| == 2 && operands[1].Integer?
            && part[0].imm == LowHalf(operands[1].value) && part[1].imm == HighHalf(operands[1].value))
  {
  }

  /** A fill emits the eight bytes of its value, low byte first. */
  lemma FillBytes(at: nat, value: int)
    ensures ToArray(FillInsn(at, value)) ==
      [ value % 256, (value / 0x100) % 256, (value / 0x1_0000) % 256, (value / 0x100_0000) % 256,
        (value / 0x1_0000_0000) % 256, (value / 0x100_0000_0000) % 256,
        (value / 0x1_0000_0000_0000) % 256, (value / 0x100_0000_0000_0000) % 256 ]
  {
    NibblesMakeByte(value / 0x100);
    assert value / 0x100 / 16 == value / 0x1000;
    OffsetKeepsBytes(value / 0x1_0000);
    assert value / 0x1_0000 / 256 == value / 0x100_0000;
    ImmediateKeepsBytes(value / U32_MODULUS);
    HighBytes(value);
  }

  lemma HighBytes(value: int)
    ensures value / U32_MODULUS / 256 == value / 0x100_0000_0000
    ensures value / U32_MODULUS / 0x1_0000 == value / 0x1_0000_0000_0000
    ensures value / U32_MODULUS / 0x100_0000 == value / 0x100_0000_0000_0000
  {
  }

  lemma NibblesMakeByte(b: int)
    ensures ((b / 16) % 16) * 16 + b % 16 == b % 256
  {
    ModIs(b, 256, ((b / 16) % 16) * 16 + b % 16, b / 16 / 16);
  }

  /** Taking a multiple of the modulus away changes only the quotient. */
  lemma Shift(x: int, q: int, m: int)
    requires m > 0
    ensures (x - q * m) % m == x % m && (x - q * m) / m == x / m - q
  {
    assert x - q * m == (x / m - q) * m + x % m by {
      assert (x / m - q) * m == x / m * m - q * m;
    }
    ModIs(x - q * m, m, x % m, x / m - q);
  }

  lemma OffsetKeepsBytes(x: int)
    ensures var off := Signed(x, U16_MODULUS); off % 256 == x % 256 && (off / 256) % 256 == (x / 256) % 256
  {
    var off := Signed(x, U16_MODULUS);
    var q := (x - off) / U16_MODULUS;
    assert off == x - (256 * q) * 256;
    Shift(x, 256 * q, 256);
    Shift(x / 256, q, 256);
  }

  lemma ImmediateKeepsBytes(x: int)
    ensures var imm := x % U32_MODULUS;
      && imm % 256 == x % 256 && (imm / 256) % 256 == (x / 256) % 256
      && (imm / 0x1_0000) % 256 == (x / 0x1_0000) % 256 && (imm / 0x100_0000) % 256 == (x / 0x100_0000) % 256
  {
    var imm, q := x % U32_MODULUS, x / U32_MODULUS;
    assert imm == x - (0x100_0000 * q) * 256 == x - (0x1_0000 * q) * 0x1_0000 == x - (0x100 * q) * 0x100_0000;
    Shift(x, 0x100_0000 * q, 256);
    Shift(x / 256, 0x1_0000 * q, 256);
    Shift(x, 0x1_0000 * q, 0x1_0000);
    Shift(x / 0x1_0000, 0x100 * q, 256);
    Shift(x, 0x100 * q, 0x100_0000);
    Shift(x / 0x100_0000, q, 256);
  }

  datatype Assembly = Assembly(instructions: seq<Insn>, program: seq<Byte>, labels: Labels, functions: Registry)

  /** `assemble`, from the statements to the bytes. */
  method Assemble(c: Config, statements: seq<P.Statement>) returns (r: Result<Assembly, AsmError>)
    ensures r.Ok? ==>
      IsAssembly(c, statements, r.value.instructions) && r.value.labels == LabelsOf(statements, |statements|)
    ensures r.Ok? ==> AllEncodable(r.value.instructions) && r.value.program == Program(r.value.instructions)
    ensures r.Ok? ==> RegistryOk(r.value.functions)
    ensures r.Err? && r.error != LabelCollision ==>
      Assembled(c, LabelsOf(statements, |statements|), statements, |statements|) == Err(r.error)
  {
    var labels, functions := FirstPass(statements);
    if functions.Err? { return Err(functions.error); }
    var instructions, registry := SecondPass(c, statements, labels, functions.value);
    if instructions.Err? { return Err(instructions.error); }
    PointersAreIndices(c, labels, statements, |statements|);
    var program := Flatten(instructions.value);
    r := Ok(Assembly(instructions.value, program, labels, registry));
  }

  method Flatten(insns: seq<Insn>) returns (program: seq<Byte>)
    requires AllEncodable(insns)
    ensures program == Program(insns)
  {
    program := [];
    for k := 0 to |insns|
      invariant program == Program(insns[..k])
    {
      assert insns[..k + 1][..k] == insns[..k];
      program := program + ToArray(insns[k]);
    }
    assert insns[..|insns|] == insns;
  }
}
