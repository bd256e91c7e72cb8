/** Printed numbers, operands and lines, and that the parser reads them back. */
module AsmText {
  import opened Words
  import opened Ebpf
  import opened AsmParser

  // ----- Printing -----

  function DigitChar(d: nat): char
    requires d < 16
  {
    if d < 10 then ('0' as int + d) as char else ('a' as int + d - 10) as char
  }

  function Digits(base: nat, n: nat): string
    requires 2 <= base <= 16
  {
    if n < base then [DigitChar(n)] else Digits(base, n / base) + [DigitChar(n % base)]
  }

  function Dec(n: int): string { if n < 0 then "-" + Digits(10, -n) else Digits(10, n) }

  function HexText(n: nat): string { "0x" + Digits(16, n) }

  /** `{:#x}`, two's complement for negative numbers. */
  function Hex(n: int): string { HexText(n % U64_MODULUS) }

  function SignedOff(off: int): string { if off < 0 then "-" + HexText(-off) else "+" + HexText(off) }

  function RegText(reg: nat): string { "r" + Digits(10, reg) }

  function MemText(reg: nat, off: int): string { "[" + (RegText(reg) + (SignedOff(off) + "]")) }

  // ----- Runs of characters -----

  ghost predicate All(cls: CharClass, s: string) {
    forall i :: 0 <= i < |s| ==> Has(cls, s[i])
  }

  predicate Stops(cls: CharClass, s: string) {
    s == "" || !Has(cls, s[0])
  }

  /** What may follow an operand. */
  predicate Delimited(s: string) {
    s == "" || s[0] == ',' || s[0] == ']' || s[0] == '\n'
  }

  lemma Assoc(a: string, b: string, c: string)
    ensures a + b + c == a + (b + c)
  {
  }

  lemma {:induction false} RunOf(cls: CharClass, a: string, rest: string)
    requires All(cls, a) && Stops(cls, rest)
    ensures Run(cls, a + rest) == |a| && (a + rest)[..|a|] == a && (a + rest)[|a|..] == rest
  {
    if a == "" {
      assert a + rest == rest;
    } else {
      RunOf(cls, a[1..], rest);
      assert (a + rest)[1..] == a[1..] + rest;
    }
  }

  lemma SkipNothing(cls: CharClass, s: string)
    requires Stops(cls, s)
    ensures Skip(cls, s) == s
  {
  }

  lemma SkipOne(cls: CharClass, c: char, s: string)
    requires Has(cls, c) && Stops(cls, s)
    ensures Skip(cls, [c] + s) == s
  {
    RunOf(cls, [c], s);
  }

  // ----- Numbers -----

  function ClassOf(base: nat): CharClass { if base <= 10 then Digit else HexDigit }

  lemma DigitReads(base: nat, d: nat)
    requires 2 <= base <= 16 && d < base
    ensures DigitValue(DigitChar(d)) == d && Has(ClassOf(base), DigitChar(d))
  {
  }

  lemma DivideOut(n: nat, base: nat)
    requires base >= 2
    ensures n == (n / base) * base + n % base
    ensures n >= base ==> n / base < n
  {
  }

  lemma MoreDigits(base: nat, digits: string, q: nat, r: nat)
    requires 2 <= base <= 16 && r < base && Value(base, digits) == q && All(ClassOf(base), digits)
    ensures Value(base, digits + [DigitChar(r)]) == q * base + r
    ensures All(ClassOf(base), digits + [DigitChar(r)])
  {
    DigitReads(base, r);
    assert (digits + [DigitChar(r)])[..|digits|] == digits;
  }

  lemma {:induction false} DigitsRead(base: nat, n: nat)
    requires 2 <= base <= 16
    ensures Value(base, Digits(base, n)) == n
    ensures Digits(base, n) != "" && All(ClassOf(base), Digits(base, n))
    decreases n
  {
    if n < base {
      MoreDigits(base, "", 0, n);
      assert "" + [DigitChar(n)] == [DigitChar(n)];
    } else {
      DivideOut(n, base);
      DigitsRead(base, n / base);
      MoreDigits(base, Digits(base, n / base), n / base, n % base);
    }
  }

  lemma ReadDec(n: nat, rest: string)
    requires n < I64_END && Delimited(rest)
    ensures Magnitude(Digits(10, n) + rest) == Got(n, rest)
  {
    DigitsRead(10, n);
    RunOf(Digit, Digits(10, n), rest);
    var s := Digits(10, n) + rest;
    assert |s| > 1 ==> s[1] == (if |Digits(10, n)| > 1 then Digits(10, n)[1] else rest[0]);
  }

  lemma ReadHex(n: nat, rest: string)
    requires n < U64_MODULUS && Delimited(rest)
    ensures Magnitude(HexText(n) + rest) == Got(Signed(n, U64_MODULUS), rest)
  {
    DigitsRead(16, n);
    ReadHexDigits(Digits(16, n), rest);
  }

  lemma ReadHexDigits(digits: string, rest: string)
    requires digits != "" && All(HexDigit, digits) && Delimited(rest)
    ensures Magnitude("0x" + digits + rest) == Got(HexValue(digits), rest)
  {
    RunOf(HexDigit, digits, rest);
    var s := "0x" + digits + rest;
    assert s[2..] == digits + rest;
    assert s[2] == digits[0];
  }

  lemma ReadInteger(n: int, rest: string)
    requires -I64_END < n < I64_END && Delimited(rest)
    ensures ParseInteger(Dec(n) + rest) == Got(n, rest)
  {
    if n < 0 {
      ReadNegative(-n, rest);
    } else {
      ReadUnsigned(n, rest);
    }
  }

  lemma ReadUnsigned(n: nat, rest: string)
    requires n < I64_END && Delimited(rest)
    ensures ParseInteger(Digits(10, n) + rest) == Got(n, rest)
  {
    var digits := Digits(10, n);
    assert IsDigit((digits + rest)[0]) by { DigitsRead(10, n); }
    ReadDec(n, rest);
  }

  lemma ReadNegative(n: int, rest: string)
    requires 0 < n < I64_END && Delimited(rest)
    ensures ParseInteger("-" + Digits(10, n) + rest) == Got(-n, rest)
  {
    DigitsRead(10, n);
    ReadDec(n, rest);
    ReadSigned('-', Digits(10, n), rest, n);
    SignedIsIdentity(-n, U64_MODULUS);
    Assoc("-", Digits(10, n), rest);
  }

  lemma ReadSigned(sign: char, digits: string, rest: string, x: int)
    requires sign == '-' || sign == '+'
    requires digits != "" && Stops(Blank, digits) && Magnitude(digits + rest) == Got(x, rest)
    ensures ParseInteger([sign] + (digits + rest)) == Got(if sign == '-' then Signed(-x, U64_MODULUS) else x, rest)
  {
    var s := [sign] + (digits + rest);
    assert s[1..] == digits + rest;
    SkipNothing(Blank, digits + rest);
  }

  lemma ReadOffset(off: int, rest: string)
    requires -0x8000 <= off < 0x8000 && Delimited(rest)
    ensures ParseInteger(SignedOff(off) + rest) == Got(off, rest)
  {
    var sign, n := if off < 0 then '-' else '+', if off < 0 then -off else off;
    assert SignedOff(off) == [sign] + HexText(n);
    ReadHexOffset(sign, n, rest);
  }

  lemma ReadHexOffset(sign: char, n: int, rest: string)
    requires (sign == '-' || sign == '+') && 0 <= n <= 0x8000 && Delimited(rest)
    ensures ParseInteger([sign] + HexText(n) + rest) == Got(if sign == '-' then -n else n, rest)
  {
    assert Magnitude(HexText(n) + rest) == Got(n, rest) by {
      ReadHex(n, rest);
      SignedIsIdentity(n, U64_MODULUS);
    }
    SignedIsIdentity(-n, U64_MODULUS);
    ReadSigned(sign, HexText(n), rest, n);
    Assoc([sign], HexText(n), rest);
  }

  lemma ReadRegister(n: nat, rest: string)
    requires n < I64_END && Stops(Digit, rest)
    ensures ParseRegister(RegText(n) + rest) == Got(n, rest)
  {
    DigitsRead(10, n);
    RunOf(Digit, Digits(10, n), rest);
    assert (RegText(n) + rest)[1..] == Digits(10, n) + rest;
  }

  // ----- Operands -----

  /** The text is read as the operand, whatever follows. */
  ghost predicate ReadsAs(text: string, o: Operand) {
    text != "" && text[0] != ' ' && forall rest :: Delimited(rest) ==> ParseOperand(text + rest) == Got(o, rest)
  }

  lemma RegisterReads(n: nat)
    requires n < I64_END
    ensures ReadsAs(RegText(n), Register(n))
  {
    forall rest | Delimited(rest) ensures ParseOperand(RegText(n) + rest) == Got(Register(n), rest) {
      ReadRegister(n, rest);
    }
  }

  lemma IntegerReads(n: int)
    requires -I64_END < n < I64_END
    ensures ReadsAs(Dec(n), Integer(n))
  {
    DigitsRead(10, if n < 0 then -n else n);
    forall rest | Delimited(rest) ensures ParseOperand(Dec(n) + rest) == Got(Integer(n), rest) {
      ReadInteger(n, rest);
      assert (Dec(n) + rest)[0] == Dec(n)[0];
    }
  }

  lemma HexReads(n: int)
    requires -I64_END <= n < I64_END
    ensures ReadsAs(Hex(n), Integer(n))
  {
    forall rest | Delimited(rest) ensures ParseOperand(Hex(n) + rest) == Got(Integer(n), rest) {
      ReadHex(n % U64_MODULUS, rest);
      SignedOfMod(n, U64_MODULUS);
      SignedIsIdentity(n, U64_MODULUS);
      assert (Hex(n) + rest)[0] == '0';
    }
  }

  lemma NumberNeedsDigit(s: string)
    requires s == "" || (!IsDigit(s[0]) && s[0] != '-' && s[0] != '+')
    ensures ParseInteger(s) == Failed(false)
  {
  }

  lemma BracketIsMemory(s: string)
    requires s != "" && s[0] == '[' && ParseMemory(s).Got?
    ensures ParseOperand(s) == ParseMemory(s)
  {
    NumberNeedsDigit(s);
  }

  lemma ReadMemory(reg: nat, off: int, tail: string, rest: string)
    requires reg < I64_END && (tail != "" && tail[0] in {'-', '+'}) && ParseInteger(tail) == Got(off, "]" + rest)
    ensures ParseMemory("[" + (RegText(reg) + tail)) == Got(Memory(reg, off), rest)
  {
    var s := "[" + (RegText(reg) + tail);
    assert s[1..] == RegText(reg) + tail;
    ReadRegister(reg, tail);
    SkipNothing(Blank, tail);
    assert ("]" + rest)[1..] == rest;
  }

  lemma Regroup(a: string, b: string, c: string, d: string, e: string)
    ensures a + (b + (c + d)) + e == a + (b + (c + (d + e)))
  {
    Assoc(a, b + (c + d), e);
    Assoc(b, c + d, e);
    Assoc(c, d, e);
  }

  lemma MemoryReads(reg: nat, off: int)
    requires reg < I64_END && -0x8000 <= off < 0x8000
    ensures ReadsAs(MemText(reg, off), Memory(reg, off))
  {
    forall rest | Delimited(rest) ensures ParseOperand(MemText(reg, off) + rest) == Got(Memory(reg, off), rest) {
      ReadOffset(off, "]" + rest);
      var tail := SignedOff(off) + ("]" + rest);
      ReadMemory(reg, off, tail, rest);
      Regroup("[", RegText(reg), SignedOff(off), "]", rest);
      BracketIsMemory("[" + (RegText(reg) + tail));
    }
  }

  // ----- Lines -----

  predicate LineEnd(s: string) { s == "" || s[0] == '\n' }

  /** The text is read as the statement, whatever line follows. */
  ghost predicate LineReads(text: string, statement: Statement) {
    && text != "" && Stops(White, text)
    && forall rest :: LineEnd(rest) ==> ParseStatement(text + rest) == Got(statement, rest)
  }

  lemma NameIsNoLabel(name: string, rest: string)
    requires name != "" && All(Alnum, name) && (LineEnd(rest) || rest[0] == ' ')
    ensures Run(Ident, name + rest) == Run(Alnum, name + rest) == |name|
    ensures (name + rest)[..|name|] == name && (name + rest)[|name|..] == rest && (name + rest)[0] == name[0]
  {
    RunOf(Alnum, name, rest);
    assert All(Ident, name);
    RunOf(Ident, name, rest);
  }

  /** A name and its operands. */
  lemma ReadStatement(name: string, tail: string, operands: seq<Operand>, rest: string)
    requires name != "" && All(Alnum, name) && (LineEnd(tail) || tail[0] == ' ')
    requires ParseOperands(Skip(Blank, tail)) == Got(operands, rest)
    ensures ParseStatement(name + tail) == Got(Instruction(name, operands), rest)
  {
    NameIsNoLabel(name, tail);
    assert Has(Alnum, name[0]);
  }

  lemma NothingToRead(rest: string)
    requires LineEnd(rest)
    ensures ParseOperands(rest) == Got([], rest)
  {
    NumberNeedsDigit(rest);
  }

  lemma NoOperands(name: string)
    requires name != "" && All(Alnum, name)
    ensures LineReads(name, Instruction(name, []))
  {
    assert Has(Alnum, name[0]);
    forall rest | LineEnd(rest) ensures ParseStatement(name + rest) == Got(Instruction(name, []), rest) {
      SkipNothing(Blank, rest);
      NothingToRead(rest);
      ReadStatement(name, rest, [], rest);
    }
  }

  lemma OneOperand(name: string, a: string, oa: Operand)
    requires name != "" && All(Alnum, name) && ReadsAs(a, oa)
    ensures LineReads(name + " " + a, Instruction(name, [oa]))
  {
    assert Has(Alnum, name[0]);
    forall rest | LineEnd(rest) ensures ParseStatement(name + " " + a + rest) == Got(Instruction(name, [oa]), rest) {
      SkipOne(Blank, ' ', a + rest);
      ReadStatement(name, " " + (a + rest), [oa], rest);
      Assoc(name + " ", a, rest);
      Assoc(name, " ", a + rest);
    }
  }

  lemma TwoOperands(name: string, a: string, oa: Operand, b: string, ob: Operand)
    requires name != "" && All(Alnum, name) && ReadsAs(a, oa) && ReadsAs(b, ob)
    ensures LineReads(name + " " + a + ", " + b, Instruction(name, [oa, ob]))
  {
    assert Has(Alnum, name[0]);
    forall rest | LineEnd(rest)
      ensures ParseStatement(name + " " + a + ", " + b + rest) == Got(Instruction(name, [oa, ob]), rest)
    {
      RegroupLine(name, " ", a, ", ", b, rest);
      ReadTwo(name, a, oa, b, ob, rest);
    }
  }

  lemma RegroupLine(a: string, b: string, c: string, d: string, e: string, f: string)
    ensures a + b + c + d + e + f == a + (b + (c + (d + (e + f))))
  {
    Assoc(a + b + c + d, e, f);
    Assoc(a + b + c, d, e + f);
    Assoc(a + b, c, d + (e + f));
    Assoc(a, b, c + (d + (e + f)));
  }

  lemma ReadTwo(name: string, a: string, oa: Operand, b: string, ob: Operand, rest: string)
    requires name != "" && All(Alnum, name) && ReadsAs(a, oa) && ReadsAs(b, ob) && LineEnd(rest)
    ensures ParseStatement(name + (" " + (a + (", " + (b + rest))))) == Got(Instruction(name, [oa, ob]), rest)
  {
    var second := ", " + (b + rest);
    ReadSecond(oa, b, ob, rest);
    assert ParseOperand(a + second) == Got(oa, second);
    SkipOne(Blank, ' ', a + second);
    ReadStatement(name, " " + (a + second), [oa, ob], rest);
  }

  lemma ReadSecond(oa: Operand, b: string, ob: Operand, rest: string)
    requires ReadsAs(b, ob) && LineEnd(rest)
    ensures MoreOperands([oa], ", " + (b + rest)) == Got([oa, ob], rest)
  {
    var s := ", " + (b + rest);
    assert s[1..] == " " + (b + rest);
    SkipOne(Blank, ' ', b + rest);
    assert ParseOperand(b + rest) == Got(ob, rest);
    assert [oa] + [ob] == [oa, ob];
  }
}
