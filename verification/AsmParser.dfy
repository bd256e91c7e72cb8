/** The grammar of assembly text. A parser that fails says whether it had consumed
    input: an alternative is tried only if it had not. */
module AsmParser {
  import opened Words
  import opened Sequences
  import opened Ebpf

  datatype Operand = Register(reg: int) | Integer(value: int) | Memory(base: int, offset: int) | Label(target: string)

  datatype Statement =
    | LabelStatement(name: string)
    | Directive(name: string, operands: seq<Operand>)
    | Instruction(name: string, operands: seq<Operand>)

  datatype Parsed<+T> = Got(value: T, rest: string) | Failed(consumed: bool)

  // ----- Characters -----

  datatype CharClass = Digit | HexDigit | Letter | Alnum | Ident | Blank | White

  predicate IsDigit(c: char) { '0' <= c <= '9' }
  predicate IsLetter(c: char) { 'a' <= c <= 'z' || 'A' <= c <= 'Z' }

  predicate Has(cls: CharClass, c: char) {
    match cls
    case Digit => IsDigit(c)
    case HexDigit => IsDigit(c) || 'a' <= c <= 'f' || 'A' <= c <= 'F'
    case Letter => IsLetter(c)
    case Alnum => IsDigit(c) || IsLetter(c)
    case Ident => IsDigit(c) || IsLetter(c) || c == '_'
    case Blank => c == ' '
    case White => c == ' ' || 9 <= c as int <= 13
  }

  /** How many characters at the start of `s` are in the class. */
  function Run(cls: CharClass, s: string): (n: nat)
    ensures n <= |s|
  {
    if s == "" || !Has(cls, s[0]) then 0 else 1 + Run(cls, s[1..])
  }

  function Skip(cls: CharClass, s: string): string { s[Run(cls, s)..] }

  // ----- Numbers -----

  function DigitValue(c: char): nat {
    if IsDigit(c) then c as int - '0' as int
    else if 'a' <= c <= 'f' then c as int - 'a' as int + 10
    else if 'A' <= c <= 'F' then c as int - 'A' as int + 10
    else 0
  }

  function Value(base: nat, digits: string): nat {
    if digits == "" then 0 else Value(base, digits[..|digits| - 1]) * base + DigitValue(digits[|digits| - 1])
  }

  /** Out of range counts as zero. */
  function DecValue(digits: string): int {
    var n := Value(10, digits);
    if n < I64_END then n else 0
  }

  function HexValue(digits: string): int {
    var n := Value(16, digits);
    if n < U64_MODULUS then Signed(n, U64_MODULUS) else 0
  }

  /** Hexadecimal is tried first; a lone `0x` leaves the zero to the other. */
  function Magnitude(s: string): (r: Parsed<int>)
    ensures r.Got? ==> |r.rest| < |s|
  {
    if |s| > 2 && s[0] == '0' && s[1] == 'x' && Has(HexDigit, s[2]) then
      var n := Run(HexDigit, s[2..]);
      Got(HexValue(s[2..][..n]), s[2..][n..])
    else
      var n := Run(Digit, s);
      if n == 0 then Failed(false) else Got(DecValue(s[..n]), s[n..])
  }

  function ParseInteger(s: string): (r: Parsed<int>)
    ensures r.Got? ==> |r.rest| < |s|
  {
    if s != "" && (s[0] == '-' || s[0] == '+') then
      match Magnitude(Skip(Blank, s[1..]))
      case Got(x, rest) => Got(if s[0] == '-' then Signed(-x, U64_MODULUS) else x, rest)
      case Failed(_) => Failed(true)
    else Magnitude(s)
  }

  function ParseRegister(s: string): (r: Parsed<int>)
    ensures r.Got? ==> |r.rest| < |s|
  {
    if s == "" || s[0] != 'r' then Failed(false)
    else
      var n := Run(Digit, s[1..]);
      if n == 0 then Failed(true) else Got(DecValue(s[1..][..n]), s[1..][n..])
  }

  // ----- Operands -----

  function ParseMemory(s: string): (r: Parsed<Operand>)
    ensures r.Got? ==> |r.rest| < |s|
  {
    if s == "" || s[0] != '[' then Failed(false)
    else
      match ParseRegister(s[1..])
      case Failed(_) => Failed(true)
      case Got(reg, t) =>
        match ParseInteger(Skip(Blank, t))
        case Failed(true) => Failed(true)
        case Failed(false) => CloseBracket(Memory(reg, 0), Skip(Blank, t))
        case Got(off, u) => CloseBracket(Memory(reg, off), u)
  }

  function CloseBracket(o: Operand, s: string): (r: Parsed<Operand>)
    ensures r.Got? ==> |r.rest| < |s|
  {
    if s != "" && s[0] == ']' then Got(o, s[1..]) else Failed(true)
  }

  function ParseLabel(s: string): (r: Parsed<Operand>)
    ensures r.Got? ==> |r.rest| < |s|
  {
    var n := Run(Ident, s);
    if n == 0 then Failed(false) else Got(Label(s[..n]), s[n..])
  }

  function ParseOperand(s: string): (r: Parsed<Operand>)
    ensures r.Got? ==> |r.rest| < |s|
  {
    match ParseRegister(s)
    case Got(reg, rest) => Got(Register(reg), rest)
    case Failed(true) => Failed(true)
    case Failed(false) =>
      match ParseInteger(s)
      case Got(value, rest) => Got(Integer(value), rest)
      case Failed(true) => Failed(true)
      case Failed(false) =>
        match ParseMemory(s)
        case Got(o, rest) => Got(o, rest)
        case Failed(true) => Failed(true)
        case Failed(false) => ParseLabel(s)
  }

  /** Operands separated by commas. */
  function ParseOperands(s: string): (r: Parsed<seq<Operand>>)
    ensures r.Got? ==> |r.rest| <= |s|
  {
    match ParseOperand(s)
    case Failed(true) => Failed(true)
    case Failed(false) => Got([], s)
    case Got(o, rest) => MoreOperands([o], rest)
  }

  function MoreOperands(operands: seq<Operand>, s: string): (r: Parsed<seq<Operand>>)
    ensures r.Got? ==> |r.rest| <= |s|
    decreases |s|
  {
    if s == "" || s[0] != ',' then Got(operands, s)
    else
      var t := Skip(Blank, s[1..]);
      match ParseOperand(t)
      case Failed(_) => Failed(true)
      case Got(o, rest) => MoreOperands(operands + [o], rest)
  }

  // ----- Statements -----

  function ParseStatement(s: string): (r: Parsed<Statement>)
    ensures r.Got? ==> |r.rest| < |s|
  {
    var n := Run(Ident, s);
    if 0 < n < |s| && s[n] == ':' then Got(LabelStatement(s[..n]), s[n + 1..])
    else if s != "" && s[0] == '.' then
      var k := Run(Alnum, s[1..]);
      if k == 0 then Failed(true)
      else
        match ParseOperands(Skip(Blank, s[1..][k..]))
        case Failed(_) => Failed(true)
        case Got(operands, rest) => Got(Directive(s[1..][..k], operands), rest)
    else
      var k := Run(Alnum, s);
      if k == 0 then Failed(false)
      else
        match ParseOperands(Skip(Blank, s[k..]))
        case Failed(_) => Failed(true)
        case Got(operands, rest) => Got(Instruction(s[..k], operands), rest)
  }

  function ParseStatements(s: string): Parsed<seq<Statement>>
    decreases |s|
  {
    match ParseStatement(s)
    case Failed(true) => Failed(true)
    case Failed(false) => Got([], s)
    case Got(statement, rest) =>
      match ParseStatements(Skip(White, rest))
      case Failed(_) => Failed(true)
      case Got(statements, end) => Got([statement] + statements, end)
  }

  /** `parse`: all of the text, or nothing. */
  function Parse(s: string): Option<seq<Statement>> {
    match ParseStatements(Skip(White, s))
    case Failed(_) => None
    case Got(statements, rest) => if rest == "" then Some(statements) else None
  }
}
