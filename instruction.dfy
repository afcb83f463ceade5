/**
 * The Apollo Guidance Computer instruction decoder of `pyagcom/instruction.py`:
 * a 16-bit fixed-memory word is split into its fields, the standard-mode
 * opcode table picks a base instruction, and a small alias table turns some
 * (base instruction, address) pairs into operand-less pseudo-ops.
 */
module Instruction {
  import opened Wrappers
  import Octal

  /** What `DecodingException` reports. */
  datatype DecodingError =
    | InvalidWord(word: int)    // a bit is set outside the low 16
    | InvalidOpCode(code: int)  // the opcode has no entry in the table

  /**
   * The fields of a word (bit 15 is the most significant):
   *   bits 15..13 code, 12..11 quarter code, 12..10 p-code,
   *   12..1 address, 0 parity.
   */
  datatype Fields = Fields(code: int, quarterCode: int, pCode: int, addr: int, parity: int)

  predicate Bounded(f: Fields)
  {
    0 <= f.code < 8 && 0 <= f.quarterCode < 4 && 0 <= f.pCode < 8 &&
    0 <= f.addr < 0x1000 && 0 <= f.parity < 2
  }

  /** The word the fields come from: code, address and parity side by side. */
  function Encode(f: Fields): int
  {
    f.code * 0x2000 + f.addr * 2 + f.parity
  }

  /**
   * Python's `word & 0b1111111111111111`. For a non-negative mask, `&` keeps the
   * low bits of the two's-complement representation, which is the floor
   * remainder: Dafny's `%` by a positive modulus, for negative words as well.
   */
  function Low16(word: int): (r: int)
    ensures 0 <= r < 0x1_0000
    ensures r == word <==> 0 <= word < 0x1_0000
  {
    word % 0x1_0000
  }

  /**
   * `instruction.decode`: the range check, then the shifts and masks of the
   * source, one step each (`>> k` is division by 2^k, `& (2^k - 1)` is the
   * remainder by 2^k, for the non-negative word left after the check).
   */
  function Decode(word: int): (r: Result<Fields, DecodingError>)
    ensures r.Ok? <==> 0 <= word < 0x1_0000
    ensures r.Err? ==> r.error == InvalidWord(word)
    ensures r.Ok? ==> Bounded(r.value)
  {
    if Low16(word) != word then Err(InvalidWord(word))
    else
      var p := word % 2;
      var w1 := word / 2;
      var addr := w1 % 0x1000;
      var w2 := w1 / 0x200;
      var pCode := w2 % 8;
      var w3 := w2 / 2;
      var quarterCode := w3 % 4;
      var w4 := w3 / 4;
      var code := w4 % 8;
      Ok(Fields(code, quarterCode, pCode, addr, p))
  }

  /** The decoded fields put back together give the word. */
  lemma DecodeRoundTrip(word: int)
    requires 0 <= word < 0x1_0000
    ensures Decode(word).Ok? && Encode(Decode(word).value) == word
    ensures Decode(word).value.code == word / 0x2000
    ensures Decode(word).value.addr == word / 2 % 0x1000
  {
    var w1 := word / 2;
    var q, a := w1 / 0x1000, w1 % 0x1000;
    DivUnique(w1, 0x200, 8 * q + a / 0x200, a % 0x200);
    DivUnique(a / 0x200, 2, a / 0x400, a / 0x200 % 2);
    DivUnique(w1 / 0x200, 2, 4 * q + a / 0x400, a / 0x200 % 2);
    DivUnique(w1 / 0x200 / 2, 4, q, a / 0x400);
    DivUnique(q, 8, 0, q);
    DivUnique(word, 0x2000, q, 2 * a + word % 2);
  }

  /** The quarter code and the p-code are the top two and three bits of the address. */
  lemma DecodeSubfields(word: int)
    requires 0 <= word < 0x1_0000
    ensures Decode(word).Ok?
    ensures Decode(word).value.quarterCode == Decode(word).value.addr / 0x400
    ensures Decode(word).value.pCode == Decode(word).value.addr / 0x200
  {
    var w1 := word / 2;
    var q, a := w1 / 0x1000, w1 % 0x1000;
    DivUnique(w1, 0x400, 4 * q + a / 0x400, a % 0x400);
    DivUnique(w1, 0x200, 8 * q + a / 0x200, a % 0x200);
    DivUnique(w1 / 0x200, 2, w1 / 0x400, w1 / 0x200 % 2);
    DivUnique(w1 / 0x400, 4, q, a / 0x400);
    DivUnique(w1 / 0x200, 8, q, a / 0x200);
  }

  /** Every code, address and parity is decoded from the word they encode. */
  lemma EncodeDecode(code: int, addr: int, parity: int)
    requires 0 <= code < 8 && 0 <= addr < 0x1000 && 0 <= parity < 2
    ensures Decode(code * 0x2000 + addr * 2 + parity)
         == Ok(Fields(code, addr / 0x400, addr / 0x200, addr, parity))
  {
    var word := code * 0x2000 + addr * 2 + parity;
    DivUnique(word, 2, code * 0x1000 + addr, parity);
    DivUnique(word / 2, 0x1000, code, addr);
    DivUnique(word, 0x2000, code, addr * 2 + parity);
    DecodeRoundTrip(word);
    DecodeSubfields(word);
  }

  /** Quotient and remainder are the only ones with these bounds. */
  lemma DivUnique(x: int, d: int, q: int, r: int)
    requires 0 < d && 0 <= r < d && x == q * d + r
    ensures x / d == q && x % d == r
  {
    var q', r' := x / d, x % d;
    assert (q - q') * d == r' - r;
    if q > q' {
      MulAtLeast(q - q', d);
    } else if q < q' {
      MulAtLeast(q' - q, d);
    }
  }

  lemma MulAtLeast(k: int, d: int)
    requires 1 <= k && 0 < d
    ensures k * d >= d
  {
  }

  /** The standard-table instructions that carry an operand address. */
  datatype Base =
    | TC | CCS | TCF | DAS | LXCH | INCR | ADS | CA | CS
    | INDEX | DXCH | TS | XCH | AD | MASK
  {
    /** The opcode (bits 15..13) under which the instruction is listed. */
    function Opcode(): nat
    {
      match this
      case TC => 0
      case CCS | TCF => 1
      case DAS | LXCH | INCR | ADS => 2
      case CA => 3
      case CS => 4
      case INDEX | DXCH | TS | XCH => 5
      case AD => 6
      case MASK => 7
    }

    /** Whether the operand is cut to the low 10 bits of the address field. */
    predicate Narrowed()
    {
      this in {CCS, DAS, LXCH, INCR, ADS, INDEX, DXCH, TS, XCH}
    }

    /** The quarter code (bits 12..11) that selects a narrowed instruction. */
    function Quarter(): nat
    {
      match this
      case LXCH | DXCH => 1
      case INCR | TS => 2
      case ADS | XCH => 3
      case _ => 0
    }

    /** Whether quarter code `qc` selects this instruction within its opcode. */
    predicate Selects(qc: int)
    {
      if Narrowed() then qc == Quarter()
      else if this == TCF then qc != 0
      else true
    }
  }

  /** The operand-less pseudo-ops, each a base instruction at one fixed address. */
  datatype Alias =
    | XXALQ | XLQ | RETURN | RELINT | INHINT | EXTEND
    | DDOUBL | ZL | COM | RESUME | DTCF | DTCB | OVSK | TCAA
  {
    /** The base instruction the pseudo-op is a special case of. */
    function BaseOp(): Base
    {
      match this
      case XXALQ | XLQ | RETURN | RELINT | INHINT | EXTEND => TC
      case DDOUBL => DAS
      case ZL => LXCH
      case COM => CS
      case RESUME => INDEX
      case DTCF | DTCB => DXCH
      case OVSK | TCAA => TS
    }

    /** The operand address at which the base instruction becomes this pseudo-op. */
    function Trigger(): nat
    {
      match this
      case XXALQ => 0
      case XLQ => 1
      case RETURN => 2
      case RELINT => 3
      case INHINT => 4
      case EXTEND => 6
      case DDOUBL => 1
      case ZL => 6
      case COM => 0
      case RESUME => 0x0F  // octal 17
      case DTCF => 5
      case DTCB => 6
      case OVSK => 0
      case TCAA => 5
    }
  }

  /** A decoded instruction: a base instruction with its operand, or a pseudo-op. */
  datatype Instr = Op(base: Base, addr: nat) | Pseudo(alias: Alias)

  /** The base instruction and operand address an instruction stands for. */
  function Unalias(i: Instr): (Base, nat)
  {
    match i
    case Op(b, a) => (b, a)
    case Pseudo(x) => (x.BaseOp(), x.Trigger())
  }

  /** No two pseudo-ops share a base instruction and trigger address. */
  lemma AliasTableInjective(x: Alias, y: Alias)
    requires x.BaseOp() == y.BaseOp() && x.Trigger() == y.Trigger()
    ensures x == y
  {
  }

  /** `instruction_TC`: addresses 0-4 and 6 are pseudo-ops, 5 and above 6 stay TC. */
  function MakeTC(addr: nat): (r: Instr)
    ensures Unalias(r) == (TC, addr)
    ensures r.Pseudo? <==> addr <= 6 && addr != 5
  {
    if addr <= 6 then
      [Pseudo(XXALQ), Pseudo(XLQ), Pseudo(RETURN), Pseudo(RELINT),
       Pseudo(INHINT), Op(TC, addr), Pseudo(EXTEND)][addr]
    else Op(TC, addr)
  }

  /** `instruction_DAS`: DAS at address 1 is DDOUBL. */
  function MakeDAS(addr: nat): (r: Instr)
    ensures Unalias(r) == (DAS, addr)
    ensures r.Pseudo? <==> addr == 1
  {
    if addr == 1 then Pseudo(DDOUBL) else Op(DAS, addr)
  }

  /** `instruction_LXCH`: LXCH at address 6 is ZL. */
  function MakeLXCH(addr: nat): (r: Instr)
    ensures Unalias(r) == (LXCH, addr)
    ensures r.Pseudo? <==> addr == 6
  {
    if addr == 6 then Pseudo(ZL) else Op(LXCH, addr)
  }

  /** `instruction_CS`: CS at address 0 is COM. */
  function MakeCS(addr: nat): (r: Instr)
    ensures Unalias(r) == (CS, addr)
    ensures r.Pseudo? <==> addr == 0
  {
    if addr == 0 then Pseudo(COM) else Op(CS, addr)
  }

  /** `instruction_INDEX`: INDEX at address octal 17 is RESUME. */
  function MakeINDEX(addr: nat): (r: Instr)
    ensures Unalias(r) == (INDEX, addr)
    ensures r.Pseudo? <==> addr == 0x0F
  {
    if addr == 0x0F then Pseudo(RESUME) else Op(INDEX, addr)
  }

  /** `instruction_DXCH`: DXCH at address 5 is DTCF, at address 6 DTCB. */
  function MakeDXCH(addr: nat): (r: Instr)
    ensures Unalias(r) == (DXCH, addr)
    ensures r.Pseudo? <==> addr == 5 || addr == 6
  {
    if addr == 5 then Pseudo(DTCF)
    else if addr == 6 then Pseudo(DTCB)
    else Op(DXCH, addr)
  }

  /** `instruction_TS`: TS at address 0 is OVSK, at address 5 TCAA. */
  function MakeTS(addr: nat): (r: Instr)
    ensures Unalias(r) == (TS, addr)
    ensures r.Pseudo? <==> addr == 0 || addr == 5
  {
    if addr == 0 then Pseudo(OVSK)
    else if addr == 5 then Pseudo(TCAA)
    else Op(TS, addr)
  }

  /**
   * `instClass(addr)`: the alias-resolving factory for the bases that have one,
   * the plain instruction otherwise. Resolving loses nothing: the result always
   * stands for exactly the base and address it was made from.
   */
  function Make(b: Base, addr: nat): (r: Instr)
    ensures Unalias(r) == (b, addr)
    ensures r.Pseudo? ==> r.alias.BaseOp() == b && r.alias.Trigger() == addr
  {
    match b
    case TC => MakeTC(addr)
    case DAS => MakeDAS(addr)
    case LXCH => MakeLXCH(addr)
    case CS => MakeCS(addr)
    case INDEX => MakeINDEX(addr)
    case DXCH => MakeDXCH(addr)
    case TS => MakeTS(addr)
    case _ => Op(b, addr)
  }

  /** Every pseudo-op is what its base instruction becomes at its trigger address. */
  lemma MakeAlias(x: Alias)
    ensures Make(x.BaseOp(), x.Trigger()) == Pseudo(x)
  {
  }

  /** `instruction.to10bit`: the low 10 bits of an address. */
  function To10Bit(addr: nat): (r: nat)
    ensures r < 0x400
    ensures addr < 0x400 ==> r == addr
    ensures (addr - r) % 0x400 == 0
  {
    addr % 0x400
  }

  /**
   * `instruction.from_word_std`: the standard opcode table. The result stands
   * for a base instruction listed under `code` and selected by `qc`, with the
   * address cut to 10 bits exactly for the narrowed instructions. An opcode
   * outside 0..7 has no entry.
   */
  function FromWordStd(code: int, qc: int, pc: int, addr: nat): (r: Result<Instr, DecodingError>)
    requires code == 2 || code == 5 ==> 0 <= qc < 4
    ensures r.Err? <==> !(0 <= code < 8)
    ensures r.Err? ==> r.error == InvalidOpCode(code)
    ensures r.Ok? ==>
      var (b, a) := Unalias(r.value);
      b.Opcode() == code && b.Selects(qc) &&
      a == (if b.Narrowed() then To10Bit(addr) else addr) &&
      r.value == Make(b, a)
  {
    if code == 0 then Ok(Make(TC, addr))
    else if code == 1 then
      if qc == 0 then Ok(Make(CCS, To10Bit(addr))) else Ok(Make(TCF, addr))
    else if code == 2 then
      Ok(Make([DAS, LXCH, INCR, ADS][qc], To10Bit(addr)))
    else if code == 3 then Ok(Make(CA, addr))
    else if code == 4 then Ok(Make(CS, addr))
    else if code == 5 then
      Ok(Make([INDEX, DXCH, TS, XCH][qc], To10Bit(addr)))
    else if code == 6 then Ok(Make(AD, addr))
    else if code == 7 then Ok(Make(MASK, addr))
    else Err(InvalidOpCode(code))
  }

  /** Within an opcode, each quarter code selects exactly one base instruction. */
  lemma TableIsFunction(b1: Base, b2: Base, qc: int)
    requires b1.Opcode() == b2.Opcode() && b1.Selects(qc) && b2.Selects(qc)
    ensures b1 == b2
  {
  }

  /** `instruction.from_word_ext`: the extended table is not written yet. */
  function FromWordExt(code: int, qc: int, pc: int, addr: int): (r: Option<Instr>)
    ensures r.None?
  {
    None
  }

  /**
   * `instruction.from_word`: decode the fields, then use the standard table, or
   * the extended one when `extended` is set. A bad word is the only error: the
   * invalid-opcode branch of the standard table is never reached.
   */
  function FromWord(word: int, extended: bool): (r: Result<Option<Instr>, DecodingError>)
    ensures r.Err? <==> !(0 <= word < 0x1_0000)
    ensures r.Err? ==> r.error == InvalidWord(word)
    ensures r.Ok? ==> (r.value.Some? <==> !extended)
  {
    match Decode(word)
    case Err(e) => Err(e)
    case Ok(f) =>
      if !extended then
        match FromWordStd(f.code, f.quarterCode, f.pCode, f.addr)
        case Ok(i) => Ok(Some(i))
        case Err(e) => Err(e)
      else
        Ok(FromWordExt(f.code, f.quarterCode, f.pCode, f.addr))
  }

  /**
   * The inverse of the standard table: the word, parity bit dropped, from
   * which `i` is decoded. Opcode, then the selecting quarter code of a
   * narrowed instruction, then the operand.
   */
  function Assemble(i: Instr): nat
  {
    var (b, a) := Unalias(i);
    b.Opcode() * 0x1000 + (if b.Narrowed() then b.Quarter() * 0x400 else 0) + a
  }

  /** The instructions the standard table produces. */
  predicate WellFormed(i: Instr)
  {
    var (b, a) := Unalias(i);
    a < 0x1000 && (b.Narrowed() ==> a < 0x400) && (b == TCF ==> 0x400 <= a) &&
    Make(b, a) == i
  }

  /**
   * Decoding a word in standard mode always yields a well-formed instruction,
   * and assembling it gives back the word without its parity bit.
   */
  lemma DecodeAssemble(word: int)
    requires 0 <= word < 0x1_0000
    ensures FromWord(word, false).Ok? && FromWord(word, false).value.Some?
    ensures WellFormed(FromWord(word, false).value.value)
    ensures Assemble(FromWord(word, false).value.value) == word / 2
  {
    DecodeRoundTrip(word);
    DecodeSubfields(word);
    var f := Decode(word).value;
    DivUnique(word, 2, f.code * 0x1000 + f.addr, f.parity);
    DivUnique(f.addr, 0x400, f.quarterCode, f.addr % 0x400);
  }

  /** Every well-formed instruction is decoded from its assembled word, whatever the parity bit. */
  lemma AssembleDecode(i: Instr, parity: int)
    requires WellFormed(i) && 0 <= parity < 2
    ensures FromWord(2 * Assemble(i) + parity, false) == Ok(Some(i))
  {
    var (b, a) := Unalias(i);
    var addr := (if b.Narrowed() then b.Quarter() * 0x400 else 0) + a;
    EncodeDecode(b.Opcode(), addr, parity);
    var qc := addr / 0x400;
    if b.Narrowed() {
      DivUnique(addr, 0x400, b.Quarter(), a);
    } else if b == TCF {
      assert qc != 0;
    }
    assert b.Selects(qc);
    var r := FromWordStd(b.Opcode(), qc, addr / 0x200, addr);
    var (b', a') := Unalias(r.value);
    TableIsFunction(b, b', qc);
    assert a' == a;
  }

  /** A pseudo-op is decoded from exactly one word, parity bit aside. */
  lemma AliasWord(x: Alias, word: int)
    ensures FromWord(word, false) == Ok(Some(Pseudo(x)))
        <==> 0 <= word < 0x1_0000 && word / 2 == Assemble(Pseudo(x))
  {
    if FromWord(word, false) == Ok(Some(Pseudo(x))) {
      DecodeAssemble(word);
    }
    if 0 <= word < 0x1_0000 && word / 2 == Assemble(Pseudo(x)) {
      MakeAlias(x);
      AssembleDecode(Pseudo(x), word % 2);
    }
  }

  /** The instruction's mnemonic as the assembly language spells it. */
  function Mnemonic(i: Instr): string
  {
    match i
    case Op(TC, _) => "TC"
    case Op(CCS, _) => "CCS"
    case Op(TCF, _) => "TCF"
    case Op(DAS, _) => "DAS"
    case Op(LXCH, _) => "LXCH"
    case Op(INCR, _) => "INCR"
    case Op(ADS, _) => "ADS"
    case Op(CA, _) => "CA"
    case Op(CS, _) => "CS"
    case Op(INDEX, _) => "INDEX"
    case Op(DXCH, _) => "DXCH"
    case Op(TS, _) => "TS"
    case Op(XCH, _) => "XCH"
    case Op(AD, _) => "AD"
    case Op(MASK, _) => "MASK"
    case Pseudo(XXALQ) => "XXALQ"
    case Pseudo(XLQ) => "XLQ"
    case Pseudo(RETURN) => "RETURN"
    case Pseudo(RELINT) => "RELINT"
    case Pseudo(INHINT) => "INHINT"
    case Pseudo(EXTEND) => "EXTEND"
    case Pseudo(DDOUBL) => "DDOUBL"
    case Pseudo(ZL) => "ZL"
    case Pseudo(COM) => "COM"
    case Pseudo(RESUME) => "RESUME"
    case Pseudo(DTCF) => "DTCF"
    case Pseudo(DTCB) => "DTCB"
    case Pseudo(OVSK) => "OVSK"
    case Pseudo(TCAA) => "TCAA"
  }

  /**
   * The Python class that represents each instruction: `instruction_` and the
   * mnemonic, with a leading underscore for the plain class of a base
   * instruction whose factory function took over the public name.
   */
  function ClassName(i: Instr): string
  {
    var hidden := i.Op? && i.base in {TC, DAS, LXCH, CS, INDEX, DXCH, TS};
    (if hidden then "_instruction_" else "instruction_") + Mnemonic(i)
  }

  lemma MnemonicIsBare(i: Instr)
    ensures |Mnemonic(i)| > 0 && '_' !in Mnemonic(i) && ' ' !in Mnemonic(i)
  {
  }

  /**
   * `s.split(sep)[-1]`: the part of `s` after its last `sep`, or all of `s`
   * when there is none.
   */
  function AfterLast(s: string, sep: char): (r: string)
    ensures sep !in r
    ensures |r| <= |s| && r == s[|s| - |r|..]
    ensures |r| < |s| ==> s[|s| - |r| - 1] == sep
  {
    if s == [] || s[|s| - 1] == sep then []
    else AfterLast(s[..|s| - 1], sep) + [s[|s| - 1]]
  }

  /** `instruction.name`: the class name after its last underscore. */
  function Name(i: Instr): (r: string)
    ensures '_' !in r
    ensures |r| <= |ClassName(i)| && r == ClassName(i)[|ClassName(i)| - |r|..]
  {
    AfterLast(ClassName(i), '_')
  }

  /**
   * `instruction.__str__` and `noop_instruction.__str__`: the mnemonic, then
   * for an instruction with an operand a space and the address as `%04o`.
   */
  function Render(i: Instr): (r: string)
    ensures |Name(i)| <= |r| && r[..|Name(i)|] == Name(i)
    ensures i.Pseudo? <==> |r| == |Name(i)|
    ensures i.Op? ==> |r| >= |Name(i)| + 5 && r[|Name(i)|] == ' '
  {
    match i
    case Op(_, a) => Name(i) + " " + Octal.Pad04(a)
    case Pseudo(_) => Name(i)
  }

  /** Taking the class name after its last underscore gives exactly the mnemonic. */
  lemma NameIsMnemonic(i: Instr)
    ensures Name(i) == Mnemonic(i)
  {
    var m := Mnemonic(i);
    MnemonicIsBare(i);
    var c := ClassName(i);
    var p := c[..|c| - |m| - 1];
    assert c == p + ['_'] + m;
    AfterLastSuffix(p, '_', m);
  }

  /** What follows the last separator is the part after it. */
  lemma {:induction false} AfterLastSuffix(p: string, sep: char, m: string)
    requires sep !in m
    ensures AfterLast(p + [sep] + m, sep) == m
    decreases |m|
  {
    var s := p + [sep] + m;
    if m != [] {
      assert s[..|s| - 1] == p + [sep] + m[..|m| - 1];
      AfterLastSuffix(p, sep, m[..|m| - 1]);
    }
  }

  /**
   * An instruction with an operand address below 4096 (every decoded one)
   * renders as its mnemonic, one space and exactly four octal digits that
   * denote the address.
   */
  lemma RenderOperand(b: Base, a: nat)
    requires a < 0x1000
    ensures var s, n := Render(Op(b, a)), |Name(Op(b, a))|;
      |s| == n + 5 && s[..n] == Name(Op(b, a)) && s[n] == ' ' &&
      Octal.IsOctal(s[n + 1..]) && Octal.Value(s[n + 1..]) == a
  {
    var s, n := Render(Op(b, a)), |Name(Op(b, a))|;
    Octal.Pad04Correct(a);
    assert s[n + 1..] == Octal.Pad04(a);
  }

  /** A pseudo-op renders as its mnemonic alone, with no operand. */
  lemma RenderAlias(x: Alias)
    ensures Render(Pseudo(x)) == Name(Pseudo(x))
    ensures ' ' !in Render(Pseudo(x))
  {
    NameIsMnemonic(Pseudo(x));
    MnemonicIsBare(Pseudo(x));
  }

  /** The base instruction spelled `m`, if any. */
  function BaseNamed(m: string): Option<Base>
  {
    if m == "TC" then Some(TC)
    else if m == "CCS" then Some(CCS)
    else if m == "TCF" then Some(TCF)
    else if m == "DAS" then Some(DAS)
    else if m == "LXCH" then Some(LXCH)
    else if m == "INCR" then Some(INCR)
    else if m == "ADS" then Some(ADS)
    else if m == "CA" then Some(CA)
    else if m == "CS" then Some(CS)
    else if m == "INDEX" then Some(INDEX)
    else if m == "DXCH" then Some(DXCH)
    else if m == "TS" then Some(TS)
    else if m == "XCH" then Some(XCH)
    else if m == "AD" then Some(AD)
    else if m == "MASK" then Some(MASK)
    else None
  }

  /** The pseudo-op spelled `m`, if any. */
  function AliasNamed(m: string): Option<Alias>
  {
    if m == "XXALQ" then Some(XXALQ)
    else if m == "XLQ" then Some(XLQ)
    else if m == "RETURN" then Some(RETURN)
    else if m == "RELINT" then Some(RELINT)
    else if m == "INHINT" then Some(INHINT)
    else if m == "EXTEND" then Some(EXTEND)
    else if m == "DDOUBL" then Some(DDOUBL)
    else if m == "ZL" then Some(ZL)
    else if m == "COM" then Some(COM)
    else if m == "RESUME" then Some(RESUME)
    else if m == "DTCF" then Some(DTCF)
    else if m == "DTCB" then Some(DTCB)
    else if m == "OVSK" then Some(OVSK)
    else if m == "TCAA" then Some(TCAA)
    else None
  }

  /** Every mnemonic is found under its own spelling. */
  lemma MnemonicLookup(i: Instr)
    ensures i.Op? ==> BaseNamed(Mnemonic(i)) == Some(i.base)
    ensures i.Pseudo? ==> AliasNamed(Mnemonic(i)) == Some(i.alias) && BaseNamed(Mnemonic(i)) == None
  {
    match i
    case Op(b, _) => BaseLookup(b);
    case Pseudo(x) => AliasLookup(x);
  }

  lemma BaseLookup(b: Base)
    ensures BaseNamed(Mnemonic(Op(b, 0))) == Some(b)
  {
    match b
    case TC => case CCS => case TCF => case DAS => case LXCH =>
    case INCR => case ADS => case CA => case CS => case INDEX =>
    case DXCH => case TS => case XCH => case AD => case MASK =>
  }

  lemma AliasLookup(x: Alias)
    ensures AliasNamed(Mnemonic(Pseudo(x))) == Some(x)
    ensures BaseNamed(Mnemonic(Pseudo(x))) == None
  {
    AliasFound(x);
    AliasNotBase(x);
  }

  lemma AliasFound(x: Alias)
    ensures AliasNamed(Mnemonic(Pseudo(x))) == Some(x)
  {
    match x
    case XXALQ => case XLQ => case RETURN => case RELINT => case INHINT =>
    case EXTEND => case DDOUBL => case ZL => case COM => case RESUME =>
    case DTCF => case DTCB => case OVSK => case TCAA =>
  }

  lemma AliasNotBase(x: Alias)
    ensures BaseNamed(Mnemonic(Pseudo(x))) == None
  {
    match x
    case XXALQ => case XLQ => case RETURN => case RELINT => case INHINT =>
    case EXTEND => case DDOUBL => case ZL => case COM => case RESUME =>
    case DTCF => case DTCB => case OVSK => case TCAA =>
  }

  /** The position of the first space in `s`, or `|s|` when there is none. */
  function FirstSpace(s: string): (k: nat)
    ensures k <= |s| && ' ' !in s[..k]
    ensures k < |s| ==> s[k] == ' '
  {
    if s == [] || s[0] == ' ' then 0 else 1 + FirstSpace(s[1..])
  }

  /**
   * Reads rendered text back: a bare pseudo-op mnemonic, or a base mnemonic,
   * one space and four octal digits. This is the inverse of `Render`, used to
   * show that rendering loses nothing.
   */
  function ParseRendered(s: string): Option<Instr>
  {
    var k := FirstSpace(s);
    if k == |s| then
      match AliasNamed(s)
      case Some(x) => Some(Pseudo(x))
      case None => None
    else
      var digits := s[k + 1..];
      match BaseNamed(s[..k])
      case Some(b) =>
        if |digits| == 4 && Octal.IsOctal(digits) then Some(Op(b, Octal.Value(digits))) else None
      case None => None
  }

  /** Every instruction with an address below 4096 is read back from its rendering. */
  lemma RenderRoundTrip(i: Instr)
    requires i.Op? ==> i.addr < 0x1000
    ensures ParseRendered(Render(i)) == Some(i)
  {
    NameIsMnemonic(i);
    MnemonicIsBare(i);
    MnemonicLookup(i);
    var s := Render(i);
    var m := Mnemonic(i);
    if i.Op? {
      RenderOperand(i.base, i.addr);
      FirstSpaceAt(s, |m|);
    } else {
      FirstSpaceAt(s, |s|);
    }
  }

  lemma FirstSpaceAt(s: string, k: nat)
    requires k <= |s| && ' ' !in s[..k] && (k < |s| ==> s[k] == ' ')
    ensures FirstSpace(s) == k
  {
  }


  /**
   * Words from the alias table and its edges: octal 14 is TC 6, the EXTEND
   * pseudo-op; octal 12 is TC 5, which stays TC; octal 44014 is LXCH 6 (quarter code 1), ZL.
   */
  lemma Examples()
    ensures FromWord(0x0C, false) == Ok(Some(Pseudo(EXTEND)))
    ensures FromWord(0x0A, false) == Ok(Some(Op(TC, 5)))
    ensures FromWord(0x480C, false) == Ok(Some(Pseudo(ZL)))
    ensures FromWord(0x0C, true) == Ok(None)
  {
    AliasWord(EXTEND, 0x0C);
    AliasWord(ZL, 0x480C);
    AssembleDecode(Op(TC, 5), 0);
  }

  /** How those words render. */
  lemma RenderExamples()
    ensures Render(Pseudo(EXTEND)) == "EXTEND"
    ensures Render(Op(TC, 5)) == "TC 0005"
  {
    NameIsMnemonic(Pseudo(EXTEND));
    NameIsMnemonic(Op(TC, 5));
    assert Octal.Digits(5) == ['5'];
    assert Octal.Zeros(3) == "000";
  }
}
