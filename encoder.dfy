/**
 * The instruction encoder (binInstruction): packs an instruction, already
 * split into its parts (mnemonic first), into a 32-bit word according to the
 * format class the catalog gives its mnemonic. Bad input is reported and
 * yields the word 0.
 */
module Encoder {
  import opened Numerals
  import opened Definitions
  import opened Registers

  // The fields of a word, read back. Bit 31 is the most significant.

  /** Bits 31:26. */
  function Opcode(w: Word): bv6 { (w >> 26) as bv6 }
  /** Bits 25:21. */
  function Rs(w: Word): bv5 { ((w >> 21) & 0x1F) as bv5 }
  /** Bits 20:16. */
  function Rt(w: Word): bv5 { ((w >> 16) & 0x1F) as bv5 }
  /** Bits 15:11. */
  function Rd(w: Word): bv5 { ((w >> 11) & 0x1F) as bv5 }
  /** Bits 10:6. */
  function Shamt(w: Word): bv5 { ((w >> 6) & 0x1F) as bv5 }
  /** Bits 5:0. */
  function Funct(w: Word): bv6 { (w & 0x3F) as bv6 }
  /** Bits 15:0. */
  function Immediate(w: Word): bv16 { (w & 0xFFFF) as bv16 }
  /** Bits 25:0. */
  function Target(w: Word): bv26 { (w & 0x3FF_FFFF) as bv26 }

  /** The low 16 bits of an int in two's complement (int & 0xFFFF): its value modulo 2^16. */
  function Low16(x: int): bv16 { (x % 0x1_0000) as bv16 }

  /** The low 26 bits of an int in two's complement (int & 0x3FFFFFF): its value modulo 2^26. */
  function Low26(x: int): bv26 { (x % 0x400_0000) as bv26 }

  /** w holds an R-type (or R-SHIFT) instruction with exactly these fields. */
  predicate RLayout(w: Word, op: nat, rs: nat, rt: nat, rd: nat, shamt: nat, funct: nat)
    requires op < 64 && rs < 32 && rt < 32 && rd < 32 && shamt < 32 && funct < 64
  {
    && Opcode(w) == op as bv6
    && Rs(w) == rs as bv5
    && Rt(w) == rt as bv5
    && Rd(w) == rd as bv5
    && Shamt(w) == shamt as bv5
    && Funct(w) == funct as bv6
  }

  /** w holds an I-type instruction; the immediate keeps only its low 16 bits. */
  predicate ILayout(w: Word, op: nat, rs: nat, rt: nat, immediate: int)
    requires op < 64 && rs < 32 && rt < 32
  {
    && Opcode(w) == op as bv6
    && Rs(w) == rs as bv5
    && Rt(w) == rt as bv5
    && Immediate(w) == Low16(immediate)
  }

  /** w holds a J-type instruction; the target keeps only its low 26 bits. */
  predicate JLayout(w: Word, op: nat, target: int)
    requires op < 64
  {
    && Opcode(w) == op as bv6
    && Target(w) == Low26(target)
  }

  /** The encoded word and the error messages written while encoding it, in order. */
  datatype Encoding = Encoding(word: Word, diagnostics: seq<Diagnostic>)

  predicate FitsFields(codes: InstructionCodes) {
    codes.opCode < 64 && codes.funct < 64
  }

  /** The part counts binInstruction accepts for each format class. */
  predicate ArityAccepted(f: Format, count: nat) {
    match f
    case R => count == 2 || count == 4
    case RShift => count == 4
    case I => count == 3 || count == 4
    case J => count == 2
    case Null => true
  }

  /** parts[0] is a catalog mnemonic of format class f. */
  predicate HasFormat(parts: seq<string>, catalog: Catalog, f: Format) {
    parts != [] && parts[0] in catalog && catalog[parts[0]].format == f
  }

  /**
   * What the encoder demands of its caller: every token it converts with
   * std::stoi is a number (stoi throws otherwise), and an I-type instruction
   * does not come with exactly three parts (the encoder would read a fourth).
   */
  predicate OperandsReadable(parts: seq<string>, catalog: Catalog) {
    && (HasFormat(parts, catalog, RShift) && |parts| == 4 ==> Stoi(parts[3]).Some?)
    && (HasFormat(parts, catalog, I) ==> |parts| != 3)
    && (HasFormat(parts, catalog, I) && |parts| == 4 ==> Stoi(parts[3]).Some?)
    && (HasFormat(parts, catalog, J) && |parts| == 2 ==> Stoi(parts[1]).Some?)
  }

  // The words binInstruction builds with |=, one per layout.

  function PackR(op: nat, rs: nat, rt: nat, rd: nat, funct: nat): (w: Word)
    requires op < 64 && rs < 32 && rt < 32 && rd < 32 && funct < 64
    ensures RLayout(w, op, rs, rt, rd, 0, funct)
  {
    (((op as bv6) as bv32) << 26) | (((rs as bv5) as bv32) << 21) | (((rt as bv5) as bv32) << 16)
    | (((rd as bv5) as bv32) << 11) | ((funct as bv6) as bv32)
  }

  /**
   * The shift amount is an int shifted left by 6 and stored in an unsigned
   * word (two's complement, modulo 2^32) without a mask, so the fields come
   * out as stated only when it lies in 0..31; the function code is intact
   * whatever it is.
   */
  function PackShift(op: nat, rt: nat, rd: nat, shamt: int, funct: nat): (w: Word)
    requires op < 64 && rt < 32 && rd < 32 && funct < 64
    ensures Funct(w) == funct as bv6
    ensures 0 <= shamt < 32 ==> RLayout(w, op, 0, rt, rd, shamt, funct)
  {
    var bits := (shamt % 0x1_0000_0000) as bv32;
    assert 0 <= shamt < 32 ==> bits == (shamt as bv5) as bv32 by {
      if 0 <= shamt < 32 {
        SmallIntBits(shamt);
      }
    }
    (((op as bv6) as bv32) << 26) | (((rt as bv5) as bv32) << 16) | (((rd as bv5) as bv32) << 11)
    | (bits << 6) | ((funct as bv6) as bv32)
  }

  /** A shift amount in 0..31 converts to the same bits whether widened or not. */
  lemma SmallIntBits(v: int)
    requires 0 <= v < 32
    ensures (v % 0x1_0000_0000) as bv32 == (v as bv5) as bv32
  {
    assert v % 0x1_0000_0000 == v;
    assert (v as bv32) == (v as bv5) as bv32;
  }

  function PackI(op: nat, rs: nat, rt: nat, immediate: int): (w: Word)
    requires op < 64 && rs < 32 && rt < 32
    ensures ILayout(w, op, rs, rt, immediate)
  {
    (((op as bv6) as bv32) << 26) | (((rs as bv5) as bv32) << 21) | (((rt as bv5) as bv32) << 16)
    | (Low16(immediate) as bv32)
  }

  function PackJ(op: nat, target: int): (w: Word)
    requires op < 64
    ensures JLayout(w, op, target)
  {
    (((op as bv6) as bv32) << 26) | (Low26(target) as bv32)
  }

  /** Format R: {op, rd, rs, rt}, or {op, rs} for a register jump (jr). */
  function EncodeR(parts: seq<string>, codes: InstructionCodes, regs: RegisterTable): (e: Encoding)
    requires FitsFields(codes) && WellFormedRegisterTable(regs)
    ensures |parts| == 2 ==>
      && RLayout(e.word, codes.opCode, RegCode(parts[1], regs), 0, 0, 0, codes.funct)
      && e.diagnostics == RegDiagnostics(parts[1], regs)
    ensures |parts| == 4 ==>
      && RLayout(e.word, codes.opCode, RegCode(parts[2], regs), RegCode(parts[3], regs), RegCode(parts[1], regs), 0, codes.funct)
      && e.diagnostics == RegDiagnostics(parts[2], regs) + RegDiagnostics(parts[3], regs) + RegDiagnostics(parts[1], regs)
    ensures |parts| != 2 && |parts| != 4 ==> e == Encoding(0, [WrongArgumentCount(R, |parts|)])
  {
    if |parts| == 2 then
      Encoding(PackR(codes.opCode, RegCode(parts[1], regs), 0, 0, codes.funct), RegDiagnostics(parts[1], regs))
    else if |parts| != 4 then
      Encoding(0, [WrongArgumentCount(R, |parts|)])
    else
      var rs := RegCode(parts[2], regs);
      var rt := RegCode(parts[3], regs);
      var rd := RegCode(parts[1], regs);
      Encoding(PackR(codes.opCode, rs, rt, rd, codes.funct),
               RegDiagnostics(parts[2], regs) + RegDiagnostics(parts[3], regs) + RegDiagnostics(parts[1], regs))
  }

  /** Format R-SHIFT: {op, rd, rt, shamt}, the shift amount a decimal literal. */
  function EncodeRShift(parts: seq<string>, codes: InstructionCodes, regs: RegisterTable): (e: Encoding)
    requires FitsFields(codes) && WellFormedRegisterTable(regs)
    requires |parts| == 4 ==> Stoi(parts[3]).Some?
    ensures |parts| == 4 ==>
      && Funct(e.word) == codes.funct as bv6
      && e.diagnostics == RegDiagnostics(parts[2], regs) + RegDiagnostics(parts[1], regs)
    ensures |parts| == 4 && 0 <= Stoi(parts[3]).value < 32 ==>
      RLayout(e.word, codes.opCode, 0, RegCode(parts[2], regs), RegCode(parts[1], regs), Stoi(parts[3]).value, codes.funct)
    ensures |parts| != 4 ==> e == Encoding(0, [WrongArgumentCount(RShift, |parts|)])
  {
    if |parts| != 4 then
      Encoding(0, [WrongArgumentCount(RShift, |parts|)])
    else
      var rt := RegCode(parts[2], regs);
      var rd := RegCode(parts[1], regs);
      Encoding(PackShift(codes.opCode, rt, rd, Stoi(parts[3]).value, codes.funct),
               RegDiagnostics(parts[2], regs) + RegDiagnostics(parts[1], regs))
  }

  /** Format I: {op, rt, rs, immediate}. */
  function EncodeI(parts: seq<string>, codes: InstructionCodes, regs: RegisterTable): (e: Encoding)
    requires FitsFields(codes) && WellFormedRegisterTable(regs)
    requires |parts| != 3
    requires |parts| == 4 ==> Stoi(parts[3]).Some?
    ensures |parts| == 4 ==>
      && ILayout(e.word, codes.opCode, RegCode(parts[2], regs), RegCode(parts[1], regs), Stoi(parts[3]).value)
      && e.diagnostics == RegDiagnostics(parts[2], regs) + RegDiagnostics(parts[1], regs)
    ensures |parts| != 4 ==> e == Encoding(0, [WrongArgumentCount(I, |parts|)])
  {
    if |parts| != 4 then
      Encoding(0, [WrongArgumentCount(I, |parts|)])
    else
      var rs := RegCode(parts[2], regs);
      var rt := RegCode(parts[1], regs);
      Encoding(PackI(codes.opCode, rs, rt, Stoi(parts[3]).value),
               RegDiagnostics(parts[2], regs) + RegDiagnostics(parts[1], regs))
  }

  /** Format J: {op, target}. */
  function EncodeJ(parts: seq<string>, codes: InstructionCodes): (e: Encoding)
    requires FitsFields(codes)
    requires |parts| == 2 ==> Stoi(parts[1]).Some?
    ensures |parts| == 2 ==> JLayout(e.word, codes.opCode, Stoi(parts[1]).value) && e.diagnostics == []
    ensures |parts| != 2 ==> e == Encoding(0, [WrongArgumentCount(J, |parts|)])
  {
    if |parts| != 2 then
      Encoding(0, [WrongArgumentCount(J, |parts|)])
    else
      Encoding(PackJ(codes.opCode, Stoi(parts[1]).value), [])
  }

  /** binInstruction. */
  function Encode(parts: seq<string>, catalog: Catalog, regs: RegisterTable): (e: Encoding)
    requires WellFormedCatalog(catalog) && WellFormedRegisterTable(regs)
    requires OperandsReadable(parts, catalog)
    ensures parts == [] ==> e == Encoding(0, [EmptyInstruction])
    ensures parts != [] && parts[0] !in catalog ==> e == Encoding(0, [UnsupportedInstruction(parts[0])])
    ensures parts != [] && parts[0] in catalog && !ArityAccepted(catalog[parts[0]].format, |parts|) ==>
      e == Encoding(0, [WrongArgumentCount(catalog[parts[0]].format, |parts|)])
    ensures HasFormat(parts, catalog, R) ==> e == EncodeR(parts, catalog[parts[0]], regs)
    ensures HasFormat(parts, catalog, RShift) ==> e == EncodeRShift(parts, catalog[parts[0]], regs)
    ensures HasFormat(parts, catalog, I) ==> e == EncodeI(parts, catalog[parts[0]], regs)
    ensures HasFormat(parts, catalog, J) ==> e == EncodeJ(parts, catalog[parts[0]])
    ensures HasFormat(parts, catalog, Null) ==> e == Encoding(0, [])
  {
    if parts == [] then Encoding(0, [EmptyInstruction])
    else if parts[0] !in catalog then Encoding(0, [UnsupportedInstruction(parts[0])])
    else
      var codes := catalog[parts[0]];
      match codes.format
      case R => EncodeR(parts, codes, regs)
      case RShift => EncodeRShift(parts, codes, regs)
      case I => EncodeI(parts, codes, regs)
      case J => EncodeJ(parts, codes)
      case Null => Encoding(0, [])
  }
}
