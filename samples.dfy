/**
 * Worked examples: familiar MIPS instructions encoded with the standard
 * opcodes and register numbers, checked against the words a MIPS reference
 * gives for them.
 */
module Samples {
  import opened Numerals
  import opened Definitions
  import opened Registers
  import opened Encoder
  import opened SourceLines
  import opened AddressPass
  import opened EncodingPass
  import opened Assembler

  /** The catalog and register entries the examples use, as MIPS defines them. */
  predicate StandardEntries(catalog: Catalog, regs: RegisterTable) {
    && WellFormedCatalog(catalog) && WellFormedRegisterTable(regs)
    && "add" in catalog && catalog["add"] == InstructionCodes(0, 0x20, R)
    && "lw" in catalog && catalog["lw"] == InstructionCodes(0x23, 0, I)
    && "beq" in catalog && catalog["beq"] == InstructionCodes(4, 0, I)
    && "j" in catalog && catalog["j"] == InstructionCodes(2, 0, J)
    && "$t0" in regs && regs["$t0"] == 8
    && "$t1" in regs && regs["$t1"] == 9
    && "$t2" in regs && regs["$t2"] == 10
    && "$sp" in regs && regs["$sp"] == 29
  }

  lemma RWord(w: Word, op: nat, rs: nat, rt: nat, rd: nat, shamt: nat, funct: nat)
    requires op < 64 && rs < 32 && rt < 32 && rd < 32 && shamt < 32 && funct < 64
    requires RLayout(w, op, rs, rt, rd, shamt, funct)
    ensures w == (((op as bv6) as bv32) << 26) | (((rs as bv5) as bv32) << 21) | (((rt as bv5) as bv32) << 16)
               | (((rd as bv5) as bv32) << 11) | (((shamt as bv5) as bv32) << 6) | ((funct as bv6) as bv32)
  {
  }

  /** add $t0, $t1, $t2 is 0x012A4020. */
  lemma AddSample(catalog: Catalog, regs: RegisterTable)
    requires StandardEntries(catalog, regs)
    ensures Encode(["add", "$t0", "$t1", "$t2"], catalog, regs) == Encoding(0x012A_4020, [])
  {
    ResolveAbbreviation("$t0", regs);
    ResolveAbbreviation("$t1", regs);
    ResolveAbbreviation("$t2", regs);
    var e := Encode(["add", "$t0", "$t1", "$t2"], catalog, regs);
    RWord(e.word, 0, 9, 10, 8, 0, 0x20);
  }

  lemma IWord(w: Word, op: nat, rs: nat, rt: nat, immediate: int)
    requires op < 64 && rs < 32 && rt < 32
    requires ILayout(w, op, rs, rt, immediate)
    ensures w == (((op as bv6) as bv32) << 26) | (((rs as bv5) as bv32) << 21) | (((rt as bv5) as bv32) << 16)
               | (Low16(immediate) as bv32)
  {
  }

  lemma JWord(w: Word, op: nat, target: int)
    requires op < 64
    requires JLayout(w, op, target)
    ensures w == (((op as bv6) as bv32) << 26) | (Low26(target) as bv32)
  {
  }

  /** lw $t0, 4($sp), classified into {lw, $t0, $sp, 4}, is 0x8FA80004. */
  lemma LoadSample(catalog: Catalog, regs: RegisterTable)
    requires StandardEntries(catalog, regs)
    ensures OperandsReadable(["lw", "$t0", "$sp", "4"], catalog)
      && Encode(["lw", "$t0", "$sp", "4"], catalog, regs) == Encoding(0x8FA8_0004, [])
  {
    ResolveAbbreviation("$t0", regs);
    ResolveAbbreviation("$sp", regs);
    assert IntToString(4) == "4";
    StoiInvertsToString(4);
    var e := Encode(["lw", "$t0", "$sp", "4"], catalog, regs);
    LowBitsOfFour(4);
    IWord(e.word, 0x23, 29, 8, 4);
  }

  // Low bits of the sample values, each worked out on its own.

  lemma LowBitsOfFour(x: int)
    requires x == 4
    ensures Low16(x) == 4
  {
    assert x % 0x1_0000 == 4;
  }

  /** -2 in 16-bit two's complement. */
  lemma LowBitsOfMinusTwo(x: int)
    requires x == -2
    ensures Low16(x) == 0xFFFE
  {
    assert x % 0x1_0000 == 0xFFFE;
  }

  lemma LowBitsOfSixteen(x: int)
    requires x == 16
    ensures Low26(x) == 16
  {
    assert x % 0x400_0000 == 16;
  }

  lemma LowBitsOfZero(x: int)
    requires x == 0
    ensures Low26(x) == 0
  {
    assert x % 0x400_0000 == 0;
  }

  /**
   * beq $t0, $t1 back to the instruction before it, classified into
   * {beq, $t1, $t0, -2}: the immediate is -2 in 16-bit two's complement,
   * giving 0x1109FFFE.
   */
  lemma BranchBackSample(catalog: Catalog, regs: RegisterTable)
    requires StandardEntries(catalog, regs)
    ensures OperandsReadable(["beq", "$t1", "$t0", "-2"], catalog)
      && Encode(["beq", "$t1", "$t0", "-2"], catalog, regs) == Encoding(0x1109_FFFE, [])
  {
    ResolveAbbreviation("$t0", regs);
    ResolveAbbreviation("$t1", regs);
    assert IntToString(-2) == "-2";
    StoiInvertsToString(-2);
    var e := Encode(["beq", "$t1", "$t0", "-2"], catalog, regs);
    LowBitsOfMinusTwo(-2);
    IWord(e.word, 4, 8, 9, -2);
  }

  /** j to the label at address 0x40, classified into {j, 16}, is 0x08000010. */
  lemma JumpSample(catalog: Catalog, regs: RegisterTable)
    requires StandardEntries(catalog, regs)
    ensures OperandsReadable(["j", "16"], catalog) && Encode(["j", "16"], catalog, regs) == Encoding(0x0800_0010, [])
  {
    assert IntToString(16) == "16";
    StoiInvertsToString(16);
    var e := Encode(["j", "16"], catalog, regs);
    LowBitsOfSixteen(16);
    JWord(e.word, 2, 16);
  }

  /** The loop "loop: add $t0, $t1, $t2 / beq $t0, $t1, loop / j loop". */
  function LoopProgram(): seq<Line> {
    [ CodeLine(Label("loop", false), Triple("add", "$t0", "$t1", "$t2"), ""),
      CodeLine(NoLabel, Triple("beq", "$t0", "$t1", "loop"), ""),
      CodeLine(NoLabel, Pair("j", "loop"), "") ]
  }

  /** The loop told line by line, which keeps the lemmas below from evaluating whole passes over it. */
  predicate IsLoopProgram(lines: seq<Line>) {
    && |lines| == 3
    && lines[0] == LoopProgram()[0]
    && lines[1] == LoopProgram()[1]
    && lines[2] == LoopProgram()[2]
  }

  lemma LoopProgramAssemblable(lines: seq<Line>, catalog: Catalog, regs: RegisterTable)
    requires IsLoopProgram(lines) && StandardEntries(catalog, regs)
    ensures Assemblable(lines, catalog, regs) && Consistent(lines)
  {
    assert NumericOperands(lines[0], catalog) by {
      assert catalog[lines[0].body.mnemonic].format == R;
    }
    assert NumericOperands(lines[1], catalog) && NumericOperands(lines[2], catalog);
    assert Encoded(lines[0]) && Encoded(lines[1]) && Encoded(lines[2]);
    forall i | 0 <= i < |lines|
      ensures NumericOperands(lines[i], catalog) && Encoded(lines[i])
    {
      assert i == 0 || i == 1 || i == 2;
    }
  }

  /** The first line encodes its registers in the order rs = $t1, rt = $t2, rd = $t0. */
  lemma LoopFirstLayout(lines: seq<Line>, catalog: Catalog, regs: RegisterTable)
    requires IsLoopProgram(lines) && StandardEntries(catalog, regs)
    ensures Assemblable(lines, catalog, regs) && Encoded(lines[0])
            && RLayout(WordAt(lines, 0, catalog, regs), 0, 9, 10, 8, 0, 0x20)
  {
    LoopProgramAssemblable(lines, catalog, regs);
    ResolveAbbreviation("$t0", regs);
    ResolveAbbreviation("$t1", regs);
    ResolveAbbreviation("$t2", regs);
    var s0 := StateAt(lines, 0, catalog, regs);
    ThreeOperandsInOrder(lines[0], s0.table, s0.count, catalog, regs);
  }

  /** The loop's first word: add $t0, $t1, $t2. */
  lemma LoopFirstWord(lines: seq<Line>, catalog: Catalog, regs: RegisterTable)
    requires IsLoopProgram(lines) && StandardEntries(catalog, regs)
    ensures Assemblable(lines, catalog, regs) && Encoded(lines[0])
            && WordAt(lines, 0, catalog, regs) == 0x012A_4020
  {
    LoopFirstLayout(lines, catalog, regs);
    RWord(WordAt(lines, 0, catalog, regs), 0, 9, 10, 8, 0, 0x20);
  }

  /** From the word after the branch (address 8) back to the label (address 0) is -2 words. */
  lemma LoopBranchDistance(lines: seq<Line>)
    requires IsLoopProgram(lines)
    ensures (AddressAfter(lines[..0]) - AddressAfter(lines[..1]) - 4) / 4 == -2
  {
    assert lines[..0] == [] && lines[..1] == [lines[0]];
    assert AddressAfter(lines[..1]) == 4;
  }

  /** The branch's registers are $t0 (8) and $t1 (9). */
  lemma LoopBranchRegisters(lines: seq<Line>, catalog: Catalog, regs: RegisterTable)
    requires IsLoopProgram(lines) && StandardEntries(catalog, regs)
    ensures RegCode(lines[1].body.op1, regs) == 8 && RegCode(lines[1].body.op2, regs) == 9
  {
    ResolveAbbreviation("$t0", regs);
    ResolveAbbreviation("$t1", regs);
  }

  /** The branch encodes $t0 in rs, $t1 in rt and -2 as the offset. */
  lemma LoopSecondLayout(lines: seq<Line>, catalog: Catalog, regs: RegisterTable)
    requires IsLoopProgram(lines) && StandardEntries(catalog, regs)
    ensures Assemblable(lines, catalog, regs) && Encoded(lines[1])
            && ILayout(WordAt(lines, 1, catalog, regs), 4, 8, 9, -2)
  {
    LoopProgramAssemblable(lines, catalog, regs);
    ConsistentPrefix(lines, 1);
    LoopBranchDistance(lines);
    BranchReachesLabel(lines, 1, 0, -2, catalog, regs);
    LoopBranchRegisters(lines, catalog, regs);
  }

  /** The loop's second word: the branch back to the label, two words before the next instruction. */
  lemma LoopSecondWord(lines: seq<Line>, catalog: Catalog, regs: RegisterTable)
    requires IsLoopProgram(lines) && StandardEntries(catalog, regs)
    ensures Assemblable(lines, catalog, regs) && Encoded(lines[1])
            && WordAt(lines, 1, catalog, regs) == 0x1109_FFFE
  {
    LoopSecondLayout(lines, catalog, regs);
    IWord(WordAt(lines, 1, catalog, regs), 4, 8, 9, -2);
    LowBitsOfMinusTwo(-2);
  }

  /** The loop's third word: the jump to the label's word address, 0. */
  lemma LoopThirdWord(lines: seq<Line>, catalog: Catalog, regs: RegisterTable)
    requires IsLoopProgram(lines) && StandardEntries(catalog, regs)
    ensures Assemblable(lines, catalog, regs) && Encoded(lines[2])
            && WordAt(lines, 2, catalog, regs) == 0x0800_0000
  {
    LoopProgramAssemblable(lines, catalog, regs);
    assert lines[..0] == [];
    JumpReachesLabel(lines, 2, 0, catalog, regs);
    JWord(WordAt(lines, 2, catalog, regs), 2, AddressAfter(lines[..0]) / 4);
    LowBitsOfZero(AddressAfter(lines[..0]) / 4);
  }

  /** Three words appended one by one to an empty output. */
  lemma ThreeWords(empty: seq<Word>, a: Word, b: Word, c: Word)
    requires empty == []
    ensures empty + [a] + [b] + [c] == [a, b, c]
  {
  }

  /** A three-line program whose lines are all encoded writes exactly their three words, in order. */
  lemma BinaryOfThree(lines: seq<Line>, w0: Word, w1: Word, w2: Word, catalog: Catalog, regs: RegisterTable)
    requires Assemblable(lines, catalog, regs) && |lines| == 3
    requires Encoded(lines[0]) && WordAt(lines, 0, catalog, regs) == w0
    requires Encoded(lines[1]) && WordAt(lines, 1, catalog, regs) == w1
    requires Encoded(lines[2]) && WordAt(lines, 2, catalog, regs) == w2
    ensures StateAt(lines, 3, catalog, regs).binary == [w0, w1, w2]
  {
    assert lines[..0] == [];
    assert StateAt(lines, 0, catalog, regs).binary == [];
    WordWritten(lines, 0, catalog, regs);
    WordWritten(lines, 1, catalog, regs);
    WordWritten(lines, 2, catalog, regs);
    ThreeWords(StateAt(lines, 0, catalog, regs).binary, WordAt(lines, 0, catalog, regs),
               WordAt(lines, 1, catalog, regs), WordAt(lines, 2, catalog, regs));
  }

  /** Both passes over the loop: the branch goes back two words, the jump to address 0. */
  lemma LoopProgramSample(catalog: Catalog, regs: RegisterTable)
    requires StandardEntries(catalog, regs)
    ensures Assemblable(LoopProgram(), catalog, regs)
    ensures StateAt(LoopProgram(), 3, catalog, regs).binary == [0x012A_4020, 0x1109_FFFE, 0x0800_0000]
  {
    var lines := LoopProgram();
    LoopFirstWord(lines, catalog, regs);
    LoopSecondWord(lines, catalog, regs);
    LoopThirdWord(lines, catalog, regs);
    BinaryOfThree(lines, 0x012A_4020, 0x1109_FFFE, 0x0800_0000, catalog, regs);
  }
}
