/**
 * Pass two (secondPass with outputPrinting): each line is classified into
 * the operand tuple the encoder expects (reordering operands and resolving
 * label references on the way), encoded, and written to the listing and the
 * binary output; the instruction counter moves on by 4 only when a word is
 * written for a line that is not a lone label.
 */
module EncodingPass {
  import opened Numerals
  import opened Definitions
  import opened Registers
  import opened Encoder
  import opened SourceLines

  /** The value of labelAddrMap[name]: the bound address, or 0 for a label never defined. */
  function Lookup(table: map<string, int>, name: string): int {
    if name in table then table[name] else 0
  }

  /** The map after labelAddrMap[name]: operator[] inserts an absent name with the value 0. */
  function Touch(table: map<string, int>, name: string): (t: map<string, int>)
    ensures t.Keys == table.Keys + {name}
    ensures forall k | k in table :: t[k] == table[k]
    ensures t[name] == Lookup(table, name)
  {
    if name in table then table else table[name := 0]
  }

  /**
   * C++ division of ints: the quotient is truncated toward zero, so the
   * remainder has the sign of the dividend and is smaller than the divisor.
   */
  function CDiv(a: int, b: int): (q: int)
    requires b > 0
    ensures a >= 0 ==> 0 <= a - q * b < b
    ensures a < 0 ==> -b < a - q * b <= 0
  {
    if a >= 0 then a / b else -((-a) / b)
  }

  /** On a multiple of 4, as addresses are, truncating and Euclidean division by 4 agree. */
  lemma CDivExact(a: int)
    requires a % 4 == 0
    ensures CDiv(a, 4) == a / 4 && CDiv(a, 4) * 4 == a
  {
  }

  /** Label values as pass one produces them: addresses in the range of int. */
  predicate AddressTable(table: map<string, int>) {
    forall k | k in table :: 0 <= table[k] <= INT32_MAX
  }

  /** The operand tuple of a line, and the label map after the lookups made to build it. */
  datatype Classified = Classified(result: seq<string>, table: map<string, int>)

  /** The mnemonic of a matched shape. */
  function Mnemonic(body: Body): string
    requires !body.Unmatched?
  {
    body.mnemonic
  }

  /**
   * The classification part of secondPass. A lone mnemonic, a plain operand
   * and three plain operands are kept in order; "j label" becomes the label's
   * word address; "m rt, offset(base)" becomes {m, rt, base, offset}; "beq a,
   * b, label" becomes {beq, b, a, word offset from the next instruction}. A
   * code line that matches no shape is the error tuple {"err"}, unless it has
   * a label.
   */
  function Classify(line: Line, table: map<string, int>, count: int): (c: Classified)
    ensures |c.result| != 3
    ensures c.table.Keys >= table.Keys && forall k | k in table :: c.table[k] == table[k]
    ensures forall k | k in c.table && k !in table :: c.table[k] == 0
    ensures line.NoCode? ==> c == Classified([], table)
    ensures line.CodeLine? && line.body.Unmatched? ==>
      c == Classified(if line.labelInfo.NoLabel? then ["err"] else [], table)
    ensures line.CodeLine? && !line.body.Unmatched? ==> c.result != [] && c.result[0] == Mnemonic(line.body)
  {
    if line.NoCode? then Classified([], table)
    else
      match line.body
      case Single(m) => Classified([m], table)
      case Pair(m, x) =>
        if m == "j" then Classified([m, IntToString(CDiv(Lookup(table, x), 4))], Touch(table, x))
        else Classified([m, x], table)
      case Memory(m, rt, offset, base) => Classified([m, rt, base, offset], table)
      case Triple(m, a, b, x) =>
        if m == "beq" then Classified([m, b, a, IntToString(CDiv(Lookup(table, x) - count - 4, 4))], Touch(table, x))
        else Classified([m, a, b, x], table)
      case Unmatched => Classified(if line.labelInfo.NoLabel? then ["err"] else [], table)
  }

  /**
   * What the source demands of a line for std::stoi not to throw: the token
   * the encoder reads as a number is a number whenever it comes from the
   * source text (resolved labels are numbers by construction).
   */
  predicate NumericOperands(line: Line, catalog: Catalog) {
    line.CodeLine? ==>
      match line.body
      case Pair(m, x) => m != "j" && m in catalog && catalog[m].format == J ==> Stoi(x).Some?
      case Memory(m, _, offset, _) => m in catalog && catalog[m].format in {RShift, I} ==> Stoi(offset).Some?
      case Triple(m, _, _, x) => m != "beq" && m in catalog && catalog[m].format in {RShift, I} ==> Stoi(x).Some?
      case _ => true
  }

  /** A tuple outputPrinting encodes: non-empty and not the error tuple. */
  predicate Emits(result: seq<string>) {
    result != [] && result[0] != "err"
  }

  /** The lines whose tuple is encoded, told from the line alone. */
  predicate Encoded(line: Line) {
    line.CodeLine? && !line.body.Unmatched? && Mnemonic(line.body) != "err"
  }

  /** A tuple whose last token is a printed int is readable wherever the encoder reads that token as a number. */
  lemma PrintedNumberReadable(parts: seq<string>, n: int, catalog: Catalog)
    requires IsInt32(n) && (|parts| == 1 || |parts| == 3)
    ensures OperandsReadable(parts + [IntToString(n)], catalog)
  {
    StoiInvertsToString(n);
    var tuple := parts + [IntToString(n)];
    assert tuple[|tuple| - 1] == IntToString(n);
  }

  /** The tuple of a line is encodable as soon as its source operands are numbers. */
  lemma ClassifiedOperandsReadable(line: Line, table: map<string, int>, count: int, catalog: Catalog)
    requires NumericOperands(line, catalog) && AddressTable(table) && 0 <= count <= INT32_MAX
    ensures Emits(Classify(line, table, count).result) <==> Encoded(line)
    ensures Emits(Classify(line, table, count).result) ==> OperandsReadable(Classify(line, table, count).result, catalog)
  {
    var result := Classify(line, table, count).result;
    if line.CodeLine? {
      match line.body
      case Pair(m, x) =>
        if m == "j" {
          var target := CDiv(Lookup(table, x), 4);
          assert result == [m] + [IntToString(target)];
          PrintedNumberReadable([m], target, catalog);
        } else {
          assert result == [m, x];
        }
      case Triple(m, a, b, x) =>
        if m == "beq" {
          var offset := CDiv(Lookup(table, x) - count - 4, 4);
          assert result == [m, b, a] + [IntToString(offset)];
          PrintedNumberReadable([m, b, a], offset, catalog);
        } else {
          assert result == [m, a, b, x];
        }
      case Memory(m, rt, offset, base) =>
        assert result == [m, rt, base, offset];
      case Single(m) =>
        assert result == [m];
      case Unmatched =>
    }
  }

  // The reordering seen through the encoder.

  /** The word pass two writes for an encoded line, given the label map and the counter it reaches the line with. */
  function LineWord(line: Line, table: map<string, int>, count: int, catalog: Catalog, regs: RegisterTable): Word
    requires WellFormedCatalog(catalog) && WellFormedRegisterTable(regs)
    requires NumericOperands(line, catalog) && AddressTable(table) && 0 <= count <= INT32_MAX && Encoded(line)
  {
    ClassifiedOperandsReadable(line, table, count, catalog);
    Encode(Classify(line, table, count).result, catalog, regs).word
  }

  /** "m rt, offset(base)": the base register lands in rs, rt in rt, the offset in the immediate. */
  lemma MemoryOperandsTransposed(line: Line, table: map<string, int>, count: int, catalog: Catalog, regs: RegisterTable)
    requires WellFormedCatalog(catalog) && WellFormedRegisterTable(regs)
    requires line.CodeLine? && line.body.Memory? && line.body.mnemonic != "err"
    requires line.body.mnemonic in catalog && catalog[line.body.mnemonic].format == I
    requires Stoi(line.body.offset).Some?
    requires AddressTable(table) && 0 <= count <= INT32_MAX
    ensures Classify(line, table, count).table == table
    ensures ILayout(LineWord(line, table, count, catalog, regs), catalog[line.body.mnemonic].opCode,
                 RegCode(line.body.base, regs), RegCode(line.body.rt, regs), Stoi(line.body.offset).value)
  {
  }

  /**
   * "beq a, b, label" at address count: a lands in rs, b in rt, and the
   * immediate is the distance in words from the next instruction to the
   * label's address, as a 16-bit two's complement value. The label is entered
   * into the map, with address 0 when it was never defined.
   */
  lemma BranchOffsetLaw(line: Line, table: map<string, int>, count: int, words: int, catalog: Catalog, regs: RegisterTable)
    requires WellFormedCatalog(catalog) && WellFormedRegisterTable(regs)
    requires line.CodeLine? && line.body.Triple? && line.body.mnemonic == "beq"
    requires "beq" in catalog && catalog["beq"].format == I
    requires AddressTable(table) && 0 <= count <= INT32_MAX
    requires 4 * words == Lookup(table, line.body.op3) - count - 4
    ensures Classify(line, table, count).table == Touch(table, line.body.op3)
    ensures ILayout(LineWord(line, table, count, catalog, regs), catalog["beq"].opCode,
                    RegCode(line.body.op1, regs), RegCode(line.body.op2, regs), words)
  {
    var offset := Lookup(table, line.body.op3) - count - 4;
    CDivExact(offset);
    assert Classify(line, table, count).result == ["beq", line.body.op2, line.body.op1, IntToString(words)];
    EncodedBranch(line.body.op1, line.body.op2, words, catalog, regs);
  }

  /** The encoder on a branch tuple whose offset is already a number. */
  lemma EncodedBranch(a: string, b: string, words: int, catalog: Catalog, regs: RegisterTable)
    requires WellFormedCatalog(catalog) && WellFormedRegisterTable(regs)
    requires "beq" in catalog && catalog["beq"].format == I
    requires IsInt32(words)
    ensures OperandsReadable(["beq", b, a, IntToString(words)], catalog)
    ensures ILayout(Encode(["beq", b, a, IntToString(words)], catalog, regs).word, catalog["beq"].opCode,
                    RegCode(a, regs), RegCode(b, regs), words)
  {
    StoiInvertsToString(words);
  }

  /** "j label": the target field holds the label's word address (0 for an undefined label). */
  lemma JumpTargetLaw(line: Line, table: map<string, int>, count: int, catalog: Catalog, regs: RegisterTable)
    requires WellFormedCatalog(catalog) && WellFormedRegisterTable(regs)
    requires line.CodeLine? && line.body.Pair? && line.body.mnemonic == "j"
    requires "j" in catalog && catalog["j"].format == J
    requires AddressTable(table) && 0 <= count <= INT32_MAX
    ensures Classify(line, table, count).table == Touch(table, line.body.operand)
    ensures JLayout(LineWord(line, table, count, catalog, regs), catalog["j"].opCode, Lookup(table, line.body.operand) / 4)
  {
    var q := Lookup(table, line.body.operand) / 4;
    assert CDiv(Lookup(table, line.body.operand), 4) == q;
    StoiInvertsToString(q);
    var parts := Classify(line, table, count).result;
    assert parts == ["j", IntToString(q)];
    assert Encode(parts, catalog, regs) == EncodeJ(parts, catalog["j"]);
  }

  /** "m a, b, c" for any other mnemonic keeps source order: an R-type instruction puts a in rd, b in rs, c in rt. */
  lemma ThreeOperandsInOrder(line: Line, table: map<string, int>, count: int, catalog: Catalog, regs: RegisterTable)
    requires WellFormedCatalog(catalog) && WellFormedRegisterTable(regs)
    requires line.CodeLine? && line.body.Triple? && line.body.mnemonic !in {"beq", "err"}
    requires line.body.mnemonic in catalog && catalog[line.body.mnemonic].format == R
    requires AddressTable(table) && 0 <= count <= INT32_MAX
    ensures Classify(line, table, count).table == table
    ensures var codes := catalog[line.body.mnemonic];
      RLayout(LineWord(line, table, count, catalog, regs), codes.opCode,
                 RegCode(line.body.op2, regs), RegCode(line.body.op3, regs), RegCode(line.body.op1, regs), 0, codes.funct)
  {
  }

  /** "m a, b, c" for an I-type mnemonic other than beq: a lands in rt, b in rs, c in the immediate. */
  lemma ThreeOperandsImmediate(line: Line, table: map<string, int>, count: int, catalog: Catalog, regs: RegisterTable)
    requires WellFormedCatalog(catalog) && WellFormedRegisterTable(regs)
    requires line.CodeLine? && line.body.Triple? && line.body.mnemonic !in {"beq", "err"}
    requires line.body.mnemonic in catalog && catalog[line.body.mnemonic].format == I
    requires Stoi(line.body.op3).Some?
    requires AddressTable(table) && 0 <= count <= INT32_MAX
    ensures Classify(line, table, count).table == table
    ensures ILayout(LineWord(line, table, count, catalog, regs), catalog[line.body.mnemonic].opCode,
                    RegCode(line.body.op2, regs), RegCode(line.body.op1, regs), Stoi(line.body.op3).value)
  {
  }

  /** "m a, b, c" for a shift: a lands in rd, b in rt, and a shift amount c in 0..31 in its field. */
  lemma ThreeOperandsShift(line: Line, table: map<string, int>, count: int, catalog: Catalog, regs: RegisterTable)
    requires WellFormedCatalog(catalog) && WellFormedRegisterTable(regs)
    requires line.CodeLine? && line.body.Triple? && line.body.mnemonic !in {"beq", "err"}
    requires line.body.mnemonic in catalog && catalog[line.body.mnemonic].format == RShift
    requires Stoi(line.body.op3).Some? && 0 <= Stoi(line.body.op3).value < 32
    requires AddressTable(table) && 0 <= count <= INT32_MAX
    ensures Classify(line, table, count).table == table
    ensures var codes := catalog[line.body.mnemonic];
      RLayout(LineWord(line, table, count, catalog, regs), codes.opCode,
              0, RegCode(line.body.op2, regs), RegCode(line.body.op1, regs), Stoi(line.body.op3).value, codes.funct)
  {
  }

  /**
   * "m x" for any mnemonic other than j keeps its operand: a register jump
   * (jr) puts x in rs, a J-type instruction (jal) puts the low 26 bits of x
   * in the target, and any other format rejects two parts.
   */
  lemma TwoOperandsInOrder(line: Line, table: map<string, int>, count: int, catalog: Catalog, regs: RegisterTable)
    requires WellFormedCatalog(catalog) && WellFormedRegisterTable(regs)
    requires line.CodeLine? && line.body.Pair? && line.body.mnemonic !in {"j", "err"}
    requires line.body.mnemonic in catalog
    requires catalog[line.body.mnemonic].format == J ==> Stoi(line.body.operand).Some?
    requires AddressTable(table) && 0 <= count <= INT32_MAX
    ensures Classify(line, table, count).table == table
    ensures var codes := catalog[line.body.mnemonic];
      && (codes.format == R ==>
            RLayout(LineWord(line, table, count, catalog, regs), codes.opCode, RegCode(line.body.operand, regs), 0, 0, 0, codes.funct))
      && (codes.format == J ==>
            JLayout(LineWord(line, table, count, catalog, regs), codes.opCode, Stoi(line.body.operand).value))
      && (codes.format !in {R, J} ==> LineWord(line, table, count, catalog, regs) == 0)
  {
  }

  // Output (outputPrinting) and the pass as a whole.

  /** One record of the listing; column layout and message text are not modelled. */
  datatype ListingRecord =
    | Message(diagnostic: Diagnostic)  // an error reported by the encoder or the register resolver
    | Unparsable                       // the error tuple: the line matched no shape
    | Instruction(address: int, word: Word, labelText: string, tokens: seq<string>, comment: string)
    | Annotation(labelText: string, comment: string)  // a line without instruction: its label and comment, if any
    | Symbols(table: map<string, int>) // the symbol section at the end

  function Messages(ds: seq<Diagnostic>): (records: seq<ListingRecord>)
    ensures |records| == |ds|
    ensures forall i | 0 <= i < |ds| :: records[i] == Message(ds[i])
  {
    if ds == [] then [] else [Message(ds[0])] + Messages(ds[1..])
  }

  /** What outputPrinting leaves behind: the counter, and what it wrote to the listing and the binary output. */
  datatype Output = Output(count: int, listing: seq<ListingRecord>, binary: seq<Word>)

  /** outputPrinting: the counter moves on by 4 exactly when a word is written for a line that is not a lone label. */
  function OutputPrinting(result: seq<string>, comment: string, labelText: string, count: int, labelSingle: bool,
                          catalog: Catalog, regs: RegisterTable): (o: Output)
    requires WellFormedCatalog(catalog) && WellFormedRegisterTable(regs)
    requires Emits(result) ==> OperandsReadable(result, catalog)
    ensures o.count == if Emits(result) && !labelSingle then count + 4 else count
    ensures |o.binary| == if Emits(result) then 1 else 0
    ensures Emits(result) ==>
      var e := Encode(result, catalog, regs);
      && o.binary == [e.word]
      && o.listing == Messages(e.diagnostics) + [Instruction(count, e.word, labelText, result, comment)]
    ensures !Emits(result) ==> o.listing == if result == [] then [Annotation(labelText, comment)] else [Unparsable]
  {
    if result != [] && result[0] == "err" then
      Output(count, [Unparsable], [])
    else if result != [] then
      var e := Encode(result, catalog, regs);
      Output(if !labelSingle then count + 4 else count,
             Messages(e.diagnostics) + [Instruction(count, e.word, labelText, result, comment)], [e.word])
    else
      Output(count, [Annotation(labelText, comment)], [])
  }

  /** The label as pass two prints it: with its colon. */
  function LabelText(line: Line): string {
    if line.CodeLine? && line.labelInfo.Label? then line.labelInfo.name + ":" else ""
  }

  /** The state secondPass carries from line to line. */
  datatype PassState = PassState(count: int, table: map<string, int>, listing: seq<ListingRecord>, binary: seq<Word>)

  /** Whether pass two moves the instruction counter past this line. */
  predicate Advances(line: Line) {
    Encoded(line) && !LabelOnly(line)
  }

  /** One iteration of secondPass. */
  function Step(s: PassState, line: Line, catalog: Catalog, regs: RegisterTable): (t: PassState)
    requires WellFormedCatalog(catalog) && WellFormedRegisterTable(regs)
    requires AddressTable(s.table) && 0 <= s.count <= INT32_MAX && NumericOperands(line, catalog)
    ensures t.count == s.count + if Advances(line) then 4 else 0
    ensures |t.binary| == |s.binary| + if Encoded(line) then 1 else 0
    ensures s.binary <= t.binary && s.listing <= t.listing
    ensures Encoded(line) ==> t.binary == s.binary + [LineWord(line, s.table, s.count, catalog, regs)]
    ensures AddressTable(t.table) && t.table.Keys >= s.table.Keys
    ensures forall k | k in s.table :: t.table[k] == s.table[k]
    ensures forall k | k in t.table && k !in s.table :: t.table[k] == 0
  {
    var c := Classify(line, s.table, s.count);
    ClassifiedOperandsReadable(line, s.table, s.count, catalog);
    var o := OutputPrinting(c.result, line.comment, LabelText(line), s.count, LabelOnly(line), catalog, regs);
    PassState(o.count, c.table, s.listing + o.listing, s.binary + o.binary)
  }

  /** The instruction counter after the lines. */
  function CountAfter(lines: seq<Line>): (n: nat)
    ensures n % 4 == 0 && n <= 4 * |lines|
    decreases |lines|
  {
    if lines == [] then 0 else CountAfter(lines[..|lines| - 1]) + if Advances(lines[|lines| - 1]) then 4 else 0
  }

  /** The number of lines a word is written for. */
  function WordCount(lines: seq<Line>): (n: nat)
    ensures n <= |lines|
    decreases |lines|
  {
    if lines == [] then 0 else WordCount(lines[..|lines| - 1]) + if Encoded(lines[|lines| - 1]) then 1 else 0
  }

  /**
   * The listed addresses against the binary output: the counter never runs
   * ahead of 4 bytes per word written, and keeps exactly to it when no line
   * that the label regex calls lone also carries code. Such a line, like
   * "foo bar:", writes its word without moving the counter, so every word
   * after it sits one slot past its listed address.
   */
  lemma {:induction false} CountVsWords(lines: seq<Line>)
    ensures CountAfter(lines) <= 4 * WordCount(lines)
    ensures (forall k | 0 <= k < |lines| :: !(Encoded(lines[k]) && LabelOnly(lines[k]))) ==>
              CountAfter(lines) == 4 * WordCount(lines)
    decreases |lines|
  {
    if lines != [] {
      var prefix := lines[..|lines| - 1];
      assert forall k | 0 <= k < |prefix| :: prefix[k] == lines[k];
      CountVsWords(prefix);
    }
  }

  /** "foo bar:": the label and code on one line, with the label last, write a word but leave the counter at 0. */
  lemma LoneLabelWithCode()
    ensures var line := CodeLine(Label("bar", true), Single("foo"), "");
      Encoded(line) && LabelOnly(line) && CountAfter([line]) == 0 && WordCount([line]) == 1
  {
    var line := CodeLine(Label("bar", true), Single("foo"), "");
    assert [line][..0] == [];
  }

  /** What secondPass demands: the tables are well formed, operands parse, and the counter stays in the range of int. */
  predicate PassReady(lines: seq<Line>, table: map<string, int>, catalog: Catalog, regs: RegisterTable) {
    && WellFormedCatalog(catalog) && WellFormedRegisterTable(regs)
    && AddressTable(table)
    && 4 * |lines| <= INT32_MAX
    && forall i | 0 <= i < |lines| :: NumericOperands(lines[i], catalog)
  }

  /** The state after secondPass has processed the lines, starting from the label table of pass one. */
  function Run(lines: seq<Line>, table: map<string, int>, catalog: Catalog, regs: RegisterTable): (s: PassState)
    requires PassReady(lines, table, catalog, regs)
    ensures s.count == CountAfter(lines)
    ensures |s.binary| == WordCount(lines)
    ensures AddressTable(s.table) && s.table.Keys >= table.Keys
    ensures forall k | k in table :: s.table[k] == table[k]
    ensures forall k | k in s.table && k !in table :: s.table[k] == 0
    decreases |lines|
  {
    if lines == [] then PassState(0, table, [], [])
    else
      var prefix := lines[..|lines| - 1];
      assert forall i | 0 <= i < |prefix| :: prefix[i] == lines[i];
      Step(Run(prefix, table, catalog, regs), lines[|lines| - 1], catalog, regs)
  }

  /** Run over one more line is one more Step. */
  lemma RunExtends(lines: seq<Line>, k: nat, table: map<string, int>, catalog: Catalog, regs: RegisterTable)
    requires PassReady(lines, table, catalog, regs) && k < |lines|
    ensures PassReady(lines[..k], table, catalog, regs) && PassReady(lines[..k + 1], table, catalog, regs)
    ensures Run(lines[..k + 1], table, catalog, regs) == Step(Run(lines[..k], table, catalog, regs), lines[k], catalog, regs)
  {
    assert lines[..k + 1][..k] == lines[..k];
  }

  /** secondPass, ending with the symbol section (symbolsOutputPrinting). */
  method SecondPass(lines: seq<Line>, labelAddrMap: map<string, int>, catalog: Catalog, regs: RegisterTable)
    returns (listing: seq<ListingRecord>, binary: seq<Word>, table: map<string, int>)
    requires PassReady(lines, labelAddrMap, catalog, regs)
    ensures var s := Run(lines, labelAddrMap, catalog, regs);
      listing == s.listing + [Symbols(s.table)] && binary == s.binary && table == s.table
  {
    table := labelAddrMap;
    listing, binary := [], [];
    var instructionCount := 0;
    var k := 0;
    while k < |lines|
      invariant 0 <= k <= |lines|
      invariant Run(lines[..k], labelAddrMap, catalog, regs) == PassState(instructionCount, table, listing, binary)
    {
      var line := lines[k];
      RunExtends(lines, k, labelAddrMap, catalog, regs);
      var c := Classify(line, table, instructionCount);
      ClassifiedOperandsReadable(line, table, instructionCount, catalog);
      table := c.table;
      var o := OutputPrinting(c.result, line.comment, LabelText(line), instructionCount, LabelOnly(line), catalog, regs);
      instructionCount := o.count;
      listing := listing + o.listing;
      binary := binary + o.binary;
      k := k + 1;
    }
    assert lines[..k] == lines;
    listing := listing + [Symbols(table)];
  }
}
