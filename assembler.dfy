/**
 * The two passes together, and what pass one's addresses mean to pass two:
 * as long as pass two can read every line pass one counted, its instruction
 * counter walks through exactly the addresses pass one handed out, so a
 * branch lands on its label and a jump on its label's word.
 */
module Assembler {
  import opened Numerals
  import opened Definitions
  import opened Encoder
  import opened Registers
  import opened SourceLines
  import opened AddressPass
  import opened EncodingPass

  /** Every line that takes an address in pass one is also encoded in pass two. */
  predicate Consistent(lines: seq<Line>) {
    forall i | 0 <= i < |lines| :: Occupies(lines[i]) ==> Encoded(lines[i])
  }

  /** Pass two never counts a line pass one did not count, so its counter never runs ahead. */
  lemma {:induction false} CountNeverAhead(lines: seq<Line>)
    ensures CountAfter(lines) <= AddressAfter(lines)
    decreases |lines|
  {
    if lines != [] {
      CountNeverAhead(lines[..|lines| - 1]);
    }
  }

  /** On consistent lines the two counters agree. */
  lemma {:induction false} CountsAgree(lines: seq<Line>)
    requires Consistent(lines)
    ensures CountAfter(lines) == AddressAfter(lines)
    decreases |lines|
  {
    if lines != [] {
      var prefix := lines[..|lines| - 1];
      assert forall i | 0 <= i < |prefix| :: prefix[i] == lines[i];
      CountsAgree(prefix);
    }
  }

  /** A line pass two cannot read, such as one matching no shape, leaves pass two 4 bytes behind pass one. */
  lemma UnreadableLineLags(lines: seq<Line>, line: Line)
    requires Consistent(lines) && Occupies(line) && !Encoded(line)
    ensures CountAfter(lines + [line]) + 4 == AddressAfter(lines + [line])
  {
    assert (lines + [line])[..|lines|] == lines;
    CountsAgree(lines);
  }

  /** What the assembler demands of a program: well-formed tables, numeric operands, and a size within int. */
  predicate Assemblable(lines: seq<Line>, catalog: Catalog, regs: RegisterTable) {
    && WellFormedCatalog(catalog) && WellFormedRegisterTable(regs)
    && 4 * |lines| <= INT32_MAX
    && forall i | 0 <= i < |lines| :: NumericOperands(lines[i], catalog)
  }

  lemma ReadyAfterFirstPass(lines: seq<Line>, catalog: Catalog, regs: RegisterTable)
    requires Assemblable(lines, catalog, regs)
    ensures PassReady(lines, LabelTable(lines), catalog, regs)
  {
  }

  lemma ReadyPrefix(lines: seq<Line>, k: nat, table: map<string, int>, catalog: Catalog, regs: RegisterTable)
    requires PassReady(lines, table, catalog, regs) && k <= |lines|
    ensures PassReady(lines[..k], table, catalog, regs)
  {
    assert forall i | 0 <= i < k :: lines[..k][i] == lines[i];
  }

  /** The state of pass two when it reaches line i (after the last line when i == |lines|). */
  function StateAt(lines: seq<Line>, i: nat, catalog: Catalog, regs: RegisterTable): (s: PassState)
    requires Assemblable(lines, catalog, regs) && i <= |lines|
    ensures s.count == CountAfter(lines[..i]) && 0 <= s.count <= INT32_MAX
    ensures AddressTable(s.table) && s.table.Keys >= LabelTable(lines).Keys
    ensures forall k | k in LabelTable(lines) :: s.table[k] == LabelTable(lines)[k]
  {
    ReadyAfterFirstPass(lines, catalog, regs);
    ReadyPrefix(lines, i, LabelTable(lines), catalog, regs);
    Run(lines[..i], LabelTable(lines), catalog, regs)
  }

  /** The word pass two writes for line i: the binary output after line i is the output before it with this word appended. */
  function WordAt(lines: seq<Line>, i: nat, catalog: Catalog, regs: RegisterTable): (w: Word)
    requires Assemblable(lines, catalog, regs) && i < |lines| && Encoded(lines[i])
    ensures StateAt(lines, i + 1, catalog, regs).binary == StateAt(lines, i, catalog, regs).binary + [w]
  {
    ReadyAfterFirstPass(lines, catalog, regs);
    RunExtends(lines, i, LabelTable(lines), catalog, regs);
    var s := StateAt(lines, i, catalog, regs);
    LineWord(lines[i], s.table, s.count, catalog, regs)
  }

  /** Line i appends its word to the binary output, and the binary output holds one word per encoded line. */
  lemma WordWritten(lines: seq<Line>, i: nat, catalog: Catalog, regs: RegisterTable)
    requires Assemblable(lines, catalog, regs) && i < |lines| && Encoded(lines[i])
    ensures StateAt(lines, i + 1, catalog, regs).binary == StateAt(lines, i, catalog, regs).binary + [WordAt(lines, i, catalog, regs)]
    ensures |StateAt(lines, i, catalog, regs).binary| == WordCount(lines[..i])
  {
    ReadyAfterFirstPass(lines, catalog, regs);
    RunExtends(lines, i, LabelTable(lines), catalog, regs);
  }

  /** Consistency carries over to a prefix. */
  lemma ConsistentPrefix(lines: seq<Line>, k: nat)
    requires Consistent(lines) && k <= |lines|
    ensures Consistent(lines[..k])
  {
    assert forall i | 0 <= i < k :: lines[..k][i] == lines[i];
  }

  /**
   * The address pass one bound a label to is the counter pass two has when
   * it reaches the label's (last) defining line, that is, the address it
   * prints for that line.
   */
  lemma LabelMatchesCounter(lines: seq<Line>, j: nat, name: string, catalog: Catalog, regs: RegisterTable)
    requires Assemblable(lines, catalog, regs)
    requires j < |lines| && Consistent(lines[..j]) && Defines(lines[j], name)
    requires forall k | j < k < |lines| :: !Defines(lines[k], name)
    ensures name in LabelTable(lines) && LabelTable(lines)[name] == StateAt(lines, j, catalog, regs).count
  {
    LastDefinitionWins(lines, j, name);
    CountsAgree(lines[..j]);
  }

  /** Between two word-aligned addresses, the distance from the word after the second is a whole number of words. */
  lemma WordDistance(target: int, here: int)
    requires target % 4 == 0 && here % 4 == 0
    ensures 4 * ((target - here - 4) / 4) == target - here - 4
  {
    assert target - here - 4 == 4 * (target / 4 - here / 4 - 1);
  }

  /**
   * Program level branch law: "beq a, b, name" on line i, with name last
   * defined on line j, encodes a in rs, b in rt and, as immediate, the
   * distance in words from the instruction after line i to line j.
   */
  lemma BranchReachesLabel(lines: seq<Line>, i: nat, j: nat, words: int, catalog: Catalog, regs: RegisterTable)
    requires Assemblable(lines, catalog, regs)
    requires "beq" in catalog && catalog["beq"].format == I
    requires i < |lines| && Consistent(lines[..i]) && lines[i].CodeLine? && lines[i].body.Triple? && lines[i].body.mnemonic == "beq"
    requires j < |lines| && Defines(lines[j], lines[i].body.op3)
    requires forall k | j < k < |lines| :: !Defines(lines[k], lines[i].body.op3)
    requires words == (AddressAfter(lines[..j]) - AddressAfter(lines[..i]) - 4) / 4
    ensures Encoded(lines[i])
    ensures ILayout(WordAt(lines, i, catalog, regs), catalog["beq"].opCode,
                    RegCode(lines[i].body.op1, regs), RegCode(lines[i].body.op2, regs), words)
  {
    var s := StateAt(lines, i, catalog, regs);
    assert Lookup(s.table, lines[i].body.op3) == AddressAfter(lines[..j]) by {
      LastDefinitionWins(lines, j, lines[i].body.op3);
    }
    assert s.count == AddressAfter(lines[..i]) by {
      CountsAgree(lines[..i]);
    }
    WordDistance(AddressAfter(lines[..j]), AddressAfter(lines[..i]));
    BranchOffsetLaw(lines[i], s.table, s.count, words, catalog, regs);
  }

  /** Program level jump law: "j name", with name last defined on line j, encodes line j's word address. */
  lemma JumpReachesLabel(lines: seq<Line>, i: nat, j: nat, catalog: Catalog, regs: RegisterTable)
    requires Assemblable(lines, catalog, regs)
    requires "j" in catalog && catalog["j"].format == J
    requires i < |lines| && lines[i].CodeLine? && lines[i].body.Pair? && lines[i].body.mnemonic == "j"
    requires j < |lines| && Defines(lines[j], lines[i].body.operand)
    requires forall k | j < k < |lines| :: !Defines(lines[k], lines[i].body.operand)
    ensures Encoded(lines[i])
    ensures JLayout(WordAt(lines, i, catalog, regs), catalog["j"].opCode, AddressAfter(lines[..j]) / 4)
  {
    var name := lines[i].body.operand;
    LastDefinitionWins(lines, j, name);
    var s := StateAt(lines, i, catalog, regs);
    assert Lookup(s.table, name) == AddressAfter(lines[..j]);
    JumpTargetLaw(lines[i], s.table, s.count, catalog, regs);
  }

  /** A jump to a label no line defines jumps to address 0. */
  lemma JumpToUndefinedLabel(lines: seq<Line>, i: nat, catalog: Catalog, regs: RegisterTable)
    requires Assemblable(lines, catalog, regs)
    requires "j" in catalog && catalog["j"].format == J
    requires i < |lines| && lines[i].CodeLine? && lines[i].body.Pair? && lines[i].body.mnemonic == "j"
    requires forall k | 0 <= k < |lines| :: !Defines(lines[k], lines[i].body.operand)
    ensures Encoded(lines[i])
    ensures JLayout(WordAt(lines, i, catalog, regs), catalog["j"].opCode, 0)
  {
    var name := lines[i].body.operand;
    BoundIffDefined(lines, name);
    var s := StateAt(lines, i, catalog, regs);
    assert Lookup(s.table, name) == 0;
    JumpTargetLaw(lines[i], s.table, s.count, catalog, regs);
  }

  /** The assembler: pass one builds the label map, pass two the listing and the binary output. */
  method Assemble(lines: seq<Line>, catalog: Catalog, regs: RegisterTable)
    returns (listing: seq<ListingRecord>, binary: seq<Word>)
    requires Assemblable(lines, catalog, regs)
    ensures listing == StateAt(lines, |lines|, catalog, regs).listing + [Symbols(StateAt(lines, |lines|, catalog, regs).table)]
    ensures binary == StateAt(lines, |lines|, catalog, regs).binary
    ensures |binary| == WordCount(lines)
  {
    var labelAddrMap := FirstPass(lines);
    ReadyAfterFirstPass(lines, catalog, regs);
    var table;
    listing, binary, table := SecondPass(lines, labelAddrMap, catalog, regs);
    assert lines[..|lines|] == lines;
  }
}
