# A two-pass MIPS assembler, modelled in Dafny

The assembler reads a MIPS assembly program line by line and runs two passes.

- **Pass one (`firstPass`)** binds every label to a byte address. It keeps a counter that starts at 0 and moves on by 4 for every code line that is not a lone label.
- **Pass two (`secondPass`)** works on each line in turn. It turns the line into an operand tuple with the mnemonic first. On the way it reorders operands: the memory form `m rt, offset(base)` and the branch form `beq a, b, label` each have their own order. It also resolves label references: a jump gets a word address, a branch a word offset from the next instruction. Then `binInstruction` encodes the tuple into a 32-bit word by the format class (R, R-SHIFT, I, J, NULL) the instruction catalog gives the mnemonic, and `regCode` resolves register tokens. Finally `outputPrinting` writes a listing record and the binary word, and moves pass two's own instruction counter on.

The model has these modules:

- `Definitions` (definitions.dfy): the word type, the format classes, the instruction catalog and register table as parameters, and the error messages as a `Diagnostic` datatype.
- `Numerals` (numerals.dfy): `std::stoi` and `std::to_string` on `int`, with the round trip between them.
- `Registers` (registers.dfy): `regCode`.
- `Encoder` (encoder.dfy): `binInstruction`. Each format's packing is proved against field getters that read the word back.
- `SourceLines` (source_lines.dfy): a source line as the regular expressions of both passes see it.
- `AddressPass` (address_pass.dfy): `firstPass`, a method with a loop, proved equal to a label-table function.
- `EncodingPass` (encoding_pass.dfy): the classification and reordering of `secondPass`, `outputPrinting`, and `secondPass` as a method with a loop. The method is proved equal to a fold (`Run`) of one step per line.
- `Assembler` (assembler.dfy): the two passes in sequence, and the laws that relate them. When pass two can read every line pass one counted, its counter runs through exactly the addresses pass one bound. A branch's immediate is then the word distance to its label, and a jump's target is the label's word address.
- `Samples` (samples.dfy): worked examples with the standard MIPS opcodes and register numbers. Single instructions are encoded to the words a MIPS reference gives for them. A three-line loop is taken through both passes to its binary output.

Integers of the source are modelled as unbounded `int`, and words as `bv32`. The bit-level effects of the source's `int` to `uint32_t` conversions and masks are written out: `& 0xFFFF` is `Low16` and `& 0x3FFFFFF` is `Low26`, both two's-complement low bits, and the shift amount is unmasked. C++ division truncates toward zero and is modelled by `CDiv`.

## Model

| member | source | states |
|---|---|---|
| Numerals.Stoi | main.cpp:75 | its contract: any value it yields is in the range of `int`. Its definition models `std::stoi`: skip leading white space, take an optional sign and the longest digit prefix, and yield nothing when there is no digit or the value leaves the range of `int`, where the source throws |
| Numerals.DigitPrefix | main.cpp:75 | the digits `std::stoi` reads: a prefix of the input made only of digits and followed by no further digit |
| Numerals.NatToString | main.cpp:324 | the decimal spelling of a natural number: non-empty, digits only, no leading zero unless the number is 0, and reading it back gives the number |
| Numerals.IntToString | main.cpp:324 | `std::to_string` on an `int`: starts with `-` exactly when the number is negative, otherwise with a digit |
| Numerals.DigitPrefixOfDigits | main.cpp:75 | on a string of digits the digit prefix is the whole string |
| Numerals.StoiInvertsToString | main.cpp:336 | reading back what `std::to_string` printed gives the same `int`: label values pass through the operand tuple as text without loss |
| Registers.Resolve | main.cpp:66-91 | `regCode`: a resolved token has the syntax `$zero`, `$dd`, `$ld` or `$ll` and an index below 32; a failure is one of: invalid syntax, numeric index out of range, unsupported abbreviation; a token without register syntax fails with the invalid-register error naming it |
| Registers.RegCode | main.cpp:66-91 | the index `regCode` returns is below 32, and 0 on every error path |
| Registers.RegDiagnostics | main.cpp:66-91 | `regCode` writes at most one message, and none exactly when the token resolves |
| Registers.NumericName | main.cpp:73-74 | the numeric spelling of a register is `$` and two digits |
| Registers.TwoDigitsValue | main.cpp:75 | two digits are read as a decimal number, tens first |
| Registers.ResolveNumericName | main.cpp:73-80 | `$00` to `$31` resolve to their own number |
| Registers.NumericTokenOutOfRange | main.cpp:76-79 | a two-digit token above 31 is reported as out of range with its number and yields register 0 |
| Registers.ResolveAbbreviation | main.cpp:83-90 | an abbreviation resolves to its table entry, and to an "abbreviation not supported" error and register 0 when the table has none |
| Registers.AbbreviationMatchesNumericName | main.cpp:83-90 | an abbreviation and the numeric token of the register it names encode the same register |
| Encoder.PackR | main.cpp:138-141 | the R word (opcode shifted into place as at line 122) read back field by field gives opcode, rs, rt, rd, shift amount 0 and function code |
| Encoder.PackShift | main.cpp:150-153 | the R-SHIFT word: the function code is intact whatever the shift amount, and all fields read back when the amount lies in 0..31 |
| Encoder.SmallIntBits | main.cpp:152 | proof helper: a shift amount in 0..31 has the same bits whether widened to 32 bits or cut to 5 |
| Encoder.PackI | main.cpp:163-165 | the I word reads back opcode, rs, rt, and the immediate modulo 2^16 |
| Encoder.PackJ | main.cpp:174 | the J word reads back opcode and the target modulo 2^26 |
| Encoder.EncodeR | main.cpp:126-142 | with 2 parts (`jr`) the register is in rs; with 4 parts rd, rs, rt come from parts 1, 2, 3; register messages come in the source's order; any other count is an error and the word 0 |
| Encoder.EncodeRShift | main.cpp:144-154 | 4 parts: rt from part 2, rd from part 1, the shift amount from part 3; otherwise a count error and the word 0 |
| Encoder.EncodeI | main.cpp:156-166 | 4 parts: rs from part 2, rt from part 1, the low 16 bits of part 3; otherwise a count error and the word 0 |
| Encoder.EncodeJ | main.cpp:168-175 | 2 parts: the low 26 bits of part 1; otherwise a count error and the word 0 |
| Encoder.Encode | main.cpp:105-184 | `binInstruction`: an empty tuple and an unknown mnemonic each give a message and the word 0; a known mnemonic goes to its format's encoder; a NULL format gives 0 and no message |
| AddressPass.AddressAfter | main.cpp:23-49 | pass one's address counter is a multiple of 4 and at most 4 per line |
| AddressPass.LabelTable | main.cpp:37-47 | every label pass one binds gets a word-aligned address within the program |
| AddressPass.FirstPass | main.cpp:21-50 | the loop of `firstPass` builds exactly the label table |
| AddressPass.BoundIffDefined | main.cpp:38-39 | a name is in the label map exactly when some line defines it as a label |
| AddressPass.LastDefinitionWins | main.cpp:39 | a label defined more than once keeps the address of its last definition |
| EncodingPass.Touch | main.cpp:324 | `labelAddrMap[name]` inserts an absent name with value 0 and changes nothing else |
| EncodingPass.CDiv | main.cpp:336 | C++ `int` division truncates toward zero: the remainder has the sign of the dividend and is smaller than the divisor |
| EncodingPass.CDivExact | main.cpp:336 | on a multiple of 4, truncating division by 4 is exact |
| EncodingPass.Classify | main.cpp:320-343 | the tuple never has three parts; a matched shape puts its mnemonic first; an unmatched code line gives `{"err"}` without a label and nothing with one; the label map only gains names, with value 0 |
| EncodingPass.PrintedNumberReadable | main.cpp:324 | a tuple whose last token was printed by `std::to_string` can be read by `std::stoi` |
| EncodingPass.ClassifiedOperandsReadable | main.cpp:320-343 | a tuple is encoded exactly when the line matched a shape (and is not the error token), and the resolved jump and branch operands always read back as numbers |
| EncodingPass.MemoryOperandsTransposed | main.cpp:328-329 | `m rt, offset(base)`: base in rs, rt in rt, the offset in the immediate |
| EncodingPass.BranchOffsetLaw | main.cpp:330-337 | `beq a, b, label`: a in rs, b in rt, and the immediate is the distance in words from the next instruction to the label; the label is entered into the map |
| EncodingPass.EncodedBranch | main.cpp:156-166 | the encoder on a branch tuple: first operand in rs, second in rt, the offset as immediate |
| EncodingPass.JumpTargetLaw | main.cpp:323-324 | `j label`: the target field is the label's word address, 0 for an undefined label |
| EncodingPass.ThreeOperandsInOrder | main.cpp:338-339 | any other three-operand R instruction keeps source order: rd, rs, rt |
| EncodingPass.ThreeOperandsImmediate | main.cpp:338-339 | a three-operand I instruction other than `beq`, such as `addi a, b, c`, puts a in rt, b in rs and the low 16 bits of c in the immediate |
| EncodingPass.TwoOperandsInOrder | main.cpp:322-327 | `m x` for m other than `j` keeps the label map and its operand: an R-format `jr` puts x in rs, a J-format `jal` puts x's low 26 bits in the target (lines 127-131, 168-175), any other format gives the word 0 |
| EncodingPass.ThreeOperandsShift | main.cpp:338-339 | a three-operand shift `m a, b, c` puts a in rd, b in rt and a shift amount c in 0..31 in its field |
| EncodingPass.Messages | main.cpp:105-184 | one listing message per encoder message, in order |
| EncodingPass.OutputPrinting | main.cpp:207-258 | the counter moves on by 4 exactly when a word is written for a line that is not a lone label; a word is written exactly for a non-empty tuple that is not the error tuple, after its messages and with the current counter as its address; the error tuple gives the "wrong amount of arguments" record; an empty tuple gives the label-and-comment record |
| EncodingPass.Step | main.cpp:297-346 | one line of pass two: the counter moves on by 4 for an encoded line that is not a lone label; one word for an encoded line; listing and binary only grow; the label map keeps its entries |
| EncodingPass.CountAfter | main.cpp:242 | pass two's counter is a multiple of 4 and at most 4 per line |
| EncodingPass.WordCount | main.cpp:239-241 | at most one word per line |
| EncodingPass.Run | main.cpp:297-347 | after pass two, the counter is `CountAfter` and there is one word per encoded line; the label map keeps pass one's entries and holds 0 for every name it gained |
| EncodingPass.RunExtends | main.cpp:297 | pass two over one more line is one more step |
| EncodingPass.SecondPass | main.cpp:277-349 | the loop of `secondPass`, then the symbol section, produces exactly the listing, binary and label map of `Run` |
| Assembler.CountNeverAhead | main.cpp:242 | pass two's counter never runs ahead of pass one's |
| Assembler.CountsAgree | main.cpp:242 | when every line pass one counts is encoded, the two counters agree |
| Assembler.UnreadableLineLags | main.cpp:341-342 | a code line that matches no shape moves pass one's counter but not pass two's |
| Assembler.ReadyAfterFirstPass | main.cpp:370-372 | proof helper: the label table of pass one is a valid start for pass two |
| Assembler.ReadyPrefix | main.cpp:297 | proof helper: what pass two demands of a program it demands of every prefix |
| EncodingPass.CountVsWords | main.cpp:239-242 | pass two's counter is at most 4 bytes per word written, and exactly that when no lone-label line also carries code |
| EncodingPass.LoneLabelWithCode | main.cpp:239-242 | `foo bar:` is encoded and writes one word, yet leaves the counter at 0 |
| Assembler.StateAt | main.cpp:297-346 | the state pass two reaches line i with: its counter is `CountAfter` of the lines before, and its label map extends pass one's |
| Assembler.WordAt | main.cpp:239-241 | the word for line i is what pass two appends to the binary output at that line |
| Assembler.WordWritten | main.cpp:239-241 | line i appends its word to the binary output, which by then holds one word per encoded earlier line |
| Assembler.ConsistentPrefix | main.cpp:242 | proof helper: a program in which pass two reads every counted line has only prefixes that do too |
| Assembler.LabelMatchesCounter | main.cpp:39 | when pass two reads every line before a label's last definition that pass one counted, the address bound to the label is pass two's counter at that line |
| Assembler.WordDistance | main.cpp:336 | proof helper: between word-aligned addresses, target − here − 4 is a whole number of words |
| Assembler.BranchReachesLabel | main.cpp:330-337 | when pass two reads every line before line i that pass one counted, a `beq` on line i to a label last defined on line j encodes the word distance from line i + 1 to line j |
| Assembler.JumpReachesLabel | main.cpp:323-324 | a `j` to a label last defined on line j encodes line j's word address |
| Assembler.JumpToUndefinedLabel | main.cpp:324 | a `j` to a label no line defines encodes target 0 |
| Assembler.Assemble | main.cpp:367-372 | pass one, then pass two from its label map: the listing ends with the symbol section, and there is one word per encoded line |
| Samples.AddSample | main.cpp:138-141 | with the MIPS codes, `add $t0, $t1, $t2` is 0x012A4020: rs = $t1, rt = $t2, rd = $t0 |
| Samples.LoadSample | main.cpp:163-165 | the tuple `{lw, $t0, $sp, 4}` pass two builds from `lw $t0, 4($sp)` is readable and encodes to 0x8FA80004 |
| Samples.BranchBackSample | main.cpp:163-165 | the tuple `{beq, $t1, $t0, -2}` is readable and encodes to 0x1109FFFE: the negative offset keeps its low 16 bits |
| Samples.JumpSample | main.cpp:174 | the tuple `{j, 16}` is readable and encodes to 0x08000010 |
| Samples.LoopFirstWord | main.cpp:338-339 | in the loop `loop: add $t0, $t1, $t2 / beq $t0, $t1, loop / j loop`, the first line's word is 0x012A4020 |
| Samples.LoopSecondWord | main.cpp:330-337 | the loop's branch, at address 4 to the label at 0, gets offset (0 − 4 − 4) / 4 = −2 and the word 0x1109FFFE |
| Samples.LoopThirdWord | main.cpp:323-324 | the loop's jump gets target 0 / 4 = 0 and the word 0x08000000 |
| Samples.BinaryOfThree | main.cpp:239-241 | a three-line program whose lines are all encoded writes exactly their three words, in order |
| Samples.LoopProgramSample | main.cpp:370-372 | the loop taken through both passes writes the binary output 0x012A4020, 0x1109FFFE, 0x08000000 |

## Left out

- The regular expressions that split a line are not modelled. A line is given by what they find: the label, whether it stands alone, the shape that matched with its groups, and the comment. A line such as `add $t0,$t1,$t2` without spaces matches the two-token shape `{add, "$t0,$t1,$t2"}`; the model accepts that line, but the text-to-shape step is not modelled.
- Stream formatting is not modelled: the hexadecimal columns, padding, the message texts, and the sorted order of the symbol section. The listing is a sequence of records.
- `main`, the file streams, rewinding the input and the timing output are not modelled; the two passes take the lines as a sequence.
- `definitions.hpp` is not part of this model. The instruction catalog and the register abbreviation table are parameters, assumed only to have opcodes and function codes below 64 and register indices below 32.
- Encoder.EncodeRShift: the fields are characterised only for shift amounts in 0..31. Outside that range the unmasked shift in the source spills into other fields; the model computes that word but states only that the function code survives.
- Encoder.Encode: an I-format tuple of three parts is excluded by the precondition. The source accepts three parts and then reads a fourth, which is undefined behaviour. Pass two never builds a three-part tuple (`Classify` proves this).
- Encoder.Encode: a `std::stoi` that throws ends the source program. The model demands numeric operands where `std::stoi` is called (`OperandsReadable`, `NumericOperands`), instead of modelling the exception.
- EncodingPass.Run: the counters are unbounded. The model demands a program of at most (2^31 − 1)/4 lines, so that `int` and `unsigned` wrap-around cannot occur.
- The model follows the code, which:
  - shows in the listing the tuple after reordering and label resolution, not the original tokens;
  - reports a well-formed but unknown abbreviation such as `$zz` as an unsupported abbreviation, not as an invalid token;
  - builds the tuple `{beq, b, a, offset}` for `beq a, b, label`, so a is encoded in rs and b in rt;
  - writes a word for a line such as `foo bar:`, whose label the label regex calls lone, but does not advance the counter for it (main.cpp:239-242), so every later word sits one slot after its listed address.
