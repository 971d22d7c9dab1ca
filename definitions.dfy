/**
 * Shared vocabulary of the assembler: the instruction catalog and register
 * table whose contents live in definitions.hpp (not part of this model, so
 * both are parameters), the 32-bit binary word, and the diagnostics the
 * assembler writes to the listing.
 */
module Definitions {

  /** A binary MIPS instruction word. */
  type Word = bv32

  /** The format class of a mnemonic; it selects the operand arity and layout. */
  datatype Format = R | RShift | I | J | Null

  /** A catalog entry: operation code, function code and format class. */
  datatype InstructionCodes = InstructionCodes(opCode: nat, funct: nat, format: Format)

  /** The catalog (INSTR_CODES): mnemonic to its codes. */
  type Catalog = map<string, InstructionCodes>

  /** The register abbreviation table (REGISTER_ABRV), keyed by the whole token, e.g. "$t1". */
  type RegisterTable = map<string, nat>

  /** Both codes of every catalog entry fit their 6-bit fields. */
  predicate WellFormedCatalog(catalog: Catalog) {
    forall m | m in catalog :: catalog[m].opCode < 64 && catalog[m].funct < 64
  }

  /** Every abbreviation names one of the 32 registers. */
  predicate WellFormedRegisterTable(table: RegisterTable) {
    forall s | s in table :: table[s] < 32
  }

  /** The non-fatal errors the assembler reports in the listing. */
  datatype Diagnostic =
    | EmptyInstruction
    | UnsupportedInstruction(mnemonic: string)
    | WrongArgumentCount(format: Format, count: nat)
    | InvalidRegister(token: string)
    | RegisterOutOfRange(number: nat)
    | UnsupportedAbbreviation(token: string)
}
