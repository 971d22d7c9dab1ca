/**
 * A source line as both passes see it. The regular expressions that split a
 * raw line are not modelled; a line is given by what they find: whether it
 * holds code at all, the label in front of the first colon (and whether
 * nothing follows it), which of the four instruction shapes the rest
 * matched, with its match groups, and the trailing comment.
 */
module SourceLines {

  /** The label of a code line; alone when nothing but the label is on the line. */
  datatype LabelInfo = NoLabel | Label(name: string, alone: bool)

  /** The first instruction shape that matched, with its match groups in source order. */
  datatype Body =
    | Single(mnemonic: string)                                        // m
    | Pair(mnemonic: string, operand: string)                         // m x
    | Memory(mnemonic: string, rt: string, offset: string, base: string)  // m rt, offset(base)
    | Triple(mnemonic: string, op1: string, op2: string, op3: string) // m a, b, c
    | Unmatched

  datatype Line =
    | NoCode(comment: string)  // blank or comment only
    | CodeLine(labelInfo: LabelInfo, body: Body, comment: string)

  predicate LabelOnly(line: Line) {
    line.CodeLine? && line.labelInfo.Label? && line.labelInfo.alone
  }

  predicate Defines(line: Line, name: string) {
    line.CodeLine? && line.labelInfo.Label? && line.labelInfo.name == name
  }
}
