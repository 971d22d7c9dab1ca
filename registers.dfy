/**
 * The register resolver (regCode): a register token is "$zero", "$" and two
 * decimal digits, or "$" and a two-character abbreviation (a letter followed
 * by a digit or by a letter). Numeric tokens give their value when it is at
 * most 31; abbreviations are looked up in the register table. Every failure
 * is reported and yields register 0.
 */
module Registers {
  import opened Numerals
  import opened Definitions

  predicate IsLower(c: char) {
    'a' <= c <= 'z'
  }

  /** The whole token matches [$](zero|[0-9]{2}|[a-z]\d|[a-z]{2}). */
  predicate IsRegisterSyntax(s: string) {
    || s == "$zero"
    || (|s| == 3 && s[0] == '$' &&
         (|| (IsDigit(s[1]) && IsDigit(s[2]))
          || (IsLower(s[1]) && IsDigit(s[2]))
          || (IsLower(s[1]) && IsLower(s[2]))))
  }

  /** The outcome of regCode: a register index, or the error it reports. */
  datatype Resolution = Resolved(index: nat) | Failed(diagnostic: Diagnostic)

  function Resolve(s: string, table: RegisterTable): (r: Resolution)
    requires WellFormedRegisterTable(table)
    ensures r.Resolved? ==> r.index < 32 && IsRegisterSyntax(s)
    ensures r.Failed? ==> r.diagnostic.InvalidRegister? || r.diagnostic.RegisterOutOfRange? || r.diagnostic.UnsupportedAbbreviation?
    ensures !IsRegisterSyntax(s) ==> r == Failed(InvalidRegister(s))
  {
    if !IsRegisterSyntax(s) then Failed(InvalidRegister(s))
    else if IsDigit(s[1]) then
      var n := DigitsValue(s[1..]);
      if n > 31 then Failed(RegisterOutOfRange(n)) else Resolved(n)
    else if s !in table then Failed(UnsupportedAbbreviation(s))
    else Resolved(table[s])
  }

  /** The index regCode returns: the resolved register, 0 after an error. */
  function RegCode(s: string, table: RegisterTable): (r: nat)
    requires WellFormedRegisterTable(table)
    ensures r < 32
    ensures Resolve(s, table).Failed? ==> r == 0
  {
    match Resolve(s, table)
    case Resolved(i) => i
    case Failed(_) => 0
  }

  /** The error messages regCode writes: at most one. */
  function RegDiagnostics(s: string, table: RegisterTable): (ds: seq<Diagnostic>)
    requires WellFormedRegisterTable(table)
    ensures |ds| <= 1
    ensures ds == [] <==> Resolve(s, table).Resolved?
  {
    match Resolve(s, table)
    case Resolved(_) => []
    case Failed(d) => [d]
  }

  /** The numeric spelling of register n: "$" and two digits, "$00" to "$31". */
  function NumericName(n: nat): (s: string)
    requires n < 32
    ensures |s| == 3 && s[0] == '$' && IsDigit(s[1]) && IsDigit(s[2])
  {
    "$" + [DigitChar(n / 10), DigitChar(n % 10)]
  }

  lemma TwoDigitsValue(d: string)
    requires |d| == 2 && AllDigits(d)
    ensures DigitsValue(d) == 10 * DigitValue(d[0]) + DigitValue(d[1])
  {
    var first := d[..1];
    assert first[..0] == [] && first[0] == d[0];
    assert DigitsValue(first) == DigitValue(d[0]);
  }

  /** Numeric tokens resolve to their own number: regCode inverts NumericName. */
  lemma ResolveNumericName(n: nat, table: RegisterTable)
    requires n < 32 && WellFormedRegisterTable(table)
    ensures Resolve(NumericName(n), table) == Resolved(n)
  {
    TwoDigitsValue(NumericName(n)[1..]);
  }

  /** A numeric token above 31 is out of range and yields register 0. */
  lemma NumericTokenOutOfRange(s: string, table: RegisterTable)
    requires WellFormedRegisterTable(table)
    requires |s| == 3 && s[0] == '$' && IsDigit(s[1]) && IsDigit(s[2])
    requires 10 * DigitValue(s[1]) + DigitValue(s[2]) > 31
    ensures Resolve(s, table) == Failed(RegisterOutOfRange(10 * DigitValue(s[1]) + DigitValue(s[2])))
    ensures RegCode(s, table) == 0
  {
    TwoDigitsValue(s[1..]);
  }

  /** An abbreviation resolves to its table entry, or fails when it has none. */
  lemma ResolveAbbreviation(s: string, table: RegisterTable)
    requires WellFormedRegisterTable(table)
    requires IsRegisterSyntax(s) && !IsDigit(s[1])
    ensures s in table ==> Resolve(s, table) == Resolved(table[s])
    ensures s !in table ==> Resolve(s, table) == Failed(UnsupportedAbbreviation(s)) && RegCode(s, table) == 0
  {
  }

  /** An abbreviation and the numeric token of the register it stands for resolve alike. */
  lemma AbbreviationMatchesNumericName(s: string, table: RegisterTable)
    requires WellFormedRegisterTable(table)
    requires IsRegisterSyntax(s) && !IsDigit(s[1]) && s in table
    ensures RegCode(s, table) == RegCode(NumericName(table[s]), table)
  {
    ResolveNumericName(table[s], table);
  }
}
