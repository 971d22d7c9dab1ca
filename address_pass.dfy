/**
 * Pass one (firstPass): a single forward scan that binds every label to the
 * address its line will have. The address counter starts at 0 and moves on
 * by 4 for every code line that is not a lone label.
 */
module AddressPass {
  import opened SourceLines

  /** Whether pass one moves the address counter past this line. */
  predicate Occupies(line: Line) {
    line.CodeLine? && !LabelOnly(line)
  }

  /** The address counter after the lines: 4 for each line that occupies an address. */
  function AddressAfter(lines: seq<Line>): (a: nat)
    ensures a % 4 == 0 && a <= 4 * |lines|
    decreases |lines|
  {
    if lines == [] then 0
    else AddressAfter(lines[..|lines| - 1]) + (if Occupies(lines[|lines| - 1]) then 4 else 0)
  }

  /** The label table pass one leaves behind: every bound address is word aligned and within the program. */
  function LabelTable(lines: seq<Line>): (table: map<string, int>)
    ensures forall name | name in table :: 0 <= table[name] <= 4 * |lines| && table[name] % 4 == 0
    decreases |lines|
  {
    if lines == [] then map[]
    else
      var prefix := lines[..|lines| - 1];
      var line := lines[|lines| - 1];
      if line.CodeLine? && line.labelInfo.Label? then LabelTable(prefix)[line.labelInfo.name := AddressAfter(prefix)]
      else LabelTable(prefix)
  }

  /** firstPass. */
  method FirstPass(lines: seq<Line>) returns (labelAddrMap: map<string, int>)
    ensures labelAddrMap == LabelTable(lines)
  {
    labelAddrMap := map[];
    var addrPointer := 0;
    var k := 0;
    while k < |lines|
      invariant 0 <= k <= |lines|
      invariant addrPointer == AddressAfter(lines[..k])
      invariant labelAddrMap == LabelTable(lines[..k])
    {
      var line := lines[k];
      var labelSingle := false;
      if line.CodeLine? {
        if line.labelInfo.Label? {
          labelAddrMap := labelAddrMap[line.labelInfo.name := addrPointer];
          if line.labelInfo.alone {
            labelSingle := true;
          }
        }
        if !labelSingle {
          addrPointer := addrPointer + 4;
        }
      }
      assert lines[..k + 1][..k] == lines[..k];
      k := k + 1;
    }
    assert lines[..k] == lines;
  }

  /** A label is bound exactly when some line defines it. */
  lemma {:induction false} BoundIffDefined(lines: seq<Line>, name: string)
    ensures name in LabelTable(lines) <==> exists i | 0 <= i < |lines| :: Defines(lines[i], name)
    decreases |lines|
  {
    if lines != [] {
      var prefix := lines[..|lines| - 1];
      BoundIffDefined(prefix, name);
      if exists i | 0 <= i < |prefix| :: Defines(prefix[i], name) {
        var i :| 0 <= i < |prefix| && Defines(prefix[i], name);
        assert Defines(lines[i], name);
      }
      if exists i | 0 <= i < |lines| :: Defines(lines[i], name) {
        var i :| 0 <= i < |lines| && Defines(lines[i], name);
        if i < |prefix| {
          assert Defines(prefix[i], name);
        }
      }
    }
  }

  /**
   * A label is bound to the address of the last line that defines it: a
   * later definition overwrites an earlier one.
   */
  lemma {:induction false} LastDefinitionWins(lines: seq<Line>, i: nat, name: string)
    requires i < |lines| && Defines(lines[i], name)
    requires forall j | i < j < |lines| :: !Defines(lines[j], name)
    ensures name in LabelTable(lines) && LabelTable(lines)[name] == AddressAfter(lines[..i])
    decreases |lines|
  {
    var prefix := lines[..|lines| - 1];
    if i < |lines| - 1 {
      assert prefix[i] == lines[i];
      LastDefinitionWins(prefix, i, name);
      assert prefix[..i] == lines[..i];
    }
  }
}
