/** The agent's in-place edit of the OSPF costs in a BIRD configuration text. */
module BirdRewriter {
  import opened Prelude
  import opened Text
  import opened LineScan

  type CostMap = map<string, uint32>

  const INTERFACE_OPENER := "interface \""
  const BLOCK_END := "};"

  /** The interface block a line is in, given the one before it; "" is none. */
  function EnterBlock(iface: string, trimmed: string): string {
    if HasPrefix(trimmed, INTERFACE_OPENER) then
      var start, end := IndexOf(trimmed, '"') + 1, LastIndexOf(trimmed, '"');
      if 0 < start && start < end then trimmed[start..end] else iface
    else iface
  }

  predicate IsCostLine(trimmed: string) {
    HasPrefix(trimmed, "cost ") && HasSuffix(trimmed, ";")
  }

  function LeaveBlock(iface: string, trimmed: string): string {
    if trimmed == BLOCK_END then "" else iface
  }

  function CostLine(cost: uint32): string {
    "cost " + Decimal(cost) + ";"
  }

  /** A line inside the block of an interface, "" for none. */
  function RewriteLine(iface: string, line: string, costs: CostMap): string {
    if iface != "" && IsCostLine(TrimSpace(line)) && iface in costs then Indent(line) + CostLine(costs[iface])
    else line
  }

  function Enter(iface: string, line: string): string {
    EnterBlock(iface, TrimSpace(line))
  }

  /** The block after a line. */
  function NextBlock(iface: string, line: string): string {
    LeaveBlock(Enter(iface, line), TrimSpace(line))
  }

  function Editing(costs: CostMap): Edit<string> {
    (iface, line) => RewriteLine(Enter(iface, line), line, costs)
  }

  /** The lines that follow a block state, rewritten. */
  function Rewrite(lines: seq<string>, iface: string, costs: CostMap): seq<string> {
    Scan(lines, iface, NextBlock, Editing(costs))
  }

  function ReplaceCosts(config: string, costs: CostMap): string {
    Join(Rewrite(Split(config), "", costs))
  }

  /** The scanner: one pass over the lines with the current block as its only memory. */
  method ReplaceBIRDCosts(config: string, costMap: CostMap) returns (updated: string)
    ensures updated == ReplaceCosts(config, costMap)
  {
    var lines := Split(config);
    var result: seq<string>, currentIface := [], "";
    for i := 0 to |lines|
      invariant result == Rewrite(lines[..i], "", costMap)
      invariant currentIface == After(lines[..i], "", NextBlock)
    {
      ScanNext(lines, "", NextBlock, Editing(costMap), i);
      var line;
      currentIface, line := ScanLine(currentIface, lines[i], costMap);
      result := result + [line];
    }
    assert lines[..|lines|] == lines;
    updated := Join(result);
  }

  /** The body of the loop. */
  method ScanLine(iface: string, line: string, costMap: CostMap) returns (currentIface: string, edited: string)
    ensures currentIface == NextBlock(iface, line)
    ensures edited == Editing(costMap)(iface, line)
  {
    currentIface, edited := iface, line;
    var trimmed := TrimSpace(line);

    if HasPrefix(trimmed, INTERFACE_OPENER) {
      var start, end := IndexOf(trimmed, '"') + 1, LastIndexOf(trimmed, '"');
      if 0 < start && start < end {
        currentIface := trimmed[start..end];
      }
    }

    if currentIface != "" && HasPrefix(trimmed, "cost ") && HasSuffix(trimmed, ";") {
      if currentIface in costMap {
        var indent := line[..|line| - |TrimLeft(line, IsBlank)|];
        edited := indent + ("cost " + Decimal(costMap[currentIface]) + ";");
      }
    }

    if trimmed == BLOCK_END && currentIface != "" {
      currentIface := "";
    }
  }

  // ---------------------------------------------------------------- laws on arbitrary text

  /** Every line is kept unless it is a cost line and the map has the block it stands in. */
  lemma RewriteAt(lines: seq<string>, costs: CostMap, i: nat)
    requires i < |lines|
    ensures |Rewrite(lines, "", costs)| == |lines|
    ensures Rewrite(lines, "", costs)[i]
            == RewriteLine(Enter(After(lines[..i], "", NextBlock), lines[i]), lines[i], costs)
  {
    ScanAt(lines, "", NextBlock, Editing(costs), i);
  }

  lemma CostLineTrims(indent: string, cost: uint32)
    requires forall c :: c in indent ==> IsBlank(c)
    ensures TrimSpace(indent + CostLine(cost)) == CostLine(cost) && Indent(indent + CostLine(cost)) == indent
    ensures IsCostLine(CostLine(cost)) && (OneLine(indent) ==> OneLine(indent + CostLine(cost)))
  {
    var body := CostLine(cost);
    DecimalIsDigits(cost);
    assert body[0] == 'c' && body[|body| - 1] == ';';
    TrimIndented(indent, body);
    TrimLeftIndented(indent, body, IsBlank);
  }

  /** No cost line opens or closes a block. */
  lemma CostLinesAreInside(iface: string, trimmed: string)
    requires IsCostLine(trimmed)
    ensures EnterBlock(iface, trimmed) == iface && LeaveBlock(iface, trimmed) == iface
  {
    assert trimmed[0] == 'c';
  }

  /** An edited line reads as the original did: same block, same kind, same indentation. */
  lemma EditKeepsReading(iface: string, line: string, m1: CostMap, m2: CostMap)
    ensures NextBlock(iface, Editing(m1)(iface, line)) == NextBlock(iface, line)
    ensures Editing(m2)(iface, Editing(m1)(iface, line)) == Editing(m1 + m2)(iface, line)
    ensures OneLine(line) ==> OneLine(Editing(m1)(iface, line))
  {
    var inside := Enter(iface, line);
    if inside != "" && IsCostLine(TrimSpace(line)) && inside in m1 {
      IndentIsBlank(line);
      CostLineTrims(Indent(line), m1[inside]);
      CostLinesAreInside(iface, TrimSpace(line));
      CostLinesAreInside(iface, CostLine(m1[inside]));
    }
  }

  /**
   * Two edits of a text are one edit with the merged map, in which the later entries win: an edit
   * never changes how a later one reads the text, nor the number of its lines.
   */
  lemma ReplaceTwice(config: string, m1: CostMap, m2: CostMap)
    ensures |Split(ReplaceCosts(config, m1))| == |Split(config)|
    ensures ReplaceCosts(ReplaceCosts(config, m1), m2) == ReplaceCosts(config, m1 + m2)
  {
    var lines, first := Split(config), Editing(m1);
    forall s, l
      ensures NextBlock(s, first(s, l)) == NextBlock(s, l)
      ensures Editing(m2)(s, first(s, l)) == Editing(m1 + m2)(s, l)
      ensures OneLine(l) ==> OneLine(first(s, l))
    {
      EditKeepsReading(s, l, m1, m2);
    }
    ScanPreserves(lines, "", NextBlock, first, OneLine);
    SplitJoin(Rewrite(lines, "", m1));
    ScanTwice(lines, "", NextBlock, first, Editing(m2), Editing(m1 + m2));
  }

  /** So a repeated edit does nothing, and a later edit of at least the same interfaces wins outright. */
  lemma ReplaceLaws(config: string, m1: CostMap, m2: CostMap)
    ensures ReplaceCosts(ReplaceCosts(config, m1), m1) == ReplaceCosts(config, m1)
    ensures m1.Keys <= m2.Keys ==> ReplaceCosts(ReplaceCosts(config, m1), m2) == ReplaceCosts(config, m2)
  {
    ReplaceTwice(config, m1, m1);
    assert m1 + m1 == m1;
    ReplaceTwice(config, m1, m2);
    if m1.Keys <= m2.Keys {
      assert m1 + m2 == m2;
    }
  }

  /** An empty map edits nothing. */
  lemma ReplaceNothing(config: string)
    ensures ReplaceCosts(config, map[]) == config
  {
    ScanNothing(Split(config), "", NextBlock, Editing(map[]));
    JoinSplit(config);
  }
}
