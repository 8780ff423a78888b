/** What the agent's edit does to arbitrary text, told without its scanner. */
module RewriteMeaning {
  import opened Prelude
  import opened Text
  import opened LineScan
  import opened BirdRewriter

  /** A line that opens the block of an interface: the name is what stands between its first and last quote. */
  ghost predicate Opens(line: string, iface: string) {
    iface != "" && exists tail: string :: TrimSpace(line) == "interface \"" + iface + "\"" + tail && '"' !in tail
  }

  ghost predicate OpensAny(line: string) {
    exists x :: Opens(line, x)
  }

  /** A line that closes any block. */
  predicate Closes(line: string) {
    TrimSpace(line) == "};"
  }

  /** Line i stands in the block of an interface: that block was opened, no other has been since, and none closed. */
  ghost predicate InBlock(lines: seq<string>, i: nat, iface: string)
    requires i < |lines|
  {
    exists j :: 0 <= j <= i && Opens(lines[j], iface) && Undisturbed(lines, j, i)
  }

  ghost predicate Undisturbed(lines: seq<string>, j: nat, i: nat)
    requires j <= i < |lines|
  {
    && (forall k :: j < k <= i ==> !OpensAny(lines[k]))
    && (forall k :: j <= k < i ==> !Closes(lines[k]))
  }

  /** A line that states a cost. */
  predicate StatesCost(line: string) {
    var t := TrimSpace(line);
    "cost " <= t && t[|t| - 1] == ';'
  }

  lemma StatesCostIs(line: string)
    ensures IsCostLine(TrimSpace(line)) <==> StatesCost(line)
  {
    var t := TrimSpace(line);
    if t != "" {
      assert t[|t| - 1..] == [t[|t| - 1]];
    }
  }

  lemma QuotesOf(iface: string, tail: string)
    requires '"' !in tail
    ensures var t := "interface \"" + iface + "\"" + tail;
            IndexOf(t, '"') == 10 && LastIndexOf(t, '"') == 11 + |iface|
  {
    var t := "interface \"" + iface + "\"" + tail;
    FirstIndex(t, '"', 10);
    LastIndex(t, '"', 11 + |iface|);
  }

  /** What a line that opens a block does to the scanner, and what any other does not. */
  lemma {:induction false} OpensIs(line: string, iface: string, before: string)
    ensures Opens(line, iface) ==> Enter(before, line) == iface
    ensures (forall x :: !Opens(line, x)) ==> Enter(before, line) == before
  {
    var t := TrimSpace(line);
    if Opens(line, iface) {
      var tail: string :| t == "interface \"" + iface + "\"" + tail && '"' !in tail;
      QuotesOf(iface, tail);
      assert INTERFACE_OPENER <= t;
    } else if HasPrefix(t, INTERFACE_OPENER) {
      EnteredOpens(line, before);
    }
  }

  lemma {:induction false} EnteredOpens(line: string, before: string)
    requires HasPrefix(TrimSpace(line), INTERFACE_OPENER)
    ensures Enter(before, line) == before || Opens(line, Enter(before, line))
  {
    var t := TrimSpace(line);
    FirstQuote(t);
    LastIndexIs(t, '"');
    var end := LastIndexOf(t, '"');
    if 11 < end {
      var iface, tail := t[11..end], t[end + 1..];
      assert t[..11] == INTERFACE_OPENER;
      assert t == "interface \"" + iface + "\"" + tail;
    }
  }

  lemma FirstQuote(t: string)
    requires INTERFACE_OPENER <= t
    ensures IndexOf(t, '"') == 10
  {
    assert t[..11] == INTERFACE_OPENER;
    assert forall k :: 0 <= k < 11 ==> t[k] == INTERFACE_OPENER[k];
    FirstIndex(t, '"', 10);
  }

  lemma {:induction false} OneName(line: string, x: string, y: string)
    requires Opens(line, x) && Opens(line, y)
    ensures x == y
  {
    OpensIs(line, x, "");
    OpensIs(line, y, "");
  }

  /** The scanner's memory at a line is the block the line stands in, if it stands in one. */
  lemma {:induction false} BlockIsRemembered(lines: seq<string>, i: nat, iface: string)
    requires i < |lines| && iface != ""
    ensures Enter(After(lines[..i], "", NextBlock), lines[i]) == iface <==> InBlock(lines, i, iface)
    decreases i
  {
    var before := After(lines[..i], "", NextBlock);
    if OpensAny(lines[i]) {
      var x :| Opens(lines[i], x);
      OpensIs(lines[i], x, before);
      if InBlock(lines, i, iface) {
        var j :| 0 <= j <= i && Opens(lines[j], iface) && Undisturbed(lines, j, i);
        assert j == i;
        OneName(lines[i], x, iface);
      }
      assert Undisturbed(lines, i, i);
    } else {
      OpensIs(lines[i], iface, before);
      if i > 0 {
        ScanNext(lines, "", NextBlock, Editing(map[]), i - 1);
        BlockIsRemembered(lines, i - 1, iface);
        BlockGoesOn(lines, i, iface);
      }
    }
  }

  /** A line that opens nothing stands in the block of the line before it, unless that closed it. */
  lemma {:induction false} BlockGoesOn(lines: seq<string>, i: nat, iface: string)
    requires 0 < i < |lines| && !OpensAny(lines[i])
    ensures InBlock(lines, i, iface) <==> InBlock(lines, i - 1, iface) && !Closes(lines[i - 1])
  {
    if InBlock(lines, i, iface) {
      var j :| 0 <= j <= i && Opens(lines[j], iface) && Undisturbed(lines, j, i);
      UndisturbedNext(lines, j, i);
    }
    if InBlock(lines, i - 1, iface) && !Closes(lines[i - 1]) {
      var j :| 0 <= j <= i - 1 && Opens(lines[j], iface) && Undisturbed(lines, j, i - 1);
      UndisturbedNext(lines, j, i);
    }
  }

  lemma UndisturbedNext(lines: seq<string>, j: nat, i: nat)
    requires j < i < |lines| && !OpensAny(lines[i])
    ensures Undisturbed(lines, j, i) <==> Undisturbed(lines, j, i - 1) && !Closes(lines[i - 1])
  {
  }

  /** The lines of an edited text are the edited lines of the text. */
  lemma {:induction false} EditedLines(config: string, costs: CostMap)
    ensures Split(ReplaceCosts(config, costs)) == Rewrite(Split(config), "", costs)
  {
    var lines := Split(config);
    forall s, l
      ensures OneLine(l) ==> OneLine(Editing(costs)(s, l))
    {
      EditKeepsReading(s, l, costs, costs);
    }
    ScanPreserves(lines, "", NextBlock, Editing(costs), OneLine);
    SplitJoin(Rewrite(lines, "", costs));
  }

  /**
   * The edit, line by line: a line that states a cost in the block of an interface with a new cost
   * states the new one, at the old indentation; every other line stays, and none is added or lost.
   */
  lemma {:induction false} EditMeans(config: string, costs: CostMap, i: nat, iface: string)
    requires i < |Split(config)|
    ensures |Split(ReplaceCosts(config, costs))| == |Split(config)|
    ensures var lines, edited := Split(config), Split(ReplaceCosts(config, costs));
            && (InBlock(lines, i, iface) && iface in costs && StatesCost(lines[i]) ==>
                  edited[i] == Indent(lines[i]) + "cost " + Decimal(costs[iface]) + ";")
            && (!StatesCost(lines[i]) ==> edited[i] == lines[i])
            && (InBlock(lines, i, iface) && iface !in costs ==> edited[i] == lines[i])
            && ((forall x :: !InBlock(lines, i, x)) ==> edited[i] == lines[i])
  {
    var lines := Split(config);
    EditedLines(config, costs);
    RewriteAt(lines, costs, i);
    StatesCostIs(lines[i]);
    var inside := Enter(After(lines[..i], "", NextBlock), lines[i]);
    if inside != "" {
      BlockIsRemembered(lines, i, inside);
    }
    if InBlock(lines, i, iface) {
      BlockIsRemembered(lines, i, iface);
      if iface in costs && StatesCost(lines[i]) {
        assert Indent(lines[i]) + CostLine(costs[iface]) == Indent(lines[i]) + "cost " + Decimal(costs[iface]) + ";";
      }
    }
  }
}
