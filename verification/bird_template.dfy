/** The BIRD configuration template, as the lines it prints, and what the agent's edit makes of them. */
module BirdTemplate {
  import opened Prelude
  import opened Text
  import opened LineScan
  import opened BirdRewriter
  import opened Mesh
  import opened Generator

  /** The wording of the comment lines: the file's, the loopback stub's, each protocol block's. */
  datatype Remarks = Remarks(generated: seq<string>, loopback: seq<string>, fe80: seq<string>, v6: seq<string>,
                             v4ll: seq<string>)

  datatype BirdData = BirdData(remarks: Remarks, nodeName: string, loopback: string, table4: string, table6: string,
                               area: string, hello: int, dead: int, links: seq<Link>, fe80Links: seq<Link>, v4llLinks: seq<Link>,
                               peerCosts: map<string, uint32>, peerIfaces: map<string, string>)

  const DEFAULT_DYNAMIC_COST: uint32 := 100

  function PeerCost(d: BirdData, peer: string): uint32 {
    if peer in d.peerCosts then d.peerCosts[peer] else DEFAULT_DYNAMIC_COST
  }

  function PeerIface(d: BirdData, peer: string): string {
    if peer in d.peerIfaces then d.peerIfaces[peer] else ""
  }

  function Spaces(n: nat): string {
    seq(n, _ => ' ')
  }

  /** A line at a nesting depth. */
  function At(depth: nat, body: string): string {
    Spaces(4 * depth) + body
  }

  function Comment(text: string): string {
    "# " + text
  }

  function Comments(texts: seq<string>): seq<string> {
    seq(|texts|, i requires 0 <= i < |texts| => Comment(texts[i]))
  }

  // ---------------------------------------------------------------- the template

  function HeaderLines(d: BirdData): seq<string> {
    [Comment("BIRD meshctl managed configuration for " + d.nodeName)] + Comments(d.remarks.generated) + [""]
    + Comments(d.remarks.loopback) + StubLines(d) + [""]
  }

  const STUB_HEADER := "protocol static meshctl_lo4 {"
  const FE80_HEADER := "protocol ospf v3 meshctl_ospf3_v4 {"
  const V6_HEADER := "protocol ospf v3 meshctl_ospf3_v6 {"
  const V4LL_HEADER := "protocol ospf v2 meshctl_ospf2 {"

  function StubLines(d: BirdData): seq<string> {
    [
      STUB_HEADER,
      At(1, "ipv4 { table " + d.table4 + "; };"),
      At(1, "route " + d.loopback + "/32 via \"lo\";"),
      "}"
    ]
  }

  function InterfaceLine(iface: string): string {
    INTERFACE_OPENER + iface + "\" {"
  }

  function InterfaceLines(d: BirdData, l: Link): seq<string> {
    var peer := l.PeerName(d.nodeName);
    [
      At(2, InterfaceLine(PeerIface(d, peer))),
      At(3, "type pointopoint;"),
      At(3, "hello " + SignedDecimal(d.hello) + ";"),
      At(3, "dead " + SignedDecimal(d.dead) + ";"),
      At(3, CostLine(PeerCost(d, peer))),
      At(2, BLOCK_END)
    ]
  }

  function InterfaceBlocks(d: BirdData, links: seq<Link>): seq<string> {
    if links == [] then [] else InterfaceLines(d, links[0]) + InterfaceBlocks(d, links[1..])
  }

  function ChannelLines(family: string, table: string): seq<string> {
    [
      At(1, family + " {"),
      At(2, "table " + table + ";"),
      At(2, "import all;"),
      At(2, "export all;"),
      At(1, "};")
    ]
  }

  /** What all three protocol blocks share: comments and header before, an area of interfaces after. */
  function ProtocolLines(d: BirdData, before: seq<string>, links: seq<Link>): seq<string> {
    if links == [] then []
    else before + [At(1, "area " + d.area + " {")] + InterfaceBlocks(d, links) + [At(1, "};"), "}"]
  }

  /** How a protocol block starts: remarks, its header, its channel. */
  function Opening(remarks: seq<string>, header: string, family: string, table: string): seq<string> {
    Comments(remarks) + [header] + ChannelLines(family, table)
  }

  /** OSPFv3 for IPv4 over the fe80 links. */
  function Fe80Header(d: BirdData): seq<string> {
    Opening(d.remarks.fe80, FE80_HEADER, "ipv4", d.table4) + [At(1, "instance id 64;")]
  }

  /** OSPFv3 for IPv6 over all links. */
  function V6Header(d: BirdData): seq<string> {
    Opening(d.remarks.v6, V6_HEADER, "ipv6", d.table6)
  }

  /** OSPFv2 for IPv4 over the other links. */
  function V4LLHeader(d: BirdData): seq<string> {
    Opening(d.remarks.v4ll, V4LL_HEADER, "ipv4", d.table4)
  }

  function RenderLines(d: BirdData): seq<string> {
    HeaderLines(d)
    + ProtocolLines(d, Fe80Header(d), d.fe80Links)
    + ProtocolLines(d, V6Header(d), d.links)
    + ProtocolLines(d, V4LLHeader(d), d.v4llLinks)
  }

  /** The text: every line ends with a newline. */
  function Render(d: BirdData): string {
    Join(RenderLines(d) + [""])
  }

  // ---------------------------------------------------------------- editing the text is re-rendering

  /** The new cost of a peer: that of its interface in the map, if it has one. */
  function EditedCost(d: BirdData, costs: CostMap, peer: string): uint32 {
    var iface := PeerIface(d, peer);
    if iface != "" && iface in costs then costs[iface] else PeerCost(d, peer)
  }

  function Peers(d: BirdData): set<string> {
    set l | l in d.links + d.fe80Links + d.v4llLinks :: l.PeerName(d.nodeName)
  }

  /** The structured counterpart of the edit: other costs, all else alike. */
  function Recosted(d: BirdData, costs: CostMap): BirdData {
    d.(peerCosts := map p | p in Peers(d) :: EditedCost(d, costs, p))
  }

  predicate FieldsOneLine(d: BirdData) {
    && OneLine(d.nodeName) && OneLine(d.loopback) && OneLine(d.table4) && OneLine(d.table6) && OneLine(d.area)
    && (forall r :: r in d.remarks.generated + d.remarks.loopback ==> OneLine(r))
    && (forall r :: r in d.remarks.fe80 + d.remarks.v6 + d.remarks.v4ll ==> OneLine(r))
    && (forall p :: p in Peers(d) ==> OneLine(PeerIface(d, p)))
  }

  /** A line that opens no interface block. */
  predicate Outside(line: string) {
    Enter("", line) == "" && OneLine(line)
  }

  /** Outside any block the edit keeps lines, and stays outside. */
  lemma {:induction false} OutsideIsKept(lines: seq<string>, costs: CostMap)
    requires forall l :: l in lines ==> Outside(l)
    ensures Rewrite(lines, "", costs) == lines && After(lines, "", NextBlock) == ""
  {
    if lines != [] {
      assert lines[0] in lines && forall l :: l in lines[1..] ==> l in lines;
      OutsideIsKept(lines[1..], costs);
      assert lines == [lines[0]] + lines[1..];
    }
  }

  /** A body that differs from the opener in one of its first characters is outside. */
  lemma NotAnOpener(depth: nat, body: string, k: nat)
    requires k < |body| && k < |INTERFACE_OPENER| && body[k] != INTERFACE_OPENER[k]
    requires !IsSpace(body[0]) && !IsSpace(body[k]) && OneLine(body)
    ensures Outside(At(depth, body))
  {
    TrimIsPrefix(Spaces(4 * depth), body, k);
    assert TrimSpace(At(depth, body))[k] == body[k];
  }

  /** Likewise for a line that is not indented. */
  lemma NotAnOpenerHere(body: string)
    requires body != "" && body[0] != INTERFACE_OPENER[0] && !IsSpace(body[0]) && OneLine(body)
    ensures Outside(body)
  {
    NotAnOpener(0, body, 0);
    assert At(0, body) == body;
  }

  predicate AllOutside(lines: seq<string>) {
    forall l :: l in lines ==> Outside(l)
  }

  lemma CommentOutside(text: string)
    requires OneLine(text)
    ensures Outside(Comment(text))
  {
    NotAnOpenerHere(Comment(text));
  }

  lemma CommentsOutside(texts: seq<string>)
    requires forall t :: t in texts ==> OneLine(t)
    ensures AllOutside(Comments(texts))
  {
    forall i | 0 <= i < |texts|
      ensures Outside(Comments(texts)[i])
    {
      assert texts[i] in texts;
      CommentOutside(texts[i]);
    }
  }

  lemma StubOutside(d: BirdData)
    requires FieldsOneLine(d)
    ensures AllOutside(StubLines(d))
  {
    StubHeaderOutside();
    TableOutside(d.table4);
    RouteOutside(d.loopback);
    NotAnOpenerHere("}");
  }

  lemma StubHeaderOutside()
    ensures Outside(STUB_HEADER)
  {
    NotAnOpenerHere(STUB_HEADER);
  }

  lemma TableOutside(table: string)
    requires OneLine(table)
    ensures Outside(At(1, "ipv4 { table " + table + "; };"))
  {
    NotAnOpener(1, "ipv4 { table " + table + "; };", 1);
  }

  lemma RouteOutside(loopback: string)
    requires OneLine(loopback)
    ensures Outside(At(1, "route " + loopback + "/32 via \"lo\";"))
  {
    NotAnOpener(1, "route " + loopback + "/32 via \"lo\";", 0);
  }

  lemma HeaderOutside(d: BirdData)
    requires FieldsOneLine(d)
    ensures AllOutside(HeaderLines(d))
  {
    CommentOutside("BIRD meshctl managed configuration for " + d.nodeName);
    CommentsOutside(d.remarks.generated);
    CommentsOutside(d.remarks.loopback);
    StubOutside(d);
    assert Outside("");
  }

  lemma ChannelOutside(family: string, table: string)
    requires family == "ipv4" || family == "ipv6"
    requires OneLine(table)
    ensures AllOutside(ChannelLines(family, table))
  {
    FamilyOutside(family);
    NotAnOpener(2, "table " + table + ";", 0);
    PolicyOutside();
    NotAnOpener(1, "};", 0);
  }

  lemma FamilyOutside(family: string)
    requires family == "ipv4" || family == "ipv6"
    ensures Outside(At(1, family + " {"))
  {
    assert (family + " {")[1] == 'p';
    NotAnOpener(1, family + " {", 1);
  }

  lemma PolicyOutside()
    ensures Outside(At(2, "import all;")) && Outside(At(2, "export all;"))
  {
    NotAnOpener(2, "import all;", 1);
    NotAnOpener(2, "export all;", 0);
  }

  lemma OpeningOutside(remarks: seq<string>, header: string, family: string, table: string)
    requires forall t :: t in remarks ==> OneLine(t)
    requires family == "ipv4" || family == "ipv6"
    requires OneLine(header) && header != "" && header[0] == 'p' && OneLine(table)
    ensures AllOutside(Opening(remarks, header, family, table))
  {
    CommentsOutside(remarks);
    NotAnOpenerHere(header);
    ChannelOutside(family, table);
  }

  lemma ProtocolHeadersOutside(d: BirdData)
    requires FieldsOneLine(d)
    ensures AllOutside(Fe80Header(d)) && AllOutside(V6Header(d)) && AllOutside(V4LLHeader(d))
  {
    OpeningOutside(d.remarks.fe80, FE80_HEADER, "ipv4", d.table4);
    NotAnOpener(1, "instance id 64;", 3);
    OpeningOutside(d.remarks.v6, V6_HEADER, "ipv6", d.table6);
    OpeningOutside(d.remarks.v4ll, V4LL_HEADER, "ipv4", d.table4);
  }

  // ---- one interface block

  /** The opener of a named block is read back exactly, quotes in the name included. */
  lemma OpenerIsRead(iface: string, before: string)
    ensures Enter(before, At(2, InterfaceLine(iface))) == if iface == "" then before else iface
    ensures TrimSpace(At(2, InterfaceLine(iface))) == InterfaceLine(iface)
  {
    var body := InterfaceLine(iface);
    assert body[0] == 'i' && body[|body| - 1] == '{';
    TrimIndented(Spaces(8), body);
    assert body[..10] == "interface " && body[10] == '"';
    FirstIndex(body, '"', 10);
    var last := 11 + |iface|;
    assert body[last] == '"' && body[last + 1..] == " {";
    LastIndex(body, '"', last);
    assert body[11..last] == iface;
  }

  /** A statement of a block that is no cost line. */
  lemma StatementIsKept(iface: string, body: string, costs: CostMap)
    requires |body| > 1 && body[0] in {'t', 'h', 'd'} && body[|body| - 1] == ';'
    ensures NextBlock(iface, At(3, body)) == iface && Editing(costs)(iface, At(3, body)) == At(3, body)
  {
    TrimIndented(Spaces(12), body);
  }

  lemma CostIsEdited(iface: string, cost: uint32, costs: CostMap)
    ensures NextBlock(iface, At(3, CostLine(cost))) == iface
    ensures Editing(costs)(iface, At(3, CostLine(cost)))
            == At(3, CostLine(if iface != "" && iface in costs then costs[iface] else cost))
  {
    CostLineTrims(Spaces(12), cost);
    CostLinesAreInside(iface, CostLine(cost));
  }

  lemma EndLeaves(iface: string, costs: CostMap)
    ensures NextBlock(iface, At(2, BLOCK_END)) == "" && Editing(costs)(iface, At(2, BLOCK_END)) == At(2, BLOCK_END)
  {
    TrimIndented(Spaces(8), BLOCK_END);
  }

  lemma OpenerIsKept(iface: string, costs: CostMap)
    ensures NextBlock("", At(2, InterfaceLine(iface))) == iface
    ensures Editing(costs)("", At(2, InterfaceLine(iface))) == At(2, InterfaceLine(iface))
  {
    OpenerIsRead(iface, "");
    assert InterfaceLine(iface)[0] == 'i';
  }

  lemma ScanCons(line: string, rest: seq<string>, state: string, costs: CostMap)
    ensures Rewrite([line] + rest, state, costs) == [Editing(costs)(state, line)] + Rewrite(rest, NextBlock(state, line), costs)
    ensures After([line] + rest, state, NextBlock) == After(rest, NextBlock(state, line), NextBlock)
  {
    assert ([line] + rest)[1..] == rest;
  }

  /** The lines of a block with given parts. */
  function Block(iface: string, hello: string, dead: string, cost: uint32): seq<string> {
    [At(2, InterfaceLine(iface))] + ([At(3, "type pointopoint;")] + ([At(3, hello)] + ([At(3, dead)]
    + ([At(3, CostLine(cost))] + [At(2, BLOCK_END)]))))
  }

  lemma BlockIsEdited(iface: string, hello: string, dead: string, cost: uint32, costs: CostMap)
    requires |hello| > 1 && hello[0] == 'h' && hello[|hello| - 1] == ';'
    requires |dead| > 1 && dead[0] == 'd' && dead[|dead| - 1] == ';'
    ensures Rewrite(Block(iface, hello, dead, cost), "", costs)
            == Block(iface, hello, dead, if iface != "" && iface in costs then costs[iface] else cost)
    ensures After(Block(iface, hello, dead, cost), "", NextBlock) == ""
  {
    var end := [At(2, BLOCK_END)];
    var l1, l2, l3, l4 := At(3, "type pointopoint;"), At(3, hello), At(3, dead), At(3, CostLine(cost));
    OpenerIsKept(iface, costs);
    StatementIsKept(iface, "type pointopoint;", costs);
    StatementIsKept(iface, hello, costs);
    StatementIsKept(iface, dead, costs);
    CostIsEdited(iface, cost, costs);
    EndLeaves(iface, costs);
    ScanCons(At(2, InterfaceLine(iface)), [l1] + ([l2] + ([l3] + ([l4] + end))), "", costs);
    ScanCons(l1, [l2] + ([l3] + ([l4] + end)), iface, costs);
    ScanCons(l2, [l3] + ([l4] + end), iface, costs);
    ScanCons(l3, [l4] + end, iface, costs);
    ScanCons(l4, end, iface, costs);
    assert end == end + [];
    ScanCons(At(2, BLOCK_END), [], iface, costs);
  }

  // ---- all blocks

  lemma InterfaceIsBlock(d: BirdData, l: Link)
    ensures var peer := l.PeerName(d.nodeName);
            InterfaceLines(d, l) == Block(PeerIface(d, peer), "hello " + SignedDecimal(d.hello) + ";",
                                          "dead " + SignedDecimal(d.dead) + ";", PeerCost(d, peer))
  {
  }

  predicate Covers(d: BirdData, links: seq<Link>) {
    forall l :: l in links ==> l.PeerName(d.nodeName) in Peers(d)
  }

  lemma InterfaceIsEdited(d: BirdData, l: Link, costs: CostMap)
    requires l.PeerName(d.nodeName) in Peers(d)
    ensures Rewrite(InterfaceLines(d, l), "", costs) == InterfaceLines(Recosted(d, costs), l)
    ensures After(InterfaceLines(d, l), "", NextBlock) == ""
  {
    var peer := l.PeerName(d.nodeName);
    InterfaceIsBlock(d, l);
    InterfaceIsBlock(Recosted(d, costs), l);
    BlockIsEdited(PeerIface(d, peer), "hello " + SignedDecimal(d.hello) + ";",
                  "dead " + SignedDecimal(d.dead) + ";", PeerCost(d, peer), costs);
  }

  lemma {:induction false} InterfacesAreEdited(d: BirdData, links: seq<Link>, costs: CostMap)
    requires Covers(d, links)
    ensures Rewrite(InterfaceBlocks(d, links), "", costs) == InterfaceBlocks(Recosted(d, costs), links)
    ensures After(InterfaceBlocks(d, links), "", NextBlock) == ""
  {
    if links != [] {
      assert links[0] in links && forall l :: l in links[1..] ==> l in links;
      InterfaceIsEdited(d, links[0], costs);
      InterfacesAreEdited(d, links[1..], costs);
      ScanAppend(InterfaceLines(d, links[0]), InterfaceBlocks(d, links[1..]), "", NextBlock, Editing(costs));
    }
  }

  /** Lines that are edited to other lines, from outside any block to outside any block. */
  predicate EditsTo(lines: seq<string>, lines': seq<string>, costs: CostMap) {
    Rewrite(lines, "", costs) == lines' && After(lines, "", NextBlock) == ""
  }

  lemma EditsAppend(a: seq<string>, a': seq<string>, b: seq<string>, b': seq<string>, costs: CostMap)
    requires EditsTo(a, a', costs) && EditsTo(b, b', costs)
    ensures EditsTo(a + b, a' + b', costs)
  {
    ScanAppend(a, b, "", NextBlock, Editing(costs));
  }

  lemma AreaOutside(d: BirdData)
    requires OneLine(d.area)
    ensures AllOutside([At(1, "area " + d.area + " {")]) && AllOutside([At(1, "};"), "}"]) && AllOutside([""])
  {
    NotAnOpener(1, "area " + d.area + " {", 0);
    NotAnOpener(1, "};", 0);
    NotAnOpenerHere("}");
  }

  lemma ProtocolIsEdited(d: BirdData, before: seq<string>, links: seq<Link>, costs: CostMap)
    requires OneLine(d.area) && AllOutside(before) && Covers(d, links)
    ensures EditsTo(ProtocolLines(d, before, links), ProtocolLines(Recosted(d, costs), before, links), costs)
  {
    var area, end := [At(1, "area " + d.area + " {")], [At(1, "};"), "}"];
    var blocks, blocks' := InterfaceBlocks(d, links), InterfaceBlocks(Recosted(d, costs), links);
    AreaOutside(d);
    OutsideIsKept(before, costs);
    OutsideIsKept(area, costs);
    OutsideIsKept(end, costs);
    InterfacesAreEdited(d, links, costs);
    EditsAppend(before, before, area, area, costs);
    EditsAppend(before + area, before + area, blocks, blocks', costs);
    EditsAppend(before + area + blocks, before + area + blocks', end, end, costs);
  }

  lemma LinesAreEdited(d: BirdData, costs: CostMap)
    requires FieldsOneLine(d)
    ensures EditsTo(RenderLines(d) + [""], RenderLines(Recosted(d, costs)) + [""], costs)
  {
    var d' := Recosted(d, costs);
    var h, f, v, w := HeaderLines(d), ProtocolLines(d, Fe80Header(d), d.fe80Links),
                      ProtocolLines(d, V6Header(d), d.links), ProtocolLines(d, V4LLHeader(d), d.v4llLinks);
    var f', v', w' := ProtocolLines(d', Fe80Header(d), d.fe80Links),
                      ProtocolLines(d', V6Header(d), d.links), ProtocolLines(d', V4LLHeader(d), d.v4llLinks);
    HeaderOutside(d);
    ProtocolHeadersOutside(d);
    AreaOutside(d);
    OutsideIsKept(h, costs);
    OutsideIsKept([""], costs);
    ProtocolIsEdited(d, Fe80Header(d), d.fe80Links, costs);
    ProtocolIsEdited(d, V6Header(d), d.links, costs);
    ProtocolIsEdited(d, V4LLHeader(d), d.v4llLinks, costs);
    EditsAppend(h, h, f, f', costs);
    EditsAppend(h + f, h + f', v, v', costs);
    EditsAppend(h + f + v, h + f' + v', w, w', costs);
    EditsAppend(h + f + v + w, h + f' + v' + w', [""], [""], costs);
    HeadersKeepCosts(d, costs);
  }

  /** No header line shows a cost. */
  lemma HeadersKeepCosts(d: BirdData, costs: CostMap)
    ensures var d' := Recosted(d, costs);
            && HeaderLines(d') == HeaderLines(d) && Fe80Header(d') == Fe80Header(d)
            && V6Header(d') == V6Header(d) && V4LLHeader(d') == V4LLHeader(d)
  {
  }

  // ---- from lines to text

  lemma AtIsOneLine(depth: nat, body: string)
    requires OneLine(body)
    ensures OneLine(At(depth, body))
  {
  }

  lemma NumberIsOneLine(n: int)
    ensures OneLine(SignedDecimal(n))
  {
    DecimalIsDigits(Abs(n));
    assert forall c :: c in Decimal(Abs(n)) ==> c != '\n';
  }

  lemma InterfaceIsOneLine(d: BirdData, l: Link)
    requires OneLine(PeerIface(d, l.PeerName(d.nodeName)))
    ensures forall x :: x in InterfaceLines(d, l) ==> OneLine(x)
  {
    var peer := l.PeerName(d.nodeName);
    NumberIsOneLine(d.hello);
    NumberIsOneLine(d.dead);
    NumberIsOneLine(PeerCost(d, peer));
    AtIsOneLine(2, InterfaceLine(PeerIface(d, peer)));
    AtIsOneLine(3, "type pointopoint;");
    AtIsOneLine(3, "hello " + SignedDecimal(d.hello) + ";");
    AtIsOneLine(3, "dead " + SignedDecimal(d.dead) + ";");
    AtIsOneLine(3, CostLine(PeerCost(d, peer)));
    AtIsOneLine(2, BLOCK_END);
  }

  lemma {:induction false} InterfacesAreOneLine(d: BirdData, links: seq<Link>)
    requires forall l :: l in links ==> OneLine(PeerIface(d, l.PeerName(d.nodeName)))
    ensures forall x :: x in InterfaceBlocks(d, links) ==> OneLine(x)
  {
    if links != [] {
      assert links[0] in links && forall l :: l in links[1..] ==> l in links;
      InterfaceIsOneLine(d, links[0]);
      InterfacesAreOneLine(d, links[1..]);
    }
  }

  lemma LinesAreOneLine(d: BirdData)
    requires FieldsOneLine(d)
    ensures forall x :: x in RenderLines(d) + [""] ==> OneLine(x)
  {
    HeaderOutside(d);
    ProtocolHeadersOutside(d);
    AreaOutside(d);
    ProtocolIsOneLine(d, Fe80Header(d), d.fe80Links);
    ProtocolIsOneLine(d, V6Header(d), d.links);
    ProtocolIsOneLine(d, V4LLHeader(d), d.v4llLinks);
  }

  lemma ProtocolIsOneLine(d: BirdData, before: seq<string>, links: seq<Link>)
    requires AllOutside(before) && OneLine(d.area)
    requires forall l :: l in links ==> OneLine(PeerIface(d, l.PeerName(d.nodeName)))
    ensures forall x :: x in ProtocolLines(d, before, links) ==> OneLine(x)
  {
    AreaOutside(d);
    InterfacesAreOneLine(d, links);
  }

  /**
   * Editing the generated text is generating it anew: character for character, the edit yields
   * what the template prints with the new cost of every peer whose interface is in the map.
   */
  lemma EditIsRerender(d: BirdData, costs: CostMap)
    requires FieldsOneLine(d)
    ensures ReplaceCosts(Render(d), costs) == Render(Recosted(d, costs))
  {
    var lines := RenderLines(d) + [""];
    LinesAreOneLine(d);
    SplitJoin(lines);
    LinesAreEdited(d, costs);
  }

  /** The data with a cost of its own for every peer. */
  function WithCosts(d: BirdData, cost: string -> uint32): BirdData {
    d.(peerCosts := map p | p in Peers(d) :: cost(p))
  }

  /** When the edited costs are those of a cost function, the edited text shows that function. */
  lemma EditShows(d: BirdData, costs: CostMap, cost: string -> uint32)
    requires FieldsOneLine(d)
    requires forall p :: p in Peers(d) ==> EditedCost(d, costs, p) == cost(p)
    ensures ReplaceCosts(Render(d), costs) == Render(WithCosts(d, cost))
  {
    SameCosts(d, costs, cost);
    EditIsRerender(d, costs);
  }

  lemma SameCosts(d: BirdData, costs: CostMap, cost: string -> uint32)
    requires forall p :: p in Peers(d) ==> EditedCost(d, costs, p) == cost(p)
    ensures Recosted(d, costs) == WithCosts(d, cost)
  {
  }

  /** Every peer of the node, in every block, ends up with its edited cost. */
  lemma RecostedCosts(d: BirdData, costs: CostMap, peer: string)
    requires peer in Peers(d)
    ensures PeerCost(Recosted(d, costs), peer) == EditedCost(d, costs, peer)
    ensures PeerIface(Recosted(d, costs), peer) == PeerIface(d, peer)
  {
  }

  // ---------------------------------------------------------------- the text determines the costs

  lemma SameLengths<T>(a: seq<T>, b: seq<T>, c: seq<T>, d: seq<T>)
    requires a + b == c + d && |a| == |c|
    ensures a == c && b == d
  {
    assert (a + b)[..|a|] == a && (a + b)[|a|..] == b;
    assert (c + d)[..|a|] == c && (c + d)[|a|..] == d;
  }

  /** Data that differ in nothing but the costs. */
  predicate SameButCosts(d: BirdData, d': BirdData) {
    d' == d.(peerCosts := d'.peerCosts)
  }

  lemma {:induction false} BlocksHaveLength(d: BirdData, links: seq<Link>)
    ensures |InterfaceBlocks(d, links)| == 6 * |links|
  {
    if links != [] {
      BlocksHaveLength(d, links[1..]);
    }
  }

  lemma BlockShowsCost(d: BirdData, d': BirdData, l: Link)
    requires InterfaceLines(d, l) == InterfaceLines(d', l) && d.nodeName == d'.nodeName
    ensures PeerCost(d, l.PeerName(d.nodeName)) == PeerCost(d', l.PeerName(d.nodeName))
  {
    var cost, cost' := PeerCost(d, l.PeerName(d.nodeName)), PeerCost(d', l.PeerName(d.nodeName));
    assert InterfaceLines(d, l)[4] == InterfaceLines(d', l)[4];
    CostLineShows(cost, cost');
  }

  lemma CostLineShows(cost: uint32, cost': uint32)
    requires At(3, CostLine(cost)) == At(3, CostLine(cost'))
    ensures cost == cost'
  {
    SameLengths(Spaces(12), CostLine(cost), Spaces(12), CostLine(cost'));
    SameLengths("cost " + Decimal(cost), ";", "cost " + Decimal(cost'), ";");
    SameLengths("cost ", Decimal(cost), "cost ", Decimal(cost'));
    DecimalInjective(cost, cost');
  }

  lemma {:induction false} BlocksShowCosts(d: BirdData, d': BirdData, links: seq<Link>)
    requires d.nodeName == d'.nodeName && InterfaceBlocks(d, links) == InterfaceBlocks(d', links)
    ensures forall l :: l in links ==> PeerCost(d, l.PeerName(d.nodeName)) == PeerCost(d', l.PeerName(d.nodeName))
  {
    if links != [] {
      SameLengths(InterfaceLines(d, links[0]), InterfaceBlocks(d, links[1..]),
                  InterfaceLines(d', links[0]), InterfaceBlocks(d', links[1..]));
      BlockShowsCost(d, d', links[0]);
      BlocksShowCosts(d, d', links[1..]);
      assert links == [links[0]] + links[1..];
    }
  }

  lemma ProtocolShowsCosts(d: BirdData, d': BirdData, before: seq<string>, links: seq<Link>)
    requires d.nodeName == d'.nodeName && d.area == d'.area
    requires ProtocolLines(d, before, links) == ProtocolLines(d', before, links)
    ensures forall l :: l in links ==> PeerCost(d, l.PeerName(d.nodeName)) == PeerCost(d', l.PeerName(d.nodeName))
  {
    if links != [] {
      var head, end := before + [At(1, "area " + d.area + " {")], [At(1, "};"), "}"];
      var blocks, blocks' := InterfaceBlocks(d, links), InterfaceBlocks(d', links);
      BlocksHaveLength(d, links);
      BlocksHaveLength(d', links);
      SameLengths(head + blocks, end, head + blocks', end);
      SameLengths(head, blocks, head, blocks');
      BlocksShowCosts(d, d', links);
    }
  }

  lemma ProtocolHasLength(d: BirdData, d': BirdData, before: seq<string>, links: seq<Link>)
    ensures |ProtocolLines(d, before, links)| == |ProtocolLines(d', before, links)|
  {
    BlocksHaveLength(d, links);
    BlocksHaveLength(d', links);
  }

  lemma LinesShowCosts(d: BirdData, d': BirdData)
    requires SameButCosts(d, d') && RenderLines(d) == RenderLines(d')
    ensures forall p :: p in Peers(d) ==> PeerCost(d, p) == PeerCost(d', p)
  {
    var h, f, v, w := HeaderLines(d), ProtocolLines(d, Fe80Header(d), d.fe80Links),
                      ProtocolLines(d, V6Header(d), d.links), ProtocolLines(d, V4LLHeader(d), d.v4llLinks);
    var f', v', w' := ProtocolLines(d', Fe80Header(d), d.fe80Links),
                      ProtocolLines(d', V6Header(d), d.links), ProtocolLines(d', V4LLHeader(d), d.v4llLinks);
    SameHeaders(d, d');
    ProtocolHasLength(d, d', Fe80Header(d), d.fe80Links);
    ProtocolHasLength(d, d', V6Header(d), d.links);
    SameLengths(h + f + v, w, h + f' + v', w');
    SameLengths(h + f, v, h + f', v');
    SameLengths(h, f, h, f');
    ProtocolShowsCosts(d, d', Fe80Header(d), d.fe80Links);
    ProtocolShowsCosts(d, d', V6Header(d), d.links);
    ProtocolShowsCosts(d, d', V4LLHeader(d), d.v4llLinks);
  }

  lemma SameHeaders(d: BirdData, d': BirdData)
    requires SameButCosts(d, d')
    ensures HeaderLines(d') == HeaderLines(d) && Fe80Header(d') == Fe80Header(d)
    ensures V6Header(d') == V6Header(d) && V4LLHeader(d') == V4LLHeader(d)
  {
  }

  lemma SameTextSameLines(lines: seq<string>, lines': seq<string>)
    requires Join(lines + [""]) == Join(lines' + [""])
    requires forall x :: x in lines + lines' + [""] ==> OneLine(x)
    ensures lines == lines'
  {
    SplitJoin(lines + [""]);
    SplitJoin(lines' + [""]);
    assert |lines| == |lines + [""]| - 1 == |lines'|;
    SameLengths(lines, [""], lines', [""]);
  }

  lemma TextShowsCosts(d: BirdData, d': BirdData)
    requires SameButCosts(d, d') && Render(d) == Render(d')
    requires forall x :: x in RenderLines(d) + RenderLines(d') + [""] ==> OneLine(x)
    ensures forall p :: p in Peers(d) ==> PeerCost(d, p) == PeerCost(d', p)
  {
    SameTextSameLines(RenderLines(d), RenderLines(d'));
    LinesShowCosts(d, d');
  }

  /** Renderings with different costs for some peer are different texts. */
  lemma {:induction false} RenderShowsCosts(d: BirdData, cost: string -> uint32, cost': string -> uint32)
    requires FieldsOneLine(d)
    ensures Render(WithCosts(d, cost)) == Render(WithCosts(d, cost'))
            <==> forall p :: p in Peers(d) ==> cost(p) == cost'(p)
  {
    if Render(WithCosts(d, cost)) == Render(WithCosts(d, cost')) {
      CostsAreShown(d, cost, cost');
    } else if forall p :: p in Peers(d) ==> cost(p) == cost'(p) {
      SameCostsSameData(d, cost, cost');
      assert false;
    }
  }

  lemma SameCostsSameData(d: BirdData, cost: string -> uint32, cost': string -> uint32)
    requires forall p :: p in Peers(d) ==> cost(p) == cost'(p)
    ensures WithCosts(d, cost) == WithCosts(d, cost')
  {
  }

  lemma {:induction false} CostsAreShown(d: BirdData, cost: string -> uint32, cost': string -> uint32)
    requires FieldsOneLine(d) && Render(WithCosts(d, cost)) == Render(WithCosts(d, cost'))
    ensures forall p :: p in Peers(d) ==> cost(p) == cost'(p)
  {
    var d1, d2 := WithCosts(d, cost), WithCosts(d, cost');
    OneLineWithCosts(d, cost);
    OneLineWithCosts(d, cost');
    TextShowsCosts(d1, d2);
    ShownCosts(d, cost);
    ShownCosts(d, cost');
  }

  lemma ShownCosts(d: BirdData, cost: string -> uint32)
    ensures Peers(WithCosts(d, cost)) == Peers(d)
    ensures forall p :: p in Peers(d) ==> PeerCost(WithCosts(d, cost), p) == cost(p)
  {
  }

  lemma OneLineWithCosts(d: BirdData, cost: string -> uint32)
    requires FieldsOneLine(d)
    ensures forall x :: x in RenderLines(WithCosts(d, cost)) + [""] ==> OneLine(x)
  {
    assert Peers(WithCosts(d, cost)) == Peers(d);
    LinesAreOneLine(WithCosts(d, cost));
  }

  // ---------------------------------------------------------------- the template's data

  function OfMode(links: seq<Link>, mode: LinkMode): seq<Link> {
    if links == [] then []
    else if links[|links| - 1].mode == mode then OfMode(links[..|links| - 1], mode) + [links[|links| - 1]]
    else OfMode(links[..|links| - 1], mode)
  }

  /** A static cost is the initial one, whether it stays or is only a fallback. */
  function InitialCost(p: WGPeer): uint32 {
    if p.staticCost.Some? then p.staticCost.value else DEFAULT_DYNAMIC_COST
  }

  datatype Routing = Routing(table4: string, table6: string, area: string, hello: int, dead: int)

  /** What the template gets to print: the links split by mode, and what each peer's last entry says of it. */
  ghost predicate IsDataFor(d: BirdData, remarks: Remarks, routing: Routing, nodeName: string, loopback: string,
                            peers: seq<WGPeer>, links: seq<Link>) {
    && d == BirdData(remarks, nodeName, loopback, routing.table4, routing.table6, routing.area, routing.hello,
                     routing.dead, links, OfMode(links, Fe80), OfMode(links, V4LL), d.peerCosts, d.peerIfaces)
    && (forall p :: p in d.peerIfaces <==> p in d.peerCosts)
    && (forall i :: 0 <= i < |peers| && (forall j :: i < j < |peers| ==> peers[j].name != peers[i].name) ==>
          && peers[i].name in d.peerIfaces && d.peerIfaces[peers[i].name] == peers[i].iface
          && d.peerCosts[peers[i].name] == InitialCost(peers[i]))
  }

  method BuildData(remarks: Remarks, routing: Routing, nodeName: string, loopback: string,
                   peers: seq<WGPeer>, links: seq<Link>) returns (d: BirdData)
    ensures IsDataFor(d, remarks, routing, nodeName, loopback, peers, links)
  {
    var fe80: seq<Link>, v4ll: seq<Link> := [], [];
    for i := 0 to |links|
      invariant fe80 == OfMode(links[..i], Fe80) && v4ll == OfMode(links[..i], V4LL)
    {
      assert links[..i + 1][..i] == links[..i];
      match links[i].mode
      case Fe80 => fe80 := fe80 + [links[i]];
      case V4LL => v4ll := v4ll + [links[i]];
    }
    assert links[..|links|] == links;

    var peerCosts: map<string, uint32>, peerIfaces: map<string, string> := map[], map[];
    for i := 0 to |peers|
      invariant forall p :: p in peerIfaces <==> p in peerCosts
      invariant forall j :: 0 <= j < i && (forall k :: j < k < i ==> peers[k].name != peers[j].name) ==>
                  && peers[j].name in peerIfaces && peerIfaces[peers[j].name] == peers[j].iface
                  && peerCosts[peers[j].name] == InitialCost(peers[j])
    {
      var p := peers[i];
      peerIfaces := peerIfaces[p.name := p.iface];
      if p.isStatic && p.staticCost.Some? {
        peerCosts := peerCosts[p.name := p.staticCost.value];
      } else if p.staticCost.Some? {
        peerCosts := peerCosts[p.name := p.staticCost.value];
      } else {
        peerCosts := peerCosts[p.name := DEFAULT_DYNAMIC_COST];
      }
    }
    d := BirdData(remarks, nodeName, loopback, routing.table4, routing.table6, routing.area, routing.hello, routing.dead,
                  links, fe80, v4ll, peerCosts, peerIfaces);
  }
}
