/** What the rendered file says, read off its text: which protocol prints which interfaces, from which table. */
module BirdLayout {
  import opened Prelude
  import opened Text
  import opened BirdRewriter
  import opened BirdTemplate
  import opened Mesh

  // ---------------------------------------------------------------- reading a file

  /** The lines before the first that closes a protocol. */
  function Upto(lines: seq<string>): seq<string> {
    if lines == [] || lines[0] == "}" then [] else [lines[0]] + Upto(lines[1..])
  }

  /** The lines of the protocol with this header, none if there is no such protocol. */
  function Under(lines: seq<string>, header: string): seq<string> {
    if lines == [] then []
    else if lines[0] == header then Upto(lines[1..])
    else Under(lines[1..], header)
  }

  lemma {:induction false} UnderSkips(a: seq<string>, b: seq<string>, header: string)
    requires header !in a
    ensures Under(a + b, header) == Under(b, header) && (header in a + b <==> header in b)
  {
    if a == [] {
      assert a + b == b;
    } else {
      assert a == [a[0]] + a[1..] && (a + b)[1..] == a[1..] + b;
      UnderSkips(a[1..], b, header);
    }
  }

  lemma {:induction false} UptoStops(a: seq<string>, b: seq<string>)
    requires "}" !in a
    ensures Upto(a + ["}"] + b) == a
  {
    if a == [] {
      assert a + ["}"] + b == ["}"] + b;
    } else {
      assert a == [a[0]] + a[1..] && (a + ["}"] + b)[1..] == a[1..] + ["}"] + b;
      UptoStops(a[1..], b);
    }
  }

  /** A protocol between other lines is read back. */
  lemma UnderFinds(before: seq<string>, header: string, body: seq<string>, rest: seq<string>)
    requires header !in before && "}" !in body
    ensures var lines := before + ([header] + body + ["}"] + rest);
            header in lines && Under(lines, header) == body
  {
    var found := [header] + body + ["}"] + rest;
    UnderSkips(before, found, header);
    assert found[0] == header && found[1..] == body + ["}"] + rest;
    UptoStops(body, rest);
  }

  // ---------------------------------------------------------------- lines that are no headers

  /** Lines that are indented, comments, empty or closing. */
  predicate Plain(line: string) {
    line == "" || line[0] == ' ' || line[0] == '#' || line[0] == '}'
  }

  predicate AllPlain(lines: seq<string>) {
    forall x :: x in lines ==> Plain(x)
  }

  predicate AllIndented(lines: seq<string>) {
    forall x :: x in lines ==> x != "" && x[0] == ' '
  }

  lemma AtIsIndented(depth: nat, body: string)
    requires 0 < depth
    ensures At(depth, body) != "" && At(depth, body)[0] == ' '
  {
  }

  lemma CommentsArePlain(texts: seq<string>)
    ensures AllPlain(Comments(texts))
  {
  }

  lemma {:induction false} BlocksAreIndented(d: BirdData, links: seq<Link>)
    ensures AllIndented(InterfaceBlocks(d, links))
  {
    if links != [] {
      BlocksAreIndented(d, links[1..]);
    }
  }

  // ---------------------------------------------------------------- the texts of the parts

  lemma Indented(body: string)
    ensures At(1, body) == "    " + body && At(2, body) == "        " + body && At(3, body) == "            " + body
  {
  }

  lemma OpenerText(iface: string)
    ensures At(2, InterfaceLine(iface)) == "        interface \"" + iface + "\" {"
  {
    Indented(InterfaceLine(iface));
    assert "        " + INTERFACE_OPENER == "        interface \"";
    assert "        " + InterfaceLine(iface) == ("        " + INTERFACE_OPENER) + iface + "\" {";
  }

  lemma NumberText(name: string, number: string)
    ensures At(3, name + number + ";") == "            " + name + number + ";"
  {
    Indented(name + number + ";");
    assert "            " + (name + number + ";") == "            " + name + number + ";";
  }

  /** The six lines of an interface. */
  lemma InterfaceText(d: BirdData, l: Link)
    ensures var peer := l.PeerName(d.nodeName);
            InterfaceLines(d, l) == [
              "        interface \"" + PeerIface(d, peer) + "\" {",
              "            type pointopoint;",
              "            hello " + SignedDecimal(d.hello) + ";",
              "            dead " + SignedDecimal(d.dead) + ";",
              "            cost " + Decimal(PeerCost(d, peer)) + ";",
              "        };"
            ]
  {
    var peer := l.PeerName(d.nodeName);
    OpenerText(PeerIface(d, peer));
    Indented("type pointopoint;");
    assert "            " + "type pointopoint;" == "            type pointopoint;";
    assert "            " + "hello " == "            hello " && "            " + "dead " == "            dead ";
    assert "            " + "cost " == "            cost " && "        " + "};" == "        };";
    NumberText("hello ", SignedDecimal(d.hello));
    NumberText("dead ", SignedDecimal(d.dead));
    NumberText("cost ", Decimal(PeerCost(d, peer)));
    Indented("};");
  }

  /** Lines 6k to 6k+5 of the blocks are those of link k. */
  lemma {:induction false} BlockAt(d: BirdData, links: seq<Link>, k: nat)
    requires k < |links|
    ensures |InterfaceBlocks(d, links)| == 6 * |links|
    ensures InterfaceBlocks(d, links)[6 * k..6 * k + 6] == InterfaceLines(d, links[k])
  {
    BlocksHaveLength(d, links);
    if k > 0 {
      BlockAt(d, links[1..], k - 1);
      LaterBlock(InterfaceLines(d, links[0]), InterfaceBlocks(d, links[1..]), 6 * (k - 1));
    }
  }

  lemma LaterBlock(first: seq<string>, rest: seq<string>, at: nat)
    requires |first| == 6 && at + 6 <= |rest|
    ensures (first + rest)[at + 6..at + 12] == rest[at..at + 6]
  {
  }

  /** A channel's lines, given its first. */
  function Channel(first: string, table: string): seq<string> {
    [first, "        table " + table + ";", "        import all;", "        export all;", "    };"]
  }

  lemma ChannelText(family: string, table: string)
    ensures ChannelLines(family, table) == Channel("    " + family + " {", table)
  {
    Indented(family + " {");
    assert "    " + (family + " {") == "    " + family + " {";
    TableText(table);
    Indented("import all;");
    Indented("export all;");
    Indented("};");
    PolicyTexts();
  }

  lemma TableText(table: string)
    ensures At(2, "table " + table + ";") == "        table " + table + ";"
  {
    Indented("table " + table + ";");
    assert "        " + "table " == "        table ";
    assert "        " + ("table " + table + ";") == ("        " + "table ") + table + ";";
  }

  lemma PolicyTexts()
    ensures "        " + "import all;" == "        import all;" && "        " + "export all;" == "        export all;"
    ensures "    " + "};" == "    };"
  {
  }

  // ---------------------------------------------------------------- the protocols in the file

  /** Plain lines, and perhaps this one header. */
  predicate Segment(lines: seq<string>, header: string) {
    forall x :: x in lines ==> Plain(x) || x == header
  }

  lemma NotInSegment(lines: seq<string>, header: string, other: string)
    requires Segment(lines, header) && other != header && other != "" && other[0] == 'p'
    ensures other !in lines
  {
  }

  lemma HeadersDiffer()
    ensures STUB_HEADER != FE80_HEADER && STUB_HEADER != V6_HEADER && STUB_HEADER != V4LL_HEADER
    ensures FE80_HEADER != V6_HEADER && FE80_HEADER != V4LL_HEADER && V6_HEADER != V4LL_HEADER
  {
    assert STUB_HEADER[9] == 's' && FE80_HEADER[9] == V6_HEADER[9] == V4LL_HEADER[9] == 'o';
    assert FE80_HEADER[15] == V6_HEADER[15] == '3' && V4LL_HEADER[15] == '2';
    assert FE80_HEADER[32] == '4' && V6_HEADER[32] == '6';
  }

  /** What stands in a protocol: its channel, and its area with the interfaces of some links. */
  function Body(d: BirdData, channel: seq<string>, links: seq<Link>): seq<string> {
    channel + ["    area " + d.area + " {"] + InterfaceBlocks(d, links) + ["    };"]
  }

  lemma BodyIsIndented(d: BirdData, channel: seq<string>, links: seq<Link>)
    requires AllIndented(channel)
    ensures AllIndented(Body(d, channel, links))
  {
    BlocksAreIndented(d, links);
  }

  /** A protocol is its remarks, its header, its body and a closing line. */
  lemma ProtocolParts(d: BirdData, remarks: seq<string>, header: string, channel: seq<string>, links: seq<Link>)
    requires links != []
    ensures ProtocolLines(d, Comments(remarks) + [header] + channel, links)
            == Comments(remarks) + ([header] + Body(d, channel, links) + ["}"])
  {
    AreaText(d.area);
    Indented("};");
    PolicyTexts();
  }

  lemma AreaText(area: string)
    ensures At(1, "area " + area + " {") == "    area " + area + " {"
  {
    Indented("area " + area + " {");
    assert "    " + "area " == "    area ";
    assert "    " + ("area " + area + " {") == ("    " + "area ") + area + " {";
  }

  lemma ProtocolIsSegment(d: BirdData, remarks: seq<string>, header: string, channel: seq<string>, links: seq<Link>)
    requires AllIndented(channel)
    ensures Segment(ProtocolLines(d, Comments(remarks) + [header] + channel, links), header)
  {
    if links != [] {
      ProtocolParts(d, remarks, header, channel, links);
      BodyIsIndented(d, channel, links);
      CommentsArePlain(remarks);
    }
  }

  /** A protocol among other lines that do not have its header is read back, and is there only if it has links. */
  lemma ProtocolIsRead(d: BirdData, before: seq<string>, remarks: seq<string>, header: string, channel: seq<string>,
                       links: seq<Link>, after: seq<string>)
    requires header != "" && header[0] == 'p' && AllIndented(channel) && header !in before && header !in after
    ensures var lines := before + ProtocolLines(d, Comments(remarks) + [header] + channel, links) + after;
            (header in lines <==> links != []) && (links != [] ==> Under(lines, header) == Body(d, channel, links))
  {
    if links != [] {
      ProtocolParts(d, remarks, header, channel, links);
      BodyIsIndented(d, channel, links);
      CommentsArePlain(remarks);
      FoundBetween(before, Comments(remarks), header, Body(d, channel, links), after);
    }
  }

  lemma FoundBetween(before: seq<string>, comments: seq<string>, header: string, body: seq<string>, after: seq<string>)
    requires header !in before && header !in comments && "}" !in body
    ensures var lines := before + (comments + ([header] + body + ["}"])) + after;
            header in lines && Under(lines, header) == body
  {
    UnderFinds(before + comments, header, body, after);
    assert before + (comments + ([header] + body + ["}"])) + after
        == (before + comments) + ([header] + body + ["}"] + after);
  }

  function Fe80Channel(d: BirdData): seq<string> {
    ["    ipv4 {", "        table " + d.table4 + ";", "        import all;", "        export all;", "    };", "    instance id 64;"]
  }

  function V6Channel(d: BirdData): seq<string> {
    Channel("    ipv6 {", d.table6)
  }

  function V4LLChannel(d: BirdData): seq<string> {
    Channel("    ipv4 {", d.table4)
  }

  lemma HeaderParts(d: BirdData)
    ensures Fe80Header(d) == Comments(d.remarks.fe80) + [FE80_HEADER] + Fe80Channel(d)
    ensures V6Header(d) == Comments(d.remarks.v6) + [V6_HEADER] + V6Channel(d)
    ensures V4LLHeader(d) == Comments(d.remarks.v4ll) + [V4LL_HEADER] + V4LLChannel(d)
  {
    OpeningText(d.remarks.fe80, FE80_HEADER, "ipv4", d.table4);
    OpeningText(d.remarks.v6, V6_HEADER, "ipv6", d.table6);
    OpeningText(d.remarks.v4ll, V4LL_HEADER, "ipv4", d.table4);
    FamilyTexts();
    Indented("instance id 64;");
    assert Fe80Channel(d) == Channel("    ipv4 {", d.table4) + ["    instance id 64;"];
  }

  lemma FamilyTexts()
    ensures "    " + "ipv4" + " {" == "    ipv4 {" && "    " + "ipv6" + " {" == "    ipv6 {"
    ensures "    " + "instance id 64;" == "    instance id 64;"
  {
  }

  lemma OpeningText(remarks: seq<string>, header: string, family: string, table: string)
    ensures Opening(remarks, header, family, table) == Comments(remarks) + [header] + Channel("    " + family + " {", table)
  {
    ChannelText(family, table);
  }

  lemma FileHeaderIsSegment(d: BirdData)
    ensures Segment(HeaderLines(d), STUB_HEADER)
  {
    CommentsArePlain(d.remarks.generated);
    CommentsArePlain(d.remarks.loopback);
    StubText(d);
  }

  lemma StubText(d: BirdData)
    ensures StubLines(d) == [STUB_HEADER, "    ipv4 { table " + d.table4 + "; };", "    route " + d.loopback + "/32 via \"lo\";", "}"]
  {
    Indented("ipv4 { table " + d.table4 + "; };");
    Indented("route " + d.loopback + "/32 via \"lo\";");
    assert "    " + "ipv4 { table " == "    ipv4 { table " && "    " + "route " == "    route ";
    assert "    " + ("ipv4 { table " + d.table4 + "; };") == ("    " + "ipv4 { table ") + d.table4 + "; };";
    assert "    " + ("route " + d.loopback + "/32 via \"lo\";") == ("    " + "route ") + d.loopback + "/32 via \"lo\";";
  }

  lemma RenderedLines(d: BirdData)
    requires FieldsOneLine(d)
    ensures Split(Render(d)) == RenderLines(d) + [""]
  {
    LinesAreOneLine(d);
    SplitJoin(RenderLines(d) + [""]);
  }

  /** Each protocol's lines carry no header but its own. */
  lemma Segments(d: BirdData)
    ensures Segment(HeaderLines(d), STUB_HEADER)
    ensures Segment(ProtocolLines(d, Fe80Header(d), d.fe80Links), FE80_HEADER)
    ensures Segment(ProtocolLines(d, V6Header(d), d.links), V6_HEADER)
    ensures Segment(ProtocolLines(d, V4LLHeader(d), d.v4llLinks), V4LL_HEADER)
  {
    FileHeaderIsSegment(d);
    HeaderParts(d);
    ProtocolIsSegment(d, d.remarks.fe80, FE80_HEADER, Fe80Channel(d), d.fe80Links);
    ProtocolIsSegment(d, d.remarks.v6, V6_HEADER, V6Channel(d), d.links);
    ProtocolIsSegment(d, d.remarks.v4ll, V4LL_HEADER, V4LLChannel(d), d.v4llLinks);
  }

  /** No protocol's header stands in the lines of another. */
  lemma {:induction false} HeadersApart(d: BirdData)
    ensures var h, f, v, w := HeaderLines(d), Fe80Lines(d), V6Lines(d), V4LLLines(d);
            && FE80_HEADER !in h && V6_HEADER !in h && V4LL_HEADER !in h
            && V6_HEADER !in f && V4LL_HEADER !in f && FE80_HEADER !in v && V4LL_HEADER !in v
            && FE80_HEADER !in w && V6_HEADER !in w
  {
    Segments(d);
    HeadersDiffer();
    ThreeApart(HeaderLines(d), STUB_HEADER, FE80_HEADER, V6_HEADER, V4LL_HEADER);
    ThreeApart(Fe80Lines(d), FE80_HEADER, V6_HEADER, V4LL_HEADER, STUB_HEADER);
    ThreeApart(V6Lines(d), V6_HEADER, FE80_HEADER, V4LL_HEADER, STUB_HEADER);
    ThreeApart(V4LLLines(d), V4LL_HEADER, FE80_HEADER, V6_HEADER, STUB_HEADER);
  }

  lemma ThreeApart(lines: seq<string>, own: string, h1: string, h2: string, h3: string)
    requires Segment(lines, own) && own != h1 && own != h2 && own != h3
    requires h1 != "" && h1[0] == 'p' && h2 != "" && h2[0] == 'p' && h3 != "" && h3[0] == 'p'
    ensures h1 !in lines && h2 !in lines && h3 !in lines
  {
    NotInSegment(lines, own, h1);
    NotInSegment(lines, own, h2);
    NotInSegment(lines, own, h3);
  }

  function Fe80Lines(d: BirdData): seq<string> {
    ProtocolLines(d, Fe80Header(d), d.fe80Links)
  }

  function V6Lines(d: BirdData): seq<string> {
    ProtocolLines(d, V6Header(d), d.links)
  }

  function V4LLLines(d: BirdData): seq<string> {
    ProtocolLines(d, V4LLHeader(d), d.v4llLinks)
  }

  /** The file is four parts in this order. */
  lemma FileParts(d: BirdData)
    requires FieldsOneLine(d)
    ensures Split(Render(d)) == HeaderLines(d) + Fe80Lines(d) + V6Lines(d) + V4LLLines(d) + [""]
  {
    RenderedLines(d);
  }

  /** One of four parts is read where the others do not have its header. */
  lemma {:induction false} PartIsRead(d: BirdData, before: seq<string>, part: seq<string>, after: seq<string>, remarks: seq<string>,
                                      header: string, channel: seq<string>, links: seq<Link>)
    requires header != "" && header[0] == 'p' && AllIndented(channel) && header !in before && header !in after
    requires part == ProtocolLines(d, Comments(remarks) + [header] + channel, links)
    ensures header in before + part + after <==> links != []
    ensures links != [] ==> Under(before + part + after, header) == Body(d, channel, links)
  {
    ProtocolIsRead(d, before, remarks, header, channel, links, after);
  }

  lemma Parts(h: seq<string>, f: seq<string>, v: seq<string>, w: seq<string>, e: seq<string>)
    ensures h + f + v + w + e == h + f + (v + w + e)
    ensures h + f + v + w + e == h + f + v + (w + e)
    ensures h + f + v + w + e == h + (f + v + w + e)
  {
    assert f + v + w + e == f + (v + w + e);
  }

  /** OSPFv3 for IPv4 stands in the file exactly if there are fe80 links, and prints these from table4. */
  lemma {:induction false} Fe80IsRead(d: BirdData)
    requires FieldsOneLine(d)
    ensures FE80_HEADER in Split(Render(d)) <==> d.fe80Links != []
    ensures d.fe80Links != [] ==> Under(Split(Render(d)), FE80_HEADER) == Body(d, Fe80Channel(d), d.fe80Links)
  {
    FileParts(d);
    HeaderParts(d);
    HeadersApart(d);
    Parts(HeaderLines(d), Fe80Lines(d), V6Lines(d), V4LLLines(d), [""]);
    PartIsRead(d, HeaderLines(d), Fe80Lines(d), V6Lines(d) + V4LLLines(d) + [""], d.remarks.fe80, FE80_HEADER,
               Fe80Channel(d), d.fe80Links);
  }

  /** OSPFv3 for IPv6 stands in the file exactly if there are links, and prints them all from table6. */
  lemma {:induction false} V6IsRead(d: BirdData)
    requires FieldsOneLine(d)
    ensures V6_HEADER in Split(Render(d)) <==> d.links != []
    ensures d.links != [] ==> Under(Split(Render(d)), V6_HEADER) == Body(d, V6Channel(d), d.links)
  {
    FileParts(d);
    HeaderParts(d);
    HeadersApart(d);
    Parts(HeaderLines(d), Fe80Lines(d), V6Lines(d), V4LLLines(d), [""]);
    PartIsRead(d, HeaderLines(d) + Fe80Lines(d), V6Lines(d), V4LLLines(d) + [""], d.remarks.v6, V6_HEADER,
               V6Channel(d), d.links);
  }

  /** OSPFv2 stands in the file exactly if there are other links, and prints these from table4. */
  lemma {:induction false} V4LLIsRead(d: BirdData)
    requires FieldsOneLine(d)
    ensures V4LL_HEADER in Split(Render(d)) <==> d.v4llLinks != []
    ensures d.v4llLinks != [] ==> Under(Split(Render(d)), V4LL_HEADER) == Body(d, V4LLChannel(d), d.v4llLinks)
  {
    FileParts(d);
    HeaderParts(d);
    HeadersApart(d);
    Parts(HeaderLines(d), Fe80Lines(d), V6Lines(d), V4LLLines(d), [""]);
    PartIsRead(d, HeaderLines(d) + Fe80Lines(d) + V6Lines(d), V4LLLines(d), [""], d.remarks.v4ll, V4LL_HEADER,
               V4LLChannel(d), d.v4llLinks);
  }

  /** The stub advertises the loopback from table4, and the file names its node first. */
  lemma {:induction false} StubIsRead(d: BirdData)
    requires FieldsOneLine(d)
    ensures Split(Render(d))[0] == "# " + ("BIRD meshctl managed configuration for " + d.nodeName)
    ensures Under(Split(Render(d)), STUB_HEADER)
            == ["    ipv4 { table " + d.table4 + "; };", "    route " + d.loopback + "/32 via \"lo\";"]
  {
    var f, v, w := Fe80Lines(d), V6Lines(d), V4LLLines(d);
    FileParts(d);
    Parts(HeaderLines(d), f, v, w, [""]);
    StubBetween(d, f + v + w + [""]);
    StubText(d);
  }

  lemma StubBetween(d: BirdData, after: seq<string>)
    ensures Under(HeaderLines(d) + after, STUB_HEADER) == StubLines(d)[1..3]
  {
    var comments := [Comment("BIRD meshctl managed configuration for " + d.nodeName)] + Comments(d.remarks.generated) + [""]
                    + Comments(d.remarks.loopback);
    var stub := StubLines(d);
    CommentsArePlain(d.remarks.generated);
    CommentsArePlain(d.remarks.loopback);
    StubText(d);
    NotInSegment(comments, "", STUB_HEADER);
    UnderFinds(comments, STUB_HEADER, stub[1..3], [""] + after);
    assert HeaderLines(d) + after == comments + ([STUB_HEADER] + stub[1..3] + ["}"] + ([""] + after));
  }

  /** The lines that a protocol's body has for its k-th link. */
  lemma {:induction false} BodyText(d: BirdData, channel: seq<string>, links: seq<Link>, k: nat)
    requires k < |links|
    ensures var body, at, peer := Body(d, channel, links), |channel| + 1 + 6 * k, links[k].PeerName(d.nodeName);
            && |body| == |channel| + 2 + 6 * |links|
            && body[..|channel| + 1] == channel + ["    area " + d.area + " {"] && body[|body| - 1] == "    };"
            && body[at..at + 6] == [
                 "        interface \"" + PeerIface(d, peer) + "\" {",
                 "            type pointopoint;",
                 "            hello " + SignedDecimal(d.hello) + ";",
                 "            dead " + SignedDecimal(d.dead) + ";",
                 "            cost " + Decimal(PeerCost(d, peer)) + ";",
                 "        };"
               ]
  {
    BlockAt(d, links, k);
    InterfaceText(d, links[k]);
    Middle(channel + ["    area " + d.area + " {"], InterfaceBlocks(d, links), ["    };"], 6 * k, 6 * k + 6);
  }

  lemma Middle(a: seq<string>, b: seq<string>, c: seq<string>, i: nat, j: nat)
    requires i <= j <= |b|
    ensures (a + b + c)[|a| + i..|a| + j] == b[i..j] && (a + b + c)[..|a|] == a
  {
  }
}
