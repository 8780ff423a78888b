/** What the generated file of a node says, in terms of the inventory. */
module SiteFiles {
  import opened Prelude
  import opened Ordering
  import opened Text
  import opened CostModel
  import opened BirdTemplate
  import opened BirdLayout
  import opened Generator
  import opened Inventory
  import opened Mesh
  import opened NodeEntries
  import opened AgentCosts
  import opened Deployment

  /** Those of a sequence that are to be kept, in order. */
  function Kept(s: seq<string>, keep: string -> bool): seq<string> {
    if s == [] then []
    else Kept(s[..|s| - 1], keep) + if keep(s[|s| - 1]) then [s[|s| - 1]] else []
  }

  function PeerNames(ls: seq<Link>, name: string): seq<string> {
    seq(|ls|, i requires 0 <= i < |ls| => ls[i].PeerName(name))
  }

  lemma {:induction false} LinksOfMode(ls: seq<Link>, mode: LinkMode, name: string, keep: string -> bool)
    requires forall l :: l in ls ==> (l.mode == mode <==> keep(l.PeerName(name)))
    ensures PeerNames(OfMode(ls, mode), name) == Kept(PeerNames(ls, name), keep)
  {
    if ls != [] {
      var init, l := ls[..|ls| - 1], ls[|ls| - 1];
      assert ls == init + [l];
      LinksOfMode(init, mode, name, keep);
      assert PeerNames(ls, name)[..|ls| - 1] == PeerNames(init, name);
      assert PeerNames(OfMode(init, mode) + [l], name) == PeerNames(OfMode(init, mode), name) + [l.PeerName(name)];
    }
  }

  lemma PeersAreNames(links: seq<Link>, name: string)
    ensures PeersOf(links, name) == PeerNames(LinksForNode(links, name), name)
  {
    PeersAreOfLinks(links, name);
  }

  /** The peer runs Linux, and so does the node. */
  function BothLinux(site: Site): string -> bool {
    p => site.node.kind == Linux && exists n :: n in site.nodes && n.name == p && n.kind == Linux
  }

  function NotBothLinux(site: Site): string -> bool {
    p => !BothLinux(site)(p)
  }

  /** A link of the node is an fe80 one exactly if both its ends run Linux. */
  lemma ModeOfLink(site: Site, l: Link)
    requires Validated(site) && l in site.links && l.Joins(site.node.name)
    ensures l.mode == Fe80 <==> BothLinux(site)(l.PeerName(site.node.name))
  {
    var peer := l.PeerName(site.node.name);
    PeersAreOfLinks(site.links, site.node.name);
    MeshIsSound(site.nodes, site.base, site.links, site.node.name);
    LookupFindsAny(site.nodes, peer);
    var remote := NodeByName(site.nodes, peer).value;
    AddressesFromEnd(site.nodes, site.base, site.links, l, site.node, remote);
    forall n | n in site.nodes && n.name == peer
      ensures n == remote
    {
      NodeIsFound(site.nodes, n);
    }
  }

  /** The peers whose links the two IPv4 protocols print. */
  lemma {:induction false} PeersOfModes(site: Site, d: BirdData)
    requires Validated(site) && Generated(site, d)
    ensures PeerNames(d.links, d.nodeName) == site.Peers()
    ensures PeerNames(d.fe80Links, d.nodeName) == Kept(site.Peers(), BothLinux(site))
    ensures PeerNames(d.v4llLinks, d.nodeName) == Kept(site.Peers(), NotBothLinux(site))
  {
    var ls, name := LinksForNode(site.links, site.node.name), site.node.name;
    PeersAreNames(site.links, name);
    PeersAreOfLinks(site.links, name);
    forall l | l in ls
      ensures l.mode == Fe80 <==> BothLinux(site)(l.PeerName(name))
    {
      var i :| 0 <= i < |ls| && ls[i] == l;
      ModeOfLink(site, l);
    }
    LinksOfMode(ls, Fe80, name, BothLinux(site));
    LinksOfMode(ls, V4LL, name, NotBothLinux(site));
  }

  /** In a file a protocol stands exactly if it has interfaces, with this channel and these interfaces. */
  ghost predicate Prints(lines: seq<string>, header: string, channel: seq<string>, area: string, ifaces: seq<string>) {
    && (header in lines <==> ifaces != [])
    && (ifaces != [] ==>
          var body := Under(lines, header);
          && |body| == |channel| + 2 + 6 * |ifaces|
          && body[..|channel| + 1] == channel + ["    area " + area + " {"]
          && forall k :: 0 <= k < |ifaces| ==>
               body[|channel| + 1 + 6 * k] == "        interface \"" + ifaces[k] + "\" {")
  }

  function Named(names: seq<string>, naming: string -> string): seq<string> {
    seq(|names|, i requires 0 <= i < |names| => naming(names[i]))
  }

  /** A protocol that is read back with the links to some peers prints the interfaces of these. */
  lemma {:induction false} ReadPrints(d: BirdData, lines: seq<string>, header: string, channel: seq<string>, links: seq<Link>,
                                      naming: string -> string)
    requires header in lines <==> links != []
    requires links != [] ==> Under(lines, header) == Body(d, channel, links)
    requires forall p :: p in PeerNames(links, d.nodeName) ==> PeerIface(d, p) == naming(p)
    ensures Prints(lines, header, channel, d.area, Named(PeerNames(links, d.nodeName), naming))
  {
    var names := PeerNames(links, d.nodeName);
    var ifaces := Named(names, naming);
    if links != [] {
      var body := Body(d, channel, links);
      BodyText(d, channel, links, 0);
      forall k | 0 <= k < |ifaces|
        ensures body[|channel| + 1 + 6 * k] == "        interface \"" + ifaces[k] + "\" {"
      {
        OpenerOf(d, channel, links, k);
        assert names[k] in names;
      }
    }
  }

  lemma OpenerOf(d: BirdData, channel: seq<string>, links: seq<Link>, k: nat)
    requires k < |links|
    ensures |channel| + 1 + 6 * k < |Body(d, channel, links)|
    ensures Body(d, channel, links)[|channel| + 1 + 6 * k]
            == "        interface \"" + PeerIface(d, links[k].PeerName(d.nodeName)) + "\" {"
  {
    BodyText(d, channel, links, k);
    var body, at := Body(d, channel, links), |channel| + 1 + 6 * k;
    assert body[at] == body[at..at + 6][0];
  }

  lemma {:induction false} IfacesAreNamed(site: Site, d: BirdData, p: string)
    requires Validated(site) && Generated(site, d) && p in site.Peers()
    ensures PeerIface(d, p) == site.Naming()(p)
  {
    SiteEntries(site);
    PrintedIface(site, d, p);
  }

  lemma {:induction false} KeptAreSome(s: seq<string>, keep: string -> bool)
    ensures forall x :: x in Kept(s, keep) <==> x in s && keep(x)
  {
    if s != [] {
      KeptAreSome(s[..|s| - 1], keep);
      assert s == s[..|s| - 1] + [s[|s| - 1]];
    }
  }

  /** What stands before the area in an IPv4 and an IPv6 protocol. */
  function ChannelFor(family: string, table: string): seq<string> {
    [family, "        table " + table + ";", "        import all;", "        export all;", "    };"]
  }

  /**
   * OSPFv3 for IPv4 is in the file exactly if the node and some peer run Linux; it works on the IPv4
   * table and has the interfaces toward exactly these peers, in order.
   */
  lemma {:induction false} Fe80Prints(site: Site, d: BirdData)
    requires Validated(site) && Generated(site, d) && FieldsOneLine(d)
    ensures Prints(Split(Render(d)), "protocol ospf v3 meshctl_ospf3_v4 {",
                   ChannelFor("    ipv4 {", site.routing.table4) + ["    instance id 64;"], site.routing.area,
                   Named(Kept(site.Peers(), BothLinux(site)), site.Naming()))
  {
    Fe80IsRead(d);
    PeersOfModes(site, d);
    KeptAreSome(site.Peers(), BothLinux(site));
    forall p | p in PeerNames(d.fe80Links, d.nodeName)
      ensures PeerIface(d, p) == site.Naming()(p)
    {
      IfacesAreNamed(site, d, p);
    }
    ReadPrints(d, Split(Render(d)), FE80_HEADER, Fe80Channel(d), d.fe80Links, site.Naming());
    assert Fe80Channel(d) == ChannelFor("    ipv4 {", site.routing.table4) + ["    instance id 64;"];
  }

  /** OSPFv2 is in the file exactly if there is another peer, and has the interfaces toward exactly the others. */
  lemma {:induction false} V4LLPrints(site: Site, d: BirdData)
    requires Validated(site) && Generated(site, d) && FieldsOneLine(d)
    ensures Prints(Split(Render(d)), "protocol ospf v2 meshctl_ospf2 {",
                   ChannelFor("    ipv4 {", site.routing.table4), site.routing.area,
                   Named(Kept(site.Peers(), NotBothLinux(site)), site.Naming()))
  {
    V4LLIsRead(d);
    PeersOfModes(site, d);
    KeptAreSome(site.Peers(), NotBothLinux(site));
    forall p | p in PeerNames(d.v4llLinks, d.nodeName)
      ensures PeerIface(d, p) == site.Naming()(p)
    {
      IfacesAreNamed(site, d, p);
    }
    ReadPrints(d, Split(Render(d)), V4LL_HEADER, V4LLChannel(d), d.v4llLinks, site.Naming());
  }

  /** OSPFv3 for IPv6 is in the file exactly if there is a peer, and has the interfaces toward all of them. */
  lemma {:induction false} V6Prints(site: Site, d: BirdData)
    requires Validated(site) && Generated(site, d) && FieldsOneLine(d)
    ensures Prints(Split(Render(d)), "protocol ospf v3 meshctl_ospf3_v6 {",
                   ChannelFor("    ipv6 {", site.routing.table6), site.routing.area, Named(site.Peers(), site.Naming()))
  {
    V6IsRead(d);
    PeersOfModes(site, d);
    forall p | p in PeerNames(d.links, d.nodeName)
      ensures PeerIface(d, p) == site.Naming()(p)
    {
      IfacesAreNamed(site, d, p);
    }
    ReadPrints(d, Split(Render(d)), V6_HEADER, V6Channel(d), d.links, site.Naming());
  }

  /** The first costs: a peer's static cost, whatever its mode, and 100 for one without. */
  lemma {:induction false} InitialCosts(site: Site, d: BirdData, i: nat) returns (remote: Node)
    requires Validated(site) && Generated(site, d) && i < |site.Peers()|
    ensures remote in site.nodes && remote.name == site.Peers()[i]
    ensures PeerCost(d, remote.name) == if remote.staticCost.Some? then remote.staticCost.value else 100
  {
    SiteEntries(site);
    remote := EntrySides(site.nodes, site.global, site.base, site.links, site.node, i);
    var entries := site.Entries();
    assert forall j :: i < j < |entries| ==> entries[j].name != entries[i].name;
  }

  /**
   * From the inventory to the engine: a sync with the node's generated peers gives the engine a peer's
   * static cost as such in static mode and as a fallback otherwise, and the penalty of the worse end.
   */
  lemma {:induction false} DeployedSettings(site: Site, c: CostConfig, e: EngineState, i: nat) returns (remote: Node)
    requires Validated(site) && c.peers == ReadPeers(site.Entries()) && i < |site.Peers()|
    requires 0 < site.global.bandwidthThreshold && 0 <= site.global.referenceBandwidth < TWO_TO_THE_32
    ensures remote in site.nodes && remote.name == site.Peers()[i]
    ensures var s, s' := PeerOf(e, remote.name), PeerOf(Run(e, SyncEvents(c)), remote.name);
            var fixed := remote.costMode == StaticMode;
            var penalty := Max(OwnPenalty(site.node, site.global), OwnPenalty(remote, site.global));
            && s'.staticCost == (if fixed && remote.staticCost.Some? then remote.staticCost else s.staticCost)
            && s'.fallbackCost == (if !fixed && remote.staticCost.Some? then remote.staticCost else s.fallbackCost)
            && s'.bandwidthPenalty == (if 0 < penalty then penalty else s.bandwidthPenalty)
  {
    SiteEntries(site);
    remote := EntrySides(site.nodes, site.global, site.base, site.links, site.node, i);
    var twin := EntryPenalty(site.nodes, site.global, site.base, site.links, site.node, i);
    SameNode(site.nodes, remote, twin);
    assert NamedOnce(c.peers);
    assert c.peers[i] in c.peers && c.peers[i].name == remote.name;
    SyncSets(e, c, remote.name);
  }

  lemma SameNode(nodes: seq<Node>, m: Node, n: Node)
    requires ValidNodes(nodes) && m in nodes && n in nodes && m.name == n.name
    ensures m == n
  {
    NodeIsFound(nodes, m);
    NodeIsFound(nodes, n);
  }
}
