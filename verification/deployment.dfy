/** From the inventory to the agent: both files of a node, and what the agent makes of them. */
module Deployment {
  import opened Prelude
  import opened Ordering
  import opened CostModel
  import opened BirdRewriter
  import opened BirdTemplate
  import opened Generator
  import opened Inventory
  import opened Mesh
  import opened AgentCosts

  /** What the agent reads of a generated peer. */
  function ReadPeer(p: WGPeer): PeerConfig {
    PeerConfig(p.name, p.iface, p.isStatic, p.staticCost, p.bandwidthPenalty)
  }

  function ReadPeers(peers: seq<WGPeer>): seq<PeerConfig> {
    seq(|peers|, i requires 0 <= i < |peers| => ReadPeer(peers[i]))
  }

  /** After a sync the agent has every named interface it was given, and what it had of other peers. */
  lemma {:induction false} SyncedIfaces(known: map<string, string>, peers: seq<PeerConfig>)
    requires NamedOnce(peers) && forall c :: c in peers ==> c.iface != ""
    ensures forall c :: c in peers ==> c.name in IfacesAfter(known, peers) && IfacesAfter(known, peers)[c.name] == c.iface
    ensures forall q :: q in IfacesAfter(known, peers) && (forall c :: c in peers ==> c.name != q) ==>
              q in known && IfacesAfter(known, peers)[q] == known[q]
    decreases |peers|
  {
    if peers != [] {
      var n := |peers| - 1;
      assert peers == peers[..n] + [peers[n]];
      SyncedIfaces(known, peers[..n]);
    }
  }

  /** A validated peer's interface has a name, whatever the prefix. */
  lemma IfaceHasName(prefix: string, owner: Node, peerName: string)
    requires IsValidNodeName(peerName)
    ensures IfaceNameForPeer(prefix, owner, peerName) != ""
  {
    var lower := ToLower(peerName);
    StrippedIs(lower);
    assert IsAlphanumeric(lower[0]) && lower[0] in lower;
  }

  /** The entries of a node of a mesh: one for each peer, each on the interface named for that peer. */
  lemma EntriesOfMesh(nodes: seq<Node>, global: Global, base: Ipv4, links: seq<Link>, node: Node)
    requires ValidNodes(nodes) && IsMesh(nodes, true, base, links)
    ensures var names, entries := PeersOf(links, node.name), EntriesOf(nodes, global, links, node);
            && |entries| == |names| && Distinct(names)
            && forall i :: 0 <= i < |names| ==>
                 && entries[i].name == names[i] && entries[i].iface != ""
                 && entries[i].iface == IfaceNameForPeer(global.wgIfacePrefix, node, names[i])
  {
    var names := PeersOf(links, node.name);
    MeshIsSound(nodes, base, links, node.name);
    EntriesFollowPeers(nodes, global, links, node);
    forall i | 0 <= i < |names|
      ensures IsValidNodeName(names[i])
    {
      LookupFindsAny(nodes, names[i]);
    }
    forall i | 0 <= i < |names|
      ensures IfaceNameForPeer(global.wgIfacePrefix, node, names[i]) != ""
    {
      IfaceHasName(global.wgIfacePrefix, node, names[i]);
    }
  }

  lemma {:induction false} OfModeIsPart(links: seq<Link>, mode: LinkMode)
    ensures forall l :: l in OfMode(links, mode) ==> l in links
  {
    if links != [] {
      OfModeIsPart(links[..|links| - 1], mode);
    }
  }

  /** The peers the template prints are those of the node's links. */
  lemma PrintedPeers(d: BirdData, links: seq<Link>, name: string)
    requires d.nodeName == name && d.links == LinksForNode(links, name)
    requires d.fe80Links == OfMode(d.links, Fe80) && d.v4llLinks == OfMode(d.links, V4LL)
    ensures forall p :: p in Peers(d) ==> p in PeersOf(links, name)
  {
    OfModeIsPart(d.links, Fe80);
    OfModeIsPart(d.links, V4LL);
    PeersAreOfLinks(links, name);
    forall p | p in Peers(d)
      ensures p in PeersOf(links, name)
    {
      var l :| l in d.links + d.fe80Links + d.v4llLinks && l.PeerName(name) == p;
      assert l in d.links;
      var i :| 0 <= i < |d.links| && d.links[i] == l;
      assert PeersOf(links, name)[i] == p;
    }
  }

  /** One node of an inventory, and how its files are to be generated. */
  datatype Site = Site(nodes: seq<Node>, global: Global, base: Ipv4, links: seq<Link>, node: Node,
                       remarks: Remarks, routing: Routing) {
    function Peers(): seq<string> {
      PeersOf(links, node.name)
    }

    ghost function Entries(): seq<WGPeer> {
      EntriesOf(nodes, global, links, node)
    }

    function Naming(): string -> string {
      IfaceNaming(global, node)
    }
  }

  /** A validated inventory, its mesh, one of its nodes. */
  ghost predicate Validated(site: Site) {
    ValidNodes(site.nodes) && IsMesh(site.nodes, true, site.base, site.links) && site.node in site.nodes
  }

  /** The data of the node's BIRD file. */
  ghost predicate Generated(site: Site, d: BirdData) {
    IsDataFor(d, site.remarks, site.routing, site.node.name, site.node.loopback.Text(), site.Entries(),
              LinksForNode(site.links, site.node.name))
  }

  /** The interfaces the agent knows after a sync with the node's other file, given those it knew before. */
  ghost function Synced(site: Site, known: map<string, string>): map<string, string> {
    IfacesAfter(known, ReadPeers(site.Entries()))
  }

  /** One entry for each of some names, on the interface of that name. */
  predicate EntriesNamed(entries: seq<WGPeer>, names: seq<string>, naming: string -> string) {
    && |entries| == |names| && Distinct(names)
    && forall i :: 0 <= i < |names| ==> entries[i].name == names[i] && entries[i].iface == naming(names[i]) != ""
  }

  lemma SiteEntries(site: Site)
    requires Validated(site)
    ensures EntriesNamed(site.Entries(), site.Peers(), site.Naming())
  {
    EntriesOfMesh(site.nodes, site.global, site.base, site.links, site.node);
  }

  /** What the agent then knows: the interface of every peer named, and of others what it knew. */
  lemma AgentIface(known: map<string, string>, entries: seq<WGPeer>, names: seq<string>, naming: string -> string, p: string)
    requires EntriesNamed(entries, names, naming)
    ensures var ifaces := IfacesAfter(known, ReadPeers(entries));
            if p in names then p in ifaces && ifaces[p] == naming(p)
            else p in ifaces ==> p in known && ifaces[p] == known[p]
  {
    var configs := ReadPeers(entries);
    SyncedIfaces(known, configs);
    if p in names {
      var i :| 0 <= i < |names| && names[i] == p;
      assert configs[i] in configs && configs[i].name == p;
    } else {
      assert forall c :: c in configs ==> c.name != p;
    }
  }

  /** What the template prints for a peer: the same interface. */
  lemma PrintedIface(site: Site, d: BirdData, p: string)
    requires EntriesNamed(site.Entries(), site.Peers(), site.Naming()) && Generated(site, d) && p in site.Peers()
    ensures PeerIface(d, p) == site.Naming()(p) != ""
  {
    var names, entries := site.Peers(), site.Entries();
    var i :| 0 <= i < |names| && names[i] == p;
    assert forall j :: i < j < |entries| ==> entries[j].name != entries[i].name;
  }

  lemma {:induction false} DeployedKnows(site: Site, d: BirdData, known: map<string, string>)
    requires Validated(site) && Generated(site, d)
    ensures Knows(Synced(site, known), d)
  {
    SiteEntries(site);
    PrintedPeers(d, site.links, site.node.name);
    forall p | p in Peers(d)
      ensures p in Synced(site, known) && Synced(site, known)[p] == PeerIface(d, p) != ""
    {
      AgentIface(known, site.Entries(), site.Peers(), site.Naming(), p);
      PrintedIface(site, d, p);
    }
  }

  /** No peer that the agent knew and this configuration does not name has one of its interfaces. */
  predicate NoStaleIface(site: Site, known: map<string, string>) {
    forall p, q :: p in site.Peers() && q in known && q !in site.Peers() ==> known[q] != site.Naming()(p)
  }

  /** What the collision check establishes at generation reaches the agent. */
  lemma {:induction false} DeployedUnshared(site: Site, d: BirdData, known: map<string, string>)
    requires Validated(site) && Generated(site, d)
    requires IfacesDistinct(site.global, site.links, site.node) && NoStaleIface(site, known)
    ensures Unshared(Synced(site, known), d)
  {
    var ifaces := Synced(site, known);
    SiteEntries(site);
    PrintedPeers(d, site.links, site.node.name);
    forall p, q | p in Peers(d) && p in ifaces && q in ifaces && p != q
      ensures ifaces[p] != ifaces[q]
    {
      AgentIface(known, site.Entries(), site.Peers(), site.Naming(), p);
      AgentIface(known, site.Entries(), site.Peers(), site.Naming(), q);
      if q in site.Peers() {
        NamedApart(site.Naming(), site.Peers(), p, q);
      }
    }
  }

  lemma NamedApart(naming: string -> string, names: seq<string>, p: string, q: string)
    requires Distinct(IfacesFor(naming, names)) && p in names && q in names && p != q
    ensures naming(p) != naming(q)
  {
    var i :| 0 <= i < |names| && names[i] == p;
    var j :| 0 <= j < |names| && names[j] == q;
    assert IfacesFor(naming, names)[i] == naming(p) && IfacesFor(naming, names)[j] == naming(q);
  }

  /**
   * End to end, from the inventory to the text: for a node that passed validation and the collision
   * check, the edit of its generated file is the file rendered with the engine's current costs.
   */
  lemma {:induction false} GeneratedTextShowsCurrentCosts(site: Site, d: BirdData, known: map<string, string>,
                                                          e: EngineState, costs: CostMap)
    requires Validated(site) && Generated(site, d) && FieldsOneLine(d)
    requires IfacesDistinct(site.global, site.links, site.node) && NoStaleIface(site, known)
    requires IsCostMap(e, Synced(site, known), costs)
    ensures ReplaceCosts(Render(d), costs) == Render(WithCosts(d, CurrentCosts(e)))
  {
    DeployedKnows(site, d, known);
    DeployedUnshared(site, d, known);
    TextShowsCurrentCosts(d, e, Synced(site, known), costs);
  }
}
