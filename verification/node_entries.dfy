/** Which end each field of a generated peer entry belongs to, and what the entries of one node share out. */
module NodeEntries {
  import opened Prelude
  import opened Ordering
  import opened Inventory
  import opened Mesh
  import opened Generator
  import Bandwidth

  /** A validated inventory with its mesh, one of its nodes, and one of that node's peers. */
  ghost predicate Placed(nodes: seq<Node>, base: Ipv4, links: seq<Link>, node: Node, i: nat) {
    ValidNodes(nodes) && IsMesh(nodes, true, base, links) && node in nodes && i < |PeersOf(links, node.name)|
  }

  /** Entry i is the node's side of its i-th link, and the link's other end is the i-th peer. */
  lemma EntryIs(nodes: seq<Node>, global: Global, base: Ipv4, links: seq<Link>, node: Node, i: nat)
    returns (remote: Node, l: Link)
    requires Placed(nodes, base, links, node, i)
    ensures remote in nodes && remote.name == PeersOf(links, node.name)[i] != node.name
    ensures l in links && l.Joins(node.name) && l.PeerName(node.name) == remote.name
    ensures i < |EntriesOf(nodes, global, links, node)| == |PeersOf(links, node.name)|
    ensures EntriesOf(nodes, global, links, node)[i] == EntryOf(nodes, global, links, node, remote, l)
  {
    var names := PeersOf(links, node.name);
    MeshIsSound(nodes, base, links, node.name);
    EntriesFollowPeers(nodes, global, links, node);
    LookupFindsAny(nodes, names[i]);
    PeersAreOfLinks(links, node.name);
    PeerIsPermitted(nodes, links, node.name, names[i]);
    remote, l := NodeByName(nodes, names[i]).value, LinksForNode(links, node.name)[i];
  }

  /** Both addresses of a link, seen from one end. */
  lemma AddressesFromEnd(nodes: seq<Node>, base: Ipv4, links: seq<Link>, l: Link, local: Node, remote: Node)
    requires ValidNodes(nodes) && IsMesh(nodes, true, base, links) && l in links
    requires local in nodes && remote in nodes && l.Joins(local.name) && l.PeerName(local.name) == remote.name
    ensures l.SelfAddr(local.name) == Some(NodeAddr(base, local.nodeId))
    ensures l.PeerAddr(local.name) == Some(NodeAddr(base, remote.nodeId))
    ensures l.mode == Fe80 <==> local.kind == Linux && remote.kind == Linux
  {
    var k :| 0 <= k < |links| && links[k] == l;
    assert links[k] == FullLink(nodes, base, Ends(links)[k]);
    LinksAreOrdered(nodes, true, links);
    LessIsTotal(l.nodeA, l.nodeB);
    NodeIsFound(nodes, local);
    NodeIsFound(nodes, remote);
  }

  /** The interface a node uses toward a peer: the override if there is one, else the derived name. */
  lemma IfaceIs(prefix: string, owner: Node, peer: string)
    ensures peer in owner.ifaceOverride && owner.ifaceOverride[peer] != "" ==>
              IfaceNameForPeer(prefix, owner, peer) == owner.ifaceOverride[peer]
    ensures peer !in owner.ifaceOverride || owner.ifaceOverride[peer] == "" ==>
              IfaceNameForPeer(prefix, owner, peer) == WGInterfaceName(prefix, peer)
  {
  }

  /**
   * The sides of an entry: key, type, cost mode and static cost are the peer's, the local address and
   * id are the node's own, the peer address and id the peer's.
   */
  lemma {:induction false} EntrySides(nodes: seq<Node>, global: Global, base: Ipv4, links: seq<Link>, node: Node, i: nat)
    returns (remote: Node)
    requires Placed(nodes, base, links, node, i)
    ensures remote in nodes && remote.name == PeersOf(links, node.name)[i] != node.name
    ensures i < |EntriesOf(nodes, global, links, node)| == |PeersOf(links, node.name)|
    ensures var entry := EntriesOf(nodes, global, links, node)[i];
            && entry.name == remote.name && entry.pubKey == remote.pubKey && entry.kind == remote.kind
            && (entry.isStatic <==> remote.costMode == StaticMode) && entry.staticCost == remote.staticCost
            && entry.unmanaged == remote.unmanaged && entry.keepAlive == global.wgKeepAlive
            && entry.allowedIps == ["0.0.0.0/0", "::/0"]
            && entry.localIp == Some(NodeAddr(base, node.nodeId)) && entry.peerIp == Some(NodeAddr(base, remote.nodeId))
            && entry.fe80Id == node.nodeId && entry.peerFe80Id == remote.nodeId
            && (entry.mode == Fe80 <==> node.kind == Linux && remote.kind == Linux)
  {
    var l;
    remote, l := EntryIs(nodes, global, base, links, node, i);
    AddressesFromEnd(nodes, base, links, l, node, remote);
  }

  // ---------------------------------------------------------------- ports

  /** The node's own listen port, if it has one, is where its peers' ports start; else the global one. */
  lemma BaseIsOwn(nodes: seq<Node>, global: Global, node: Node)
    requires ValidNodes(nodes) && node in nodes
    ensures node.wgListenPort != 0 ==> BasePort(nodes, global, node.name) == node.wgListenPort
    ensures node.wgListenPort == 0 ==> BasePort(nodes, global, node.name) == global.wgListenPort
  {
    NodeIsFound(nodes, node);
  }

  /**
   * Listen ports are the node's own: that of a peer with a port of its own is that port, any other lies
   * within as many ports from the node's own base as it has peers, ...
   */
  lemma {:induction false} EntryPort(nodes: seq<Node>, global: Global, base: Ipv4, links: seq<Link>, node: Node, i: nat)
    returns (remote: Node)
    requires Placed(nodes, base, links, node, i)
    ensures remote in nodes && remote.name == PeersOf(links, node.name)[i]
    ensures i < |EntriesOf(nodes, global, links, node)|
    ensures var port := EntriesOf(nodes, global, links, node)[i].listenPort;
            var own := if node.wgListenPort != 0 then node.wgListenPort else global.wgListenPort;
            if remote.wgPeerPort != 0 then port == remote.wgPeerPort
            else own <= port < own + |PeersOf(links, node.name)|
  {
    var l;
    remote, l := EntryIs(nodes, global, base, links, node, i);
    NodeIsFound(nodes, remote);
    BaseIsOwn(nodes, global, node);
    assert remote.name in PeersOf(links, node.name);
    if remote.wgPeerPort == 0 {
      PortRange(nodes, global, links, node.name, remote.name);
    }
  }

  /** ... no two of them are the same, and those counted from the base follow the names of the peers. */
  lemma {:induction false} EntryPortsDiffer(nodes: seq<Node>, global: Global, base: Ipv4, links: seq<Link>, node: Node, i: nat, j: nat)
    requires Placed(nodes, base, links, node, j) && i < j
    ensures i < j < |EntriesOf(nodes, global, links, node)|
    ensures var x, y := EntriesOf(nodes, global, links, node)[i], EntriesOf(nodes, global, links, node)[j];
            && x.listenPort != y.listenPort && Less(x.name, y.name)
            && (FixedPort(nodes, x.name) == FixedPort(nodes, y.name) == 0 ==> x.listenPort < y.listenPort)
  {
    var names := PeersOf(links, node.name);
    var p, l := EntryIs(nodes, global, base, links, node, i);
    var q, m := EntryIs(nodes, global, base, links, node, j);
    PeersAscend(nodes, links, node.name);
    LessIsTotal(p.name, q.name);
    PortsInjective(nodes, global, links, node.name, p.name, q.name);
    if FixedPort(nodes, p.name) == FixedPort(nodes, q.name) == 0 {
      AutoPeersAre(nodes, names);
      AutoPortsFollowNames(FixedPorts(nodes, names), BasePort(nodes, global, node.name),
                           Elements(AutoPeers(nodes, names)), p.name, q.name);
    }
  }

  // ---------------------------------------------------------------- endpoints

  /** Whether a node can use an address family, and the address another node has in it. */
  lemma EndpointIsRemote(remote: Node, local: Node, port: int)
    ensures var dial, r, own := EndpointForPort(remote, local, port), remote.endpoint, local.endpoint;
            && (dial.DialV6? ==> r.ipv6 == Parsed(dial.addr) && dial.port == port)
            && (dial.DialV4? ==> r.ipv4 == Parsed(dial.addr) && dial.port == port)
            && (dial.DialDomain? ==> dial.host == r.domain != "" && dial.port == port && !r.ipv6.Parsed? && !r.ipv4.Parsed?)
            && (own.ipv6.Parsed? && r.ipv6.Parsed? ==> dial.DialV6?)
            && (own.ipv4.Parsed? && r.ipv4.Parsed? && !own.ipv6.Parsed? ==> dial.DialV4?)
            && (own.ipv4.Parsed? && r.ipv4.Parsed? && !r.ipv6.Parsed? ==> dial.DialV4?)
            && (!own.ipv4.Parsed? && r.ipv6.Parsed? ==> dial.DialV6?)
            && (dial.NoDial? <==> !r.ipv6.Parsed? && !r.ipv4.Parsed? && r.domain == "")
  {
  }

  /** An entry dials an address of the peer, on the port that the peer listens on for this node. */
  lemma {:induction false} EntryDials(nodes: seq<Node>, global: Global, base: Ipv4, links: seq<Link>, node: Node, i: nat)
    returns (remote: Node, j: nat)
    requires Placed(nodes, base, links, node, i)
    ensures remote in nodes && remote.name == PeersOf(links, node.name)[i]
    ensures i < |EntriesOf(nodes, global, links, node)|
    ensures j < |EntriesOf(nodes, global, links, remote)| && EntriesOf(nodes, global, links, remote)[j].name == node.name
    ensures var dial := EntriesOf(nodes, global, links, node)[i].endpoint;
            && (!dial.NoDial? ==> DialledPort(dial) == EntriesOf(nodes, global, links, remote)[j].listenPort)
            && (dial.DialV6? ==> remote.endpoint.ipv6 == Parsed(dial.addr))
            && (dial.DialV4? ==> remote.endpoint.ipv4 == Parsed(dial.addr))
            && (dial.DialDomain? ==> remote.endpoint.domain == dial.host)
  {
    var l;
    remote, l := EntryIs(nodes, global, base, links, node, i);
    j := FindEntry(nodes, global, base, links, l, remote, node);
    EndpointIsRemote(remote, node, PortOf(nodes, global, links, remote.name, node.name));
  }

  // ---------------------------------------------------------------- bandwidth

  /** What a node's bandwidth costs its links: nothing if it is not given. */
  function OwnPenalty(n: Node, global: Global): uint32 {
    if n.bandwidth <= 0 then 0
    else Bandwidth.CalcBandwidthPenalty(n.bandwidth, global.bandwidthThreshold, global.referenceBandwidth)
  }

  /** A link has the larger of the penalties of its two ends. */
  lemma {:induction false} PenaltyOfWorseEnd(a: Node, b: Node, global: Global)
    requires 0 < global.bandwidthThreshold && 0 <= global.referenceBandwidth < TWO_TO_THE_32
    ensures LinkPenalty(a, b, global) == Max(OwnPenalty(a, global), OwnPenalty(b, global))
  {
    var th, reference: nat := global.bandwidthThreshold, global.referenceBandwidth;
    var x, y := EffectiveBandwidth(a, th), EffectiveBandwidth(b, th);
    Bandwidth.PenaltyIsExact(x, th, reference);
    Bandwidth.PenaltyIsExact(y, th, reference);
    if x <= y {
      Bandwidth.PenaltyAntitone(x, y, th, reference);
    } else {
      Bandwidth.PenaltyAntitone(y, x, th, reference);
    }
  }

  /** The penalty in an entry is that of its link. */
  lemma {:induction false} EntryPenalty(nodes: seq<Node>, global: Global, base: Ipv4, links: seq<Link>, node: Node, i: nat)
    returns (remote: Node)
    requires Placed(nodes, base, links, node, i)
    requires 0 < global.bandwidthThreshold && 0 <= global.referenceBandwidth < TWO_TO_THE_32
    ensures remote in nodes && remote.name == PeersOf(links, node.name)[i]
    ensures i < |EntriesOf(nodes, global, links, node)|
    ensures EntriesOf(nodes, global, links, node)[i].bandwidthPenalty
            == Max(OwnPenalty(node, global), OwnPenalty(remote, global))
  {
    var l;
    remote, l := EntryIs(nodes, global, base, links, node, i);
    PenaltyOfWorseEnd(node, remote, global);
  }
}
