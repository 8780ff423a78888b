/** Per-node generation: listen ports, WireGuard peers, interface names. */
module Generator {
  import opened Prelude
  import opened Ordering
  import opened Allocator
  import opened Inventory
  import opened Mesh
  import Bandwidth

  datatype Global = Global(wgListenPort: int, bandwidthThreshold: int, referenceBandwidth: int, wgIfacePrefix: string,
                           wgKeepAlive: int)

  // ---------------------------------------------------------------- listen ports

  function FixedPort(nodes: seq<Node>, name: string): int {
    var n := NodeByName(nodes, name);
    if n.Some? then n.value.wgPeerPort else 0
  }

  function BasePort(nodes: seq<Node>, global: Global, name: string): int {
    var n := NodeByName(nodes, name);
    if n.Some? && n.value.wgListenPort != 0 then n.value.wgListenPort else global.wgListenPort
  }

  function FixedPorts(nodes: seq<Node>, peers: seq<string>): set<int> {
    set p | p in peers && FixedPort(nodes, p) != 0 :: FixedPort(nodes, p)
  }

  function AutoPeers(nodes: seq<Node>, peers: seq<string>): seq<string> {
    if peers == [] then []
    else if FixedPort(nodes, peers[0]) != 0 then AutoPeers(nodes, peers[1..])
    else [peers[0]] + AutoPeers(nodes, peers[1..])
  }

  /** The port a node listens on for a peer: the peer's fixed one, or the free one its rank entitles it to. */
  ghost function PortOf(nodes: seq<Node>, global: Global, links: seq<Link>, name: string, peer: string): int {
    var peers := PeersOf(links, name);
    if FixedPort(nodes, peer) != 0 then FixedPort(nodes, peer)
    else if peer in peers then
      NthFree(FixedPorts(nodes, peers), BasePort(nodes, global, name), Rank(Elements(AutoPeers(nodes, peers)), peer))
    else BasePort(nodes, global, name)
  }

  method PeerPort(nodes: seq<Node>, global: Global, name: string, peer: string, links: seq<Link>) returns (port: int)
    requires NodeByName(nodes, name).Some? && Distinct(PeersOf(links, name))
    ensures port == PortOf(nodes, global, links, name, peer)
  {
    var peerNode := NodeByName(nodes, peer);
    if peerNode.Some? && peerNode.value.wgPeerPort != 0 {
      return peerNode.value.wgPeerPort;
    }

    var base := BasePort(nodes, global, name);
    var fixedPorts, autoPeers := SplitPeers(nodes, name, links);
    port := PortAmong(fixedPorts, autoPeers, base, peer);
  }

  /** The fixed ports in use at a node, and its other peers in order. */
  method SplitPeers(nodes: seq<Node>, name: string, links: seq<Link>) returns (fixedPorts: set<int>, autoPeers: seq<string>)
    requires Distinct(PeersOf(links, name))
    ensures fixedPorts == FixedPorts(nodes, PeersOf(links, name))
    ensures Ascending(autoPeers, Less) && Elements(autoPeers) == Elements(AutoPeers(nodes, PeersOf(links, name)))
    ensures forall p :: p in autoPeers <==> p in PeersOf(links, name) && FixedPort(nodes, p) == 0
  {
    var nodeLinks := LinksForNode(links, name);
    ghost var peers := PeersOf(links, name);
    PeersAreOfLinks(links, name);
    fixedPorts, autoPeers := {}, [];
    for i := 0 to |nodeLinks|
      invariant fixedPorts == FixedPorts(nodes, peers[..i])
      invariant autoPeers == AutoPeers(nodes, peers[..i])
    {
      var p := nodeLinks[i].PeerName(name);
      PortsNext(nodes, peers, i);
      var pn := NodeByName(nodes, p);
      if pn.Some? && pn.value.wgPeerPort != 0 {
        fixedPorts := fixedPorts + {pn.value.wgPeerPort};
      } else {
        autoPeers := autoPeers + [p];
      }
    }
    assert peers[..|nodeLinks|] == peers;
    AutoPeersAre(nodes, peers);
    NamesAreOrdered();
    SortSorts(autoPeers, Less);
    autoPeers := Sort(autoPeers, Less);
  }

  /** Sequential ports from the base, up to the peer's. */
  method PortAmong(fixedPorts: set<int>, autoPeers: seq<string>, base: int, peer: string) returns (port: int)
    requires Ascending(autoPeers, Less)
    ensures port == if peer in autoPeers then NthFree(fixedPorts, base, Rank(Elements(autoPeers), peer)) else base
  {
    port := base;
    for i := 0 to |autoPeers|
      invariant port == if i == 0 then base else NthFree(fixedPorts, base, i - 1) + 1
      invariant peer !in autoPeers[..i]
    {
      port := SkipFixed(fixedPorts, port);
      if autoPeers[i] == peer {
        RankIsIndex(autoPeers, Elements(autoPeers), i);
        return port;
      }
      port := port + 1;
    }
    return base;
  }

  /** The inner loop: step over the fixed ports. */
  method SkipFixed(fixedPorts: set<int>, start: int) returns (port: int)
    ensures port == NextFree(fixedPorts, start)
  {
    port := start;
    while port in fixedPorts
      invariant start <= port && NextFree(fixedPorts, port) == NextFree(fixedPorts, start)
      decreases |Ahead(fixedPorts, port)|
    {
      AheadShrinks(fixedPorts, port);
      port := port + 1;
    }
  }

  lemma PortsNext(nodes: seq<Node>, peers: seq<string>, i: nat)
    requires i < |peers|
    ensures FixedPorts(nodes, peers[..i + 1]) == FixedPorts(nodes, peers[..i])
              + (if FixedPort(nodes, peers[i]) != 0 then {FixedPort(nodes, peers[i])} else {})
    ensures AutoPeers(nodes, peers[..i + 1]) == AutoPeers(nodes, peers[..i])
              + (if FixedPort(nodes, peers[i]) != 0 then [] else [peers[i]])
  {
    assert peers[..i + 1] == peers[..i] + [peers[i]];
    AutoPeersAppend(nodes, peers[..i], peers[i]);
  }

  lemma {:induction false} AutoPeersAppend(nodes: seq<Node>, peers: seq<string>, p: string)
    ensures AutoPeers(nodes, peers + [p])
            == AutoPeers(nodes, peers) + (if FixedPort(nodes, p) != 0 then [] else [p])
  {
    if peers != [] {
      assert (peers + [p])[1..] == peers[1..] + [p];
      AutoPeersAppend(nodes, peers[1..], p);
    }
  }

  lemma {:induction false} AutoPeersAre(nodes: seq<Node>, peers: seq<string>)
    ensures forall p :: p in AutoPeers(nodes, peers) <==> p in peers && FixedPort(nodes, p) == 0
    ensures Distinct(peers) ==> Distinct(AutoPeers(nodes, peers))
  {
    if peers != [] {
      assert peers == [peers[0]] + peers[1..];
      AutoPeersAre(nodes, peers[1..]);
    }
  }

  /** No two peers of a node share a listen port. */
  lemma PortsInjective(nodes: seq<Node>, global: Global, links: seq<Link>, name: string, p: string, q: string)
    requires ValidNodes(nodes) && p in PeersOf(links, name) && q in PeersOf(links, name) && p != q
    ensures PortOf(nodes, global, links, name, p) != PortOf(nodes, global, links, name, q)
  {
    var peers := PeersOf(links, name);
    var used, autos := FixedPorts(nodes, peers), Elements(AutoPeers(nodes, peers));
    AutoPeersAre(nodes, peers);
    if FixedPort(nodes, p) != 0 && FixedPort(nodes, q) != 0 {
      FixedPortsDiffer(nodes, p, q);
    } else if FixedPort(nodes, p) == 0 && FixedPort(nodes, q) == 0 {
      LessIsTotal(p, q);
      if Less(p, q) {
        AutoPortsFollowNames(used, BasePort(nodes, global, name), autos, p, q);
      } else {
        AutoPortsFollowNames(used, BasePort(nodes, global, name), autos, q, p);
      }
    } else {
      var auto := if FixedPort(nodes, p) == 0 then p else q;
      var k := Rank(autos, auto);
      NthFreeAscends(used, BasePort(nodes, global, name), k, k);
    }
  }

  lemma FixedPortsDiffer(nodes: seq<Node>, p: string, q: string)
    requires ValidNodes(nodes) && p != q && FixedPort(nodes, p) != 0 && FixedPort(nodes, q) != 0
    ensures FixedPort(nodes, p) != FixedPort(nodes, q)
  {
    var i, j := IndexOfName(nodes, p), IndexOfName(nodes, q);
    assert Compatible(nodes[Min(i, j)], nodes[Max(i, j)]);
  }

  lemma AutoPortsFollowNames(used: set<int>, base: int, autos: set<string>, p: string, q: string)
    requires p in autos && q in autos && Less(p, q)
    ensures NthFree(used, base, Rank(autos, p)) < NthFree(used, base, Rank(autos, q))
  {
    RankMonotone(autos, p, q);
    NthFreeAscends(used, base, Rank(autos, p), Rank(autos, q));
  }

  /** An unfixed peer's port lies within as many ports from the base as the node has peers. */
  lemma PortRange(nodes: seq<Node>, global: Global, links: seq<Link>, name: string, p: string)
    requires p in PeersOf(links, name) && FixedPort(nodes, p) == 0
    ensures var base := BasePort(nodes, global, name);
            base <= PortOf(nodes, global, links, name, p) < base + |PeersOf(links, name)|
  {
    var peers := PeersOf(links, name);
    var used, autos := FixedPorts(nodes, peers), Elements(AutoPeers(nodes, peers));
    AutoPeersAre(nodes, peers);
    RankBound(autos, p);
    PortCounts(nodes, peers);
    FitsInto(used, BasePort(nodes, global, name), Rank(autos, p), |peers|);
  }

  lemma {:induction false} PortCounts(nodes: seq<Node>, peers: seq<string>)
    ensures |FixedPorts(nodes, peers)| + |Elements(AutoPeers(nodes, peers))| <= |peers|
  {
    if peers != [] {
      var n := |peers| - 1;
      PortCounts(nodes, peers[..n]);
      assert peers[..n + 1] == peers;
      PortsNext(nodes, peers, n);
      var autos := AutoPeers(nodes, peers[..n]);
      if FixedPort(nodes, peers[n]) != 0 {
        assert autos + [] == autos;
      } else {
        assert Elements(autos + [peers[n]]) == Elements(autos) + {peers[n]};
        assert FixedPorts(nodes, peers) == FixedPorts(nodes, peers[..n]);
      }
    }
  }

  /** Every port from the base up to an unfixed peer's is a fixed one or that of an earlier unfixed peer. */
  lemma PortsAreDense(nodes: seq<Node>, global: Global, links: seq<Link>, name: string, p: string, x: int)
    requires p in PeersOf(links, name) && FixedPort(nodes, p) == 0
    requires BasePort(nodes, global, name) <= x < PortOf(nodes, global, links, name, p)
    ensures exists q :: q in PeersOf(links, name) && PortOf(nodes, global, links, name, q) == x
                        && (FixedPort(nodes, q) != 0 || Less(q, p))
  {
    var peers, base := PeersOf(links, name), BasePort(nodes, global, name);
    var used, autos := FixedPorts(nodes, peers), Elements(AutoPeers(nodes, peers));
    AutoPeersAre(nodes, peers);
    if x in used {
      var q :| q in peers && FixedPort(nodes, q) != 0 && FixedPort(nodes, q) == x;
      assert PortOf(nodes, global, links, name, q) == x;
    } else {
      NthFreeIsDense(used, base, Rank(autos, p), x);
      var k: nat :| k < Rank(autos, p) && NthFree(used, base, k) == x;
      RankBound(autos, p);
      var q := NameOfRank(autos, k);
      LessIsTotal(p, q);
      if Less(p, q) { RankMonotone(autos, p, q); }
      assert PortOf(nodes, global, links, name, q) == x;
    }
  }

  /** A new unfixed peer moves no port but those of unfixed peers after it. */
  lemma {:induction false} NewPeerMovesOnlyLater(nodes: seq<Node>, nodes': seq<Node>, global: Global,
                              links: seq<Link>, links': seq<Link>, name: string, newcomer: string, p: string)
    requires forall x :: x in PeersOf(links', name) <==> x in PeersOf(links, name) || x == newcomer
    requires forall x :: x in PeersOf(links, name) ==> FixedPort(nodes', x) == FixedPort(nodes, x)
    requires FixedPort(nodes', newcomer) == 0 && BasePort(nodes', global, name) == BasePort(nodes, global, name)
    requires p in PeersOf(links, name) && (FixedPort(nodes, p) != 0 || Less(p, newcomer))
    ensures PortOf(nodes', global, links', name, p) == PortOf(nodes, global, links, name, p)
  {
    var peers, peers' := PeersOf(links, name), PeersOf(links', name);
    if FixedPort(nodes, p) == 0 {
      AutoPeersAre(nodes, peers);
      AutoPeersAre(nodes', peers');
      var autos, autos' := Elements(AutoPeers(nodes, peers)), Elements(AutoPeers(nodes', peers'));
      SameFixedPorts(nodes, nodes', peers, peers');
      LessIsTotal(p, newcomer);
      forall x
        ensures x in autos' && Less(x, p) <==> x in autos && Less(x, p)
      {
      }
      assert Below(autos', p) == Below(autos, p);
    }
  }

  lemma SameFixedPorts(nodes: seq<Node>, nodes': seq<Node>, peers: seq<string>, peers': seq<string>)
    requires forall x :: x in peers ==> x in peers' && FixedPort(nodes', x) == FixedPort(nodes, x)
    requires forall x :: x in peers' && x !in peers ==> FixedPort(nodes', x) == 0
    ensures FixedPorts(nodes', peers') == FixedPorts(nodes, peers)
  {
  }

  /** Ports do not depend on the order of the inventory. */
  lemma PortsIgnoreOrder(nodes: seq<Node>, nodes': seq<Node>, global: Global, links: seq<Link>, name: string, p: string)
    requires ValidNodes(nodes) && ValidNodes(nodes') && forall n :: n in nodes <==> n in nodes'
    ensures PortOf(nodes, global, links, name, p) == PortOf(nodes', global, links, name, p)
  {
    forall x
      ensures NodeByName(nodes, x) == NodeByName(nodes', x)
    {
      LookupIgnoresOrder(nodes, nodes', x);
    }
    var peers := PeersOf(links, name);
    SameAutoPeers(nodes, nodes', peers);
    assert FixedPorts(nodes, peers) == FixedPorts(nodes', peers);
  }

  lemma {:induction false} SameAutoPeers(nodes: seq<Node>, nodes': seq<Node>, peers: seq<string>)
    requires forall x :: NodeByName(nodes, x) == NodeByName(nodes', x)
    ensures AutoPeers(nodes, peers) == AutoPeers(nodes', peers)
  {
    if peers != [] {
      SameAutoPeers(nodes, nodes', peers[1..]);
    }
  }

  // ---------------------------------------------------------------- WireGuard peers

  /** What a WireGuard endpoint text is made of. */
  datatype Dial = NoDial | DialV6(addr: string, port: int) | DialV4(addr: string, port: int) | DialDomain(host: string, port: int)

  /** How a local node reaches a remote one on a given port. */
  function EndpointForPort(remote: Node, local: Node, port: int): Dial {
    var v6, v4 := remote.endpoint.ipv6, remote.endpoint.ipv4;
    if local.endpoint.ipv6.Parsed? && v6.Parsed? then DialV6(v6.text, port)
    else if local.endpoint.ipv4.Parsed? && v4.Parsed? then DialV4(v4.text, port)
    else if v6.Parsed? then DialV6(v6.text, port)
    else if v4.Parsed? then DialV4(v4.text, port)
    else if remote.endpoint.domain != "" then DialDomain(remote.endpoint.domain, port)
    else NoDial
  }

  function EffectiveBandwidth(n: Node, threshold: int): int {
    if 0 < n.bandwidth then n.bandwidth else threshold
  }

  function LinkPenalty(a: Node, b: Node, global: Global): uint32 {
    var linkBw := Min(EffectiveBandwidth(a, global.bandwidthThreshold), EffectiveBandwidth(b, global.bandwidthThreshold));
    Bandwidth.CalcBandwidthPenalty(linkBw, global.bandwidthThreshold, global.referenceBandwidth)
  }

  const ALL_ADDRESSES: seq<string> := ["0.0.0.0/0", "::/0"]

  datatype WGPeer = WGPeer(name: string, iface: string, pubKey: string, endpoint: Dial, allowedIps: seq<string>,
                           keepAlive: int, listenPort: int,
                           localIp: Option<Ipv4>, peerIp: Option<Ipv4>, fe80Id: int, peerFe80Id: int, mode: LinkMode,
                           kind: NodeType, isStatic: bool, staticCost: Option<uint32>, bandwidthPenalty: uint32,
                           unmanaged: bool)

  /** A node's side of one of its links. */
  ghost function EntryOf(nodes: seq<Node>, global: Global, links: seq<Link>, local: Node, remote: Node, l: Link): WGPeer {
    WGPeer(remote.name, IfaceNameForPeer(global.wgIfacePrefix, local, remote.name), remote.pubKey,
           EndpointForPort(remote, local, PortOf(nodes, global, links, remote.name, local.name)),
           ALL_ADDRESSES, global.wgKeepAlive, PortOf(nodes, global, links, local.name, remote.name),
           l.SelfAddr(local.name), l.PeerAddr(local.name), local.nodeId, remote.nodeId, l.mode, remote.kind,
           remote.costMode.StaticMode?, remote.staticCost, LinkPenalty(local, remote, global), remote.unmanaged)
  }

  /** A node's side of any of its links; a link to an unknown node has none. */
  ghost function EntryFor(nodes: seq<Node>, global: Global, links: seq<Link>, local: Node): Link -> Option<WGPeer> {
    (l: Link) =>
      var remote := NodeByName(nodes, l.PeerName(local.name));
      if remote.None? then None else Some(EntryOf(nodes, global, links, local, remote.value, l))
  }

  function Collected<T>(make: Link -> Option<T>, ls: seq<Link>): seq<T> {
    if ls == [] then []
    else
      var made, earlier := make(ls[|ls| - 1]), Collected(make, ls[..|ls| - 1]);
      if made.None? then earlier else earlier + [made.value]
  }

  /** When nothing is left out, there is one for each link, in order. */
  lemma {:induction false} CollectedAll<T>(make: Link -> Option<T>, ls: seq<Link>)
    requires forall l :: l in ls ==> make(l).Some?
    ensures |Collected(make, ls)| == |ls|
    ensures forall i :: 0 <= i < |ls| ==> Collected(make, ls)[i] == make(ls[i]).value
  {
    if ls != [] {
      var n := |ls| - 1;
      assert forall l :: l in ls[..n] ==> l in ls;
      assert ls[n] in ls;
      CollectedAll(make, ls[..n]);
    }
  }

  ghost function Entries(nodes: seq<Node>, global: Global, links: seq<Link>, local: Node, ls: seq<Link>): seq<WGPeer> {
    Collected(EntryFor(nodes, global, links, local), ls)
  }

  /** What generation builds for a node. */
  ghost function EntriesOf(nodes: seq<Node>, global: Global, links: seq<Link>, local: Node): seq<WGPeer> {
    Entries(nodes, global, links, local, LinksForNode(links, local.name))
  }

  method BuildWGPeers(nodes: seq<Node>, global: Global, name: string, links: seq<Link>) returns (peers: seq<WGPeer>)
    requires NodeByName(nodes, name).Some?
    requires forall x :: Distinct(PeersOf(links, x))
    ensures var local := NodeByName(nodes, name).value;
            local.name == name && peers == EntriesOf(nodes, global, links, local)
  {
    var nodeLinks := LinksForNode(links, name);
    var local := NodeByName(nodes, name).value;
    peers := [];
    for i := 0 to |nodeLinks|
      invariant peers == Entries(nodes, global, links, local, nodeLinks[..i])
    {
      var l := nodeLinks[i];
      assert nodeLinks[..i + 1][..i] == nodeLinks[..i];
      var peerName := l.PeerName(name);
      var peerNode := NodeByName(nodes, peerName);
      if peerNode.None? {
        continue;
      }
      var remote := peerNode.value;
      var localPort := PeerPort(nodes, global, name, peerName, links);
      var remotePort := PeerPort(nodes, global, peerName, name, links);
      var localBw := EffectiveBandwidth(local, global.bandwidthThreshold);
      var peerBw := EffectiveBandwidth(remote, global.bandwidthThreshold);
      var linkBw := localBw;
      if peerBw < linkBw {
        linkBw := peerBw;
      }
      var bwPenalty := Bandwidth.CalcBandwidthPenalty(linkBw, global.bandwidthThreshold, global.referenceBandwidth);
      var entry := WGPeer(peerName, IfaceNameForPeer(global.wgIfacePrefix, local, peerName), remote.pubKey,
                          EndpointForPort(remote, local, remotePort), ["0.0.0.0/0", "::/0"], global.wgKeepAlive,
                          localPort, l.SelfAddr(name), l.PeerAddr(name), local.nodeId, remote.nodeId, l.mode,
                          remote.kind, remote.costMode.StaticMode?, remote.staticCost, bwPenalty, remote.unmanaged);
      assert entry == EntryOf(nodes, global, links, local, remote, l);
      peers := peers + [entry];
    }
    assert nodeLinks[..|nodeLinks|] == nodeLinks;
  }

  // ---------------------------------------------------------------- order independence

  lemma {:induction false} CollectedSame<T(!new)>(make: Link -> Option<T>, make': Link -> Option<T>, ls: seq<Link>)
    requires forall l :: make(l) == make'(l)
    ensures Collected(make, ls) == Collected(make', ls)
  {
    if ls != [] {
      CollectedSame(make, make', ls[..|ls| - 1]);
    }
  }

  lemma EntryIgnoresOrder(nodes: seq<Node>, nodes': seq<Node>, global: Global, links: seq<Link>, local: Node, l: Link)
    requires ValidNodes(nodes) && ValidNodes(nodes') && forall n :: n in nodes <==> n in nodes'
    ensures EntryFor(nodes, global, links, local)(l) == EntryFor(nodes', global, links, local)(l)
  {
    var peer := l.PeerName(local.name);
    LookupIgnoresOrder(nodes, nodes', peer);
    if NodeByName(nodes, peer).Some? {
      var remote := NodeByName(nodes, peer).value;
      PortsIgnoreOrder(nodes, nodes', global, links, remote.name, local.name);
      PortsIgnoreOrder(nodes, nodes', global, links, local.name, remote.name);
    }
  }

  /** What a node gets generated does not depend on the order of the inventory. */
  lemma {:induction false} EntriesIgnoreOrder(nodes: seq<Node>, nodes': seq<Node>, global: Global, links: seq<Link>, local: Node)
    requires ValidNodes(nodes) && ValidNodes(nodes') && forall n :: n in nodes <==> n in nodes'
    ensures EntriesOf(nodes, global, links, local) == EntriesOf(nodes', global, links, local)
  {
    forall l
      ensures EntryFor(nodes, global, links, local)(l) == EntryFor(nodes', global, links, local)(l)
    {
      EntryIgnoresOrder(nodes, nodes', global, links, local, l);
    }
    CollectedSame(EntryFor(nodes, global, links, local), EntryFor(nodes', global, links, local),
                  LinksForNode(links, local.name));
  }

  /**
   * Order independence of generation: listing the nodes of a valid inventory in another order gives
   * a valid inventory with the same nodes, ids included; a mesh can be built of the one exactly if it
   * can of the other, the meshes of both are the same, and every port and every entry is.
   */
  lemma {:induction false} GenerationIgnoresOrder(was: seq<Node>, was': seq<Node>, global: Global, full: bool, range: Option<Ipv4>)
    requires ValidNodes(was) && multiset(was) == multiset(was')
    ensures ValidNodes(was') && forall n :: n in Assigned(was) <==> n in Assigned(was')
    ensures Buildable(Assigned(was), full, range) <==> Buildable(Assigned(was'), full, range)
    ensures range.Some? ==> forall links ::
              IsMesh(Assigned(was), full, range.value, links) <==> IsMesh(Assigned(was'), full, range.value, links)
    ensures range.Some? ==> forall links, links' ::
              IsMesh(Assigned(was), full, range.value, links) && IsMesh(Assigned(was'), full, range.value, links') ==> links == links'
    ensures forall links, name, p ::
              PortOf(Assigned(was), global, links, name, p) == PortOf(Assigned(was'), global, links, name, p)
    ensures forall links, node :: EntriesOf(Assigned(was), global, links, node) == EntriesOf(Assigned(was'), global, links, node)
  {
    ValidityIgnoresOrder(was, was');
    AssignedIgnoresOrder(was, was');
    AssignedIsValid(was);
    AssignedIsValid(was');
    SameNodesSameOutput(Assigned(was), Assigned(was'), global, full, range);
    forall links, links' | range.Some? && IsMesh(Assigned(was), full, range.value, links)
                           && IsMesh(Assigned(was'), full, range.value, links')
      ensures links == links'
    {
      MeshIgnoresOrder(Assigned(was), Assigned(was'), full, range.value, links, links');
    }
  }

  lemma {:induction false} SameNodesSameOutput(nodes: seq<Node>, nodes': seq<Node>, global: Global, full: bool, range: Option<Ipv4>)
    requires ValidNodes(nodes) && ValidNodes(nodes') && forall n :: n in nodes <==> n in nodes'
    ensures Buildable(nodes, full, range) <==> Buildable(nodes', full, range)
    ensures range.Some? ==> forall links :: IsMesh(nodes, full, range.value, links) <==> IsMesh(nodes', full, range.value, links)
    ensures forall links, name, p :: PortOf(nodes, global, links, name, p) == PortOf(nodes', global, links, name, p)
    ensures forall links, node :: EntriesOf(nodes, global, links, node) == EntriesOf(nodes', global, links, node)
  {
    BuildableIgnoresOrder(nodes, nodes', full, range);
    forall links | range.Some?
      ensures IsMesh(nodes, full, range.value, links) <==> IsMesh(nodes', full, range.value, links)
    {
      if IsMesh(nodes, full, range.value, links) {
        MeshOfBoth(nodes, nodes', full, range.value, links);
      }
      if IsMesh(nodes', full, range.value, links) {
        MeshOfBoth(nodes', nodes, full, range.value, links);
      }
    }
    forall links, name, p
      ensures PortOf(nodes, global, links, name, p) == PortOf(nodes', global, links, name, p)
    {
      PortsIgnoreOrder(nodes, nodes', global, links, name, p);
    }
    forall links, node
      ensures EntriesOf(nodes, global, links, node) == EntriesOf(nodes', global, links, node)
    {
      EntriesIgnoreOrder(nodes, nodes', global, links, node);
    }
  }

  // ---------------------------------------------------------------- interface names

  const MAX_IFACE := 15

  function ToLower(s: string): string {
    seq(|s|, i requires 0 <= i < |s| =>
      if 'A' <= s[i] <= 'Z' then ((s[i] as int) + 32) as char else s[i])
  }

  predicate IsAlphanumeric(c: char) {
    'a' <= c <= 'z' || '0' <= c <= '9'
  }

  function Stripped(s: string): string {
    if s == "" then ""
    else Stripped(s[..|s| - 1]) + if IsAlphanumeric(s[|s| - 1]) then [s[|s| - 1]] else ""
  }

  /** Prefix and lower-case peer; too long a name loses its punctuation, then its end. */
  function WGInterfaceName(prefix: string, peerName: string): string {
    var lower := ToLower(peerName);
    if |prefix + lower| <= MAX_IFACE then prefix + lower
    else
      var name := prefix + Stripped(lower);
      if MAX_IFACE < |name| then name[..MAX_IFACE] else name
  }

  lemma {:induction false} StrippedIs(s: string)
    ensures |Stripped(s)| <= |s| && forall c :: c in Stripped(s) <==> c in s && IsAlphanumeric(c)
  {
    if s != "" {
      StrippedIs(s[..|s| - 1]);
      assert s == s[..|s| - 1] + [s[|s| - 1]];
    }
  }

  /** Lower case letter by letter, all else as it is. */
  lemma ToLowerIs(s: string, i: nat)
    requires i < |s|
    ensures |ToLower(s)| == |s|
    ensures if 'A' <= s[i] <= 'Z' then 'a' <= ToLower(s)[i] <= 'z' && ToLower(s)[i] as int - 'a' as int == s[i] as int - 'A' as int
            else ToLower(s)[i] == s[i]
  {
  }

  /** Stripping keeps what is alphanumeric, in order. */
  lemma {:induction false} StrippedInOrder(a: string, b: string)
    ensures Stripped(a + b) == Stripped(a) + Stripped(b)
    ensures |a| == 1 ==> Stripped(a) == if 'a' <= a[0] <= 'z' || '0' <= a[0] <= '9' then a else ""
    decreases |b|
  {
    if b != "" {
      var n := |b| - 1;
      StrippedInOrder(a, b[..n]);
      assert (a + b)[..|a| + n] == a + b[..n];
      assert (a + b)[|a| + n] == b[n];
    } else {
      assert a + b == a;
    }
    if |a| == 1 {
      assert a[..0] == "" && a == [a[0]];
    }
  }

  /**
   * A derived name fits the kernel's limit and shows the whole prefix if that fits; the peer's
   * part is all of its lower-case name, or else the beginning of what is alphanumeric in it.
   */
  lemma InterfaceNameFits(prefix: string, peerName: string)
    requires |prefix| <= MAX_IFACE
    ensures var name := WGInterfaceName(prefix, peerName);
            && |name| <= MAX_IFACE && prefix <= name
            && (|prefix| + |peerName| <= MAX_IFACE <==> name == prefix + ToLower(peerName))
            && (name != prefix + ToLower(peerName) ==>
                  && name[|prefix|..] <= Stripped(ToLower(peerName))
                  && forall c :: c in name[|prefix|..] ==> c in ToLower(peerName) && IsAlphanumeric(c))
  {
    var name := WGInterfaceName(prefix, peerName);
    StrippedIs(ToLower(peerName));
    if MAX_IFACE < |prefix| + |peerName| {
      assert name[|prefix|..] <= Stripped(ToLower(peerName));
    }
  }

  /** The name is built byte by byte; the punctuation goes only if the name is too long with it. */
  method BuildInterfaceName(prefix: string, peerName: string) returns (name: string)
    ensures name == WGInterfaceName(prefix, peerName)
  {
    var lower := ToLower(peerName);
    name := prefix + lower;
    if |name| <= MAX_IFACE {
      return;
    }
    var stripped := "";
    for i := 0 to |lower|
      invariant stripped == Stripped(lower[..i])
    {
      assert lower[..i + 1][..i] == lower[..i];
      if IsAlphanumeric(lower[i]) {
        stripped := stripped + [lower[i]];
      }
    }
    assert lower[..|lower|] == lower;
    name := prefix + stripped;
    if MAX_IFACE < |name| {
      name := name[..MAX_IFACE];
    }
  }

  function IfaceNameForPeer(prefix: string, owner: Node, peerName: string): string {
    if peerName in owner.ifaceOverride && owner.ifaceOverride[peerName] != "" then owner.ifaceOverride[peerName]
    else WGInterfaceName(prefix, peerName)
  }

  function IfaceNaming(global: Global, node: Node): string -> string {
    peerName => IfaceNameForPeer(global.wgIfacePrefix, node, peerName)
  }

  function IfacesFor(naming: string -> string, peers: seq<string>): seq<string> {
    seq(|peers|, i requires 0 <= i < |peers| => naming(peers[i]))
  }

  /** All peers of a node have interfaces of their own. */
  predicate IfacesDistinct(global: Global, links: seq<Link>, node: Node) {
    Distinct(IfacesFor(IfaceNaming(global, node), PeersOf(links, node.name)))
  }

  /** The check before generation: no node derives one interface name for two peers. */
  method CheckInterfaceNameCollisions(nodes: seq<Node>, global: Global, links: seq<Link>) returns (ok: bool)
    ensures ok <==> forall n :: n in nodes ==> IfacesDistinct(global, links, n)
  {
    for k := 0 to |nodes|
      invariant forall m :: 0 <= m < k ==> IfacesDistinct(global, links, nodes[m])
    {
      var distinct := CheckIfaces(IfaceNaming(global, nodes[k]), links, nodes[k].name);
      if !distinct {
        assert nodes[k] in nodes;
        return false;
      }
    }
    return true;
  }

  /** One node's interfaces, however it names them. */
  method CheckIfaces(naming: string -> string, links: seq<Link>, name: string) returns (ok: bool)
    ensures ok <==> Distinct(IfacesFor(naming, PeersOf(links, name)))
  {
    var nodeLinks := LinksForNode(links, name);
    ghost var ifaces := IfacesFor(naming, PeersOf(links, name));
    PeersAreOfLinks(links, name);
    var seen: map<string, string> := map[];
    for i := 0 to |nodeLinks|
      invariant forall iface :: iface in seen <==> iface in ifaces[..i]
      invariant Distinct(ifaces[..i])
    {
      var peer := nodeLinks[i].PeerName(name);
      var iface := naming(peer);
      assert ifaces[i] == iface;
      DistinctNext(ifaces, i);
      if iface in seen {
        return false;
      }
      seen := seen[iface := peer];
    }
    assert ifaces[..|nodeLinks|] == ifaces;
    return true;
  }

  lemma DistinctNext(s: seq<string>, i: nat)
    requires i < |s|
    ensures forall x :: x in s[..i + 1] <==> x in s[..i] || x == s[i]
    ensures Distinct(s[..i]) && s[i] !in s[..i] ==> Distinct(s[..i + 1])
    ensures s[i] in s[..i] ==> !Distinct(s)
  {
    assert s[..i + 1] == s[..i] + [s[i]];
  }

  // ---------------------------------------------------------------- mirrored ends

  lemma PenaltySymmetric(a: Node, b: Node, global: Global)
    ensures LinkPenalty(a, b, global) == LinkPenalty(b, a, global)
  {
  }

  /** The port a node is dialled on, 0 if it cannot be dialled. */
  function DialledPort(d: Dial): int {
    match d
    case NoDial => 0
    case DialV6(_, port) => port
    case DialV4(_, port) => port
    case DialDomain(_, port) => port
  }

  lemma DialsThePort(remote: Node, local: Node, port: int)
    requires WellFormed(remote)
    ensures EndpointForPort(remote, local, port).NoDial? <==> !HasEndpoint(remote)
    ensures HasEndpoint(remote) ==> DialledPort(EndpointForPort(remote, local, port)) == port
  {
  }

  /** In a mesh every node has its peers once each, and all of them exist. */
  lemma {:induction false} MeshIsSound(nodes: seq<Node>, base: Ipv4, links: seq<Link>, name: string)
    requires ValidNodes(nodes) && IsMesh(nodes, true, base, links)
    ensures Distinct(PeersOf(links, name))
    ensures forall p :: p in PeersOf(links, name) ==> NodeByName(nodes, p).Some?
  {
    PeersAscend(nodes, links, name);
    NamesAreOrdered();
    forall p | p in PeersOf(links, name)
      ensures NodeByName(nodes, p).Some?
    {
      PermittedNodesExist(nodes, SortPair(name, p));
    }
  }

  /** The one entry a node has for the other end of a link. */
  predicate OnlyEntry(peers: seq<WGPeer>, name: string, i: nat) {
    i < |peers| && forall j :: 0 <= j < |peers| ==> (peers[j].name == name <==> j == i)
  }

  /** When all peers exist, there is one entry for each link. */
  lemma EntriesAre(nodes: seq<Node>, global: Global, links: seq<Link>, local: Node, ls: seq<Link>)
    requires forall l :: l in ls ==> NodeByName(nodes, l.PeerName(local.name)).Some?
    ensures |Entries(nodes, global, links, local, ls)| == |ls|
    ensures forall i :: 0 <= i < |ls| ==>
              Entries(nodes, global, links, local, ls)[i]
              == EntryOf(nodes, global, links, local, NodeByName(nodes, ls[i].PeerName(local.name)).value, ls[i])
  {
    CollectedAll(EntryFor(nodes, global, links, local), ls);
  }

  /** Entries come in the order of the peers they are named after. */
  lemma EntriesFollowPeers(nodes: seq<Node>, global: Global, links: seq<Link>, local: Node)
    requires forall p :: p in PeersOf(links, local.name) ==> NodeByName(nodes, p).Some?
    ensures var ls, names, entries := LinksForNode(links, local.name), PeersOf(links, local.name),
                                      EntriesOf(nodes, global, links, local);
            && |entries| == |names| == |ls|
            && forall i :: 0 <= i < |names| ==>
                 entries[i].name == names[i]
                 && entries[i] == EntryOf(nodes, global, links, local, NodeByName(nodes, names[i]).value, ls[i])
  {
    var names := PeersOf(links, local.name);
    PeersAreOfLinks(links, local.name);
    AllPeersFound(nodes, links, local.name);
    EntriesAre(nodes, global, links, local, LinksForNode(links, local.name));
    forall i | 0 <= i < |names|
      ensures NodeByName(nodes, names[i]).value.name == names[i]
    {
      LookupFindsAny(nodes, names[i]);
    }
  }

  lemma FindEntry(nodes: seq<Node>, global: Global, base: Ipv4, links: seq<Link>, l: Link, local: Node, remote: Node)
    returns (i: nat)
    requires ValidNodes(nodes) && IsMesh(nodes, true, base, links) && l in links
    requires local in nodes && remote in nodes && l.Joins(local.name) && l.PeerName(local.name) == remote.name
    ensures var peers := EntriesOf(nodes, global, links, local);
            OnlyEntry(peers, remote.name, i) && peers[i] == EntryOf(nodes, global, links, local, remote, l)
  {
    var names := PeersOf(links, local.name);
    MeshIsSound(nodes, base, links, local.name);
    PeersAreOfLinks(links, local.name);
    assert remote.name in names;
    i :| 0 <= i < |names| && names[i] == remote.name;
    NodeIsFound(nodes, remote);
    SameEndsSameLink(nodes, base, links, l, LinksForNode(links, local.name)[i], local.name);
    EntriesFollowPeers(nodes, global, links, local);
  }

  lemma AllPeersFound(nodes: seq<Node>, links: seq<Link>, name: string)
    requires forall p :: p in PeersOf(links, name) ==> NodeByName(nodes, p).Some?
    ensures forall l :: l in LinksForNode(links, name) ==> NodeByName(nodes, l.PeerName(name)).Some?
  {
    PeersAreOfLinks(links, name);
    forall l | l in LinksForNode(links, name)
      ensures NodeByName(nodes, l.PeerName(name)).Some?
    {
      var i :| 0 <= i < |LinksForNode(links, name)| && LinksForNode(links, name)[i] == l;
      assert PeersOf(links, name)[i] in PeersOf(links, name);
    }
  }

  lemma SameEndsSameLink(nodes: seq<Node>, base: Ipv4, links: seq<Link>, l: Link, l': Link, name: string)
    requires IsMesh(nodes, true, base, links) && l in links && l' in links
    requires l.Joins(name) && l'.Joins(name) && l.PeerName(name) == l'.PeerName(name)
    ensures l == l'
  {
    LinksAreOrdered(nodes, true, links);
    var i :| 0 <= i < |links| && links[i] == l;
    var j :| 0 <= j < |links| && links[j] == l';
    LessIsTotal(l.nodeA, l.nodeB);
    LessIsTotal(l'.nodeA, l'.nodeB);
    assert Ends(links)[i] == Ends(links)[j];
  }

  /**
   * Mirrored ends: each end of a link has exactly one entry for the other; each dials the port the
   * other listens on, their addresses are swapped, mode and penalty agree, and one of them can dial.
   */
  lemma {:induction false} MirroredEnds(nodes: seq<Node>, global: Global, base: Ipv4, links: seq<Link>, l: Link, a: Node, b: Node)
    returns (i: nat, j: nat)
    requires ValidNodes(nodes) && IsMesh(nodes, true, base, links) && l in links
    requires a in nodes && b in nodes && l.nodeA == a.name && l.nodeB == b.name
    ensures OnlyEntry(EntriesOf(nodes, global, links, a), b.name, i)
    ensures OnlyEntry(EntriesOf(nodes, global, links, b), a.name, j)
    ensures var toB, toA := EntriesOf(nodes, global, links, a)[i], EntriesOf(nodes, global, links, b)[j];
            && (!toB.endpoint.NoDial? ==> DialledPort(toB.endpoint) == toA.listenPort)
            && (!toA.endpoint.NoDial? ==> DialledPort(toA.endpoint) == toB.listenPort)
            && !(toB.endpoint.NoDial? && toA.endpoint.NoDial?)
            && toB.localIp.Some? && toB.peerIp.Some? && toB.localIp == toA.peerIp && toB.peerIp == toA.localIp
            && toB.fe80Id == toA.peerFe80Id && toB.peerFe80Id == toA.fe80Id
            && toB.mode == toA.mode && toB.bandwidthPenalty == toA.bandwidthPenalty
  {
    LinksAreOrdered(nodes, true, links);
    LessIsTotal(a.name, b.name);
    i := FindEntry(nodes, global, base, links, l, a, b);
    j := FindEntry(nodes, global, base, links, l, b, a);
    PenaltySymmetric(a, b, global);
    DialsThePort(b, a, PortOf(nodes, global, links, b.name, a.name));
    DialsThePort(a, b, PortOf(nodes, global, links, a.name, b.name));
    NodeIsFound(nodes, a);
    NodeIsFound(nodes, b);
    var k :| 0 <= k < |links| && links[k] == l;
    assert links[k] == FullLink(nodes, base, Ends(links)[k]);
    assert !Unreachable(nodes, (a.name, b.name));
  }
}
