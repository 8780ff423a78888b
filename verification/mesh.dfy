/** The overlay: which nodes are linked, how, and with which tunnel addresses. */
module Mesh {
  import opened Prelude
  import opened Ordering
  import opened Inventory
  import BE = BigEndian

  datatype LinkMode = Fe80 | V4LL

  type Ipv4 = a: seq<BE.byte> | |a| == 4 witness [0, 0, 0, 0]

  datatype Link = Link(nodeA: string, nodeB: string, mode: LinkMode, addrA: Option<Ipv4>, addrB: Option<Ipv4>) {
    function PeerName(self: string): string {
      if nodeA == self then nodeB else nodeA
    }

    function SelfAddr(self: string): Option<Ipv4> {
      if nodeA == self then addrA else addrB
    }

    function PeerAddr(self: string): Option<Ipv4> {
      if nodeA == self then addrB else addrA
    }

    predicate Joins(name: string) {
      nodeA == name || nodeB == name
    }
  }

  function NodeByName(nodes: seq<Node>, name: string): Option<Node> {
    var i := IndexOfName(nodes, name);
    if i == -1 then None else Some(nodes[i])
  }

  /** On a valid inventory looking up a node's name finds that node. */
  lemma NodeIsFound(nodes: seq<Node>, n: Node)
    requires ValidNodes(nodes) && n in nodes
    ensures NodeByName(nodes, n.name) == Some(n)
  {
    var i :| 0 <= i < |nodes| && nodes[i] == n;
    NamesIdentify(nodes, i, IndexOfName(nodes, n.name));
  }

  predicate HasEndpoint(n: Node) {
    !n.endpoint.ipv4.Unset? || !n.endpoint.ipv6.Unset? || n.endpoint.domain != ""
  }

  /** Neither node's peers_with rules the other out. */
  predicate Allowed(m: Node, n: Node) {
    (m.peersWith == [] || n.name in m.peersWith) && (n.peersWith == [] || m.name in n.peersWith)
  }

  function SortPair(a: string, b: string): Pair {
    if Less(b, a) then (b, a) else (a, b)
  }

  /** The pairs a full mesh has: two different nodes that allow each other, in order. */
  ghost predicate Permitted(nodes: seq<Node>, p: Pair) {
    Less(p.0, p.1) && exists m, n :: m in nodes && n in nodes && m.name == p.0 && n.name == p.1 && Allowed(m, n)
  }

  ghost predicate IsEnumeration(nodes: seq<Node>, full: bool, pairs: seq<Pair>) {
    Ascending(pairs, PairLess) && forall p :: p in pairs <==> full && Permitted(nodes, p)
  }

  type Constraints = map<string, set<string>>

  predicate PeerAllowed(a: string, b: string, constrained: Constraints) {
    (a in constrained ==> b in constrained[a]) && (b in constrained ==> a in constrained[b])
  }

  method Constrain(nodes: seq<Node>) returns (constrained: Constraints)
    requires ValidNodes(nodes)
    ensures forall m, n :: m in nodes && n in nodes ==> (PeerAllowed(m.name, n.name, constrained) <==> Allowed(m, n))
  {
    constrained := map[];
    for i := 0 to |nodes|
      invariant forall j :: 0 <= j < |nodes| ==>
                  (nodes[j].name in constrained <==> j < i && nodes[j].peersWith != [])
      invariant forall j :: 0 <= j < i && nodes[j].peersWith != [] ==>
                  constrained[nodes[j].name] == Elements(nodes[j].peersWith)
    {
      forall j | 0 <= j < |nodes| && nodes[j].name == nodes[i].name
        ensures j == i
      {
        NamesIdentify(nodes, i, j);
      }
      if nodes[i].peersWith != [] {
        constrained := constrained[nodes[i].name := Elements(nodes[i].peersWith)];
      }
    }
  }

  /** The pair that two positions in the inventory contribute. */
  predicate FromIndices(nodes: seq<Node>, p: Pair, x: nat, y: nat)
    requires x < |nodes| && y < |nodes|
  {
    p == SortPair(nodes[x].name, nodes[y].name) && Allowed(nodes[x], nodes[y])
  }

  ghost predicate FromRows(nodes: seq<Node>, p: Pair, rows: nat) {
    exists x, y :: 0 <= x < rows && x < y < |nodes| && FromIndices(nodes, p, x, y)
  }

  ghost predicate FromRow(nodes: seq<Node>, p: Pair, x: nat, columns: nat)
    requires x < |nodes|
  {
    exists y :: x < y < columns && y < |nodes| && FromIndices(nodes, p, x, y)
  }

  lemma RowGrows(nodes: seq<Node>, p: Pair, x: nat, columns: nat)
    requires x < columns < |nodes|
    ensures FromRow(nodes, p, x, columns + 1) <==> FromRow(nodes, p, x, columns) || FromIndices(nodes, p, x, columns)
  {
  }

  lemma RowsGrow(nodes: seq<Node>, p: Pair, rows: nat)
    requires rows < |nodes|
    ensures FromRows(nodes, p, rows + 1) <==> FromRows(nodes, p, rows) || FromRow(nodes, p, rows, |nodes|)
  {
  }

  lemma RowsCoverPermitted(nodes: seq<Node>, p: Pair)
    requires ValidNodes(nodes)
    ensures FromRows(nodes, p, |nodes|) <==> Permitted(nodes, p)
  {
    if FromRows(nodes, p, |nodes|) {
      var x, y :| 0 <= x < |nodes| && x < y < |nodes| && FromIndices(nodes, p, x, y);
      RowIsPermitted(nodes, p, x, y);
    }
    if Permitted(nodes, p) {
      PermittedIsRow(nodes, p);
    }
  }

  lemma RowIsPermitted(nodes: seq<Node>, p: Pair, x: nat, y: nat)
    requires ValidNodes(nodes) && x < y < |nodes| && FromIndices(nodes, p, x, y)
    ensures Permitted(nodes, p)
  {
    assert Compatible(nodes[x], nodes[y]);
    LessIsTotal(nodes[x].name, nodes[y].name);
    assert nodes[x] in nodes && nodes[y] in nodes;
  }

  lemma PermittedIsRow(nodes: seq<Node>, p: Pair)
    requires Permitted(nodes, p)
    ensures FromRows(nodes, p, |nodes|)
  {
    var m, n :| m in nodes && n in nodes && m.name == p.0 && n.name == p.1 && Allowed(m, n);
    var x :| 0 <= x < |nodes| && nodes[x] == m;
    var y :| 0 <= y < |nodes| && nodes[y] == n;
    LessIsTotal(p.0, p.1);
    assert FromIndices(nodes, p, x, y) && FromIndices(nodes, p, y, x);
  }

  /** All pairs the policy permits, ascending and each once. */
  method EnumeratePairs(nodes: seq<Node>, mode: string) returns (pairs: seq<Pair>)
    requires ValidNodes(nodes)
    ensures IsEnumeration(nodes, mode == "full", pairs)
  {
    var constrained := Constrain(nodes);
    var seen: set<Pair> := {};
    pairs := [];
    if mode == "full" {
      for i := 0 to |nodes|
        invariant Distinct(pairs) && seen == Elements(pairs)
        invariant forall p :: p in pairs <==> FromRows(nodes, p, i)
      {
        for j := i + 1 to |nodes|
          invariant Distinct(pairs) && seen == Elements(pairs)
          invariant forall p :: p in pairs <==> FromRows(nodes, p, i) || FromRow(nodes, p, i, j)
        {
          var pair := SortPair(nodes[i].name, nodes[j].name);
          assert nodes[i] in nodes && nodes[j] in nodes;
          forall p
            ensures FromRow(nodes, p, i, j + 1) <==> FromRow(nodes, p, i, j) || FromIndices(nodes, p, i, j)
          {
            RowGrows(nodes, p, i, j);
          }
          if pair in seen {
            continue;
          }
          if !PeerAllowed(pair.0, pair.1, constrained) {
            continue;
          }
          seen := seen + {pair};
          pairs := pairs + [pair];
        }
        forall p
          ensures FromRows(nodes, p, i + 1) <==> FromRows(nodes, p, i) || FromRow(nodes, p, i, |nodes|)
        {
          RowsGrow(nodes, p, i);
        }
      }
    }
    forall p
      ensures mode == "full" ==> (FromRows(nodes, p, |nodes|) <==> Permitted(nodes, p))
    {
      RowsCoverPermitted(nodes, p);
    }
    PairsAreOrdered();
    SortSorts(pairs, PairLess);
    pairs := Sort(pairs, PairLess);
  }

  /** There is only one enumeration, and it does not depend on the order of the inventory. */
  lemma EnumerationUnique(nodes: seq<Node>, nodes': seq<Node>, full: bool, pairs: seq<Pair>, pairs': seq<Pair>)
    requires IsEnumeration(nodes, full, pairs) && IsEnumeration(nodes', full, pairs')
    requires forall n :: n in nodes <==> n in nodes'
    ensures pairs == pairs'
  {
    forall p
      ensures Permitted(nodes, p) <==> Permitted(nodes', p)
    {
    }
    PairsAreOrdered();
    AscendingUnique(pairs, pairs', PairLess);
  }

  // ---------------------------------------------------------------- links

  /** Both ends exist and neither can be dialled. */
  predicate Unreachable(nodes: seq<Node>, p: Pair) {
    var a, b := NodeByName(nodes, p.0), NodeByName(nodes, p.1);
    a.Some? && b.Some? && !HasEndpoint(a.value) && !HasEndpoint(b.value)
  }

  function ModeOf(nodes: seq<Node>, p: Pair): LinkMode {
    var a, b := NodeByName(nodes, p.0), NodeByName(nodes, p.1);
    if a.Some? && b.Some? && a.value.kind.Linux? && b.value.kind.Linux? then Fe80 else V4LL
  }

  /** Fe80 is for two Linux nodes, V4LL for all other links. */
  lemma ModeIsFe80Iff(nodes: seq<Node>, full: bool, base: Ipv4, links: seq<Link>, l: Link, a: Node, b: Node)
    requires ValidNodes(nodes) && IsMesh(nodes, full, base, links) && l in links
    requires a in nodes && b in nodes && l.nodeA == a.name && l.nodeB == b.name
    ensures l.mode == Fe80 <==> a.kind == Linux && b.kind == Linux
    ensures l.mode == V4LL <==> a.kind != Linux || b.kind != Linux
  {
    var i :| 0 <= i < |links| && links[i] == l;
    NodeIsFound(nodes, a);
    NodeIsFound(nodes, b);
    assert links[i] == FullLink(nodes, base, Ends(links)[i]);
  }

  function BareLink(nodes: seq<Node>, p: Pair): Link {
    Link(p.0, p.1, ModeOf(nodes, p), None, None)
  }

  function Ends(links: seq<Link>): seq<Pair> {
    seq(|links|, i requires 0 <= i < |links| => (links[i].nodeA, links[i].nodeB))
  }

  datatype LinksResult = Links(links: seq<Link>) | NoEndpoint(pair: Pair)

  /** One link for each pair, or the first pair that nobody can dial. */
  method ComputeLinks(nodes: seq<Node>, mode: string) returns (r: LinksResult)
    requires ValidNodes(nodes)
    ensures match r
            case Links(links) =>
              && IsEnumeration(nodes, mode == "full", Ends(links))
              && (forall i :: 0 <= i < |links| ==> links[i] == BareLink(nodes, Ends(links)[i]))
              && (forall p :: mode == "full" && Permitted(nodes, p) ==> !Unreachable(nodes, p))
            case NoEndpoint(p) =>
              mode == "full" && Permitted(nodes, p) && Unreachable(nodes, p)
              && forall q :: Permitted(nodes, q) && PairLess(q, p) ==> !Unreachable(nodes, q)
  {
    var pairs := EnumeratePairs(nodes, mode);
    var links: seq<Link> := [];
    for i := 0 to |pairs|
      invariant |links| == i
      invariant forall j :: 0 <= j < i ==> links[j] == BareLink(nodes, pairs[j]) && !Unreachable(nodes, pairs[j])
    {
      var p := pairs[i];
      assert p in pairs;
      PermittedNodesExist(nodes, p);
      var a, b := NodeByName(nodes, p.0).value, NodeByName(nodes, p.1).value;
      if !HasEndpoint(a) && !HasEndpoint(b) {
        FirstUnreachable(nodes, pairs, i);
        return NoEndpoint(p);
      }
      links := links + [Link(p.0, p.1, if a.kind.Linux? && b.kind.Linux? then Fe80 else V4LL, None, None)];
    }
    assert Ends(links) == pairs;
    return Links(links);
  }

  lemma PermittedNodesExist(nodes: seq<Node>, p: Pair)
    requires ValidNodes(nodes) && Permitted(nodes, p)
    ensures NodeByName(nodes, p.0).Some? && NodeByName(nodes, p.1).Some? && p.0 != p.1
    ensures Allowed(NodeByName(nodes, p.0).value, NodeByName(nodes, p.1).value)
  {
    var m, n :| m in nodes && n in nodes && m.name == p.0 && n.name == p.1 && Allowed(m, n);
    NodeIsFound(nodes, m);
    NodeIsFound(nodes, n);
    LessIsTotal(p.0, p.1);
  }

  lemma FirstUnreachable(nodes: seq<Node>, pairs: seq<Pair>, i: nat)
    requires IsEnumeration(nodes, true, pairs) && i < |pairs|
    requires forall j :: 0 <= j < i ==> !Unreachable(nodes, pairs[j])
    ensures forall q :: Permitted(nodes, q) && PairLess(q, pairs[i]) ==> !Unreachable(nodes, q)
  {
    PairsAreOrdered();
    forall q | Permitted(nodes, q) && PairLess(q, pairs[i])
      ensures !Unreachable(nodes, q)
    {
      assert q in pairs;
      var j :| 0 <= j < |pairs| && pairs[j] == q;
    }
  }

  // ---------------------------------------------------------------- addresses

  /** base + id, in 32 bits. */
  function NodeAddr(base: Ipv4, nodeId: int): Ipv4 {
    BE.Encode((BE.Decode(base) + nodeId % TWO_TO_THE_32) % TWO_TO_THE_32, 4)
  }

  lemma ReduceOnce(x: int)
    requires 0 <= x < 2 * TWO_TO_THE_32
    ensures x % TWO_TO_THE_32 == if x < TWO_TO_THE_32 then x else x - TWO_TO_THE_32
  {
  }

  /** Ids that differ within 32 bits give addresses that differ. */
  lemma AddressesDistinct(base: Ipv4, i: int, j: int)
    requires 0 <= i < TWO_TO_THE_32 && 0 <= j < TWO_TO_THE_32
    ensures NodeAddr(base, i) == NodeAddr(base, j) <==> i == j
  {
    AddressValue(base, i);
    AddressValue(base, j);
    ReduceOnce(BE.Decode(base) + i);
    ReduceOnce(BE.Decode(base) + j);
  }

  lemma AddressValue(base: Ipv4, i: int)
    requires 0 <= i < TWO_TO_THE_32
    ensures BE.Decode(base) < TWO_TO_THE_32
    ensures BE.Decode(NodeAddr(base, i)) == (BE.Decode(base) + i) % TWO_TO_THE_32
  {
    BE.ValuesOfWords();
    ReduceOnce(i);
    BE.DecodeEncode((BE.Decode(base) + i) % TWO_TO_THE_32, 4);
  }

  /** As long as nothing carries only the last byte is raised, by the id. */
  lemma {:induction false} AddressLastByte(base: Ipv4, id: nat)
    requires base[3] + id < 256
    ensures NodeAddr(base, id) == [base[0], base[1], base[2], base[3] + id]
  {
    var raised: Ipv4 := [base[0], base[1], base[2], base[3] + id];
    BE.ValuesOfWords();
    assert base[..3] == raised[..3];
    assert BE.Decode(raised) == BE.Decode(base) + id;
    ReduceOnce(BE.Decode(base) + id);
    BE.EncodeDecode(raised);
  }

  /** Node 2 in 169.254.0.0 is 169.254.0.2, and the carry goes into the byte before. */
  lemma {:induction false} AddressExamples()
    ensures NodeAddr([169, 254, 0, 0], 2) == [169, 254, 0, 2]
    ensures NodeAddr([169, 254, 0, 0], 300) == [169, 254, 1, 44]
  {
    AddressLastByte([169, 254, 0, 0], 2);
    AddressValue([169, 254, 0, 0], 300);
    DecodeFour(169, 254, 0, 0);
    DecodeFour(169, 254, 1, 44);
    ReduceOnce(BE.Decode([169, 254, 0, 0]) + 300);
    BE.EncodeDecode(NodeAddr([169, 254, 0, 0], 300));
    BE.EncodeDecode([169, 254, 1, 44]);
  }

  lemma DecodeFour(a: BE.byte, b: BE.byte, c: BE.byte, d: BE.byte)
    ensures BE.Decode([a, b, c, d]) == 0x100_0000 * a + 0x1_0000 * b + 0x100 * c + d
  {
    assert [a, b, c, d][..3] == [a, b, c] && [a, b, c][..2] == [a, b] && [a, b][..1] == [a] && [a][..0] == [];
    assert BE.Decode([a]) == a;
    assert BE.Decode([a, b]) == 0x100 * a + b;
    assert BE.Decode([a, b, c]) == 0x1_0000 * a + 0x100 * b + c;
  }

  function AddrOf(nodes: seq<Node>, base: Ipv4, name: string): Option<Ipv4> {
    var n := NodeByName(nodes, name);
    if n.Some? then Some(NodeAddr(base, n.value.nodeId)) else None
  }

  /** A link with the addresses of its ends: the same for a node on every one of its links. */
  function FullLink(nodes: seq<Node>, base: Ipv4, p: Pair): Link {
    BareLink(nodes, p).(addrA := AddrOf(nodes, base, p.0), addrB := AddrOf(nodes, base, p.1))
  }

  datatype AddressError = InvalidRange | NodeNotFound(i: nat)

  /** Fills in the addresses in place; links before the first unknown node are already filled in then. */
  method AssignAddresses(links: array<Link>, nodes: seq<Node>, range: Option<Ipv4>) returns (err: Option<AddressError>)
    modifies links
    ensures range.None? ==> err == Some(InvalidRange) && links[..] == old(links[..])
    ensures range.Some? && err.None? ==> forall i :: 0 <= i < links.Length ==>
              var l := old(links[i]);
              && links[i] == l.(addrA := AddrOf(nodes, range.value, l.nodeA), addrB := AddrOf(nodes, range.value, l.nodeB))
              && links[i].addrA.Some? && links[i].addrB.Some?
    ensures range.Some? && err.Some? ==>
              && err.value.NodeNotFound? && err.value.i < links.Length
              && (var l := old(links[err.value.i]);
                  NodeByName(nodes, l.nodeA).None? || NodeByName(nodes, l.nodeB).None?)
              && (forall j :: err.value.i <= j < links.Length ==> links[j] == old(links[j]))
              && (forall j :: 0 <= j < err.value.i ==>
                    var l := old(links[j]);
                    && links[j] == l.(addrA := AddrOf(nodes, range.value, l.nodeA), addrB := AddrOf(nodes, range.value, l.nodeB))
                    && links[j].addrA.Some? && links[j].addrB.Some?)
  {
    if range.None? {
      return Some(InvalidRange);
    }
    for i := 0 to links.Length
      invariant forall j :: i <= j < links.Length ==> links[j] == old(links[j])
      invariant forall j :: 0 <= j < i ==>
                  var l := old(links[j]);
                  && links[j] == l.(addrA := AddrOf(nodes, range.value, l.nodeA), addrB := AddrOf(nodes, range.value, l.nodeB))
                  && links[j].addrA.Some? && links[j].addrB.Some?
    {
      var nodeA, nodeB := NodeByName(nodes, links[i].nodeA), NodeByName(nodes, links[i].nodeB);
      if nodeA.None? || nodeB.None? {
        return Some(NodeNotFound(i));
      }
      var addrA, addrB := NodeAddr(range.value, nodeA.value.nodeId), NodeAddr(range.value, nodeB.value.nodeId);
      links[i] := links[i].(addrA := Some(addrA));
      links[i] := links[i].(addrB := Some(addrB));
    }
    return None;
  }

  /** The links of an inventory, computed and addressed. */
  ghost predicate IsMesh(nodes: seq<Node>, full: bool, base: Ipv4, links: seq<Link>) {
    && IsEnumeration(nodes, full, Ends(links))
    && (forall i :: 0 <= i < |links| ==> links[i] == FullLink(nodes, base, Ends(links)[i]))
    && (forall p :: full && Permitted(nodes, p) ==> !Unreachable(nodes, p))
  }

  /** The mesh can be built: the range is one, and of every permitted pair one end can be dialled. */
  ghost predicate Buildable(nodes: seq<Node>, full: bool, range: Option<Ipv4>) {
    range.Some? && forall p :: full && Permitted(nodes, p) ==> !Unreachable(nodes, p)
  }

  /** Both steps in a row: an inventory's mesh, or an error. */
  method BuildMesh(nodes: seq<Node>, mode: string, range: Option<Ipv4>) returns (ok: bool, links: seq<Link>)
    requires ValidNodes(nodes)
    ensures ok ==> range.Some? && IsMesh(nodes, mode == "full", range.value, links)
    ensures ok <==> Buildable(nodes, mode == "full", range)
  {
    var r := ComputeLinks(nodes, mode);
    if r.NoEndpoint? {
      return false, [];
    }
    var bare := r.links;
    var a := new Link[|bare|](i requires 0 <= i < |bare| => bare[i]);
    assert forall i :: 0 <= i < |bare| ==> a[i] == bare[i];
    forall i | 0 <= i < |bare|
      ensures NodeByName(nodes, bare[i].nodeA).Some? && NodeByName(nodes, bare[i].nodeB).Some?
    {
      assert Ends(bare)[i] in Ends(bare);
      PermittedNodesExist(nodes, Ends(bare)[i]);
    }
    var err := AssignAddresses(a, nodes, range);
    if err.Some? {
      return false, [];
    }
    links := a[..];
    assert Ends(links) == Ends(bare);
    ok := true;
  }

  /** The mesh does not depend on the order of the inventory, either. */
  lemma MeshIgnoresOrder(nodes: seq<Node>, nodes': seq<Node>, full: bool, base: Ipv4, links: seq<Link>, links': seq<Link>)
    requires ValidNodes(nodes) && ValidNodes(nodes') && forall n :: n in nodes <==> n in nodes'
    requires IsMesh(nodes, full, base, links) && IsMesh(nodes', full, base, links')
    ensures links == links'
  {
    EnumerationUnique(nodes, nodes', full, Ends(links), Ends(links'));
    assert |links| == |Ends(links)| == |links'|;
    forall i | 0 <= i < |links|
      ensures links[i] == links'[i]
    {
      LookupIgnoresOrder(nodes, nodes', links[i].nodeA);
      LookupIgnoresOrder(nodes, nodes', links[i].nodeB);
    }
  }

  /** One mesh serves both orders, so that building succeeds for one if and only if it does for the other. */
  lemma {:induction false} MeshOfBoth(nodes: seq<Node>, nodes': seq<Node>, full: bool, base: Ipv4, links: seq<Link>)
    requires ValidNodes(nodes) && ValidNodes(nodes') && forall n :: n in nodes <==> n in nodes'
    requires IsMesh(nodes, full, base, links)
    ensures IsMesh(nodes', full, base, links)
  {
    EnumerationOfBoth(nodes, nodes', full, Ends(links));
    forall i | 0 <= i < |links|
      ensures links[i] == FullLink(nodes', base, Ends(links)[i])
    {
      LookupIgnoresOrder(nodes, nodes', links[i].nodeA);
      LookupIgnoresOrder(nodes, nodes', links[i].nodeB);
    }
    BuildableIgnoresOrder(nodes, nodes', full, Some(base));
  }

  lemma EnumerationOfBoth(nodes: seq<Node>, nodes': seq<Node>, full: bool, pairs: seq<Pair>)
    requires IsEnumeration(nodes, full, pairs) && forall n :: n in nodes <==> n in nodes'
    ensures IsEnumeration(nodes', full, pairs)
  {
    forall p
      ensures Permitted(nodes, p) <==> Permitted(nodes', p)
    {
    }
  }

  lemma {:induction false} BuildableIgnoresOrder(nodes: seq<Node>, nodes': seq<Node>, full: bool, range: Option<Ipv4>)
    requires ValidNodes(nodes) && ValidNodes(nodes') && forall n :: n in nodes <==> n in nodes'
    ensures Buildable(nodes, full, range) <==> Buildable(nodes', full, range)
  {
    forall p
      ensures Permitted(nodes, p) <==> Permitted(nodes', p)
      ensures Unreachable(nodes, p) <==> Unreachable(nodes', p)
    {
      LookupIgnoresOrder(nodes, nodes', p.0);
      LookupIgnoresOrder(nodes, nodes', p.1);
    }
  }

  lemma LookupIgnoresOrder(nodes: seq<Node>, nodes': seq<Node>, name: string)
    requires ValidNodes(nodes) && ValidNodes(nodes') && forall n :: n in nodes <==> n in nodes'
    ensures NodeByName(nodes, name) == NodeByName(nodes', name)
  {
    LookupFindsAny(nodes, name);
    LookupFindsAny(nodes', name);
    if NodeByName(nodes, name).Some? {
      NodeIsFound(nodes', NodeByName(nodes, name).value);
    }
  }

  lemma LookupFindsAny(nodes: seq<Node>, name: string)
    ensures NodeByName(nodes, name).Some? <==> exists n :: n in nodes && n.name == name
    ensures NodeByName(nodes, name).Some? ==> NodeByName(nodes, name).value in nodes
  {
    var i := IndexOfName(nodes, name);
    if 0 <= i {
      assert nodes[i] in nodes;
    }
  }

  // ---------------------------------------------------------------- one node's links

  function LinksForNode(links: seq<Link>, name: string): seq<Link> {
    if links == [] then []
    else if links[0].Joins(name) then [links[0]] + LinksForNode(links[1..], name)
    else LinksForNode(links[1..], name)
  }

  function PeersOf(links: seq<Link>, name: string): seq<string> {
    if links == [] then []
    else if links[0].Joins(name) then [links[0].PeerName(name)] + PeersOf(links[1..], name)
    else PeersOf(links[1..], name)
  }

  lemma {:induction false} PeersAreOfLinks(links: seq<Link>, name: string)
    ensures |PeersOf(links, name)| == |LinksForNode(links, name)|
    ensures forall i :: 0 <= i < |LinksForNode(links, name)| ==>
              var l := LinksForNode(links, name)[i];
              l in links && l.Joins(name) && PeersOf(links, name)[i] == l.PeerName(name)
    ensures forall l :: l in links && l.Joins(name) ==> l.PeerName(name) in PeersOf(links, name)
  {
    if links != [] {
      PeersAreOfLinks(links[1..], name);
      assert links == [links[0]] + links[1..];
    }
  }

  /** Of two links of one node the earlier has the earlier peer. */
  lemma PairOrderIsPeerOrder(l: Link, l': Link, name: string)
    requires Less(l.nodeA, l.nodeB) && Less(l'.nodeA, l'.nodeB) && l.Joins(name) && l'.Joins(name)
    requires PairLess((l.nodeA, l.nodeB), (l'.nodeA, l'.nodeB))
    ensures Less(l.PeerName(name), l'.PeerName(name))
  {
    NamesAreOrdered();
  }

  /** A node's peers come once each, in strictly increasing order, and are the permitted ones. */
  lemma PeersAscend(nodes: seq<Node>, links: seq<Link>, name: string)
    requires IsEnumeration(nodes, true, Ends(links))
    ensures Ascending(PeersOf(links, name), Less)
    ensures forall x :: x in PeersOf(links, name) <==>
              name != x && Permitted(nodes, SortPair(name, x))
  {
    LinksAreOrdered(nodes, true, links);
    PeersAscendFrom(links, name);
    forall x
      ensures x in PeersOf(links, name) <==> name != x && Permitted(nodes, SortPair(name, x))
    {
      PeerIffPermitted(nodes, links, name, x);
    }
  }

  lemma PeerIffPermitted(nodes: seq<Node>, links: seq<Link>, name: string, x: string)
    requires IsEnumeration(nodes, true, Ends(links))
    ensures x in PeersOf(links, name) <==> name != x && Permitted(nodes, SortPair(name, x))
  {
    if x in PeersOf(links, name) {
      PeerIsPermitted(nodes, links, name, x);
    }
    if name != x && Permitted(nodes, SortPair(name, x)) {
      PermittedIsPeer(nodes, links, name, x);
    }
  }

  lemma PermittedIsPeer(nodes: seq<Node>, links: seq<Link>, name: string, x: string)
    requires IsEnumeration(nodes, true, Ends(links)) && name != x && Permitted(nodes, SortPair(name, x))
    ensures x in PeersOf(links, name)
  {
    assert SortPair(name, x) in Ends(links);
    var i :| 0 <= i < |links| && Ends(links)[i] == SortPair(name, x);
    assert links[i] in links && links[i].Joins(name) && links[i].PeerName(name) == x;
    PeersAreOfLinks(links, name);
  }

  lemma PeerIsPermitted(nodes: seq<Node>, links: seq<Link>, name: string, x: string)
    requires IsEnumeration(nodes, true, Ends(links)) && x in PeersOf(links, name)
    ensures name != x && Permitted(nodes, SortPair(name, x))
  {
    PeersAreOfLinks(links, name);
    var i :| 0 <= i < |PeersOf(links, name)| && PeersOf(links, name)[i] == x;
    var l := LinksForNode(links, name)[i];
    var k :| 0 <= k < |links| && links[k] == l;
    LinksAreOrdered(nodes, true, links);
    LessIsTotal(l.nodeA, l.nodeB);
  }

  /**
   * In full mode two nodes are linked exactly if they are different and neither restricts its peers to
   * others: a node without peers_with takes anyone, one with it those named.
   */
  lemma {:induction false} LinkedIff(nodes: seq<Node>, links: seq<Link>, a: Node, b: Node)
    requires ValidNodes(nodes) && IsEnumeration(nodes, true, Ends(links)) && a in nodes && b in nodes
    ensures b.name in PeersOf(links, a.name)
            <==> a != b && (a.peersWith != [] ==> b.name in a.peersWith) && (b.peersWith != [] ==> a.name in b.peersWith)
  {
    PeerIffPermitted(nodes, links, a.name, b.name);
    LessIsTotal(a.name, b.name);
    forall n | n in nodes
      ensures (n.name == a.name ==> n == a) && (n.name == b.name ==> n == b)
    {
      NodeIsFound(nodes, n);
      NodeIsFound(nodes, a);
      NodeIsFound(nodes, b);
    }
  }

  lemma LinksAreOrdered(nodes: seq<Node>, full: bool, links: seq<Link>)
    requires IsEnumeration(nodes, full, Ends(links))
    ensures forall i :: 0 <= i < |links| ==>
              Less(links[i].nodeA, links[i].nodeB) && Permitted(nodes, (links[i].nodeA, links[i].nodeB))
  {
    forall i | 0 <= i < |links|
      ensures Permitted(nodes, (links[i].nodeA, links[i].nodeB))
    {
      assert Ends(links)[i] in Ends(links);
    }
  }

  lemma {:induction false} PeersAscendFrom(links: seq<Link>, name: string)
    requires Ascending(Ends(links), PairLess) && forall i :: 0 <= i < |links| ==> Less(links[i].nodeA, links[i].nodeB)
    ensures Ascending(PeersOf(links, name), Less)
  {
    if links != [] {
      var rest := links[1..];
      assert forall i :: 0 <= i < |rest| ==> Ends(rest)[i] == Ends(links)[i + 1];
      PeersAscendFrom(rest, name);
      PeersAreOfLinks(rest, name);
      if links[0].Joins(name) {
        forall k | 0 <= k < |PeersOf(rest, name)|
          ensures Less(links[0].PeerName(name), PeersOf(rest, name)[k])
        {
          var l := LinksForNode(rest, name)[k];
          var m :| 0 <= m < |rest| && rest[m] == l;
          assert PairLess(Ends(links)[0], Ends(links)[m + 1]);
          PairOrderIsPeerOrder(links[0], l, name);
        }
      }
    }
  }

  // ---------------------------------------------------------------- degrees

  function DegreeSum(names: seq<string>, links: seq<Link>): nat {
    if names == [] then 0 else |LinksForNode(links, names[0])| + DegreeSum(names[1..], links)
  }

  /** Every link counts once at each end: over all names the degrees add up to twice the links. */
  lemma {:induction false} DegreesAddUp(names: seq<string>, links: seq<Link>)
    requires Distinct(names)
    requires forall l :: l in links ==> l.nodeA in names && l.nodeB in names && l.nodeA != l.nodeB
    ensures DegreeSum(names, links) == 2 * |links|
    decreases |links|
  {
    if links == [] {
      NoDegrees(names);
    } else {
      assert links == [links[0]] + links[1..];
      DegreesAddUp(names, links[1..]);
      OneMoreLink(names, links);
    }
  }

  lemma {:induction false} NoDegrees(names: seq<string>)
    ensures DegreeSum(names, []) == 0
  {
    if names != [] {
      NoDegrees(names[1..]);
    }
  }

  lemma {:induction false} OneMoreLink(names: seq<string>, links: seq<Link>)
    requires links != [] && Distinct(names) && links[0].nodeA != links[0].nodeB
    ensures DegreeSum(names, links) == DegreeSum(names, links[1..])
            + (if links[0].nodeA in names then 1 else 0) + (if links[0].nodeB in names then 1 else 0)
    decreases |names|
  {
    if names != [] {
      assert names == [names[0]] + names[1..];
      OneMoreLink(names[1..], links);
    }
  }

  function NamesOf(nodes: seq<Node>): seq<string> {
    seq(|nodes|, i requires 0 <= i < |nodes| => nodes[i].name)
  }

  lemma NamesOfDistinct(nodes: seq<Node>)
    requires ValidNodes(nodes)
    ensures Distinct(NamesOf(nodes))
    ensures forall n :: n in nodes ==> n.name in NamesOf(nodes)
  {
    forall i, j | 0 <= i < j < |nodes|
      ensures nodes[i].name != nodes[j].name
    {
      assert Compatible(nodes[i], nodes[j]);
    }
    forall n | n in nodes
      ensures n.name in NamesOf(nodes)
    {
      var i :| 0 <= i < |nodes| && nodes[i] == n;
      assert NamesOf(nodes)[i] == n.name;
    }
  }

  lemma EndsAreNodes(nodes: seq<Node>, full: bool, links: seq<Link>, l: Link)
    requires IsEnumeration(nodes, full, Ends(links)) && l in links
    ensures l.nodeA != l.nodeB
    ensures exists m, n :: m in nodes && n in nodes && m.name == l.nodeA && n.name == l.nodeB
  {
    LinksAreOrdered(nodes, full, links);
    LessIsTotal(l.nodeA, l.nodeB);
  }

  lemma {:induction false} MeshDegrees(nodes: seq<Node>, full: bool, links: seq<Link>)
    requires ValidNodes(nodes) && IsEnumeration(nodes, full, Ends(links))
    ensures DegreeSum(NamesOf(nodes), links) == 2 * |links|
  {
    NamesOfDistinct(nodes);
    forall l | l in links
      ensures l.nodeA in NamesOf(nodes) && l.nodeB in NamesOf(nodes) && l.nodeA != l.nodeB
    {
      EndsAreNodes(nodes, full, links, l);
    }
    DegreesAddUp(NamesOf(nodes), links);
  }
}
