/** The node inventory: validation, and the assignment of node ids. */
module Inventory {
  import opened Prelude
  import opened Ordering
  import opened Allocator

  /** An address field together with what parsing its text yields. */
  datatype Address = Unset | Parsed(text: string) | Malformed(text: string) {
    function Text(): string {
      if Unset? then "" else text
    }
  }

  datatype NodeType = Linux | RouterOS | Static | OtherType

  datatype CostMode = DefaultMode | ProbeMode | StaticMode | OtherMode

  datatype Endpoint = Endpoint(ipv4: Address, ipv6: Address, domain: string)

  /** A configured source address: one of either family, or no address (an interface, "auto", nothing). */
  datatype Source = NoAddress(text: string) | SourceV4 | SourceV6

  datatype Underlay = Underlay(prefsrc4: Source, prefsrc6: Source)

  datatype Node = Node(name: string, kind: NodeType, endpoint: Endpoint, loopback: Address, pubKey: string,
                       peersWith: seq<string>, wgListenPort: int, nodeId: int, wgPeerPort: int,
                       bandwidth: int, costMode: CostMode, staticCost: Option<uint32>,
                       ifaceOverride: map<string, string>, unmanaged: bool, underlay: Option<Underlay>)

  datatype NodeError =
    | NameRequired | InvalidName | DuplicateName | InvalidType | BadEndpoint | LoopbackRequired | BadLoopback
    | DuplicateLoopback | PubKeyRequired | NegativeBandwidth | InvalidCostMode | StaticCostRequired
    | PeerPortConflict | BadSource4 | BadSource6 | NegativeId | IdConflict

  datatype ConfigError = NoNodes | AtNode(i: nat, error: NodeError)

  predicate IsLetter(c: char) {
    'a' <= c <= 'z' || 'A' <= c <= 'Z'
  }

  predicate IsNameChar(c: char) {
    IsLetter(c) || '0' <= c <= '9' || c == '-' || c == '_' || c == ',' || c == '.'
  }

  predicate IsValidNodeName(name: string) {
    0 < |name| <= 63 && IsLetter(name[0]) && forall c :: c in name ==> IsNameChar(c)
  }

  const LOWER := "abcdefghijklmnopqrstuvwxyz"
  const UPPER := "ABCDEFGHIJKLMNOPQRSTUVWXYZ"

  /** A name is up to 63 letters, digits and -_,. of which the first is a letter. */
  lemma {:induction false} NameRule(name: string)
    ensures IsValidNodeName(name) <==> 1 <= |name| <= 63 && name[0] in LOWER + UPPER
                                       && forall c :: c in name ==> c in LOWER + UPPER + "0123456789-_,."
  {
    forall c: char
      ensures c in LOWER + UPPER <==> IsLetter(c)
      ensures c in LOWER + UPPER + "0123456789-_,." <==> IsNameChar(c)
    {
      InLower(c);
      InUpper(c);
      InOthers(c);
    }
  }

  lemma InLower(c: char)
    ensures c in LOWER <==> 'a' <= c <= 'z'
  {
    if 'a' <= c <= 'z' {
      assert LOWER[c as int - 'a' as int] == c;
    }
  }

  lemma InUpper(c: char)
    ensures c in UPPER <==> 'A' <= c <= 'Z'
  {
    if 'A' <= c <= 'Z' {
      assert UPPER[c as int - 'A' as int] == c;
    }
  }

  lemma InOthers(c: char)
    ensures c in "0123456789-_,." <==> IsNameChar(c) && !IsLetter(c)
  {
    if '0' <= c <= '9' {
      assert "0123456789-_,."[c as int - '0' as int] == c;
    } else if c == '-' || c == '_' || c == ',' || c == '.' {
      var k := if c == '-' then 10 else if c == '_' then 11 else if c == ',' then 12 else 13;
      assert "0123456789-_,."[k] == c;
    }
  }

  /** The first thing wrong with node i, in the order of the checks. */
  function Complaint(nodes: seq<Node>, i: nat): Option<NodeError>
    requires i < |nodes|
  {
    var n := nodes[i];
    if n.name == "" then Some(NameRequired)
    else if !IsValidNodeName(n.name) then Some(InvalidName)
    else if exists j :: 0 <= j < i && nodes[j].name == n.name then Some(DuplicateName)
    else if n.kind.OtherType? then Some(InvalidType)
    else if n.endpoint.ipv4.Malformed? || n.endpoint.ipv6.Malformed? then Some(BadEndpoint)
    else if n.loopback.Unset? then Some(LoopbackRequired)
    else if n.loopback.Malformed? then Some(BadLoopback)
    else if exists j :: 0 <= j < i && nodes[j].loopback.Text() == n.loopback.Text() then Some(DuplicateLoopback)
    else if n.pubKey == "" then Some(PubKeyRequired)
    else if n.bandwidth < 0 then Some(NegativeBandwidth)
    else if n.costMode.OtherMode? then Some(InvalidCostMode)
    else if n.costMode.StaticMode? && n.staticCost.None? then Some(StaticCostRequired)
    else if n.wgPeerPort != 0 && exists j :: 0 <= j < i && nodes[j].wgPeerPort == n.wgPeerPort then
      Some(PeerPortConflict)
    else if n.underlay.Some? && n.underlay.value.prefsrc4.SourceV6? then Some(BadSource4)
    else if n.underlay.Some? && n.underlay.value.prefsrc6.SourceV4? then Some(BadSource6)
    else None
  }

  /** What is wrong with the id of node i; ids are looked at only once all nodes passed. */
  function IdComplaint(nodes: seq<Node>, i: nat): Option<NodeError>
    requires i < |nodes|
  {
    if nodes[i].nodeId < 0 then Some(NegativeId)
    else if 0 < nodes[i].nodeId && exists j :: 0 <= j < i && nodes[j].nodeId == nodes[i].nodeId then Some(IdConflict)
    else None
  }

  /** What a complaint says is the matter with the node. */
  lemma ComplaintIsTrue(nodes: seq<Node>, i: nat)
    requires i < |nodes| && Complaint(nodes, i).Some?
    ensures var n := nodes[i];
            match Complaint(nodes, i).value
            case NameRequired => n.name == ""
            case InvalidName => n.name != "" && !IsValidNodeName(n.name)
            case DuplicateName => exists j :: 0 <= j < i && nodes[j].name == n.name
            case InvalidType => n.kind != Linux && n.kind != RouterOS && n.kind != Static
            case BadEndpoint => n.endpoint.ipv4.Malformed? || n.endpoint.ipv6.Malformed?
            case LoopbackRequired => n.loopback == Unset
            case BadLoopback => n.loopback.Malformed?
            case DuplicateLoopback => exists j :: 0 <= j < i && nodes[j].loopback.Text() == n.loopback.text
            case PubKeyRequired => n.pubKey == ""
            case NegativeBandwidth => n.bandwidth < 0
            case InvalidCostMode => n.costMode != DefaultMode && n.costMode != ProbeMode && n.costMode != StaticMode
            case StaticCostRequired => n.costMode == StaticMode && n.staticCost == None
            case PeerPortConflict => n.wgPeerPort != 0 && exists j :: 0 <= j < i && nodes[j].wgPeerPort == n.wgPeerPort
            case BadSource4 => n.underlay.Some? && n.underlay.value.prefsrc4 == SourceV6
            case BadSource6 => n.underlay.Some? && n.underlay.value.prefsrc6 == SourceV4
            case NegativeId => false
            case IdConflict => false
  {
  }

  /** A node that is fine by itself. */
  predicate WellFormed(n: Node) {
    && IsValidNodeName(n.name) && !n.kind.OtherType?
    && !n.endpoint.ipv4.Malformed? && !n.endpoint.ipv6.Malformed?
    && n.loopback.Parsed? && n.pubKey != "" && 0 <= n.bandwidth
    && !n.costMode.OtherMode? && (n.costMode.StaticMode? ==> n.staticCost.Some?)
    && 0 <= n.nodeId
    && (n.underlay.Some? ==> !n.underlay.value.prefsrc4.SourceV6? && !n.underlay.value.prefsrc6.SourceV4?)
  }

  /** Two nodes that get along. */
  predicate Compatible(m: Node, n: Node) {
    && m.name != n.name && m.loopback.Text() != n.loopback.Text()
    && (m.wgPeerPort == n.wgPeerPort ==> m.wgPeerPort == 0)
    && (m.nodeId == n.nodeId ==> m.nodeId == 0)
  }

  /** What validation promises of the inventories it lets through. */
  ghost predicate ValidNodes(nodes: seq<Node>) {
    && nodes != []
    && (forall n :: n in nodes ==> WellFormed(n))
    && (forall i, j :: 0 <= i < j < |nodes| ==> Compatible(nodes[i], nodes[j]))
  }

  lemma UncomplainingIsValid(nodes: seq<Node>)
    requires nodes != []
    ensures ValidNodes(nodes) <==>
            forall i :: 0 <= i < |nodes| ==> Complaint(nodes, i).None? && IdComplaint(nodes, i).None?
  {
    if forall i :: 0 <= i < |nodes| ==> Complaint(nodes, i).None? && IdComplaint(nodes, i).None? {
      forall i, j | 0 <= i < j < |nodes|
        ensures Compatible(nodes[i], nodes[j])
      {
        assert Complaint(nodes, j).None? && IdComplaint(nodes, j).None? && IdComplaint(nodes, i).None?;
      }
      forall n | n in nodes
        ensures WellFormed(n)
      {
        var i :| 0 <= i < |nodes| && nodes[i] == n;
        assert Complaint(nodes, i).None? && IdComplaint(nodes, i).None?;
      }
    }
    if ValidNodes(nodes) {
      forall i | 0 <= i < |nodes|
        ensures Complaint(nodes, i).None? && IdComplaint(nodes, i).None?
      {
        assert nodes[i] in nodes && WellFormed(nodes[i]);
        assert forall j :: 0 <= j < i ==> Compatible(nodes[j], nodes[i]);
      }
    }
  }

  // ---------------------------------------------------------------- ids

  function ExplicitIds(nodes: seq<Node>): set<int> {
    set n | n in nodes && 0 < n.nodeId :: n.nodeId
  }

  function UnassignedNames(nodes: seq<Node>): set<string> {
    set n | n in nodes && n.nodeId == 0 :: n.name
  }

  /** The id of a node: its own, or the free positive integer that its name's rank among the others entitles it to. */
  ghost function IdOf(nodes: seq<Node>, n: Node): int {
    if n.nodeId != 0 then n.nodeId
    else NthFree(ExplicitIds(nodes), 1, Rank(UnassignedNames(nodes), n.name))
  }

  ghost function Identifying(nodes: seq<Node>): Node -> int {
    n => IdOf(nodes, n)
  }

  ghost function Assigned(nodes: seq<Node>): seq<Node> {
    seq(|nodes|, i requires 0 <= i < |nodes| => nodes[i].(nodeId := IdOf(nodes, nodes[i])))
  }

  lemma {:induction false} IdCounts(nodes: seq<Node>)
    requires forall i, j :: 0 <= i < j < |nodes| ==> Compatible(nodes[i], nodes[j])
    ensures |ExplicitIds(nodes)| + |UnassignedNames(nodes)| <= |nodes|
  {
    if nodes != [] {
      IdCounts(nodes[1..]);
      IdSetsSplit(nodes);
    }
  }

  lemma IdSetsSplit(nodes: seq<Node>)
    requires nodes != []
    ensures var n, rest := nodes[0], nodes[1..];
            && ExplicitIds(nodes) == ExplicitIds(rest) + (if 0 < n.nodeId then {n.nodeId} else {})
            && UnassignedNames(nodes) == UnassignedNames(rest) + (if n.nodeId == 0 then {n.name} else {})
  {
    assert nodes == [nodes[0]] + nodes[1..];
  }

  /** Ids end up positive and distinct; assigned ones never exceed the number of nodes. */
  lemma IdsAreDistinct(nodes: seq<Node>, i: nat, j: nat)
    requires ValidNodes(nodes) && i < |nodes| && j < |nodes|
    ensures 0 < IdOf(nodes, nodes[i])
    ensures nodes[i].nodeId == 0 ==> IdOf(nodes, nodes[i]) <= |nodes|
    ensures IdOf(nodes, nodes[i]) == IdOf(nodes, nodes[j]) ==> i == j
  {
    var used, names := ExplicitIds(nodes), UnassignedNames(nodes);
    var m, n := nodes[i], nodes[j];
    assert m in nodes && n in nodes;
    if m.nodeId == 0 {
      RankBound(names, m.name);
      IdCounts(nodes);
      FitsInto(used, 1, Rank(names, m.name), |nodes|);
    }
    if n.nodeId == 0 {
      NthFreeAscends(used, 1, Rank(names, n.name), Rank(names, n.name));
    }
    if m.nodeId == 0 {
      NthFreeAscends(used, 1, Rank(names, m.name), Rank(names, m.name));
    }
    if m.nodeId == 0 && n.nodeId == 0 && m.name != n.name {
      LessIsTotal(m.name, n.name);
      AutoIdsFollowNames(nodes, i, j);
      AutoIdsFollowNames(nodes, j, i);
    }
  }

  /** Assigned ids increase with the name. */
  lemma AutoIdsFollowNames(nodes: seq<Node>, i: nat, j: nat)
    requires i < |nodes| && j < |nodes| && nodes[i].nodeId == nodes[j].nodeId == 0
    ensures Less(nodes[i].name, nodes[j].name) ==> IdOf(nodes, nodes[i]) < IdOf(nodes, nodes[j])
  {
    var m, n := nodes[i], nodes[j];
    assert m in nodes && n in nodes;
    if Less(m.name, n.name) {
      RankMonotone(UnassignedNames(nodes), m.name, n.name);
      NthFreeAscends(ExplicitIds(nodes), 1, Rank(UnassignedNames(nodes), m.name), Rank(UnassignedNames(nodes), n.name));
    }
  }

  /** No positive integer below an assigned id is left out: it is some node's id. */
  lemma AutoIdsAreDense(nodes: seq<Node>, i: nat, x: int)
    requires ValidNodes(nodes) && i < |nodes| && nodes[i].nodeId == 0 && 0 < x < IdOf(nodes, nodes[i])
    ensures exists n :: n in nodes && IdOf(nodes, n) == x
  {
    var used, names := ExplicitIds(nodes), UnassignedNames(nodes);
    assert nodes[i] in nodes;
    if x !in used {
      NthFreeIsDense(used, 1, Rank(names, nodes[i].name), x);
      var k: nat :| k < Rank(names, nodes[i].name) && NthFree(used, 1, k) == x;
      RankBound(names, nodes[i].name);
      var name := NameOfRank(names, k);
      var n :| n in nodes && n.nodeId == 0 && n.name == name;
      assert IdOf(nodes, n) == x;
    } else {
      var n :| n in nodes && 0 < n.nodeId && n.nodeId == x;
      assert IdOf(nodes, n) == x;
    }
  }

  /** Every rank below the size of a set is taken. */
  lemma {:induction false} NameOfRank(names: set<string>, k: nat) returns (x: string)
    requires k < |names|
    ensures x in names && Rank(names, x) == k
    decreases names
  {
    var top := Topmost(names);
    NamesAreOrdered();
    assert Below(names, top) == names - {top};
    if k == |names| - 1 {
      x := top;
    } else {
      x := NameOfRank(names - {top}, k);
      assert Below(names, x) == Below(names - {top}, x);
    }
  }

  lemma {:induction false} Topmost(names: set<string>) returns (top: string)
    requires names != {}
    ensures top in names && forall y :: y in names && y != top ==> Less(y, top)
    decreases names
  {
    NamesAreOrdered();
    var x :| x in names;
    if names == {x} {
      top := x;
    } else {
      assert names - {x} != {};
      top := Topmost(names - {x});
      if Less(top, x) {
        top := x;
      }
    }
  }

  /** An inventory with its ids filled in is valid again, and has an id everywhere. */
  lemma AssignedIsValid(nodes: seq<Node>)
    requires ValidNodes(nodes)
    ensures ValidNodes(Assigned(nodes)) && forall n :: n in Assigned(nodes) ==> 0 < n.nodeId
  {
    var now := Assigned(nodes);
    forall i, j | 0 <= i < j < |nodes|
      ensures Compatible(now[i], now[j])
    {
      assert Compatible(nodes[i], nodes[j]);
      IdsAreDistinct(nodes, i, j);
    }
    forall n | n in now
      ensures WellFormed(n) && 0 < n.nodeId
    {
      var i :| 0 <= i < |now| && now[i] == n;
      assert nodes[i] in nodes;
      IdsAreDistinct(nodes, i, i);
    }
  }

  /** Whether an inventory is valid does not depend on its order ... */
  lemma ValidityIgnoresOrder(nodes: seq<Node>, nodes': seq<Node>)
    requires ValidNodes(nodes) && multiset(nodes) == multiset(nodes')
    ensures ValidNodes(nodes') && forall n :: n in nodes <==> n in nodes'
  {
    assert Distinct(nodes) by {
      forall i, j | 0 <= i < j < |nodes|
        ensures nodes[i] != nodes[j]
      {
        assert Compatible(nodes[i], nodes[j]);
      }
    }
    PermutationStaysDistinct(nodes, nodes');
    assert nodes[0] in nodes';
    forall i, j | 0 <= i < j < |nodes'|
      ensures Compatible(nodes'[i], nodes'[j])
    {
      var m, n := nodes'[i], nodes'[j];
      assert m in nodes && n in nodes && m != n;
      var x :| 0 <= x < |nodes| && nodes[x] == m;
      var y :| 0 <= y < |nodes| && nodes[y] == n;
      assert Compatible(nodes[Min(x, y)], nodes[Max(x, y)]);
    }
  }

  /** ... and everything about ids is a matter of which nodes there are, not of their order. */
  lemma IdsIgnoreOrder(nodes: seq<Node>, nodes': seq<Node>, n: Node)
    requires forall m :: m in nodes <==> m in nodes'
    ensures IdOf(nodes, n) == IdOf(nodes', n)
  {
    assert ExplicitIds(nodes) == ExplicitIds(nodes');
    assert UnassignedNames(nodes) == UnassignedNames(nodes');
  }

  /** Hence two orders of one inventory end up with the same nodes, ids included. */
  lemma AssignedIgnoresOrder(nodes: seq<Node>, nodes': seq<Node>)
    requires forall m :: m in nodes <==> m in nodes'
    ensures forall n :: n in Assigned(nodes) <==> n in Assigned(nodes')
  {
    forall n
      ensures n in Assigned(nodes) <==> exists m :: m in nodes && n == m.(nodeId := IdOf(nodes, m))
      ensures n in Assigned(nodes') <==> exists m :: m in nodes' && n == m.(nodeId := IdOf(nodes', m))
    {
      InAssigned(nodes, n);
      InAssigned(nodes', n);
    }
    forall m
      ensures IdOf(nodes, m) == IdOf(nodes', m)
    {
      IdsIgnoreOrder(nodes, nodes', m);
    }
  }

  lemma InAssigned(nodes: seq<Node>, n: Node)
    ensures n in Assigned(nodes) <==> exists m :: m in nodes && n == m.(nodeId := IdOf(nodes, m))
  {
    if m :| m in nodes && n == m.(nodeId := IdOf(nodes, m)) {
      var i :| 0 <= i < |nodes| && nodes[i] == m;
      assert Assigned(nodes)[i] == n;
    }
  }

  // ---------------------------------------------------------------- the inventory in place

  function IndexOfName(nodes: seq<Node>, name: string): (i: int)
    ensures -1 <= i < |nodes|
    ensures 0 <= i ==> nodes[i].name == name
    ensures i == -1 ==> forall n :: n in nodes ==> n.name != name
  {
    if nodes == [] then -1
    else if nodes[0].name == name then 0
    else
      var i := IndexOfName(nodes[1..], name);
      assert nodes == [nodes[0]] + nodes[1..];
      if i == -1 then -1 else i + 1
  }

  /** An error is about a node that has it, and no node before it complains. */
  ghost predicate FirstComplaint(nodes: seq<Node>, err: ConfigError) {
    if nodes == [] then err == NoNodes
    else
      err.AtNode? && err.i < |nodes| &&
      (|| (Complaint(nodes, err.i) == Some(err.error) && forall j :: 0 <= j < err.i ==> Complaint(nodes, j).None?)
       || (IdComplaint(nodes, err.i) == Some(err.error)
           && (forall j :: 0 <= j < |nodes| ==> Complaint(nodes, j).None?)
           && (forall j :: 0 <= j < err.i ==> IdComplaint(nodes, j).None?)))
  }

  class Config {
    var nodes: seq<Node>

    constructor (nodes: seq<Node>)
      ensures this.nodes == nodes
    {
      this.nodes := nodes;
    }

    /** Either an error and nothing changed, or a valid inventory with every id filled in. */
    method ValidateNodes() returns (err: Option<ConfigError>)
      modifies this
      ensures err.None? <==> ValidNodes(old(nodes))
      ensures err.Some? ==> FirstComplaint(old(nodes), err.value) && nodes == old(nodes)
      ensures err.None? ==> nodes == Assigned(old(nodes))
    {
      if |nodes| == 0 {
        return Some(NoNodes);
      }
      UncomplainingIsValid(nodes);
      err := CheckNodes();
      if err.Some? {
        return;
      }
      var usedIDs;
      err, usedIDs := CheckIds();
      if err.Some? {
        return;
      }
      AssignIds(usedIDs);
    }

    method CheckNodes() returns (err: Option<ConfigError>)
      ensures err.None? <==> forall j :: 0 <= j < |nodes| ==> Complaint(nodes, j).None?
      ensures err.Some? ==> FirstComplaint(nodes, err.value) || nodes == []
    {
      var seen: set<string>, loopbacks: set<string> := {}, {};
      for i := 0 to |nodes|
        invariant seen == set j | 0 <= j < i :: nodes[j].name
        invariant loopbacks == set j | 0 <= j < i :: nodes[j].loopback.Text()
        invariant forall j :: 0 <= j < i ==> Complaint(nodes, j).None?
      {
        var n := nodes[i];
        var conflict := PortConflict(i);
        var complaint :=
          if n.name == "" then Some(NameRequired)
          else if !IsValidNodeName(n.name) then Some(InvalidName)
          else if n.name in seen then Some(DuplicateName)
          else if n.kind.OtherType? then Some(InvalidType)
          else if n.endpoint.ipv4.Malformed? || n.endpoint.ipv6.Malformed? then Some(BadEndpoint)
          else if n.loopback.Unset? then Some(LoopbackRequired)
          else if n.loopback.Malformed? then Some(BadLoopback)
          else if n.loopback.Text() in loopbacks then Some(DuplicateLoopback)
          else if n.pubKey == "" then Some(PubKeyRequired)
          else if n.bandwidth < 0 then Some(NegativeBandwidth)
          else if n.costMode.OtherMode? then Some(InvalidCostMode)
          else if n.costMode.StaticMode? && n.staticCost.None? then Some(StaticCostRequired)
          else if conflict then Some(PeerPortConflict)
          else if n.underlay.Some? && n.underlay.value.prefsrc4.SourceV6? then Some(BadSource4)
          else if n.underlay.Some? && n.underlay.value.prefsrc6.SourceV4? then Some(BadSource6)
          else None;
        assert complaint == Complaint(nodes, i);
        if complaint.Some? {
          return Some(AtNode(i, complaint.value));
        }
        seen, loopbacks := seen + {n.name}, loopbacks + {n.loopback.Text()};
      }
      return None;
    }

    method PortConflict(i: nat) returns (conflict: bool)
      requires i < |nodes|
      ensures conflict <==> nodes[i].wgPeerPort != 0
                            && exists j :: 0 <= j < i && nodes[j].wgPeerPort == nodes[i].wgPeerPort
    {
      if nodes[i].wgPeerPort != 0 {
        for j := 0 to i
          invariant forall k :: 0 <= k < j ==> nodes[k].wgPeerPort != nodes[i].wgPeerPort
        {
          if nodes[j].wgPeerPort == nodes[i].wgPeerPort {
            return true;
          }
        }
      }
      return false;
    }

    method CheckIds() returns (err: Option<ConfigError>, usedIDs: set<int>)
      requires nodes != [] && forall j :: 0 <= j < |nodes| ==> Complaint(nodes, j).None?
      ensures err.None? <==> forall j :: 0 <= j < |nodes| ==> IdComplaint(nodes, j).None?
      ensures if err.Some? then FirstComplaint(nodes, err.value) else usedIDs == ExplicitIds(nodes)
    {
      usedIDs := {};
      for i := 0 to |nodes|
        invariant usedIDs == ExplicitIds(nodes[..i])
        invariant forall j :: 0 <= j < i ==> IdComplaint(nodes, j).None?
      {
        var n := nodes[i];
        assert nodes[..i + 1] == nodes[..i] + [n];
        if n.nodeId < 0 {
          assert IdComplaint(nodes, i) == Some(NegativeId);
          return Some(AtNode(i, NegativeId)), usedIDs;
        }
        if 0 < n.nodeId {
          if n.nodeId in usedIDs {
            assert IdComplaint(nodes, i) == Some(IdConflict);
            return Some(AtNode(i, IdConflict)), usedIDs;
          }
          usedIDs := usedIDs + {n.nodeId};
        }
      }
      assert nodes[..|nodes|] == nodes;
      err := None;
    }

    /** Fills in the missing ids, in the order of the names. */
    method AssignIds(explicitIDs: set<int>)
      requires ValidNodes(nodes) && explicitIDs == ExplicitIds(nodes)
      modifies this
      ensures nodes == Assigned(old(nodes))
    {
      ghost var was, idOf := nodes, Identifying(nodes);
      var unassigned := SortedUnassigned();
      var usedIDs, nextID := explicitIDs, 1;
      for k := 0 to |unassigned|
        invariant AssignedUpTo(was, nodes, unassigned[..k], idOf)
        invariant nextID == FirstCandidate(explicitIDs, k)
        invariant forall u :: nextID <= u ==> (u in usedIDs <==> u in explicitIDs)
      {
        nextID := SkipUsed(usedIDs, explicitIDs, k, nextID);
        var idx := IndexOfName(nodes, unassigned[k]);
        ghost var i := NextNode(was, unassigned, k);
        AssignsNext(was, nodes, unassigned, k, i, idOf);
        nodes := nodes[idx := nodes[idx].(nodeId := nextID)];
        usedIDs := usedIDs + {nextID};
        nextID := nextID + 1;
      }
      AllAssigned(was, nodes, unassigned, idOf);
    }

    /** The names of the nodes without an id, in order. */
    method SortedUnassigned() returns (unassigned: seq<string>)
      requires ValidNodes(nodes)
      ensures Ascending(unassigned, Less) && Elements(unassigned) == UnassignedNames(nodes)
    {
      unassigned := [];
      for i := 0 to |nodes|
        invariant Distinct(unassigned) && Elements(unassigned) == UnassignedNames(nodes[..i])
      {
        UnassignedNext(nodes, i);
        if nodes[i].nodeId == 0 {
          assert nodes[i].name !in Elements(unassigned);
          unassigned := unassigned + [nodes[i].name];
        }
      }
      assert nodes[..|nodes|] == nodes;
      NamesAreOrdered();
      SortSorts(unassigned, Less);
      assert Elements(Sort(unassigned, Less)) == Elements(unassigned);
      unassigned := Sort(unassigned, Less);
    }
  }

  lemma UnassignedNext(nodes: seq<Node>, i: nat)
    requires ValidNodes(nodes) && i < |nodes|
    ensures UnassignedNames(nodes[..i + 1])
            == UnassignedNames(nodes[..i]) + (if nodes[i].nodeId == 0 then {nodes[i].name} else {})
    ensures nodes[i].name !in UnassignedNames(nodes[..i])
  {
    assert nodes[..i + 1] == nodes[..i] + [nodes[i]];
    assert forall j :: 0 <= j < i ==> Compatible(nodes[j], nodes[i]);
  }

  /** Where the search for the k-th id starts. */
  ghost function FirstCandidate(explicitIDs: set<int>, k: nat): int {
    if k == 0 then 1 else NthFree(explicitIDs, 1, k - 1) + 1
  }

  /** The inner loop: step over the ids in use. */
  method SkipUsed(usedIDs: set<int>, ghost explicitIDs: set<int>, ghost k: nat, start: int) returns (nextID: int)
    requires forall u :: start <= u ==> (u in usedIDs <==> u in explicitIDs)
    requires start == FirstCandidate(explicitIDs, k)
    ensures nextID == NthFree(explicitIDs, 1, k) && start <= nextID
  {
    nextID := start;
    while nextID in usedIDs
      invariant start <= nextID && NextFree(explicitIDs, nextID) == NextFree(explicitIDs, start)
      decreases |Ahead(usedIDs, nextID)|
    {
      AheadShrinks(usedIDs, nextID);
      nextID := nextID + 1;
    }
  }

  /** Exactly the nodes with these names have received their ids. */
  ghost predicate AssignedUpTo(was: seq<Node>, now: seq<Node>, names: seq<string>, idOf: Node -> int) {
    && |now| == |was|
    && (forall i :: 0 <= i < |was| ==>
          now[i] == if was[i].name in names then was[i].(nodeId := idOf(was[i])) else was[i])
  }

  lemma NamesIdentify(nodes: seq<Node>, i: nat, j: nat)
    requires ValidNodes(nodes) && i < |nodes| && j < |nodes| && nodes[i].name == nodes[j].name
    ensures i == j
  {
    assert i < j ==> Compatible(nodes[i], nodes[j]);
    assert j < i ==> Compatible(nodes[j], nodes[i]);
  }

  /** Partly assigned or not, looking up a name finds the node of that name. */
  lemma FindsNode(was: seq<Node>, now: seq<Node>, i: nat)
    requires ValidNodes(was) && |now| == |was| && i < |was|
    requires forall j :: 0 <= j < |was| ==> now[j].name == was[j].name
    ensures IndexOfName(now, was[i].name) == i
  {
    assert now[i] in now;
    NamesIdentify(was, i, IndexOfName(now, was[i].name));
  }

  /** The node the next name stands for, and the id it is due. */
  lemma NextNode(was: seq<Node>, names: seq<string>, k: nat) returns (i: nat)
    requires ValidNodes(was) && k < |names|
    requires Ascending(names, Less) && Elements(names) == UnassignedNames(was)
    ensures i < |was| && was[i].name == names[k] && IdOf(was, was[i]) == NthFree(ExplicitIds(was), 1, k)
  {
    assert names[k] in Elements(names);
    var n :| n in was && n.nodeId == 0 && n.name == names[k];
    i :| 0 <= i < |was| && was[i] == n;
    RankIsIndex(names, UnassignedNames(was), k);
  }

  /** Giving the node of the next name its id is one more name assigned. */
  lemma AssignsNext(was: seq<Node>, now: seq<Node>, names: seq<string>, k: nat, i: nat, idOf: Node -> int)
    requires ValidNodes(was) && k < |names| && AssignedUpTo(was, now, names[..k], idOf)
    requires i < |was| && was[i].name == names[k]
    ensures IndexOfName(now, names[k]) == i
    ensures AssignedUpTo(was, now[i := now[i].(nodeId := idOf(was[i]))], names[..k + 1], idOf)
  {
    FindsNode(was, now, i);
    assert names[..k + 1] == names[..k] + [names[k]];
    forall j | 0 <= j < |was| && was[j].name == names[k]
      ensures j == i
    {
      NamesIdentify(was, i, j);
    }
  }

  lemma AllAssigned(was: seq<Node>, now: seq<Node>, names: seq<string>, idOf: Node -> int)
    requires ValidNodes(was) && AssignedUpTo(was, now, names[..|names|], idOf)
    requires Elements(names) == UnassignedNames(was) && forall n :: idOf(n) == IdOf(was, n)
    ensures now == Assigned(was)
  {
    assert names[..|names|] == names;
    forall i | 0 <= i < |was|
      ensures now[i] == Assigned(was)[i]
    {
      assert was[i] in was;
      if was[i].nodeId == 0 {
        assert was[i].name in Elements(names);
      }
    }
  }
}
