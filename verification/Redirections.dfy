/** The tables that rewrite a redirection to the local listener of the node it
    names, and the nodes that a configured redirection may point at. */
module Redirections {
  import opened Bytes
  import Clusters

  /** A node and the port of its local listener. */
  datatype Placing = Placing(node: Clusters.Node, local: nat)

  datatype Table = Table(byAddress: map<string, nat>, byPort: map<nat, nat>, byId: map<bytes, nat>)

  function LastWithAddress(ps: seq<Placing>, address: string): (r: Option<nat>) {
    if ps == [] then None
    else if ps[|ps| - 1].node.address == address then Some(ps[|ps| - 1].local)
    else LastWithAddress(ps[..|ps| - 1], address)
  }

  function LastWithId(ps: seq<Placing>, id: bytes): (r: Option<nat>) {
    if ps == [] then None
    else if ps[|ps| - 1].node.id == Some(id) then Some(ps[|ps| - 1].local)
    else LastWithId(ps[..|ps| - 1], id)
  }

  /** Some node has the port, and all that have it share the listener. */
  predicate AgreeOnPort(ps: seq<Placing>, port: nat, local: nat) {
    && (exists k :: 0 <= k < |ps| && ps[k].node.port == port)
    && forall k :: 0 <= k < |ps| && ps[k].node.port == port ==> ps[k].local == local
  }

  ghost predicate HasPort(ps: seq<Placing>, port: nat) { exists k :: 0 <= k < |ps| && ps[k].node.port == port }

  predicate Differ(ps: seq<Placing>, port: nat, j: nat, k: nat) {
    j < |ps| && k < |ps| && ps[j].node.port == port == ps[k].node.port && ps[j].local != ps[k].local
  }

  ghost predicate Disagree(ps: seq<Placing>, port: nat) { exists j: nat, k: nat :: Differ(ps, port, j, k) }

  /** What the port column holds while it is built: `None` marks a disagreement. */
  ghost predicate PortColumn(ps: seq<Placing>, m: map<nat, Option<nat>>) {
    && (forall port: nat :: port in m <==> HasPort(ps, port))
    && (forall port: nat, local: nat :: port in m && m[port] == Some(local) ==> AgreeOnPort(ps, port, local))
    && (forall port: nat :: port in m && m[port].None? ==> Disagree(ps, port))
  }

  function Amended(m: map<nat, Option<nat>>, p: Placing): (r: map<nat, Option<nat>>) {
    if p.node.port !in m then m[p.node.port := Some(p.local)]
    else if m[p.node.port] != Some(p.local) then m[p.node.port := None]
    else m
  }

  lemma HasPortStep(ps: seq<Placing>, p: Placing, port: nat)
    ensures HasPort(ps + [p], port) <==> HasPort(ps, port) || port == p.node.port
  {
    var qs := ps + [p];
    if HasPort(ps, port) {
      var k :| 0 <= k < |ps| && ps[k].node.port == port;
      assert qs[k].node.port == port;
    }
    if port == p.node.port { assert qs[|ps|].node.port == port; }
  }

  lemma PortColumnStep(ps: seq<Placing>, m: map<nat, Option<nat>>, p: Placing)
    requires PortColumn(ps, m)
    ensures PortColumn(ps + [p], Amended(m, p))
  {
    forall port: nat ensures port in Amended(m, p) <==> HasPort(ps + [p], port) { HasPortStep(ps, p, port); }
    forall port: nat | port in Amended(m, p)
      ensures Amended(m, p)[port].Some? ==> AgreeOnPort(ps + [p], port, Amended(m, p)[port].value)
      ensures Amended(m, p)[port].None? ==> Disagree(ps + [p], port)
    {
      PortEntryStep(ps, m, p, port);
    }
    hide Amended, HasPort, AgreeOnPort, Disagree;
  }

  lemma PortEntryStep(ps: seq<Placing>, m: map<nat, Option<nat>>, p: Placing, port: nat)
    requires PortColumn(ps, m) && port in Amended(m, p)
    ensures Amended(m, p)[port].Some? ==> AgreeOnPort(ps + [p], port, Amended(m, p)[port].value)
    ensures Amended(m, p)[port].None? ==> Disagree(ps + [p], port)
  {
    var qs := ps + [p];
    HasPortStep(ps, p, port);
    if port in m && m[port].None? {
      assert Disagree(ps, port);
      var j: nat, k: nat :| Differ(ps, port, j, k);
      assert Differ(qs, port, j, k);
    } else if port in m && port == p.node.port && m[port] != Some(p.local) {
      assert HasPort(ps, port);
      var k: nat :| k < |ps| && ps[k].node.port == port;
      assert Differ(qs, port, k, |ps|);
    } else if port !in m {
      assert forall k :: 0 <= k < |ps| ==> ps[k].node.port != port;
    }
  }

  /** The columns of the table: by address and by ID the last entry counts, by port
      only what all entries agree on. */
  method FromSlotRanges(ps: seq<Placing>) returns (t: Table)
    ensures forall address :: Clusters.Find(t.byAddress, address) == LastWithAddress(ps, address)
    ensures forall id :: Clusters.Find(t.byId, id) == LastWithId(ps, id)
    ensures forall port, local: nat :: Clusters.Find(t.byPort, port) == Some(local) <==> AgreeOnPort(ps, port, local)
  {
    var byAddress: map<string, nat> := map[];
    var ports: map<nat, Option<nat>> := map[];
    var byId: map<bytes, nat> := map[];
    for i := 0 to |ps|
      invariant forall address :: Clusters.Find(byAddress, address) == LastWithAddress(ps[..i], address)
      invariant PortColumn(ps[..i], ports)
    {
      var p := ps[i];
      assert ps[..i + 1] == ps[..i] + [p] && ps[..i + 1][..i] == ps[..i];
      PortColumnStep(ps[..i], ports, p);
      byAddress := byAddress[p.node.address := p.local];
      ports := Amended(ports, p);
      hide PortColumn;
    }
    assert ps[..|ps|] == ps;
    var byPort := map port | port in ports && ports[port].Some? :: ports[port].value;
    UniquePorts(ps, ports, byPort);
    for i := 0 to |ps|
      invariant forall id :: Clusters.Find(byId, id) == LastWithId(ps[..i], id)
    {
      var p := ps[i];
      assert ps[..i + 1][..i] == ps[..i];
      if p.node.id.Some? { byId := byId[p.node.id.value := p.local]; }
    }
    t := Table(byAddress, byPort, byId);
  }

  lemma UniquePorts(ps: seq<Placing>, m: map<nat, Option<nat>>, byPort: map<nat, nat>)
    requires PortColumn(ps, m)
    requires byPort == map port | port in m && m[port].Some? :: m[port].value
    ensures forall port, local: nat :: Clusters.Find(byPort, port) == Some(local) <==> AgreeOnPort(ps, port, local)
  {
    forall port: nat, local: nat ensures Clusters.Find(byPort, port) == Some(local) <==> AgreeOnPort(ps, port, local) {
      if port in m {
        if m[port].None? { NoAgreement(ps, port, local); }
      }
    }
  }

  lemma NoAgreement(ps: seq<Placing>, port: nat, local: nat)
    requires Disagree(ps, port)
    ensures !AgreeOnPort(ps, port, local)
  {
    var j: nat, k: nat :| Differ(ps, port, j, k);
    assert ps[j].local != local || ps[k].local != local;
  }

  /** A redirection names an address with a host, or only its port can be read, or
      neither. */
  datatype Server = Address(text: string, port: nat) | PortOnly(port: nat) | Unreadable

  function RewriteServer(t: Table, server: Server): (r: Option<nat>) {
    match server
    case Address(text, port) =>
      var exact := Clusters.Find(t.byAddress, text);
      if exact.Some? then exact else Clusters.Find(t.byPort, port)
    case PortOnly(port) => Clusters.Find(t.byPort, port)
    case Unreadable => None
  }

  function RewriteNode(t: Table, id: Option<bytes>, server: Server): (r: Option<nat>) {
    var known := if id.Some? then Clusters.Find(t.byId, id.value) else None;
    if known.Some? then known else RewriteServer(t, server)
  }

  /** The table of these placings. */
  ghost predicate IsTable(ps: seq<Placing>, t: Table) {
    && (forall address :: Clusters.Find(t.byAddress, address) == LastWithAddress(ps, address))
    && (forall id :: Clusters.Find(t.byId, id) == LastWithId(ps, id))
    && (forall port, local: nat :: Clusters.Find(t.byPort, port) == Some(local) <==> AgreeOnPort(ps, port, local))
  }

  /** Each placing is one that a successful allocation made. */
  ghost predicate Allocated(es: seq<Clusters.Node>, port: nat, ps: seq<Placing>) {
    && Clusters.PlaceAll(es, port).Placed?
    && forall k :: 0 <= k < |ps| ==>
         ps[k].node in es && Clusters.LocalOf(Clusters.PlaceAll(es, port).state, ps[k].node, ps[k].local)
  }

  lemma {:induction false} LastIsOne(ps: seq<Placing>, address: string)
    ensures LastWithAddress(ps, address).Some? ==>
      exists k :: 0 <= k < |ps| && ps[k].node.address == address && ps[k].local == LastWithAddress(ps, address).value
    ensures LastWithAddress(ps, address).None? ==> forall k :: 0 <= k < |ps| ==> ps[k].node.address != address
  {
    if ps != [] {
      LastIsOne(ps[..|ps| - 1], address);
      assert forall k :: 0 <= k < |ps| - 1 ==> ps[..|ps| - 1][k] == ps[k];
    }
  }

  lemma {:induction false} LastIdIsOne(ps: seq<Placing>, id: bytes)
    ensures LastWithId(ps, id).Some? ==>
      exists k :: 0 <= k < |ps| && ps[k].node.id == Some(id) && ps[k].local == LastWithId(ps, id).value
    ensures LastWithId(ps, id).None? ==> forall k :: 0 <= k < |ps| ==> ps[k].node.id != Some(id)
  {
    if ps != [] {
      LastIdIsOne(ps[..|ps| - 1], id);
      assert forall k :: 0 <= k < |ps| - 1 ==> ps[..|ps| - 1][k] == ps[k];
    }
  }

  lemma SameIdSameListener(es: seq<Clusters.Node>, port: nat, a: Clusters.Node, b: Clusters.Node)
    requires Clusters.PlaceAll(es, port).Placed? && a in es && b in es && a.id.Some? && a.id == b.id
    ensures var s := Clusters.PlaceAll(es, port).state;
      a.address in s.byAddress && b.address in s.byAddress && s.byAddress[a.address] == s.byAddress[b.address]
  {
    var i :| 0 <= i < |es| && es[i] == a;
    var j :| 0 <= j < |es| && es[j] == b;
    Clusters.ConnectedSelf(es, i);
    Clusters.ConnectedStep(es, i, i, j);
    Clusters.ListenersAreComponents(es, port, i, j);
    hide Clusters.Connected, Clusters.PlaceAll;
  }

  /** A redirection to any node of the cluster, by its address or by its ID with any
      address, is rewritten to that node's own listener. */
  lemma RedirectsReachTheirNode(es: seq<Clusters.Node>, port: nat, ps: seq<Placing>, t: Table, k: nat, server: Server)
    requires Allocated(es, port, ps) && IsTable(ps, t) && k < |ps|
    ensures RewriteServer(t, Address(ps[k].node.address, ps[k].node.port)) == Some(ps[k].local)
    ensures ps[k].node.id.Some? ==> RewriteNode(t, ps[k].node.id, server) == Some(ps[k].local)
  {
    hide Clusters.PlaceAll;
    var n := ps[k].node;
    LastIsOne(ps, n.address);
    if n.id.Some? {
      LastIdIsOne(ps, n.id.value);
      var j :| 0 <= j < |ps| && ps[j].node.id == n.id && ps[j].local == LastWithId(ps, n.id.value).value;
      SameIdSameListener(es, port, n, ps[j].node);
    }
  }

  /** An unknown host is rewritten by its port exactly when the nodes that have the
      port agree on a listener. */
  lemma UnknownHostsGoByPort(ps: seq<Placing>, t: Table, text: string, port: nat, local: nat)
    requires IsTable(ps, t) && forall k :: 0 <= k < |ps| ==> ps[k].node.address != text
    ensures RewriteServer(t, Address(text, port)) == Some(local) <==> AgreeOnPort(ps, port, local)
  {
    LastIsOne(ps, text);
  }

  /** A redirection of which only the port can be read goes by the port, one of which
      nothing can is left alone, and an unknown ID leaves the decision to the address. */
  lemma PartialRedirections(ps: seq<Placing>, t: Table, id: Option<bytes>, server: Server, port: nat, local: nat)
    requires IsTable(ps, t)
    ensures RewriteServer(t, PortOnly(port)) == Some(local) <==> AgreeOnPort(ps, port, local)
    ensures RewriteServer(t, Unreadable) == None
    ensures (id.None? || forall k :: 0 <= k < |ps| ==> ps[k].node.id != id) ==>
      RewriteNode(t, id, server) == RewriteServer(t, server)
  {
    if id.Some? { LastIdIsOne(ps, id.value); }
  }

  // ------------------------------------------------- targets of a redirection

  /** A slot range as read from the reply; `None` is a node that does not parse. */
  datatype OwnedRange = OwnedRange(first: int, last: int, primary: Option<string>, replicas: seq<Option<string>>)

  datatype RedirectNodes = RedirectNodes(
    primaries: seq<string>, all: seq<string>, owner: Option<string>, replicas: seq<string>)

  /** The elements in order of first appearance. */
  function Distinct(s: seq<string>): (r: seq<string>)
    ensures forall x :: x in r <==> x in s
    ensures forall i, j :: 0 <= i < j < |r| ==> r[i] != r[j]
  {
    if s == [] then []
    else
      var r := Distinct(s[..|s| - 1]);
      assert forall x :: x in s <==> x in s[..|s| - 1] || x == s[|s| - 1];
      if s[|s| - 1] in r then r else r + [s[|s| - 1]]
  }

  function Readable(nodes: seq<Option<string>>): (r: seq<string>) {
    if nodes == [] then []
    else
      var last := nodes[|nodes| - 1];
      if last.Some? then Readable(nodes[..|nodes| - 1]) + [last.value] else Readable(nodes[..|nodes| - 1])
  }

  predicate Owns(range: OwnedRange, slot: int) { range.primary.Some? && range.first <= slot <= range.last }

  function PrimariesOf(ranges: seq<OwnedRange>): (r: seq<string>) {
    if ranges == [] then []
    else
      var last := ranges[|ranges| - 1];
      var before := PrimariesOf(ranges[..|ranges| - 1]);
      if last.primary.Some? then before + [last.primary.value] else before
  }

  function NodesOf(ranges: seq<OwnedRange>): (r: seq<string>) {
    if ranges == [] then []
    else
      var last := ranges[|ranges| - 1];
      var before := NodesOf(ranges[..|ranges| - 1]);
      if last.primary.Some? then before + [last.primary.value] + Readable(last.replicas) else before
  }

  function ReplicasOf(ranges: seq<OwnedRange>, slot: int): (r: seq<string>) {
    if ranges == [] then []
    else
      var last := ranges[|ranges| - 1];
      var before := ReplicasOf(ranges[..|ranges| - 1], slot);
      if Owns(last, slot) then before + Readable(last.replicas) else before
  }

  function OwnerOf(ranges: seq<OwnedRange>, slot: int): (r: Option<string>) {
    if ranges == [] then None
    else if Owns(ranges[|ranges| - 1], slot) then ranges[|ranges| - 1].primary
    else OwnerOf(ranges[..|ranges| - 1], slot)
  }

  /** The elements of `Distinct` come in order of first appearance. */
  lemma {:induction false} DistinctInOrder(s: seq<string>, i: nat, j: nat)
    requires i < j < |Distinct(s)|
    ensures exists k :: 0 <= k < |s| && s[k] == Distinct(s)[i] && forall m :: 0 <= m <= k ==> s[m] != Distinct(s)[j]
  {
    if s != [] {
      var front, last := s[..|s| - 1], s[|s| - 1];
      if j < |Distinct(front)| {
        DistinctInOrder(front, i, j);
        var k :| 0 <= k < |front| && front[k] == Distinct(front)[i] && forall m :: 0 <= m <= k ==> front[m] != Distinct(front)[j];
        assert s[k] == Distinct(s)[i] && forall m :: 0 <= m <= k ==> s[m] == front[m];
      } else {
        assert Distinct(s)[i] in Distinct(front);
        var k :| 0 <= k < |front| && front[k] == Distinct(s)[i];
        assert s[k] == front[k];
        forall m | 0 <= m <= k ensures s[m] != Distinct(s)[j] { assert front[m] == s[m] && front[m] in front; }
      }
    }
  }

  /** The range has a readable primary and holds the slot. */
  predicate Holds(range: OwnedRange, slot: int, primary: string) {
    range.primary == Some(primary) && range.first <= slot && slot <= range.last
  }

  /** The owner of a slot is the primary of the last such range, */
  lemma {:induction false} OwnerIsTheLast(ranges: seq<OwnedRange>, slot: int, primary: string)
    ensures OwnerOf(ranges, slot) == Some(primary) <==>
      exists i :: 0 <= i < |ranges| && Holds(ranges[i], slot, primary)
        && forall j, p :: i < j < |ranges| ==> !Holds(ranges[j], slot, p)
  {
    if ranges != [] {
      var n := |ranges| - 1;
      var front, last := ranges[..n], ranges[n];
      OwnerIsTheLast(front, slot, primary);
      if last.primary.Some? && Holds(last, slot, last.primary.value) {
        if OwnerOf(ranges, slot) == Some(primary) { assert Holds(ranges[n], slot, primary); }
        var q := last.primary.value;
        forall i | 0 <= i < |ranges| && Holds(ranges[i], slot, primary)
          && forall j, p :: i < j < |ranges| ==> !Holds(ranges[j], slot, p)
          ensures OwnerOf(ranges, slot) == Some(primary)
        {
          assert i < n ==> !Holds(last, slot, q);
        }
      } else {
        if OwnerOf(ranges, slot) == Some(primary) {
          var i :| 0 <= i < n && Holds(front[i], slot, primary)
            && forall j, p :: i < j < n ==> !Holds(front[j], slot, p);
          assert Holds(ranges[i], slot, primary);
          forall j, p | i < j < |ranges| ensures !Holds(ranges[j], slot, p) { if j < n { assert !Holds(front[j], slot, p); } }
        }
        forall i | 0 <= i < |ranges| && Holds(ranges[i], slot, primary)
          && forall j, p :: i < j < |ranges| ==> !Holds(ranges[j], slot, p)
          ensures OwnerOf(ranges, slot) == Some(primary)
        {
          assert i < n && Holds(front[i], slot, primary);
          forall j, p | i < j < n ensures !Holds(front[j], slot, p) { assert !Holds(ranges[j], slot, p); }
        }
      }
    }
  }

  lemma {:induction false} ReadableMembers(nodes: seq<Option<string>>, x: string)
    ensures x in Readable(nodes) <==> Some(x) in nodes
  {
    if nodes != [] {
      ReadableMembers(nodes[..|nodes| - 1], x);
      assert nodes == nodes[..|nodes| - 1] + [nodes[|nodes| - 1]];
    }
  }

  /** its replicas are those of all such ranges, */
  lemma {:induction false} ReplicasAreTheirs(ranges: seq<OwnedRange>, slot: int, x: string)
    ensures x in ReplicasOf(ranges, slot) <==>
      exists i, p :: 0 <= i < |ranges| && Holds(ranges[i], slot, p) && Some(x) in ranges[i].replicas
  {
    if ranges != [] {
      var n := |ranges| - 1;
      var front, last := ranges[..n], ranges[n];
      ReplicasAreTheirs(front, slot, x);
      ReadableMembers(last.replicas, x);
      hide Readable;
      if x in ReplicasOf(ranges, slot) {
        if x in ReplicasOf(front, slot) {
          var i, p :| 0 <= i < n && Holds(front[i], slot, p) && Some(x) in front[i].replicas;
          assert Holds(ranges[i], slot, p);
        } else {
          assert Holds(ranges[n], slot, last.primary.value);
        }
      }
      forall i, p | 0 <= i < |ranges| && Holds(ranges[i], slot, p) && Some(x) in ranges[i].replicas
        ensures x in ReplicasOf(ranges, slot)
      {
        if i < n { assert Holds(front[i], slot, p); }
      }
    }
  }

  /** and a node is listed exactly if it is in a range whose primary is readable. */
  lemma {:induction false} NodesAreTheirs(ranges: seq<OwnedRange>, x: string)
    ensures x in PrimariesOf(ranges) <==> exists i :: 0 <= i < |ranges| && ranges[i].primary == Some(x)
    ensures x in NodesOf(ranges) <==>
      exists i :: 0 <= i < |ranges| && ranges[i].primary.Some?
        && (ranges[i].primary == Some(x) || Some(x) in ranges[i].replicas)
  {
    if ranges != [] {
      var n := |ranges| - 1;
      var front, last := ranges[..n], ranges[n];
      NodesAreTheirs(front, x);
      ReadableMembers(last.replicas, x);
      hide Readable;
      assert forall i :: 0 <= i < n ==> front[i] == ranges[i];
    }
  }

  lemma DistinctStep(s: seq<string>, x: string)
    ensures Distinct(s + [x]) == if x in Distinct(s) then Distinct(s) else Distinct(s) + [x]
  {
    assert (s + [x])[..|s|] == s;
  }

  lemma NothingRead()
    ensures Readable([]) == [] && Distinct([]) == []
  {}

  method AddReplicas(
      all: seq<string>, replicas: seq<string>, found: seq<Option<string>>, owns: bool,
      ghost nodes: seq<string>, ghost owned: seq<string>)
    returns (more: seq<string>, moreReplicas: seq<string>)
    requires all == Distinct(nodes) && replicas == Distinct(owned)
    ensures more == Distinct(nodes + Readable(found))
    ensures moreReplicas == Distinct(if owns then owned + Readable(found) else owned)
  {
    hide Distinct, Readable;
    more, moreReplicas := all, replicas;
    NothingRead();
    assert found[..0] == [];
    assert nodes + [] == nodes && owned + [] == owned;
    for k := 0 to |found|
      invariant more == Distinct(nodes + Readable(found[..k]))
      invariant moreReplicas == Distinct(if owns then owned + Readable(found[..k]) else owned)
    {
      ReadableStep(found, k);
      if found[k].None? { continue; }
      var replica := found[k].value;
      ghost var read := Readable(found[..k]);
      DistinctStep(nodes + read, replica);
      Assoc(nodes, read, [replica]);
      if owns {
        DistinctStep(owned + read, replica);
        Assoc(owned, read, [replica]);
        moreReplicas := Pushed(moreReplicas, replica);
      }
      more := Pushed(more, replica);
    }
    assert found[..|found|] == found;
  }

  /** The distinct primaries, all distinct nodes, and the owner and distinct replicas
      of the slot, each in order of first appearance; ranges whose primary does not
      parse are skipped whole. */
  method FromSlots(ranges: seq<OwnedRange>, slot: int) returns (r: RedirectNodes)
    ensures r.primaries == Distinct(PrimariesOf(ranges))
    ensures r.all == Distinct(NodesOf(ranges))
    ensures r.owner == OwnerOf(ranges, slot)
    ensures r.replicas == Distinct(ReplicasOf(ranges, slot))
  {
    hide Distinct, Readable;
    r := RedirectNodes([], [], None, []);
    NothingRead();
    for i := 0 to |ranges|
      invariant r.primaries == Distinct(PrimariesOf(ranges[..i])) && r.all == Distinct(NodesOf(ranges[..i]))
      invariant r.owner == OwnerOf(ranges[..i], slot) && r.replicas == Distinct(ReplicasOf(ranges[..i], slot))
    {
      var range := ranges[i];
      assert ranges[..i + 1][..i] == ranges[..i];
      if range.primary.None? { continue; }
      var primary := range.primary.value;
      DistinctStep(PrimariesOf(ranges[..i]), primary);
      DistinctStep(NodesOf(ranges[..i]), primary);
      r := r.(primaries := Pushed(r.primaries, primary), all := Pushed(r.all, primary),
              owner := if Owns(range, slot) then Some(primary) else r.owner);
      var all, replicas := AddReplicas(
        r.all, r.replicas, range.replicas, Owns(range, slot), NodesOf(ranges[..i]) + [primary], ReplicasOf(ranges[..i], slot));
      r := r.(all := all, replicas := replicas);
    }
    assert ranges[..|ranges|] == ranges;
  }

  function Pushed(s: seq<string>, x: string): (r: seq<string>) { if x in s then s else s + [x] }

  lemma ReadableStep(nodes: seq<Option<string>>, k: nat)
    requires k < |nodes|
    ensures Readable(nodes[..k + 1]) == if nodes[k].Some? then Readable(nodes[..k]) + [nodes[k].value] else Readable(nodes[..k])
  {
    assert nodes[..k + 1][..k] == nodes[..k];
  }
}
