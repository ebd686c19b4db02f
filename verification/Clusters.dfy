/** Local listeners for the nodes of a cluster: an online allocation that follows
    equal addresses and equal node IDs, and the redirection tables built from it. */
module Clusters {
  import opened Bytes

  /** A node entry of CLUSTER SLOTS: its address text, its port, its ID if known. */
  datatype Node = Node(address: string, port: nat, id: Option<bytes>)

  datatype Range = Range(first: nat, last: nat, primary: Node, replicas: seq<Node>)

  /** A listener: the upstream it serves, its port, and the position of the entry
      that opened it. */
  datatype Target = Target(upstream: string, listen: nat, entry: nat)

  datatype State = State(byAddress: map<string, nat>, byId: map<bytes, nat>, idOf: map<nat, bytes>, targets: seq<Target>)

  datatype Reason = ZeroPort | Split | TwoIds | TooMany | PortOverflow

  datatype Placement = Placed(state: State) | Refused(reason: Reason)

  const EMPTY: State := State(map[], map[], map[], [])
  const U16_MAX: nat := 65535

  // ---------------------------------------------------------- the allocation

  function Find<K, V>(m: map<K, V>, key: K): (r: Option<V>) { if key in m then Some(m[key]) else None }

  function FindId(s: State, n: Node): (r: Option<nat>) { if n.id.Some? then Find(s.byId, n.id.value) else None }

  function Register(s: State, n: Node, local: nat): (r: State) {
    var t := s.(byAddress := s.byAddress[n.address := local]);
    if n.id.None? then t
    else t.(byId := s.byId[n.id.value := local], idOf := s.idOf[local := n.id.value])
  }

  /** Places the entry at position `i`: with its ID or its address if either is
      known, otherwise behind a new listener. */
  function Place(s: State, n: Node, i: nat, port: nat): (r: Placement) {
    var byAddress, byId := Find(s.byAddress, n.address), FindId(s, n);
    if byAddress.Some? && byId.Some? && byAddress != byId then Refused(Split)
    else if byId.Some? || byAddress.Some? then
      var local := if byId.Some? then byId.value else byAddress.value;
      if n.id.Some? && local in s.idOf && s.idOf[local] != n.id.value then Refused(TwoIds)
      else Placed(Register(s, n, local))
    else if |s.targets| > U16_MAX then Refused(TooMany)
    else if port + |s.targets| > U16_MAX then Refused(PortOverflow)
    else
      var local := port + |s.targets|;
      Placed(Register(s, n, local).(targets := s.targets + [Target(n.address, local, i)]))
  }

  function PlaceAll(es: seq<Node>, port: nat): (r: Placement) {
    if es == [] then Placed(EMPTY)
    else
      var n := |es| - 1;
      var before := PlaceAll(es[..n], port);
      if before.Refused? then before else Place(before.state, es[n], n, port)
  }

  /** Every primary first, then every replica. */
  function Entries(slots: seq<Range>): (r: seq<Node>) { Primaries(slots) + Replicas(slots) }

  function Primaries(slots: seq<Range>): (r: seq<Node>)
    ensures |r| == |slots| && forall i :: 0 <= i < |r| ==> r[i] == slots[i].primary
  {
    seq(|slots|, i requires 0 <= i < |slots| => slots[i].primary)
  }

  function Replicas(slots: seq<Range>): (r: seq<Node>) {
    if slots == [] then [] else Replicas(slots[..|slots| - 1]) + slots[|slots| - 1].replicas
  }

  /** A slot range whose nodes know their local listener. */
  datatype LocalRange = LocalRange(first: nat, last: nat, primary: nat, replicas: seq<nat>)

  datatype Topology = Topology(targets: seq<Target>, slots: seq<LocalRange>)

  datatype Result = Mapped(topology: Topology) | Failed(reason: Reason)

  function Locals(s: State, nodes: seq<Node>): (r: seq<nat>)
    requires forall i :: 0 <= i < |nodes| ==> nodes[i].address in s.byAddress
    ensures |r| == |nodes| && forall i :: 0 <= i < |r| ==> r[i] == s.byAddress[nodes[i].address]
  {
    seq(|nodes|, i requires 0 <= i < |nodes| => s.byAddress[nodes[i].address])
  }

  /** The range as the state places its nodes. */
  ghost predicate IsPlaced(s: State, range: Range, local: LocalRange) {
    && local.first == range.first && local.last == range.last
    && LocalOf(s, range.primary, local.primary) && |local.replicas| == |range.replicas|
    && forall k :: 0 <= k < |range.replicas| ==> LocalOf(s, range.replicas[k], local.replicas[k])
  }

  /** The ports of the primaries, and of the replicas. */
  ghost function PrimaryPorts(ls: seq<LocalRange>): (r: set<nat>) { set l | l in ls :: l.primary }

  ghost function ReplicaPorts(ls: seq<LocalRange>): (r: set<nat>) {
    if ls == [] then {} else ReplicaPorts(ls[..|ls| - 1]) + Elements(ls[|ls| - 1].replicas)
  }

  ghost function Elements(ns: seq<nat>): (r: set<nat>) { set n | n in ns }

  /** The port is taken already or is the next one. */
  ghost predicate NextPort(port: nat, taken: set<nat>, local: nat) { local in taken || local == port + |taken| }

  /** Primaries take the configured port and those after it in order of first
      appearance, and no other listener has a port among or below them. */
  ghost predicate PrimariesFirst(port: nat, t: Topology) {
    && (forall j: nat :: j < |t.slots| ==> PrimaryComesNext(port, t.slots, j))
    && (forall u: nat :: u < |t.targets| ==> IsPrimaryTarget(port, t, u))
  }

  ghost predicate PrimaryComesNext(port: nat, ls: seq<LocalRange>, j: nat)
    requires j < |ls|
  {
    NextPort(port, PrimaryPorts(ls[..j]), ls[j].primary)
  }

  /** The `u`-th listener has the `u`-th port, which is a primary's if that is below
      the number of those. */
  ghost predicate IsPrimaryTarget(port: nat, t: Topology, u: nat)
    requires u < |t.targets|
  {
    t.targets[u].listen == port + u && (port + u in PrimaryPorts(t.slots) <==> u < |PrimaryPorts(t.slots)|)
  }

  /** Replicas go on from there, range by range. */
  ghost predicate ReplicasNext(port: nat, t: Topology) {
    forall j: nat, k: nat :: j < |t.slots| && k < |t.slots[j].replicas| ==> ReplicaComesNext(port, t.slots, j, k)
  }

  ghost predicate ReplicaComesNext(port: nat, ls: seq<LocalRange>, j: nat, k: nat)
    requires j < |ls| && k < |ls[j].replicas|
  {
    NextPort(port, PrimaryPorts(ls) + ReplicaPorts(ls[..j]) + Elements(ls[j].replicas[..k]), ls[j].replicas[k])
  }

  /** The allocation pass, then the pass that writes each node's local address; the
      second one finds every address. */
  method MapClusterSlots(slots: seq<Range>, port: nat) returns (r: Result)
    requires port <= U16_MAX
    ensures port == 0 ==> r == Failed(ZeroPort)
    ensures port != 0 ==> match PlaceAll(Entries(slots), port)
      case Refused(reason) => r == Failed(reason)
      case Placed(s) =>
        && r.Mapped? && r.topology.targets == s.targets && |r.topology.slots| == |slots|
        && forall i :: 0 <= i < |slots| ==> IsPlaced(s, slots[i], r.topology.slots[i])
    ensures r.Mapped? ==> PrimariesFirst(port, r.topology) && ReplicasNext(port, r.topology)
  {
    hide Place, PrimariesFirst, ReplicasNext;
    if port == 0 { return Failed(ZeroPort); }
    var nodes := Entries(slots);
    var state := EMPTY;
    for i := 0 to |nodes|
      invariant PlaceAll(nodes[..i], port) == Placed(state)
    {
      PlaceStep(nodes, i, port);
      RefusedStays(nodes, i + 1, port);
      match Place(state, nodes[i], i, port) {
        case Refused(reason) => return Failed(reason);
        case Placed(next) => state := next;
      }
    }
    assert nodes[..|nodes|] == nodes;
    AllFiled(nodes, port);
    var locals: seq<LocalRange> := [];
    for i := 0 to |slots|
      invariant |locals| == i && forall k :: 0 <= k < i ==> IsPlaced(state, slots[k], locals[k])
    {
      EntriesContain(slots, i);
      var range := slots[i];
      locals := locals + [
        LocalRange(range.first, range.last, state.byAddress[range.primary.address], Locals(state, range.replicas))];
    }
    r := Mapped(Topology(state.targets, locals));
    PortsInOrder(slots, port, r.topology);
  }

  lemma PlaceKeepsFiled(s: State, n: Node, i: nat, port: nat)
    requires Place(s, n, i, port).Placed?
    ensures var t := Place(s, n, i, port).state;
      n.address in t.byAddress && forall a :: a in s.byAddress ==> a in t.byAddress
  {}

  lemma {:induction false} AllFiled(es: seq<Node>, port: nat)
    requires PlaceAll(es, port).Placed?
    ensures forall n :: n in es ==> n.address in PlaceAll(es, port).state.byAddress
  {
    if es != [] {
      var front, e := es[..|es| - 1], es[|es| - 1];
      AllFiled(front, port);
      PlaceKeepsFiled(PlaceAll(front, port).state, e, |front|, port);
      assert es == front + [e];
      hide Place;
    }
  }

  lemma EntriesContain(slots: seq<Range>, i: nat)
    requires i < |slots|
    ensures slots[i].primary in Entries(slots)
    ensures forall k :: 0 <= k < |slots[i].replicas| ==> slots[i].replicas[k] in Entries(slots)
  {
    assert Primaries(slots)[i] in Primaries(slots);
    ReplicasContain(slots, i);
    forall k | 0 <= k < |slots[i].replicas| ensures slots[i].replicas[k] in Entries(slots) {
      assert slots[i].replicas[k] in Replicas(slots);
    }
  }

  lemma {:induction false} ReplicasContain(slots: seq<Range>, i: nat)
    requires i < |slots|
    ensures forall n :: n in slots[i].replicas ==> n in Replicas(slots)
  {
    if i < |slots| - 1 { ReplicasContain(slots[..|slots| - 1], i); }
  }

  lemma PlaceStep(es: seq<Node>, i: nat, port: nat)
    requires i < |es| && PlaceAll(es[..i], port).Placed?
    ensures PlaceAll(es[..i + 1], port) == Place(PlaceAll(es[..i], port).state, es[i], i, port)
  {
    assert es[..i + 1][..i] == es[..i];
    hide Place;
  }

  lemma {:induction false} RefusedStays(es: seq<Node>, i: nat, port: nat)
    requires i <= |es|
    ensures PlaceAll(es[..i], port).Refused? ==> PlaceAll(es, port) == PlaceAll(es[..i], port)
    decreases |es|
  {
    hide Place;
    if i == |es| {
      assert es[..i] == es;
    } else {
      assert es[..|es| - 1][..i] == es[..i];
      RefusedStays(es[..|es| - 1], i, port);
    }
  }

  // ------------------------------------------------------ connected components

  /** The entries name the same node directly. */
  predicate Touch(a: Node, b: Node) { a.address == b.address || (a.id.Some? && a.id == b.id) }

  predicate Chain(es: seq<Node>, c: seq<nat>) {
    && c != [] && (forall k :: 0 <= k < |c| ==> c[k] < |es|)
    && forall k :: 0 <= k < |c| - 1 ==> Touch(es[c[k]], es[c[k + 1]])
  }

  predicate Links(es: seq<Node>, c: seq<nat>, i: nat, j: nat) { Chain(es, c) && c[0] == i && c[|c| - 1] == j }

  /** Linked by a chain of equal addresses and equal IDs. */
  ghost predicate Connected(es: seq<Node>, i: nat, j: nat) { exists c :: Links(es, c, i, j) }

  lemma ConnectedSelf(es: seq<Node>, i: nat)
    requires i < |es|
    ensures Connected(es, i, i)
  {
    assert Links(es, [i], i, i);
  }

  lemma ConnectedStep(es: seq<Node>, i: nat, j: nat, k: nat)
    requires Connected(es, i, j) && k < |es| && Touch(es[j], es[k])
    ensures Connected(es, i, k)
  {
    var c :| Links(es, c, i, j);
    assert Links(es, c + [k], i, k);
  }

  lemma TouchSymmetric(a: Node, b: Node)
    ensures Touch(a, b) == Touch(b, a)
  {}

  lemma {:induction false} ConnectedJoin(es: seq<Node>, c: seq<nat>, i: nat, j: nat, k: nat)
    requires Connected(es, i, j) && Links(es, c, j, k)
    ensures Connected(es, i, k)
    decreases |c|
  {
    if |c| > 1 {
      ConnectedStep(es, i, j, c[1]);
      assert Links(es, c[1..], c[1], k);
      ConnectedJoin(es, c[1..], i, c[1], k);
    }
  }

  lemma {:induction false} ConnectedBack(es: seq<Node>, c: seq<nat>, i: nat, j: nat)
    requires Links(es, c, i, j)
    ensures Connected(es, j, i)
    decreases |c|
  {
    if |c| == 1 {
      ConnectedSelf(es, i);
    } else {
      assert Links(es, c[1..], c[1], j);
      ConnectedBack(es, c[1..], c[1], j);
      TouchSymmetric(es[i], es[c[1]]);
      ConnectedStep(es, j, c[1], i);
    }
  }

  lemma ConnectedExtends(es: seq<Node>, n: nat, i: nat, j: nat)
    requires n <= |es| && Connected(es[..n], i, j)
    ensures Connected(es, i, j)
  {
    var c :| Links(es[..n], c, i, j);
    assert Links(es, c, i, j);
  }

  // ---------------------------------------------------------------- invariants

  predicate LocalOf(s: State, n: Node, local: nat) { n.address in s.byAddress && s.byAddress[n.address] == local }

  /** Each entry is filed under its address and its ID, at one listener. */
  ghost predicate Filed(es: seq<Node>, s: State) {
    forall i :: 0 <= i < |es| ==>
      && es[i].address in s.byAddress
      && (es[i].id.Some? ==>
           && es[i].id.value in s.byId && s.byId[es[i].id.value] == s.byAddress[es[i].address]
           && s.byAddress[es[i].address] in s.idOf && s.idOf[s.byAddress[es[i].address]] == es[i].id.value)
  }

  ghost predicate HasAddress(es: seq<Node>, a: string) { exists i :: 0 <= i < |es| && es[i].address == a }

  ghost predicate HasId(es: seq<Node>, s: State, id: bytes, local: nat) {
    exists i :: 0 <= i < |es| && es[i].id == Some(id) && LocalOf(s, es[i], local)
  }

  /** Nothing is filed that no entry explains. */
  ghost predicate Explained(es: seq<Node>, s: State) {
    && (forall a :: a in s.byAddress ==> HasAddress(es, a))
    && (forall id :: id in s.byId ==> HasId(es, s, id, s.byId[id]))
    && (forall l :: l in s.idOf ==> HasId(es, s, s.idOf[l], l))
  }

  /** Ports are consecutive, and each listener was opened by its first entry, to
      which all its entries are connected. */
  ghost predicate Opened(es: seq<Node>, s: State, port: nat) {
    && (forall t :: 0 <= t < |s.targets| ==> OpensAt(es, s, port, t))
    && (forall t, u :: 0 <= t < u < |s.targets| ==> s.targets[t].entry < s.targets[u].entry)
    && (forall i :: 0 <= i < |es| ==> IsOpened(es, s, port, i))
  }

  /** Listener `t` was opened by the entry that it serves. */
  ghost predicate OpensAt(es: seq<Node>, s: State, port: nat, t: nat) {
    && t < |s.targets| && s.targets[t].listen == port + t <= U16_MAX
    && s.targets[t].entry < |es| && s.targets[t].upstream == es[s.targets[t].entry].address
    && LocalOf(s, es[s.targets[t].entry], port + t)
  }

  ghost predicate IsOpened(es: seq<Node>, s: State, port: nat, i: nat) { exists t: nat :: OpenedBy(es, s, port, i, t) }

  /** Entry `i` is behind listener `t`, which an entry connected to it opened, no
      later than it. */
  ghost predicate OpenedBy(es: seq<Node>, s: State, port: nat, i: nat, t: nat) {
    i < |es| && t < |s.targets| && LocalOf(s, es[i], port + t) && s.targets[t].entry <= i
    && Connected(es, s.targets[t].entry, i)
  }

  ghost predicate Inv(es: seq<Node>, s: State, port: nat) { Filed(es, s) && Explained(es, s) && Opened(es, s, port) }

  /** What is filed stays filed. */
  ghost predicate Grows(s: State, t: State) {
    && (forall a :: a in s.byAddress ==> a in t.byAddress && t.byAddress[a] == s.byAddress[a])
    && (forall id :: id in s.byId ==> id in t.byId && t.byId[id] == s.byId[id])
    && (forall l :: l in s.idOf ==> l in t.idOf && t.idOf[l] == s.idOf[l])
    && s.targets <= t.targets
  }

  /** The entry `e` was filed at `local`, and nothing else was. */
  ghost predicate Adds(s: State, t: State, e: Node, local: nat) {
    && (forall a :: a in t.byAddress ==> a in s.byAddress || a == e.address)
    && (forall id :: id in t.byId ==> id in s.byId || Some(id) == e.id)
    && (forall l :: l in t.idOf ==> l in s.idOf || (l == local && e.id.Some?))
    && LocalOf(t, e, local)
    && (e.id.Some? ==> e.id.value in t.byId && t.byId[e.id.value] == local && local in t.idOf && t.idOf[local] == e.id.value)
  }

  lemma PlaceAdds(s: State, t: State, e: Node, i: nat, port: nat) returns (local: nat)
    requires Place(s, e, i, port) == Placed(t)
    requires forall l :: l in s.idOf ==> l < port + |s.targets|
    ensures Grows(s, t) && Adds(s, t, e, local)
    ensures t.targets == s.targets ==> Find(s.byAddress, e.address) == Some(local) || FindId(s, e) == Some(local)
    ensures t.targets != s.targets ==>
      local == port + |s.targets| <= U16_MAX && t.targets == s.targets + [Target(e.address, local, i)]
  {
    var byAddress, byId := Find(s.byAddress, e.address), FindId(s, e);
    local := if byId.Some? then byId.value else if byAddress.Some? then byAddress.value else port + |s.targets|;
    var u := Register(s, e, local);
    if byId.Some? || byAddress.Some? {
      assert t == u;
      RegisterGrows(s, e, local);
    } else {
      assert t == u.(targets := s.targets + [Target(e.address, local, i)]);
      RegisterGrows(s, e, local);
    }
  }

  /** Filing an entry where its address and its ID already are, if anywhere. */
  lemma RegisterGrows(s: State, e: Node, local: nat)
    requires e.address in s.byAddress ==> s.byAddress[e.address] == local
    requires e.id.Some? && e.id.value in s.byId ==> s.byId[e.id.value] == local
    requires e.id.Some? && local in s.idOf ==> s.idOf[local] == e.id.value
    ensures Grows(s, Register(s, e, local)) && Adds(s, Register(s, e, local), e, local)
    ensures Register(s, e, local).targets == s.targets
  {}

  lemma FiledStep(es: seq<Node>, s: State, t: State, local: nat)
    requires es != [] && Filed(es[..|es| - 1], s) && Grows(s, t) && Adds(s, t, es[|es| - 1], local)
    ensures Filed(es, t)
  {
    forall i | 0 <= i < |es| - 1 ensures es[i] == es[..|es| - 1][i] {}
  }

  lemma HasIdStep(es: seq<Node>, s: State, t: State, id: bytes, local: nat)
    requires es != [] && Grows(s, t) && HasId(es[..|es| - 1], s, id, local)
    ensures HasId(es, t, id, local)
  {
    var i :| 0 <= i < |es| - 1 && es[..|es| - 1][i].id == Some(id) && LocalOf(s, es[..|es| - 1][i], local);
    assert es[i] == es[..|es| - 1][i];
  }

  lemma HasAddressStep(es: seq<Node>, a: string)
    requires es != [] && HasAddress(es[..|es| - 1], a)
    ensures HasAddress(es, a)
  {
    var i :| 0 <= i < |es| - 1 && es[..|es| - 1][i].address == a;
    assert es[i] == es[..|es| - 1][i];
  }

  lemma ExplainedStep(es: seq<Node>, s: State, t: State, local: nat)
    requires es != [] && Explained(es[..|es| - 1], s) && Grows(s, t) && Adds(s, t, es[|es| - 1], local)
    ensures Explained(es, t)
  {
    var e := es[|es| - 1];
    assert HasAddress(es, e.address);
    assert e.id.Some? ==> HasId(es, t, e.id.value, local);
    hide HasAddress, HasId;
    forall a | a in t.byAddress ensures HasAddress(es, a) {
      if a in s.byAddress { HasAddressStep(es, a); }
    }
    forall id | id in t.byId ensures HasId(es, t, id, t.byId[id]) {
      if id in s.byId { HasIdStep(es, s, t, id, s.byId[id]); }
    }
    forall l | l in t.idOf ensures HasId(es, t, t.idOf[l], l) {
      if l in s.idOf { HasIdStep(es, s, t, s.idOf[l], l); }
    }
  }

  lemma IsOpenedStep(es: seq<Node>, s: State, t: State, port: nat, i: nat)
    requires i < |es| - 1 && Grows(s, t) && IsOpened(es[..|es| - 1], s, port, i)
    ensures IsOpened(es, t, port, i)
  {
    var u: nat :| OpenedBy(es[..|es| - 1], s, port, i, u);
    ConnectedExtends(es, |es| - 1, s.targets[u].entry, i);
    hide Connected;
    assert OpenedBy(es, t, port, i, u);
  }

  /** An entry placed with known ones touches one of them. */
  lemma KnownTouches(front: seq<Node>, s: State, e: Node, local: nat) returns (i: nat)
    requires Explained(front, s)
    requires Find(s.byAddress, e.address) == Some(local) || FindId(s, e) == Some(local)
    ensures i < |front| && LocalOf(s, front[i], local) && Touch(front[i], e)
  {
    if Find(s.byAddress, e.address) == Some(local) {
      assert HasAddress(front, e.address);
      i :| 0 <= i < |front| && front[i].address == e.address;
    } else {
      assert HasId(front, s, e.id.value, local);
      i :| 0 <= i < |front| && front[i].id == e.id && LocalOf(s, front[i], local);
    }
  }

  lemma KnownIsOpened(es: seq<Node>, s: State, t: State, local: nat, port: nat)
    requires es != [] && Inv(es[..|es| - 1], s, port) && Grows(s, t) && LocalOf(t, es[|es| - 1], local)
    requires Find(s.byAddress, es[|es| - 1].address) == Some(local) || FindId(s, es[|es| - 1]) == Some(local)
    ensures IsOpened(es, t, port, |es| - 1)
  {
    hide Connected, Explained, Filed, Find, FindId;
    var n := |es| - 1;
    var i := KnownTouches(es[..n], s, es[n], local);
    assert IsOpened(es[..n], s, port, i);
    var u: nat :| OpenedBy(es[..n], s, port, i, u);
    ConnectedExtends(es, n, s.targets[u].entry, i);
    ConnectedStep(es, s.targets[u].entry, i, n);
    hide Inv;
    assert OpenedBy(es, t, port, n, u);
  }

  lemma OpenedStep(es: seq<Node>, s: State, t: State, local: nat, port: nat)
    requires es != [] && Inv(es[..|es| - 1], s, port) && Place(s, es[|es| - 1], |es| - 1, port) == Placed(t)
    requires Grows(s, t) && Adds(s, t, es[|es| - 1], local)
    requires t.targets == s.targets ==>
      Find(s.byAddress, es[|es| - 1].address) == Some(local) || FindId(s, es[|es| - 1]) == Some(local)
    requires t.targets != s.targets ==>
      local == port + |s.targets| <= U16_MAX && t.targets == s.targets + [Target(es[|es| - 1].address, local, |es| - 1)]
    ensures Opened(es, t, port)
  {
    var n := |es| - 1;
    InvParts(es[..n], s, port);
    hide Place, Filed, Explained, Connected, Inv;
    forall i | 0 <= i < |es| ensures IsOpened(es, t, port, i) {
      if i < n {
        IsOpenedStep(es, s, t, port, i);
      } else if t.targets == s.targets {
        KnownIsOpened(es, s, t, local, port);
      } else {
        ConnectedSelf(es, n);
        assert OpenedBy(es, t, port, n, |s.targets|);
      }
    }
    hide IsOpened;
    forall u | 0 <= u < |t.targets| ensures OpensAt(es, t, port, u) { OpensAtStep(es, s, t, local, port, u); }
    forall u, v | 0 <= u < v < |t.targets| ensures t.targets[u].entry < t.targets[v].entry {
      assert OpensAt(es[..n], s, port, u);
      assert t.targets[u] == s.targets[u];
      if v < |s.targets| { assert t.targets[v] == s.targets[v]; }
    }
  }

  lemma OpensAtStep(es: seq<Node>, s: State, t: State, local: nat, port: nat, u: nat)
    requires es != [] && Opened(es[..|es| - 1], s, port) && u < |t.targets|
    requires Grows(s, t) && LocalOf(t, es[|es| - 1], local)
    requires t.targets != s.targets ==>
      local == port + |s.targets| <= U16_MAX && t.targets == s.targets + [Target(es[|es| - 1].address, local, |es| - 1)]
    ensures OpensAt(es, t, port, u)
  {
    hide IsOpened;
    if u < |s.targets| {
      assert OpensAt(es[..|es| - 1], s, port, u);
      var i := s.targets[u].entry;
      assert t.targets[u] == s.targets[u] && es[..|es| - 1][i] == es[i];
    }
  }

  lemma IdsBelow(es: seq<Node>, s: State, port: nat)
    requires Inv(es, s, port)
    ensures forall l :: l in s.idOf ==> l < port + |s.targets|
  {
    forall l | l in s.idOf ensures l < port + |s.targets| {
      assert HasId(es, s, s.idOf[l], l);
      var i: nat :| 0 <= i < |es| && es[i].id == Some(s.idOf[l]) && LocalOf(s, es[i], l);
      assert IsOpened(es, s, port, i);
    }
  }

  lemma InvEmpty(port: nat)
    ensures Inv([], EMPTY, port)
  {}

  lemma InvParts(es: seq<Node>, s: State, port: nat)
    ensures Inv(es, s, port) <==> Filed(es, s) && Explained(es, s) && Opened(es, s, port)
  {
    hide Filed, Explained, Opened;
  }

  lemma {:induction false} InvHolds(es: seq<Node>, port: nat)
    requires PlaceAll(es, port).Placed?
    ensures Inv(es, PlaceAll(es, port).state, port)
  {
    hide Place, Inv, Filed, Explained, Opened, Grows, Adds;
    if es == [] {
      InvEmpty(port);
    } else {
      var n := |es| - 1;
      InvHolds(es[..n], port);
      var s, t := PlaceAll(es[..n], port).state, PlaceAll(es, port).state;
      IdsBelow(es[..n], s, port);
      var local := PlaceAdds(s, t, es[n], n, port);
      OpenedStep(es, s, t, local, port);
      InvParts(es[..n], s, port);
      FiledStep(es, s, t, local);
      ExplainedStep(es, s, t, local);
      InvParts(es, t, port);
    }
  }

  // ------------------------------------------------------------------ theorems

  lemma {:induction false} ChainSharesListener(es: seq<Node>, s: State, c: seq<nat>)
    requires Filed(es, s) && Chain(es, c)
    ensures s.byAddress[es[c[0]].address] == s.byAddress[es[c[|c| - 1]].address]
    decreases |c|
  {
    if |c| > 1 {
      assert Touch(es[c[0]], es[c[1]]);
      assert Chain(es, c[1..]);
      ChainSharesListener(es, s, c[1..]);
    }
  }

  lemma SharedIsConnected(es: seq<Node>, s: State, port: nat, i: nat, j: nat)
    requires Inv(es, s, port) && i < |es| && j < |es|
    requires s.byAddress[es[i].address] == s.byAddress[es[j].address]
    ensures Connected(es, i, j)
  {
    assert IsOpened(es, s, port, i) && IsOpened(es, s, port, j);
    var t: nat :| OpenedBy(es, s, port, i, t);
    var u: nat :| OpenedBy(es, s, port, j, u);
    assert t == u;
    var root := s.targets[t].entry;
    var c :| Links(es, c, root, i);
    var d :| Links(es, d, root, j);
    ConnectedBack(es, c, root, i);
    ConnectedJoin(es, d, i, root, j);
  }

  /** A successful allocation computes the connected components of the entries:
      two share a listener if and only if they are linked by equal addresses or
      equal IDs, and so no listener has two IDs. */
  lemma ListenersAreComponents(es: seq<Node>, port: nat, i: nat, j: nat)
    requires PlaceAll(es, port).Placed? && i < |es| && j < |es|
    ensures var s := PlaceAll(es, port).state;
      && es[i].address in s.byAddress && es[j].address in s.byAddress
      && (s.byAddress[es[i].address] == s.byAddress[es[j].address] <==> Connected(es, i, j))
      && (Connected(es, i, j) && es[i].id.Some? && es[j].id.Some? ==> es[i].id == es[j].id)
  {
    var s := PlaceAll(es, port).state;
    InvHolds(es, port);
    hide PlaceAll;
    if s.byAddress[es[i].address] == s.byAddress[es[j].address] { SharedIsConnected(es, s, port, i, j); }
    if Connected(es, i, j) {
      var c :| Links(es, c, i, j);
      ChainSharesListener(es, s, c);
    }
  }

  /** Listener ports are consecutive from the configured one and fit in 16 bits; the
      `t`-th listener serves the first entry of the `t`-th component to appear, so
      those of primaries, which come first, keep the lowest ports in their order. */
  lemma PortsAreGapless(es: seq<Node>, port: nat)
    requires PlaceAll(es, port).Placed?
    ensures Opened(es, PlaceAll(es, port).state, port)
  {
    hide Opened;
    InvHolds(es, port);
  }

  // ------------------------------------------------------------ order of ports

  ghost predicate AllPlaced(ns: seq<Node>, s: State) { forall i :: 0 <= i < |ns| ==> ns[i].address in s.byAddress }

  /** The ports at which the nodes are placed. */
  ghost function PortsAt(ns: seq<Node>, s: State): (r: set<nat>)
    requires AllPlaced(ns, s)
  {
    set i | 0 <= i < |ns| :: s.byAddress[ns[i].address]
  }

  lemma PortsOfConcat(a: seq<Node>, b: seq<Node>, s: State)
    requires AllPlaced(a, s) && AllPlaced(b, s)
    ensures AllPlaced(a + b, s) && PortsAt(a + b, s) == PortsAt(a, s) + PortsAt(b, s)
  {
    var ab := a + b;
    forall p ensures p in PortsAt(ab, s) <==> p in PortsAt(a, s) + PortsAt(b, s) {
      if p in PortsAt(a, s) {
        var i :| 0 <= i < |a| && s.byAddress[a[i].address] == p;
        assert ab[i] == a[i];
      }
      if p in PortsAt(b, s) {
        var i :| 0 <= i < |b| && s.byAddress[b[i].address] == p;
        assert ab[|a| + i] == b[i];
      }
    }
  }

  ghost function From(port: nat, n: nat): (r: set<nat>)
    ensures |r| == n && forall x :: x in r <==> port <= x < port + n
  {
    if n == 0 then {} else From(port, n - 1) + {port + n - 1}
  }

  /** The entries of an accepted list take ports without a gap. */
  lemma PortsAreFrom(es: seq<Node>, port: nat)
    requires PlaceAll(es, port).Placed?
    ensures var s := PlaceAll(es, port).state; AllPlaced(es, s) && PortsAt(es, s) == From(port, |s.targets|)
  {
    var s := PlaceAll(es, port).state;
    InvHolds(es, port);
    InvParts(es, s, port);
    hide PlaceAll, Inv, Explained, Connected;
    forall p ensures p in PortsAt(es, s) <==> p in From(port, |s.targets|) {
      if p in PortsAt(es, s) {
        var i: nat :| i < |es| && s.byAddress[es[i].address] == p;
        assert IsOpened(es, s, port, i);
      }
      if p in From(port, |s.targets|) { assert OpensAt(es, s, port, p - port); }
    }
  }

  lemma {:induction false} PrefixGrows(es: seq<Node>, n: nat, port: nat)
    requires PlaceAll(es, port).Placed? && n <= |es|
    ensures PlaceAll(es[..n], port).Placed? && Grows(PlaceAll(es[..n], port).state, PlaceAll(es, port).state)
    decreases |es|
  {
    hide Place, Inv;
    if n == |es| {
      assert es[..n] == es;
    } else {
      var front, e := es[..|es| - 1], es[|es| - 1];
      assert front[..n] == es[..n];
      PrefixGrows(front, n, port);
      InvHolds(front, port);
      IdsBelow(front, PlaceAll(front, port).state, port);
      var local := PlaceAdds(PlaceAll(front, port).state, PlaceAll(es, port).state, e, |front|, port);
      GrowsChain(PlaceAll(es[..n], port).state, PlaceAll(front, port).state, PlaceAll(es, port).state);
    }
  }

  lemma GrowsChain(s: State, t: State, u: State)
    requires Grows(s, t) && Grows(t, u)
    ensures Grows(s, u)
  {}

  lemma GrowsKeepsPorts(ns: seq<Node>, s: State, t: State)
    requires AllPlaced(ns, s) && Grows(s, t)
    ensures AllPlaced(ns, t) && PortsAt(ns, t) == PortsAt(ns, s)
  {}

  /** An entry takes a port that an earlier one has, or the next. */
  lemma EntryTakesNext(es: seq<Node>, front: seq<Node>, e: Node, port: nat)
    requires PlaceAll(es, port).Placed? && front + [e] <= es
    ensures var s := PlaceAll(es, port).state;
      AllPlaced(front, s) && e.address in s.byAddress && NextPort(port, PortsAt(front, s), s.byAddress[e.address])
  {
    hide Place, PlaceAll, Inv, Explained, Opened, Filed, Grows, Adds, PortsAt, AllPlaced, Find, FindId;
    var n := |front|;
    assert (front + [e])[n] == e == es[n] && es[..n] == front && es[..n + 1] == front + [e];
    PrefixGrows(es, n, port);
    PrefixGrows(es, n + 1, port);
    PlaceStep(es, n, port);
    var s, t := PlaceAll(front, port).state, PlaceAll(front + [e], port).state;
    PortsAreFrom(front, port);
    GrowsKeepsPorts(front, s, PlaceAll(es, port).state);
    InvHolds(front, port);
    InvParts(front, s, port);
    IdsBelow(front, s, port);
    var local := PlaceAdds(s, t, e, n, port);
    StaysAt(s, t, PlaceAll(es, port).state, e, local);
    if t.targets == s.targets {
      var i := KnownTouches(front, s, e, local);
      IsAmong(front, s, i, local);
    }
  }

  lemma StaysAt(s: State, t: State, u: State, e: Node, local: nat)
    requires Adds(s, t, e, local) && Grows(t, u)
    ensures LocalOf(u, e, local)
  {}

  lemma IsAmong(ns: seq<Node>, s: State, i: nat, local: nat)
    requires AllPlaced(ns, s) && i < |ns| && LocalOf(s, ns[i], local)
    ensures local in PortsAt(ns, s)
  {}

  lemma {:induction false} ReplicasPrefix(slots: seq<Range>, j: nat)
    requires j < |slots|
    ensures Replicas(slots[..j]) + slots[j].replicas <= Replicas(slots)
  {
    if j < |slots| - 1 {
      var front := slots[..|slots| - 1];
      assert front[..j] == slots[..j];
      ReplicasPrefix(front, j);
    }
  }

  ghost predicate ArePlaced(s: State, slots: seq<Range>, ls: seq<LocalRange>) {
    |ls| == |slots| && forall i :: 0 <= i < |slots| ==> IsPlaced(s, slots[i], ls[i])
  }

  lemma PrimaryPortsAt(s: State, slots: seq<Range>, ls: seq<LocalRange>)
    requires ArePlaced(s, slots, ls)
    ensures AllPlaced(Primaries(slots), s) && PortsAt(Primaries(slots), s) == PrimaryPorts(ls)
  {
    forall p ensures p in PortsAt(Primaries(slots), s) <==> p in PrimaryPorts(ls) {
      if p in PrimaryPorts(ls) {
        var l :| l in ls && l.primary == p;
        var i :| 0 <= i < |ls| && ls[i] == l;
        assert IsPlaced(s, slots[i], ls[i]);
      }
      if p in PortsAt(Primaries(slots), s) {
        var i :| 0 <= i < |slots| && s.byAddress[slots[i].primary.address] == p;
        assert IsPlaced(s, slots[i], ls[i]) && ls[i] in ls;
      }
    }
  }

  lemma ElementsAt(s: State, ns: seq<Node>, ports: seq<nat>, k: nat)
    requires |ns| == |ports| && k <= |ns| && forall i :: 0 <= i < |ns| ==> LocalOf(s, ns[i], ports[i])
    ensures AllPlaced(ns[..k], s) && PortsAt(ns[..k], s) == Elements(ports[..k])
  {
    forall p ensures p in PortsAt(ns[..k], s) <==> p in Elements(ports[..k]) {
      if p in Elements(ports[..k]) {
        var i :| 0 <= i < k && ports[..k][i] == p;
        assert ns[..k][i] == ns[i];
      }
      if p in PortsAt(ns[..k], s) {
        var i :| 0 <= i < k && s.byAddress[ns[..k][i].address] == p;
        assert ports[..k][i] == p;
      }
    }
  }

  lemma {:induction false} ReplicaPortsAt(s: State, slots: seq<Range>, ls: seq<LocalRange>)
    requires ArePlaced(s, slots, ls)
    ensures AllPlaced(Replicas(slots), s) && PortsAt(Replicas(slots), s) == ReplicaPorts(ls)
  {
    if slots != [] {
      var n := |slots| - 1;
      ReplicaPortsAt(s, slots[..n], ls[..n]);
      var ns, ports := slots[n].replicas, ls[n].replicas;
      assert IsPlaced(s, slots[n], ls[n]);
      ElementsAt(s, ns, ports, |ns|);
      assert ns[..|ns|] == ns && ports[..|ns|] == ports;
      PortsOfConcat(Replicas(slots[..n]), ns, s);
      hide PortsAt;
    }
  }

  lemma PrimariesPrefix(slots: seq<Range>, j: nat)
    requires j < |slots|
    ensures Primaries(slots[..j]) + [slots[j].primary] <= Entries(slots)
  {
    var front := Primaries(slots[..j]) + [slots[j].primary];
    assert forall i :: 0 <= i < |front| ==> front[i] == Entries(slots)[i];
  }

  lemma PrimaryInOrder(slots: seq<Range>, port: nat, ls: seq<LocalRange>, j: nat)
    requires PlaceAll(Entries(slots), port).Placed? && j < |slots|
    requires ArePlaced(PlaceAll(Entries(slots), port).state, slots, ls)
    ensures PrimaryComesNext(port, ls, j)
  {
    hide PlaceAll, Entries, PortsAt, PrimaryPorts, NextPort;
    var s := PlaceAll(Entries(slots), port).state;
    PrimariesPrefix(slots, j);
    EntryTakesNext(Entries(slots), Primaries(slots[..j]), slots[j].primary, port);
    PrimaryPortsAt(s, slots[..j], ls[..j]);
    assert IsPlaced(s, slots[j], ls[j]);
  }

  lemma ReplicaInOrder(slots: seq<Range>, port: nat, ls: seq<LocalRange>, j: nat, k: nat)
    requires PlaceAll(Entries(slots), port).Placed? && j < |slots|
    requires ArePlaced(PlaceAll(Entries(slots), port).state, slots, ls) && k < |ls[j].replicas|
    ensures ReplicaComesNext(port, ls, j, k)
  {
    hide PlaceAll, PortsAt, PrimaryPorts, ReplicaPorts, Elements, NextPort, Replicas, Primaries;
    var es, s := Entries(slots), PlaceAll(Entries(slots), port).state;
    assert IsPlaced(s, slots[j], ls[j]);
    var ns, before := slots[j].replicas, Replicas(slots[..j]);
    ReplicasPrefix(slots, j);
    var front := Primaries(slots) + before + ns[..k];
    InOrder(Primaries(slots), before, ns, k, Replicas(slots));
    EntryTakesNext(es, front, ns[k], port);
    PrimaryPortsAt(s, slots, ls);
    ReplicaPortsAt(s, slots[..j], ls[..j]);
    ElementsAt(s, ns, ls[j].replicas, k);
    PortsOfConcat(Primaries(slots), before, s);
    PortsOfConcat(Primaries(slots) + before, ns[..k], s);
  }

  lemma InOrder<T>(a: seq<T>, b: seq<T>, c: seq<T>, k: nat, rest: seq<T>)
    requires k < |c| && b + c <= rest
    ensures (a + b + c[..k]) + [c[k]] <= a + rest
  {
    assert c[..k] + [c[k]] == c[..k + 1] && (b + c)[..|b| + k + 1] == b + c[..k + 1];
    assert rest[..|b| + k + 1] == (b + c)[..|b| + k + 1];
    assert (a + rest)[..|a| + |b| + k + 1] == a + rest[..|b| + k + 1];
    assert (a + b + c[..k]) + [c[k]] == a + (b + c[..k + 1]);
  }

  lemma TargetsInOrder(slots: seq<Range>, port: nat, t: Topology, u: nat)
    requires PlaceAll(Entries(slots), port).Placed? && ArePlaced(PlaceAll(Entries(slots), port).state, slots, t.slots)
    requires t.targets == PlaceAll(Entries(slots), port).state.targets && u < |t.targets|
    ensures IsPrimaryTarget(port, t, u)
  {
    hide PlaceAll, PortsAt, AllPlaced, PrimaryPorts, Inv, Explained, Filed, Opened, Grows, ArePlaced, Entries;
    var es, s, n := Entries(slots), PlaceAll(Entries(slots), port).state, |slots|;
    InvHolds(es, port);
    InvParts(es, s, port);
    OpenedAt(es, s, port, u);
    EntriesStart(slots);
    PrefixGrows(es, n, port);
    PortsAreFrom(es[..n], port);
    GrowsKeepsPorts(es[..n], PlaceAll(es[..n], port).state, s);
    PrimaryPortsAt(s, slots, t.slots);
    assert PrimaryPorts(t.slots) == From(port, |PlaceAll(es[..n], port).state.targets|);
  }

  lemma OpenedAt(es: seq<Node>, s: State, port: nat, u: nat)
    requires Opened(es, s, port) && u < |s.targets|
    ensures s.targets[u].listen == port + u
  {
    assert OpensAt(es, s, port, u);
  }

  lemma EntriesStart(slots: seq<Range>)
    ensures |slots| <= |Entries(slots)| && Entries(slots)[..|slots|] == Primaries(slots)
  {}

  /** What the two passes leave: primaries first, then replicas. */
  lemma PortsInOrder(slots: seq<Range>, port: nat, t: Topology)
    requires PlaceAll(Entries(slots), port).Placed? && ArePlaced(PlaceAll(Entries(slots), port).state, slots, t.slots)
    requires t.targets == PlaceAll(Entries(slots), port).state.targets
    ensures PrimariesFirst(port, t) && ReplicasNext(port, t)
  {
    hide PlaceAll, Entries, ArePlaced, PrimaryPorts, PrimaryComesNext, ReplicaComesNext, IsPrimaryTarget;
    var ls := t.slots;
    SlotsAsMany(PlaceAll(Entries(slots), port).state, slots, ls);
    forall j: nat | j < |ls| ensures PrimaryComesNext(port, ls, j) { PrimaryInOrder(slots, port, ls, j); }
    forall j: nat, k: nat | j < |ls| && k < |ls[j].replicas| ensures ReplicaComesNext(port, ls, j, k) {
      ReplicaInOrder(slots, port, ls, j, k);
    }
    forall u: nat | u < |t.targets| ensures IsPrimaryTarget(port, t, u) { TargetsInOrder(slots, port, t, u); }
  }

  lemma SlotsAsMany(s: State, slots: seq<Range>, ls: seq<LocalRange>)
    requires ArePlaced(s, slots, ls)
    ensures |ls| == |slots|
  {}

  // ------------------------------------------------------------------ refusals

  lemma FiledAddress(front: seq<Node>, s: State, address: string, local: nat) returns (i: nat)
    requires Explained(front, s) && Find(s.byAddress, address) == Some(local)
    ensures i < |front| && front[i].address == address && LocalOf(s, front[i], local)
  {
    assert HasAddress(front, address);
    i :| 0 <= i < |front| && front[i].address == address;
  }

  lemma FiledId(front: seq<Node>, s: State, id: bytes, local: nat) returns (i: nat)
    requires Explained(front, s) && Find(s.byId, id) == Some(local)
    ensures i < |front| && front[i].id == Some(id) && LocalOf(s, front[i], local)
  {
    assert HasId(front, s, id, local);
    i :| 0 <= i < |front| && front[i].id == Some(id) && LocalOf(s, front[i], local);
  }

  /** The next entry names two components: one by its address, one by its ID. */
  ghost predicate Splits(front: seq<Node>, e: Node, i: nat, j: nat) {
    i < |front| && j < |front| && front[i].address == e.address && e.id.Some? && front[j].id == e.id
    && !Connected(front, i, j)
  }

  /** An entry is refused as a split exactly when it would join two components that
      already have listeners of their own. */
  lemma SplitIsExact(front: seq<Node>, e: Node, port: nat)
    requires PlaceAll(front, port).Placed?
    ensures Place(PlaceAll(front, port).state, e, |front|, port) == Refused(Split) <==>
            exists i: nat, j: nat :: Splits(front, e, i, j)
  {
    var s := PlaceAll(front, port).state;
    InvHolds(front, port);
    var byAddress, byId := Find(s.byAddress, e.address), FindId(s, e);
    if byAddress.Some? && byId.Some? && byAddress != byId {
      var i := FiledAddress(front, s, e.address, byAddress.value);
      var j := FiledId(front, s, e.id.value, byId.value);
      ListenersAreComponents(front, port, i, j);
      hide Connected, PlaceAll;
      assert Splits(front, e, i, j);
    }
    if exists i: nat, j: nat :: Splits(front, e, i, j) {
      var i: nat, j: nat :| Splits(front, e, i, j);
      ListenersAreComponents(front, port, i, j);
      hide Connected, PlaceAll;
    }
  }

  /** The next entry touches a component that holds another ID. */
  ghost predicate Clashes(front: seq<Node>, e: Node, i: nat, j: nat) {
    i < |front| && j < |front| && Touch(front[i], e) && Connected(front, i, j)
    && e.id.Some? && front[j].id.Some? && front[j].id != e.id
  }

  lemma TouchedListener(front: seq<Node>, s: State, e: Node, i: nat)
    requires Filed(front, s) && i < |front| && Touch(front[i], e)
    ensures var local := s.byAddress[front[i].address];
      Find(s.byAddress, e.address) == Some(local) || FindId(s, e) == Some(local)
  {}

  /** An entry that joins one component is refused for its ID exactly when that
      component already has a different one. */
  lemma ClashIsExact(front: seq<Node>, e: Node, port: nat)
    requires PlaceAll(front, port).Placed?
    requires Place(PlaceAll(front, port).state, e, |front|, port) != Refused(Split)
    ensures Place(PlaceAll(front, port).state, e, |front|, port) == Refused(TwoIds) <==>
            exists i: nat, j: nat :: Clashes(front, e, i, j)
  {
    var s := PlaceAll(front, port).state;
    InvHolds(front, port);
    if Place(s, e, |front|, port) == Refused(TwoIds) {
      var local := if FindId(s, e).Some? then FindId(s, e).value else Find(s.byAddress, e.address).value;
      var i := KnownTouches(front, s, e, local);
      assert HasId(front, s, s.idOf[local], local);
      var j: nat :| j < |front| && front[j].id == Some(s.idOf[local]) && LocalOf(s, front[j], local);
      ListenersAreComponents(front, port, i, j);
      hide Connected, PlaceAll;
      assert Clashes(front, e, i, j);
    }
    if exists i: nat, j: nat :: Clashes(front, e, i, j) {
      var i: nat, j: nat :| Clashes(front, e, i, j);
      TouchedListener(front, s, e, i);
      ListenersAreComponents(front, port, i, j);
      hide Connected, PlaceAll;
    }
  }

  /** Some earlier entry names the same node. */
  ghost predicate Touched(front: seq<Node>, e: Node) { exists i :: 0 <= i < |front| && Touch(front[i], e) }

  /** The number of entries that no earlier entry touches. */
  ghost function Openers(es: seq<Node>): (n: nat)
    ensures n <= |es|
  {
    if es == [] then 0
    else Openers(es[..|es| - 1]) + (if Touched(es[..|es| - 1], es[|es| - 1]) then 0 else 1)
  }

  lemma TouchedIsKnown(front: seq<Node>, e: Node, port: nat)
    requires PlaceAll(front, port).Placed?
    ensures var s := PlaceAll(front, port).state;
      Touched(front, e) <==> Find(s.byAddress, e.address).Some? || FindId(s, e).Some?
  {
    var s := PlaceAll(front, port).state;
    InvHolds(front, port);
    hide PlaceAll, Opened;
    if Touched(front, e) {
      var i :| 0 <= i < |front| && Touch(front[i], e);
      TouchedListener(front, s, e, i);
    } else if Find(s.byAddress, e.address).Some? {
      var i := KnownTouches(front, s, e, Find(s.byAddress, e.address).value);
    } else if FindId(s, e).Some? {
      var i := KnownTouches(front, s, e, FindId(s, e).value);
    }
  }

  /** A successful allocation opens one listener for each entry that no earlier one
      touches. */
  lemma {:induction false} ListenersAreOpeners(es: seq<Node>, port: nat)
    requires PlaceAll(es, port).Placed?
    ensures |PlaceAll(es, port).state.targets| == Openers(es)
  {
    if es != [] {
      var front, e := es[..|es| - 1], es[|es| - 1];
      ListenersAreOpeners(front, port);
      TouchedIsKnown(front, e, port);
      hide Touched;
    }
  }

  ghost predicate Splitting(front: seq<Node>, e: Node) { exists i: nat, j: nat :: Splits(front, e, i, j) }
  ghost predicate Clashing(front: seq<Node>, e: Node) { exists i: nat, j: nat :: Clashes(front, e, i, j) }

  /** Why the entry is refused after entries that were accepted, if it is. */
  ghost function Verdict(front: seq<Node>, e: Node, port: nat): (r: Option<Reason>) {
    if Splitting(front, e) then Some(Split)
    else if Clashing(front, e) then Some(TwoIds)
    else if !Touched(front, e) && port + Openers(front) > U16_MAX then Some(PortOverflow)
    else None
  }

  /** No entry joins two components or brings a second ID to one, and there is a port
      for each entry that no earlier one touches. */
  ghost predicate Acceptable(es: seq<Node>, port: nat) {
    && (forall k :: 0 <= k < |es| ==> !Splitting(es[..k], es[k]) && !Clashing(es[..k], es[k]))
    && port + Openers(es) <= U16_MAX + 1
  }

  lemma PlaceIsExact(front: seq<Node>, e: Node, port: nat)
    requires 0 < port <= U16_MAX && PlaceAll(front, port).Placed?
    ensures var p := Place(PlaceAll(front, port).state, e, |front|, port);
      if p.Placed? then Verdict(front, e, port) == None else Verdict(front, e, port) == Some(p.reason)
  {
    SplitIsExact(front, e, port);
    hide Splits, Clashes;
    if Place(PlaceAll(front, port).state, e, |front|, port) != Refused(Split) { ClashIsExact(front, e, port); }
    TouchedIsKnown(front, e, port);
    ListenersAreOpeners(front, port);
    InvHolds(front, port);
    hide PlaceAll, Inv, Touched, Openers;
    FewListeners(front, PlaceAll(front, port).state, port);
  }

  lemma FewListeners(es: seq<Node>, s: State, port: nat)
    requires Inv(es, s, port) && 0 < port <= U16_MAX
    ensures port + |s.targets| <= U16_MAX + 1
  {
    if s.targets != [] { assert OpensAt(es, s, port, |s.targets| - 1); }
  }

  lemma AcceptableStep(es: seq<Node>, port: nat)
    requires es != [] && port <= U16_MAX
    ensures Acceptable(es, port) <==>
      Acceptable(es[..|es| - 1], port) && Verdict(es[..|es| - 1], es[|es| - 1], port) == None
  {
    hide Splitting, Clashing, Touched;
    var n := |es| - 1;
    assert forall k :: 0 <= k < n ==> es[..n][..k] == es[..k] && es[..n][k] == es[k];
    if Acceptable(es[..n], port) && Verdict(es[..n], es[n], port) == None {
      forall k | 0 <= k < |es| ensures !Splitting(es[..k], es[k]) && !Clashing(es[..k], es[k]) {
        if k < n { assert !Splitting(es[..n][..k], es[..n][k]); }
      }
    }
    if Acceptable(es, port) {
      assert !Splitting(es[..n], es[n]);
      forall k | 0 <= k < n ensures !Splitting(es[..n][..k], es[..n][k]) && !Clashing(es[..n][..k], es[..n][k]) {
        assert !Splitting(es[..k], es[k]);
      }
    }
  }

  /** The allocation succeeds exactly on the acceptable lists of entries. */
  lemma {:induction false} AllocationIsExact(es: seq<Node>, port: nat)
    requires 0 < port <= U16_MAX
    ensures PlaceAll(es, port).Placed? <==> Acceptable(es, port)
  {
    hide Place, Verdict, Acceptable;
    if es == [] {
      assert Acceptable([], port) by { hide *; EmptyIsAcceptable(port); }
    } else {
      var n := |es| - 1;
      AllocationIsExact(es[..n], port);
      AcceptableStep(es, port);
      if PlaceAll(es[..n], port).Placed? { PlaceIsExact(es[..n], es[n], port); }
    }
  }

  lemma EmptyIsAcceptable(port: nat)
    requires port <= U16_MAX
    ensures Acceptable([], port)
  {}

  ghost predicate FirstRefused(es: seq<Node>, port: nat, reason: Reason, k: nat) {
    k < |es| && Acceptable(es[..k], port) && Verdict(es[..k], es[k], port) == Some(reason)
  }

  /** A refusal is the verdict on the first entry that makes the list unacceptable;
      with a port that is not zero, it is a split, a second ID or a port overflow. */
  lemma {:induction false} RefusalIsExact(es: seq<Node>, port: nat, reason: Reason)
    requires 0 < port <= U16_MAX
    ensures PlaceAll(es, port) == Refused(reason) <==> exists k: nat :: FirstRefused(es, port, reason, k)
    ensures PlaceAll(es, port) == Refused(reason) ==> reason == Split || reason == TwoIds || reason == PortOverflow
  {
    hide Place, Acceptable, Splitting, Clashing, Touched;
    if PlaceAll(es, port) == Refused(reason) {
      var n := |es| - 1;
      if PlaceAll(es[..n], port).Refused? {
        RefusalIsExact(es[..n], port, reason);
        var k: nat :| FirstRefused(es[..n], port, reason, k);
        assert es[..n][..k] == es[..k] && es[..n][k] == es[k];
        assert FirstRefused(es, port, reason, k);
      } else {
        AllocationIsExact(es[..n], port);
        PlaceIsExact(es[..n], es[n], port);
        assert FirstRefused(es, port, reason, n);
      }
    }
    if exists k: nat :: FirstRefused(es, port, reason, k) {
      var k: nat :| FirstRefused(es, port, reason, k);
      AllocationIsExact(es[..k], port);
      PlaceIsExact(es[..k], es[k], port);
      PlaceStep(es, k, port);
      RefusedStays(es, k + 1, port);
    }
  }

  const OLD: Node := Node("a:1", 1, None)
  const OTHER: Node := Node("b:1", 1, Some([1]))
  const BOTH: Node := Node("a:1", 1, Some([1]))

  /** Success depends on the order of the entries: the same three are refused in one
      order and share one listener in another. */
  lemma OrderMatters(port: nat)
    requires 0 < port < U16_MAX
    ensures PlaceAll([OLD, OTHER, BOTH], port) == Refused(Split)
    ensures PlaceAll([BOTH, OTHER, OLD], port).Placed? && |PlaceAll([BOTH, OTHER, OLD], port).state.targets| == 1
  {
    PlaceThree(OLD, OTHER, BOTH, port);
    PlaceThree(BOTH, OTHER, OLD, port);
    hide PlaceAll;
    assert "a:1"[0] != "b:1"[0];
  }

  lemma PlaceThree(a: Node, b: Node, c: Node, port: nat)
    ensures var p := Place(EMPTY, a, 0, port);
      PlaceAll([a, b, c], port) == if p.Refused? then p else
        var q := Place(p.state, b, 1, port); if q.Refused? then q else Place(q.state, c, 2, port)
  {
    hide Place;
    assert [a, b, c][..2] == [a, b] && [a, b][..1] == [a] && [a][..0] == [];
    assert PlaceAll([a], port) == Place(EMPTY, a, 0, port);
  }
}
