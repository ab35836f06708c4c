// Registration of services and protocols through a network of message dispatchers: a
// flood with a re-entrancy guard that fills first-writer-wins routing tables.
module MessageDispatching {

  import opened Wrappers

  // The service table and the protocol table of a dispatcher.
  datatype Kind = Service | Protocol

  datatype Primitive = Request | Response | Indication | Confirm

  // An entry of either table; registrations for any protocol have the number -1.
  datatype Key = Key(kind: Kind, protocolId: int, primitive: Primitive)

  const ANY := -1

  function KeyOf(kind: Kind, protocol: Option<int>, primitive: Primitive): Key {
    Key(kind, if protocol.None? then ANY else protocol.value, primitive)
  }

  lemma KeyKind(kind: Kind, protocol: Option<int>, primitive: Primitive)
    ensures KeyOf(kind, protocol, primitive).kind == kind
  {
  }

  // A gate of a dispatcher: its input and its output gate with one index.
  datatype Port = Port(owner: MessageDispatcher, index: nat)

  // The connections of a network and, for a tree, how far each dispatcher is from the one
  // where a registration arrives and which of its gates leads there.
  datatype Net = Net(
    nodes: set<MessageDispatcher>,
    ports: map<MessageDispatcher, seq<Option<Port>>>,
    dist: map<MessageDispatcher, nat>,
    up: map<MessageDispatcher, nat>)
  {
    // Every connection ends at a dispatcher of the network.
    ghost predicate Closed() {
      && nodes <= ports.Keys
      && forall x, i :: x in nodes && 0 <= i < |ports[x]| && ports[x][i].Some? ==> ports[x][i].value.owner in nodes
    }

    // A connection goes both ways, and joins a dispatcher to one a hop further whose
    // gate toward the origin is this connection.
    ghost predicate Edge(x: MessageDispatcher, i: nat)
      requires Closed() && x in nodes && i < |ports[x]| && nodes <= dist.Keys && nodes <= up.Keys
    {
      match ports[x][i]
      case None => true
      case Some(Port(y, j)) =>
        && j < |ports[y]| && ports[y][j] == Some(Port(x, i))
        && if i == up[x] then dist[x] == dist[y] + 1 else dist[y] == dist[x] + 1 && up[y] == j
    }

    // A tree of dispatchers seen from the one where the registration arrives.
    ghost predicate Tree(origin: MessageDispatcher) {
      && Closed() && nodes <= dist.Keys && nodes <= up.Keys && origin in nodes
      && (forall x, i :: x in nodes && 0 <= i < |ports[x]| ==> Edge(x, i))
      && dist[origin] == 0 && (up[origin] < |ports[origin]| ==> ports[origin][up[origin]].None?)
      && forall x :: x in nodes && x != origin ==> dist[x] > 0 && up[x] < |ports[x]| && ports[x][up[x]].Some?
    }

    // The next dispatcher toward the origin.
    ghost function Parent(origin: MessageDispatcher, x: MessageDispatcher): (p: MessageDispatcher)
      requires Tree(origin) && x in nodes && x != origin
      ensures p in nodes && dist[x] == dist[p] + 1
    {
      assert Edge(x, up[x]);
      ports[x][up[x]].value.owner
    }

    // d is on the way from x to the origin.
    ghost predicate Under(origin: MessageDispatcher, x: MessageDispatcher, d: MessageDispatcher)
      requires Tree(origin) && x in nodes
      decreases dist[x]
    {
      x == d || (x != origin && Under(origin, Parent(origin, x), d))
    }

    // The gate of d that leads to x.
    ghost function Via(origin: MessageDispatcher, x: MessageDispatcher, d: MessageDispatcher): nat
      requires Tree(origin) && x in nodes && Under(origin, x, d) && x != d
      decreases dist[x]
    {
      assert Edge(x, up[x]);
      if Parent(origin, x) == d then ports[x][up[x]].value.index else Via(origin, Parent(origin, x), d)
    }

    lemma {:induction false} UnderDistance(origin: MessageDispatcher, x: MessageDispatcher, d: MessageDispatcher)
      requires Tree(origin) && x in nodes && Under(origin, x, d)
      ensures d in nodes && dist[d] <= dist[x] && (x != d ==> dist[d] < dist[x])
      decreases dist[x]
    {
      if x != d {
        UnderDistance(origin, Parent(origin, x), d);
      }
    }

    lemma {:induction false} AllUnderOrigin(origin: MessageDispatcher, x: MessageDispatcher)
      requires Tree(origin) && x in nodes
      ensures Under(origin, x, origin)
      decreases dist[x]
    {
      if x != origin {
        AllUnderOrigin(origin, Parent(origin, x));
      }
    }

    // A registration that arrives at d gets to x: every dispatcher on the way from d, x
    // apart, forwards registrations of this kind.
    ghost predicate Reached(origin: MessageDispatcher, x: MessageDispatcher, d: MessageDispatcher, kind: Kind)
      requires Tree(origin) && x in nodes
      decreases dist[x]
    {
      x == d || (x != origin && Parent(origin, x).Forwards(kind) && Reached(origin, Parent(origin, x), d, kind))
    }

    lemma {:induction false} ReachedUnder(origin: MessageDispatcher, x: MessageDispatcher, d: MessageDispatcher,
                                         kind: Kind)
      requires Tree(origin) && x in nodes && Reached(origin, x, d, kind)
      ensures Under(origin, x, d) && (x != d ==> d.Forwards(kind))
      decreases dist[x]
    {
      if x != d {
        ReachedUnder(origin, Parent(origin, x), d, kind);
      }
    }

    // What a forwarding dispatcher gets to is what its neighbours get to.
    lemma {:induction false} ReachedKid(origin: MessageDispatcher, d: MessageDispatcher, i: nat, x: MessageDispatcher,
                                        kind: Kind)
      requires Tree(origin) && d in nodes && x in nodes && d.Forwards(kind)
      requires i < |ports[d]| && i != up[d] && ports[d][i].Some?
      requires Under(origin, x, ports[d][i].value.owner)
      ensures Reached(origin, x, d, kind) <==> Reached(origin, x, ports[d][i].value.owner, kind)
      decreases dist[x]
    {
      var k := ports[d][i].value.owner;
      assert Edge(d, i) && Edge(k, ports[d][i].value.index);
      UnderDistance(origin, x, k);
      if x != k {
        ReachedKid(origin, d, i, Parent(origin, x), kind);
      }
    }

    lemma {:induction false} AllReached(origin: MessageDispatcher, x: MessageDispatcher, kind: Kind)
      requires Tree(origin) && x in nodes && forall y :: y in nodes ==> y.Forwards(kind)
      ensures Reached(origin, x, origin, kind)
      decreases dist[x]
    {
      if x != origin {
        AllReached(origin, Parent(origin, x), kind);
      }
    }

    // The dispatchers beyond a gate that leads away from the origin are those under the
    // dispatcher at its other end.
    lemma {:induction false} BeyondGate(origin: MessageDispatcher, d: MessageDispatcher, i: nat, x: MessageDispatcher)
      requires Tree(origin) && d in nodes && x in nodes
      requires i < |ports[d]| && i != up[d] && ports[d][i].Some?
      ensures Under(origin, x, ports[d][i].value.owner)
              <==> Under(origin, x, d) && x != d && Via(origin, x, d) == i
      decreases dist[x]
    {
      var k := ports[d][i].value.owner;
      assert Edge(d, i) && Edge(k, ports[d][i].value.index);
      if x == d {
        if Under(origin, x, k) {
          UnderDistance(origin, x, k);
        }
      } else if x != origin {
        var p := Parent(origin, x);
        assert Edge(x, up[x]);
        if p != d {
          BeyondGate(origin, d, i, p);
        } else if Under(origin, d, k) {
          UnderDistance(origin, d, k);
        }
      }
    }

    // No dispatcher lies beyond the gate toward the origin or an unconnected gate.
    lemma {:induction false} BeyondNothing(origin: MessageDispatcher, d: MessageDispatcher, x: MessageDispatcher)
      requires Tree(origin) && x in nodes && Under(origin, x, d) && x != d
      ensures d in nodes
      ensures var i := Via(origin, x, d); i < |ports[d]| && i != up[d] && ports[d][i].Some?
      decreases dist[x]
    {
      UnderDistance(origin, x, d);
      var p := Parent(origin, x);
      assert Edge(x, up[x]);
      if p != d {
        BeyondNothing(origin, d, p);
      } else {
        assert Edge(d, ports[x][up[x]].value.index);
      }
    }
  }

  // The tables of all dispatchers at one moment.
  type Tables = map<MessageDispatcher, map<Key, nat>>

  // No entry changes, and only the given key is added.
  ghost predicate Grown(before: Tables, after: Tables, key: Key) {
    && before.Keys == after.Keys
    && forall x :: x in before ==>
         && after[x].Keys <= before[x].Keys + {key}
         && forall k :: k in before[x] ==> k in after[x] && after[x][k] == before[x][k]
  }

  lemma GrownNot(t: Tables, key: Key)
    ensures Grown(t, t, key)
  {
  }

  lemma GrownTwice(a: Tables, b: Tables, c: Tables, key: Key)
    requires Grown(a, b, key) && Grown(b, c, key)
    ensures Grown(a, c, key)
  {
  }

  // Every dispatcher that a registration at d gets to has the key, bound to its gate toward
  // the origin; the others are as before.
  ghost predicate Flooded(net: Net, origin: MessageDispatcher, d: MessageDispatcher, key: Key, before: Tables,
                          after: Tables)
    requires net.Tree(origin)
  {
    && before.Keys == after.Keys == net.nodes
    && forall x :: x in net.nodes ==>
         after[x] == if net.Reached(origin, x, d, key.kind) then before[x][key := net.up[x]] else before[x]
  }

  // As Flooded, with the gates of d from i on still to do.
  ghost predicate Partly(net: Net, origin: MessageDispatcher, d: MessageDispatcher, key: Key, i: nat,
                         before: Tables, after: Tables)
    requires net.Tree(origin)
  {
    && before.Keys == after.Keys == net.nodes
    && forall x :: x in net.nodes ==>
         after[x] == if Done(net, origin, d, key.kind, i, x) then before[x][key := net.up[x]] else before[x]
  }

  ghost predicate Done(net: Net, origin: MessageDispatcher, d: MessageDispatcher, kind: Kind, i: nat,
                       x: MessageDispatcher)
    requires net.Tree(origin) && x in net.nodes
  {
    x == d || (net.Under(origin, x, d) && net.Via(origin, x, d) < i && net.Reached(origin, x, d, kind))
  }

  lemma PartlyStart(net: Net, origin: MessageDispatcher, d: MessageDispatcher, key: Key, before: Tables, after: Tables)
    requires net.Tree(origin) && d in net.nodes && before.Keys == after.Keys == net.nodes
    requires forall x :: x in net.nodes ==> after[x] == if x == d then before[x][key := net.up[x]] else before[x]
    ensures Partly(net, origin, d, key, 0, before, after)
  {
  }

  lemma PartlyKid(net: Net, origin: MessageDispatcher, d: MessageDispatcher, key: Key, i: nat,
                  t0: Tables, t1: Tables, t2: Tables)
    requires net.Tree(origin) && d in net.nodes
    requires i < |net.ports[d]| && i != net.up[d] && net.ports[d][i].Some?
    requires Partly(net, origin, d, key, i, t0, t1) && d.Forwards(key.kind)
    requires Flooded(net, origin, net.ports[d][i].value.owner, key, t1, t2)
    ensures Partly(net, origin, d, key, i + 1, t0, t2)
  {
    forall x | x in net.nodes
      ensures t2[x] == if Done(net, origin, d, key.kind, i + 1, x) then t0[x][key := net.up[x]] else t0[x]
    {
      DoneKid(net, origin, d, key.kind, i, x);
    }
  }

  lemma DoneKid(net: Net, origin: MessageDispatcher, d: MessageDispatcher, kind: Kind, i: nat, x: MessageDispatcher)
    requires net.Tree(origin) && d in net.nodes && x in net.nodes && d.Forwards(kind)
    requires i < |net.ports[d]| && i != net.up[d] && net.ports[d][i].Some?
    ensures var k := net.ports[d][i].value.owner;
            && (net.Reached(origin, x, k, kind) ==> !Done(net, origin, d, kind, i, x))
            && (Done(net, origin, d, kind, i + 1, x)
                <==> Done(net, origin, d, kind, i, x) || net.Reached(origin, x, k, kind))
  {
    hide Net.Edge, Net.Reached, Net.Under, Net.Via;
    var k := net.ports[d][i].value.owner;
    net.BeyondGate(origin, d, i, x);
    if net.Under(origin, x, k) {
      net.ReachedKid(origin, d, i, x, kind);
    }
    if net.Reached(origin, x, k, kind) {
      net.ReachedUnder(origin, x, k, kind);
    }
  }

  lemma PartlyNone(net: Net, origin: MessageDispatcher, d: MessageDispatcher, key: Key, i: nat, t0: Tables, t1: Tables)
    requires net.Tree(origin) && d in net.nodes
    requires i < |net.ports[d]| && (i == net.up[d] || net.ports[d][i].None?)
    requires Partly(net, origin, d, key, i, t0, t1)
    ensures Partly(net, origin, d, key, i + 1, t0, t1)
  {
    forall x | x in net.nodes
      ensures Done(net, origin, d, key.kind, i + 1, x) == Done(net, origin, d, key.kind, i, x)
    {
      if net.Under(origin, x, d) && x != d {
        net.BeyondNothing(origin, d, x);
      }
    }
  }

  lemma PartlyEnd(net: Net, origin: MessageDispatcher, d: MessageDispatcher, key: Key, t0: Tables, t1: Tables)
    requires net.Tree(origin) && d in net.nodes
    requires Partly(net, origin, d, key, |net.ports[d]|, t0, t1)
    ensures Flooded(net, origin, d, key, t0, t1)
  {
    forall x | x in net.nodes
      ensures Done(net, origin, d, key.kind, |net.ports[d]|, x) == net.Reached(origin, x, d, key.kind)
    {
      if net.Reached(origin, x, d, key.kind) && x != d {
        net.ReachedUnder(origin, x, d, key.kind);
        net.BeyondNothing(origin, d, x);
      }
    }
  }

  // A dispatcher that does not forward gets to itself only.
  lemma FloodedHere(net: Net, origin: MessageDispatcher, d: MessageDispatcher, key: Key, t0: Tables, t1: Tables)
    requires net.Tree(origin) && d in net.nodes && !d.Forwards(key.kind) && t0.Keys == t1.Keys == net.nodes
    requires forall x :: x in net.nodes ==> t1[x] == if x == d then t0[x][key := net.up[x]] else t0[x]
    ensures Flooded(net, origin, d, key, t0, t1)
  {
    forall x | x in net.nodes && net.Reached(origin, x, d, key.kind)
      ensures x == d
    {
      net.ReachedUnder(origin, x, d, key.kind);
    }
  }

  // A registration may be flooded from d: its subtree is idle and does not know the key,
  // and the dispatcher it came from is busy with it.
  ghost predicate Ready(net: Net, origin: MessageDispatcher, d: MessageDispatcher, index: nat, key: Key,
                        idle: set<MessageDispatcher>, tables: Tables)
  {
    && net.Tree(origin) && d in net.nodes && index == net.up[d] && tables.Keys == net.nodes
    && (forall x :: x in net.nodes && net.Under(origin, x, d) ==> x in idle && key !in tables[x])
    && (index < |net.ports[d]| && net.ports[d][index].Some? ==> net.ports[d][index].value.owner !in idle)
  }

  // The subtree beyond the next gate is ready once those before it are done.
  lemma ReadyKid(net: Net, origin: MessageDispatcher, d: MessageDispatcher, key: Key, i: nat,
                 idle: set<MessageDispatcher>, t0: Tables, t1: Tables)
    requires net.Tree(origin) && d in net.nodes && Ready(net, origin, d, net.up[d], key, idle, t0)
    requires i < |net.ports[d]| && i != net.up[d] && net.ports[d][i].Some?
    requires Partly(net, origin, d, key, i, t0, t1)
    ensures var port := net.ports[d][i].value;
            port.owner != d && Ready(net, origin, port.owner, port.index, key, idle - {d}, t1)
  {
    var port := net.ports[d][i].value;
    assert net.Edge(d, i);
    forall x | x in net.nodes && net.Under(origin, x, port.owner)
      ensures x in idle && x != d && key !in t1[x]
    {
      net.BeyondGate(origin, d, i, x);
    }
  }

  // The registration under way at each dispatcher.
  datatype Flag = Flag(protocol: Option<int>, registeringAny: bool)
  {
    predicate Busy(protocol: Option<int>) {
      if protocol.Some? then this.protocol.Some? else registeringAny
    }
  }

  type Flags = map<MessageDispatcher, Flag>

  // The dispatchers without a registration of this sort under way.
  ghost predicate Idle(flags: Flags, idle: set<MessageDispatcher>, protocol: Option<int>) {
    forall x :: x in flags ==> (x in idle <==> !flags[x].Busy(protocol))
  }

  // No other protocol is being registered.
  ghost predicate Alone(flags: Flags, protocol: Option<int>) {
    forall x :: x in flags ==> (flags[x].protocol.Some? && protocol.Some? ==> flags[x].protocol == protocol)
  }

  function Marked(f: Flag, protocol: Option<int>): Flag {
    if protocol.Some? then f.(protocol := protocol) else f.(registeringAny := true)
  }

  function Unmarked(f: Flag, protocol: Option<int>): Flag {
    if protocol.Some? then f.(protocol := None) else f.(registeringAny := false)
  }

  lemma FlagsRestored(flags: Flags, d: MessageDispatcher, protocol: Option<int>)
    requires d in flags && !flags[d].Busy(protocol)
    ensures var marked := flags[d := Marked(flags[d], protocol)];
            marked[d := Unmarked(marked[d], protocol)] == flags
  {
  }

  lemma IdleHere(flags: Flags, idle: set<MessageDispatcher>, protocol: Option<int>, d: MessageDispatcher)
    requires d in flags && Idle(flags, idle, protocol)
    ensures d in idle <==> !flags[d].Busy(protocol)
  {
  }

  lemma IdleMarked(flags: Flags, idle: set<MessageDispatcher>, protocol: Option<int>, d: MessageDispatcher)
    requires d in flags && Idle(flags, idle, protocol)
    ensures Idle(flags[d := Marked(flags[d], protocol)], idle - {d}, protocol)
    ensures Alone(flags, protocol) && d in idle ==> Alone(flags[d := Marked(flags[d], protocol)], protocol)
  {
  }

  lemma AloneAnswers(flags: Flags, idle: set<MessageDispatcher>, protocol: Option<int>, d: MessageDispatcher)
    requires d in flags && Idle(flags, idle, protocol)
    ensures Alone(flags, protocol) && d !in idle ==> protocol.None? || flags[d].protocol == protocol
  {
  }

  // The state of the loop over the gates of d, before gate i.
  ghost predicate Halfway(net: Net, origin: MessageDispatcher, d: MessageDispatcher, key: Key, i: nat,
                          idle: set<MessageDispatcher>, t0: Tables, t1: Tables)
  {
    && net.Tree(origin) && d in net.nodes && i <= |net.ports[d]|
    && Ready(net, origin, d, net.up[d], key, idle, t0) && d.Forwards(key.kind)
    && Partly(net, origin, d, key, i, t0, t1)
  }

  lemma NeighbourKnown(net: Net, d: MessageDispatcher, i: nat)
    requires net.Closed() && d in net.nodes && i < |net.ports[d]|
    ensures net.ports[d][i].Some? ==> net.ports[d][i].value.owner in net.nodes
  {
  }

  lemma ReadyIsIdle(net: Net, origin: MessageDispatcher, d: MessageDispatcher, index: nat, key: Key,
                    idle: set<MessageDispatcher>, t: Tables)
    ensures Ready(net, origin, d, index, key, idle, t) ==> d in idle && d in t && key !in t[d]
  {
    if Ready(net, origin, d, index, key, idle, t) {
      assert net.Under(origin, d, d);
    }
  }

  lemma HalfwayStart(net: Net, origin: MessageDispatcher, d: MessageDispatcher, index: nat, key: Key,
                     idle: set<MessageDispatcher>, t0: Tables, t1: Tables)
    requires Ready(net, origin, d, index, key, idle, t0)
    requires t1.Keys == net.nodes
    requires forall x :: x in net.nodes ==> t1[x] == if x == d then t0[x][key := index] else t0[x]
    ensures if d.Forwards(key.kind) then Halfway(net, origin, d, key, 0, idle, t0, t1)
            else Flooded(net, origin, d, key, t0, t1)
  {
    if d.Forwards(key.kind) {
      PartlyStart(net, origin, d, key, t0, t1);
    } else {
      FloodedHere(net, origin, d, key, t0, t1);
    }
  }

  lemma HalfwayEnd(net: Net, origin: MessageDispatcher, d: MessageDispatcher, key: Key, i: nat,
                   idle: set<MessageDispatcher>, t0: Tables, t1: Tables)
    requires Halfway(net, origin, d, key, i, idle, t0, t1) && (d in net.ports ==> i == |net.ports[d]|)
    ensures net.Tree(origin) && Flooded(net, origin, d, key, t0, t1)
  {
    PartlyEnd(net, origin, d, key, t0, t1);
  }

  // At gate i of d: nothing is connected, or the sender, which is not idle, or a ready subtree.
  lemma HalfwayPort(net: Net, origin: MessageDispatcher, d: MessageDispatcher, key: Key, i: nat,
                    idle: set<MessageDispatcher>, t0: Tables, t1: Tables)
    requires d in net.ports && i < |net.ports[d]| && Halfway(net, origin, d, key, i, idle, t0, t1)
    ensures d in net.up && net.Tree(origin)
    ensures net.ports[d][i].Some? ==>
              var port := net.ports[d][i].value;
              port.owner != d
              && if i == net.up[d] then port.owner !in idle
                 else Ready(net, origin, port.owner, port.index, key, idle - {d}, t1)
  {
    assert net.Edge(d, i);
    if net.ports[d][i].Some? && i != net.up[d] {
      ReadyKid(net, origin, d, key, i, idle, t0, t1);
    }
  }

  lemma HalfwayStep(net: Net, origin: MessageDispatcher, d: MessageDispatcher, key: Key, i: nat,
                    idle: set<MessageDispatcher>, t0: Tables, t1: Tables, t2: Tables)
    requires d in net.ports && i < |net.ports[d]| && Halfway(net, origin, d, key, i, idle, t0, t1)
    requires d in net.up && net.Tree(origin)
    requires if i == net.up[d] || net.ports[d][i].None? then t2 == t1
             else Flooded(net, origin, net.ports[d][i].value.owner, key, t1, t2)
    ensures Halfway(net, origin, d, key, i + 1, idle, t0, t2)
  {
    if i == net.up[d] || net.ports[d][i].None? {
      PartlyNone(net, origin, d, key, i, t0, t1);
    } else {
      PartlyKid(net, origin, d, key, i, t0, t1, t2);
    }
  }

  lemma GrownHere(d: MessageDispatcher, index: nat, key: Key, t0: Tables, t1: Tables)
    requires d in t0 && key !in t0[d] && t1.Keys == t0.Keys
    requires forall x :: x in t0 ==> t1[x] == if x == d then t0[x][key := index] else t0[x]
    ensures Grown(t0, t1, key)
  {
  }

  class MessageDispatcher {
    const forwardServiceRegistration: bool
    const forwardProtocolRegistration: bool

    var ports: seq<Option<Port>>

    // serviceToGateIndex and protocolToGateIndex in one map, told apart by the kind.
    var gates: map<Key, nat>
    var registeringProtocol: Option<int>
    var registeringAny: bool

    predicate Forwards(kind: Kind) {
      if kind == Service then forwardServiceRegistration else forwardProtocolRegistration
    }

    function Current(): Flag
      reads this`registeringProtocol, this`registeringAny
    {
      Flag(registeringProtocol, registeringAny)
    }

    // The heap agrees with the description of the network.
    static ghost predicate Wired(net: Net)
      reads net.nodes`ports
    {
      net.Closed() && forall x :: x in net.nodes ==> x.ports == net.ports[x]
    }

    static ghost function TablesOf(net: Net): (t: Tables)
      reads net.nodes`gates
      ensures t.Keys == net.nodes
    {
      map x | x in net.nodes :: x.gates
    }

    static ghost function FlagsOf(net: Net): (f: Flags)
      reads net.nodes`registeringProtocol, net.nodes`registeringAny
      ensures f.Keys == net.nodes
    {
      map x | x in net.nodes :: x.Current()
    }

    // handleRegisterService, handleRegisterProtocol, and the two for any protocol; false
    // when an error is thrown.
    method HandleRegister(kind: Kind, protocol: Option<int>, primitive: Primitive, index: nat,
                          ghost net: Net, ghost idle: set<MessageDispatcher>, ghost origin: MessageDispatcher)
      returns (ok: bool)
      requires this in net.nodes && Wired(net) && Idle(FlagsOf(net), idle, protocol)
      modifies net.nodes`gates, net.nodes`registeringProtocol, net.nodes`registeringAny
      ensures Grown(old(TablesOf(net)), TablesOf(net), KeyOf(kind, protocol, primitive))
      ensures ok ==> FlagsOf(net) == old(FlagsOf(net))
      ensures this !in idle ==> TablesOf(net) == old(TablesOf(net))
                                && (ok <==> protocol.None? || old(registeringProtocol) == protocol)
      ensures Alone(old(FlagsOf(net)), protocol)
              && Ready(net, origin, this, index, KeyOf(kind, protocol, primitive), idle, old(TablesOf(net)))
              ==> ok && Flooded(net, origin, this, KeyOf(kind, protocol, primitive), old(TablesOf(net)), TablesOf(net))
      ensures (kind == Service && !forwardServiceRegistration) || (kind == Protocol && !forwardProtocolRegistration)
              ==> forall x :: x in net.nodes && x != this ==> x.gates == old(x.gates)
      ensures KeyOf(kind, protocol, primitive) in old(gates) && this in idle
              ==> TablesOf(net) == old(TablesOf(net))
                  && (ok <==> old(gates)[KeyOf(kind, protocol, primitive)] == index)
      decreases idle, 3
    {
      ghost var key := KeyOf(kind, protocol, primitive);
      ghost var t0, f0 := TablesOf(net), FlagsOf(net);
      assert f0[this] == Current();
      hide Grown, Flooded, Ready, KeyOf, Net.Tree, Net.Closed, Net.Under, Net.Via, TablesOf, Wired;
      GrownNot(t0, key);
      IdleHere(f0, idle, protocol, this);
      if if protocol.Some? then registeringProtocol.Some? else registeringAny {
        ReadyIsIdle(net, origin, this, index, key, idle, t0);
        return protocol.None? || registeringProtocol == protocol;
      }
      IdleMarked(f0, idle, protocol, this);
      FlagsRestored(f0, this, protocol);
      hide Idle, Alone, FlagsOf;
      Mark(protocol, net);
      ok := Bind(kind, protocol, primitive, index, net, idle, origin);
      if ok {
        Unmark(protocol, net);
      }
    }

    method Mark(protocol: Option<int>, ghost net: Net)
      requires this in net.nodes
      modifies this`registeringProtocol, this`registeringAny
      ensures FlagsOf(net) == old(FlagsOf(net))[this := Marked(old(FlagsOf(net))[this], protocol)]
      ensures TablesOf(net) == old(TablesOf(net))
    {
      if protocol.Some? {
        registeringProtocol := protocol;
      } else {
        registeringAny := true;
      }
    }

    method Unmark(protocol: Option<int>, ghost net: Net)
      requires this in net.nodes
      modifies this`registeringProtocol, this`registeringAny
      ensures FlagsOf(net) == old(FlagsOf(net))[this := Unmarked(old(FlagsOf(net))[this], protocol)]
      ensures TablesOf(net) == old(TablesOf(net))
    {
      if protocol.Some? {
        registeringProtocol := None;
      } else {
        registeringAny := false;
      }
    }

    // The table entry, and the registration passed on through every gate.
    method Bind(kind: Kind, protocol: Option<int>, primitive: Primitive, index: nat,
                ghost net: Net, ghost idle: set<MessageDispatcher>, ghost origin: MessageDispatcher)
      returns (ok: bool)
      requires this in net.nodes && this in idle && Wired(net) && Idle(FlagsOf(net), idle - {this}, protocol)
      modifies net.nodes`gates, net.nodes`registeringProtocol, net.nodes`registeringAny
      ensures Grown(old(TablesOf(net)), TablesOf(net), KeyOf(kind, protocol, primitive))
      ensures ok ==> FlagsOf(net) == old(FlagsOf(net))
      ensures Alone(old(FlagsOf(net)), protocol)
              && Ready(net, origin, this, index, KeyOf(kind, protocol, primitive), idle, old(TablesOf(net)))
              ==> ok && Flooded(net, origin, this, KeyOf(kind, protocol, primitive), old(TablesOf(net)), TablesOf(net))
      ensures (kind == Service && !forwardServiceRegistration) || (kind == Protocol && !forwardProtocolRegistration)
              ==> forall x :: x in net.nodes && x != this ==> x.gates == old(x.gates)
      ensures KeyOf(kind, protocol, primitive) in old(gates)
              ==> TablesOf(net) == old(TablesOf(net))
                  && (ok <==> old(gates)[KeyOf(kind, protocol, primitive)] == index)
      decreases idle, 2
    {
      hide Grown, Flooded, Ready, Halfway, KeyOf, Net.Tree, Net.Closed, Net.Under, Net.Via, Idle, FlagsOf, Alone;
      var key := KeyOf(kind, protocol, primitive);
      ghost var t0, f0 := TablesOf(net), FlagsOf(net);
      ghost var flood := Alone(f0, protocol) && Ready(net, origin, this, index, key, idle, t0);
      if key in gates {
        ReadyIsIdle(net, origin, this, index, key, idle, t0);
        GrownNot(t0, key);
        return gates[key] == index;
      }
      gates := gates[key := index];
      GrownHere(this, index, key, t0, TablesOf(net));
      if flood {
        HalfwayStart(net, origin, this, index, key, idle, t0, TablesOf(net));
      }
      assert FlagsOf(net) == f0;
      hide TablesOf;
      KeyKind(kind, protocol, primitive);
      if !Forwards(kind) {
        return true;
      }
      ghost var t1 := TablesOf(net);
      ok := PassOn(kind, protocol, primitive, net, idle, origin, t0);
      GrownTwice(t0, t1, TablesOf(net), key);
      if flood {
        HalfwayEnd(net, origin, this, key, |ports|, idle, t0, TablesOf(net));
      }
    }

    // The loop over the gates.
    method PassOn(kind: Kind, protocol: Option<int>, primitive: Primitive,
                  ghost net: Net, ghost idle: set<MessageDispatcher>, ghost origin: MessageDispatcher,
                  ghost t0: Tables)
      returns (ok: bool)
      requires this in net.nodes && this in idle && Wired(net) && Idle(FlagsOf(net), idle - {this}, protocol)
      modifies net.nodes`gates, net.nodes`registeringProtocol, net.nodes`registeringAny
      ensures Grown(old(TablesOf(net)), TablesOf(net), KeyOf(kind, protocol, primitive))
      ensures ok ==> FlagsOf(net) == old(FlagsOf(net))
      ensures Alone(old(FlagsOf(net)), protocol)
              && Halfway(net, origin, this, KeyOf(kind, protocol, primitive), 0, idle, t0, old(TablesOf(net)))
              ==> ok && Halfway(net, origin, this, KeyOf(kind, protocol, primitive), |ports|, idle, t0, TablesOf(net))
      decreases idle, 1
    {
      hide Grown, Halfway, KeyOf, Net.Closed, Idle, FlagsOf, TablesOf, Alone;
      ghost var key, f0, t := KeyOf(kind, protocol, primitive), FlagsOf(net), TablesOf(net);
      ghost var flood := Alone(f0, protocol) && Halfway(net, origin, this, key, 0, idle, t0, t);
      GrownNot(t, key);
      var i := 0;
      while i < |ports|
        invariant 0 <= i <= |ports|
        invariant Grown(t, TablesOf(net), key)
        invariant FlagsOf(net) == f0
        invariant flood ==> Halfway(net, origin, this, key, i, idle, t0, TablesOf(net))
      {
        ghost var t1 := TablesOf(net);
        ok := Register(kind, protocol, primitive, i, net, idle, origin, t0);
        GrownTwice(t, t1, TablesOf(net), key);
        if !ok {
          return;
        }
        i := i + 1;
      }
      return true;
    }

    // registerService and its kin at one gate: the step to the neighbour.
    method Register(kind: Kind, protocol: Option<int>, primitive: Primitive, i: nat,
                    ghost net: Net, ghost idle: set<MessageDispatcher>, ghost origin: MessageDispatcher,
                    ghost t0: Tables)
      returns (ok: bool)
      requires this in net.nodes && this in idle && Wired(net) && Idle(FlagsOf(net), idle - {this}, protocol)
      requires i < |ports|
      modifies net.nodes`gates, net.nodes`registeringProtocol, net.nodes`registeringAny
      ensures Grown(old(TablesOf(net)), TablesOf(net), KeyOf(kind, protocol, primitive))
      ensures ok ==> FlagsOf(net) == old(FlagsOf(net))
      ensures Alone(old(FlagsOf(net)), protocol)
              && Halfway(net, origin, this, KeyOf(kind, protocol, primitive), i, idle, t0, old(TablesOf(net)))
              ==> ok && Halfway(net, origin, this, KeyOf(kind, protocol, primitive), i + 1, idle, t0, TablesOf(net))
      decreases idle, 0
    {
      ghost var key := KeyOf(kind, protocol, primitive);
      ghost var t1, f0 := TablesOf(net), FlagsOf(net);
      ghost var flood := Alone(f0, protocol) && Halfway(net, origin, this, key, i, idle, t0, t1);
      assert ports == net.ports[this];
      NeighbourKnown(net, this, i);
      GrownNot(t1, key);
      var port := ports[i];
      if flood {
        HalfwayPort(net, origin, this, key, i, idle, t0, t1);
      }
      if port.Some? && port.value.owner != this {
        assert f0[port.value.owner] == port.value.owner.Current();
        AloneAnswers(f0, idle - {this}, protocol, port.value.owner);
      }
      hide Grown, Flooded, Ready, Halfway, KeyOf, Net.Tree, Net.Closed, Net.Under, Net.Via, Idle, FlagsOf, TablesOf,
           Alone;
      ok := true;
      if port.Some? && port.value.owner != this {
        ok := port.value.owner.HandleRegister(kind, protocol, primitive, port.value.index, net, idle - {this}, origin);
      }
      if flood {
        HalfwayStep(net, origin, this, key, i, idle, t0, t1, TablesOf(net));
      }
    }
  }

  // A first registration of a key may be flooded from the dispatcher it arrives at.
  lemma ReadyAtOrigin(net: Net, origin: MessageDispatcher, key: Key, t: Tables)
    requires net.Tree(origin) && t.Keys == net.nodes
    requires forall x :: x in net.nodes ==> key !in t[x]
    ensures Ready(net, origin, origin, net.up[origin], key, net.nodes, t)
  {
  }

  lemma FloodedKeys(net: Net, origin: MessageDispatcher, key: Key, t0: Tables, t: Tables)
    requires net.Tree(origin) && Flooded(net, origin, origin, key, t0, t)
    ensures net.Closed() && origin in net.nodes && net.nodes <= net.dist.Keys && net.nodes <= net.up.Keys
    ensures t.Keys == t0.Keys == net.nodes
    ensures forall x :: x in net.nodes ==>
              t[x] == if net.Reached(origin, x, origin, key.kind) then t0[x][key := net.up[x]] else t0[x]
  {
  }

  // Requests are for services, indications for protocols.
  function KindOf(primitive: Primitive): Kind {
    if primitive == Request then Service else Protocol
  }

  // The table lookups of handlePacket and handleMessage: requests go by the service table,
  // indications by the protocol table, with the entry for any protocol as the fallback.
  function LookUp(gates: map<Key, nat>, protocolId: int, primitive: Primitive): Option<nat> {
    if primitive != Request && primitive != Indication then None
    else
      var key, any := Key(KindOf(primitive), protocolId, primitive), Key(KindOf(primitive), ANY, primitive);
      if key in gates then Some(gates[key]) else if any in gates then Some(gates[any]) else None
  }

  // The entry for the protocol goes before the entry for any; without either, and for other
  // primitives, there is no gate.
  lemma LookUpExactly(gates: map<Key, nat>, protocolId: int, primitive: Primitive)
    ensures LookUp(gates, protocolId, primitive).Some?
            <==> (primitive == Request
                  && (Key(Service, protocolId, Request) in gates || Key(Service, ANY, Request) in gates))
                 || (primitive == Indication
                     && (Key(Protocol, protocolId, Indication) in gates || Key(Protocol, ANY, Indication) in gates))
    ensures LookUp(gates, protocolId, primitive).Some?
            ==> LookUp(gates, protocolId, primitive).value
                == gates[if Key(KindOf(primitive), protocolId, primitive) in gates
                         then Key(KindOf(primitive), protocolId, primitive) else Key(KindOf(primitive), ANY, primitive)]
  {
  }

  // The dispatcher a packet reaches after n hops, staying where no gate leads on.
  ghost function Walk(net: Net, t: Tables, protocolId: int, primitive: Primitive, x: MessageDispatcher,
                      n: nat): MessageDispatcher
    requires net.Closed() && t.Keys == net.nodes && x in net.nodes
    decreases n
  {
    if n == 0 then x else Walk(net, t, protocolId, primitive, Hop(net, t, protocolId, primitive, x), n - 1)
  }

  ghost function Hop(net: Net, t: Tables, protocolId: int, primitive: Primitive,
                     x: MessageDispatcher): (y: MessageDispatcher)
    requires net.Closed() && t.Keys == net.nodes && x in net.nodes
    ensures y in net.nodes
  {
    var gate := LookUp(t[x], protocolId, primitive);
    if gate.Some? && gate.value < |net.ports[x]|
        && net.ports[x][gate.value].Some? then net.ports[x][gate.value].value.owner
    else x
  }

  lemma Found(gates: map<Key, nat>, kind: Kind, protocol: Option<int>, primitive: Primitive, protocolId: int,
              index: nat)
    requires kind == KindOf(primitive)
             && (primitive == Request || primitive == Indication)
    requires var bound := gates[KeyOf(kind, protocol, primitive) := index];
             protocol == Some(protocolId) || (protocol.None? && Key(kind, protocolId, primitive) !in bound)
    ensures LookUp(gates[KeyOf(kind, protocol, primitive) := index], protocolId, primitive) == Some(index)
  {
  }

  // The entries that a flood leaves: where packets for the protocol go at each dispatcher
  // it got to.
  ghost predicate Routed(net: Net, origin: MessageDispatcher, t: Tables, protocolId: int, primitive: Primitive)
    requires net.Tree(origin) && t.Keys == net.nodes
  {
    forall x :: x in net.nodes && net.Reached(origin, x, origin, KindOf(primitive))
      ==> LookUp(t[x], protocolId, primitive) == Some(net.up[x])
  }

  // The packets that a registration is for.
  ghost predicate Serves(kind: Kind, protocol: Option<int>, primitive: Primitive, net: Net, t: Tables, protocolId: int)
    requires t.Keys == net.nodes
  {
    && kind == KindOf(primitive) && (primitive == Request || primitive == Indication)
    && (protocol == Some(protocolId)
        || (protocol.None? && forall y :: y in net.nodes ==> Key(kind, protocolId, primitive) !in t[y]))
  }

  lemma FloodRoutes(net: Net, origin: MessageDispatcher, kind: Kind, protocol: Option<int>, primitive: Primitive,
                    t0: Tables, t: Tables, protocolId: int)
    requires net.Tree(origin)
    requires Flooded(net, origin, origin, KeyOf(kind, protocol, primitive), t0, t)
    requires t.Keys == net.nodes && Serves(kind, protocol, primitive, net, t, protocolId)
    ensures Routed(net, origin, t, protocolId, primitive)
  {
    forall x | x in net.nodes && net.Reached(origin, x, origin, KindOf(primitive))
      ensures LookUp(t[x], protocolId, primitive) == Some(net.up[x])
    {
      Found(t0[x], kind, protocol, primitive, protocolId, net.up[x]);
    }
  }

  // Each hop comes one closer to the registrant, and at the origin no gate leads on.
  lemma HopCloser(net: Net, origin: MessageDispatcher, t: Tables, protocolId: int, primitive: Primitive,
                  x: MessageDispatcher)
    requires net.Tree(origin) && t.Keys == net.nodes && x in net.nodes
    requires Routed(net, origin, t, protocolId, primitive) && net.Reached(origin, x, origin, KindOf(primitive))
    ensures Hop(net, t, protocolId, primitive, x) == if x == origin then origin else net.Parent(origin, x)
    ensures x != origin ==> net.dist[x] == net.dist[Hop(net, t, protocolId, primitive, x)] + 1
    ensures x != origin ==> net.Reached(origin, net.Parent(origin, x), origin, KindOf(primitive))
  {
    hide LookUp, Net.Edge;
  }

  // Packets for the protocol arrive at the origin, which sends them to the registrant.
  lemma {:induction false} PacketsArrive(net: Net, origin: MessageDispatcher, t: Tables, protocolId: int,
                                         primitive: Primitive,
                                         x: MessageDispatcher)
    requires net.Tree(origin) && t.Keys == net.nodes && x in net.nodes
    requires Routed(net, origin, t, protocolId, primitive) && net.Reached(origin, x, origin, KindOf(primitive))
    ensures Walk(net, t, protocolId, primitive, x, net.dist[x]) == origin
    ensures LookUp(t[origin], protocolId, primitive) == Some(net.up[origin])
    decreases net.dist[x]
  {
    if x != origin {
      HopCloser(net, origin, t, protocolId, primitive, x);
      PacketsArrive(net, origin, t, protocolId, primitive, net.Parent(origin, x));
    }
  }

  // Packets that the registration is for go from every dispatcher it got to to where it
  // arrived; the others know no gate for them, unless there is an entry of its own.
  ghost predicate Delivers(net: Net, origin: MessageDispatcher, kind: Kind, protocol: Option<int>, primitive: Primitive,
                           t: Tables)
    requires net.Tree(origin) && t.Keys == net.nodes
  {
    forall protocolId, x :: Serves(kind, protocol, primitive, net, t, protocolId) && x in net.nodes
      ==> Delivered(net, origin, kind, primitive, t, protocolId, x)
  }

  ghost predicate Delivered(net: Net, origin: MessageDispatcher, kind: Kind, primitive: Primitive, t: Tables,
                            protocolId: int, x: MessageDispatcher)
    requires net.Tree(origin) && t.Keys == net.nodes && x in net.nodes
  {
    && LookUp(t[origin], protocolId, primitive) == Some(net.up[origin])
    && if net.Reached(origin, x, origin, kind) then Walk(net, t, protocolId, primitive, x, net.dist[x]) == origin
       else LookUp(t[x], protocolId, primitive).None?
            || Key(kind, protocolId, primitive) in t[x] || Key(kind, ANY, primitive) in t[x]
  }

  lemma ServedDelivered(net: Net, origin: MessageDispatcher, kind: Kind, protocol: Option<int>, primitive: Primitive,
                        t0: Tables, t: Tables, protocolId: int, x: MessageDispatcher)
    requires net.Tree(origin) && Flooded(net, origin, origin, KeyOf(kind, protocol, primitive), t0, t)
    requires t.Keys == net.nodes && Serves(kind, protocol, primitive, net, t, protocolId) && x in net.nodes
    ensures Delivered(net, origin, kind, primitive, t, protocolId, x)
  {
    hide Flooded, KeyOf, Walk, Net.Edge, Net.Closed;
    FloodRoutes(net, origin, kind, protocol, primitive, t0, t, protocolId);
    PacketsArrive(net, origin, t, protocolId, primitive, origin);
    if net.Reached(origin, x, origin, kind) {
      PacketsArrive(net, origin, t, protocolId, primitive, x);
    }
  }

  lemma FloodDelivers(net: Net, origin: MessageDispatcher, kind: Kind, protocol: Option<int>, primitive: Primitive,
                      t0: Tables, t: Tables)
    requires net.Tree(origin) && Flooded(net, origin, origin, KeyOf(kind, protocol, primitive), t0, t)
    ensures t.Keys == net.nodes && Delivers(net, origin, kind, protocol, primitive, t)
  {
    hide Flooded, KeyOf, Walk, LookUp, Net.Tree, Net.Closed, Serves, Delivered;
    FloodedKeys(net, origin, KeyOf(kind, protocol, primitive), t0, t);
    forall protocolId, x | Serves(kind, protocol, primitive, net, t, protocolId) && x in net.nodes
      ensures Delivered(net, origin, kind, primitive, t, protocolId, x)
    {
      ServedDelivered(net, origin, kind, protocol, primitive, t0, t, protocolId, x);
    }
  }

  // From the arrival of a registration to the delivery of packets: in a tree of dispatchers
  // without such a registration, now or before, one call binds the key in exactly those that
  // forwarding dispatchers connect with it, and from them packets come to the registrant.
  method Announce(kind: Kind, protocol: Option<int>, primitive: Primitive, origin: MessageDispatcher, index: nat,
                  ghost net: Net)
    returns (ok: bool)
    requires net.Tree(origin) && MessageDispatcher.Wired(net) && index == net.up[origin]
    requires forall x :: x in net.nodes ==> !x.Current().Busy(protocol)
    requires forall x :: x in net.nodes ==> KeyOf(kind, protocol, primitive) !in x.gates
    modifies net.nodes`gates, net.nodes`registeringProtocol, net.nodes`registeringAny
    ensures ok && MessageDispatcher.FlagsOf(net) == old(MessageDispatcher.FlagsOf(net))
    ensures forall x :: x in net.nodes ==>
              x.gates == if net.Reached(origin, x, origin, kind)
                         then old(x.gates)[KeyOf(kind, protocol, primitive) := net.up[x]] else old(x.gates)
    ensures Delivers(net, origin, kind, protocol, primitive, MessageDispatcher.TablesOf(net))
  {
    ghost var key := KeyOf(kind, protocol, primitive);
    ghost var t0 := MessageDispatcher.TablesOf(net);
    ghost var f0 := MessageDispatcher.FlagsOf(net);
    assert Idle(f0, net.nodes, protocol) && Alone(f0, protocol);
    assert origin in net.nodes;
    hide Flooded, Ready, KeyOf, Net.Tree, Net.Closed, Idle, Alone, Grown, Delivers, MessageDispatcher.Wired;
    KeyKind(kind, protocol, primitive);
    ReadyAtOrigin(net, origin, key, t0);
    ok := origin.HandleRegister(kind, protocol, primitive, index, net, net.nodes, origin);
    FloodedKeys(net, origin, key, t0, MessageDispatcher.TablesOf(net));
    FloodDelivers(net, origin, kind, protocol, primitive, t0, MessageDispatcher.TablesOf(net));
  }

  // Where every dispatcher forwards, all of them are connected.
  lemma ForwardingTree(net: Net, origin: MessageDispatcher, key: Key, t0: Tables, t: Tables)
    requires net.Tree(origin) && Flooded(net, origin, origin, key, t0, t)
    requires forall y :: y in net.nodes
               ==> if key.kind == Service then y.forwardServiceRegistration else y.forwardProtocolRegistration
    ensures forall x :: x in net.nodes ==> x in t && x in t0 && t[x] == t0[x][key := net.up[x]]
  {
    forall x | x in net.nodes
      ensures net.Reached(origin, x, origin, key.kind)
    {
      net.AllReached(origin, x, key.kind);
    }
  }
}
