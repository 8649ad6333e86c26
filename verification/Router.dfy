/** The longest-prefix router (libsponge/router). */
module Routers {
  import opened Bytes
  import opened InterfaceModel
  import opened Prefixes
  import opened InterfaceRuns

  /** A table that the router can scan, with its interfaces. */
  ghost predicate Usable(routes: seq<Route>, ports: nat) {
    forall route <- routes :: route.length <= 32 && route.port < ports
  }

  ghost predicate MatchesAt(routes: seq<Route>, dst: Ip, n: nat)
    requires n < |routes| && routes[n].length <= 32
  {
    Matches(routes[n], dst)
  }

  /** Route `n` is the first of the longest that match. */
  ghost predicate IsBest(routes: seq<Route>, dst: Ip, n: nat)
    requires forall route <- routes :: route.length <= 32
  {
    && n < |routes|
    && MatchesAt(routes, dst, n)
    && forall m: nat | m < |routes| && MatchesAt(routes, dst, m) ::
         routes[m].length < routes[n].length || (routes[m].length == routes[n].length && n <= m)
  }

  lemma BestIsUnique(routes: seq<Route>, dst: Ip, m: nat, n: nat)
    requires forall route <- routes :: route.length <= 32
    requires IsBest(routes, dst, m) && IsBest(routes, dst, n)
    ensures m == n
  {
  }

  /** The route that a destination takes. */
  ghost function Choice(routes: seq<Route>, dst: Ip): (r: Option<Route>)
    requires forall route <- routes :: route.length <= 32
    ensures r.Some? ==> r.value in routes && Matches(r.value, dst)
  {
    if n: nat :| IsBest(routes, dst, n) then Some(routes[n]) else None
  }

  lemma ChoiceIsBest(routes: seq<Route>, dst: Ip, n: nat)
    requires forall route <- routes :: route.length <= 32
    requires IsBest(routes, dst, n)
    ensures Choice(routes, dst) == Some(routes[n])
  {
    forall m: nat | IsBest(routes, dst, m) { BestIsUnique(routes, dst, m, n); }
  }

  /** When any route matches, one is the best. */
  lemma {:induction false} BestExists(routes: seq<Route>, dst: Ip, n: nat)
    requires forall route <- routes :: route.length <= 32
    requires n < |routes| && MatchesAt(routes, dst, n)
    ensures exists b: nat :: IsBest(routes, dst, b)
    decreases 32 - routes[n].length, n
  {
    if !IsBest(routes, dst, n) {
      var m: nat :| m < |routes| && MatchesAt(routes, dst, m) &&
                    !(routes[m].length < routes[n].length || (routes[m].length == routes[n].length && n <= m));
      BestExists(routes, dst, m);
    }
  }

  /** A datagram handed to an interface for a next hop. */
  datatype Handed = Handed(port: nat, hop: Ip, dgram: Datagram)

  /** What becomes of one datagram: nothing when it expires or has no route. */
  ghost function Decide(routes: seq<Route>, d: Datagram): Option<Handed>
    requires forall route <- routes :: route.length <= 32
  {
    if d.ttl <= 1 then None
    else
      match Choice(routes, d.dst)
      case None => None
      case Some(route) =>
        Some(Handed(route.port, if route.nextHop.Some? then route.nextHop.value else d.dst, d.(ttl := d.ttl - 1)))
  }

  ghost function Forward(interfaces: seq<Interface>, routes: seq<Route>, d: Datagram): (r: seq<Interface>)
    requires Usable(routes, |interfaces|)
    ensures |r| == |interfaces|
  {
    match Decide(routes, d)
    case None => interfaces
    case Some(h) => interfaces[h.port := interfaces[h.port].Send(h.dgram, h.hop)]
  }

  ghost function ForwardAll(interfaces: seq<Interface>, routes: seq<Route>, ds: seq<Datagram>): (r: seq<Interface>)
    requires Usable(routes, |interfaces|)
    ensures |r| == |interfaces|
  {
    if ds == [] then interfaces
    else Forward(ForwardAll(interfaces, routes, ds[..|ds| - 1]), routes, ds[|ds| - 1])
  }

  /** All queues, one after the other. */
  function Joined(inboxes: seq<seq<Datagram>>): seq<Datagram> {
    if inboxes == [] then [] else Joined(inboxes[..|inboxes| - 1]) + inboxes[|inboxes| - 1]
  }

  class Router {
    var routes: seq<Route>
    var interfaces: seq<Interface>
    // The datagrams that each interface received and that wait to be routed.
    var inboxes: seq<seq<Datagram>>

    ghost predicate Valid()
      reads this
    {
      |inboxes| == |interfaces|
    }

    constructor ()
      ensures Valid() && routes == [] && interfaces == [] && inboxes == []
    {
      routes, interfaces, inboxes := [], [], [];
    }

    method AddInterface(interface: Interface) returns (port: nat)
      requires Valid()
      modifies this`interfaces, this`inboxes
      ensures Valid()
      ensures port == old(|interfaces|)
      ensures interfaces == old(interfaces) + [interface] && inboxes == old(inboxes) + [[]]
    {
      interfaces, inboxes := interfaces + [interface], inboxes + [[]];
      port := |interfaces| - 1;
    }

    method AddRoute(prefix: Ip, length: byte, nextHop: Option<Ip>, port: nat)
      modifies this`routes
      ensures routes == old(routes) + [Route.Route(prefix, length, nextHop, port)]
    {
      routes := routes + [Route.Route(prefix, length, nextHop, port)];
    }

    /** The scan: the first of the longest matching routes. */
    method FindRoute(dst: Ip) returns (best: Option<nat>)
      requires forall route <- routes :: route.length <= 32
      ensures best.Some? ==> IsBest(routes, dst, best.value)
      ensures best.None? ==> forall n: nat | n < |routes| :: !MatchesAt(routes, dst, n)
      ensures Choice(routes, dst) == if best.Some? then Some(routes[best.value]) else None
    {
      best := None;
      for i := 0 to |routes|
        invariant best.None? ==> forall m: nat | m < i :: !MatchesAt(routes, dst, m)
        invariant best.Some? ==> best.value < i && MatchesAt(routes, dst, best.value)
        invariant best.Some? ==> forall m: nat | m < i && MatchesAt(routes, dst, m) ::
                    routes[m].length < routes[best.value].length ||
                    (routes[m].length == routes[best.value].length && best.value <= m)
      {
        MaskMatchesPrefix(routes[i], dst);
        if MaskMatches(routes[i], dst) {
          if best.None? || routes[i].length > routes[best.value].length {
            best := Some(i);
          }
        }
      }
      if best.Some? {
        ChoiceIsBest(routes, dst, best.value);
      } else {
        assert forall n: nat :: !IsBest(routes, dst, n);
      }
    }

    method RouteOneDatagram(dgram: Datagram)
      requires Usable(routes, |interfaces|)
      modifies this`interfaces
      ensures interfaces == Forward(old(interfaces), routes, dgram)
    {
      if dgram.ttl <= 1 {
        return;
      }
      var best := FindRoute(dgram.dst);
      if best.Some? {
        var route := routes[best.value];
        var lowered := dgram.(ttl := dgram.ttl - 1);
        if route.nextHop.Some? {
          SendOn(route.port, lowered, route.nextHop.value);
        } else {
          SendOn(route.port, lowered, dgram.dst);
        }
      }
    }

    method SendOn(port: nat, dgram: Datagram, hop: Ip)
      requires port < |interfaces|
      modifies this`interfaces
      ensures interfaces == old(interfaces)[port := old(interfaces)[port].Send(dgram, hop)]
    {
      interfaces := interfaces[port := interfaces[port].Send(dgram, hop)];
    }

    /** Every queue is emptied, in order, and every datagram is routed. */
    method RouteAll()
      requires Valid() && Usable(routes, |interfaces|)
      modifies this`interfaces, this`inboxes
      ensures Valid()
      ensures interfaces == ForwardAll(old(interfaces), routes, Joined(old(inboxes)))
      ensures |inboxes| == |old(inboxes)| && forall p: nat | p < |inboxes| :: inboxes[p] == []
    {
      ghost var was := inboxes;
      ghost var done: seq<Datagram> := [];
      for p := 0 to |interfaces|
        invariant |interfaces| == |inboxes| == |was|
        invariant done == Joined(was[..p])
        invariant interfaces == ForwardAll(old(interfaces), routes, done)
        invariant forall q: nat | q < p :: inboxes[q] == []
        invariant forall q: nat | p <= q < |was| :: inboxes[q] == was[q]
      {
        ghost var start := done;
        while inboxes[p] != []
          invariant |interfaces| == |inboxes| == |was|
          invariant done + inboxes[p] == start + was[p]
          invariant interfaces == ForwardAll(old(interfaces), routes, done)
          invariant forall q: nat | q < p :: inboxes[q] == []
          invariant forall q: nat | p < q < |was| :: inboxes[q] == was[q]
          decreases |inboxes[p]|
        {
          var front := inboxes[p][0];
          RouteOneDatagram(front);
          assert (done + [front])[..|done|] == done;
          done := done + [front];
          inboxes := inboxes[p := inboxes[p][1..]];
        }
        assert was[..p + 1][..p] == was[..p];
        assert done == start + was[p];
      }
      assert was[..|was|] == was;
    }
  }

  // ---- what routing means ----

  /** The datagrams among `ds` handed to one interface, in order. */
  ghost function HandedTo(routes: seq<Route>, ds: seq<Datagram>, port: nat): seq<Handed>
    requires forall route <- routes :: route.length <= 32
  {
    if ds == [] then []
    else
      var last := Decide(routes, ds[|ds| - 1]);
      HandedTo(routes, ds[..|ds| - 1], port) +
      (if last.Some? && last.value.port == port then [last.value] else [])
  }

  ghost function SendAll(i: Interface, handed: seq<Handed>): Interface {
    if handed == [] then i
    else
      var last := handed[|handed| - 1];
      SendAll(i, handed[..|handed| - 1]).Send(last.dgram, last.hop)
  }

  /** Each interface sends what is handed to it, in order, and nothing else. */
  lemma {:induction false} ForwardAllByPort(interfaces: seq<Interface>, routes: seq<Route>, ds: seq<Datagram>, p: nat)
    requires Usable(routes, |interfaces|) && p < |interfaces|
    ensures ForwardAll(interfaces, routes, ds)[p] == SendAll(interfaces[p], HandedTo(routes, ds, p))
    decreases |ds|
  {
    hide Decide;
    if ds != [] {
      var front, last := ds[..|ds| - 1], Decide(routes, ds[|ds| - 1]);
      ForwardAllByPort(interfaces, routes, front, p);
      var handed := HandedTo(routes, front, p);
      if last.Some? && last.value.port == p {
        assert (handed + [last.value])[..|handed|] == handed;
      } else {
        assert handed + [] == handed;
      }
    }
  }

  /** How many datagrams are handed to the first `ports` interfaces together. */
  ghost function HandedCount(routes: seq<Route>, ds: seq<Datagram>, ports: nat): nat
    requires forall route <- routes :: route.length <= 32
  {
    if ports == 0 then 0 else HandedCount(routes, ds, ports - 1) + |HandedTo(routes, ds, ports - 1)|
  }

  ghost function DroppedCount(routes: seq<Route>, ds: seq<Datagram>): nat
    requires forall route <- routes :: route.length <= 32
  {
    if ds == [] then 0
    else DroppedCount(routes, ds[..|ds| - 1]) + (if Decide(routes, ds[|ds| - 1]).None? then 1 else 0)
  }

  lemma {:induction false} HandedCountGrows(routes: seq<Route>, ds: seq<Datagram>, ports: nat)
    requires forall route <- routes :: route.length <= 32
    requires ds != []
    ensures var last := Decide(routes, ds[|ds| - 1]);
            HandedCount(routes, ds, ports) ==
            HandedCount(routes, ds[..|ds| - 1], ports) + (if last.Some? && last.value.port < ports then 1 else 0)
    decreases ports
  {
    hide Decide;
    var last := Decide(routes, ds[|ds| - 1]);
    if ports > 0 {
      HandedCountGrows(routes, ds, ports - 1);
      assert |HandedTo(routes, ds, ports - 1)| == |HandedTo(routes, ds[..|ds| - 1], ports - 1)| +
             (if last.Some? && last.value.port == ports - 1 then 1 else 0);
    }
  }

  /** Every datagram is either dropped or handed to exactly one interface. */
  lemma {:induction false} EachHandedOnce(routes: seq<Route>, ds: seq<Datagram>, ports: nat)
    requires Usable(routes, ports)
    ensures HandedCount(routes, ds, ports) + DroppedCount(routes, ds) == |ds|
    decreases |ds|
  {
    if ds == [] {
      NothingHanded(routes, ports);
    } else {
      EachHandedOnce(routes, ds[..|ds| - 1], ports);
      HandedCountGrows(routes, ds, ports);
    }
  }

  lemma {:induction false} NothingHanded(routes: seq<Route>, ports: nat)
    requires forall route <- routes :: route.length <= 32
    ensures HandedCount(routes, [], ports) == 0
  {
    if ports > 0 {
      NothingHanded(routes, ports - 1);
    }
  }

  /** A datagram is dropped exactly when its time to live has run out or no route matches; otherwise it
      goes to the best route's interface and hop with one less to live, and never with none. */
  lemma DecisionIsRight(routes: seq<Route>, d: Datagram)
    requires forall route <- routes :: route.length <= 32
    ensures Decide(routes, d).None? <==> d.ttl <= 1 || forall n: nat | n < |routes| :: !MatchesAt(routes, d.dst, n)
    ensures Decide(routes, d).Some? ==>
              var h := Decide(routes, d).value;
              && 0 < h.dgram.ttl == d.ttl - 1
              && h.dgram.dst == d.dst && h.dgram.content == d.content
              && exists n: nat :: IsBest(routes, d.dst, n) && h.port == routes[n].port
                   && h.hop == (if routes[n].nextHop.Some? then routes[n].nextHop.value else d.dst)
  {
    if n: nat :| n < |routes| && MatchesAt(routes, d.dst, n) {
      BestExists(routes, d.dst, n);
    }
  }

  function Submissions(handed: seq<Handed>): seq<Input> {
    seq(|handed|, i requires 0 <= i < |handed| => Submit(handed[i].dgram, handed[i].hop))
  }

  /** What the router does to an interface continues that interface's run, so that all that holds of
      every run of an interface holds of the interfaces of a router. */
  lemma {:induction false} RoutingContinuesRun(mac: Mac, ip: Ip, inputs: seq<Input>, handed: seq<Handed>)
    ensures SendAll(Run(mac, ip, inputs).iface, handed) == Run(mac, ip, inputs + Submissions(handed)).iface
    decreases |handed|
  {
    hide Run;
    var all := inputs + Submissions(handed);
    if handed == [] {
      assert all == inputs;
    } else {
      var front, last := handed[..|handed| - 1], handed[|handed| - 1];
      RoutingContinuesRun(mac, ip, inputs, front);
      assert all == inputs + Submissions(front) + [Submit(last.dgram, last.hop)];
      RunSubmits(mac, ip, inputs + Submissions(front), last.dgram, last.hop);
    }
  }

  lemma RunSubmits(mac: Mac, ip: Ip, inputs: seq<Input>, dgram: Datagram, hop: Ip)
    ensures Run(mac, ip, inputs + [Submit(dgram, hop)]).iface == Run(mac, ip, inputs).iface.Send(dgram, hop)
  {
    assert (inputs + [Submit(dgram, hop)])[..|inputs|] == inputs;
  }
}
