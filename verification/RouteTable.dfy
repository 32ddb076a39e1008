/** The route table (src/ip_route.c): five entries, each on the free list or in both trees. */
module RouteTable {
  import opened RouteOrder
  import opened AddressMask
  import opened Orders

  const RIB_SIZE: nat := 5

  datatype Route = Route(network: Addr, netmask: Addr, gw: Addr, iface: Addr, handle: int)

  const BLANK: Route := Route(0, 0, 0, 0, 0)

  predicate Matches(r: Route, addr: Addr) {
    r.network == And(addr, r.netmask)
  }

  // ----- the state

  /** The free list after n entries were put on it. */
  ghost function Stack(n: nat): seq<nat> {
    if n == 0 then [] else [n - 1] + Stack(n - 1)
  }

  lemma FiveSlots()
    ensures Stack(5) == [4, 3, 2, 1, 0]
  {
  }

  function Networks(rib: seq<Route>): seq<Addr> {
    seq(|rib|, i requires 0 <= i < |rib| => rib[i].network)
  }

  function Ifaces(rib: seq<Route>): seq<Addr> {
    seq(|rib|, i requires 0 <= i < |rib| => rib[i].iface)
  }

  ghost predicate Distinct(s: seq<nat>) {
    forall i, j | 0 <= i < j < |s| :: s[i] != s[j]
  }

  /** Free slots are those outside of the tree. */
  ghost predicate Parted(n: nat, tree: seq<nat>, free: seq<nat>) {
    && Distinct(free)
    && (forall x | x in tree || x in free :: x < n)
    && (forall x | 0 <= x < n :: x in free <==> x !in tree)
  }

  /** The routes of a tree, in its order. */
  ghost function Listed(rib: seq<Route>, tree: seq<nat>): (routes: seq<Route>)
    requires Inside(|rib|, tree)
  {
    seq(|tree|, i requires 0 <= i < |tree| => rib[tree[i]])
  }

  lemma SortedDistinct(keys: seq<Addr>, base: Addr, tree: seq<nat>)
    requires Sorted(keys, base, tree)
    ensures Distinct(tree)
  {
    hide Rank, Near;
    forall i, j | 0 <= i < j < |tree| ensures tree[i] != tree[j] {
      assert Rank(base, keys[tree[i]]) < Rank(base, keys[tree[j]]);
    }
  }

  lemma {:induction false} DistinctSize(s: seq<nat>)
    requires Distinct(s)
    ensures |SetOf(s)| == |s|
  {
    if s != [] {
      var t := s[1..];
      DistinctSize(t);
      assert s == [s[0]] + t;
      assert SetOf(s) == {s[0]} + SetOf(t);
      assert s[0] !in t;
    }
  }

  ghost function Upto(n: nat): (r: set<nat>)
    ensures |r| == n && forall x :: x in r <==> 0 <= x < n
  {
    if n == 0 then {} else Upto(n - 1) + {n - 1}
  }

  /** No slot is lost. */
  lemma SlotsConserved(n: nat, tree: seq<nat>, free: seq<nat>)
    requires Parted(n, tree, free) && Distinct(tree)
    ensures |tree| + |free| == n
  {
    DistinctSize(tree);
    DistinctSize(free);
    assert SetOf(tree) + SetOf(free) == Upto(n) && SetOf(tree) !! SetOf(free);
  }

  lemma InListed(rib: seq<Route>, tree: seq<nat>, r: Route)
    requires Inside(|rib|, tree)
    ensures r in Listed(rib, tree) <==> exists x :: x in tree && rib[x] == r
  {
    var s := Listed(rib, tree);
    if r in s {
      var i :| 0 <= i < |s| && s[i] == r;
      assert tree[i] in tree;
    }
    if x :| x in tree && rib[x] == r {
      var i :| 0 <= i < |tree| && tree[i] == x;
      assert s[i] == r;
    }
  }

  /** Some other route has the interface address. */
  ghost predicate Shared(routes: seq<Route>, route: Route) {
    exists r :: r in routes && r.network != route.network && r.iface == route.iface
  }

  /** Routes after an update. */
  ghost predicate Updated(before: seq<Route>, route: Route, after: seq<Route>) {
    forall r :: r in after <==> r == route || (r in before && r.network != route.network)
  }

  ghost predicate Trees(rib: seq<Route>, nb: Addr, ib: Addr, rtree: seq<nat>, stree: seq<nat>) {
    && Sorted(Networks(rib), nb, rtree)
    && Sorted(Ifaces(rib), ib, stree)
    && forall x :: x in rtree <==> x in stree
  }

  /** Overwriting entry e, which may be free, between taking it out of both trees and putting it back: rout and sout
    are the trees without it, rtree' and stree' those in the end. */
  lemma Overwrite(rib: seq<Route>, nb: Addr, ib: Addr, rtree: seq<nat>, stree: seq<nat>, e: nat, route: Route,
      rout: seq<nat>, sout: seq<nat>, rtree': seq<nat>, stree': seq<nat>)
    requires Trees(rib, nb, ib, rtree, stree) && e < |rib|
    requires Inside(|rib|, rtree) && forall x | x in rtree :: rib[x].network == route.network <==> x == e
    requires Lost(rtree, e, rout) && Lost(stree, e, sout)
    requires var rib' := rib[e := route];
      && Sorted(Networks(rib'), nb, rout) && Gained(Networks(rib'), rout, e, rtree') && Inside(|rib|, rtree')
      && Sorted(Ifaces(rib'), ib, sout) && Gained(Ifaces(rib'), sout, e, stree')
    ensures forall x :: x in rtree' <==> x in rtree || x == e
    ensures (forall x :: x in rtree' <==> x in stree') <==> !Shared(Listed(rib, rtree), route)
    ensures Updated(Listed(rib, rtree), route, Listed(rib[e := route], rtree'))
  {
    hide Rank, Near, Updated, Shared, Listed;
    var rib' := rib[e := route];
    assert Networks(rib') == Networks(rib)[e := route.network];
    assert Ifaces(rib') == Ifaces(rib)[e := route.iface];
    Rekey(Networks(rib), nb, rtree, e, route.network, rout, rtree');
    Rekey(Ifaces(rib), ib, stree, e, route.iface, sout, stree');
    Relisted(rib, rtree, e, route, rtree');
    SharedEntry(rib, rtree, e, route);
    if Shared(Listed(rib, rtree), route) {
      assert exists x :: x in stree && x < |rib| && x != e && Ifaces(rib)[x] == route.iface;
      assert e !in stree';
    } else {
      assert !exists x :: x in stree && x < |rib| && x != e && Ifaces(rib)[x] == route.iface;
    }
  }

  /** Both trees stand while an entry outside of them is written. */
  lemma WriteAside(rib: seq<Route>, nb: Addr, ib: Addr, rout: seq<nat>, sout: seq<nat>, e: nat, route: Route)
    requires Sorted(Networks(rib), nb, rout) && Sorted(Ifaces(rib), ib, sout)
    requires e < |rib| && e !in rout && e !in sout
    ensures Sorted(Networks(rib[e := route]), nb, rout) && Sorted(Ifaces(rib[e := route]), ib, sout)
  {
    hide Rank, Near, Sorted;
    assert Networks(rib[e := route]) == Networks(rib)[e := route.network];
    assert Ifaces(rib[e := route]) == Ifaces(rib)[e := route.iface];
    Aside(Networks(rib), nb, rout, e, route.network);
    Aside(Ifaces(rib), ib, sout, e, route.iface);
  }

  lemma Relisted(rib: seq<Route>, rtree: seq<nat>, e: nat, route: Route, rtree': seq<nat>)
    requires e < |rib|
    requires Inside(|rib|, rtree) && forall x | x in rtree :: rib[x].network == route.network <==> x == e
    requires Inside(|rib|, rtree') && forall x :: x in rtree' <==> x in rtree || x == e
    ensures Updated(Listed(rib, rtree), route, Listed(rib[e := route], rtree'))
  {
    hide Listed;
    var rib' := rib[e := route];
    forall r
      ensures r in Listed(rib', rtree') <==> r == route || (r in Listed(rib, rtree) && r.network != route.network)
    {
      InListed(rib, rtree, r);
      InListed(rib', rtree', r);
      if x :| x in rtree && rib[x] == r && r.network != route.network {
        assert x in rtree' && rib'[x] == r;
      }
      if r == route {
        assert e in rtree' && rib'[e] == r;
      }
    }
  }

  lemma SharedEntry(rib: seq<Route>, rtree: seq<nat>, e: nat, route: Route)
    requires Inside(|rib|, rtree) && forall x | x in rtree :: rib[x].network == route.network <==> x == e
    ensures Shared(Listed(rib, rtree), route) <==> exists x :: x in rtree && x != e && rib[x].iface == route.iface
  {
    hide Listed;
    forall r ensures r in Listed(rib, rtree) <==> exists x :: x in rtree && rib[x] == r {
      InListed(rib, rtree, r);
    }
    if x :| x in rtree && x != e && rib[x].iface == route.iface {
      assert rib[x] in Listed(rib, rtree);
    }
  }

  /** Blanking entry e after taking it out. */
  lemma Erase(rib: seq<Route>, nb: Addr, ib: Addr, rtree: seq<nat>, stree: seq<nat>, e: nat,
      rout: seq<nat>, sout: seq<nat>)
    requires Trees(rib, nb, ib, rtree, stree) && e in rtree && e < |rib|
    requires Lost(rtree, e, rout) && Lost(stree, e, sout)
    requires Sorted(Networks(rib), nb, rout) && Sorted(Ifaces(rib), ib, sout)
    ensures Trees(rib[e := BLANK], nb, ib, rout, sout)
    ensures forall r :: r in Listed(rib[e := BLANK], rout) <==> r in Listed(rib, rtree) && r.network != rib[e].network
  {
    hide Rank, Near, Listed;
    var rib' := rib[e := BLANK];
    WriteAside(rib, nb, ib, rout, sout, e, BLANK);
    forall r ensures r in Listed(rib', rout) <==> r in Listed(rib, rtree) && r.network != rib[e].network {
      InListed(rib, rtree, r);
      InListed(rib', rout, r);
      if x :| x in rtree && rib[x] == r && r.network == rib[e].network {
        SameEntry(Networks(rib), nb, rtree, x, e);
      }
      if x :| x in rtree && rib[x] == r && r.network != rib[e].network {
        assert x in rout && rib'[x] == r;
      }
    }
  }

  /** What a search of the network tree means for the routes. */
  lemma FoundRoute(rib: seq<Route>, nb: Addr, rtree: seq<nat>, n: Addr)
    requires Sorted(Networks(rib), nb, rtree)
    ensures var e := Find(Networks(rib), rtree, n);
      if Knows(Listed(rib, rtree), n) then e < |rib| && e in rtree && rib[e].network == n else e == |rib|
    ensures forall x | x in rtree && x < |rib| && rib[x].network == n :: x == Find(Networks(rib), rtree, n)
  {
    var keys, e := Networks(rib), Find(Networks(rib), rtree, n);
    hide Rank, Near, Find;
    FindWorks(keys, nb, rtree, n);
    if i :| 0 <= i < |rtree| && keys[rtree[i]] == n {
      assert Listed(rib, rtree)[i].network == n;
    }
    if r :| r in Listed(rib, rtree) && r.network == n {
      InListed(rib, rtree, r);
    }
    InRangeOf(|rib|, rtree, e);
    forall x | x in rtree && x < |rib| && keys[x] == n ensures x == e {
      HasEntry(keys, rtree, x);
      SameEntry(keys, nb, rtree, x, e);
    }
  }

  lemma InRangeOf(n: nat, tree: seq<nat>, e: nat)
    requires Inside(n, tree)
    ensures e in tree ==> e < n
  {
  }

  /** Some route is for the network. */
  ghost predicate Knows(routes: seq<Route>, n: Addr) {
    exists r :: r in routes && r.network == n
  }

  /** Route i is the first in order whose network is the masked address. */
  ghost predicate FirstMatch(routes: seq<Route>, addr: Addr, i: int) {
    && 0 <= i < |routes| && Matches(routes[i], addr)
    && forall j | 0 <= j < i :: !Matches(routes[j], addr)
  }

  /** What ip_route_find_by_network answers: the exact route, else the first masked match, else the network-0 route,
    else -1. */
  ghost predicate Answers(routes: seq<Route>, addr: Addr, ret: int, route: Route) {
    && (ret == 0 || ret == -1)
    && (ret == 0 ==> route in routes)
    && (Knows(routes, addr) ==> ret == 0 && route.network == addr)
    && (forall i | !Knows(routes, addr) && FirstMatch(routes, addr, i) :: ret == 0 && route == routes[i])
    && (!Knows(routes, addr) && (forall r | r in routes :: !Matches(r, addr)) ==>
          if Knows(routes, 0) then ret == 0 && route.network == 0 else ret == -1)
  }

  class RouteTable {
    const rib: array<Route>
    var rtree: seq<nat>
    var stree: seq<nat>
    var freelist: seq<nat>
    /** Where the half circles begin that hold the networks and the interface addresses. */
    ghost const networks: Addr
    ghost const ifaces: Addr

    /** All but the tree of interfaces. */
    ghost predicate HalfValid()
      reads this, rib
    {
      && rib.Length == RIB_SIZE
      && Sorted(Networks(rib[..]), networks, rtree)
      && Sorted(Ifaces(rib[..]), ifaces, stree)
      && Parted(RIB_SIZE, rtree, freelist)
    }

    /** Every slot is on the free list or in both trees. */
    ghost predicate Valid()
      reads this, rib
    {
      HalfValid() && forall x :: x in rtree <==> x in stree
    }

    /** The routes in network order. */
    ghost function Routes(): (routes: seq<Route>)
      requires HalfValid()
      reads this, rib
    {
      Listed(rib[..], rtree)
    }

    // ip_route_init
    constructor (ghost networks: Addr, ghost ifaces: Addr)
      ensures Valid() && fresh(rib) && Routes() == [] && rib.Length == 5 && freelist == [4, 3, 2, 1, 0]
      ensures this.networks == networks && this.ifaces == ifaces
    {
      rib := new Route[RIB_SIZE](_ => BLANK);
      rtree, stree, freelist := [], [], [];
      this.networks, this.ifaces := networks, ifaces;
      new;
      for i := 0 to RIB_SIZE
        invariant rtree == [] && stree == [] && fresh(rib) && rib.Length == RIB_SIZE
        invariant Distinct(freelist) && forall x :: x in freelist <==> 0 <= x < i
        invariant freelist == Stack(i)
      {
        Pushed(freelist, i);
        freelist := [i] + freelist;
      }
      FiveSlots();
    }

    // ip_route_tree_insert
    method TreeInsert(e: nat)
      requires e < rib.Length && Near(networks, rib[e].network) && Near(ifaces, rib[e].iface)
      requires Sorted(Networks(rib[..]), networks, rtree) && Sorted(Ifaces(rib[..]), ifaces, stree)
      modifies this`rtree, this`stree
      ensures Sorted(Networks(rib[..]), networks, rtree) && Gained(Networks(rib[..]), old(rtree), e, rtree)
      ensures Sorted(Ifaces(rib[..]), ifaces, stree) && Gained(Ifaces(rib[..]), old(stree), e, stree)
    {
      hide Rank, Near, Insert;
      InsertWorks(Networks(rib[..]), networks, rtree, e);
      InsertWorks(Ifaces(rib[..]), ifaces, stree, e);
      rtree := Insert(Networks(rib[..]), rtree, e);
      stree := Insert(Ifaces(rib[..]), stree, e);
    }

    // ip_route_tree_remove
    method TreeRemove(e: nat)
      requires Sorted(Networks(rib[..]), networks, rtree) && Sorted(Ifaces(rib[..]), ifaces, stree)
      modifies this`rtree, this`stree
      ensures Sorted(Networks(rib[..]), networks, rtree) && Lost(old(rtree), e, rtree)
      ensures Sorted(Ifaces(rib[..]), ifaces, stree) && Lost(old(stree), e, stree)
    {
      hide Rank, Near, Remove;
      RemoveWorks(Networks(rib[..]), networks, rtree, e);
      RemoveWorks(Ifaces(rib[..]), ifaces, stree, e);
      rtree := Remove(rtree, e);
      stree := Remove(stree, e);
    }

    // ip_route_add; the caller needs a free slot, since an empty list is followed through a null pointer
    method Add(route: Route) returns (ret: int)
      requires Valid() && freelist != [] && !Knows(Routes(), route.network)
      requires Near(networks, route.network) && Near(ifaces, route.iface)
      modifies this`rtree, this`stree, this`freelist, rib
      ensures ret == 0 && HalfValid()
      ensures Updated(old(Routes()), route, Routes())
      ensures Valid() <==> !Shared(old(Routes()), route)
      ensures var e := old(freelist[0]); freelist == old(freelist)[1..] && e < rib.Length && rib[e] == route
    {
      hide Rank, Near, Listed;
      var e := freelist[0];
      ghost var was, rt, st := rib[..], rtree, stree;
      assert e in freelist && e !in rtree;
      FoundRoute(was, networks, rtree, route.network);
      WriteAside(was, networks, ifaces, rtree, stree, e, route);
      Popped(RIB_SIZE, rtree, freelist);
      freelist := freelist[1..];
      rib[e] := route;
      assert rib[..] == was[e := route];
      TreeInsert(e);
      Overwrite(was, networks, ifaces, rt, st, e, route, rt, st, rtree, stree);
      return 0;
    }

    // ip_route_update for a network that is in entry e
    method Replace(e: nat, route: Route)
      requires Valid() && e < rib.Length && e in rtree && rib[e].network == route.network
      requires Near(networks, route.network) && Near(ifaces, route.iface)
      modifies this`rtree, this`stree, rib
      ensures HalfValid()
      ensures Updated(old(Routes()), route, Routes())
      ensures Valid() <==> !Shared(old(Routes()), route)
    {
      hide Rank, Near, Listed, Updated, Shared, Parted;
      ghost var was, rt, st := rib[..], rtree, stree;
      OneEntry(was, networks, rtree, e);
      TreeRemove(e);
      ghost var rout, sout := rtree, stree;
      WriteAside(was, networks, ifaces, rtree, stree, e, route);
      rib[e] := route;
      assert rib[..] == was[e := route];
      TreeInsert(e);
      Overwrite(was, networks, ifaces, rt, st, e, route, rout, sout, rtree, stree);
      SamePart(RIB_SIZE, rt, rtree, freelist);
    }

    // ip_route_update
    method Update(route: Route) returns (ret: int)
      requires Valid()
      requires Near(networks, route.network) && Near(ifaces, route.iface)
      requires Knows(Routes(), route.network) || |Routes()| < RIB_SIZE
      modifies this`rtree, this`stree, this`freelist, rib
      ensures ret == 0 && HalfValid()
      ensures Updated(old(Routes()), route, Routes())
      ensures Valid() <==> !Shared(old(Routes()), route)
    {
      hide Rank, Near, Updated, Shared, Find;
      ghost var was := rib[..];
      FoundRoute(was, networks, rtree, route.network);
      var e := Find(Networks(rib[..]), rtree, route.network);
      if e < rib.Length {
        Replace(e, route);
        ret := 0;
      } else {
        SortedDistinct(Networks(was), networks, rtree);
        SlotsConserved(RIB_SIZE, rtree, freelist);
        ret := Add(route);
      }
    }

    // ip_route_remove
    method Delete(network: Addr) returns (ret: int)
      requires Valid()
      modifies this`rtree, this`stree, this`freelist, rib
      ensures Valid()
      ensures ret == if Knows(old(Routes()), network) then 0 else -1
      ensures ret != 0 ==> Routes() == old(Routes())
      ensures forall r :: r in Routes() <==> r in old(Routes()) && r.network != network
      ensures if ret != 0 then freelist == old(freelist)
        else freelist != [] && freelist[1..] == old(freelist) && freelist[0] in old(rtree) && rib[freelist[0]] == BLANK
    {
      hide Rank, Near, Listed;
      ghost var was := rib[..];
      FoundRoute(was, networks, rtree, network);
      var e := Find(Networks(rib[..]), rtree, network);
      if e == rib.Length {
        return -1;
      }
      ghost var rt, st := rtree, stree;
      TreeRemove(e);
      Erase(was, networks, ifaces, rt, st, e, rtree, stree);
      Freed(RIB_SIZE, rt, freelist, e, rtree);
      rib[e] := BLANK;
      assert rib[..] == was[e := BLANK];
      freelist := [e] + freelist;
      return 0;
    }

    // ip_route_find_by_network
    method FindByNetwork(addr: Addr) returns (ret: int, route: Route)
      requires HalfValid()
      ensures Answers(Routes(), addr, ret, route) && InNetworkOrder(Routes(), networks)
    {
      ListedInOrder(rib[..], networks, rtree);
      hide Rank, Near, Find, Matches, And, Answers, Knows, InNetworkOrder;
      ghost var routes := Routes();
      FoundRoute(rib[..], networks, rtree, addr);
      FoundRoute(rib[..], networks, rtree, 0);
      var entry := Find(Networks(rib[..]), rtree, addr);
      if entry < rib.Length {
        InListed(rib[..], rtree, rib[entry]);
        ExactAnswer(routes, rib[entry]);
        return 0, rib[entry];
      }
      for i := 0 to |rtree|
        invariant forall j | 0 <= j < i :: !Matches(routes[j], addr)
      {
        assert routes[i] == rib[rtree[i]];
        MatchesIs(routes[i], addr);
        if rib[rtree[i]].network == And(addr, rib[rtree[i]].netmask) {
          MatchAnswer(routes, addr, i);
          return 0, rib[rtree[i]];
        }
      }
      entry := Find(Networks(rib[..]), rtree, 0);
      if entry == rib.Length {
        LastAnswer(routes, addr, -1, BLANK);
        return -1, BLANK;
      }
      InListed(rib[..], rtree, rib[entry]);
      LastAnswer(routes, addr, 0, rib[entry]);
      return 0, rib[entry];
    }

    // ip_route_find_by_iface
    method FindByIface(addr: Addr) returns (ret: int, route: Route)
      requires Valid()
      ensures ret == if exists r :: r in Routes() && r.iface == addr then 0 else -1
      ensures ret == 0 ==> route in Routes() && route.iface == addr
    {
      hide Rank, Near, Find;
      var keys := Ifaces(rib[..]);
      FindWorks(keys, ifaces, stree, addr);
      var entry := Find(keys, stree, addr);
      forall r ensures r in Routes() <==> exists x :: x in rtree && rib[..][x] == r {
        InListed(rib[..], rtree, r);
      }
      if entry == rib.Length {
        forall x | x in rtree ensures rib[..][x].iface != addr {
          assert x in stree;
          InRangeOf(rib.Length, stree, x);
          HasEntry(keys, stree, x);
        }
        return -1, BLANK;
      }
      InRangeOf(rib.Length, stree, entry);
      assert rib[..][entry] == rib[entry];
      return 0, rib[entry];
    }
  }

  // ----- which of several matching routes is found

  /** The routes are for different networks of one half circle, in the order of the tree. */
  ghost predicate InNetworkOrder(routes: seq<Route>, base: Addr) {
    && (forall i | 0 <= i < |routes| :: Near(base, routes[i].network))
    && (forall i, j | 0 <= i < j < |routes| :: Rank(base, routes[i].network) < Rank(base, routes[j].network))
  }

  lemma ListedInOrder(rib: seq<Route>, base: Addr, rtree: seq<nat>)
    requires Sorted(Networks(rib), base, rtree)
    ensures InNetworkOrder(Listed(rib, rtree), base)
  {
    hide Rank, Near;
    var routes := Listed(rib, rtree);
    forall i, j | 0 <= i < j < |routes| ensures Rank(base, routes[i].network) < Rank(base, routes[j].network) {
      RanksRise(Networks(rib), base, rtree, i, j);
    }
    forall i | 0 <= i < |routes| ensures Near(base, routes[i].network) {
      assert Near(base, Networks(rib)[rtree[i]]);
    }
  }

  /** The mask of w lies inside that of n: w is the wider route. */
  predicate Wider(w: Route, n: Route) {
    And(w.netmask, n.netmask) == w.netmask
  }

  /** The network of w is less than half the circle below that of n. */
  predicate Close(w: Route, n: Route) {
    n.network - w.network < 0x8000_0000
  }

  /** Of two routes that match an address, the wider one comes first if and only if its network is less than 2^31 below
    the other's. */
  lemma WiderFirst(routes: seq<Route>, base: Addr, addr: Addr, w: nat, n: nat)
    requires InNetworkOrder(routes, base) && w < |routes| && n < |routes| && w != n
    requires Matches(routes[w], addr) && Matches(routes[n], addr) && Wider(routes[w], routes[n])
    ensures routes[w].network <= routes[n].network
    ensures w < n <==> Close(routes[w], routes[n])
  {
    AndWithin(addr, routes[w].netmask, routes[n].netmask);
    assert routes[w].network == And(routes[n].network, routes[w].netmask);
    RankIs(base, routes[w].network);
    RankIs(base, routes[n].network);
    InTurn(routes, base, w, n);
    InTurn(routes, base, n, w);
  }

  lemma InTurn(routes: seq<Route>, base: Addr, i: nat, j: nat)
    requires InNetworkOrder(routes, base) && i < |routes| && j < |routes|
    ensures i < j ==> Rank(base, routes[i].network) < Rank(base, routes[j].network)
    ensures Near(base, routes[i].network) && Near(base, routes[j].network)
  {
  }

  /** Without an exact match the longest prefix is found, that is the matching route n than which all other matching
    ones are wider, if and only if each of their networks is 2^31 or more below its own. */
  lemma LongestPrefixIff(routes: seq<Route>, base: Addr, addr: Addr, n: nat, ret: int, route: Route)
    requires InNetworkOrder(routes, base) && !Knows(routes, addr) && Answers(routes, addr, ret, route)
    requires n < |routes| && Matches(routes[n], addr)
    requires forall i | 0 <= i < |routes| && i != n && Matches(routes[i], addr) :: Wider(routes[i], routes[n])
    ensures ret == 0
    ensures route == routes[n] <==>
      forall i | 0 <= i < |routes| && i != n && Matches(routes[i], addr) :: !Close(routes[i], routes[n])
  {
    hide Matches, Wider, Knows, Close;
    var f := FirstOf(routes, addr, n);
    assert FirstMatch(routes, addr, f) && route == routes[f];
    forall i | 0 <= i < |routes| && i != n && Matches(routes[i], addr) ensures i < n <==> Close(routes[i], routes[n]) {
      WiderFirst(routes, base, addr, i, n);
    }
    InTurn(routes, base, f, n);
  }

  lemma FirstOf(routes: seq<Route>, addr: Addr, n: nat) returns (f: nat)
    requires n < |routes| && Matches(routes[n], addr)
    ensures f <= n && FirstMatch(routes, addr, f)
  {
    hide Matches;
    f := 0;
    while !Matches(routes[f], addr)
      invariant f <= n && forall j | 0 <= j < f :: !Matches(routes[j], addr)
      decreases n - f
    {
      f := f + 1;
    }
  }

  const TEN_8: Route := Route(0x0A00_0000, 0xFF00_0000, 0, 0, 0)
  const TEN_ONE_16: Route := Route(0x0A01_0000, 0xFFFF_0000, 0, 1, 0)
  const ALL_0: Route := Route(0, 0, 0, 0, 0)
  const TEN_ONE_SAME: Route := TEN_ONE_16.(iface := TEN_8.iface)
  const HIGH_8: Route := Route(0xC000_0000, 0xFF00_0000, 0, 1, 0)

  /** 10.1.2.3 with routes for 10.0.0.0/8 and 10.1.0.0/16 goes to the /8. */
  lemma ShorterPrefixFound(ret: int, route: Route)
    requires Answers([TEN_8, TEN_ONE_16], 0x0A01_0203, ret, route)
    ensures InNetworkOrder([TEN_8, TEN_ONE_16], 0) && Near(0, TEN_8.network) && Near(0, TEN_ONE_16.network)
    ensures Matches(TEN_ONE_16, 0x0A01_0203) && ret == 0 && route == TEN_8
  {
    hide And;
    Masked();
    var routes, addr := [TEN_8, TEN_ONE_16], 0x0A01_0203;
    assert Matches(TEN_8, addr) && Matches(TEN_ONE_16, addr);
    assert FirstMatch(routes, addr, 0);
  }

  /** A table with a route for 10.0.0.0/8, and a new route for 10.1.0.0/16 with the same interface address. */
  lemma SharedInterface()
    ensures Shared([TEN_8], TEN_ONE_SAME) && !Knows([TEN_8], TEN_ONE_SAME.network)
    ensures InNetworkOrder([TEN_8], 0) && Near(0, TEN_ONE_SAME.network) && Near(0, TEN_ONE_SAME.iface)
  {
    assert TEN_8 in [TEN_8];
  }

  /** 192.1.2.3 with routes for 0.0.0.0/0 and 192.0.0.0/8, in a half circle that begins at 192.0.0.0, goes to the /8. */
  lemma LongerPrefixFound(ret: int, route: Route)
    requires Answers([HIGH_8, ALL_0], 0xC001_0203, ret, route)
    ensures InNetworkOrder([HIGH_8, ALL_0], HIGH_8.network)
    ensures Near(HIGH_8.network, HIGH_8.network) && Near(HIGH_8.network, ALL_0.network)
    ensures Matches(ALL_0, 0xC001_0203) && ret == 0 && route == HIGH_8
  {
    hide And;
    Masked();
    var routes, addr := [HIGH_8, ALL_0], 0xC001_0203;
    assert Matches(HIGH_8, addr);
    assert FirstMatch(routes, addr, 0);
  }

  lemma ExactAnswer(routes: seq<Route>, route: Route)
    requires route in routes
    ensures Answers(routes, route.network, 0, route)
  {
  }

  lemma MatchAnswer(routes: seq<Route>, addr: Addr, i: nat)
    requires !Knows(routes, addr) && FirstMatch(routes, addr, i)
    ensures Answers(routes, addr, 0, routes[i])
  {
  }

  lemma LastAnswer(routes: seq<Route>, addr: Addr, ret: int, route: Route)
    requires !Knows(routes, addr) && forall i | 0 <= i < |routes| :: !Matches(routes[i], addr)
    requires if Knows(routes, 0) then ret == 0 && route in routes && route.network == 0 else ret == -1
    ensures Answers(routes, addr, ret, route)
  {
  }

  lemma MatchesIs(r: Route, addr: Addr)
    ensures Matches(r, addr) <==> r.network == And(addr, r.netmask)
  {
  }

  lemma RankIs(base: Addr, a: Addr)
    ensures Rank(base, a) == if a >= base then a - base else a - base + FULL
  {
  }

  lemma OneEntry(rib: seq<Route>, nb: Addr, rtree: seq<nat>, e: nat)
    requires Sorted(Networks(rib), nb, rtree) && e in rtree && e < |rib|
    ensures forall x | x in rtree && x < |rib| :: rib[x].network == rib[e].network <==> x == e
    ensures forall x | x in rtree :: x < |rib|
  {
    hide Rank, Near;
    forall x | x in rtree && x < |rib| ensures rib[x].network == rib[e].network <==> x == e {
      SameEntry(Networks(rib), nb, rtree, x, e);
    }
  }

  lemma SamePart(n: nat, tree: seq<nat>, tree': seq<nat>, free: seq<nat>)
    requires Parted(n, tree, free) && forall x :: x in tree' <==> x in tree
    ensures Parted(n, tree', free)
  {
  }

  lemma Popped(n: nat, tree: seq<nat>, free: seq<nat>)
    requires Parted(n, tree, free) && free != []
    ensures forall tree': seq<nat> | (forall x :: x in tree' <==> x in tree || x == free[0]) ::
      Parted(n, tree', free[1..])
  {
    assert free == [free[0]] + free[1..];
    assert free[0] in free;
  }

  lemma Freed(n: nat, tree: seq<nat>, free: seq<nat>, e: nat, tree': seq<nat>)
    requires Parted(n, tree, free) && e in tree
    requires forall x :: x in tree' <==> x in tree && x != e
    ensures Parted(n, tree', [e] + free)
  {
    Pushed(free, e);
  }

  lemma Pushed(s: seq<nat>, x: nat)
    requires Distinct(s) && x !in s
    ensures Distinct([x] + s)
  {
  }
}
