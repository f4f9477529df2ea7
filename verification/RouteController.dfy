/**
 * The route controller (cloud/linode/route_controller.go): refreshRoutes, CreateRoute, DeleteRoute, handleInterfaces.
 * Other calls may take steps whenever this one does not hold the lock of the cache.  Whatever the code does is
 * recorded as a run, so that the lemmas about runs are about the code.
 */
module RouteController {
  import opened Wrappers
  import opened Routes
  import opened RouteRuns

  datatype Destination = Malformed | IPv6(text: string) | IPv4(cidr: string)

  datatype Generation = LinodeInterfaces | LegacyConfig

  /** An instance a route is for, and how its interfaces are addressed. */
  datatype Instance = Instance(linode: int, generation: Generation)

  class Controller {
    var ifs: Interfaces
    var routes: Cache
    var lastUpdate: Option<int>
    var ipv6Routes: seq<string>
    var states: seq<State>        // the states so far; a call that looked into the cache in one may still write
    ghost var events: seq<Event>  // the steps between them
    var calls: nat                // the calls of the API so far
    const site: Site
    const alone: bool             // whether no other call runs at the same time
    const faults: Faults

    /** What has happened is a run, and the present state is its end. */
    ghost predicate Valid()
      reads this
    {
      IsRun(site, states, events) && states[|events|] == State(ifs, routes, lastUpdate)
    }

    constructor (site: Site, alone: bool, ifs: Interfaces, faults: Faults)
      ensures Valid() && events == [] && this.ifs == ifs && this.site == site && this.alone == alone
      ensures ipv6Routes == [] && this.faults == faults
    {
      this.ifs, this.site, this.alone, ipv6Routes, this.faults, calls := ifs, site, alone, [], faults, 0;
      routes, lastUpdate, states, events := map[], None, [State(ifs, map[], None)], [];
    }

    method Record(ghost e: Event)
      requires IsRun(site, states, events)
      requires Follows(site, states, |events|, e, State(ifs, routes, lastUpdate))
      modifies this`states, this`events
      ensures Valid() && events == old(events) + [e] && states == old(states) + [State(ifs, routes, lastUpdate)]
    {
      RunGrows(site, states, events, e, State(ifs, routes, lastUpdate));
      states, events := states + [State(ifs, routes, lastUpdate)], events + [e];
    }

    // -- the API --------------------------------------------------------------------------

    method NextCallFails() returns (fails: bool)
      modifies this`calls
      ensures calls == old(calls) + 1 && fails == faults(old(calls))
    {
      fails := faults(calls);
      calls := calls + 1;
    }

    method ListVPCAddresses(vpc: int) returns (r: Option<seq<Record>>)
      modifies this`calls
      ensures calls == old(calls) + 1 && (r.None? <==> faults(old(calls)))
      ensures r.Some? ==> ListingOf(r.value, ifs, vpc)
    {
      var fails := NextCallFails();
      if fails {
        return None;
      }
      var addresses := set k | k in ifs && ifs[k].vpc == vpc :: AddressRecord(k, ifs[k]);
      var ranges := set k, range | k in ifs && ifs[k].vpc == vpc && range in ifs[k].ranges ::
        RangeRecord(k, ifs[k], range);
      var all := Listing(addresses + ranges);
      forall x
        ensures x in all <==> x.vpc == vpc && Describes(x, ifs)
      {
        assert x in all <==> x in addresses || x in ranges;
        if x.vpc == vpc && Describes(x, ifs) {
          var k := Key(x.linode, x.id);
          assert x == AddressRecord(k, ifs[k]) || x == RangeRecord(k, ifs[k], x.range.value);
        }
      }
      return Some(all);
    }

    /** Overwrites the ranges of an interface. */
    method UpdateInterface(k: Key, ranges: seq<string>) returns (ok: bool)
      modifies this`ifs, this`calls
      ensures calls == old(calls) + 1 && (ok <==> !faults(old(calls)) && k in old(ifs))
      ensures !ok ==> ifs == old(ifs)
      ensures ok ==> Overwritten(old(ifs), ifs, k, Elements(ranges))
    {
      var fails := NextCallFails();
      if fails || k !in ifs {
        return false;
      }
      ifs := SetRanges(ifs, k, Elements(ranges));
      return true;
    }

    /** The same for an interface addressed through its instance config; an error when it is not part of that config. */
    method UpdateInstanceConfigInterface(k: Key, config: int, ranges: seq<string>) returns (ok: bool)
      modifies this`ifs, this`calls
      ensures calls == old(calls) + 1
      ensures ok <==> !faults(old(calls)) && k in old(ifs) && old(ifs)[k].config == config
      ensures !ok ==> ifs == old(ifs)
      ensures ok ==> Overwritten(old(ifs), ifs, k, Elements(ranges))
    {
      if k !in ifs || ifs[k].config != config {
        var _ := NextCallFails();
        return false;
      }
      ok := UpdateInterface(k, ranges);
    }

    // -- other calls ------------------------------------------------------------------------

    /** Any number of steps of other calls, if there are any. */
    method Interfere()
      requires Valid()
      modifies this`ifs, this`routes, this`lastUpdate, this`states, this`events, this`calls
      ensures Valid() && old(events) <= events && old(states) <= states && calls >= old(calls)
      ensures alone ==> ifs == old(ifs) && routes == old(routes) && events == old(events) && calls == old(calls)
    {
      var steps: int := *;
      steps := if steps < 0 || alone then 0 else steps;
      for i := 0 to steps
        invariant Valid() && old(events) <= events && old(states) <= states && calls >= old(calls)
        invariant alone ==> ifs == old(ifs) && routes == old(routes) && events == old(events) && calls == old(calls)
      {
        var refreshes: bool, now: int, end: int, k: Key, read: int, call: Call := *, *, *, *, *, *;
        if refreshes {
          ghost var mine := RefreshRoutes(now, end);
        } else if 0 <= read < |states| {
          OtherCall(k, read, call);
        }
      }
    }

    /** Another call that looked into the cache earlier writes, or has found its range and succeeds. */
    method OtherCall(k: Key, read: nat, call: Call)
      requires Valid() && read < |states|
      modifies this`ifs, this`states, this`events, this`calls
      ensures Valid() && old(events) <= events && old(states) <= states && calls >= old(calls)
    {
      var seen, s := states[read], states[|states| - 1];
      if CanWrite(site, seen, s, k, call) {
        var fails := NextCallFails();
        if fails {
          return;
        }
        ifs := SetRanges(ifs, k, Apply(Base(seen, k.linode, site), call));
        Record(Write(k, read, call));
      } else if call.Create? && call.range in Base(seen, k.linode, site) {
        Record(Found(k.linode, read, call.range));
      }
    }

    // -- route_controller.go ----------------------------------------------------------------

    predicate IsExpired(now: int)
      reads this
    {
      Expired(lastUpdate, site.ttl, now)
    }

    /** refreshRoutes; a VPC that cannot be listed is left out. */
    method RefreshRoutes(now: int, end: int) returns (ghost mine: seq<Event>)
      requires Valid()
      modifies this`routes, this`lastUpdate, this`states, this`events, this`calls
      ensures Valid() && events == old(events) + mine && old(states) <= states && calls >= old(calls)
      ensures mine == [] <==> old(lastUpdate).Some? && now - old(lastUpdate).value < site.ttl
      ensures !old(IsExpired(now)) ==> mine == [] && routes == old(routes) && calls == old(calls)
      ensures old(IsExpired(now)) ==> mine == [Refresh(Answered(site.names, faults, old(calls)), now, end)]
      ensures old(IsExpired(now)) ==> Lists(routes, ifs, Answered(site.names, faults, old(calls)))
      ensures old(IsExpired(now)) ==> calls == old(calls) + NamesBelow(site.names, |site.names|)
    {
      mine := [];
      if !IsExpired(now) {
        return;
      }
      var nodes: Cache, names := map[], site.names;
      ghost var listed := {};
      for n := 0 to |names|
        invariant Valid() && lastUpdate == old(lastUpdate) && events == old(events) && states == old(states)
        invariant Lists(nodes, ifs, listed) && calls == old(calls) + NamesBelow(names, n)
        invariant listed == Answered(names[..n], faults, old(calls))
      {
        AnsweredMore(names, faults, old(calls), n);
        if names[n].None? {
          continue;
        }
        var records := ListVPCAddresses(names[n].value);
        if records.None? {
          continue;
        }
        ghost var before := nodes;
        nodes := File(nodes, records.value);
        ListsMore(before, nodes, ifs, listed, names[n].value, records.value);
        listed := listed + {names[n].value};
      }
      assert names[..|names|] == names;
      routes, lastUpdate := nodes, Some(end);
      mine := [Refresh(listed, now, end)];
      Record(mine[0]);
    }

    /** handleInterfaces: the call depends on the interface generation of the instance, the effect does not. */
    method HandleInterfaces(instance: Instance, found: Record, ranges: seq<string>) returns (ok: bool)
      modifies this`ifs, this`calls
      ensures calls == old(calls) + 1
      ensures ok <==> !faults(old(calls)) && Reachable(old(ifs), instance, found)
      ensures !ok ==> ifs == old(ifs)
      ensures ok ==> Overwritten(old(ifs), ifs, Key(instance.linode, found.id), Elements(ranges))
    {
      var k := Key(instance.linode, found.id);
      match instance.generation {
        case LinodeInterfaces => ok := UpdateInterface(k, ranges);
        case LegacyConfig => ok := UpdateInstanceConfigInterface(k, found.config, ranges);
      }
    }

    /** getInstanceRoutes, up to the lock of the cache: its own refresh, and what others do before it looks. */
    method Look(now: int, end: int) returns (ghost refresh: seq<Event>)
      requires Valid()
      modifies this`ifs, this`routes, this`lastUpdate, this`states, this`events, this`calls
      ensures Valid() && old(events) + refresh <= events && old(states) <= states && calls >= old(calls)
      ensures !old(IsExpired(now)) ==> refresh == []
      ensures old(IsExpired(now)) ==> refresh == [Refresh(Answered(site.names, faults, old(calls)), now, end)]
      ensures alone ==> events == old(events) + refresh && ifs == old(ifs)
      ensures alone && old(IsExpired(now)) && Smooth(faults, old(calls), calls) ==>
        forall k :: Servable(old(ifs), k) ==> Knows(routes, old(ifs), k, k.linode, site.vpcs)
      ensures forall l :: WellFormed(Cached(routes, l))
    {
      refresh := RefreshRoutes(now, end);
      Interfere();
      CacheWellFormed(site, states, events);
      if alone && old(IsExpired(now)) && Smooth(faults, old(calls), calls) {
        forall k | Servable(old(ifs), k)
          ensures Knows(routes, old(ifs), k, k.linode, site.vpcs)
        {
          RefreshKnows(old(ifs), old(calls), k);
        }
      }
    }

    /** The write of a call that looked in state number `read`, and what others do before it. */
    method Commit(instance: Instance, found: Record, ranges: seq<string>, read: nat, call: Call)
      returns (ok: bool, ghost mine: seq<Event>)
      requires Valid() && read < |states|
      requires found in Cached(states[read].cache, instance.linode) && found.vpc in site.vpcs && found.address.Some?
      requires Elements(ranges) == Apply(Base(states[read], instance.linode, site), call)
      requires call.Create? ==> call.range !in Base(states[read], instance.linode, site)
      modifies this`ifs, this`routes, this`lastUpdate, this`states, this`events, this`calls
      ensures Valid() && old(events) <= events && old(states) <= states && EndsIn(events, mine)
      ensures calls > old(calls) && (ok <==> !faults(calls - 1)) && (alone ==> calls == old(calls) + 1)
      ensures mine == if ok then [Write(Key(instance.linode, found.id), read, call)] else []
      ensures alone ==> events == old(events) + mine && routes == old(routes)
      ensures alone && !ok ==> ifs == old(ifs)
      ensures alone && ok ==> Overwritten(old(ifs), ifs, Key(instance.linode, found.id), Elements(ranges))
    {
      Interfere();
      mine := [];
      RecordStands(site, states, events, read, |events|, instance.linode, found);
      ok := HandleInterfaces(instance, found, ranges);
      if ok {
        mine := [Write(Key(instance.linode, found.id), read, call)];
        Record(mine[0]);
      }
    }

    /**
     * CreateRoute; `instance` is None when its lookup fails.  The call looks into the cache in state number `read`;
     * `refresh` and `mine` are its own steps, and if it runs alone there are no others.
     */
    method CreateRoute(destination: Destination, instance: Option<Instance>, now: int, end: int)
      returns (ok: bool, ghost refresh: seq<Event>, ghost mine: seq<Event>, ghost read: nat)
      requires Valid()
      modifies this
      ensures Valid() && old(events) + refresh <= events && old(states) <= states && EndsIn(events, mine)
      ensures |old(events)| + |refresh| <= read <= |events|
      ensures alone ==> events == old(events) + refresh + mine && (mine == [] ==> ifs == old(ifs))
      ensures ipv6Routes == if destination.IPv6? then old(ipv6Routes) + [destination.text] else old(ipv6Routes)
      ensures destination.Malformed? ==> !ok
      ensures destination.IPv6? ==> ok
      ensures destination.IPv4? && instance.None? ==> !ok
      ensures refresh == if destination.IPv4? && instance.Some? && old(IsExpired(now))
                         then [Refresh(Answered(site.names, faults, old(calls)), now, end)] else []
      ensures calls >= old(calls)
      ensures destination.IPv4? && instance.Some? ==>
        (ok <==> || destination.cidr in Base(states[read], instance.value.linode, site)
                 || (NamesIn(states[read], instance.value.linode) && calls > 0 && !faults(calls - 1)))
      ensures alone && destination.IPv4? && instance.Some? && Smooth(faults, old(calls), calls) ==>
        (ok <==> destination.cidr in Known(instance.value) || Names(instance.value))
      ensures alone && refresh != [] && Smooth(faults, old(calls), calls) ==>
        forall k :: Servable(old(ifs), k) && k.linode == instance.value.linode ==>
        ok && Added(old(ifs), ifs, k, destination.cidr)
      ensures mine != [] <==> ok && destination.IPv4?
      ensures mine != [] ==> IsCall(mine, instance.value.linode, read, Create(destination.cidr))
      ensures alone && mine != [] ==>
        forall k :: NamesOnly(routes, old(ifs), k, instance.value.linode, site.vpcs) ==>
        (Added(old(ifs), ifs, k, destination.cidr) <==>
           CreateExact(Known(instance.value), old(ifs)[k].ranges, destination.cidr))
      ensures alone && mine != [] ==> forall k :: Knows(routes, old(ifs), k, instance.value.linode, site.vpcs) ==>
        Added(old(ifs), ifs, k, destination.cidr)
    {
      ok, refresh, mine, read := false, [], [], |events|;
      if destination.Malformed? {
        return;
      }
      if destination.IPv6? {
        ipv6Routes := ipv6Routes + [destination.text];
        ok := true;
        return;
      }
      if instance.None? {
        return;
      }
      ok, refresh, mine, read := AddRange(instance.value, destination.cidr, now, end);
    }

    /** The part of CreateRoute for an IPv4 range of an instance that was found. */
    method AddRange(instance: Instance, range: string, now: int, end: int)
      returns (ok: bool, ghost refresh: seq<Event>, ghost mine: seq<Event>, ghost read: nat)
      requires Valid()
      modifies this`ifs, this`routes, this`lastUpdate, this`states, this`events, this`calls
      ensures Valid() && old(events) + refresh <= events && old(states) <= states && EndsIn(events, mine)
      ensures |old(events)| + |refresh| <= read <= |events|
      ensures alone ==> events == old(events) + refresh + mine && (mine == [] ==> ifs == old(ifs))
      ensures refresh == if old(IsExpired(now))
                         then [Refresh(Answered(site.names, faults, old(calls)), now, end)] else []
      ensures calls >= old(calls)
      ensures ok <==> || range in Base(states[read], instance.linode, site)
                      || (NamesIn(states[read], instance.linode) && calls > 0 && !faults(calls - 1))
      ensures alone && Smooth(faults, old(calls), calls) ==> (ok <==> range in Known(instance) || Names(instance))
      ensures alone && refresh != [] && Smooth(faults, old(calls), calls) ==>
        forall k :: Servable(old(ifs), k) && k.linode == instance.linode ==> ok && Added(old(ifs), ifs, k, range)
      ensures mine != [] <==> ok
      ensures ok ==> IsCall(mine, instance.linode, read, Create(range))
      ensures alone && ok ==> forall k :: NamesOnly(routes, old(ifs), k, instance.linode, site.vpcs) ==>
        (Added(old(ifs), ifs, k, range) <==> CreateExact(Known(instance), old(ifs)[k].ranges, range))
      ensures alone && ok ==> forall k :: Knows(routes, old(ifs), k, instance.linode, site.vpcs) ==>
        Added(old(ifs), ifs, k, range)
    {
      ok, mine := false, [];
      var linode := instance.linode;
      refresh := Look(now, end);
      var here := |states| - 1;
      read := here;
      ghost var looked := calls;
      ghost var seen := states[here];
      assert seen.cache == routes;
      KnowsNames(routes, old(ifs), linode, site.vpcs);
      if linode !in routes {
        return;
      }
      var g := GatherForCreate(Cached(routes, linode), site.vpcs, range);
      if g.AlreadyThere? {
        ok, mine := true, [Found(linode, read, range)];
        Record(mine[0]);
        CreateEffect(routes, ifs, ifs, linode, site.vpcs, None, range);
        return;
      }
      if g.found.None? {
        return;
      }
      ElementsSnoc(g.ranges, range);
      assert IsInterface(seen.cache, linode, site.vpcs, Key(linode, g.found.value.id));
      ok, mine := Commit(instance, g.found.value, g.ranges + [range], here, Create(range));
      SmoothJoin(faults, old(calls), looked, calls);
      if alone && ok {
        CreateEffect(routes, old(ifs), ifs, linode, site.vpcs, Some(mine[0].k), range);
      }
    }

    /** DeleteRoute */
    method DeleteRoute(range: string, instance: Option<Instance>, now: int, end: int)
      returns (ok: bool, ghost refresh: seq<Event>, ghost mine: seq<Event>, ghost read: nat)
      requires Valid()
      modifies this`ifs, this`routes, this`lastUpdate, this`states, this`events, this`calls
      ensures Valid() && old(events) + refresh <= events && old(states) <= states && EndsIn(events, mine)
      ensures |old(events)| + |refresh| <= read <= |events|
      ensures alone ==> events == old(events) + refresh + mine && (mine == [] ==> ifs == old(ifs))
      ensures instance.None? ==> !ok
      ensures refresh == if instance.Some? && old(IsExpired(now))
                         then [Refresh(Answered(site.names, faults, old(calls)), now, end)] else []
      ensures calls >= old(calls)
      ensures instance.Some? ==>
        (ok <==> NamesIn(states[read], instance.value.linode) && calls > 0 && !faults(calls - 1))
      ensures alone && instance.Some? && Smooth(faults, old(calls), calls) ==> (ok <==> Names(instance.value))
      ensures alone && refresh != [] && Smooth(faults, old(calls), calls) ==>
        forall k :: Servable(old(ifs), k) && k.linode == instance.value.linode ==>
        ok && Removed(old(ifs), ifs, k, range)
      ensures mine != [] <==> ok
      ensures ok ==> mine[0].Write? && IsCall(mine, instance.value.linode, read, Delete(range))
      ensures alone && ok ==> forall k :: NamesOnly(routes, old(ifs), k, instance.value.linode, site.vpcs) ==>
        (Removed(old(ifs), ifs, k, range) <==> DeleteExact(Known(instance.value), old(ifs)[k].ranges, range))
      ensures alone && ok ==> forall k :: Knows(routes, old(ifs), k, instance.value.linode, site.vpcs) ==>
        Removed(old(ifs), ifs, k, range)
    {
      ok, refresh, mine, read := false, [], [], |events|;
      if instance.None? {
        return;
      }
      var linode := instance.value.linode;
      refresh := Look(now, end);
      var here := |states| - 1;
      read := here;
      ghost var looked := calls;
      ghost var seen := states[here];
      assert seen.cache == routes;
      KnowsNames(routes, old(ifs), linode, site.vpcs);
      if linode !in routes {
        return;
      }
      var ranges, found := GatherForDelete(Cached(routes, linode), site.vpcs, range);
      if found.None? {
        return;
      }
      assert IsInterface(seen.cache, linode, site.vpcs, Key(linode, found.value.id));
      ok, mine := Commit(instance.value, found.value, ranges, here, Delete(range));
      SmoothJoin(faults, old(calls), looked, calls);
      if alone && ok {
        DeleteEffect(routes, old(ifs), ifs, linode, site.vpcs, mine[0].k, range);
      }
    }

    /** The cache of this state names an interface of the instance. */
    ghost predicate NamesIn(s: State, linode: int) {
      exists k :: IsInterface(s.cache, linode, site.vpcs, k)
    }

    /** The cache names an interface of the instance. */
    ghost predicate Names(instance: Instance)
      reads this
    {
      exists k :: IsInterface(routes, instance.linode, site.vpcs, k)
    }

    /** The interface is its instance's only one, on a VPC that is named and whose records count. */
    ghost predicate Servable(ifs: Interfaces, k: Key) {
      OnlyInterface(ifs, k, site.vpcs) && Some(ifs[k].vpc) in site.names
    }

    /** After a refresh without a failing call the cache knows each such interface. */
    lemma RefreshKnows(before: Interfaces, call: nat, k: Key)
      requires Lists(routes, before, Answered(site.names, faults, call)) && Servable(before, k)
      requires Smooth(faults, call, call + NamesBelow(site.names, |site.names|))
      ensures Knows(routes, before, k, k.linode, site.vpcs)
    {
      AllAnswered(site.names, faults, call, before[k].vpc);
      ListedInterface(routes, before, Answered(site.names, faults, call), k, site.vpcs);
    }

    /** The ranges the cache has for an instance. */
    ghost function Known(instance: Instance): set<string>
      reads this
    {
      Ranges(Cached(routes, instance.linode), site.vpcs)
    }

    /**
     * Requests are served one after the other, while others go on.  Whatever they are, every interface that is the only
     * one of its instance is explained by its last writer in every state.
     */
    method ServeAll(requests: seq<Request>) returns (oks: seq<bool>)
      requires Valid()
      modifies this
      ensures Valid() && old(events) <= events && old(states) <= states && |oks| == |requests|
      ensures forall k, i :: Alone(site, states, k) && 0 <= i <= |events| ==> Explained(site, states, events, k, i)
    {
      oks := [];
      for n := 0 to |requests|
        invariant Valid() && old(events) <= events && old(states) <= states && |oks| == n
      {
        var ok;
        ghost var refresh, mine, read;
        match requests[n] {
          case Add(instance, destination, now, end) =>
            ok, refresh, mine, read := CreateRoute(destination, instance, now, end);
          case Remove(instance, range, now, end) =>
            ok, refresh, mine, read := DeleteRoute(range, instance, now, end);
        }
        oks := oks + [ok];
        Interfere();
      }
      forall k, i | Alone(site, states, k) && 0 <= i <= |events|
        ensures Explained(site, states, events, k, i)
      {
        RunLeaves(site, states, events, k, i);
      }
    }
  }

  datatype Request =
    | Add(instance: Option<Instance>, destination: Destination, now: int, end: int)
    | Remove(instance: Option<Instance>, range: string, now: int, end: int)

  ghost predicate EndsIn(events: seq<Event>, mine: seq<Event>) {
    |mine| <= |events| && events[|events| - |mine|..] == mine
  }

  /** The interface of the record is there, in the config of the record if it is addressed through that. */
  predicate Reachable(ifs: Interfaces, instance: Instance, found: Record) {
    var k := Key(instance.linode, found.id);
    k in ifs && (instance.generation.LegacyConfig? ==> ifs[k].config == found.config)
  }

  /** The one step of a successful call for an instance. */
  predicate IsCall(mine: seq<Event>, linode: int, read: nat, call: Call) {
    && |mine| == 1 && !mine[0].Refresh? && mine[0].read == read && CallOf(mine[0]) == call
    && linode == if mine[0].Write? then mine[0].k.linode else mine[0].linode
  }

  lemma AnsweredMore(names: seq<Option<int>>, faults: Faults, call: nat, n: nat)
    requires n < |names|
    ensures Answered(names[..n + 1], faults, call) == Answered(names[..n], faults, call) +
              if AnsweredAt(names, faults, call, n) then {names[n].value} else {}
  {
    var before, after := names[..n], names[..n + 1];
    forall m | 0 <= m < n
      ensures AnsweredAt(after, faults, call, m) <==> AnsweredAt(before, faults, call, m)
    {
      NamesPrefix(names, n + 1, m);
      NamesPrefix(names, n, m);
    }
    NamesPrefix(names, n + 1, n);
    assert AnsweredAt(after, faults, call, n) <==> AnsweredAt(names, faults, call, n);
    forall v | v in Answered(after, faults, call)
      ensures v in Answered(before, faults, call) || (AnsweredAt(names, faults, call, n) && v == names[n].value)
    {
      var m :| 0 <= m < |after| && AnsweredAt(after, faults, call, m) && after[m].value == v;
      if m < n {
        assert before[m].value == v;
      }
    }
    forall v | v in Answered(before, faults, call)
      ensures v in Answered(after, faults, call)
    {
      var m :| 0 <= m < |before| && AnsweredAt(before, faults, call, m) && before[m].value == v;
      assert after[m].value == v;
    }
    if AnsweredAt(names, faults, call, n) {
      assert after[n].value in Answered(after, faults, call);
    }
  }

  lemma {:induction false} NamesPrefix(names: seq<Option<int>>, m: nat, n: nat)
    requires n <= m <= |names|
    ensures NamesBelow(names[..m], n) == NamesBelow(names, n)
  {
    if n > 0 {
      NamesPrefix(names, m, n - 1);
    }
  }

  lemma {:induction false} NamesMonotone(names: seq<Option<int>>, n: nat, m: nat)
    requires n < m <= |names| && names[n].Some?
    ensures NamesBelow(names, n) < NamesBelow(names, m)
    decreases m
  {
    if n < m - 1 {
      NamesMonotone(names, n, m - 1);
    }
  }

  lemma AllAnswered(names: seq<Option<int>>, faults: Faults, call: nat, v: int)
    requires Some(v) in names && Smooth(faults, call, call + NamesBelow(names, |names|))
    ensures v in Answered(names, faults, call)
  {
    var n :| 0 <= n < |names| && names[n] == Some(v);
    SmoothMeans(faults, call, call + NamesBelow(names, |names|));
    NamesMonotone(names, n, |names|);
    assert AnsweredAt(names, faults, call, n) && names[n].value == v;
  }

  /** A cache that is right about the one interface of an instance names it. */
  lemma KnowsNames(cache: Cache, ifs: Interfaces, linode: int, vpcs: seq<int>)
    ensures forall k :: Knows(cache, ifs, k, linode, vpcs) ==> IsInterface(cache, linode, vpcs, k)
  {
    forall k | Knows(cache, ifs, k, linode, vpcs)
      ensures IsInterface(cache, linode, vpcs, k)
    {
      assert IsRecordOf(AddressRecord(k, ifs[k]), k, ifs[k]);
    }
  }

  lemma CacheWellFormed(site: Site, states: seq<State>, events: seq<Event>)
    requires IsRun(site, states, events)
    ensures forall l :: WellFormed(Cached(states[|events|].cache, l))
  {
    CacheIs(site, states, events, |events|);
  }
}
