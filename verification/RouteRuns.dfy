/**
 * Runs of the route controller (cloud/linode/route_controller.go).  A call looks into the cache, which it refreshes
 * first when it has expired, and later overwrites an interface; in between other calls may do the same, for this
 * instance or another.  A write does not touch the cache, so a call builds on the ranges of the last refresh before
 * it looked.  The lemmas say what any run leaves on an interface and which of its calls had exactly their effect.
 */
module RouteRuns {
  import opened Wrappers
  import opened Routes

  datatype Call = Create(range: string) | Delete(range: string)

  /** What a call is meant to do. */
  function Apply(ranges: set<string>, call: Call): set<string> {
    match call
    case Create(r) => ranges + {r}
    case Delete(r) => ranges - {r}
  }

  /** The VPC names of a refresh, resolved, the VPCs whose records count, and the lifetime of the cache. */
  datatype Site = Site(names: seq<Option<int>>, vpcs: seq<int>, ttl: int)

  datatype State = State(ifs: Interfaces, cache: Cache, updated: Option<int>)

  /**
   * A refresh that could list these VPCs; a write of a call that looked into the cache in state number `read`; and
   * the success of a create that found its range there.
   */
  datatype Event =
    | Refresh(listed: set<int>, now: int, end: int)
    | Write(k: Key, read: nat, call: Call)
    | Found(linode: int, read: nat, range: string)

  predicate Expired(updated: Option<int>, ttl: int, now: int) {
    updated.None? || now - updated.value >= ttl
  }

  /** The ranges the cache has for an instance. */
  function Base(s: State, linode: int, site: Site): set<string> {
    Ranges(Cached(s.cache, linode), site.vpcs)
  }

  /** What a call found in the cache makes it write to this interface; a create writes only a range it did not find. */
  predicate CanWrite(site: Site, seen: State, s: State, k: Key, call: Call) {
    && IsInterface(seen.cache, k.linode, site.vpcs, k) && k in s.ifs
    && (call.Create? ==> call.range !in Base(seen, k.linode, site))
  }

  ghost predicate Follows(site: Site, states: seq<State>, i: nat, e: Event, t: State)
    requires i < |states|
  {
    var s := states[i];
    match e
    case Refresh(listed, now, end) =>
      && Expired(s.updated, site.ttl, now) && (forall v :: v in listed ==> Some(v) in site.names)
      && Lists(t.cache, s.ifs, listed) && t.ifs == s.ifs && t.updated == Some(end)
    case Write(k, read, call) =>
      && read <= i && CanWrite(site, states[read], s, k, call)
      && t == s.(ifs := SetRanges(s.ifs, k, Apply(Base(states[read], k.linode, site), call)))
    case Found(linode, read, range) =>
      read <= i && range in Base(states[read], linode, site) && t == s
  }

  /** A run starts with an empty cache. */
  ghost predicate IsRun(site: Site, states: seq<State>, events: seq<Event>) {
    && |states| == |events| + 1 && states[0].cache == map[] && states[0].updated.None?
    && forall i :: 0 <= i < |events| ==> Follows(site, states, i, events[i], states[i + 1])
  }

  lemma RunGrows(site: Site, states: seq<State>, events: seq<Event>, e: Event, t: State)
    requires IsRun(site, states, events) && Follows(site, states, |events|, e, t)
    ensures IsRun(site, states + [t], events + [e])
  {
    var more, events' := states + [t], events + [e];
    forall i | 0 <= i < |events'|
      ensures Follows(site, more, i, events'[i], more[i + 1])
    {
      assert i < |events| ==> Follows(site, states, i, events[i], states[i + 1]);
    }
  }

  /** How many of the first `n` VPC names are not blank. */
  function NamesBelow(names: seq<Option<int>>, n: nat): (k: nat)
    requires n <= |names|
    ensures k <= n
  {
    if n == 0 then 0 else NamesBelow(names, n - 1) + if names[n - 1].None? then 0 else 1
  }

  /** The VPCs that answer when every name is asked for in turn, by calls that start at number `call`. */
  ghost function Answered(names: seq<Option<int>>, faults: Faults, call: nat): set<int> {
    set n | 0 <= n < |names| && AnsweredAt(names, faults, call, n) :: names[n].value
  }

  ghost predicate AnsweredAt(names: seq<Option<int>>, faults: Faults, call: nat, n: nat)
    requires n < |names|
  {
    names[n].Some? && !faults(call + NamesBelow(names, n))
  }

  // -- the cache and the interfaces along a run -------------------------------------------

  function LastRefresh(events: seq<Event>, i: nat): (f: Option<nat>)
    requires i <= |events|
    ensures f.Some? ==> f.value < i && events[f.value].Refresh?
    ensures forall j :: (if f.Some? then f.value + 1 else 0) <= j < i ==> !events[j].Refresh?
  {
    if i == 0 then None else if events[i - 1].Refresh? then Some(i - 1) else LastRefresh(events, i - 1)
  }

  predicate WritesTo(e: Event, k: Key) {
    e.Write? && e.k == k
  }

  function LastWrite(events: seq<Event>, k: Key, i: nat): (p: Option<nat>)
    requires i <= |events|
    ensures p.Some? ==> p.value < i && WritesTo(events[p.value], k)
    ensures forall j :: (if p.Some? then p.value + 1 else 0) <= j < i ==> !WritesTo(events[j], k)
  {
    if i == 0 then None else if WritesTo(events[i - 1], k) then Some(i - 1) else LastWrite(events, k, i - 1)
  }

  /** The cache is what the last refresh saw. */
  lemma {:induction false} CacheIs(site: Site, states: seq<State>, events: seq<Event>, i: nat)
    requires IsRun(site, states, events) && i <= |events|
    ensures match LastRefresh(events, i)
            case None => states[i].cache == map[]
            case Some(f) => Lists(states[i].cache, states[f].ifs, events[f].listed)
  {
    if i > 0 {
      CacheIs(site, states, events, i - 1);
      assert Follows(site, states, i - 1, events[i - 1], states[i]);
    }
  }

  /** The same interfaces, but for their ranges. */
  ghost predicate SameShape(a: Interfaces, b: Interfaces) {
    a.Keys == b.Keys && forall k :: k in a ==> b[k] == a[k].(ranges := b[k].ranges)
  }

  lemma {:induction false} ShapeStays(site: Site, states: seq<State>, events: seq<Event>, i: nat)
    requires IsRun(site, states, events) && i <= |events|
    ensures SameShape(states[0].ifs, states[i].ifs)
  {
    if i > 0 {
      ShapeStays(site, states, events, i - 1);
      assert Follows(site, states, i - 1, events[i - 1], states[i]);
    }
  }

  /** A record seen in the cache at any time names an interface that is there, with its config. */
  lemma RecordStands(site: Site, states: seq<State>, events: seq<Event>, read: nat, i: nat, linode: int, r: Record)
    requires IsRun(site, states, events) && read <= |events| && i <= |events|
    requires r in Cached(states[read].cache, linode)
    ensures r.linode == linode && Key(linode, r.id) in states[i].ifs
    ensures states[i].ifs[Key(linode, r.id)].config == r.config
  {
    CacheIs(site, states, events, read);
    var f := LastRefresh(events, read).value;
    ShapeStays(site, states, events, f);
    ShapeStays(site, states, events, i);
  }

  /** The interface is its instance's only one on the managed VPCs, from the start of the run. */
  ghost predicate Alone(site: Site, states: seq<State>, k: Key) {
    states != [] && OnlyInterface(states[0].ifs, k, site.vpcs)
  }

  lemma AloneStays(site: Site, states: seq<State>, events: seq<Event>, k: Key, i: nat)
    requires IsRun(site, states, events) && i <= |events| && Alone(site, states, k)
    ensures OnlyInterface(states[i].ifs, k, site.vpcs)
  {
    ShapeStays(site, states, events, i);
  }

  /** The ranges of an interface in one state of a run. */
  function RangesAt(states: seq<State>, k: Key, i: nat): set<string>
    requires i < |states|
  {
    if k in states[i].ifs then states[i].ifs[k].ranges else {}
  }

  /** What a call finds in the cache for an instance with one interface: the ranges at the last refresh. */
  lemma CallSees(site: Site, states: seq<State>, events: seq<Event>, k: Key, read: nat)
    requires IsRun(site, states, events) && read <= |events| && Alone(site, states, k)
    ensures match LastRefresh(events, read)
            case None => NothingKnown(site, states[read], k)
            case Some(f) =>
              if states[0].ifs[k].vpc in events[f].listed
              then Base(states[read], k.linode, site) == RangesAt(states, k, f)
              else NothingKnown(site, states[read], k)
  {
    CacheIs(site, states, events, read);
    match LastRefresh(events, read)
    case None =>
    case Some(f) =>
      AloneStays(site, states, events, k, f);
      ShapeStays(site, states, events, f);
      ListedInterface(states[read].cache, states[f].ifs, events[f].listed, k, site.vpcs);
      if states[0].ifs[k].vpc in events[f].listed {
        KnownInterface(states[read].cache, states[f].ifs, k, k.linode, site.vpcs);
      }
  }

  /** The cache has no record of the instance on the managed VPCs. */
  ghost predicate NothingKnown(site: Site, s: State, k: Key) {
    Base(s, k.linode, site) == {} && forall l :: !IsInterface(s.cache, k.linode, site.vpcs, l)
  }

  /** The refresh a successful call built on. */
  ghost predicate BuiltOn(site: Site, states: seq<State>, events: seq<Event>, k: Key, read: nat, f: nat)
    requires read <= |events| && |states| == |events| + 1
  {
    && LastRefresh(events, read) == Some(f)
    && Base(states[read], k.linode, site) == RangesAt(states, k, f)
  }

  /** The call has succeeded for this interface: it has written, or found its range in the cache. */
  predicate SucceedsFor(e: Event, k: Key) {
    WritesTo(e, k) || (e.Found? && e.linode == k.linode)
  }

  function CallOf(e: Event): Call
    requires !e.Refresh?
  {
    if e.Write? then e.call else Create(e.range)
  }

  lemma SuccessBuiltOn(site: Site, states: seq<State>, events: seq<Event>, k: Key, p: nat) returns (f: nat)
    requires IsRun(site, states, events) && p < |events| && Alone(site, states, k) && SucceedsFor(events[p], k)
    ensures events[p].read <= p && BuiltOn(site, states, events, k, events[p].read, f)
  {
    assert Follows(site, states, p, events[p], states[p + 1]);
    CallSees(site, states, events, k, events[p].read);
    f := LastRefresh(events, events[p].read).value;
  }

  /** A write puts on the interface what the call built on, changed by the call. */
  lemma AfterSuccess(site: Site, states: seq<State>, events: seq<Event>, k: Key, p: nat, f: nat)
    requires IsRun(site, states, events) && p < |events| && Alone(site, states, k) && SucceedsFor(events[p], k)
    requires LastRefresh(events, events[p].read) == Some(f)
    ensures var call, start := CallOf(events[p]), RangesAt(states, k, f);
            && (events[p].Found? <==> call.Create? && call.range in start)
            && RangesAt(states, k, p + 1) == if events[p].Found? then RangesAt(states, k, p) else Apply(start, call)
  {
    var g := SuccessBuiltOn(site, states, events, k, p);
    assert Follows(site, states, p, events[p], states[p + 1]);
  }

  // -- what a run leaves ------------------------------------------------------------------

  /** An interface that is not written to keeps its ranges. */
  lemma {:induction false} Untouched(site: Site, states: seq<State>, events: seq<Event>, k: Key, i: nat, j: nat)
    requires IsRun(site, states, events) && i <= j <= |events|
    requires forall p :: i <= p < j ==> !WritesTo(events[p], k)
    ensures RangesAt(states, k, j) == RangesAt(states, k, i)
    decreases j
  {
    if i < j {
      Untouched(site, states, events, k, i, j - 1);
      assert Follows(site, states, j - 1, events[j - 1], states[j]);
    }
  }

  /**
   * The interface holds the ranges it started with, or those it had at the last refresh before its last writer looked,
   * changed by that call and by no other.
   */
  ghost predicate Explained(site: Site, states: seq<State>, events: seq<Event>, k: Key, i: nat)
    requires i <= |events| && |states| == |events| + 1
  {
    match LastWrite(events, k, i)
    case None => RangesAt(states, k, i) == RangesAt(states, k, 0)
    case Some(p) =>
      events[p].read <= p && LastRefresh(events, events[p].read).Some? &&
      var f := LastRefresh(events, events[p].read).value;
      RangesAt(states, k, i) == Apply(RangesAt(states, k, f), events[p].call)
  }

  lemma RunLeaves(site: Site, states: seq<State>, events: seq<Event>, k: Key, i: nat)
    requires IsRun(site, states, events) && i <= |events| && Alone(site, states, k)
    ensures Explained(site, states, events, k, i)
    ensures SameShape(states[0].ifs, states[i].ifs)
  {
    ShapeStays(site, states, events, i);
    match LastWrite(events, k, i)
    case None => Untouched(site, states, events, k, 0, i);
    case Some(p) =>
      var f := SuccessBuiltOn(site, states, events, k, p);
      AfterSuccess(site, states, events, k, p, f);
      Untouched(site, states, events, k, p + 1, i);
  }

  // -- which calls are exact --------------------------------------------------------------

  /** The ranges at the last refresh of the cache, and the last call that has written since. */
  datatype Epoch = Epoch(start: set<string>, last: Option<Call>)

  function Now(e: Epoch): set<string> {
    match e.last
    case None => e.start
    case Some(call) => Apply(e.start, call)
  }

  /** The last write of the epoch, if it changed the ranges at all. */
  function LastChange(e: Epoch): Option<Call> {
    match e.last
    case None => None
    case Some(call) => if (call.range in e.start) == call.Create? then None else Some(call)
  }

  /**
   * A delete needs the last change to concern its own range.  So does creating a route that is new to the cache, and
   * the change must be the same create; a route the cache lists must not be the one just deleted.
   */
  predicate Unspoiled(e: Epoch, call: Call) {
    match LastChange(e)
    case None => true
    case Some(change) =>
      match call
      case Delete(r) => change.range == r
      case Create(r) => if r in e.start then change != Delete(r) else change == call
  }

  lemma CallExactIff(e: Epoch, call: Call, found: bool)
    requires found <==> call.Create? && call.range in e.start
    ensures (if found then Now(e) else Apply(e.start, call)) == Apply(Now(e), call) <==> Unspoiled(e, call)
  {
    var got, want := if found then Now(e) else Apply(e.start, call), Apply(Now(e), call);
    match LastChange(e) {
      case None =>
        assert Now(e) == e.start;
      case Some(change) =>
        assert change.range in Now(e) <==> change.Create?;
        assert change.range in e.start <==> change.Delete?;
        assert forall x :: x != change.range ==> (x in Now(e) <==> x in e.start);
        assert change.range in got <==> if found then change.Create? else change.range in Apply(e.start, call);
        if change.range == call.range {
          assert forall x :: x != call.range ==> (x in got <==> x in want);
        }
    }
  }

  /**
   * A success of a run has exactly its effect if and only if the interface still has, but for the range itself, what it
   * had at the refresh the call built on; a create that found its range, if and only if the range is there.
   */
  lemma SuccessExactIff(site: Site, states: seq<State>, events: seq<Event>, k: Key, p: nat, f: nat)
    requires IsRun(site, states, events) && p < |events| && Alone(site, states, k) && SucceedsFor(events[p], k)
    requires LastRefresh(events, events[p].read) == Some(f)
    ensures var call := CallOf(events[p]);
            RangesAt(states, k, p + 1) == Apply(RangesAt(states, k, p), call) <==>
              if events[p].Found? then call.range in RangesAt(states, k, p)
              else RangesAt(states, k, f) - {call.range} == RangesAt(states, k, p) - {call.range}
  {
    AfterSuccess(site, states, events, k, p, f);
    var call, have := CallOf(events[p]), RangesAt(states, k, p);
    if events[p].Found? {
      assert call.range in have ==> have + {call.range} == have;
    } else {
      SameButOne(RangesAt(states, k, f), have, call);
    }
  }

  lemma SameButOne(a: set<string>, b: set<string>, call: Call)
    ensures Apply(a, call) == Apply(b, call) <==> a - {call.range} == b - {call.range}
  {
    assert Apply(a, call) - {call.range} == a - {call.range} && Apply(b, call) - {call.range} == b - {call.range};
    if a - {call.range} == b - {call.range} {
      assert a + {call.range} == (a - {call.range}) + {call.range};
      assert b + {call.range} == (b - {call.range}) + {call.range};
    }
  }

  /** Between refresh `f` and state `i` there is no other refresh, and no write of a call that looked before `f`. */
  ghost predicate WithinEpoch(events: seq<Event>, k: Key, f: nat, i: nat) {
    && f < i <= |events| && events[f].Refresh?
    && forall j :: f < j < i ==> !events[j].Refresh? && (WritesTo(events[j], k) ==> f < events[j].read)
  }

  function EpochAt(states: seq<State>, events: seq<Event>, k: Key, f: nat, i: nat): Epoch
    requires f < i <= |events| && |states| == |events| + 1
  {
    var p := LastWrite(events, k, i);
    Epoch(RangesAt(states, k, f), if p.Some? && p.value > f then Some(events[p.value].call) else None)
  }

  lemma SameRefresh(events: seq<Event>, f: nat, i: nat)
    requires f < i <= |events| && events[f].Refresh? && forall j :: f < j < i ==> !events[j].Refresh?
    ensures LastRefresh(events, i) == Some(f)
  {
  }

  /** Until the cache is refreshed, a run leaves the ranges of the last refresh, changed by its last write alone. */
  lemma OneEpoch(site: Site, states: seq<State>, events: seq<Event>, k: Key, f: nat, i: nat)
    requires IsRun(site, states, events) && Alone(site, states, k) && WithinEpoch(events, k, f, i)
    ensures RangesAt(states, k, i) == Now(EpochAt(states, events, k, f, i))
  {
    var p := LastWrite(events, k, i);
    if p.Some? && p.value > f {
      RunLeaves(site, states, events, k, i);
      assert Follows(site, states, p.value, events[p.value], states[p.value + 1]);
      SameRefresh(events, f, events[p.value].read);
    } else {
      Untouched(site, states, events, k, f, i);
    }
  }

  /** In a run, a success has exactly its effect if and only if the last change of its epoch allows it. */
  lemma CallInRunExactIff(site: Site, states: seq<State>, events: seq<Event>, k: Key, f: nat, i: nat)
    requires IsRun(site, states, events) && Alone(site, states, k) && WithinEpoch(events, k, f, i) && i < |events|
    requires SucceedsFor(events[i], k) && f < events[i].read
    ensures var call := CallOf(events[i]);
            RangesAt(states, k, i + 1) == Apply(RangesAt(states, k, i), call) <==>
              Unspoiled(EpochAt(states, events, k, f, i), call)
  {
    assert Follows(site, states, i, events[i], states[i + 1]);
    SameRefresh(events, f, events[i].read);
    OneEpoch(site, states, events, k, f, i);
    AfterSuccess(site, states, events, k, i, f);
    CallExactIff(EpochAt(states, events, k, f, i), CallOf(events[i]), events[i].Found?);
  }

  // -- short runs -------------------------------------------------------------------------

  /** The cache has no record of the interface, or is right about it. */
  ghost predicate NotStale(site: Site, states: seq<State>, events: seq<Event>, k: Key, i: nat)
    requires i <= |events| && |states| == |events| + 1
  {
    NothingKnown(site, states[i], k) || Base(states[i], k.linode, site) == RangesAt(states, k, i)
  }

  /** The two writes are the only ones to the interface from state `s` on. */
  ghost predicate OnlyWrites(events: seq<Event>, k: Key, s: nat, i: nat, j: nat) {
    s <= i < j < |events| && forall p :: s <= p < j && p != i ==> !WritesTo(events[p], k)
  }

  /**
   * A new route is created and deleted again: the interface is as it was, whatever is refreshed in between and whatever
   * is done to other instances.
   */
  lemma CreateThenDelete(site: Site, states: seq<State>, events: seq<Event>, k: Key, range: string, s: nat, i: nat,
                         j: nat)
    requires IsRun(site, states, events) && Alone(site, states, k) && OnlyWrites(events, k, s, i, j)
    requires events[i].Write? && events[i].k == k && events[i].call == Create(range) && s <= events[i].read
    requires events[j].Write? && events[j].k == k && events[j].call == Delete(range) && i < events[j].read
    requires NotStale(site, states, events, k, s) && range !in RangesAt(states, k, s)
    ensures RangesAt(states, k, j + 1) == RangesAt(states, k, s)
  {
    var was := RangesAt(states, k, s);
    LooksRight(site, states, events, k, s, i, i);
    assert RangesAt(states, k, i + 1) == was + {range} by {
      assert Follows(site, states, i, events[i], states[i + 1]);
    }
    LooksRight(site, states, events, k, s, i, j);
    assert Follows(site, states, j, events[j], states[j + 1]);
    assert was + {range} - {range} == was - {range} == was;
  }

  /** What a call sees that begins after `s` is the state of the interface at `s`, or after its one write since. */
  lemma LooksRight(site: Site, states: seq<State>, events: seq<Event>, k: Key, s: nat, i: nat, p: nat)
    requires IsRun(site, states, events) && Alone(site, states, k) && s <= i <= p < |events|
    requires forall q :: s <= q < p && q != i ==> !WritesTo(events[q], k)
    requires WritesTo(events[p], k) && s <= events[p].read && NotStale(site, states, events, k, s)
    ensures var base := Base(states[events[p].read], k.linode, site);
            base == RangesAt(states, k, s) || (i < p && base == RangesAt(states, k, i + 1))
  {
    var f := SuccessBuiltOn(site, states, events, k, p);
    assert Follows(site, states, p, events[p], states[p + 1]);
    if f < s {
      SameCache(site, states, events, s, events[p].read, f);
    } else if f <= i {
      Untouched(site, states, events, k, s, f);
    } else {
      Untouched(site, states, events, k, i + 1, f);
    }
  }

  /** Without a refresh the cache stays. */
  lemma {:induction false} SameCache(site: Site, states: seq<State>, events: seq<Event>, s: nat, r: nat, f: nat)
    requires IsRun(site, states, events) && s <= r <= |events| && f < s && LastRefresh(events, r) == Some(f)
    ensures states[r].cache == states[s].cache
    decreases r
  {
    if s < r {
      assert Follows(site, states, r - 1, events[r - 1], states[r]);
      SameCache(site, states, events, s, r - 1, f);
    }
  }

  /** Two routes are created by calls that look at the same refresh: the second drops the first. */
  lemma CreateTwiceWithinTTL(site: Site, states: seq<State>, events: seq<Event>, k: Key, i: nat, j: nat)
    requires IsRun(site, states, events) && Alone(site, states, k) && i < j < |events|
    requires WritesTo(events[i], k) && events[i].call.Create? && WritesTo(events[j], k) && events[j].call.Create?
    requires events[i].read <= i && events[j].read <= j && events[i].call.range != events[j].call.range
    requires LastRefresh(events, events[i].read) == LastRefresh(events, events[j].read)
    ensures events[i].call.range in RangesAt(states, k, i + 1) && events[i].call.range !in RangesAt(states, k, j + 1)
  {
    var f := SuccessBuiltOn(site, states, events, k, i);
    AfterSuccess(site, states, events, k, i, f);
    AfterSuccess(site, states, events, k, j, f);
  }

  /** A route is deleted, and then a create finds it in a cache that has not been refreshed: it succeeds in vain. */
  lemma DeleteThenCreateWithinTTL(site: Site, states: seq<State>, events: seq<Event>, k: Key, i: nat, j: nat)
    requires IsRun(site, states, events) && Alone(site, states, k) && i < j < |events|
    requires WritesTo(events[i], k) && events[i].call.Delete?
    requires events[j].Found? && events[j].linode == k.linode && events[j].range == events[i].call.range
    requires forall p :: i < p < j ==> !WritesTo(events[p], k)
    ensures events[j].range !in RangesAt(states, k, j + 1)
  {
    var f := SuccessBuiltOn(site, states, events, k, i);
    AfterSuccess(site, states, events, k, i, f);
    Untouched(site, states, events, k, i + 1, j + 1);
  }

  /** A run from the start in which two creates succeed and one route is left. */
  lemma LosingRun(k: Key, vpc: int, x: string, y: string) returns (site: Site, states: seq<State>, events: seq<Event>)
    requires x != y
    ensures IsRun(site, states, events) && Alone(site, states, k) && |events| == 3
    ensures events[1] == Write(k, 1, Create(x)) && events[2] == Write(k, 2, Create(y))
    ensures RangesAt(states, k, 3) == {y}
  {
    var i := Interface(vpc, 0, "10.0.0.2", {});
    var ifs, cache := map[k := i], map[k.linode := [AddressRecord(k, i)]];
    site := Site([Some(vpc)], [vpc], 60);
    var s0, s1 := State(ifs, map[], None), State(ifs, cache, Some(0));
    var s2, s3 := s1.(ifs := SetRanges(ifs, k, {x})), s1.(ifs := SetRanges(ifs, k, {y}));
    states, events := [s0, s1, s2, s3], [Refresh({vpc}, 0, 0), Write(k, 1, Create(x)), Write(k, 2, Create(y))];
    assert Lists(cache, ifs, {vpc});
    assert AddressRecord(k, i) in Cached(cache, k.linode) && IsInterface(cache, k.linode, [vpc], k);
    assert Base(s1, k.linode, site) == Base(s2, k.linode, site) == {};
    assert SetRanges(s2.ifs, k, {y}) == s3.ifs && Apply({}, Create(x)) == {x} && Apply({}, Create(y)) == {y};
    assert Follows(site, states, 0, events[0], states[1]);
    assert Follows(site, states, 1, events[1], states[2]);
    assert Follows(site, states, 2, events[2], states[3]);
  }
}
