/**
 * The cache of the route controller (cloud/linode/route_controller.go): routes are the IPv4 ranges on the VPC
 * interface of an instance.  The cache holds the records of the VPCs that could be listed; creating or deleting a
 * route gathers what it says about an instance and overwrites the ranges of an interface with that, plus or minus one.
 */
module Routes {
  import opened Wrappers

  datatype Key = Key(linode: int, id: int)

  /** A VPC interface of an instance, and the instance config it belongs to. */
  datatype Interface = Interface(vpc: int, config: int, address: string, ranges: set<string>)

  type Interfaces = map<Key, Interface>

  /** linodego.VPCIP */
  datatype Record = Record(linode: int, id: int, vpc: int, config: int, address: Option<string>, range: Option<string>)

  function AddressRecord(k: Key, i: Interface): Record {
    Record(k.linode, k.id, i.vpc, i.config, Some(i.address), None)
  }

  function RangeRecord(k: Key, i: Interface, range: string): Record {
    Record(k.linode, k.id, i.vpc, i.config, None, Some(range))
  }

  /** The record is about this interface: its address, or one of its ranges. */
  ghost predicate IsRecordOf(r: Record, k: Key, i: Interface) {
    || r == AddressRecord(k, i)
    || (r.range.Some? && r.range.value in i.ranges && r == RangeRecord(k, i, r.range.value))
  }

  ghost predicate Describes(r: Record, ifs: Interfaces) {
    Key(r.linode, r.id) in ifs && IsRecordOf(r, Key(r.linode, r.id), ifs[Key(r.linode, r.id)])
  }

  /** What listing one VPC returns: a record for each address and each range of its interfaces, in some order. */
  ghost predicate ListingOf(records: seq<Record>, ifs: Interfaces, vpc: int) {
    forall r :: r in records <==> r.vpc == vpc && Describes(r, ifs)
  }

  // -- what the cache says about one instance -------------------------------------------

  /** The ranges of an instance on the managed VPCs. */
  function Ranges(records: seq<Record>, vpcs: seq<int>): set<string> {
    set r | r in records && r.vpc in vpcs && r.address.None? && r.range.Some? :: r.range.value
  }

  /** A record has an address or a range. */
  ghost predicate WellFormed(records: seq<Record>) {
    forall r :: r in records ==> r.address.Some? || r.range.Some?
  }

  /** An address record on a managed VPC, if there is any. */
  ghost predicate FoundInterface(found: Option<Record>, records: seq<Record>, vpcs: seq<int>) {
    match found
    case Some(r) => r in records && r.vpc in vpcs && r.address.Some?
    case None => forall r :: r in records && r.vpc in vpcs ==> r.address.None?
  }

  /** Whether the loops of CreateRoute return early, and otherwise what they gather. */
  datatype Gathered = AlreadyThere | Gathered(ranges: seq<string>, found: Option<Record>)

  function Elements(s: seq<string>): set<string> {
    set x | x in s
  }

  /** The nested loops of CreateRoute. */
  method GatherForCreate(records: seq<Record>, vpcs: seq<int>, destination: string) returns (g: Gathered)
    requires WellFormed(records)
    ensures g.AlreadyThere? <==> destination in Ranges(records, vpcs)
    ensures g.Gathered? ==> Elements(g.ranges) == Ranges(records, vpcs) && FoundInterface(g.found, records, vpcs)
  {
    var ranges: seq<string>, found: Option<Record> := [], None;
    for v := 0 to |vpcs|
      invariant Elements(ranges) == Ranges(records, vpcs[..v]) && destination !in ranges
      invariant FoundInterface(found, records, vpcs[..v])
    {
      for i := 0 to |records|
        invariant Elements(ranges) == Ranges(records, vpcs[..v]) + Ranges(records[..i], [vpcs[v]])
        invariant destination !in ranges
        invariant FoundNext(found, records, vpcs, v, i)
      {
        var r := records[i];
        RangesNext(records, i, vpcs[v]);
        FoundStep(found, records, vpcs, v, i);
        if r.vpc == vpcs[v] {
          if r.address.Some? {
            found := Some(r);
          } else if r.range.Some? && r.range.value == destination {
            assert destination in Ranges(records, vpcs);
            return AlreadyThere;
          } else {
            ElementsSnoc(ranges, r.range.value);
            ranges := ranges + [r.range.value];
          }
        }
      }
      RangesUnion(records, vpcs, v);
    }
    assert vpcs[..|vpcs|] == vpcs;
    return Gathered(ranges, found);
  }

  /** The state of the search after the first v VPCs and the first i records of the next one. */
  ghost predicate FoundNext(found: Option<Record>, records: seq<Record>, vpcs: seq<int>, v: nat, i: nat)
    requires v < |vpcs| && i <= |records|
  {
    match found
    case Some(r) => r in records && r.vpc in vpcs[..v + 1] && r.address.Some?
    case None =>
      && (forall r :: r in records && r.vpc in vpcs[..v] ==> r.address.None?)
      && (forall r :: r in records[..i] && r.vpc == vpcs[v] ==> r.address.None?)
  }

  lemma FoundStep(found: Option<Record>, records: seq<Record>, vpcs: seq<int>, v: nat, i: nat)
    requires v < |vpcs| && i < |records| && FoundNext(found, records, vpcs, v, i)
    ensures var here := records[i].vpc == vpcs[v] && records[i].address.Some?;
            FoundNext(if here then Some(records[i]) else found, records, vpcs, v, i + 1)
  {
  }

  lemma RangesNext(records: seq<Record>, i: nat, vpc: int)
    requires i < |records|
    ensures Ranges(records[..i + 1], [vpc]) == Ranges(records[..i], [vpc]) + RangeOf(records[i], vpc)
  {
  }

  function RangeOf(r: Record, vpc: int): set<string> {
    if r.vpc == vpc && r.address.None? && r.range.Some? then {r.range.value} else {}
  }

  lemma ElementsSnoc(s: seq<string>, x: string)
    ensures Elements(s + [x]) == Elements(s) + {x}
  {
  }

  lemma RangesUnion(records: seq<Record>, vpcs: seq<int>, v: nat)
    requires v < |vpcs|
    ensures Ranges(records, vpcs[..v + 1]) == Ranges(records, vpcs[..v]) + Ranges(records[..|records|], [vpcs[v]])
  {
  }

  /** The nested loops of DeleteRoute. */
  method GatherForDelete(records: seq<Record>, vpcs: seq<int>, destination: string)
    returns (ranges: seq<string>, found: Option<Record>)
    requires WellFormed(records)
    ensures Elements(ranges) == Ranges(records, vpcs) - {destination} && FoundInterface(found, records, vpcs)
  {
    ranges, found := [], None;
    for v := 0 to |vpcs|
      invariant Elements(ranges) == Ranges(records, vpcs[..v]) - {destination}
      invariant FoundInterface(found, records, vpcs[..v])
    {
      for i := 0 to |records|
        invariant Elements(ranges) == Ranges(records, vpcs[..v]) + Ranges(records[..i], [vpcs[v]]) - {destination}
        invariant FoundNext(found, records, vpcs, v, i)
      {
        var r := records[i];
        RangesNext(records, i, vpcs[v]);
        FoundStep(found, records, vpcs, v, i);
        if r.vpc == vpcs[v] {
          if r.address.Some? {
            found := Some(r);
          } else if r.range.Some? && r.range.value != destination {
            ElementsSnoc(ranges, r.range.value);
            ranges := ranges + [r.range.value];
          }
        }
      }
      RangesUnion(records, vpcs, v);
    }
    assert vpcs[..|vpcs|] == vpcs;
  }

  // -- the cache against the interfaces ---------------------------------------------------

  /** The instance has one interface on the managed VPCs, this one. */
  ghost predicate OnlyInterface(ifs: Interfaces, k: Key, vpcs: seq<int>) {
    && k in ifs && ifs[k].vpc in vpcs
    && forall l :: l in ifs && l.linode == k.linode && ifs[l].vpc in vpcs ==> l == k
  }

  function SetRanges(ifs: Interfaces, k: Key, ranges: set<string>): Interfaces
    requires k in ifs
  {
    ifs[k := ifs[k].(ranges := ranges)]
  }

  type Cache = map<int, seq<Record>>

  function Cached(cache: Cache, linode: int): seq<Record> {
    if linode in cache then cache[linode] else []
  }

  /** The cache holds the records of the listed VPCs, each under its instance, and nothing else. */
  ghost predicate Lists(cache: Cache, ifs: Interfaces, listed: set<int>) {
    forall l, r :: r in Cached(cache, l) <==> r.linode == l && r.vpc in listed && Describes(r, ifs)
  }

  /** The inner loop of refreshRoutes. */
  method File(cache: Cache, records: seq<Record>) returns (more: Cache)
    ensures forall l, r :: r in Cached(more, l) <==> r in Cached(cache, l) || (r in records && r.linode == l)
  {
    more := cache;
    for i := 0 to |records|
      invariant forall l, r :: r in Cached(more, l) <==> r in Cached(cache, l) || (r in records[..i] && r.linode == l)
    {
      assert records[..i + 1] == records[..i] + [records[i]];
      var l := records[i].linode;
      more := more[l := Cached(more, l) + [records[i]]];
    }
    assert records[..|records|] == records;
  }

  lemma ListsMore(cache: Cache, more: Cache, ifs: Interfaces, listed: set<int>, vpc: int, records: seq<Record>)
    requires Lists(cache, ifs, listed) && ListingOf(records, ifs, vpc)
    requires forall l, r :: r in Cached(more, l) <==> r in Cached(cache, l) || (r in records && r.linode == l)
    ensures Lists(more, ifs, listed + {vpc})
  {
  }

  /** One interface has been given these ranges, and nothing else has changed. */
  ghost predicate Overwritten(s: Interfaces, t: Interfaces, k: Key, ranges: set<string>) {
    k in s && t == SetRanges(s, k, ranges)
  }

  /** The cache has an address for this interface of the instance on one of the VPCs. */
  predicate IsInterface(cache: Cache, linode: int, vpcs: seq<int>, k: Key) {
    k.linode == linode && exists r :: r in Cached(cache, linode) && r.vpc in vpcs && r.address.Some? && r.id == k.id
  }

  /** What the cache says of the instance on these VPCs is that it has this interface. */
  ghost predicate Shows(cache: Cache, k: Key, i: Interface, vpcs: seq<int>) {
    forall r :: r in Cached(cache, k.linode) && r.vpc in vpcs <==> IsRecordOf(r, k, i)
  }

  /** The interface is the instance's only one on the VPCs, and the cache is right about it. */
  ghost predicate Knows(cache: Cache, ifs: Interfaces, k: Key, linode: int, vpcs: seq<int>) {
    k.linode == linode && OnlyInterface(ifs, k, vpcs) && Shows(cache, k, ifs[k], vpcs)
  }

  /** After a refresh the cache is right about an instance with one interface, or has no record of it. */
  lemma ListedInterface(cache: Cache, ifs: Interfaces, listed: set<int>, k: Key, vpcs: seq<int>)
    requires Lists(cache, ifs, listed) && OnlyInterface(ifs, k, vpcs)
    ensures ifs[k].vpc in listed ==> Knows(cache, ifs, k, k.linode, vpcs)
    ensures ifs[k].vpc !in listed ==> forall r :: r in Cached(cache, k.linode) ==> r.vpc !in vpcs
  {
  }

  /** The cache names this interface for the instance, if any; what it says of the ranges may be out of date. */
  ghost predicate NamesOnly(cache: Cache, ifs: Interfaces, k: Key, linode: int, vpcs: seq<int>) {
    k.linode == linode && k in ifs && forall l :: IsInterface(cache, linode, vpcs, l) ==> l == k
  }

  /** The write has added this range to this interface and changed nothing else. */
  ghost predicate Added(s: Interfaces, t: Interfaces, k: Key, range: string) {
    k in s && t == SetRanges(s, k, s[k].ranges + {range})
  }

  ghost predicate Removed(s: Interfaces, t: Interfaces, k: Key, range: string) {
    k in s && t == SetRanges(s, k, s[k].ranges - {range})
  }

  /**
   * When creating a route has exactly its effect, in terms of the cached ranges and those the interface has.  A
   * cached range is not written, so it must be there; otherwise the cache overwrites all the others, so it must be
   * right about them.
   */
  predicate CreateExact(cached: set<string>, have: set<string>, range: string) {
    (range in cached ==> range in have) && (range !in cached ==> cached == have - {range})
  }

  predicate DeleteExact(cached: set<string>, have: set<string>, range: string) {
    cached - {range} == have - {range}
  }

  /** With a matching cache, the interface found is the only one and the cached ranges are its ranges. */
  lemma KnownInterface(cache: Cache, ifs: Interfaces, k: Key, linode: int, vpcs: seq<int>)
    requires Knows(cache, ifs, k, linode, vpcs)
    ensures NamesOnly(cache, ifs, k, linode, vpcs) && Ranges(Cached(cache, linode), vpcs) == ifs[k].ranges
  {
    forall range | range in ifs[k].ranges
      ensures range in Ranges(Cached(cache, linode), vpcs)
    {
      assert IsRecordOf(RangeRecord(k, ifs[k], range), k, ifs[k]);
    }
  }

  /** The exactness of CreateRoute, from what it wrote. */
  lemma CreateEffect(cache: Cache, s: Interfaces, t: Interfaces, linode: int, vpcs: seq<int>, written: Option<Key>,
                     range: string)
    requires written.None? ==> t == s && range in Ranges(Cached(cache, linode), vpcs)
    requires written.Some? ==>
      IsInterface(cache, linode, vpcs, written.value) && range !in Ranges(Cached(cache, linode), vpcs)
    requires written.Some? ==> Overwritten(s, t, written.value, Ranges(Cached(cache, linode), vpcs) + {range})
    ensures forall k :: NamesOnly(cache, s, k, linode, vpcs) ==>
      (Added(s, t, k, range) <==> CreateExact(Ranges(Cached(cache, linode), vpcs), s[k].ranges, range))
    ensures forall k :: Knows(cache, s, k, linode, vpcs) ==> Added(s, t, k, range)
  {
    var cached := Ranges(Cached(cache, linode), vpcs);
    forall k | NamesOnly(cache, s, k, linode, vpcs)
      ensures Added(s, t, k, range) <==> CreateExact(cached, s[k].ranges, range)
    {
      var have := s[k].ranges;
      var want := SetRanges(s, k, have + {range});
      assert want[k].ranges == have + {range};
      if range in have {
        assert have + {range} == have;
      }
      if range !in cached {
        assert (cached + {range}) - {range} == cached && (have + {range}) - {range} == have - {range};
        if cached == have - {range} {
          assert cached + {range} == have + {range};
        }
      }
    }
    forall k | Knows(cache, s, k, linode, vpcs)
      ensures Added(s, t, k, range)
    {
      KnownInterface(cache, s, k, linode, vpcs);
      if range !in cached {
        assert cached == cached - {range};
      }
    }
  }

  lemma DeleteEffect(cache: Cache, s: Interfaces, t: Interfaces, linode: int, vpcs: seq<int>, written: Key,
                     range: string)
    requires IsInterface(cache, linode, vpcs, written)
    requires Overwritten(s, t, written, Ranges(Cached(cache, linode), vpcs) - {range})
    ensures forall k :: NamesOnly(cache, s, k, linode, vpcs) ==>
      (Removed(s, t, k, range) <==> DeleteExact(Ranges(Cached(cache, linode), vpcs), s[k].ranges, range))
    ensures forall k :: Knows(cache, s, k, linode, vpcs) ==> Removed(s, t, k, range)
  {
    forall k | NamesOnly(cache, s, k, linode, vpcs)
      ensures Removed(s, t, k, range) <==> DeleteExact(Ranges(Cached(cache, linode), vpcs), s[k].ranges, range)
    {
      assert SetRanges(s, k, s[k].ranges - {range})[k].ranges == s[k].ranges - {range};
    }
    forall k | Knows(cache, s, k, linode, vpcs)
      ensures Removed(s, t, k, range)
    {
      KnownInterface(cache, s, k, linode, vpcs);
    }
  }
}
