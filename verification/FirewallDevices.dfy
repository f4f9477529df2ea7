/**
 * Attaching, switching and deleting the firewall of a NodeBalancer (the methods of LinodeClient in
 * cloud/linode/services/firewalls.go).  `Cloud` is the Linode API: every call may fail, and a call that
 * fails has no effect.  `trail` records the state after every write, so that the contracts can speak of the
 * states in between and not only of the last one.
 */
module FirewallDevices {
  import opened Wrappers
  import opened Ports
  import opened Firewall
  import opened FirewallChange
  import opened FirewallSoundness

  datatype Kind = NodeBalancerKind | OtherKind

  datatype Entity = Entity(kind: Kind, id: int)

  /** A firewall with its devices: the attached entities, each with its device ID. */
  datatype Instance = Instance(rules: Rules, devices: map<Entity, int>)

  type Fleet = map<int, Instance>

  function NB(nb: int): Entity {
    Entity(NodeBalancerKind, nb)
  }

  function DeviceOf(f: Fleet, fw: int, e: Entity): Option<int> {
    if fw in f && e in f[fw].devices then Some(f[fw].devices[e]) else None
  }

  /** The firewalls a NodeBalancer is attached to. */
  function Attached(f: Fleet, nb: int): set<int> {
    set fw | fw in f && NB(nb) in f[fw].devices
  }

  /** Some other entity is attached as well. */
  ghost predicate Shared(f: Fleet, fw: int, nb: int) {
    exists e :: e != NB(nb) && DeviceOf(f, fw, e).Some?
  }

  /** The entity of another kind that has the NodeBalancer's ID; the device lookup compares IDs alone. */
  function Namesake(nb: int): Entity {
    Entity(OtherKind, nb)
  }

  lemma TwoKinds(e: Entity)
    ensures e == NB(e.id) || e == Namesake(e.id)
  {
    match e.kind
    case NodeBalancerKind =>
    case OtherKind =>
  }

  ghost predicate NoCollision(f: Fleet, nb: int) {
    forall fw :: DeviceOf(f, fw, Namesake(nb)).None?
  }

  // -- what a write may do --------------------------------------------------------

  /** Every entity but this NodeBalancer and its namesake keeps exactly its devices; the namesake gets no new ones. */
  ghost predicate OthersKept(s: Fleet, t: Fleet, nb: int) {
    && (forall fw, e: Entity :: e.id != nb ==> DeviceOf(s, fw, e) == DeviceOf(t, fw, e))
    && (forall fw :: DeviceOf(t, fw, Namesake(nb)).Some? ==>
          DeviceOf(t, fw, Namesake(nb)) == DeviceOf(s, fw, Namesake(nb)))
  }

  /** A firewall that is deleted had nothing attached but this NodeBalancer. */
  ghost predicate DeletesAlone(s: Fleet, t: Fleet, nb: int) {
    forall fw, e :: fw in s && fw !in t && e in s[fw].devices ==> e == NB(nb)
  }

  /** Rules change only on a firewall the NodeBalancer is attached to. */
  ghost predicate RulesKept(s: Fleet, t: Fleet, nb: int) {
    forall fw :: fw in s && fw in t && s[fw].rules != t[fw].rules ==> fw in Attached(s, nb)
  }

  ghost predicate SafeWrite(s: Fleet, t: Fleet, nb: int) {
    OthersKept(s, t, nb) && DeletesAlone(s, t, nb) && RulesKept(s, t, nb)
  }

  /** The writes made after `before` are safe writes on behalf of the NodeBalancer. */
  ghost predicate SafeSince(before: seq<Fleet>, trail: seq<Fleet>, nb: int) {
    && 1 <= |before| <= |trail| && trail[..|before|] == before
    && forall i :: |before| <= i < |trail| ==> SafeWrite(trail[i - 1], trail[i], nb)
  }

  lemma SafeSinceStep(before: seq<Fleet>, trail: seq<Fleet>, f: Fleet, nb: int)
    requires SafeSince(before, trail, nb) && SafeWrite(trail[|trail| - 1], f, nb)
    ensures SafeSince(before, trail + [f], nb)
  {
  }

  /** The NodeBalancer is attached to some firewall in every state after `before`. */
  ghost predicate NeverBare(before: seq<Fleet>, trail: seq<Fleet>, nb: int) {
    forall i :: |before| <= i < |trail| ==> Attached(trail[i], nb) != {}
  }

  ghost predicate SameRules(s: Fleet, t: Fleet) {
    s.Keys == t.Keys && forall fw :: fw in s ==> s[fw].rules == t[fw].rules
  }

  /** One firewall is attached, and the change test finds nothing to do on it. */
  ghost predicate Settled(f: Fleet, nb: int, acl: Acl, ports: ServicePorts) {
    exists fw :: fw in f && Attached(f, nb) == {fw} && !RuleChanged(f[fw].rules, acl, ports)
  }

  /** One firewall is attached, and its rules are the compiled ACL. */
  ghost predicate Enforced(f: Fleet, nb: int, acl: Acl, ports: ServicePorts) {
    exists fw :: EnforcedOn(f, fw, nb, acl, ports)
  }

  ghost predicate EnforcedOn(f: Fleet, fw: int, nb: int, acl: Acl, ports: ServicePorts) {
    fw in f && Attached(f, nb) == {fw} && Compile(acl, ports).Ok? && f[fw].rules == Compile(acl, ports).value
  }

  lemma EnforcedIsSettled(f: Fleet, nb: int, acl: Acl, ports: ServicePorts)
    requires Printable(ports)
    ensures Enforced(f, nb, acl, ports) ==> Settled(f, nb, acl, ports)
  {
    if Compile(acl, ports).Ok? {
      ReconcileIsFixpoint(acl, ports);
    }
  }

  /** Rules as a compiler run leaves them: one action, one port text, and the opposite policy. */
  ghost predicate UniformRules(rules: Rules) {
    exists action, text :: Uniform(rules.inbound, action, text) && rules.inboundPolicy == Opposite(action)
  }

  lemma CompiledIsUniform(acl: Acl, ports: ServicePorts)
    requires Compile(acl, ports).Ok?
    ensures UniformRules(Compile(acl, ports).value)
  {
    CompiledRulesCover(AclAction(acl), PrintPorts(ports), AclList(acl), "");
    assert Uniform(Compile(acl, ports).value.inbound, AclAction(acl), PrintPorts(ports));
  }

  /** The list names no address twice, the ports can be read back, and what is attached was left by a compiler run. */
  ghost predicate Sound(f: Fleet, nb: int, acl: Acl, ports: ServicePorts) {
    && ExactlyOneList(acl) && DuplicateFree(acl) && Printable(ports)
    && forall fw :: fw in Attached(f, nb) ==> UniformRules(f[fw].rules)
  }

  /** One firewall is attached, and it decides every packet as the access list says. */
  ghost predicate Decides(f: Fleet, nb: int, acl: Acl, ports: ServicePorts) {
    exists fw :: DecidesOn(f, fw, nb, acl, ports)
  }

  ghost predicate DecidesOn(f: Fleet, fw: int, nb: int, acl: Acl, ports: ServicePorts) {
    && fw in f && Attached(f, nb) == {fw} && ExactlyOneList(acl)
    && forall covers: Coverage, p :: Enforces(covers, f[fw].rules, acl, ports, p)
  }

  lemma {:induction false} SettledDecides(s: Fleet, t: Fleet, nb: int, acl: Acl, ports: ServicePorts)
    requires Sound(s, nb, acl, ports) && Settled(t, nb, acl, ports) && (t == s || Enforced(t, nb, acl, ports))
    ensures Decides(t, nb, acl, ports)
  {
    var fw :| fw in t && Attached(t, nb) == {fw} && !RuleChanged(t[fw].rules, acl, ports);
    assert fw in Attached(t, nb);
    if Enforced(t, nb, acl, ports) {
      var e :| EnforcedOn(t, e, nb, acl, ports);
      assert e in Attached(t, nb);
      CompiledIsUniform(acl, ports);
    }
    assert UniformRules(t[fw].rules);
    var action, text :| Uniform(t[fw].rules.inbound, action, text) && t[fw].rules.inboundPolicy == Opposite(action);
    forall covers: Coverage, p
      ensures Enforces(covers, t[fw].rules, acl, ports, p)
    {
      UnchangedIsSound(covers, t[fw].rules, action, text, acl, ports, p);
    }
    assert DecidesOn(t, fw, nb, acl, ports);
  }

  lemma AclDone(s: Fleet, t: Fleet, nb: int, acl: Acl, ports: ServicePorts)
    requires Enforced(t, nb, acl, ports) || (t == s && Settled(t, nb, acl, ports))
    ensures Printable(ports) ==> Settled(t, nb, acl, ports)
    ensures Sound(s, nb, acl, ports) ==> Decides(t, nb, acl, ports)
  {
    if Printable(ports) {
      EnforcedIsSettled(t, nb, acl, ports);
    }
    if Sound(s, nb, acl, ports) {
      SettledDecides(s, t, nb, acl, ports);
    }
  }

  /** Of the firewalls that were there, exactly those the NodeBalancer alone was attached to are gone. */
  ghost predicate CleanedUp(s: Fleet, t: Fleet, nb: int) {
    forall fw :: fw in s ==> (fw in t <==> fw !in Attached(s, nb) || Shared(s, fw, nb))
  }

  /** What a successful update leaves behind; `quiet` says that nothing was written. */
  ghost predicate Reconciled(s: Fleet, t: Fleet, id: Option<Option<int>>, acl: Option<Option<Acl>>,
                             ports: ServicePorts, nb: int, quiet: bool)
  {
    match (id, acl)
    case (Some(i), _) => i.Some? && Attached(t, nb) == if i.value == 0 then {} else {i.value}
    case (None, Some(a)) =>
      && a.Some?
      && (Printable(ports) ==> Settled(t, nb, a.value, ports))
      && (quiet || Enforced(t, nb, a.value, ports))
    case (None, None) => Attached(t, nb) == {} && CleanedUp(s, t, nb)
  }

  /** Once the NodeBalancer is detached, the devices left are those of other entities. */
  lemma RemainingAreOthers(f: Fleet, g: Fleet, fw: int, nb: int)
    requires fw in g && OthersKept(f, g, nb) && fw !in Attached(g, nb) && NoCollision(f, nb)
    ensures Shared(f, fw, nb) <==> Shared(g, fw, nb)
    ensures Shared(g, fw, nb) <==> |g[fw].devices| != 0
  {
    var left := g[fw].devices;
    assert forall e :: e in left ==> e != NB(nb) && DeviceOf(g, fw, e).Some?;
    forall e: Entity | e != NB(nb)
      ensures DeviceOf(f, fw, e) == DeviceOf(g, fw, e)
    {
      TwoKinds(e);
    }
    if Shared(g, fw, nb) {
      var e :| e != NB(nb) && DeviceOf(g, fw, e).Some?;
      assert e in left.Keys;
    } else {
      assert left.Keys == {};
    }
  }

  /** A firewall the NodeBalancer is attached to is shared exactly when it has a second device. */
  lemma SharedMeansTwo(f: Fleet, fw: int, nb: int)
    requires fw in Attached(f, nb)
    ensures Shared(f, fw, nb) <==> |f[fw].devices| > 1
  {
    var keys := f[fw].devices.Keys;
    if Shared(f, fw, nb) {
      var e :| e != NB(nb) && DeviceOf(f, fw, e).Some?;
      assert keys == {e, NB(nb)} + (keys - {e, NB(nb)});
    } else {
      assert forall e :: e in keys ==> DeviceOf(f, fw, e).Some? && e == NB(nb);
      assert keys == {NB(nb)};
    }
  }

  // -- what can be asked for --------------------------------------------------------

  /** The annotation names a firewall that exists, or what is attached already. */
  ghost predicate IdFeasible(f: Fleet, id: Option<int>, nb: int) {
    && id.Some? && |Attached(f, nb)| <= 1
    && (id.value in f || Attached(f, nb) == if id.value == 0 then {} else {id.value})
  }

  /** The access list compiles, or what is attached is not found to differ from it. */
  ghost predicate AclFeasible(f: Fleet, acl: Option<Acl>, ports: ServicePorts, nb: int) {
    && acl.Some? && |Attached(f, nb)| <= 1 && (Attached(f, nb) == {} ==> Compile(acl.value, ports).Ok?)
    && forall fw :: fw in Attached(f, nb) && RuleChanged(f[fw].rules, acl.value, ports) ==>
         Compile(acl.value, ports).Ok?
  }

  ghost predicate Feasible(f: Fleet, id: Option<Option<int>>, acl: Option<Option<Acl>>, ports: ServicePorts, nb: int) {
    match (id, acl)
    case (Some(i), _) => IdFeasible(f, i, nb)
    case (None, Some(a)) => AclFeasible(f, a, ports, nb)
    case (None, None) => |Attached(f, nb)| <= 1
  }

  // -- the writes -----------------------------------------------------------------

  function Attach(f: Fleet, fw: int, device: int, nb: int): Fleet
    requires fw in f
  {
    f[fw := f[fw].(devices := f[fw].devices[NB(nb) := device])]
  }

  function Detach(f: Fleet, fw: int, device: int): Fleet
    requires fw in f
  {
    f[fw := f[fw].(devices := map e | e in f[fw].devices && f[fw].devices[e] != device :: f[fw].devices[e])]
  }

  /** Deleting the device that was found detaches the NodeBalancer exactly if it was not its namesake's. */
  lemma DetachEffect(f: Fleet, fw: int, e: Entity, nb: int)
    requires fw in f && e in f[fw].devices && e.id == nb && DistinctDevices(f[fw].devices)
    ensures var g := Detach(f, fw, f[fw].devices[e]);
            && SafeWrite(f, g, nb) && SameRules(f, g)
            && Attached(g, nb) == (if e == NB(nb) then Attached(f, nb) - {fw} else Attached(f, nb))
            && (DeviceOf(f, fw, Namesake(nb)) == DeviceOf(g, fw, Namesake(nb)) <==> e == NB(nb))
            && (NB(nb) in g[fw].devices <==> e != NB(nb) && NB(nb) in f[fw].devices)
  {
    var g := Detach(f, fw, f[fw].devices[e]);
    TwoKinds(e);
    assert forall d :: d in f[fw].devices && d != e ==> d in g[fw].devices && g[fw].devices[d] == f[fw].devices[d];
    assert forall w :: w in f <==> w in g;
  }

  lemma DeleteEffect(f: Fleet, fw: int, nb: int)
    requires !Shared(f, fw, nb)
    ensures SafeWrite(f, f - {fw}, nb) && Attached(f - {fw}, nb) == Attached(f, nb) - {fw}
  {
    assert forall e :: fw in f && e in f[fw].devices ==> DeviceOf(f, fw, e).Some? && e == NB(nb);
  }

  lemma RulesEffect(f: Fleet, fw: int, rules: Rules, nb: int)
    requires fw in f && fw in Attached(f, nb)
    ensures var g := f[fw := f[fw].(rules := rules)]; SafeWrite(f, g, nb) && Attached(g, nb) == Attached(f, nb)
  {
  }

  /** None as an Option<Failure> is success. */
  datatype Failure = ApiError | TooManyFirewalls | DeviceMissing | BadAnnotation | NotCompiled(reason: Error)

  ghost predicate DistinctDevices(devices: map<Entity, int>) {
    forall d, e :: d in devices && e in devices && devices[d] == devices[e] ==> d == e
  }

  /** What every way of switching to another firewall keeps, from the state and trail before to those after. */
  ghost predicate Switched(s: Fleet, t: Fleet, before: seq<Fleet>, trail: seq<Fleet>, id: int, nb: int) {
    && SameRules(s, t) && SafeSince(before, trail, nb)
    && (Attached(s, nb) != {} ==> NeverBare(before, trail, nb))
    && (Attached(t, nb) == Attached(s, nb) || Attached(t, nb) == Attached(s, nb) + {id} || Attached(t, nb) == {id})
  }

  lemma SwitchAttached(f: Fleet, t: seq<Fleet>, id: int, device: int, nb: int)
    requires id in f && t != [] && t[|t| - 1] == f
    ensures var g := Attach(f, id, device, nb);
            Switched(f, g, t, t + [g], id, nb) && Attached(g, nb) == Attached(f, nb) + {id}
  {
  }

  lemma SwitchDetached(f: Fleet, g: Fleet, t: seq<Fleet>, existing: int, e: Entity, id: int, nb: int)
    requires Switched(f, g, t, t + [g], id, nb)
    requires existing != id && Attached(f, nb) == {existing} && Attached(g, nb) == {existing, id}
    requires existing in g && e in g[existing].devices && e.id == nb && DistinctDevices(g[existing].devices)
    ensures var h := Detach(g, existing, g[existing].devices[e]);
            Switched(f, h, t, t + [g] + [h], id, nb) && (e == NB(nb) ==> Attached(h, nb) == {id})
  {
    DetachEffect(g, existing, e, nb);
    SafeSinceStep(t, t + [g], Detach(g, existing, g[existing].devices[e]), nb);
  }

  lemma CreateAndAttach(f: Fleet, g: Fleet, t: seq<Fleet>, fw: int, rules: Rules, device: int, nb: int)
    requires fw !in f && g == f[fw := Instance(rules, map[])] && t != [] && t[|t| - 1] == f
    ensures SafeSince(t, t + [g], nb)
    ensures var h := Attach(g, fw, device, nb);
            SafeSince(t, t + [g] + [h], nb) && Attached(h, nb) == Attached(f, nb) + {fw} && h[fw].rules == rules
  {
  }

  // -- whose device is found ------------------------------------------------------

  ghost predicate IsListing(entities: seq<Entity>, devices: map<Entity, int>) {
    forall e :: e in entities <==> e in devices
  }

  function FirstWithId(entities: seq<Entity>, nb: int): Option<Entity> {
    if entities == [] then None
    else if entities[0].id == nb then Some(entities[0]) else FirstWithId(entities[1..], nb)
  }

  lemma {:induction false} FirstHasId(entities: seq<Entity>, nb: int)
    ensures var e := FirstWithId(entities, nb);
            && (e.Some? ==> e.value in entities && e.value.id == nb)
            && (e.None? ==> forall d :: d in entities ==> d.id != nb)
  {
    if entities != [] && entities[0].id != nb {
      FirstHasId(entities[1..], nb);
      assert entities == [entities[0]] + entities[1..];
    }
  }

  lemma {:induction false} ListingExists(entities: set<Entity>) returns (list: seq<Entity>)
    ensures forall e :: e in list <==> e in entities
    decreases entities
  {
    if entities == {} {
      list := [];
    } else {
      var e :| e in entities;
      list := ListingExists(entities - {e});
      list := [e] + list;
    }
  }

  /**
   * The lookup finds the NodeBalancer's own device, in whatever order the devices are listed, if and only if its
   * namesake is not attached to the same firewall.
   */
  lemma OwnDeviceIff(devices: map<Entity, int>, nb: int)
    requires NB(nb) in devices
    ensures (forall list :: IsListing(list, devices) ==> FirstWithId(list, nb) == Some(NB(nb))) <==>
              Namesake(nb) !in devices
  {
    if Namesake(nb) in devices {
      var rest := ListingExists(devices.Keys);
      var list := [Namesake(nb)] + rest;
      assert IsListing(list, devices) && FirstWithId(list, nb) == Some(Namesake(nb));
    } else {
      forall list | IsListing(list, devices)
        ensures FirstWithId(list, nb) == Some(NB(nb))
      {
        FirstHasId(list, nb);
        TwoKinds(FirstWithId(list, nb).value);
      }
    }
  }

  datatype Removal = Removed | NoDevice | NotRemoved(reason: Failure)

  class Cloud {
    var fleet: Fleet
    var next: int
    var calls: nat        // the calls made so far
    const faults: Faults
    ghost var trail: seq<Fleet>

    /**
     * IDs are positive and below `next`, device IDs of a firewall are distinct, and the trail ends at the present
     * state.
     */
    ghost predicate Valid()
      reads this
    {
      && next >= 1
      && GoodIds(fleet, next)
      && trail != [] && trail[|trail| - 1] == fleet
    }

    constructor (faults: Faults)
      ensures Valid() && fleet == map[] && this.faults == faults
    {
      fleet, next, trail, calls, this.faults := map[], 1, [map[]], 0, faults;
    }

    method NextCallFails() returns (fails: bool)
      modifies this`calls
      ensures calls == old(calls) + 1 && fails == faults(old(calls))
    {
      fails := faults(calls);
      calls := calls + 1;
    }

    // -- the API ----------------------------------------------------------------

    method ListNodeBalancerFirewalls(nb: int) returns (ids: Option<seq<int>>)
      modifies this`calls
      ensures calls == old(calls) + 1 && (ids.None? <==> faults(old(calls)))
      ensures ids.Some? ==> |ids.value| == |Attached(fleet, nb)|
      ensures ids.Some? && |ids.value| == 1 ==> Attached(fleet, nb) == {ids.value[0]}
    {
      var fails := NextCallFails();
      if fails {
        return None;
      }
      var list := Listing(Attached(fleet, nb));
      return Some(list);
    }

    /** The entities in the order of the listing, with the device ID of each. */
    method ListFirewallDevices(fw: int) returns (ok: bool, entities: seq<Entity>, ids: map<Entity, int>)
      modifies this`calls
      ensures calls == old(calls) + 1 && (ok <==> !faults(old(calls)) && fw in fleet)
      ensures ok ==> ids == fleet[fw].devices && |entities| == |ids|
      ensures ok ==> forall e :: e in entities <==> e in ids
    {
      entities, ids := [], map[];
      var fails := NextCallFails();
      ok := !fails;
      if ok && fw in fleet {
        ids := fleet[fw].devices;
        entities := Listing(ids.Keys);
      } else {
        ok := false;
      }
    }

    method Put(f: Fleet)
      modifies this`fleet, this`trail
      ensures fleet == f && trail == old(trail) + [f]
    {
      fleet, trail := f, trail + [f];
    }

    method CreateFirewallDevice(fw: int, nb: int) returns (ok: bool)
      requires Valid()
      modifies this
      ensures Valid() && calls == old(calls) + 1 && (ok <==> !faults(old(calls)) && fw in old(fleet))
      ensures !ok ==> fleet == old(fleet) && trail == old(trail)
      ensures ok ==> fleet == Attach(old(fleet), fw, old(next), nb) && trail == old(trail) + [fleet]
    {
      var fails := NextCallFails();
      if fails || fw !in fleet {
        return false;
      }
      Put(Attach(fleet, fw, next, nb));
      next := next + 1;
      return true;
    }

    method DeleteFirewallDevice(fw: int, device: int) returns (ok: bool)
      requires Valid()
      modifies this
      ensures Valid() && calls == old(calls) + 1 && (ok <==> !faults(old(calls)) && fw in old(fleet))
      ensures !ok ==> fleet == old(fleet) && trail == old(trail)
      ensures ok ==> fleet == Detach(old(fleet), fw, device) && trail == old(trail) + [fleet]
    {
      var fails := NextCallFails();
      if fails || fw !in fleet {
        return false;
      }
      Put(Detach(fleet, fw, device));
      return true;
    }

    method ApiDeleteFirewall(fw: int) returns (ok: bool)
      requires Valid()
      modifies this
      ensures Valid() && calls == old(calls) + 1 && (ok <==> !faults(old(calls)) && fw in old(fleet))
      ensures !ok ==> fleet == old(fleet) && trail == old(trail)
      ensures ok ==> fleet == old(fleet) - {fw} && trail == old(trail) + [fleet]
    {
      var fails := NextCallFails();
      if fails || fw !in fleet {
        return false;
      }
      Put(fleet - {fw});
      return true;
    }

    method CreateFirewall(rules: Rules) returns (id: Option<int>)
      requires Valid()
      modifies this
      ensures Valid() && calls == old(calls) + 1 && (id.None? <==> faults(old(calls)))
      ensures id.None? ==> fleet == old(fleet) && trail == old(trail)
      ensures id.Some? ==> id.value !in old(fleet) && fleet == old(fleet)[id.value := Instance(rules, map[])]
      ensures id.Some? ==> trail == old(trail) + [fleet]
    {
      var fails := NextCallFails();
      if fails {
        return None;
      }
      id := Some(next);
      Put(fleet[next := Instance(rules, map[])]);
      next := next + 1;
    }

    method UpdateFirewallRules(fw: int, rules: Rules) returns (ok: bool)
      requires Valid()
      modifies this
      ensures Valid() && calls == old(calls) + 1 && (ok <==> !faults(old(calls)) && fw in old(fleet))
      ensures !ok ==> fleet == old(fleet) && trail == old(trail)
      ensures ok ==> fleet == old(fleet)[fw := old(fleet)[fw].(rules := rules)]
      ensures ok ==> trail == old(trail) + [fleet]
    {
      var fails := NextCallFails();
      if fails || fw !in fleet {
        return false;
      }
      Put(fleet[fw := fleet[fw].(rules := rules)]);
      return true;
    }

    /** The error for a NodeBalancer with several firewalls, unless already listing them failed. */
    ghost predicate Refused(err: Option<Failure>, call: nat) {
      err == Some(if faults(call) then ApiError else TooManyFirewalls)
    }

    // -- firewalls.go -----------------------------------------------------------

    /** getNodeBalancerDeviceID: the device of the first entity listed with the NodeBalancer's ID, of whatever kind. */
    method GetNodeBalancerDeviceID(fw: int, nb: int)
      returns (r: Result<Option<int>, Failure>, ghost listing: seq<Entity>)
      modifies this`calls
      ensures calls == old(calls) + 1 && (r.Ok? <==> !faults(old(calls)) && fw in fleet)
      ensures r.Ok? ==> IsListing(listing, fleet[fw].devices)
      ensures r.Ok? ==> r.value == var e := FirstWithId(listing, nb);
                                   if e.Some? then DeviceOf(fleet, fw, e.value) else None
    {
      var ok, entities, ids := ListFirewallDevices(fw);
      listing := entities;
      if !ok {
        return Err(ApiError), listing;
      }
      for i := 0 to |entities|
        invariant FirstWithId(entities, nb) == FirstWithId(entities[i..], nb)
      {
        assert entities[i..][1..] == entities[i + 1..];
        if entities[i].id == nb {
          var e := entities[i];
          assert e in entities && e in ids;
          return Ok(Some(ids[e])), listing;
        }
      }
      return Ok(None), listing;
    }

    /**
     * Looks up the device of a NodeBalancer and deletes it.  It is the device of `found`, the first entity listed with
     * the NodeBalancer's ID, and so the NodeBalancer's own unless its namesake is attached too.
     */
    method RemoveDevice(fw: int, nb: int) returns (r: Removal, ghost found: Entity)
      requires Valid()
      modifies this
      ensures Valid() && calls > old(calls)
      ensures r.NotRemoved? <==> !Smooth(faults, old(calls), calls) || fw !in old(fleet)
      ensures !r.Removed? ==> trail == old(trail) && fleet == old(fleet)
      ensures r.Removed? ==> fw in old(fleet) && found in old(fleet)[fw].devices && found.id == nb
      ensures r.Removed? ==> DistinctDevices(old(fleet)[fw].devices)
      ensures r.Removed? ==>
        fleet == Detach(old(fleet), fw, old(fleet)[fw].devices[found]) && trail == old(trail) + [fleet]
      ensures r.Removed? && DeviceOf(old(fleet), fw, Namesake(nb)).None? ==> found == NB(nb)
      ensures r.NoDevice? ==> fw !in Attached(fleet, nb)
    {
      found := NB(nb);
      var device;
      ghost var listing;
      device, listing := GetNodeBalancerDeviceID(fw, nb);
      if device.Err? {
        return NotRemoved(device.error), found;
      }
      FirstHasId(listing, nb);
      if device.value.None? {
        return NoDevice, found;
      }
      found := FirstWithId(listing, nb).value;
      TwoKinds(found);
      var ok := DeleteFirewallDevice(fw, device.value.value);
      SmoothJoin(faults, old(calls), old(calls) + 1, calls);
      return if ok then Removed else NotRemoved(ApiError), found;
    }

    /** The part of updateServiceFirewall that attaches the new firewall and then removes the old one, if any. */
    method SwitchFirewall(existing: int, id: int, nb: int) returns (err: Option<Failure>)
      requires Valid() && existing != id
      requires Attached(fleet, nb) == if existing == 0 then {} else {existing}
      modifies this
      ensures Valid() && Switched(old(fleet), fleet, old(trail), trail, id, nb)
      ensures calls > old(calls) && (err.None? <==> Smooth(faults, old(calls), calls) && id in old(fleet))
      ensures err.None? ==> id in Attached(fleet, nb)
      ensures err.None? && DeviceOf(old(fleet), existing, Namesake(nb)).None? ==> Attached(fleet, nb) == {id}
    {
      ghost var f, t, device := fleet, trail, next;
      var ok := CreateFirewallDevice(id, nb);
      if !ok {
        return Some(ApiError);
      }
      SwitchAttached(f, t, id, device, nb);
      ghost var g := fleet;
      if existing == 0 {
        return None;
      }
      var removed;
      ghost var found;
      removed, found := RemoveDevice(existing, nb);
      SmoothJoin(faults, old(calls), old(calls) + 1, calls);
      match removed {
        case NotRemoved(reason) => err := Some(reason);
        case NoDevice => err := Some(DeviceMissing);
        case Removed =>
          SwitchDetached(f, g, t, existing, found, id, nb);
          err := None;
      }
    }

    /** updateServiceFirewall; `id` is the parsed firewall-id annotation, None when it does not parse. */
    method UpdateServiceFirewall(id: Option<int>, nb: int) returns (err: Option<Failure>)
      requires Valid()
      modifies this
      ensures Valid() && Switched(old(fleet), fleet, old(trail), trail, if id.Some? then id.value else 0, nb)
      ensures |Attached(old(fleet), nb)| >= 2 || id.None? ==> err.Some? && trail == old(trail)
      ensures calls > old(calls)
      ensures |Attached(old(fleet), nb)| >= 2 ==> Refused(err, old(calls))
      ensures err.None? <==> Smooth(faults, old(calls), calls) && IdFeasible(old(fleet), id, nb)
      ensures err.None? && id.value != 0 ==> id.value in Attached(fleet, nb)
      ensures err.None? && NoCollision(old(fleet), nb) ==>
        Attached(fleet, nb) == if id.value == 0 then {} else {id.value}
      ensures id.Some? && Attached(old(fleet), nb) == {id.value} ==> trail == old(trail)
    {
      var firewalls := ListNodeBalancerFirewalls(nb);
      if firewalls.None? {
        return Some(ApiError);
      }
      if |firewalls.value| > 1 {
        return Some(TooManyFirewalls);
      }
      var existing := 0;
      if |firewalls.value| == 1 {
        existing := firewalls.value[0];
        assert existing in Attached(fleet, nb);
      }
      if id.None? {
        return Some(BadAnnotation);
      }
      if existing != id.value {
        err := SwitchFirewall(existing, id.value, nb);
        SmoothJoin(faults, old(calls), old(calls) + 1, calls);
        return;
      }
      return None;
    }

    /** Creates a firewall and attaches it. */
    method AttachNewFirewall(rules: Rules, nb: int) returns (fw: Option<int>)
      requires Valid() && Attached(fleet, nb) == {}
      modifies this
      ensures Valid() && SafeSince(old(trail), trail, nb)
      ensures calls > old(calls) && (fw.Some? <==> Smooth(faults, old(calls), calls))
      ensures fw.Some? ==> fw.value in fleet && Attached(fleet, nb) == {fw.value} && fleet[fw.value].rules == rules
    {
      ghost var f, t := fleet, trail;
      fw := CreateFirewall(rules);
      if fw.None? {
        return;
      }
      ghost var g, device := fleet, next;
      var ok := CreateFirewallDevice(fw.value, nb);
      CreateAndAttach(f, g, t, fw.value, rules, device, nb);
      SmoothJoin(faults, old(calls), old(calls) + 1, calls);
      return if ok then fw else None;
    }

    /** The case of updateNodeBalancerFirewallWithACL with no firewall attached. */
    method CreateForAcl(acl: Acl, ports: ServicePorts, nb: int) returns (err: Option<Failure>)
      requires Valid() && Attached(fleet, nb) == {}
      modifies this
      ensures Valid() && SafeSince(old(trail), trail, nb)
      ensures !ExactlyOneList(acl) ==> err.Some? && trail == old(trail)
      ensures calls >= old(calls)
      ensures err.None? <==> Smooth(faults, old(calls), calls) && Compile(acl, ports).Ok?
      ensures err.None? ==> Enforced(fleet, nb, acl, ports)
    {
      var rules := CreateFirewallOptsForSvc(acl, ports);
      if rules.Err? {
        return Some(NotCompiled(rules.error));
      }
      var fw := AttachNewFirewall(rules.value, nb);
      if fw.None? {
        return Some(ApiError);
      }
      assert EnforcedOn(fleet, fw.value, nb, acl, ports);
      return None;
    }

    /** The case of updateNodeBalancerFirewallWithACL with one firewall attached. */
    method UpdateForAcl(fw: int, acl: Acl, ports: ServicePorts, nb: int) returns (err: Option<Failure>)
      requires Valid() && fw in fleet && Attached(fleet, nb) == {fw}
      modifies this
      ensures Valid() && SafeSince(old(trail), trail, nb)
      ensures Attached(fleet, nb) == {fw} && (trail == old(trail) || trail == old(trail) + [fleet])
      ensures !ExactlyOneList(acl) || !RuleChanged(old(fleet)[fw].rules, acl, ports) ==> trail == old(trail)
      ensures calls >= old(calls)
      ensures err.None? <==>
        Smooth(faults, old(calls), calls) && (RuleChanged(old(fleet)[fw].rules, acl, ports) ==> Compile(acl, ports).Ok?)
      ensures err.None? && RuleChanged(old(fleet)[fw].rules, acl, ports) ==> Enforced(fleet, nb, acl, ports)
    {
      ghost var f, t := fleet, trail;
      var changed := IsRuleChanged(fleet[fw].rules, acl, ports);
      if !changed {
        return None;
      }
      var rules := CreateFirewallOptsForSvc(acl, ports);
      if rules.Err? {
        return Some(NotCompiled(rules.error));
      }
      var ok := UpdateFirewallRules(fw, rules.value);
      if !ok {
        return Some(ApiError);
      }
      RulesEffect(f, fw, rules.value, nb);
      SafeSinceStep(t, t, fleet, nb);
      assert EnforcedOn(fleet, fw, nb, acl, ports);
      return None;
    }

    /**
     * updateNodeBalancerFirewallWithACL; `acl` is the decoded firewall-acl annotation, None when it does not
     * decode.
     */
    method UpdateNodeBalancerFirewallWithACL(acl: Option<Acl>, ports: ServicePorts, nb: int)
      returns (err: Option<Failure>)
      requires Valid()
      modifies this
      ensures Valid() && SafeSince(old(trail), trail, nb)
      ensures |Attached(old(fleet), nb)| >= 2 ==> err.Some? && trail == old(trail)
      ensures calls > old(calls)
      ensures |Attached(old(fleet), nb)| >= 2 ==> Refused(err, old(calls))
      ensures err.None? <==> Smooth(faults, old(calls), calls) && AclFeasible(old(fleet), acl, ports, nb)
      ensures acl.None? || !ExactlyOneList(acl.value) ==> trail == old(trail)
      ensures acl.None? ==> err.Some?
      ensures Attached(old(fleet), nb) != {} ==>
        Attached(fleet, nb) == Attached(old(fleet), nb) && NeverBare(old(trail), trail, nb)
      ensures err.None? && Printable(ports) ==> Settled(fleet, nb, acl.value, ports)
      ensures acl.Some? && Settled(old(fleet), nb, acl.value, ports) ==> trail == old(trail)
      ensures err.None? ==> trail == old(trail) || Enforced(fleet, nb, acl.value, ports)
      ensures err.None? && Sound(old(fleet), nb, acl.value, ports) ==> Decides(fleet, nb, acl.value, ports)
    {
      var firewalls := ListNodeBalancerFirewalls(nb);
      if firewalls.None? {
        return Some(ApiError);
      }
      if |firewalls.value| > 1 {
        return Some(TooManyFirewalls);
      }
      if acl.None? {
        return Some(BadAnnotation);
      }
      if |firewalls.value| == 0 {
        err := CreateForAcl(acl.value, ports, nb);
      } else {
        assert firewalls.value[0] in Attached(fleet, nb);
        err := UpdateForAcl(firewalls.value[0], acl.value, ports, nb);
      }
      SmoothJoin(faults, old(calls), old(calls) + 1, calls);
      if err.None? {
        AclDone(old(fleet), fleet, nb, acl.value, ports);
      }
    }

    /** The part of UpdateNodeBalancerFirewall for a service with neither annotation. */
    method DetachAndCleanUp(nb: int) returns (err: Option<Failure>)
      requires Valid()
      modifies this
      ensures Valid() && SafeSince(old(trail), trail, nb)
      ensures |Attached(old(fleet), nb)| >= 2 ==> Refused(err, old(calls)) && trail == old(trail)
      ensures calls > old(calls)
      ensures err.None? <==> Smooth(faults, old(calls), calls) && |Attached(old(fleet), nb)| <= 1
      ensures err.None? && NoCollision(old(fleet), nb) ==> Attached(fleet, nb) == {} && CleanedUp(old(fleet), fleet, nb)
    {
      var firewalls := ListNodeBalancerFirewalls(nb);
      if firewalls.None? {
        return Some(ApiError);
      }
      if |firewalls.value| == 0 {
        return None;
      }
      if |firewalls.value| > 1 {
        return Some(TooManyFirewalls);
      }
      assert firewalls.value[0] in Attached(fleet, nb);
      err := DetachFrom(firewalls.value[0], nb);
      SmoothJoin(faults, old(calls), old(calls) + 1, calls);
    }

    /** Detaches the NodeBalancer from its one firewall, and deletes that if nothing is left on it. */
    method DetachFrom(fw: int, nb: int) returns (err: Option<Failure>)
      requires Valid() && Attached(fleet, nb) == {fw}
      modifies this
      ensures Valid() && SafeSince(old(trail), trail, nb)
      ensures calls > old(calls) && (err.None? <==> Smooth(faults, old(calls), calls))
      ensures err.None? && NoCollision(old(fleet), nb) ==> Attached(fleet, nb) == {} && CleanedUp(old(fleet), fleet, nb)
    {
      assert fw in Attached(fleet, nb);
      ghost var f, t := fleet, trail;
      var removed;
      ghost var found;
      removed, found := RemoveDevice(fw, nb);
      if removed.NotRemoved? {
        return Some(removed.reason);
      }
      DetachEffect(f, fw, found, nb);
      SafeSinceStep(t, t, fleet, nb);
      ghost var g, u, k := fleet, trail, calls;
      var ok := DeleteIfEmpty(fw);
      SmoothJoin(faults, old(calls), k, calls);
      if trail != u {
        DeleteEffect(g, fw, nb);
        SafeSinceStep(t, u, fleet, nb);
      }
      if found == NB(nb) && NoCollision(f, nb) {
        RemainingAreOthers(f, g, fw, nb);
      }
      return if ok then None else Some(ApiError);
    }

    method DeleteIfEmpty(fw: int) returns (ok: bool)
      requires Valid()
      modifies this
      ensures Valid() && calls > old(calls)
      ensures ok <==> Smooth(faults, old(calls), calls) && fw in old(fleet)
      ensures ok ==> (fw in fleet <==> |old(fleet)[fw].devices| != 0)
      ensures trail == old(trail) ==> fleet == old(fleet)
      ensures trail != old(trail) ==> fw in old(fleet) && |old(fleet)[fw].devices| == 0
      ensures trail != old(trail) ==> fleet == old(fleet) - {fw} && trail == old(trail) + [fleet]
    {
      var listed, devices, _ := ListFirewallDevices(fw);
      ok := listed;
      if ok && |devices| == 0 {
        ok := ApiDeleteFirewall(fw);
        SmoothJoin(faults, old(calls), old(calls) + 1, calls);
      }
    }

    /** UpdateNodeBalancerFirewall; an annotation is None when absent, and its value None when malformed. */
    method UpdateNodeBalancerFirewall(id: Option<Option<int>>, acl: Option<Option<Acl>>, ports: ServicePorts, nb: int)
      returns (err: Option<Failure>)
      requires Valid()
      modifies this
      ensures Valid() && SafeSince(old(trail), trail, nb)
      ensures |Attached(old(fleet), nb)| >= 2 ==> Refused(err, old(calls)) && trail == old(trail)
      ensures calls > old(calls)
      ensures err.None? <==> Smooth(faults, old(calls), calls) && Feasible(old(fleet), id, acl, ports, nb)
      ensures Attached(old(fleet), nb) != {} && (id.Some? || acl.Some?) ==> NeverBare(old(trail), trail, nb)
      ensures err.None? && (NoCollision(old(fleet), nb) || (id.None? && acl.Some?)) ==>
        Reconciled(old(fleet), fleet, id, acl, ports, nb, trail == old(trail))
      ensures err.None? && id.None? && acl.Some? && Sound(old(fleet), nb, acl.value.value, ports) ==>
        Decides(fleet, nb, acl.value.value, ports)
    {
      if id.Some? {
        err := UpdateServiceFirewall(id.value, nb);
      } else if acl.Some? {
        err := UpdateNodeBalancerFirewallWithACL(acl.value, ports, nb);
      } else {
        err := DetachAndCleanUp(nb);
      }
    }

    /** DeleteFirewall */
    method DeleteFirewall(fw: int) returns (err: Option<Failure>)
      requires Valid()
      modifies this
      ensures Valid()
      ensures fw in old(fleet) && fw !in fleet ==>
        |old(fleet)[fw].devices| <= 1 && trail == old(trail) + [old(fleet) - {fw}]
      ensures fw !in old(fleet) || fw in fleet ==> trail == old(trail)
      ensures calls > old(calls) && (err.None? <==> Smooth(faults, old(calls), calls) && fw in old(fleet))
      ensures err.None? ==> (fw in fleet <==> |old(fleet)[fw].devices| > 1)
    {
      var ok, devices, _ := ListFirewallDevices(fw);
      if !ok {
        return Some(ApiError);
      }
      if |devices| > 1 {
        return None;
      }
      ok := ApiDeleteFirewall(fw);
      SmoothJoin(faults, old(calls), old(calls) + 1, calls);
      return if ok then None else Some(ApiError);
    }

    /** DeleteNodeBalancerFirewall; `hasAcl` says whether the firewall-acl annotation is present. */
    method DeleteNodeBalancerFirewall(hasAcl: bool, nb: int) returns (err: Option<Failure>)
      requires Valid()
      modifies this
      ensures Valid() && SafeSince(old(trail), trail, nb)
      ensures |Attached(old(fleet), nb)| >= 2 || !hasAcl ==> trail == old(trail)
      ensures |Attached(old(fleet), nb)| >= 2 && hasAcl ==> Refused(err, old(calls))
      ensures calls >= old(calls)
      ensures err.None? <==> !hasAcl || (Smooth(faults, old(calls), calls) && |Attached(old(fleet), nb)| <= 1)
      ensures err.None? && hasAcl ==> CleanedUp(old(fleet), fleet, nb)
    {
      if hasAcl {
        var firewalls := ListNodeBalancerFirewalls(nb);
        if firewalls.None? {
          return Some(ApiError);
        }
        if |firewalls.value| == 1 {
          var fw := firewalls.value[0];
          assert fw in Attached(fleet, nb);
          ghost var f, t := fleet, trail;
          SharedMeansTwo(f, fw, nb);
          err := DeleteFirewall(fw);
          SmoothJoin(faults, old(calls), old(calls) + 1, calls);
          if fw !in fleet {
            DeleteEffect(f, fw, nb);
            SafeSinceStep(t, t, fleet, nb);
          }
          return;
        } else if |firewalls.value| > 1 {
          return Some(TooManyFirewalls);
        }
      }
      return None;
    }

    // -- whole runs -------------------------------------------------------------

    method Serve(request: Request) returns (err: Option<Failure>)
      requires Valid()
      modifies this
      ensures Valid() && SafeSince(old(trail), trail, request.nb)
    {
      match request {
        case Update(nb, id, acl, ports) => err := UpdateNodeBalancerFirewall(id, acl, ports, nb);
        case Delete(nb, hasAcl) => err := DeleteNodeBalancerFirewall(hasAcl, nb);
      }
    }

    /** Any run of requests: `who[i]` is the NodeBalancer the i-th write of the run was made for. */
    method ServeAll(requests: seq<Request>) returns (ghost who: seq<int>)
      requires Valid()
      modifies this
      ensures Valid() && WrittenBy(old(trail), trail, who) && forall w :: w in who ==>
        exists r :: r in requests && r.nb == w
    {
      who := [];
      for k := 0 to |requests|
        invariant Valid() && WrittenBy(old(trail), trail, who)
        invariant forall w :: w in who ==> exists r :: r in requests && r.nb == w
      {
        ghost var t, r := trail, requests[k];
        var err := Serve(requests[k]);
        who := WriteMore(old(trail), t, trail, who, r.nb);
      }
    }
  }

  ghost predicate GoodIds(f: Fleet, next: int) {
    forall fw :: fw in f ==> 1 <= fw < next && GoodDevices(f[fw].devices, next)
  }

  ghost predicate GoodDevices(devices: map<Entity, int>, next: int) {
    && (forall e :: e in devices ==> 1 <= devices[e] < next)
    && DistinctDevices(devices)
  }

  datatype Request =
    | Update(nb: int, id: Option<Option<int>>, acl: Option<Option<Acl>>, ports: ServicePorts)
    | Delete(nb: int, hasAcl: bool)

  /** Each write after `before` is a safe write on behalf of the NodeBalancer named for it. */
  ghost predicate WrittenBy(before: seq<Fleet>, trail: seq<Fleet>, who: seq<int>) {
    && 1 <= |before| && |trail| == |before| + |who| && trail[..|before|] == before
    && forall i :: 0 <= i < |who| ==> SafeWrite(trail[|before| + i - 1], trail[|before| + i], who[i])
  }

  ghost function WriteMore(before: seq<Fleet>, middle: seq<Fleet>, trail: seq<Fleet>, who: seq<int>,
                           nb: int): (longer: seq<int>)
    requires WrittenBy(before, middle, who) && SafeSince(middle, trail, nb)
    ensures WrittenBy(before, trail, longer) && forall w :: w in longer ==> w in who || w == nb
  {
    var longer := who + seq(|trail| - |middle|, _ => nb);
    assert trail[..|before|] == middle[..|before|];
    assert forall i :: 0 <= i < |middle| ==> trail[i] == middle[i];
    longer
  }

  /**
   * In every run, an attached entity stays attached, to the same firewall and as the same device, for as long as no
   * write is made on its own behalf or on behalf of a NodeBalancer with its ID; so no firewall is deleted while an
   * entity other than the one served is attached.
   */
  lemma {:induction false} BystandersStay(before: seq<Fleet>, trail: seq<Fleet>, who: seq<int>, fw: int, e: Entity,
                                          a: nat, b: nat)
    requires WrittenBy(before, trail, who) && a <= b <= |who|
    requires forall i :: a <= i < b ==> e != NB(who[i])
    requires forall i :: a <= i < b && e.id == who[i] ==> DeviceOf(trail[|before| - 1 + a], fw, e).None?
    ensures DeviceOf(trail[|before| - 1 + a], fw, e) == DeviceOf(trail[|before| - 1 + b], fw, e)
    decreases b
  {
    if a < b {
      BystandersStay(before, trail, who, fw, e, a, b - 1);
      assert SafeWrite(trail[|before| + (b - 1) - 1], trail[|before| + (b - 1)], who[b - 1]);
      TwoKinds(e);
    }
  }

  /** A firewall deleted by a write had nothing attached to it but the NodeBalancer the write was made for. */
  lemma DeletedOnlyWhenAlone(before: seq<Fleet>, trail: seq<Fleet>, who: seq<int>, i: nat, fw: int, e: Entity)
    requires WrittenBy(before, trail, who) && i < |who|
    requires fw in trail[|before| + i - 1] && fw !in trail[|before| + i]
    requires e in trail[|before| + i - 1][fw].devices
    ensures e == NB(who[i])
  {
    assert SafeWrite(trail[|before| + i - 1], trail[|before| + i], who[i]);
  }
}
