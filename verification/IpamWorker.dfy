/**
 * The code of one allocator worker: syncNode, AllocateOrOccupyCIDR and updateCIDRsAllocation
 * (cloud/nodeipam/ipam/cloud_allocator.go), run against the shared state while everyone else
 * may take steps between any two of its own.  The methods show that whatever the code does is
 * a run of the protocol, so that the theorems about runs are theorems about the code.
 */
module IpamWorker {
  import opened Wrappers
  import opened IpamProtocol
  import opened IpamOwnership
  import opened IpamSafety

  /** How a sync ends; `Stopped` is short of a step that would break BurstPremise, about which nothing is claimed. */
  datatype Outcome = Done | Failed | Stopped

  /** The answer of the API server to one patch request, and what becomes of a request that is refused. */
  datatype PatchAnswer = Accepted | Refused(effect: Effect, timeout: bool)

  class Cluster {
    const c: Config
    const disableIPv6: bool
    var st: State
    ghost var history: History

    /** The history so far is a run that meets the premises, and `st` is where it stands. */
    ghost predicate Valid()
      reads this
    {
      Legal(c, history) && st == history.end
    }

    constructor (c: Config, disableIPv6: bool, s: State)
      requires Init(c, s)
      ensures Valid() && this.c == c && this.disableIPv6 == disableIPv6 && st == s
    {
      this.c, this.disableIPv6, st := c, disableIPv6, s;
      history := Start(s);
    }

    /** One atomic step. */
    method Do(a: Action)
      requires Valid() && Enabled(c, st, a) && BurstPremise(st, a) && NamePremise(st, a)
      modifies this
      ensures Valid() && st == Next(c, old(st), a)
      ensures history == Step(old(history), a, st) && Extends(history, old(history))
    {
      st := Next(c, st, a);
      history := Step(history, a, st);
    }

    /**
     * Everyone but the worker of key `n` runs for a while, within the premises: callers learn no more than that
     * the history grew by legal steps, that this key's worker did not move and that this name's log only grew.
     */
    method Interfere(n: NodeName)
      requires Valid()
      modifies this
      ensures Valid()
      ensures Extends(history, old(history)) && NoAttempt(history, old(history), n)
      ensures Undisturbed(old(st), st, n)
    {
      var steps: int := *;
      steps := if steps < 0 then 0 else steps;
      for i := 0 to steps
        invariant Valid() && Extends(history, old(history)) && Undisturbed(old(st), st, n)
        invariant NoAttempt(history, old(history), n)
      {
        var a: Action := *;
        var legal := Enabled(c, st, a) && BurstPremise(st, a) && NamePremise(st, a);
        if legal && NotBy(n, a) {
          ghost var before, earlier := st, history;
          Do(a);
          NotByUndisturbed(c, before, n, a);
          ExtendsTransitive(history, earlier, old(history));
        }
      }
    }

    /**
     * One PatchNodeCIDRs call: it succeeds, or fails and is lost, has landed, or is still to land.  A burst that has
     * written does not write a name created anew.
     */
    method Patch(n: NodeName, answer: PatchAnswer) returns (ok: bool)
      requires Valid() && n in st.workers && st.workers[n].Patching? && st.workers[n].attempts < RETRIES
      modifies this
      ensures Valid() && history.Step? && history.prev == old(history)
      ensures ok <==> answer.Accepted? && MayLand(old(st), n)
      ensures IsAttempt(old(st), n, answer, history.last)
      ensures ok ==> n !in st.workers && Stored(st, n) == Present(Some(old(st).workers[n].block))
      ensures ok <==> history.last == PatchOk(n)
      ensures !ok ==> n in st.workers && st.workers[n].Patching? && st.workers[n].block == old(st).workers[n].block
      ensures !ok ==> st.workers[n].attempts == old(st).workers[n].attempts + 1
    {
      var can := MayLand(st, n);
      match answer {
        case Accepted =>
          if can {
            Do(PatchOk(n));
            return true;
          }
          Do(PatchErr(n, Lost, false));
        case Refused(effect, timeout) =>
          Do(PatchErr(n, if effect.Landed? && !can then Lost else effect, timeout));
      }
      return false;
    }

    /** The worker is about to release a block that somebody else has a claim on, against the premise. */
    predicate AtBreak(n: NodeName)
      reads this
    {
      n in st.workers && Enabled(c, st, GiveUp(n)) && !BurstPremise(st, GiveUp(n))
    }

    /**
     * syncNode: a key the lister does not know needs nothing, and neither does a node that is being deleted, as
     * `terminating` says of the object in the lister.
     */
    method SyncNode(n: NodeName, terminating: bool, ipv6Allocated: bool, answers: seq<PatchAnswer>)
      returns (r: Outcome)
      requires Valid() && n !in st.workers && |st.workers| < WORKERS && |answers| == RETRIES
      modifies this
      ensures Listed(old(st), n).Present? && !terminating ==>
        Extends(history, Step(old(history), StartSync(n), Next(c, old(st), StartSync(n))))
      ensures Listed(old(st), n).Present? && !terminating && !r.Stopped? ==>
        history.Step? && (r.Done? <==> history.last in {Occupy(n), PatchOk(n), AlreadySet(n)})
      ensures Honored(history, old(history), n, answers)
      ensures Valid() && Extends(history, old(history))
      ensures if r.Stopped? then AtBreak(n) else n !in st.workers
      ensures Distinct(st)
      ensures Listed(old(st), n) == Absent || terminating ==> r.Done? && history == old(history)
    {
      ExtendsIsTransitive();
      if Listed(st, n) == Absent || terminating {
        DistinctNow();
        return Done;
      }
      Do(StartSync(n));
      ghost var began := history;
      assert Honored(old(history), old(history), n, answers);
      r := AllocateOrOccupyCIDR(n, ipv6Allocated, answers);
      HonoredJoin(history, began, old(history), n, answers);
      DistinctNow();
    }

    /** cidrSet.AllocateNext on behalf of a worker: some free block, or an error when there is none. */
    method AllocateNext(n: NodeName) returns (ok: bool)
      requires Valid() && n in st.workers && st.workers[n].Read? && Copy(st, n, st.workers[n].version) == Present(None)
      modifies this
      ensures Valid() && Extends(history, old(history))
      ensures history.Step? && history.prev == old(history) && !ByPatch(history.last, n)
      ensures ok <==> exists b :: 0 <= b < c.count && b !in old(st).used
      ensures ok ==> n in st.workers && st.workers[n].Holding? && st.workers[n].block !in old(st).used
      ensures !ok ==> n !in st.workers && history == Step(old(history), Exhausted(n), st)
    {
      if b :| 0 <= b < c.count && b !in st.used {
        Do(Allocate(n, b));
        return true;
      }
      Do(Exhausted(n));
      return false;
    }

    /**
     * AllocateOrOccupyCIDR: success means the worker marked the CIDR the node already had, wrote a
     * new one, or gave its own back because the node had meanwhile got another.
     */
    method AllocateOrOccupyCIDR(n: NodeName, ipv6Allocated: bool, answers: seq<PatchAnswer>) returns (r: Outcome)
      requires |answers| == RETRIES
      requires Valid() && n in st.workers && st.workers[n].Read? && Copy(st, n, st.workers[n].version).Present?
      modifies this
      ensures Valid() && Extends(history, old(history)) && history.Step?
      ensures if r.Stopped? then AtBreak(n) else n !in st.workers
      ensures !r.Stopped? ==> (r.Done? <==> history.last in {Occupy(n), PatchOk(n), AlreadySet(n)})
      ensures Copy(old(st), n, old(st).workers[n].version).block.Some? <==> !r.Stopped? && history.last == Occupy(n)
      ensures Honored(history, old(history), n, answers)
    {
      ExtendsIsTransitive();
      var version := st.workers[n].version;
      var node := Copy(st, n, version);
      Interfere(n);
      ghost var sofar := history;
      QuietKeepsHonored(history, old(history), old(history), n, answers);
      assert Copy(st, n, version) == node;
      if node.block.Some? {
        Do(Occupy(n));
        return Done;
      }
      r := AllocateCIDR(n, ipv6Allocated, answers);
      HonoredJoin(history, sofar, old(history), n, answers);
    }

    /** The rest of AllocateOrOccupyCIDR, for a node that had no CIDR when it was read. */
    method AllocateCIDR(n: NodeName, ipv6Allocated: bool, answers: seq<PatchAnswer>) returns (r: Outcome)
      requires |answers| == RETRIES
      requires Valid() && n in st.workers && st.workers[n].Read? && Copy(st, n, st.workers[n].version) == Present(None)
      modifies this
      ensures Valid() && Extends(history, old(history)) && history.Step?
      ensures if r.Stopped? then AtBreak(n) else n !in st.workers
      ensures !r.Stopped? ==> (r.Done? <==> history.last in {PatchOk(n), AlreadySet(n)})
      ensures !r.Stopped? ==> history.last != Occupy(n)
      ensures (forall b :: 0 <= b < c.count ==> b in old(st).used) <==> !r.Stopped? && history.last == Exhausted(n)
      ensures !r.Stopped? && history.last == IPv6Failed(n) ==> !disableIPv6 && !ipv6Allocated
      ensures !disableIPv6 && !ipv6Allocated ==> !r.Stopped? && history.last in {Exhausted(n), IPv6Failed(n)}
      ensures Honored(history, old(history), n, answers)
    {
      ExtendsIsTransitive();
      assert Honored(history, history, n, answers);
      var taken := AllocateNext(n);
      if !taken {
        return Failed;
      }
      ghost var sofar := history;
      r := AllocateRest(n, ipv6Allocated, answers);
      HonoredJoin(history, sofar, old(history), n, answers);
    }

    /** The part of AllocateOrOccupyCIDR after a block was taken. */
    method AllocateRest(n: NodeName, ipv6Allocated: bool, answers: seq<PatchAnswer>) returns (r: Outcome)
      requires Valid() && n in st.workers && st.workers[n].Holding? && |answers| == RETRIES
      modifies this
      ensures Valid() && Extends(history, old(history)) && history.Step?
      ensures if r.Stopped? then AtBreak(n) else n !in st.workers
      ensures r.Done? ==> history.last in {PatchOk(n), AlreadySet(n)}
      ensures r.Failed? ==> history.last in {IPv6Failed(n), LookupFailed(n), GiveUp(n)}
      ensures !disableIPv6 && !ipv6Allocated <==> r.Failed? && history.last == IPv6Failed(n)
      ensures Honored(history, old(history), n, answers)
    {
      ExtendsIsTransitive();
      Interfere(n);
      QuietKeepsHonored(history, old(history), old(history), n, answers);
      ghost var sofar := history;
      if !disableIPv6 {
        if !ipv6Allocated {
          Do(IPv6Failed(n));
          return Failed;
        }
        Interfere(n);
        QuietKeepsHonored(history, sofar, old(history), n, answers);
        sofar := history;
      }
      r := UpdateCIDRsAllocation(n, answers);
      HonoredJoin(history, sofar, old(history), n, answers);
    }

    /**
     * updateCIDRsAllocation: success means the CIDR is stored, or the node already had another one and
     * the new block was given back; the early return for a matching CIDR is never taken.
     */
    method UpdateCIDRsAllocation(n: NodeName, answers: seq<PatchAnswer>) returns (r: Outcome)
      requires Valid() && n in st.workers && st.workers[n].Holding? && |answers| == RETRIES
      modifies this
      ensures Valid() && Extends(history, old(history)) && history.Step?
      ensures if r.Stopped? then AtBreak(n) else n !in st.workers
      ensures r.Done? ==> history.last in {PatchOk(n), AlreadySet(n)}
      ensures r.Failed? ==> history.last in {LookupFailed(n), GiveUp(n)}
      ensures Listed(old(st), n) == Absent <==> !r.Stopped? && history.last == LookupFailed(n)
      ensures Listed(old(st), n).Present? && Listed(old(st), n).block.Some? <==>
        r.Done? && history.last == AlreadySet(n)
      ensures Honored(history, old(history), n, answers)
      ensures r.Done? && history.last == PatchOk(n) ==> Stored(st, n) == Present(Some(old(st).workers[n].block))
    {
      ExtendsIsTransitive();
      assert Honored(history, history, n, answers);
      match Listed(st, n) {
        case Absent =>
          Do(LookupFailed(n));
          return Failed;
        case Present(Some(b)) =>
          if b == st.workers[n].block {
            NoMatch(n);
            return Done;
          }
          Do(AlreadySet(n));
          return Done;
        case Present(None) =>
      }
      r := PatchWithRetries(n, answers);
    }

    /** The end of updateCIDRsAllocation: the burst, and the release unless its last error was a server timeout. */
    method PatchWithRetries(n: NodeName, answers: seq<PatchAnswer>) returns (r: Outcome)
      requires Valid() && n in st.workers && st.workers[n].Holding? && Listed(st, n) == Present(None)
      requires |answers| == RETRIES
      modifies this
      ensures Valid() && Extends(history, old(history)) && history.Step?
      ensures if r.Stopped? then AtBreak(n) else n !in st.workers
      ensures r.Done? ==> history.last == PatchOk(n) && Stored(st, n) == Present(Some(old(st).workers[n].block))
      ensures r.Failed? ==> history.last == GiveUp(n)
      ensures Honored(history, old(history), n, answers)
    {
      ExtendsIsTransitive();
      var block := st.workers[n].block;
      assert Honored(history, history, n, answers);
      Do(BeginPatch(n));
      var i := 0;
      while i < RETRIES
        invariant 0 <= i <= RETRIES
        invariant Valid() && Extends(history, old(history)) && Honored(history, old(history), n, answers)
        invariant n in st.workers && st.workers[n].Patching? && st.workers[n].block == block
        invariant st.workers[n].attempts == i
      {
        ghost var sofar := history;
        Interfere(n);
        QuietKeepsHonored(history, sofar, old(history), n, answers);
        var done := Patch(n, answers[i]);
        if done {
          return Done;
        }
        i := i + 1;
      }
      ghost var sofar := history;
      Interfere(n);
      QuietKeepsHonored(history, sofar, old(history), n, answers);
      r := EndBurst(n);
    }

    method EndBurst(n: NodeName) returns (r: Outcome)
      requires Valid() && Enabled(c, st, GiveUp(n))
      modifies this
      ensures Valid() && Extends(history, old(history)) && !r.Done?
      ensures r.Stopped? ==> history == old(history) && AtBreak(n)
      ensures r.Failed? ==> n !in st.workers && history == Step(old(history), GiveUp(n), st)
    {
      if !BurstPremise(st, GiveUp(n)) {
        return Stopped;
      }
      Do(GiveUp(n));
      return Failed;
    }

    /** The invariant of the protocol holds of the present state. */
    lemma InvNow() returns (o: Owners)
      requires Valid()
      ensures exists d: Config :: d.count == c.count && Inv(d, st, o)
    {
      var states, actions := States(history), Actions(history);
      LegalIsRun(c, history);
      RunInv(c, states, actions, |actions|);
      o := OwnersAt(c, states, actions, |actions|);
    }

    lemma NoMatch(n: NodeName)
      requires Valid()
      ensures !Enabled(c, st, AlreadyMatches(n))
    {
      var o := InvNow();
      var d: Config :| d.count == c.count && Inv(d, st, o);
      ListedIsNotInFlight(d, st, o, n);
    }

    /** What the run theorems say of the present state. */
    lemma DistinctNow()
      requires Valid()
      ensures Distinct(st)
    {
      var o := InvNow();
      forall n, m, b | Stored(st, n) == Present(Some(b)) && Stored(st, m) == Present(Some(b))
        ensures n == m
      {
        assert LogOwned(st.nodes[n], n, o) && LogOwned(st.nodes[m], m, o);
      }
    }
  }

  /** A request of this burst is accepted by the API server, and within the premise on names. */
  predicate MayLand(s: State, n: NodeName)
    requires n in s.workers && s.workers[n].Patching?
  {
    CanLand(s, n, s.workers[n].block) && (!s.workers[n].applied || Stored(s, n) != Present(None))
  }

  /** The step that an answer stands for: a request that may not land is refused without effect. */
  ghost predicate IsAttempt(s: State, n: NodeName, answer: PatchAnswer, a: Action) {
    && n in s.workers && s.workers[n].Patching?
    && match answer
       case Accepted => a == if MayLand(s, n) then PatchOk(n) else PatchErr(n, Lost, false)
       case Refused(effect, timeout) =>
         a == PatchErr(n, if effect.Landed? && !MayLand(s, n) then Lost else effect, timeout)
  }

  predicate ByPatch(a: Action, n: NodeName) {
    (a.PatchOk? || a.PatchErr?) && a.node == n
  }

  /** No attempt of the worker of this key has been made since. */
  ghost predicate NoAttempt(h: History, earlier: History, n: NodeName) {
    h == earlier || (h.Step? && !ByPatch(h.last, n) && NoAttempt(h.prev, earlier, n))
  }

  /** Each attempt of the worker of this key since then was answered as given, by its number. */
  ghost predicate Honored(h: History, earlier: History, n: NodeName, answers: seq<PatchAnswer>) {
    h == earlier ||
    (&& h.Step? && Honored(h.prev, earlier, n, answers)
     && (ByPatch(h.last, n) ==>
           && n in h.prev.end.workers && h.prev.end.workers[n].Patching?
           && h.prev.end.workers[n].attempts < |answers|
           && IsAttempt(h.prev.end, n, answers[h.prev.end.workers[n].attempts], h.last)))
  }

  lemma {:induction false} QuietKeepsHonored(h: History, middle: History, earlier: History, n: NodeName,
                                             answers: seq<PatchAnswer>)
    requires NoAttempt(h, middle, n) && Honored(middle, earlier, n, answers)
    ensures Honored(h, earlier, n, answers)
  {
    if h != middle {
      QuietKeepsHonored(h.prev, middle, earlier, n, answers);
    }
  }

  lemma {:induction false} HonoredJoin(h: History, middle: History, earlier: History, n: NodeName,
                                       answers: seq<PatchAnswer>)
    requires Honored(h, middle, n, answers) && Honored(middle, earlier, n, answers)
    ensures Honored(h, earlier, n, answers)
  {
    if h != middle {
      HonoredJoin(h.prev, middle, earlier, n, answers);
    }
  }

  /** A step of the cluster, the informer, the delete handler or a late request, or of the worker of another key. */
  predicate NotBy(n: NodeName, a: Action) {
    Outside(a) || a.node != n
  }

  /** The same place in the code; a late request may have made the burst one that has written. */
  predicate SamePlace(w: Worker, w': Worker) {
    w' == w || (w.Patching? && w' == w.(applied := true))
  }

  /** The worker of the key has not moved, and the log of its name has at most grown. */
  ghost predicate Undisturbed(s: State, t: State, n: NodeName) {
    && (n in t.workers <==> n in s.workers)
    && (n in t.workers ==> SamePlace(s.workers[n], t.workers[n]))
    && (n in s.nodes ==> n in t.nodes && s.nodes[n].versions <= t.nodes[n].versions)
  }

  lemma NotByUndisturbed(c: Config, s: State, n: NodeName, a: Action)
    requires Enabled(c, s, a) && NotBy(n, a)
    ensures Undisturbed(s, Next(c, s, a), n)
  {
  }

  /** No block is stored on two nodes. */
  ghost predicate Distinct(s: State) {
    forall n, m, b :: Stored(s, n) == Present(Some(b)) && Stored(s, m) == Present(Some(b)) ==> n == m
  }

  // ---------------------------------------------------------------------------
  // Histories
  // ---------------------------------------------------------------------------

  /** A run as it is recorded, newest step first; `end` is the state it has reached. */
  datatype History = Start(end: State) | Step(prev: History, last: Action, end: State)

  ghost predicate Legal(c: Config, h: History) {
    match h
    case Start(s) => Init(c, s)
    case Step(prev, a, s) =>
      && Legal(c, prev) && Enabled(c, prev.end, a) && s == Next(c, prev.end, a)
      && BurstPremise(prev.end, a) && NamePremise(prev.end, a)
  }

  ghost predicate Extends(h: History, earlier: History) {
    h == earlier || (h.Step? && Extends(h.prev, earlier))
  }

  lemma {:induction false} ExtendsTransitive(h: History, k: History, earlier: History)
    requires Extends(h, k) && Extends(k, earlier)
    ensures Extends(h, earlier)
  {
    if h != k {
      ExtendsTransitive(h.prev, k, earlier);
    }
  }

  lemma ExtendsIsTransitive()
    ensures forall h, k, earlier :: Extends(h, k) && Extends(k, earlier) ==> Extends(h, earlier)
  {
    forall h, k, earlier | Extends(h, k) && Extends(k, earlier)
      ensures Extends(h, earlier)
    {
      ExtendsTransitive(h, k, earlier);
    }
  }

  ghost function States(h: History): seq<State> {
    match h
    case Start(s) => [s]
    case Step(prev, _, s) => States(prev) + [s]
  }

  ghost function Actions(h: History): seq<Action> {
    match h
    case Start(_) => []
    case Step(prev, a, _) => Actions(prev) + [a]
  }

  /** A recorded history is a run in the sense of the protocol, and meets its premises. */
  lemma {:induction false} LegalIsRun(c: Config, h: History)
    requires Legal(c, h)
    ensures IsRun(c, States(h), Actions(h)) && Premises(States(h), Actions(h))
    ensures States(h)[|Actions(h)|] == h.end
  {
    match h {
      case Start(_) =>
      case Step(prev, a, s) =>
        LegalIsRun(c, prev);
        var states, actions := States(h), Actions(h);
        forall i | 0 <= i < |actions|
          ensures Enabled(c, states[i], actions[i]) && states[i + 1] == Next(c, states[i], actions[i])
          ensures BurstPremise(states[i], actions[i]) && NamePremise(states[i], actions[i])
        {
          assert states[i] == States(prev)[i];
          assert i < |actions| - 1 ==> actions[i] == Actions(prev)[i] && states[i + 1] == States(prev)[i + 1];
        }
    }
  }
}
