/**
 * Who is responsible for each used block.  `Transfer` hands responsibility on at each
 * step of the protocol; the invariant says that the used set is exactly the set of owned
 * blocks and that every owner really has the block.
 */
module IpamOwnership {
  import opened Wrappers
  import opened IpamProtocol

  datatype Owner =
    | Held(node: NodeName)                    // stored in this node's Spec.PodCIDRs
    | Deleting(node: NodeName, version: nat)  // stored in a deleted version the informer has yet to pass
    | Notified                                // the delete handler has yet to run
    | InFlight(node: NodeName)                // taken by the worker of this key, not yet written
    | Reserved
    | Leaked(step: nat)                       // lost at this step of the run

  type Owners = map<Block, Owner>

  predicate DeletingAt(s: State, n: NodeName, i: nat, b: Block) {
    && n in s.nodes && s.nodes[n].seen <= i && i + 1 < |s.nodes[n].versions|
    && s.nodes[n].versions[i] == Present(Some(b))
  }

  predicate Owns(c: Config, s: State, w: Owner, b: Block) {
    match w
    case Held(n) => Stored(s, n) == Present(Some(b))
    case Deleting(n, i) => DeletingAt(s, n, i, b)
    case Notified => b in s.notices
    case InFlight(n) => InFlightOf(s, n, b)
    case Reserved => b in c.reserved
    case Leaked(_) => true
  }

  /** A pod CIDR, once set, changes only by deletion of the node. */
  predicate LegalNext(v: Object, w: Object) {
    match v
    case Absent => w == Present(None)
    case Present(None) => w == Absent || (w.Present? && w.block.Some?)
    case Present(Some(_)) => w == Absent
  }

  ghost predicate LogOk(c: Config, log: NodeLog) {
    && log.seen < |log.versions|
    && (forall i :: 0 <= i < |log.versions| && log.versions[i].Present? && log.versions[i].block.Some? ==>
          log.versions[i].block.value < c.count)
    && (forall i :: 0 <= i < |log.versions| - 1 ==> LegalNext(log.versions[i], log.versions[i + 1]))
  }

  ghost predicate LogOwned(log: NodeLog, n: NodeName, o: Owners) {
    forall i :: log.seen <= i < |log.versions| && log.versions[i].Present? && log.versions[i].block.Some? ==>
      && log.versions[i].block.value in o
      && o[log.versions[i].block.value] == if i == |log.versions| - 1 then Held(n) else Deleting(n, i)
  }

  ghost predicate WorkerOk(s: State, n: NodeName, w: Worker, o: Owners) {
    && n in s.nodes
    && match w
       case Read(v) => v <= s.nodes[n].seen && Copy(s, n, v).Present?
       case Holding(b) => b in o && o[b] == InFlight(n)
       case Patching(b, k, applied, _) => k <= RETRIES && (!applied ==> b in o && o[b] == InFlight(n))
  }

  ghost predicate LogsOk(c: Config, s: State, o: Owners) {
    forall n :: n in s.nodes ==> LogOk(c, s.nodes[n]) && LogOwned(s.nodes[n], n, o)
  }

  ghost predicate WorkersOk(s: State, o: Owners) {
    forall n :: n in s.workers ==> WorkerOk(s, n, s.workers[n], o)
  }

  ghost predicate MarksOk(c: Config, s: State, o: Owners) {
    && o.Keys == s.used
    && (forall b :: b in s.used ==> b < c.count)
    && (forall b :: b in s.notices ==> b in o && o[b] == Notified)
    && (forall b :: b in c.reserved ==> b in o && o[b] == Reserved)
  }

  ghost predicate OwnersOk(c: Config, s: State, o: Owners) {
    forall b :: b in o ==> Owns(c, s, o[b], b)
  }

  /** No burst writes a reserved block. */
  ghost predicate BlocksOk(c: Config, s: State) {
    forall n :: n in s.workers && s.workers[n].Patching? ==> s.workers[n].block !in c.reserved
  }

  ghost predicate Inv(c: Config, s: State, o: Owners) {
    MarksOk(c, s, o) && LogsOk(c, s, o) && WorkersOk(s, o) && BlocksOk(c, s) && OwnersOk(c, s, o)
  }

  /** The steps at which a block stays marked with nobody left to release it. */
  predicate LeakEvent(c: Config, s: State, a: Action, b: Block) {
    && Enabled(c, s, a)
    && match a
       case IPv6Failed(n) => b == s.workers[n].block
       case LookupFailed(n) => b == s.workers[n].block
       case GiveUp(n) => b == s.workers[n].block && s.workers[n].timedOut && !s.workers[n].applied
       case Occupy(n) => b == Copy(s, n, s.workers[n].version).block.value && b !in s.used
       case Miss(n) => b in Announced(s.nodes[n])
       case _ => false
  }

  function Transfer(c: Config, s: State, a: Action, o: Owners, step: nat): Owners
    requires Enabled(c, s, a)
  {
    match a
    case DeleteNode(n) =>
      if Stored(s, n).block.Some? then o[Stored(s, n).block.value := Deleting(n, |s.nodes[n].versions| - 1)] else o
    case Deliver(n) => map b | b in o :: if b in Announced(s.nodes[n]) then Notified else o[b]
    case Miss(n) => map b | b in o :: if b in Announced(s.nodes[n]) then Leaked(step) else o[b]
    case HandleDelete(b) => o - {b}
    case Occupy(n) =>
      var b := Copy(s, n, s.workers[n].version).block.value;
      if b in o then o else o[b := Leaked(step)]
    case Allocate(n, b) => o[b := InFlight(n)]
    case IPv6Failed(n) => o[s.workers[n].block := Leaked(step)]
    case LookupFailed(n) => o[s.workers[n].block := Leaked(step)]
    case AlreadySet(n) => o - {s.workers[n].block}
    case PatchOk(n) => if Stored(s, n) == Present(None) then o[s.workers[n].block := Held(n)] else o
    case PatchErr(n, effect, _) =>
      if effect.Landed? && Stored(s, n) == Present(None) then o[s.workers[n].block := Held(n)] else o
    case LateLand(n, b) => if Stored(s, n) == Present(None) then o[b := Held(n)] else o
    case GiveUp(n) =>
      var w := s.workers[n];
      if !w.timedOut then o - {w.block} else if w.applied then o else o[w.block := Leaked(step)]
    case _ => o
  }

  // -- the cluster ------------------------------------------------------------

  /** The owners a write under name `n` may change: that name's own, and blocks that were lost. */
  ghost predicate OthersKept(o: Owners, o': Owners, n: NodeName) {
    forall b :: b in o && o[b] != Held(n) && o[b] != InFlight(n) && !o[b].Leaked? ==> b in o' && o'[b] == o[b]
  }

  lemma AppendLog(c: Config, log: NodeLog, n: NodeName, o: Owners, v: Object, o': Owners)
    requires LogOk(c, log) && LogOwned(log, n, o) && LegalNext(Newest(log), v) && OthersKept(o, o', n)
    requires Newest(log).Present? && Newest(log).block.Some? ==>
               var b := Newest(log).block.value; b in o' && o'[b] == Deleting(n, |log.versions| - 1)
    requires v.Present? && v.block.Some? ==>
               v.block.value < c.count && v.block.value in o' && o'[v.block.value] == Held(n)
    ensures LogOk(c, NodeLog(log.versions + [v], log.seen)) && LogOwned(NodeLog(log.versions + [v], log.seen), n, o')
  {
  }

  lemma AppendKeepsLogs(c: Config, s: State, o: Owners, n: NodeName, v: Object, s': State, o': Owners)
    requires Inv(c, s, o) && s'.nodes == Append(s, n, v).nodes && LegalNext(Stored(s, n), v) && OthersKept(o, o', n)
    requires Stored(s, n).Present? && Stored(s, n).block.Some? ==>
               var b := Stored(s, n).block.value; b in o' && o'[b] == Deleting(n, |s.nodes[n].versions| - 1)
    requires v.Present? && v.block.Some? ==>
               v.block.value < c.count && v.block.value in o' && o'[v.block.value] == Held(n)
    ensures LogsOk(c, s', o')
  {
    forall m | m in s'.nodes
      ensures LogOk(c, s'.nodes[m]) && LogOwned(s'.nodes[m], m, o')
    {
      if m != n {
        assert LogOk(c, s.nodes[m]) && LogOwned(s.nodes[m], m, o);
      } else if n in s.nodes {
        AppendLog(c, s.nodes[n], n, o, v, o');
      }
    }
  }

  lemma AppendKeepsOwner(c: Config, s: State, n: NodeName, v: Object, w: Owner, b: Block)
    requires Owns(c, s, w, b) && w != Held(n)
    ensures Owns(c, Append(s, n, v), w, b)
  {
  }

  lemma AppendKeepsWorkers(c: Config, s: State, o: Owners, n: NodeName, v: Object, s': State, o': Owners)
    requires Inv(c, s, o) && s' == Append(s, n, v)
    requires forall m, b :: b in o && o[b] == InFlight(m) ==> b in o' && o'[b] == InFlight(m)
    ensures WorkersOk(s', o')
  {
  }

  lemma CreateStep(c: Config, s: State, o: Owners, n: NodeName)
    requires Inv(c, s, o) && Enabled(c, s, CreateNode(n))
    ensures Inv(c, Next(c, s, CreateNode(n)), o)
  {
    var s' := Next(c, s, CreateNode(n));
    AppendKeepsLogs(c, s, o, n, Present(None), s', o);
    AppendKeepsWorkers(c, s, o, n, Present(None), s', o);
    forall b | b in o
      ensures Owns(c, s', o[b], b)
    {
      AppendKeepsOwner(c, s, n, Present(None), o[b], b);
    }
  }

  lemma DeleteStep(c: Config, s: State, o: Owners, n: NodeName, k: nat)
    requires Inv(c, s, o) && Enabled(c, s, DeleteNode(n))
    ensures Inv(c, Next(c, s, DeleteNode(n)), Transfer(c, s, DeleteNode(n), o, k))
  {
    var o' := Transfer(c, s, DeleteNode(n), o, k);
    var s' := Next(c, s, DeleteNode(n));
    assert LogOk(c, s.nodes[n]) && LogOwned(s.nodes[n], n, o);
    AppendKeepsLogs(c, s, o, n, Absent, s', o');
    AppendKeepsWorkers(c, s, o, n, Absent, s', o');
    forall b | b in o'
      ensures Owns(c, s', o'[b], b)
    {
      if o'[b] == o[b] {
        AppendKeepsOwner(c, s, n, Absent, o[b], b);
      }
    }
  }

  // -- the informer -----------------------------------------------------------

  ghost predicate Passed(o: Owners, o': Owners, announced: set<Block>, w: Owner) {
    && o'.Keys == o.Keys
    && (forall b :: b in o ==> o'[b] == if b in announced then w else o[b])
  }

  lemma PassKeepsLog(c: Config, log: NodeLog, n: NodeName, o: Owners, o': Owners, w: Owner, m: NodeName, log2: NodeLog)
    requires LogOk(c, log) && LogOwned(log, n, o) && log.seen + 1 < |log.versions|
    requires Passed(o, o', Announced(log), w)
    requires LogOk(c, log2) && LogOwned(log2, m, o) && (m == n ==> log2 == log)
    ensures LogOwned(if m == n then log.(seen := log.seen + 1) else log2, m, o')
  {
  }

  /** The informer passes a version; a block that was deleted with it goes to the handler, or is lost. */
  lemma PassStep(c: Config, s: State, o: Owners, n: NodeName, s': State, o': Owners, w: Owner)
    requires Inv(c, s, o) && Enabled(c, s, Deliver(n)) && (w.Notified? || w.Leaked?)
    requires s' == Next(c, s, if w.Notified? then Deliver(n) else Miss(n))
    requires Passed(o, o', Announced(s.nodes[n]), w)
    ensures Inv(c, s', o')
  {
    var log := s.nodes[n];
    AnnouncedWasDeleting(c, log, n, o);
    forall m | m in s'.nodes
      ensures LogOk(c, s'.nodes[m]) && LogOwned(s'.nodes[m], m, o')
    {
      PassKeepsLog(c, log, n, o, o', w, m, s.nodes[m]);
    }
    forall b | b in o'
      ensures Owns(c, s', o'[b], b)
    {
      PassKeepsOwner(c, s, n, s', o[b], b);
    }
    forall m | m in s'.workers
      ensures WorkerOk(s', m, s'.workers[m], o')
    {
      PassKeepsWorker(c, s, n, s', m, o, o', w);
    }
  }

  lemma PassKeepsWorker(c: Config, s: State, n: NodeName, s': State, m: NodeName, o: Owners, o': Owners, w: Owner)
    requires Enabled(c, s, Deliver(n)) && m in s.workers && WorkerOk(s, m, s.workers[m], o)
    requires s' == Next(c, s, if w.Notified? then Deliver(n) else Miss(n))
    requires Passed(o, o', Announced(s.nodes[n]), w)
    requires forall b :: b in Announced(s.nodes[n]) ==> b in o && !o[b].InFlight?
    ensures WorkerOk(s', m, s.workers[m], o')
  {
  }

  lemma PassKeepsOwner(c: Config, s: State, n: NodeName, s': State, w: Owner, b: Block)
    requires Enabled(c, s, Deliver(n)) && Owns(c, s, w, b)
    requires s' == Next(c, s, Deliver(n)) || s' == Next(c, s, Miss(n))
    ensures w != Deleting(n, s.nodes[n].seen) ==> Owns(c, s', w, b)
    ensures b in Announced(s.nodes[n]) && s' == Next(c, s, Deliver(n)) ==> Owns(c, s', Notified, b)
  {
  }

  lemma AnnouncedWasDeleting(c: Config, log: NodeLog, n: NodeName, o: Owners)
    requires LogOk(c, log) && LogOwned(log, n, o) && log.seen + 1 < |log.versions|
    ensures forall b :: b in Announced(log) <==> log.versions[log.seen] == Present(Some(b))
    ensures forall b :: b in Announced(log) ==> b in o && o[b] == Deleting(n, log.seen)
  {
  }

  /** The logs do not depend on the owners of other blocks. */
  lemma SameLogs(c: Config, s: State, o: Owners, o': Owners)
    requires LogsOk(c, s, o)
    requires forall b :: b in o && (o[b].Held? || o[b].Deleting?) ==> b in o' && o'[b] == o[b]
    ensures LogsOk(c, s, o')
  {
    forall m | m in s.nodes
      ensures LogOwned(s.nodes[m], m, o')
    {
      assert LogOwned(s.nodes[m], m, o);
    }
  }

  lemma HandleDeleteStep(c: Config, s: State, o: Owners, b: Block, k: nat)
    requires Inv(c, s, o) && Enabled(c, s, HandleDelete(b))
    ensures Inv(c, Next(c, s, HandleDelete(b)), Transfer(c, s, HandleDelete(b), o, k))
  {
    SameLogs(c, s, o, o - {b});
  }

  // -- the workers ------------------------------------------------------------

  lemma StartStep(c: Config, s: State, o: Owners, n: NodeName)
    requires Inv(c, s, o) && Enabled(c, s, StartSync(n))
    ensures Inv(c, Next(c, s, StartSync(n)), o)
  {
  }

  lemma OccupyStep(c: Config, s: State, o: Owners, n: NodeName, k: nat)
    requires Inv(c, s, o) && Enabled(c, s, Occupy(n))
    ensures Inv(c, Next(c, s, Occupy(n)), Transfer(c, s, Occupy(n), o, k))
  {
    var b := Copy(s, n, s.workers[n].version).block.value;
    EndStep(c, s, o, n);
    if b in o {
      assert s.used + {b} == s.used;
    } else {
      assert WorkerOk(s, n, s.workers[n], o) && LogOk(c, s.nodes[n]);
      MarkStep(c, Finish(s, n), o, b, k);
    }
  }

  /** A block that is marked for no reason is lost. */
  lemma MarkStep(c: Config, s: State, o: Owners, b: Block, k: nat)
    requires Inv(c, s, o) && b !in o && b < c.count
    ensures Inv(c, s.(used := s.used + {b}), o[b := Leaked(k)])
  {
    SameLogs(c, s, o, o[b := Leaked(k)]);
  }

  lemma AllocateStep(c: Config, s: State, o: Owners, n: NodeName, b: Block, k: nat)
    requires Inv(c, s, o) && Enabled(c, s, Allocate(n, b))
    ensures Inv(c, Next(c, s, Allocate(n, b)), Transfer(c, s, Allocate(n, b), o, k))
  {
    var s', o' := Next(c, s, Allocate(n, b)), o[b := InFlight(n)];
    SameLogs(c, s, o, o');
    forall m | m in s'.workers
      ensures WorkerOk(s', m, s'.workers[m], o')
    {
      assert WorkerOk(s, m, s.workers[m], o);
    }
    forall x | x in o'
      ensures Owns(c, s', o'[x], x)
    {
      assert x != b ==> Owns(c, s, o[x], x);
    }
  }

  /** A sync that ends without a block of its own changes nothing else. */
  lemma EndStep(c: Config, s: State, o: Owners, n: NodeName)
    requires Inv(c, s, o) && (forall b :: !InFlightOf(s, n, b))
    ensures Inv(c, Finish(s, n), o)
  {
  }

  /** A worker ends and releases its block, which is in flight with it, lost, or not even marked. */
  lemma DropStep(c: Config, s: State, o: Owners, n: NodeName, b: Block)
    requires Inv(c, s, o) && n in s.workers && (s.workers[n].Holding? || s.workers[n].Patching?)
    requires s.workers[n].block == b && (b in o ==> o[b] == InFlight(n) || o[b].Leaked?)
    ensures Inv(c, Finish(Release(s, b), n), o - {b})
  {
    SameLogs(c, s, o, o - {b});
  }

  /** A block that nobody else has a claim on is in flight with the worker, lost, or not even marked. */
  lemma UnclaimedOwner(c: Config, s: State, o: Owners, n: NodeName)
    requires Inv(c, s, o) && n in s.workers && s.workers[n].Patching? && !Claimed(s, n, s.workers[n].block)
    ensures var b := s.workers[n].block; b in o ==> o[b] == InFlight(n) || o[b].Leaked?
  {
    var b := s.workers[n].block;
    if b in o {
      assert Owns(c, s, o[b], b);
      if o[b].Deleting? {
        var p, i := o[b].node, o[b].version;
        assert LogOk(c, s.nodes[p]) && LegalNext(s.nodes[p].versions[i], s.nodes[p].versions[i + 1]);
        assert DeletedAt(s, p, i, b);
      }
    }
  }

  lemma LoseStep(c: Config, s: State, o: Owners, n: NodeName, b: Block, k: nat)
    requires Inv(c, s, o) && InFlightOf(s, n, b)
    ensures Inv(c, Finish(s, n), o[b := Leaked(k)])
  {
    SameLogs(c, s, o, o[b := Leaked(k)]);
  }

  /** The steps that end a sync and either keep, drop or lose the worker's block. */
  lemma FinishStep(c: Config, s: State, o: Owners, a: Action, k: nat)
    requires Inv(c, s, o) && Enabled(c, s, a) && BurstPremise(s, a)
    requires a.Exhausted? || a.IPv6Failed? || a.LookupFailed? || a.AlreadySet? || a.GiveUp?
    ensures Inv(c, Next(c, s, a), Transfer(c, s, a, o, k))
  {
    match a {
      case Exhausted(n) => EndStep(c, s, o, n);
      case IPv6Failed(n) => LoseStep(c, s, o, n, s.workers[n].block, k);
      case LookupFailed(n) => LoseStep(c, s, o, n, s.workers[n].block, k);
      case AlreadySet(n) => DropStep(c, s, o, n, s.workers[n].block);
      case GiveUp(n) => GiveUpStep(c, s, o, n, k);
      case _ =>
    }
  }

  lemma GiveUpStep(c: Config, s: State, o: Owners, n: NodeName, k: nat)
    requires Inv(c, s, o) && Enabled(c, s, GiveUp(n)) && BurstPremise(s, GiveUp(n))
    ensures Inv(c, Next(c, s, GiveUp(n)), Transfer(c, s, GiveUp(n), o, k))
  {
    if !s.workers[n].timedOut {
      UnclaimedOwner(c, s, o, n);
      DropStep(c, s, o, n, s.workers[n].block);
    } else if s.workers[n].applied {
      EndStep(c, s, o, n);
    } else {
      LoseStep(c, s, o, n, s.workers[n].block, k);
    }
  }

  /** A block the lister shows is held or about to be released, so it is never the one just allocated. */
  lemma ListedIsNotInFlight(c: Config, s: State, o: Owners, n: NodeName)
    requires Inv(c, s, o)
    ensures !Enabled(c, s, AlreadyMatches(n))
  {
  }

  lemma BeginStep(c: Config, s: State, o: Owners, n: NodeName)
    requires Inv(c, s, o) && Enabled(c, s, BeginPatch(n))
    ensures Inv(c, Next(c, s, BeginPatch(n)), o)
  {
  }

  ghost predicate SameOthers(ws: map<NodeName, Worker>, ws': map<NodeName, Worker>, n: NodeName) {
    && (forall m :: m in ws && m != n ==> m in ws' && ws'[m] == ws[m])
    && (forall m :: m in ws' && m != n ==> m in ws)
  }

  /** The worker of a name whose burst has landed: it has gone, or knows, or is about another block. */
  ghost predicate LandedWorker(s: State, s': State, n: NodeName, b: Block) {
    && SameOthers(s.workers, s'.workers, n) && (n in s'.workers ==> n in s.workers)
    && (n in s'.workers ==>
          || (&& s'.workers[n].Patching? && s'.workers[n].attempts <= RETRIES && s'.workers[n].applied
              && s'.workers[n].block == b)
          || (s'.workers[n] == s.workers[n] && !InFlightOf(s, n, b)))
    && (n in s.workers && (n in s'.workers ==> s'.workers[n] != s.workers[n]) ==>
          s.workers[n].Patching? && s.workers[n].block == b)
  }

  /** Landing for the first time turns a block in flight, or one lost with its request pending, into the node's. */
  lemma LandStep(c: Config, s: State, o: Owners, n: NodeName, b: Block, s': State, o': Owners)
    requires Inv(c, s, o) && Stored(s, n) == Present(None)
    requires b in o && (o[b] == InFlight(n) || o[b].Leaked?) && o' == o[b := Held(n)]
    requires s'.nodes == Append(s, n, Present(Some(b))).nodes && s'.used == s.used && s'.notices == s.notices
    requires LandedWorker(s, s', n, b)
    ensures Inv(c, s', o')
  {
    AppendKeepsLogs(c, s, o, n, Present(Some(b)), s', o');
    LandKeepsOwners(c, s, o, n, b, s', o');
    LandKeepsWorkers(c, s, o, n, b, s', o');
    LandKeepsBlocks(c, s, o, n, b, s');
  }

  lemma LandKeepsBlocks(c: Config, s: State, o: Owners, n: NodeName, b: Block, s': State)
    requires Inv(c, s, o) && b in o && o[b] != Reserved && LandedWorker(s, s', n, b)
    ensures BlocksOk(c, s')
  {
  }

  lemma LandKeepsOwners(c: Config, s: State, o: Owners, n: NodeName, b: Block, s': State, o': Owners)
    requires Inv(c, s, o) && Stored(s, n) == Present(None)
    requires b in o && (o[b] == InFlight(n) || o[b].Leaked?) && o' == o[b := Held(n)]
    requires s'.nodes == Append(s, n, Present(Some(b))).nodes && s'.used == s.used && s'.notices == s.notices
    requires LandedWorker(s, s', n, b)
    ensures OwnersOk(c, s', o')
  {
  }

  lemma LandKeepsWorkers(c: Config, s: State, o: Owners, n: NodeName, b: Block, s': State, o': Owners)
    requires Inv(c, s, o) && n in s.nodes && b in o && (o[b] == InFlight(n) || o[b].Leaked?) && o' == o[b := Held(n)]
    requires s'.nodes == Append(s, n, Present(Some(b))).nodes && LandedWorker(s, s', n, b)
    ensures WorkersOk(s', o')
  {
  }

  predicate Lands(a: Action) {
    a.PatchOk? || (a.PatchErr? && a.effect.Landed?)
  }

  /** What a patch attempt does to the parts of the state the invariant speaks of. */
  lemma PatchShape(c: Config, s: State, a: Action)
    requires Enabled(c, s, a) && (a.PatchOk? || a.PatchErr?)
    ensures var s', w := Next(c, s, a), s.workers[a.node];
            && s'.used == s.used && s'.notices == s.notices
            && s'.nodes == (if Lands(a) && Stored(s, a.node) == Present(None)
                            then Append(s, a.node, Present(Some(w.block))).nodes else s.nodes)
            && (a.PatchOk? ==> s'.workers == s.workers - {a.node})
            && (a.PatchErr? ==>
                  var w' := Patching(w.block, w.attempts + 1, w.applied || Lands(a), a.timeout);
                  s'.workers == s.workers[a.node := w'])
    ensures var x := Attempt(a.node, s.workers[a.node].block);
            Next(c, s, a).late == if Lands(a) then s.late - {x}
                                  else if a.effect.Pending? && !s.workers[a.node].applied then s.late + {x} else s.late
  {
  }

  lemma FirstLanding(c: Config, s: State, o: Owners, a: Action, k: nat)
    requires Inv(c, s, o) && Enabled(c, s, a) && NamePremise(s, a) && (a.PatchOk? || a.PatchErr?)
    requires Lands(a) && Stored(s, a.node) == Present(None)
    ensures Inv(c, Next(c, s, a), Transfer(c, s, a, o, k))
  {
    PatchShape(c, s, a);
    assert WorkerOk(s, a.node, s.workers[a.node], o);
    LandStep(c, s, o, a.node, s.workers[a.node].block, Next(c, s, a), Transfer(c, s, a, o, k));
  }

  /** An attempt that does not land for the first time moves the worker on and changes no owner. */
  lemma QuietStep(c: Config, s: State, o: Owners, n: NodeName, s': State)
    requires Inv(c, s, o) && n in s.workers && s.workers[n].Patching?
    requires s'.nodes == s.nodes && s'.used == s.used && s'.notices == s.notices && SameOthers(s.workers, s'.workers, n)
    requires n in s'.workers ==>
      && s'.workers[n].Patching? && s'.workers[n].block == s.workers[n].block && s'.workers[n].attempts <= RETRIES
      && s'.workers[n].applied == s.workers[n].applied
    requires n !in s'.workers ==> s.workers[n].applied
    ensures Inv(c, s', o)
  {
  }

  /** A node that has the block of a burst got it from that burst. */
  lemma HeldMeansApplied(c: Config, s: State, o: Owners, n: NodeName)
    requires Inv(c, s, o) && n in s.workers && s.workers[n].Patching?
    requires Stored(s, n) == Present(Some(s.workers[n].block))
    ensures s.workers[n].applied
  {
  }

  lemma PatchStep(c: Config, s: State, o: Owners, a: Action, k: nat)
    requires Inv(c, s, o) && Enabled(c, s, a) && NamePremise(s, a) && (a.PatchOk? || a.PatchErr?)
    ensures Inv(c, Next(c, s, a), Transfer(c, s, a, o, k))
  {
    if Lands(a) && Stored(s, a.node) == Present(None) {
      FirstLanding(c, s, o, a, k);
    } else {
      PatchShape(c, s, a);
      if Lands(a) {
        HeldMeansApplied(c, s, o, a.node);
      }
      QuietStep(c, s, o, a.node, Next(c, s, a));
    }
  }

  // -- requests that land late ----------------------------------------------------

  ghost predicate AttemptOk(s: State, o: Owners, x: Attempt) {
    && x.block in o
    && (|| o[x.block].Leaked?
        || (o[x.block] == InFlight(x.node) && x.node in s.workers && s.workers[x.node].Patching?))
  }

  /** A request of a burst that has not written: its block is in flight with it, or lost. */
  ghost predicate LateOk(s: State, o: Owners) {
    && (forall x :: x in s.late ==> AttemptOk(s, o, x))
    && (forall x, y :: x in s.late && y in s.late && x.block == y.block ==> x == y)
  }

  lemma LateShape(c: Config, s: State, n: NodeName, b: Block)
    requires Enabled(c, s, LateLand(n, b)) && Stored(s, n) == Present(None)
    ensures var s' := Next(c, s, LateLand(n, b));
            && s'.used == s.used && s'.notices == s.notices && s'.nodes == Append(s, n, Present(Some(b))).nodes
            && s'.workers == MarkApplied(s, n, b).workers && s'.late == s.late - {Attempt(n, b)}
  {
  }

  lemma LateStep(c: Config, s: State, o: Owners, n: NodeName, b: Block, k: nat)
    requires Inv(c, s, o) && LateOk(s, o) && Enabled(c, s, LateLand(n, b)) && NamePremise(s, LateLand(n, b))
    ensures Inv(c, Next(c, s, LateLand(n, b)), Transfer(c, s, LateLand(n, b), o, k))
  {
    if Stored(s, n) == Present(None) {
      LateShape(c, s, n, b);
      if n in s.workers {
        assert WorkerOk(s, n, s.workers[n], o);
      }
      LandStep(c, s, o, n, b, Next(c, s, LateLand(n, b)), Transfer(c, s, LateLand(n, b), o, k));
    }
  }

  /** The steps of everyone but the workers. */
  predicate Outside(a: Action) {
    a.CreateNode? || a.DeleteNode? || a.Deliver? || a.Miss? || a.HandleDelete? || a.LateLand?
  }

  lemma OutsideStep(c: Config, s: State, o: Owners, a: Action, k: nat)
    requires Inv(c, s, o) && LateOk(s, o) && Enabled(c, s, a) && NamePremise(s, a) && Outside(a)
    ensures Inv(c, Next(c, s, a), Transfer(c, s, a, o, k))
  {
    match a {
      case CreateNode(n) => CreateStep(c, s, o, n);
      case DeleteNode(n) => DeleteStep(c, s, o, n, k);
      case Deliver(n) => PassStep(c, s, o, n, Next(c, s, a), Transfer(c, s, a, o, k), Notified);
      case Miss(n) => PassStep(c, s, o, n, Next(c, s, a), Transfer(c, s, a, o, k), Leaked(k));
      case HandleDelete(b) => HandleDeleteStep(c, s, o, b, k);
      case LateLand(n, b) => LateStep(c, s, o, n, b, k);
      case _ =>
    }
  }

  /** Every step of the protocol keeps the invariant, with responsibility handed on by `Transfer`. */
  lemma StepKeepsInv(c: Config, s: State, o: Owners, a: Action, k: nat)
    requires Inv(c, s, o) && LateOk(s, o) && Enabled(c, s, a) && BurstPremise(s, a) && NamePremise(s, a)
    ensures Inv(c, Next(c, s, a), Transfer(c, s, a, o, k))
  {
    if Outside(a) {
      OutsideStep(c, s, o, a, k);
    } else {
      match a {
        case StartSync(n) => StartStep(c, s, o, n);
        case Occupy(n) => OccupyStep(c, s, o, n, k);
        case Allocate(n, b) => AllocateStep(c, s, o, n, b, k);
        case AlreadyMatches(n) => ListedIsNotInFlight(c, s, o, n);
        case BeginPatch(n) => BeginStep(c, s, o, n);
        case PatchOk(_) => PatchStep(c, s, o, a, k);
        case PatchErr(_, _, _) => PatchStep(c, s, o, a, k);
        case _ => FinishStep(c, s, o, a, k);
      }
    }
  }

  /** A step outside a burst leaves the block of a pending request where it is. */
  lemma OtherStepKeepsAttempt(c: Config, s: State, o: Owners, a: Action, k: nat, x: Attempt)
    requires Inv(c, s, o) && AttemptOk(s, o, x) && Enabled(c, s, a)
    requires !a.PatchOk? && !a.PatchErr? && !a.LateLand? && !a.GiveUp?
    ensures Next(c, s, a).late == s.late && AttemptOk(Next(c, s, a), Transfer(c, s, a, o, k), x)
  {
    if a.DeleteNode? {
      assert LogOwned(s.nodes[a.node], a.node, o);
    } else if a.Deliver? || a.Miss? {
      AnnouncedWasDeleting(c, s.nodes[a.node], a.node, o);
    }
  }

  lemma GiveUpKeepsAttempt(c: Config, s: State, o: Owners, n: NodeName, k: nat, x: Attempt)
    requires Inv(c, s, o) && LateOk(s, o) && x in s.late && Enabled(c, s, GiveUp(n)) && BurstPremise(s, GiveUp(n))
    ensures Next(c, s, GiveUp(n)).late == s.late
    ensures AttemptOk(Next(c, s, GiveUp(n)), Transfer(c, s, GiveUp(n), o, k), x)
  {
  }

  lemma PatchKeepsLate(c: Config, s: State, o: Owners, a: Action, k: nat)
    requires Inv(c, s, o) && LateOk(s, o) && Enabled(c, s, a) && NamePremise(s, a) && (a.PatchOk? || a.PatchErr?)
    ensures LateOk(Next(c, s, a), Transfer(c, s, a, o, k))
  {
    var n, b := a.node, s.workers[a.node].block;
    PatchShape(c, s, a);
    assert WorkerOk(s, n, s.workers[n], o);
    forall x | x in s.late && (Lands(a) ==> x != Attempt(n, b))
      ensures AttemptOk(Next(c, s, a), Transfer(c, s, a, o, k), x)
    {
      PatchKeepsAttempt(c, s, o, a, k, x);
    }
    if !Lands(a) && !s.workers[n].applied {
      assert forall y :: y in s.late && y.block == b ==> y.node == n;
    }
  }

  lemma PatchKeepsAttempt(c: Config, s: State, o: Owners, a: Action, k: nat, x: Attempt)
    requires Inv(c, s, o) && LateOk(s, o) && Enabled(c, s, a) && NamePremise(s, a) && (a.PatchOk? || a.PatchErr?)
    requires x in s.late && (Lands(a) ==> x != Attempt(a.node, s.workers[a.node].block))
    ensures AttemptOk(Next(c, s, a), Transfer(c, s, a, o, k), x)
  {
    PatchShape(c, s, a);
    assert AttemptOk(s, o, x) && WorkerOk(s, a.node, s.workers[a.node], o);
    if x.node in s.workers {
      assert WorkerOk(s, x.node, s.workers[x.node], o) && Owns(c, s, o[x.block], x.block);
    }
  }

  lemma LateLandKeepsLate(c: Config, s: State, o: Owners, n: NodeName, b: Block, k: nat)
    requires Inv(c, s, o) && LateOk(s, o) && Enabled(c, s, LateLand(n, b)) && NamePremise(s, LateLand(n, b))
    ensures LateOk(Next(c, s, LateLand(n, b)), Transfer(c, s, LateLand(n, b), o, k))
  {
  }

  lemma StepKeepsLate(c: Config, s: State, o: Owners, a: Action, k: nat)
    requires Inv(c, s, o) && LateOk(s, o) && Enabled(c, s, a) && BurstPremise(s, a) && NamePremise(s, a)
    ensures LateOk(Next(c, s, a), Transfer(c, s, a, o, k))
  {
    if a.PatchOk? || a.PatchErr? {
      PatchKeepsLate(c, s, o, a, k);
    } else if a.LateLand? {
      LateLandKeepsLate(c, s, o, a.node, a.block, k);
    } else {
      forall x | x in s.late
        ensures AttemptOk(Next(c, s, a), Transfer(c, s, a, o, k), x)
      {
        if a.GiveUp? {
          GiveUpKeepsAttempt(c, s, o, a.node, k, x);
        } else {
          OtherStepKeepsAttempt(c, s, o, a, k, x);
        }
      }
      assert Next(c, s, a).late == s.late;
    }
  }
}
