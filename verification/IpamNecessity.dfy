/**
 * Why the premises of the safety theorem are there.  The release decision of updateCIDRsAllocation looks
 * at the last error only, and a patch is addressed by node name only: when either premise is broken a
 * continuation exists, with every other premise respected, that ends with one block on two nodes.
 */
module IpamNecessity {
  import opened Wrappers
  import opened IpamProtocol

  /** A list of actions. */
  datatype Script = End | Then(action: Action, rest: Script)

  function Actions(x: Script): seq<Action> {
    match x
    case End => []
    case Then(a, rest) => [a] + Actions(rest)
  }

  function Join(x: Script, y: Script): Script {
    match x
    case End => y
    case Then(a, rest) => Then(a, Join(rest, y))
  }

  /** The action is enabled, takes the state to the next one, and breaks neither premise. */
  predicate Step(c: Config, s: State, a: Action, t: State) {
    Enabled(c, s, a) && BurstPremise(s, a) && NamePremise(s, a) && t == Next(c, s, a)
  }

  /** The actions are enabled in turn and lead from one state to the other, and both premises hold at each of them. */
  ghost predicate Leads(c: Config, s: State, x: Script, t: State)
    decreases x
  {
    match x
    case End => s == t
    case Then(a, rest) => exists m :: Step(c, s, a, m) && Leads(c, m, rest, t)
  }

  lemma {:induction false} LeadsThen(c: Config, s: State, a: Action, m: State, rest: Script, t: State)
    requires Step(c, s, a, m) && Leads(c, m, rest, t)
    ensures Leads(c, s, Then(a, rest), t)
  {
  }

  lemma {:induction false} LeadsThree(c: Config, s: State, a1: Action, s1: State, a2: Action, s2: State, a3: Action,
                                      s3: State)
    requires Step(c, s, a1, s1) && Step(c, s1, a2, s2) && Step(c, s2, a3, s3)
    ensures Leads(c, s, Then(a1, Then(a2, Then(a3, End))), s3)
  {
    LeadsThen(c, s2, a3, s3, End, s3);
    LeadsThen(c, s1, a2, s2, Then(a3, End), s3);
    LeadsThen(c, s, a1, s1, Then(a2, Then(a3, End)), s3);
  }

  lemma {:induction false} LeadsJoin(c: Config, s: State, x: Script, t: State, y: Script, u: State)
    requires Leads(c, s, x, t) && Leads(c, t, y, u)
    ensures Leads(c, s, Join(x, y), u)
    decreases x
  {
    match x
    case End =>
    case Then(a, rest) =>
      var m :| Step(c, s, a, m) && Leads(c, m, rest, t);
      LeadsJoin(c, m, rest, t, y, u);
      LeadsThen(c, s, a, m, Join(rest, y), u);
  }

  lemma {:induction false} LeadsOn(c: Config, s: State, x: Script, t: State, a: Action, u: State)
    requires Leads(c, s, x, t) && Step(c, t, a, u)
    ensures Leads(c, s, Join(x, Then(a, End)), u)
  {
    LeadsThen(c, t, a, u, End, u);
    LeadsJoin(c, s, x, t, Then(a, End), u);
  }

  /** A script that leads somewhere from a starting state is a run that respects both premises. */
  lemma {:induction false} LeadsIsRun(c: Config, s: State, x: Script, t: State) returns (states: seq<State>)
    requires Init(c, s) && Leads(c, s, x, t)
    ensures IsRun(c, states, Actions(x)) && Premises(states, Actions(x))
    ensures states[0] == s && states[|Actions(x)|] == t
  {
    states := LeadsStates(c, s, x, t);
    var actions := Actions(x);
    forall i | 0 <= i < |actions|
      ensures Enabled(c, states[i], actions[i]) && states[i + 1] == Next(c, states[i], actions[i])
      ensures BurstPremise(states[i], actions[i]) && NamePremise(states[i], actions[i])
    {
      assert Step(c, states[i], actions[i], states[i + 1]);
    }
  }

  lemma {:induction false} LeadsStates(c: Config, s: State, x: Script, t: State) returns (states: seq<State>)
    requires Leads(c, s, x, t)
    ensures |states| == |Actions(x)| + 1 && states[0] == s && states[|Actions(x)|] == t
    ensures forall i :: 0 <= i < |Actions(x)| ==> Step(c, states[i], Actions(x)[i], states[i + 1])
    decreases x
  {
    match x
    case End => states := [s];
    case Then(a, rest) =>
      var m :| Step(c, s, a, m) && Leads(c, m, rest, t);
      var more := LeadsStates(c, m, rest, t);
      states := [s] + more;
      forall i | 0 <= i < |Actions(x)|
        ensures Step(c, states[i], Actions(x)[i], states[i + 1])
      {
        if i > 0 {
          assert Step(c, more[i - 1], Actions(rest)[i - 1], more[i]);
        }
      }
  }

  /** The actions by which a new node comes to the attention of a worker, and then obtains a free block. */
  function Arrive(m: NodeName): Script {
    Then(CreateNode(m), Then(Deliver(m), Then(StartSync(m), End)))
  }

  function Take(m: NodeName, b: Block): Script {
    Then(Allocate(m, b), Then(BeginPatch(m), End))
  }

  function Obtain(m: NodeName, b: Block): Script {
    Join(Take(m, b), Then(PatchOk(m), End))
  }

  function WithLog(s: State, m: NodeName, versions: seq<Object>, seen: nat): State {
    s.(nodes := s.nodes[m := NodeLog(versions, seen)])
  }

  function WithWorker(s: State, m: NodeName, w: Worker): State {
    s.(workers := s.workers[m := w])
  }

  lemma DeliverCreated(c: Config, s: State, m: NodeName)
    ensures Step(c, WithLog(s, m, [Absent, Present(None)], 0), Deliver(m), WithLog(s, m, [Absent, Present(None)], 1))
  {
  }

  lemma {:induction false} ArriveFresh(c: Config, s: State, m: NodeName)
    requires m !in s.nodes && m !in s.workers && |s.workers| < WORKERS
    ensures Leads(c, s, Arrive(m), WithWorker(WithLog(s, m, [Absent, Present(None)], 1), m, Read(1)))
  {
    DeliverCreated(c, s, m);
    var s1, s2 := WithLog(s, m, [Absent, Present(None)], 0), WithLog(s, m, [Absent, Present(None)], 1);
    LeadsThree(c, s, CreateNode(m), s1, Deliver(m), s2, StartSync(m), WithWorker(s2, m, Read(1)));
  }

  /** The state in which a worker holds a block it has yet to patch. */
  function Took(s: State, m: NodeName, b: Block): State {
    WithWorker(s.(used := s.used + {b}), m, Patching(b, 0, false, false))
  }

  lemma {:induction false} TakeFree(c: Config, s: State, m: NodeName, b: Block)
    requires b < c.count && b !in s.used
    requires m in s.nodes && s.nodes[m] == NodeLog([Absent, Present(None)], 1) && m in s.workers
    requires s.workers[m] == Read(1)
    ensures Leads(c, s, Take(m, b), Took(s, m, b))
  {
    var s1 := WithWorker(s.(used := s.used + {b}), m, Holding(b));
    assert Step(c, s, Allocate(m, b), s1);
    assert Step(c, s1, BeginPatch(m), Took(s, m, b)) by {
      assert s1.workers[m := Patching(b, 0, false, false)] == Took(s, m, b).workers;
    }
    LeadsThen(c, s1, BeginPatch(m), Took(s, m, b), End, Took(s, m, b));
    LeadsThen(c, s, Allocate(m, b), s1, Then(BeginPatch(m), End), Took(s, m, b));
  }

  lemma {:induction false} PatchTaken(c: Config, s: State, m: NodeName, b: Block)
    requires m in s.nodes && s.nodes[m] == NodeLog([Absent, Present(None)], 1) && Attempt(m, b) !in s.late
    ensures var t := Took(s, m, b);
            Step(c, t, PatchOk(m), Finish(WithLog(t, m, [Absent, Present(None), Present(Some(b))], 1), m))
  {
    assert [Absent, Present(None)] + [Present(Some(b))] == [Absent, Present(None), Present(Some(b))];
  }

  lemma {:induction false} ObtainFree(c: Config, s: State, m: NodeName, b: Block)
    requires b < c.count && b !in s.used && Attempt(m, b) !in s.late
    requires m in s.nodes && s.nodes[m] == NodeLog([Absent, Present(None)], 1) && m in s.workers
    requires s.workers[m] == Read(1)
    ensures var u := WithLog(Took(s, m, b), m, [Absent, Present(None), Present(Some(b))], 1);
            Leads(c, s, Obtain(m, b), Finish(u, m))
  {
    var t := Took(s, m, b);
    var u := Finish(WithLog(t, m, [Absent, Present(None), Present(Some(b))], 1), m);
    TakeFree(c, s, m, b);
    PatchTaken(c, s, m, b);
    LeadsOn(c, s, Take(m, b), t, PatchOk(m), u);
  }

  /** The state in which a new node has been given a block. */
  function Assigned(s: State, m: NodeName, b: Block): State {
    WithLog(s.(used := s.used + {b}), m, [Absent, Present(None), Present(Some(b))], 1)
  }

  /** A name that no node, worker or pending request has. */
  predicate Unused(s: State, m: NodeName) {
    m !in s.nodes && m !in s.workers && forall x :: x in s.late ==> x.node != m
  }

  /** A free block can be brought onto a new node. */
  lemma {:induction false} AssignFree(c: Config, s: State, m: NodeName, b: Block)
    requires b < c.count && b !in s.used && Unused(s, m) && |s.workers| < WORKERS
    ensures Leads(c, s, Join(Arrive(m), Obtain(m, b)), Assigned(s, m, b))
  {
    var t := WithWorker(WithLog(s, m, [Absent, Present(None)], 1), m, Read(1));
    ArriveFresh(c, s, m);
    ObtainFree(c, t, m, b);
    SameAssigned(s, m, b);
    LeadsJoin(c, s, Arrive(m), t, Obtain(m, b), Assigned(s, m, b));
  }

  lemma SameAssigned(s: State, m: NodeName, b: Block)
    requires m !in s.workers
    ensures var t := WithWorker(WithLog(s, m, [Absent, Present(None)], 1), m, Read(1));
            Finish(WithLog(Took(t, m, b), m, [Absent, Present(None), Present(Some(b))], 1), m) == Assigned(s, m, b)
  {
  }

  // ---------------------------------------------------------------------------
  // Blocks whose release is still to come
  // ---------------------------------------------------------------------------

  /** The API server and the workers are as before, and only this block has been released. */
  ghost predicate OnlyReleased(s: State, t: State, b: Block) {
    && t.workers == s.workers && t.used == s.used - {b} && t.late == s.late && t.stale == s.stale
    && t.nodes.Keys == s.nodes.Keys && forall n :: n in s.nodes ==> t.nodes[n].versions == s.nodes[n].versions
  }

  lemma {:induction false} NoticeHandled(c: Config, s: State, b: Block) returns (x: Script, t: State)
    requires b in s.notices
    ensures Leads(c, s, x, t) && OnlyReleased(s, t, b)
  {
    t := Next(c, s, HandleDelete(b));
    x := Then(HandleDelete(b), End);
    LeadsThen(c, s, HandleDelete(b), t, End, t);
  }

  /** Only the log of one name has changed, and perhaps which deletions have been announced. */
  ghost predicate OnlyLog(s: State, t: State, p: NodeName) {
    && t.workers == s.workers && t.used == s.used && t.late == s.late && t.stale == s.stale && p in t.nodes
    && t.nodes.Keys == s.nodes.Keys + {p} && forall m :: m in s.nodes && m != p ==> t.nodes[m] == s.nodes[m]
  }

  lemma OnlyLogTwice(s: State, t: State, u: State, p: NodeName)
    requires OnlyLog(s, t, p) && OnlyLog(t, u, p)
    ensures OnlyLog(s, u, p)
  {
  }

  lemma Delivered(c: Config, s: State, p: NodeName) returns (t: State)
    requires p in s.nodes && s.nodes[p].seen + 1 < |s.nodes[p].versions|
    ensures Step(c, s, Deliver(p), t) && OnlyLog(s, t, p)
    ensures t.nodes[p] == NodeLog(s.nodes[p].versions, s.nodes[p].seen + 1)
    ensures t.notices == s.notices + Announced(s.nodes[p])
  {
    t := Next(c, s, Deliver(p));
  }

  lemma {:induction false} DeletionDelivered(c: Config, s: State, p: NodeName, i: nat, b: Block)
    returns (x: Script, t: State)
    requires DeletedAt(s, p, i, b)
    ensures Leads(c, s, x, t) && OnlyReleased(s, t, b)
    decreases i - s.nodes[p].seen
  {
    var u := Delivered(c, s, p);
    var rest;
    if s.nodes[p].seen == i {
      rest, t := NoticeHandled(c, u, b);
    } else {
      rest, t := DeletionDelivered(c, u, p, i, b);
    }
    x := Then(Deliver(p), rest);
    LeadsThen(c, s, Deliver(p), u, rest, t);
  }

  lemma {:induction false} DeletionFinishes(c: Config, s: State, b: Block) returns (x: Script, t: State)
    requires AwaitsDeletion(s, b)
    ensures Leads(c, s, x, t) && OnlyReleased(s, t, b)
  {
    if b in s.notices {
      x, t := NoticeHandled(c, s, b);
    } else {
      var p :| p in s.nodes && exists i :: 0 <= i < |s.nodes[p].versions| && DeletedAt(s, p, i, b);
      var i :| 0 <= i < |s.nodes[p].versions| && DeletedAt(s, p, i, b);
      x, t := DeletionDelivered(c, s, p, i, b);
    }
  }

  // ---------------------------------------------------------------------------
  // Every claim on a block that a node already has can be made good
  // ---------------------------------------------------------------------------

  lemma Deleted(c: Config, s: State, p: NodeName) returns (t: State)
    requires Stored(s, p).Present? && s.nodes[p].seen < |s.nodes[p].versions|
    ensures Step(c, s, DeleteNode(p), t) && OnlyLog(s, t, p) && Stored(t, p) == Absent
    ensures t.nodes[p].seen < |t.nodes[p].versions|
  {
    t := Next(c, s, DeleteNode(p));
  }

  lemma Created(c: Config, s: State, p: NodeName) returns (t: State)
    requires Stored(s, p) == Absent && (p in s.nodes ==> s.nodes[p].seen < |s.nodes[p].versions|)
    ensures Step(c, s, CreateNode(p), t) && OnlyLog(s, t, p) && Stored(t, p) == Present(None)
    ensures t.nodes[p].seen < |t.nodes[p].versions|
  {
    t := Next(c, s, CreateNode(p));
  }

  /** A name can be brought to stand for a node without a block. */
  lemma {:induction false} Renew(c: Config, s: State, p: NodeName) returns (x: Script, t: State)
    requires p in s.nodes ==> s.nodes[p].seen < |s.nodes[p].versions|
    ensures Leads(c, s, x, t) && OnlyLog(s, t, p) && Stored(t, p) == Present(None)
    ensures t.nodes[p].seen < |t.nodes[p].versions|
  {
    if Stored(s, p) == Present(None) {
      x, t := End, s;
    } else if Stored(s, p) == Absent {
      t := Created(c, s, p);
      x := Then(CreateNode(p), End);
      LeadsThen(c, s, CreateNode(p), t, End, t);
    } else {
      var u := Deleted(c, s, p);
      t := Created(c, u, p);
      OnlyLogTwice(s, u, t, p);
      x := Then(DeleteNode(p), Then(CreateNode(p), End));
      LeadsThen(c, u, CreateNode(p), t, End, t);
      LeadsThen(c, s, DeleteNode(p), u, Then(CreateNode(p), End), t);
    }
  }

  /** The informer catches up on a name. */
  lemma {:induction false} CatchUp(c: Config, s: State, p: NodeName) returns (x: Script, t: State)
    requires p in s.nodes && s.nodes[p].seen < |s.nodes[p].versions|
    ensures Leads(c, s, x, t) && OnlyLog(s, t, p) && Stored(t, p) == Stored(s, p) == Listed(t, p)
    decreases |s.nodes[p].versions| - s.nodes[p].seen
  {
    if s.nodes[p].seen + 1 == |s.nodes[p].versions| {
      x, t := End, s;
    } else {
      var u := Delivered(c, s, p);
      var rest;
      rest, t := CatchUp(c, u, p);
      OnlyLogTwice(s, u, t, p);
      x := Then(Deliver(p), rest);
      LeadsThen(c, s, Deliver(p), u, rest, t);
    }
  }

  /** The worker has the block in flight and an attempt left to write it. */
  predicate CanStillWrite(s: State, p: NodeName, b: Block) {
    InFlightOf(s, p, b) && (s.workers[p].Patching? ==> s.workers[p].attempts < RETRIES)
  }

  lemma {:induction false} WriterLands(c: Config, s: State, p: NodeName, b: Block) returns (x: Script, t: State)
    requires CanStillWrite(s, p, b) && (p in s.nodes ==> s.nodes[p].seen < |s.nodes[p].versions|)
    ensures Leads(c, s, x, t) && Stored(t, p) == Present(Some(b))
    ensures forall m :: m != p ==> Stored(t, m) == Stored(s, m)
  {
    var y, u := Renew(c, s, p);
    var z, v, w := End, u, u;
    if s.workers[p].Holding? {
      z, v := CatchUp(c, u, p);
      w := Next(c, v, BeginPatch(p));
      LeadsOn(c, u, z, v, BeginPatch(p), w);
      z := Join(z, Then(BeginPatch(p), End));
    }
    LeadsJoin(c, s, y, u, z, w);
    t := Next(c, w, PatchOk(p));
    WriteLands(c, w, p, b);
    x := Join(Join(y, z), Then(PatchOk(p), End));
    LeadsOn(c, s, Join(y, z), w, PatchOk(p), t);
  }

  lemma WriteLands(c: Config, s: State, p: NodeName, b: Block)
    requires CanStillWrite(s, p, b) && s.workers[p].Patching? && Stored(s, p) == Present(None)
    ensures Step(c, s, PatchOk(p), Next(c, s, PatchOk(p))) && Stored(Next(c, s, PatchOk(p)), p) == Present(Some(b))
    ensures forall m :: m != p ==> Stored(Next(c, s, PatchOk(p)), m) == Stored(s, m)
  {
  }

  lemma {:induction false} LateRequestLands(c: Config, s: State, p: NodeName, b: Block) returns (x: Script, t: State)
    requires Attempt(p, b) in s.late && (p in s.nodes ==> s.nodes[p].seen < |s.nodes[p].versions|)
    ensures Leads(c, s, x, t) && Stored(t, p) == Present(Some(b))
    ensures forall m :: m != p ==> Stored(t, m) == Stored(s, m)
  {
    var y, u := Renew(c, s, p);
    t := Next(c, u, LateLand(p, b));
    LateLands(c, u, p, b);
    x := Join(y, Then(LateLand(p, b), End));
    LeadsOn(c, s, y, u, LateLand(p, b), t);
  }

  lemma LateLands(c: Config, s: State, p: NodeName, b: Block)
    requires Attempt(p, b) in s.late && Stored(s, p) == Present(None)
    ensures Step(c, s, LateLand(p, b), Next(c, s, LateLand(p, b)))
    ensures Stored(Next(c, s, LateLand(p, b)), p) == Present(Some(b))
    ensures forall m :: m != p ==> Stored(Next(c, s, LateLand(p, b)), m) == Stored(s, m)
  {
  }

  lemma {:induction false} DeletionFreesAgain(c: Config, s: State, q: NodeName, b: Block) returns (x: Script, t: State)
    requires AwaitsDeletion(s, b) && b < c.count && Unused(s, q) && |s.workers| < WORKERS
    ensures Leads(c, s, x, t) && Stored(t, q) == Present(Some(b))
    ensures forall m :: m != q ==> Stored(t, m) == Stored(s, m)
  {
    var y, u := DeletionFinishes(c, s, b);
    AssignFree(c, u, q, b);
    t := Assigned(u, q, b);
    x := Join(y, Join(Arrive(q), Obtain(q, b)));
    LeadsJoin(c, s, y, u, Join(Arrive(q), Obtain(q, b)), t);
  }

  /** Somebody other than node `m` has the block, or can come to have it. */
  ghost predicate OtherClaim(s: State, m: NodeName, b: Block) {
    || (exists p :: p != m && Stored(s, p) == Present(Some(b)))
    || AwaitsDeletion(s, b)
    || (exists p :: p != m && CanStillWrite(s, p, b))
    || (exists p :: p != m && Attempt(p, b) in s.late)
  }

  ghost predicate LogsWithin(s: State) {
    forall p :: p in s.nodes ==> s.nodes[p].seen < |s.nodes[p].versions|
  }

  /** If a block is on a node and another claim on it is left, it can come to be on two nodes. */
  lemma {:induction false} ClaimMadeGood(c: Config, s: State, m: NodeName, b: Block, q: NodeName)
    returns (x: Script, t: State, p: NodeName)
    requires Stored(s, m) == Present(Some(b)) && OtherClaim(s, m, b) && b < c.count && LogsWithin(s)
    requires q != m && Unused(s, q) && |s.workers| < WORKERS
    ensures Leads(c, s, x, t) && p != m && Stored(t, m) == Stored(t, p) == Present(Some(b))
  {
    if w :| w != m && Stored(s, w) == Present(Some(b)) {
      x, t, p := End, s, w;
    } else if AwaitsDeletion(s, b) {
      x, t := DeletionFreesAgain(c, s, q, b);
      p := q;
    } else if w :| w != m && CanStillWrite(s, w, b) {
      x, t := WriterLands(c, s, w, b);
      p := w;
    } else {
      var w :| w != m && Attempt(w, b) in s.late;
      x, t := LateRequestLands(c, s, w, b);
      p := w;
    }
  }

  // ---------------------------------------------------------------------------
  // Broken premises
  // ---------------------------------------------------------------------------

  /** The claims of BurstPremise, but for that of a worker with no attempt left. */
  ghost predicate LiveClaim(s: State, n: NodeName, b: Block) {
    || StoredSomewhere(s, b) || AwaitsDeletion(s, b) || StillToLand(s, b)
    || exists p :: p != n && CanStillWrite(s, p, b)
  }

  /**
   * Whenever a burst is given up and releases its block although somebody else has a claim on it, the block can come
   * to be on two nodes.
   */
  lemma {:induction false} BurstPremiseNeeded(c: Config, s: State, n: NodeName, m: NodeName, q: NodeName)
    returns (x: Script, t: State, p: NodeName)
    requires Enabled(c, s, GiveUp(n)) && !s.workers[n].timedOut && LiveClaim(s, n, s.workers[n].block)
    requires s.workers[n].block < c.count && LogsWithin(s) && |s.workers| <= WORKERS
    requires m != q && Unused(s, m) && Unused(s, q)
    ensures !BurstPremise(s, GiveUp(n)) && Leads(c, Next(c, s, GiveUp(n)), x, t)
    ensures p != m && Stored(t, m) == Stored(t, p) == Present(Some(s.workers[n].block))
  {
    var b := s.workers[n].block;
    ClaimIsClaim(s, n, b);
    var u := GivenUp(c, s, n);
    AssignFree(c, u, m, b);
    var v := Assigned(u, m, b);
    ClaimStays(s, n, b, u, m);
    var y;
    y, t, p := ClaimMadeGood(c, v, m, b, q);
    x := Join(Join(Arrive(m), Obtain(m, b)), y);
    LeadsJoin(c, u, Join(Arrive(m), Obtain(m, b)), v, y, t);
  }

  lemma ClaimIsClaim(s: State, n: NodeName, b: Block)
    requires LiveClaim(s, n, b)
    ensures Claimed(s, n, b)
  {
    if p :| p != n && CanStillWrite(s, p, b) {
      assert InFlightOf(s, p, b);
    }
  }

  lemma GivenUp(c: Config, s: State, n: NodeName) returns (t: State)
    requires Enabled(c, s, GiveUp(n)) && !s.workers[n].timedOut && |s.workers| <= WORKERS
    ensures t == Next(c, s, GiveUp(n)) && |t.workers| < WORKERS && s.workers[n].block !in t.used
    ensures t.nodes == s.nodes && t.notices == s.notices && t.late == s.late && t.workers == s.workers - {n}
  {
    t := Next(c, s, GiveUp(n));
    assert t.workers.Keys == s.workers.Keys - {n};
  }

  /** The claim is still there when the block has been released and given to a new node. */
  lemma ClaimStays(s: State, n: NodeName, b: Block, u: State, m: NodeName)
    requires LiveClaim(s, n, b) && Unused(s, m)
    requires u.nodes == s.nodes && u.notices == s.notices && u.late == s.late && u.workers == s.workers - {n}
    ensures OtherClaim(Assigned(u, m, b), m, b)
  {
    var v := Assigned(u, m, b);
    if p :| p in s.nodes && Stored(s, p) == Present(Some(b)) {
      assert Stored(v, p) == Present(Some(b));
    } else if AwaitsDeletion(s, b) {
      StillAwaits(s, v, m, b);
    } else if y :| y in s.late && y.block == b {
      assert Attempt(y.node, b) in v.late;
    } else {
      var p :| p != n && CanStillWrite(s, p, b);
      assert CanStillWrite(v, p, b);
    }
  }

  lemma StillAwaits(s: State, v: State, m: NodeName, b: Block)
    requires AwaitsDeletion(s, b) && v.notices == s.notices && m !in s.nodes && s.nodes.Keys <= v.nodes.Keys
    requires forall p :: p in s.nodes ==> v.nodes[p] == s.nodes[p]
    ensures AwaitsDeletion(v, b)
  {
    if b !in s.notices {
      var p :| p in s.nodes && exists i :: 0 <= i < |s.nodes[p].versions| && DeletedAt(s, p, i, b);
      var i :| 0 <= i < |s.nodes[p].versions| && DeletedAt(s, p, i, b);
      assert DeletedAt(v, p, i, b);
    }
  }

  /** The block a landing request writes. */
  function Written(s: State, a: Action): Block
    requires a.LateLand? || (a.PatchOk? && a.node in s.workers && s.workers[a.node].Patching?)
  {
    if a.LateLand? then a.block else s.workers[a.node].block
  }

  /**
   * Whenever a request of a burst that has already written its node can land on the name after it was deleted and
   * created again, and the block is free or somebody else has a claim on it, the block can come to be on two nodes.
   */
  lemma {:induction false} NamePremiseNeeded(c: Config, s: State, a: Action, m: NodeName)
    returns (x: Script, t: State, y: Script, u: State, p: NodeName)
    requires (a.PatchOk? || a.LateLand?) && Enabled(c, s, a) && !NamePremise(s, a) && Written(s, a) < c.count
    requires Written(s, a) !in s.used || OtherClaim(s, a.node, Written(s, a))
    requires LogsWithin(s) && Unused(s, m) && |s.workers| < WORKERS
    ensures Leads(c, s, x, t) && Enabled(c, t, a) && Leads(c, Next(c, t, a), y, u)
    ensures p != a.node && Stored(u, a.node) == Stored(u, p) == Present(Some(Written(s, a)))
    ensures Written(s, a) !in s.used ==> p == m
  {
    var b := Written(s, a);
    if b !in s.used || AwaitsDeletion(s, b) {
      var z, v := End, s;
      if b in s.used {
        z, v := DeletionFinishes(c, s, b);
      }
      AssignFree(c, v, m, b);
      t := Assigned(v, m, b);
      x := Join(z, Join(Arrive(m), Obtain(m, b)));
      LeadsJoin(c, s, z, v, Join(Arrive(m), Obtain(m, b)), t);
      LandsBeside(c, s, v, a, m);
      y, u, p := End, Next(c, t, a), m;
    } else {
      x, t := End, s;
      LandsAmidClaims(c, s, a, b, m);
      y, u, p := ClaimMadeGood(c, Next(c, s, a), a.node, b, m);
    }
  }

  /** The request still lands when the block has been given to another node meanwhile. */
  lemma LandsBeside(c: Config, s: State, v: State, a: Action, m: NodeName)
    requires (a.PatchOk? || a.LateLand?) && Enabled(c, s, a) && !NamePremise(s, a) && Unused(s, m)
    requires v == s || OnlyReleased(s, v, Written(s, a))
    ensures var t := Assigned(v, m, Written(s, a));
            && Enabled(c, t, a) && a.node != m
            && Stored(Next(c, t, a), a.node) == Stored(Next(c, t, a), m) == Present(Some(Written(s, a)))
  {
  }

  /** The request lands, and the claims of others stay. */
  lemma LandsAmidClaims(c: Config, s: State, a: Action, b: Block, m: NodeName)
    requires (a.PatchOk? || a.LateLand?) && Enabled(c, s, a) && !NamePremise(s, a) && b == Written(s, a)
    requires OtherClaim(s, a.node, b) && !AwaitsDeletion(s, b) && LogsWithin(s) && Unused(s, m)
    requires |s.workers| < WORKERS
    ensures var u := Next(c, s, a);
            && Stored(u, a.node) == Present(Some(b)) && OtherClaim(u, a.node, b) && LogsWithin(u)
            && m != a.node && Unused(u, m) && |u.workers| < WORKERS
  {
    var u := Next(c, s, a);
    LandEffect(c, s, a);
    WorkersFewer(s.workers.Keys, u.workers.Keys);
    if p :| p != a.node && Stored(s, p) == Present(Some(b)) {
      assert Stored(u, p) == Present(Some(b));
    } else if p :| p != a.node && CanStillWrite(s, p, b) {
      assert CanStillWrite(u, p, b);
    } else {
      var p :| p != a.node && Attempt(p, b) in s.late;
      assert Attempt(p, b) in u.late;
    }
  }

  lemma LandEffect(c: Config, s: State, a: Action)
    requires (a.PatchOk? || a.LateLand?) && Enabled(c, s, a) && Stored(s, a.node) == Present(None)
    ensures var u := Next(c, s, a);
            && Stored(u, a.node) == Present(Some(Written(s, a)))
            && (forall m :: m != a.node ==> Stored(u, m) == Stored(s, m))
            && (forall m :: m != a.node && m in s.workers ==> m in u.workers && u.workers[m] == s.workers[m])
            && u.workers.Keys <= s.workers.Keys && u.nodes.Keys == s.nodes.Keys && u.late <= s.late
            && (forall x :: x in s.late && x.node != a.node ==> x in u.late)
            && (LogsWithin(s) ==> LogsWithin(u))
  {
  }

  lemma WorkersFewer(a: set<NodeName>, b: set<NodeName>)
    requires b <= a
    ensures |b| <= |a|
  {
    if b != a {
      var x :| x in a && x !in b;
      WorkersFewer(a - {x}, b);
    }
  }

  // ---------------------------------------------------------------------------
  // Both situations are reached from an empty cluster with one block
  // ---------------------------------------------------------------------------

  const ONE := Config(1, {})
  const EMPTY := State(map[], {}, map[], {}, {}, {})

  /** A first attempt is applied and answered with a timeout. */
  function FirstAttempt(n: NodeName): Script {
    Join(Arrive(n), Join(Take(n, 0), Then(PatchErr(n, Landed, true), End)))
  }

  /** One block, held by the node a worker is still patching. */
  function Retrying(n: NodeName, attempts: nat, timedOut: bool): State {
    State(map[n := NodeLog([Absent, Present(None), Present(Some(0))], 1)], {0},
          map[n := Patching(0, attempts, true, timedOut)], {}, {}, {})
  }

  /** The only node has been read by a worker. */
  function Arrived(n: NodeName): State {
    WithWorker(WithLog(EMPTY, n, [Absent, Present(None)], 1), n, Read(1))
  }

  lemma {:induction false} FirstAttemptTimesOut(n: NodeName)
    ensures Step(ONE, Took(Arrived(n), n, 0), PatchErr(n, Landed, true), Retrying(n, 1, true))
  {
    var t, r := Took(Arrived(n), n, 0), Retrying(n, 1, true);
    assert t.nodes[n].versions + [Present(Some(0))] == r.nodes[n].versions;
    assert t.nodes[n := r.nodes[n]] == r.nodes && t.workers[n := r.workers[n]] == r.workers;
  }

  lemma {:induction false} AfterFirstAttempt(n: NodeName)
    ensures Leads(ONE, EMPTY, FirstAttempt(n), Retrying(n, 1, true))
  {
    var s, t, r, e := Arrived(n), Took(Arrived(n), n, 0), Retrying(n, 1, true), PatchErr(n, Landed, true);
    ArriveFresh(ONE, EMPTY, n);
    TakeFree(ONE, s, n, 0);
    FirstAttemptTimesOut(n);
    LeadsOn(ONE, s, Take(n, 0), t, e, r);
    LeadsJoin(ONE, EMPTY, Arrive(n), s, Join(Take(n, 0), Then(e, End)), r);
  }

  lemma {:induction false} FailsAgain(n: NodeName, attempts: nat, timedOut: bool)
    requires attempts < RETRIES
    ensures Step(ONE, Retrying(n, attempts, timedOut), PatchErr(n, Lost, false), Retrying(n, attempts + 1, false))
  {
  }

  /** Two more attempts fail with another error: the release decision no longer sees the timeout. */
  lemma {:induction false} BurstSituationReached(n: NodeName) returns (x: Script, s: State)
    ensures Init(ONE, EMPTY) && Leads(ONE, EMPTY, x, s)
    ensures Enabled(ONE, s, GiveUp(n)) && !BurstPremise(s, GiveUp(n)) && Stored(s, n) == Present(Some(0))
    ensures s.workers[n].block == 0 && s.nodes.Keys == s.workers.Keys == {n} && s.late == {}
    ensures !s.workers[n].timedOut
  {
    var e := PatchErr(n, Lost, false);
    var u, v := Retrying(n, 1, true), Retrying(n, 2, false);
    s := Retrying(n, 3, false);
    AfterFirstAttempt(n);
    FailsAgain(n, 1, true);
    FailsAgain(n, 2, false);
    LeadsThen(ONE, v, e, s, End, s);
    LeadsThen(ONE, u, e, v, Then(e, End), s);
    x := Join(FirstAttempt(n), Then(e, Then(e, End)));
    LeadsJoin(ONE, EMPTY, FirstAttempt(n), u, Then(e, Then(e, End)), s);
  }

  function Vanish(n: NodeName, b: Block): Script {
    Then(DeleteNode(n), Then(Deliver(n), Then(Deliver(n), Then(HandleDelete(b), End))))
  }

  /** The informer delivers a deletion and its handler releases the block. */
  lemma {:induction false} DeletionReleases(c: Config, s: State, n: NodeName, versions: seq<Object>, seen: nat,
                                            b: Block)
    requires n in s.nodes && s.nodes[n] == NodeLog(versions, seen) && s.notices == {}
    requires seen + 2 == |versions| && versions[seen] == Present(Some(b)) && versions[seen + 1] == Absent
    ensures Leads(c, s, Then(Deliver(n), Then(HandleDelete(b), End)), WithLog(Release(s, b), n, versions, seen + 1))
  {
    var s1 := WithLog(s.(notices := {b}), n, versions, seen + 1);
    var s2 := WithLog(Release(s, b), n, versions, seen + 1);
    assert Step(c, s, Deliver(n), s1);
    assert Step(c, s1, HandleDelete(b), s2);
    LeadsThen(c, s1, HandleDelete(b), s2, End, s2);
    LeadsThen(c, s, Deliver(n), s1, Then(HandleDelete(b), End), s2);
  }

  lemma {:induction false} VanishReleases(c: Config, s: State, n: NodeName, b: Block)
    requires n in s.nodes && s.nodes[n] == NodeLog([Absent, Present(None), Present(Some(b))], 1) && s.notices == {}
    ensures Leads(c, s, Vanish(n, b), WithLog(Release(s, b), n, [Absent, Present(None), Present(Some(b)), Absent], 3))
  {
    var v := [Absent, Present(None), Present(Some(b)), Absent];
    var s1, s2, t := WithLog(s, n, v, 1), WithLog(s, n, v, 2), WithLog(Release(s, b), n, v, 3);
    assert Step(c, s, DeleteNode(n), s1) by {
      assert s.nodes[n].versions + [Absent] == v;
    }
    assert Step(c, s1, Deliver(n), s2) by {
      assert s1.nodes[n := NodeLog(v, 2)] == s2.nodes;
    }
    DeletionReleases(c, s2, n, v, 2, b);
    assert WithLog(Release(s2, b), n, v, 3) == t by {
      assert s2.nodes[n := NodeLog(v, 3)] == t.nodes;
    }
    var x := Then(Deliver(n), Then(HandleDelete(b), End));
    LeadsThen(c, s1, Deliver(n), s2, x, t);
    LeadsThen(c, s, DeleteNode(n), s1, Then(Deliver(n), x), t);
  }

  /** The state after the only node was deleted, its block released, and the name created again. */
  function Recreated(n: NodeName): State {
    WithLog(Release(Retrying(n, 1, true), 0), n, [Absent, Present(None), Present(Some(0)), Absent, Present(None)], 3)
  }

  lemma {:induction false} CreatedAgain(n: NodeName)
    ensures var w := WithLog(Release(Retrying(n, 1, true), 0), n, [Absent, Present(None), Present(Some(0)), Absent], 3);
            Step(ONE, w, CreateNode(n), Recreated(n))
    ensures Enabled(ONE, Recreated(n), PatchOk(n)) && !NamePremise(Recreated(n), PatchOk(n))
    ensures Recreated(n).workers[n].block !in Recreated(n).used
  {
    var v := [Absent, Present(None), Present(Some(0)), Absent];
    var w := WithLog(Release(Retrying(n, 1, true), 0), n, v, 3);
    assert v + [Present(None)] == Recreated(n).nodes[n].versions;
    assert w.nodes[n := Recreated(n).nodes[n]] == Recreated(n).nodes;
  }

  /** The node is deleted, its block released, and the name created again before the second attempt. */
  lemma {:induction false} NameSituationReached(n: NodeName) returns (x: Script, s: State)
    ensures Init(ONE, EMPTY) && Leads(ONE, EMPTY, x, s)
    ensures Enabled(ONE, s, PatchOk(n)) && !NamePremise(s, PatchOk(n)) && s.workers[n].block == 0 && 0 !in s.used
    ensures s.nodes.Keys == s.workers.Keys == {n} && s.late == {} && LogsWithin(s)
  {
    var u := Retrying(n, 1, true);
    var w := WithLog(Release(u, 0), n, [Absent, Present(None), Present(Some(0)), Absent], 3);
    s := Recreated(n);
    AfterFirstAttempt(n);
    VanishReleases(ONE, u, n, 0);
    CreatedAgain(n);
    LeadsOn(ONE, u, Vanish(n, 0), w, CreateNode(n), s);
    x := Join(FirstAttempt(n), Join(Vanish(n, 0), Then(CreateNode(n), End)));
    LeadsJoin(ONE, EMPTY, FirstAttempt(n), u, Join(Vanish(n, 0), Then(CreateNode(n), End)), s);
  }

  // ---------------------------------------------------------------------------
  // Whole runs in which one step breaks a premise
  // ---------------------------------------------------------------------------

  /** A run in which every step but the one at `k` respects both premises. */
  ghost predicate RespectedBut(states: seq<State>, actions: seq<Action>, k: nat)
    requires |states| == |actions| + 1
  {
    forall i :: 0 <= i < |actions| && i != k ==>
      BurstPremise(states[i], actions[i]) && NamePremise(states[i], actions[i])
  }

  /** Two sequences of steps, and an action between them. */
  lemma Glued<S, A>(step: (S, A, S) -> bool, before: seq<S>, xs: seq<A>, a: A, after: seq<S>, ys: seq<A>)
    requires |before| == |xs| + 1 && |after| == |ys| + 1
    requires forall i :: 0 <= i < |xs| ==> step(before[i], xs[i], before[i + 1])
    requires forall i :: 0 <= i < |ys| ==> step(after[i], ys[i], after[i + 1])
    ensures var states, actions, k := before + after, xs + [a] + ys, |xs|;
            && states[k] == before[k] && actions[k] == a && states[k + 1] == after[0]
            && forall i :: 0 <= i < |actions| && i != k ==> step(states[i], actions[i], states[i + 1])
  {
    var states, actions, k := before + after, xs + [a] + ys, |xs|;
    forall i | 0 <= i < |actions| && i != k
      ensures step(states[i], actions[i], states[i + 1])
    {
      if i > k {
        assert step(after[i - k - 1], ys[i - k - 1], after[i - k]);
      }
    }
  }

  lemma {:induction false} StepsButOne(c: Config, states: seq<State>, actions: seq<Action>, k: nat)
    requires |states| == |actions| + 1 && k < |actions| && Init(c, states[0])
    requires forall i :: 0 <= i < |actions| && i != k ==> Step(c, states[i], actions[i], states[i + 1])
    requires Enabled(c, states[k], actions[k]) && states[k + 1] == Next(c, states[k], actions[k])
    ensures IsRun(c, states, actions) && RespectedBut(states, actions, k)
  {
    forall i | 0 <= i < |actions| && i != k
      ensures Enabled(c, states[i], actions[i]) && states[i + 1] == Next(c, states[i], actions[i])
      ensures BurstPremise(states[i], actions[i]) && NamePremise(states[i], actions[i])
    {
      assert Step(c, states[i], actions[i], states[i + 1]);
    }
  }

  lemma {:induction false} RunWithOneBreak(c: Config, s: State, x: Script, t: State, a: Action, y: Script, u: State)
    returns (states: seq<State>, actions: seq<Action>)
    requires Init(c, s) && Leads(c, s, x, t) && Enabled(c, t, a) && Leads(c, Next(c, t, a), y, u)
    ensures IsRun(c, states, actions) && states[0] == s && states[|actions|] == u
    ensures |Actions(x)| < |actions| && actions[|Actions(x)|] == a && states[|Actions(x)|] == t
    ensures RespectedBut(states, actions, |Actions(x)|)
  {
    var before := LeadsStates(c, s, x, t);
    var after := LeadsStates(c, Next(c, t, a), y, u);
    states, actions := before + after, Actions(x) + [a] + Actions(y);
    var k := |Actions(x)|;
    Glued((p, b, q) => Step(c, p, b, q), before, Actions(x), a, after, Actions(y));
    StepsButOne(c, states, actions, k);
  }

  /** From an empty cluster, a run that breaks only the first premise, once, and ends with one block on two nodes. */
  lemma {:induction false} BurstRun(n: NodeName, m: NodeName) returns (states: seq<State>, actions: seq<Action>, k: nat)
    requires n != m
    ensures IsRun(ONE, states, actions) && k < |actions| && actions[k] == GiveUp(n) && RespectedBut(states, actions, k)
    ensures Stored(states[|actions|], n) == Stored(states[|actions|], m) == Present(Some(0))
  {
    var x, s := BurstSituationReached(n);
    assert |s.workers| == 1 && m !in s.nodes && m !in s.workers by {
      assert m !in s.nodes.Keys && m !in s.workers.Keys;
    }
    var u := GivenUp(ONE, s, n);
    AssignFree(ONE, u, m, 0);
    var y, t := Join(Arrive(m), Obtain(m, 0)), Assigned(u, m, 0);
    states, actions := RunWithOneBreak(ONE, EMPTY, x, s, GiveUp(n), y, t);
    k := |Actions(x)|;
  }

  /** The same for the second premise. */
  lemma {:induction false} NameRun(n: NodeName, m: NodeName) returns (states: seq<State>, actions: seq<Action>, k: nat)
    requires n != m
    ensures IsRun(ONE, states, actions) && k < |actions| && actions[k] == PatchOk(n) && RespectedBut(states, actions, k)
    ensures Stored(states[|actions|], n) == Stored(states[|actions|], m) == Present(Some(0))
  {
    var x, s := NameSituationReached(n);
    assert |s.workers| == 1 && m !in s.nodes && m !in s.workers by {
      assert m !in s.nodes.Keys && m !in s.workers.Keys;
    }
    var y, t, z, u, p := NamePremiseNeeded(ONE, s, PatchOk(n), m);
    LeadsJoin(ONE, EMPTY, x, s, y, t);
    states, actions := RunWithOneBreak(ONE, EMPTY, Join(x, y), t, PatchOk(n), z, u);
    k := |Actions(Join(x, y))|;
  }

  // ---------------------------------------------------------------------------
  // Set-aside blocks that a starting node already holds
  // ---------------------------------------------------------------------------

  function Leave(n: NodeName, b: Block): Script {
    Then(DeleteNode(n), Then(Deliver(n), Then(HandleDelete(b), End)))
  }

  lemma {:induction false} LeaveReleases(c: Config, s: State, n: NodeName, b: Block)
    requires n in s.nodes && s.nodes[n] == NodeLog([Present(Some(b))], 0) && s.notices == {}
    ensures Leads(c, s, Leave(n, b), WithLog(Release(s, b), n, [Present(Some(b)), Absent], 1))
  {
    var v := [Present(Some(b)), Absent];
    var s1, t := WithLog(s, n, v, 0), WithLog(Release(s, b), n, v, 1);
    assert Step(c, s, DeleteNode(n), s1) by {
      assert s.nodes[n].versions + [Absent] == v;
    }
    DeletionReleases(c, s1, n, v, 0, b);
    assert WithLog(Release(s1, b), n, v, 1) == t by {
      assert s1.nodes[n := NodeLog(v, 1)] == t.nodes;
    }
    LeadsThen(c, s, DeleteNode(n), s1, Then(Deliver(n), Then(HandleDelete(b), End)), t);
  }

  /** Whenever a starting node holds a set-aside block, its deletion frees the block for a new node. */
  lemma {:induction false} ReservedPremiseNeeded(c: Config, s: State, n: NodeName, m: NodeName, b: Block)
    returns (x: Script, t: State)
    requires Init(c, s) && Stored(s, n) == Present(Some(b)) && b in c.reserved && m !in s.nodes
    ensures Leads(c, s, x, t) && Stored(t, m) == Present(Some(b))
  {
    assert s.nodes[n].versions == [Present(Some(b))];
    var u := WithLog(Release(s, b), n, [Present(Some(b)), Absent], 1);
    LeaveReleases(c, s, n, b);
    AssignFree(c, u, m, b);
    t := Assigned(u, m, b);
    x := Join(Leave(n, b), Join(Arrive(m), Obtain(m, b)));
    LeadsJoin(c, s, Leave(n, b), u, Join(Arrive(m), Obtain(m, b)), t);
  }
}
