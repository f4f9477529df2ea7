/**
 * The node IPAM allocator as a protocol: up to thirty workers, the API server, the
 * informer and the delete handler take steps in any order
 * (cloud/nodeipam/ipam/cloud_allocator.go).
 *
 * A node is known by its name.  The API server keeps the successive versions of the
 * object of that name; the informer has delivered a prefix of them, so the lister is an
 * arbitrarily stale but ordered view.  Blocks are indices into the cluster range.
 */
module IpamProtocol {
  import opened Wrappers

  type NodeName = string
  type Block = nat

  const WORKERS := 30
  const RETRIES := 3

  /** One version of a node object; `block` is the block named by Spec.PodCIDRs, if any. */
  datatype Object = Absent | Present(block: Option<Block>)

  /** All versions the API server has held under a name, and the one the lister shows. */
  datatype NodeLog = NodeLog(versions: seq<Object>, seen: nat)

  /** Where the worker that processes a key stands. */
  datatype Worker =
    | Read(version: nat)      // has read this version from the lister
    | Holding(block: Block)   // has taken a block from the set
    | Patching(block: Block, attempts: nat, applied: bool, timedOut: bool)

  /** A patch request: the block it writes under a name. */
  datatype Attempt = Attempt(node: NodeName, block: Block)

  /** What has become of a patch request when its error is returned; a pending one may still land later. */
  datatype Effect = Lost | Landed | Pending

  /**
   * `notices` are the blocks of deleted nodes whose DeleteFunc call is still to come.  `late` are the requests that
   * may still land although their error has been returned, of bursts that have not written their node; `stale` are
   * those of bursts that have.
   */
  datatype State = State(
    nodes: map<NodeName, NodeLog>,
    used: set<Block>,
    workers: map<NodeName, Worker>,
    notices: set<Block>,
    late: set<Attempt>,
    stale: set<Attempt>)

  /** The number of blocks and the ones set aside at start-up. */
  datatype Config = Config(count: nat, reserved: set<Block>)

  datatype Action =
    // the cluster
    | CreateNode(node: NodeName)
    | DeleteNode(node: NodeName)
    // the informer and its delete handler (ReleaseCIDR); a relist passes over versions without calling any handler
    | Deliver(node: NodeName)
    | Miss(node: NodeName)
    | HandleDelete(freed: Block)
    // a request whose error was returned before
    | LateLand(node: NodeName, block: Block)
    // syncNode and AllocateOrOccupyCIDR
    | StartSync(node: NodeName)
    | Occupy(node: NodeName)
    | Allocate(node: NodeName, block: Block)
    | Exhausted(node: NodeName)
    | IPv6Failed(node: NodeName)
    // updateCIDRsAllocation
    | LookupFailed(node: NodeName)
    | AlreadyMatches(node: NodeName)
    | AlreadySet(node: NodeName)
    | BeginPatch(node: NodeName)
    | PatchOk(node: NodeName)
    | PatchErr(node: NodeName, effect: Effect, timeout: bool)
    | GiveUp(node: NodeName)

  function Newest(log: NodeLog): Object
    requires log.versions != []
  {
    log.versions[|log.versions| - 1]
  }

  /** The object the API server holds now. */
  function Stored(s: State, n: NodeName): Object {
    if n in s.nodes && s.nodes[n].versions != [] then Newest(s.nodes[n]) else Absent
  }

  /** The object the lister returns now. */
  function Listed(s: State, n: NodeName): Object {
    if n in s.nodes && s.nodes[n].seen < |s.nodes[n].versions| then s.nodes[n].versions[s.nodes[n].seen] else Absent
  }

  /** The version of the object a worker read earlier. */
  function Copy(s: State, n: NodeName, version: nat): Object {
    if n in s.nodes && version < |s.nodes[n].versions| then s.nodes[n].versions[version] else Absent
  }

  /** The API server accepts a PodCIDR on a node that has none, or the same one again. */
  predicate CanLand(s: State, n: NodeName, b: Block) {
    Stored(s, n) == Present(None) || Stored(s, n) == Present(Some(b))
  }

  function Append(s: State, n: NodeName, v: Object): State {
    if n in s.nodes
    then s.(nodes := s.nodes[n := NodeLog(s.nodes[n].versions + [v], s.nodes[n].seen)])
    else s.(nodes := s.nodes[n := NodeLog([Absent, v], 0)])
  }

  function Land(s: State, n: NodeName, b: Block): State {
    if Stored(s, n) == Present(Some(b)) then s else Append(s, n, Present(Some(b)))
  }

  /** A request of this burst has landed, so its other requests are those of a burst that has written. */
  function Spend(s: State, n: NodeName, b: Block): State {
    var x := Attempt(n, b);
    if x in s.late then s.(late := s.late - {x}, stale := s.stale + {x}) else s
  }

  /** The worker, if it is still in the burst, is in one that has written. */
  function MarkApplied(s: State, n: NodeName, b: Block): State {
    if n in s.workers && s.workers[n].Patching? && s.workers[n].block == b
    then s.(workers := s.workers[n := s.workers[n].(applied := true)])
    else s
  }

  function Finish(s: State, n: NodeName): State {
    s.(workers := s.workers - {n})
  }

  function Release(s: State, b: Block): State {
    s.(used := s.used - {b})
  }

  /** The block the informer hands to DeleteFunc when it delivers the next version, if any. */
  function Announced(log: NodeLog): set<Block>
    requires log.seen + 1 < |log.versions|
  {
    var v := log.versions[log.seen];
    if v.Present? && v.block.Some? && log.versions[log.seen + 1] == Absent then {v.block.value} else {}
  }

  predicate Enabled(c: Config, s: State, a: Action) {
    match a
    case CreateNode(n) => Stored(s, n) == Absent
    case DeleteNode(n) => Stored(s, n).Present?
    case Deliver(n) => n in s.nodes && s.nodes[n].seen + 1 < |s.nodes[n].versions|
    case Miss(n) => n in s.nodes && s.nodes[n].seen + 1 < |s.nodes[n].versions|
    case HandleDelete(b) => b in s.notices
    case LateLand(n, b) => (Attempt(n, b) in s.late || Attempt(n, b) in s.stale) && CanLand(s, n, b)
    case StartSync(n) => n !in s.workers && |s.workers| < WORKERS && Listed(s, n).Present?
    case Occupy(n) =>
      && n in s.workers && s.workers[n].Read?
      && var copy := Copy(s, n, s.workers[n].version); copy.Present? && copy.block.Some?
    case Allocate(n, b) =>
      && n in s.workers && s.workers[n].Read? && Copy(s, n, s.workers[n].version) == Present(None)
      && b < c.count && b !in s.used
    case Exhausted(n) =>
      && n in s.workers && s.workers[n].Read? && Copy(s, n, s.workers[n].version) == Present(None)
      && forall b :: 0 <= b < c.count ==> b in s.used
    case IPv6Failed(n) => n in s.workers && s.workers[n].Holding?
    case LookupFailed(n) => n in s.workers && s.workers[n].Holding? && Listed(s, n) == Absent
    case AlreadyMatches(n) =>
      n in s.workers && s.workers[n].Holding? && Listed(s, n) == Present(Some(s.workers[n].block))
    case AlreadySet(n) =>
      && n in s.workers && s.workers[n].Holding?
      && Listed(s, n).Present? && Listed(s, n).block.Some? && Listed(s, n).block.value != s.workers[n].block
    case BeginPatch(n) => n in s.workers && s.workers[n].Holding? && Listed(s, n) == Present(None)
    case PatchOk(n) =>
      && n in s.workers && s.workers[n].Patching? && s.workers[n].attempts < RETRIES
      && CanLand(s, n, s.workers[n].block)
    case PatchErr(n, effect, _) =>
      && n in s.workers && s.workers[n].Patching? && s.workers[n].attempts < RETRIES
      && (effect.Landed? ==> CanLand(s, n, s.workers[n].block))
    case GiveUp(n) => n in s.workers && s.workers[n].Patching? && s.workers[n].attempts == RETRIES
  }

  function Next(c: Config, s: State, a: Action): State
    requires Enabled(c, s, a)
  {
    match a
    case CreateNode(n) => Append(s, n, Present(None))
    case DeleteNode(n) => Append(s, n, Absent)
    case Deliver(n) =>
      var log := s.nodes[n];
      s.(nodes := s.nodes[n := log.(seen := log.seen + 1)], notices := s.notices + Announced(log))
    case Miss(n) => s.(nodes := s.nodes[n := s.nodes[n].(seen := s.nodes[n].seen + 1)])
    case HandleDelete(b) => Release(s.(notices := s.notices - {b}), b)
    case LateLand(n, b) =>
      if Stored(s, n) == Present(None) then Spend(MarkApplied(Land(s, n, b), n, b), n, b) else s
    case StartSync(n) => s.(workers := s.workers[n := Read(s.nodes[n].seen)])
    case Occupy(n) => Finish(s.(used := s.used + {Copy(s, n, s.workers[n].version).block.value}), n)
    case Allocate(n, b) => s.(used := s.used + {b}, workers := s.workers[n := Holding(b)])
    case Exhausted(n) => Finish(s, n)
    case IPv6Failed(n) => Finish(s, n)
    case LookupFailed(n) => Finish(s, n)
    case AlreadyMatches(n) => Finish(s, n)
    case AlreadySet(n) => Finish(Release(s, s.workers[n].block), n)
    case BeginPatch(n) => s.(workers := s.workers[n := Patching(s.workers[n].block, 0, false, false)])
    case PatchOk(n) => Finish(Spend(Land(s, n, s.workers[n].block), n, s.workers[n].block), n)
    case PatchErr(n, effect, timeout) =>
      var w := s.workers[n];
      var x := Attempt(n, w.block);
      var s' := match effect
        case Lost => s
        case Landed => Spend(Land(s, n, w.block), n, w.block)
        case Pending => if w.applied then s.(stale := s.stale + {x}) else s.(late := s.late + {x});
      s'.(workers := s.workers[n := Patching(w.block, w.attempts + 1, w.applied || effect.Landed?, timeout)])
    case GiveUp(n) =>
      // the release decision looks at the last error only
      Finish(if s.workers[n].timedOut then s else Release(s, s.workers[n].block), n)
  }

  /** The worker of this key has taken the block and not written it yet. */
  predicate InFlightOf(s: State, n: NodeName, b: Block) {
    && n in s.workers
    && (|| s.workers[n] == Holding(b)
        || (s.workers[n].Patching? && s.workers[n].block == b && !s.workers[n].applied))
  }

  /** The block was stored in a version that has been deleted, which the informer has yet to pass. */
  predicate DeletedAt(s: State, n: NodeName, i: nat, b: Block) {
    && n in s.nodes && s.nodes[n].seen <= i && i + 1 < |s.nodes[n].versions|
    && s.nodes[n].versions[i] == Present(Some(b)) && s.nodes[n].versions[i + 1] == Absent
  }

  predicate StoredSomewhere(s: State, b: Block) {
    exists n :: n in s.nodes && Stored(s, n) == Present(Some(b))
  }

  /** A delete event for the block is pending. */
  predicate AwaitsDeletion(s: State, b: Block) {
    b in s.notices || exists n :: n in s.nodes && exists i :: 0 <= i < |s.nodes[n].versions| && DeletedAt(s, n, i, b)
  }

  predicate InFlightElsewhere(s: State, n: NodeName, b: Block) {
    exists m :: m in s.workers && m != n && InFlightOf(s, m, b)
  }

  predicate StillToLand(s: State, b: Block) {
    exists x :: x in s.late && x.block == b
  }

  /** Somebody besides the worker of key `n` has the block, or may come to have it. */
  predicate Claimed(s: State, n: NodeName, b: Block) {
    StoredSomewhere(s, b) || AwaitsDeletion(s, b) || InFlightElsewhere(s, n, b) || StillToLand(s, b)
  }

  /** A burst whose last error is not a server timeout releases a block that nobody else has a claim on. */
  predicate BurstPremise(s: State, a: Action) {
    a.GiveUp? && a.node in s.workers && s.workers[a.node].Patching? ==>
      s.workers[a.node].timedOut || !Claimed(s, a.node, s.workers[a.node].block)
  }

  /** A request of a burst that has already written its node does not write the name again after it was recreated. */
  predicate NamePremise(s: State, a: Action) {
    && ((a.PatchOk? || (a.PatchErr? && a.effect.Landed?)) && a.node in s.workers && s.workers[a.node].Patching? ==>
          !s.workers[a.node].applied || Stored(s, a.node) != Present(None))
    && (a.LateLand? ==> Attempt(a.node, a.block) in s.late || Stored(s, a.node) != Present(None))
  }

  /**
   * The allocator after start-up: the blocks of the listed nodes and the reserved blocks
   * are marked, no worker runs, and the informer shows the listed nodes.
   */
  ghost predicate Init(c: Config, s: State) {
    && s.workers == map[] && s.notices == {} && s.late == {} && s.stale == {}
    && (forall n :: n in s.nodes ==> |s.nodes[n].versions| == 1 && s.nodes[n].seen == 0)
    && (forall b :: b in s.used ==> b < c.count)
    && (forall b :: b in s.used <==> b in c.reserved || exists n :: Stored(s, n) == Present(Some(b)))
    && (forall n, m, b :: Stored(s, n) == Present(Some(b)) && Stored(s, m) == Present(Some(b)) ==> n == m)
  }

  /** No starting node already holds a block that was set aside. */
  ghost predicate ReservedFree(c: Config, s: State) {
    forall n, b :: Stored(s, n) == Present(Some(b)) ==> b !in c.reserved
  }

  ghost predicate IsRun(c: Config, states: seq<State>, actions: seq<Action>) {
    && |states| == |actions| + 1
    && Init(c, states[0])
    && (forall i :: 0 <= i < |actions| ==>
          Enabled(c, states[i], actions[i]) && states[i + 1] == Next(c, states[i], actions[i]))
  }

  ghost predicate Premises(states: seq<State>, actions: seq<Action>)
    requires |states| == |actions| + 1
  {
    forall i :: 0 <= i < |actions| ==> BurstPremise(states[i], actions[i]) && NamePremise(states[i], actions[i])
  }
}
