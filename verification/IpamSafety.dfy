/**
 * What holds over every run of the allocator protocol: no two nodes share a pod CIDR, set-aside
 * blocks are never assigned, and every marked block is accounted for.
 */
module IpamSafety {
  import opened Wrappers
  import opened Cidr
  import opened IpamProtocol
  import opened IpamOwnership

  // ---------------------------------------------------------------------------
  // The invariant along a run
  // ---------------------------------------------------------------------------

  ghost predicate HeldInitially(s: State, b: Block) {
    exists n :: Stored(s, n) == Present(Some(b))
  }

  /** The configuration with the set-aside blocks that no starting node holds. */
  ghost function Kept(c: Config, s: State): Config {
    c.(reserved := set b | b in c.reserved && !HeldInitially(s, b))
  }

  ghost function FirstOwners(c: Config, s: State): Owners
    requires Init(c, s)
  {
    map b | b in s.used ::
      if HeldInitially(s, b) then var n :| Stored(s, n) == Present(Some(b)); Held(n) else Reserved
  }

  ghost function OwnersAt(c: Config, states: seq<State>, actions: seq<Action>, k: nat): Owners
    requires IsRun(c, states, actions) && k <= |actions|
  {
    if k == 0 then FirstOwners(c, states[0])
    else Transfer(c, states[k - 1], actions[k - 1], OwnersAt(c, states, actions, k - 1), k - 1)
  }

  lemma InitInv(c: Config, s: State)
    requires Init(c, s)
    ensures Inv(Kept(c, s), s, FirstOwners(c, s))
  {
    var o := FirstOwners(c, s);
    forall n | n in s.nodes
      ensures LogOwned(s.nodes[n], n, o)
    {
      if Stored(s, n).Present? && Stored(s, n).block.Some? {
        assert HeldInitially(s, Stored(s, n).block.value);
      }
    }
  }

  lemma {:induction false} RunInv(c: Config, states: seq<State>, actions: seq<Action>, k: nat)
    requires IsRun(c, states, actions) && Premises(states, actions) && k <= |actions|
    ensures Inv(Kept(c, states[0]), states[k], OwnersAt(c, states, actions, k))
    ensures LateOk(states[k], OwnersAt(c, states, actions, k))
  {
    if k == 0 {
      InitInv(c, states[0]);
    } else {
      RunInv(c, states, actions, k - 1);
      RunStep(Kept(c, states[0]), c, states[k - 1], OwnersAt(c, states, actions, k - 1), actions[k - 1], k - 1);
    }
  }

  lemma RunStep(d: Config, c: Config, s: State, o: Owners, a: Action, k: nat)
    requires Inv(d, s, o) && LateOk(s, o) && d.count == c.count && Enabled(c, s, a)
    requires BurstPremise(s, a) && NamePremise(s, a)
    ensures Inv(d, Next(c, s, a), Transfer(c, s, a, o, k)) && LateOk(Next(c, s, a), Transfer(c, s, a, o, k))
  {
    assert Enabled(d, s, a) && Next(d, s, a) == Next(c, s, a) && Transfer(d, s, a, o, k) == Transfer(c, s, a, o, k);
    StepKeepsInv(d, s, o, a, k);
    StepKeepsLate(d, s, o, a, k);
  }

  // ---------------------------------------------------------------------------
  // Safety
  // ---------------------------------------------------------------------------

  /** In every state of every run, two nodes in the API server never hold CIDRs with a common address. */
  lemma NoOverlap(l: ClusterLayout, c: Config, states: seq<State>, actions: seq<Action>, k: nat,
                  n: NodeName, m: NodeName, b: Block, d: Block)
    requires IsRun(c, states, actions) && Premises(states, actions) && k <= |actions|
    requires n != m && Stored(states[k], n) == Present(Some(b)) && Stored(states[k], m) == Present(Some(d))
    ensures !SharesAddress(BlockNet(l, b), BlockNet(l, d))
  {
    RunInv(c, states, actions, k);
    var o := OwnersAt(c, states, actions, k);
    assert LogOwned(states[k].nodes[n], n, o) && LogOwned(states[k].nodes[m], m, o);
    DistinctBlocksDisjoint(l, b, d);
  }

  /** The blocks that a list of CIDRs sets aside at start-up. */
  ghost function SetAside(l: ClusterLayout, cidrs: seq<Prefix>): set<Block> {
    if cidrs == [] then {} else Overlapped(l, cidrs[0]) + SetAside(l, cidrs[1..])
  }

  lemma {:induction false} SetAsideCovers(l: ClusterLayout, cidrs: seq<Prefix>, cidr: Prefix, b: Block)
    requires cidr in cidrs && IsBlock(l, b) && SharesAddress(BlockNet(l, b), cidr)
    ensures b in SetAside(l, cidrs)
  {
    if cidr != cidrs[0] {
      SetAsideCovers(l, cidrs[1..], cidr, b);
    }
  }

  /**
   * In every state of every run, the CIDR of a node has no address in common with a range that was set
   * aside: the service ranges, and the last address of the cluster range when the subnet ends there too.
   */
  lemma SetAsideNeverAssigned(l: ClusterLayout, cidrs: seq<Prefix>, c: Config, states: seq<State>, actions: seq<Action>,
                              k: nat, n: NodeName, b: Block, cidr: Prefix)
    requires IsRun(c, states, actions) && Premises(states, actions) && k <= |actions|
    requires c == Config(BlockCount(l), SetAside(l, cidrs)) && ReservedFree(c, states[0])
    requires Stored(states[k], n) == Present(Some(b)) && cidr in cidrs
    ensures !SharesAddress(BlockNet(l, b), cidr)
  {
    RunInv(c, states, actions, k);
    var o := OwnersAt(c, states, actions, k);
    assert LogOwned(states[k].nodes[n], n, o);
    if SharesAddress(BlockNet(l, b), cidr) {
      SetAsideCovers(l, cidrs, cidr, b);
    }
  }

  // ---------------------------------------------------------------------------
  // Accounting
  // ---------------------------------------------------------------------------

  /** A pending request of a lost block lands and makes it a node's after all. */
  predicate Recovers(s: State, a: Action, b: Block) {
    a.LateLand? && a.block == b && Stored(s, a.node) == Present(None)
  }

  /** The block was lost at step `j`, and has stayed marked ever since without being recovered by a late request. */
  ghost predicate LostAt(c: Config, states: seq<State>, actions: seq<Action>, j: nat, k: nat, b: Block)
    requires IsRun(c, states, actions) && k <= |actions|
  {
    && j < k
    && LeakEvent(c, states[j], actions[j], b)
    && (forall i :: j < i <= k ==> b in states[i].used)
    && (forall i :: j < i < k ==> !Recovers(states[i], actions[i], b))
  }

  lemma TransferLeak(c: Config, s: State, a: Action, o: Owners, step: nat, b: Block)
    requires Enabled(c, s, a) && o.Keys == s.used
    requires b in Transfer(c, s, a, o, step) && Transfer(c, s, a, o, step)[b].Leaked?
    ensures || (LeakEvent(c, s, a, b) && Transfer(c, s, a, o, step)[b] == Leaked(step))
            || (b in o && Transfer(c, s, a, o, step)[b] == o[b] && !Recovers(s, a, b))
  {
  }

  lemma LostStaysLost(c: Config, states: seq<State>, actions: seq<Action>, j: nat, k: nat, b: Block)
    requires IsRun(c, states, actions) && k < |actions|
    requires LostAt(c, states, actions, j, k, b) && b in states[k + 1].used && !Recovers(states[k], actions[k], b)
    ensures LostAt(c, states, actions, j, k + 1, b)
  {
  }

  lemma MarkedAreOwned(c: Config, states: seq<State>, actions: seq<Action>, k: nat)
    requires IsRun(c, states, actions) && Premises(states, actions) && k <= |actions|
    ensures OwnersAt(c, states, actions, k).Keys == states[k].used
  {
    RunInv(c, states, actions, k);
  }

  lemma {:induction false} LeakedWasLost(c: Config, states: seq<State>, actions: seq<Action>, k: nat, b: Block, j: nat)
    requires IsRun(c, states, actions) && Premises(states, actions) && k <= |actions|
    requires b in OwnersAt(c, states, actions, k) && OwnersAt(c, states, actions, k)[b] == Leaked(j)
    ensures LostAt(c, states, actions, j, k, b)
  {
    if k > 0 {
      MarkedAreOwned(c, states, actions, k);
      MarkedAreOwned(c, states, actions, k - 1);
      var o := OwnersAt(c, states, actions, k - 1);
      TransferLeak(c, states[k - 1], actions[k - 1], o, k - 1, b);
      if b in o && o[b] == Leaked(j) {
        LeakedWasLost(c, states, actions, k - 1, b, j);
        LostStaysLost(c, states, actions, j, k - 1, b);
      }
    }
  }

  /**
   * In every state of every run the marked blocks are exactly those stored in a node, awaiting a delete
   * event or its handler, in flight, set aside, or lost at one of the five leaking steps.
   */
  lemma Accounting(c: Config, states: seq<State>, actions: seq<Action>, k: nat, b: Block)
    requires IsRun(c, states, actions) && Premises(states, actions) && k <= |actions|
    ensures b in states[k].used <==>
              || (exists n :: Stored(states[k], n) == Present(Some(b)))
              || (exists n, i :: DeletingAt(states[k], n, i, b))
              || b in states[k].notices
              || (exists n :: InFlightOf(states[k], n, b))
              || b in Kept(c, states[0]).reserved
              || (exists j :: LostAt(c, states, actions, j, k, b))
  {
    RunInv(c, states, actions, k);
    var s, o := states[k], OwnersAt(c, states, actions, k);
    if b in s.used {
      assert Owns(Kept(c, states[0]), s, o[b], b);
      if o[b].Leaked? {
        LeakedWasLost(c, states, actions, k, b, o[b].step);
      }
    }
    OwnersAreMarked(Kept(c, states[0]), s, o, b);
  }

  lemma OwnersAreMarked(c: Config, s: State, o: Owners, b: Block)
    requires Inv(c, s, o)
    ensures forall w :: Owns(c, s, w, b) && !w.Leaked? ==> b in o && o[b] == w
  {
  }

  /** No block answers to two owners at once. */
  lemma OneOwner(c: Config, states: seq<State>, actions: seq<Action>, k: nat, b: Block, w1: Owner, w2: Owner)
    requires IsRun(c, states, actions) && Premises(states, actions) && k <= |actions|
    requires Owns(Kept(c, states[0]), states[k], w1, b) && Owns(Kept(c, states[0]), states[k], w2, b)
    requires !w1.Leaked? && !w2.Leaked?
    ensures w1 == w2
  {
    RunInv(c, states, actions, k);
    OwnersAreMarked(Kept(c, states[0]), states[k], OwnersAt(c, states, actions, k), b);
  }

  /** A lost block has no owner until it is released or recovered. */
  lemma LeakStays(d: Config, c: Config, s: State, o: Owners, a: Action, step: nat, b: Block, j: nat)
    requires Inv(d, s, o) && Enabled(c, s, a) && BurstPremise(s, a) && NamePremise(s, a)
    requires b in o && o[b] == Leaked(j) && b in Transfer(c, s, a, o, step) && !Recovers(s, a, b)
    ensures Transfer(c, s, a, o, step)[b] == Leaked(j)
  {
    if a.DeleteNode? {
      assert LogOwned(s.nodes[a.node], a.node, o);
    } else if a.Deliver? || a.Miss? {
      AnnouncedWasDeleting(d, s.nodes[a.node], a.node, o);
    }
  }

  lemma LeakStarts(d: Config, c: Config, s: State, o: Owners, a: Action, step: nat, b: Block)
    requires Inv(d, s, o) && Enabled(c, s, a) && LeakEvent(c, s, a, b)
    ensures b in Transfer(c, s, a, o, step) && Transfer(c, s, a, o, step)[b] == Leaked(step)
  {
    if a.Miss? {
      AnnouncedWasDeleting(d, s.nodes[a.node], a.node, o);
    }
  }

  lemma LeakStep(c: Config, states: seq<State>, actions: seq<Action>, j: nat, k: nat, b: Block)
    requires IsRun(c, states, actions) && Premises(states, actions) && k < |actions| && b in states[k + 1].used
    requires !Recovers(states[k], actions[k], b)
    requires b in OwnersAt(c, states, actions, k) && OwnersAt(c, states, actions, k)[b] == Leaked(j)
    ensures b in OwnersAt(c, states, actions, k + 1) && OwnersAt(c, states, actions, k + 1)[b] == Leaked(j)
  {
    RunInv(c, states, actions, k);
    MarkedAreOwned(c, states, actions, k + 1);
    LeakStays(Kept(c, states[0]), c, states[k], OwnersAt(c, states, actions, k), actions[k], k, b, j);
  }

  ghost predicate IsLeaked(c: Config, states: seq<State>, actions: seq<Action>, j: nat, k: nat, b: Block)
    requires IsRun(c, states, actions) && k <= |actions|
  {
    b in OwnersAt(c, states, actions, k) && OwnersAt(c, states, actions, k)[b] == Leaked(j)
  }

  lemma {:induction false} StaysLeaked(c: Config, states: seq<State>, actions: seq<Action>, j: nat, i: nat, k: nat,
                                       b: Block)
    requires IsRun(c, states, actions) && Premises(states, actions) && i <= k <= |actions|
    requires IsLeaked(c, states, actions, j, i, b)
    requires forall h :: i < h <= k ==> b in states[h].used
    requires forall h :: i <= h < k ==> !Recovers(states[h], actions[h], b)
    ensures IsLeaked(c, states, actions, j, k, b)
    decreases k
  {
    if i < k {
      StaysLeaked(c, states, actions, j, i, k - 1, b);
      LeakStep(c, states, actions, j, k - 1, b);
    }
  }

  lemma {:induction false} LeakedAfter(c: Config, states: seq<State>, actions: seq<Action>, j: nat, b: Block)
    requires IsRun(c, states, actions) && Premises(states, actions) && j < |actions|
    requires LeakEvent(c, states[j], actions[j], b)
    ensures IsLeaked(c, states, actions, j, j + 1, b)
  {
    RunInv(c, states, actions, j);
    LeakStarts(Kept(c, states[0]), c, states[j], OwnersAt(c, states, actions, j), actions[j], j, b);
  }

  lemma {:induction false} LostIsLeaked(c: Config, states: seq<State>, actions: seq<Action>, j: nat, k: nat, b: Block)
    requires IsRun(c, states, actions) && Premises(states, actions) && k <= |actions|
    requires LostAt(c, states, actions, j, k, b)
    ensures IsLeaked(c, states, actions, j, k, b)
  {
    LeakedAfter(c, states, actions, j, b);
    StaysLeaked(c, states, actions, j, j + 1, k, b);
  }

  /** A lost block has no owner: it is not stored, awaiting deletion, in flight or set aside, and it was lost once. */
  lemma LostHasNoOwner(c: Config, states: seq<State>, actions: seq<Action>, j: nat, k: nat, b: Block, w: Owner, i: nat)
    requires IsRun(c, states, actions) && Premises(states, actions) && k <= |actions|
    requires LostAt(c, states, actions, j, k, b)
    ensures Owns(Kept(c, states[0]), states[k], w, b) ==> w.Leaked?
    ensures LostAt(c, states, actions, i, k, b) ==> i == j
  {
    RunInv(c, states, actions, k);
    LostIsLeaked(c, states, actions, j, k, b);
    OwnersAreMarked(Kept(c, states[0]), states[k], OwnersAt(c, states, actions, k), b);
    if LostAt(c, states, actions, i, k, b) {
      LostIsLeaked(c, states, actions, i, k, b);
    }
  }

  /** An occupy leaks only when the object read has since been seen deleted. */
  lemma LateOccupyFollowsDeletion(c: Config, states: seq<State>, actions: seq<Action>, k: nat, n: NodeName, b: Block)
    requires IsRun(c, states, actions) && Premises(states, actions) && k < |actions|
    requires actions[k] == Occupy(n) && LeakEvent(c, states[k], actions[k], b)
    ensures var v := states[k].workers[n].version; var log := states[k].nodes[n];
            v < log.seen < |log.versions| && log.versions[v + 1] == Absent
  {
    RunInv(c, states, actions, k);
    var o := OwnersAt(c, states, actions, k);
    var s := states[k];
    assert WorkerOk(s, n, s.workers[n], o);
    assert LogOk(Kept(c, states[0]), s.nodes[n]) && LogOwned(s.nodes[n], n, o);
    var v := s.workers[n].version;
    assert LegalNext(s.nodes[n].versions[v], s.nodes[n].versions[v + 1]);
  }

  /** The early return for a node that already shows the proposed CIDR is never taken. */
  lemma MatchNeverTaken(c: Config, states: seq<State>, actions: seq<Action>, k: nat)
    requires IsRun(c, states, actions) && Premises(states, actions) && k < |actions|
    ensures !actions[k].AlreadyMatches?
  {
    RunInv(c, states, actions, k);
    if actions[k].AlreadyMatches? {
      ListedIsNotInFlight(Kept(c, states[0]), states[k], OwnersAt(c, states, actions, k), actions[k].node);
    }
  }
}
