/**
 * The node controller's queue (cloud/linode/node_controller.go): every event enqueues the node object with a
 * time stamp, and a request is skipped when a newer one for the same node has been added.  The queue is the
 * Kubernetes delaying work queue, modelled by its documented contract; between any two steps of the worker
 * further events may arrive and delays may end.
 */
module NodeQueue {
  import opened Wrappers

  /** nodeRequest; `node` stands for the pointer to the node object. */
  datatype Request = Request(name: string, node: int, timestamp: int)

  datatype Outcome = Succeeded | FailedForGood | FailedForNow

  class NodeController {
    // the work queue
    var queue: seq<Request>
    var dirty: set<Request>
    var processing: set<Request>
    var delayed: set<Request>
    // the controller
    var nodeLastAdded: map<string, int>
    var clock: int
    // what has happened
    ghost var steady: bool            // the clock has never run backwards
    ghost var newest: map<string, Request>
    ghost var active: set<Request>    // taken from the queue and neither skipped nor handled yet
    ghost var finished: set<Request>  // handled, with nothing left to do
    ghost var skipped: set<Request>

    /** The queue holds each waiting request once; a request that is being processed waits until it is done. */
    ghost predicate QueueOk()
      reads this
    {
      && (forall r :: r in queue <==> r in dirty && r !in processing)
      && (forall i, j :: 0 <= i < j < |queue| ==> queue[i] != queue[j])
      && active <= processing
    }

    /** Every request in the system is for a node that has been added. */
    ghost predicate NamesKnown()
      reads this
    {
      forall r :: r in dirty || r in processing || r in delayed ==> r.name in nodeLastAdded
    }

    ghost predicate Live(r: Request)
      reads this
    {
      r in dirty || r in delayed || r in active || r in finished
    }

    /** The newest request of every node is queued, delayed for a retry, in progress or finished. */
    ghost predicate NewestIsLive()
      reads this
    {
      forall n :: n in nodeLastAdded ==>
        && n in newest && newest[n].name == n && newest[n].timestamp == nodeLastAdded[n]
        && Live(newest[n])
    }

    /** Only requests strictly older than the newest one of their node have been skipped. */
    ghost predicate SkippedAreOlder()
      reads this
    {
      && (forall n :: n in nodeLastAdded ==> nodeLastAdded[n] <= clock)
      && (forall r :: r in skipped ==> r.name in nodeLastAdded && r.timestamp < nodeLastAdded[r.name])
    }

    /** The last clause needs a clock that never ran backwards; the others do not. */
    ghost predicate Valid()
      reads this
    {
      QueueOk() && NamesKnown() && NewestIsLive() && (steady ==> SkippedAreOlder())
    }

    constructor ()
      ensures Valid() && steady && queue == [] && skipped == {} && nodeLastAdded == map[]
    {
      queue, dirty, processing, delayed, nodeLastAdded := [], {}, {}, {}, map[];
      clock, newest, active, finished, skipped, steady := 0, map[], {}, {}, {}, true;
    }

    // -- the work queue --------------------------------------------------------------------

    /** Add: a request that is waiting already is not added again, and one being processed is queued when it is done. */
    method Add(r: Request)
      modifies this`queue, this`dirty
      requires QueueOk()
      ensures QueueOk() && dirty == old(dirty) + {r}
    {
      if r in dirty {
        return;
      }
      dirty := dirty + {r};
      if r !in processing {
        queue := queue + [r];
      }
    }

    method Get() returns (r: Request)
      requires Valid() && queue != []
      modifies this`queue, this`dirty, this`processing, this`active
      ensures Valid() && r == old(queue)[0]
      ensures r in active && processing == old(processing) + {r} && dirty == old(dirty) - {r}
      ensures active == old(active) + {r}
    {
      r := queue[0];
      assert r in queue;
      queue, dirty, processing, active := queue[1..], dirty - {r}, processing + {r}, active + {r};
    }

    method Done(r: Request)
      requires Valid() && r in processing && r !in active
      modifies this`queue, this`processing
      ensures Valid() && processing == old(processing) - {r}
      ensures queue == if r in dirty then old(queue) + [r] else old(queue)
    {
      processing := processing - {r};
      if r in dirty {
        queue := queue + [r];
      }
    }

    /** The delay of a retry ends. */
    method DelayOver(r: Request)
      requires Valid() && r in delayed
      modifies this`queue, this`dirty, this`delayed
      ensures Valid() && delayed == old(delayed) - {r} && dirty == old(dirty) + {r}
    {
      delayed := delayed - {r};
      Add(r);
    }

    // -- the controller ----------------------------------------------------------------------

    /** addNodeToQueue, under the controller's lock. */
    method AddNodeToQueue(name: string, node: int, now: int)
      requires Valid()
      modifies this`queue, this`dirty, this`nodeLastAdded, this`clock, this`newest, this`steady
      ensures Valid() && clock == now && (steady <==> old(steady) && now >= old(clock))
      ensures var r := Request(name, node, now);
        && dirty == old(dirty) + {r} && newest == old(newest)[name := r]
        && nodeLastAdded == old(nodeLastAdded)[name := now]
    {
      var r := Request(name, node, now);
      nodeLastAdded, newest := nodeLastAdded[name := now], newest[name := r];
      steady, clock := steady && now >= clock, now;
      Add(r);
      assert NewestIsLive();
      assert NamesKnown();
    }

    /** The test of processNext; a request that is not the most recent one is skipped. */
    method CheckLatest(r: Request) returns (proceed: bool)
      requires Valid() && r in active
      modifies this`active, this`skipped
      ensures Valid() && active == (if proceed then old(active) else old(active) - {r})
      ensures skipped == if proceed then old(skipped) else old(skipped) + {r}
      ensures !proceed <==> r.timestamp < nodeLastAdded[r.name]
      ensures !proceed ==> r != newest[r.name]
    {
      proceed := !(r.name !in nodeLastAdded || r.timestamp < nodeLastAdded[r.name]);
      if !proceed {
        active, skipped := active - {r}, skipped + {r};
      }
    }

    /** What processNext does with the outcome of handleNode: a retriable failure is added again after a delay. */
    method Settle(r: Request, outcome: Outcome)
      requires Valid() && r in active
      modifies this`delayed, this`active, this`finished
      ensures Valid() && active == old(active) - {r}
      ensures delayed == if outcome.FailedForNow? then old(delayed) + {r} else old(delayed)
      ensures finished == if outcome.FailedForNow? then old(finished) else old(finished) + {r}
    {
      active := active - {r};
      if outcome.FailedForNow? {
        delayed := delayed + {r};
      } else {
        finished := finished + {r};
      }
    }

    /**
     * Any number of events arrive and delays end; the worker is not involved.  Under a clock that does not run
     * backwards no stamp goes back.
     */
    method Interfere()
      requires Valid()
      modifies this`queue, this`dirty, this`delayed, this`nodeLastAdded, this`clock, this`newest, this`steady
      ensures Valid() && (steady ==> old(steady) && clock >= old(clock))
      ensures Stamped(old(nodeLastAdded), nodeLastAdded, steady)
      ensures Waiting(old(dirty), old(delayed), dirty, delayed)
    {
      var steps: int := *;
      steps := if steps < 0 then 0 else steps;
      for i := 0 to steps
        invariant Valid() && (steady ==> old(steady) && clock >= old(clock))
        invariant Stamped(old(nodeLastAdded), nodeLastAdded, steady)
        invariant Waiting(old(dirty), old(delayed), dirty, delayed)
      {
        var arrives: bool := *;
        if arrives {
          var name: string, node: int, now: int := *, *, *;
          AddNodeToQueue(name, node, now);
        } else if r :| r in delayed {
          DelayOver(r);
        }
      }
    }

    /** The first half of processNext, with events before the test. */
    method Take() returns (r: Request, proceed: bool)
      requires Valid() && queue != []
      modifies this
      ensures Valid() && r == old(queue)[0] && processing == old(processing) + {r} && finished == old(finished)
      ensures active == if proceed then old(active) + {r} else old(active) - {r}
      ensures skipped == if proceed then old(skipped) else old(skipped) + {r}
      ensures r.name in nodeLastAdded && (proceed <==> r.timestamp >= nodeLastAdded[r.name])
      ensures (steady ==> old(steady)) && Stamped(old(nodeLastAdded), nodeLastAdded, steady)
    {
      r := Get();
      Interfere();
      proceed := CheckLatest(r);
    }

    /** The handling of a request, with events before its outcome is known; it is the answer of handleNode. */
    method Handle(r: Request, outcome: Outcome)
      requires Valid() && r in active
      modifies this
      ensures (steady ==> old(steady)) && Stamped(old(nodeLastAdded), nodeLastAdded, steady)
      ensures outcome.FailedForNow? ==> r in delayed
      ensures Valid() && processing == old(processing) && active == old(active) - {r} && skipped == old(skipped)
      ensures finished == if outcome.FailedForNow? then old(finished) else old(finished) + {r}
    {
      Interfere();
      Settle(r, outcome);
    }

    /** The deferred call of Done, with events before it. */
    method Conclude(r: Request)
      requires Valid() && r in processing && r !in active
      modifies this
      ensures Valid() && processing == old(processing) - {r} && active == old(active)
      ensures skipped == old(skipped) && finished == old(finished)
      ensures (steady ==> old(steady)) && Stamped(old(nodeLastAdded), nodeLastAdded, steady)
      ensures Waiting(old(dirty), old(delayed), dirty, delayed)
    {
      Interfere();
      Done(r);
    }

    /**
     * processNext, with events between its steps; the request is skipped or handled, with the answer of handleNode as
     * its outcome.  Under a steady clock a request that is outdated is skipped, and one that is not outdated even at
     * the end is handled.
     */
    method ProcessNext(answer: Outcome) returns (r: Request, outcome: Option<Outcome>)
      requires Valid() && queue != []
      modifies this
      ensures Valid() && r == old(queue)[0] && r.name in old(nodeLastAdded) && r.name in nodeLastAdded
      ensures steady && r.timestamp < old(nodeLastAdded)[r.name] ==> outcome.None?
      ensures steady && r.timestamp >= nodeLastAdded[r.name] ==> outcome == Some(answer)
      ensures outcome.None? || outcome == Some(answer)
      ensures outcome == Some(FailedForNow) ==> r in delayed || r in dirty
      ensures skipped == if outcome.None? then old(skipped) + {r} else old(skipped)
      ensures finished == if outcome.None? || outcome.value.FailedForNow? then old(finished) else old(finished) + {r}
      ensures processing == old(processing) - {r}
    {
      var proceed;
      r, proceed := Take();
      outcome := None;
      if proceed {
        Handle(r, answer);
        outcome := Some(answer);
      }
      Conclude(r);
    }

    /** In every reachable state the newest request of a node has not been skipped, whatever happened before. */
    lemma NewestNotSkipped(n: string)
      requires Valid() && steady && n in nodeLastAdded
      ensures Live(newest[n]) && newest[n] !in skipped
    {
    }
  }

  /** No node is forgotten, and under a steady clock no stamp goes back. */
  ghost predicate Stamped(before: map<string, int>, after: map<string, int>, steady: bool) {
    forall n :: n in before ==> n in after && (steady ==> before[n] <= after[n])
  }

  /** What was waiting, for its turn or for a retry, still is. */
  ghost predicate Waiting(dirty: set<Request>, delayed: set<Request>, dirty': set<Request>, delayed': set<Request>) {
    dirty <= dirty' && forall r :: r in delayed ==> r in delayed' || r in dirty'
  }
}
