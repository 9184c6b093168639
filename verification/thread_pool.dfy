/**
 * The thread pool executor: `execute` hands a command to an idle worker,
 * starts a new worker while fewer than `maxPoolSize` have been started, or
 * queues it and waits until a worker picks it up. A worker runs its unit,
 * then fetches the next queued one, or parks on its own condition for up to
 * `keepAliveTime` to be handed one, and otherwise ends.
 *
 * Work units and worker threads live in the heaps `units` and `workers`
 * under ids drawn from `nextId`. A worker's `at` records where it stands in
 * its `run` loop; a worker that has ended is removed from `workers`.
 */
module SimpleThreadPoolExecutor {
  import opened Sync

  datatype WorkUnit<C> = WorkUnit(work: C, isBeingExecuted: bool)

  /** Where a worker thread stands in its `run` loop. */
  datatype Phase =
    | Running       // executing its work unit
    | Fetching      // finished a unit and about to call `fetchWork`
    | AwaitingWork  // parked in `fetchWork`
    | Leaving       // `fetchWork` returned false; the thread is ending

  datatype Worker = Worker(workUnit: Option<nat>, at: Phase)

  datatype Pool<C> = Pool(
    maxPoolSize: int,
    keepAliveTime: int,
    shuttingDown: bool,
    workersCounter: int,
    workPendingCounter: int,
    workToExecute: seq<nat>,
    workersWaiting: seq<nat>,
    units: map<nat, WorkUnit<C>>,
    workers: map<nat, Worker>,
    submitters: set<nat>,  // units whose `execute` call is parked
    nextId: nat)

  /** What a call of `awaitTermination` does next. */
  datatype Wait = Done(terminated: bool) | KeepWaiting | Fails(error: Failure)

  function New<C>(maxPoolSize: int, keepAliveTime: int): Pool<C> {
    Pool(maxPoolSize, keepAliveTime, false, 0, 0, [], [], map[], map[], {}, 0)
  }

  /** A new pool is idle, has nothing pending, no worker, and is not shutting down. */
  lemma NewIsIdle<C>(maxPoolSize: int, keepAliveTime: int)
    ensures var p := New<C>(maxPoolSize, keepAliveTime);
      Valid(p) && Counted(p) && Idle(p) && !p.shuttingDown && p.workPendingCounter == 0
  { }

  /** The workers that hold a work unit. */
  ghost function Busy(workers: map<nat, Worker>): set<nat> {
    set w | w in workers && workers[w].workUnit.Some?
  }

  /** No unit is queued and no worker holds one. */
  ghost predicate Idle<C>(p: Pool<C>) {
    p.workToExecute == [] && forall w | w in p.workers :: p.workers[w].workUnit == None
  }

  /** The counter of started workers equals the number of live ones. */
  ghost predicate Counted<C>(p: Pool<C>) {
    p.workersCounter == |p.workers.Keys|
  }

  /** Reference safety: every id the pool holds names an allocated object below `nextId`. */
  ghost predicate WellFormed<C>(p: Pool<C>) {
    && (forall i | 0 <= i < |p.workToExecute| :: p.workToExecute[i] in p.units)
    && (forall i | 0 <= i < |p.workersWaiting| :: p.workersWaiting[i] in p.workers)
    && (forall w | w in p.workers && p.workers[w].workUnit.Some? :: p.workers[w].workUnit.value in p.units)
    && (forall u | u in p.submitters :: u in p.units)
    && (forall u | u in p.units :: u < p.nextId)
    && (forall w | w in p.workers :: w < p.nextId)
  }

  /**
   * The counters: pending work is the queued units plus the units workers
   * hold; at least every live worker has been counted, and no more than
   * `maxPoolSize` were.
   */
  ghost predicate Accounted<C>(p: Pool<C>) {
    && p.workPendingCounter == |p.workToExecute| + |Busy(p.workers)|
    && |p.workers.Keys| <= p.workersCounter
    && (p.workersCounter <= p.maxPoolSize || p.workersCounter == 0)
  }

  /** The waiting list holds, once each, exactly the parked workers that have no unit. */
  ghost predicate WaitingListed(workers: map<nat, Worker>, waiting: seq<nat>) {
    && Distinct(waiting)
    && (forall i | 0 <= i < |waiting| :: waiting[i] in workers && workers[waiting[i]] == Worker(None, AwaitingWork))
    && (forall w | w in workers && workers[w] == Worker(None, AwaitingWork) :: w in waiting)
  }

  /** A running worker holds a unit; one between units, or ending, holds none. */
  ghost predicate PhasesAgree(workers: map<nat, Worker>) {
    forall w | w in workers ::
      && (workers[w].at == Running ==> workers[w].workUnit.Some?)
      && (workers[w].at == Fetching || workers[w].at == Leaving ==> workers[w].workUnit == None)
  }

  /**
   * Each queued unit appears once, is not executing, and its submitter is
   * parked; a parked submitter's unit is queued or already executing.
   */
  ghost predicate QueueAwaited<C>(queue: seq<nat>, units: map<nat, WorkUnit<C>>, submitters: set<nat>) {
    && Distinct(queue)
    && (forall i | 0 <= i < |queue| :: queue[i] in units && !units[queue[i]].isBeingExecuted && queue[i] in submitters)
    && (forall u | u in submitters :: u in units && (u in queue || units[u].isBeingExecuted))
  }

  /** The pool's invariant. */
  ghost predicate Valid<C>(p: Pool<C>) {
    && WellFormed(p)
    && Accounted(p)
    && WaitingListed(p.workers, p.workersWaiting)
    && PhasesAgree(p.workers)
    && QueueAwaited(p.workToExecute, p.units, p.submitters)
  }

  /**
   * `execute` on entry: rejected after shutdown; otherwise handed to the
   * first idle worker, or to a newly started worker while the counter is
   * below `maxPoolSize`, or refused at once with a zero timeout, or queued
   * with the caller parked on the new unit.
   */
  function Execute<C>(p: Pool<C>, command: C, timeout: int): (r: (Pool<C>, Step<bool>))
    requires WellFormed(p)
    ensures WellFormed(r.0)
    ensures p.shuttingDown ==> r == (p, Threw(RejectedExecution))
    ensures !p.shuttingDown ==>
      (r.1 == Returned(true) <==> p.workersWaiting != [] || p.workersCounter < p.maxPoolSize)
    ensures r.1 == Returned(false) <==>
      !p.shuttingDown && p.workersWaiting == [] && p.workersCounter >= p.maxPoolSize && NoWait(timeout)
    ensures r.1 == Returned(false) ==> r.0 == p
    ensures r.1.Parked? ==>
      && r.1.id !in p.units && r.1.id in r.0.units && r.1.id in r.0.submitters
      && r.0.workToExecute == p.workToExecute + [r.1.id]
      && r.0.workers == p.workers
    ensures r.1 == Returned(true) ==>
      && r.0.workToExecute == p.workToExecute && r.0.submitters == p.submitters
      && exists w :: w in r.0.workers && r.0.workers[w].workUnit == Some(p.nextId) && p.nextId in r.0.units
    ensures r.1 == Returned(true) || r.1.Parked? ==>
      p.nextId !in p.units && r.0.units == p.units[p.nextId := WorkUnit(command, false)]
    ensures r.1.Returned? || r.1.Parked? ==> r.0.workPendingCounter == p.workPendingCounter + (if r.1 == Returned(false) then 0 else 1)
    ensures r.0.shuttingDown == p.shuttingDown && r.0.maxPoolSize == p.maxPoolSize && r.0.keepAliveTime == p.keepAliveTime
    ensures !r.1.Threw? ==> r.0.workersCounter == p.workersCounter + (if p.workersWaiting == [] && r.1 == Returned(true) then 1 else 0)
    ensures r.1.Threw? ==> r.0.workersCounter == p.workersCounter
    ensures r.0.workersWaiting ==
      if !p.shuttingDown && p.workersWaiting != [] then p.workersWaiting[1..] else p.workersWaiting
  {
    if p.shuttingDown then (p, Threw(RejectedExecution))
    else if p.workersWaiting != [] then (HandOff(p, command), Returned(true))
    else if p.workersCounter < p.maxPoolSize then (Spawn(p, command), Returned(true))
    else if NoWait(timeout) then (p, Returned(false))
    else (Enqueue(p, command), Parked(p.nextId))
  }

  /** The first idle worker is handed a fresh unit and leaves the waiting list. */
  function HandOff<C>(p: Pool<C>, command: C): (p': Pool<C>)
    requires WellFormed(p) && p.workersWaiting != []
    ensures WellFormed(p')
    ensures p.workersWaiting[0] in p'.workers && p'.workers[p.workersWaiting[0]].workUnit == Some(p.nextId)
    ensures p.nextId !in p.units && p'.units == p.units[p.nextId := WorkUnit(command, false)]
    ensures p'.workersWaiting == p.workersWaiting[1..] && p'.workPendingCounter == p.workPendingCounter + 1
    ensures forall w | w in p.workers && w != p.workersWaiting[0] :: w in p'.workers && p'.workers[w] == p.workers[w]
    ensures p'.workers.Keys == p.workers.Keys && p'.workToExecute == p.workToExecute && p'.submitters == p.submitters
    ensures p'.workersCounter == p.workersCounter && p'.shuttingDown == p.shuttingDown && p'.nextId > p.nextId
  {
    var w := p.workersWaiting[0];
    var u := p.nextId;
    p.(workersWaiting := p.workersWaiting[1..],
       units := p.units[u := WorkUnit(command, false)],
       workers := p.workers[w := p.workers[w].(workUnit := Some(u))],
       workPendingCounter := p.workPendingCounter + 1,
       nextId := u + 1)
  }

  /** A new worker thread is started on a fresh unit and counted. */
  function Spawn<C>(p: Pool<C>, command: C): (p': Pool<C>)
    requires WellFormed(p)
    ensures WellFormed(p')
    ensures p.nextId + 1 in p'.workers && p'.workers[p.nextId + 1].workUnit == Some(p.nextId)
    ensures p.nextId !in p.units && p.nextId + 1 !in p.workers
    ensures p'.units == p.units[p.nextId := WorkUnit(command, false)]
    ensures p'.workers == p.workers[p.nextId + 1 := Worker(Some(p.nextId), Running)]
    ensures p'.workersCounter == p.workersCounter + 1 && p'.workPendingCounter == p.workPendingCounter + 1
    ensures p'.workToExecute == p.workToExecute && p'.submitters == p.submitters && p'.workersWaiting == p.workersWaiting
    ensures p'.shuttingDown == p.shuttingDown && p'.nextId > p.nextId
  {
    var u := p.nextId;
    p.(units := p.units[u := WorkUnit(command, false)],
       workers := p.workers[u + 1 := Worker(Some(u), Running)],
       workersCounter := p.workersCounter + 1,
       workPendingCounter := p.workPendingCounter + 1,
       nextId := u + 2)
  }

  /**
   * A fresh unit joins the queue and its submitter parks on it. No unit
   * held before is touched, and the workers are left alone.
   */
  function Enqueue<C>(p: Pool<C>, command: C): (p': Pool<C>)
    requires WellFormed(p)
    ensures WellFormed(p')
    ensures p.nextId !in p.units && p.nextId < p'.nextId
    ensures p'.workToExecute == p.workToExecute + [p.nextId]
    ensures p'.units == p.units[p.nextId := WorkUnit(command, false)]
    ensures p'.submitters == p.submitters + {p.nextId}
    ensures p'.workPendingCounter == p.workPendingCounter + 1
    ensures p'.workers == p.workers && p'.workersWaiting == p.workersWaiting
    ensures p'.workersCounter == p.workersCounter && p'.shuttingDown == p.shuttingDown
  {
    var u := p.nextId;
    p.(workToExecute := p.workToExecute + [u],
       units := p.units[u := WorkUnit(command, false)],
       submitters := p.submitters + {u},
       workPendingCounter := p.workPendingCounter + 1,
       nextId := u + 1)
  }

  /** A parked submitter gives up: its unit leaves the queue and the pending count. */
  function Withdraw<C>(p: Pool<C>, u: nat): (p': Pool<C>)
    ensures p'.submitters == p.submitters - {u}
    ensures Distinct(p.workToExecute) ==> u !in p'.workToExecute
    ensures forall v | v != u :: v in p'.workToExecute <==> v in p.workToExecute
    ensures |p'.workToExecute| == |p.workToExecute| - (if u in p.workToExecute then 1 else 0)
    ensures p'.workPendingCounter == p.workPendingCounter - 1
    ensures p'.units == p.units && p'.workers == p.workers && p'.workersWaiting == p.workersWaiting
    ensures p'.workersCounter == p.workersCounter && p'.shuttingDown == p.shuttingDown && p'.nextId == p.nextId
  {
    RemoveFirstMembers(p.workToExecute, u);
    p.(workToExecute := RemoveFirst(p.workToExecute, u),
       submitters := p.submitters - {u},
       workPendingCounter := p.workPendingCounter - 1)
  }

  /**
   * A submitter parked in `execute` once its timed `await` returns: it
   * succeeds once a worker has taken its unit, whatever woke it; otherwise a
   * timeout withdraws the unit and fails, an interrupt withdraws it and
   * throws, and a wake before the deadline waits on.
   */
  function ResumeExecute<C>(p: Pool<C>, u: nat, wake: Wake): (r: (Pool<C>, Step<bool>))
    requires WellFormed(p) && u in p.submitters
    ensures p.units[u].isBeingExecuted ==> r == (p.(submitters := p.submitters - {u}), Returned(true))
    ensures !p.units[u].isBeingExecuted ==>
      match wake
      case Woken => r == (p, Parked(u))
      case Expired => r.1 == Returned(false) && r.0 == Withdraw(p, u)
      case Interrupted => r.1 == Threw(InterruptedException) && r.0 == Withdraw(p, u)
  {
    if p.units[u].isBeingExecuted then (p.(submitters := p.submitters - {u}), Returned(true))
    else
      match wake
      case Woken => (p, Parked(u))
      case Expired => (Withdraw(p, u), Returned(false))
      case Interrupted => (Withdraw(p, u), Threw(InterruptedException))
  }

  function Shutdown<C>(p: Pool<C>): (p': Pool<C>)
    ensures p'.shuttingDown
    ensures p'.(shuttingDown := p.shuttingDown) == p
  {
    p.(shuttingDown := true)
  }

  /** `awaitTermination` on entry: done when nothing is pending, refused with a zero timeout, else waits. */
  function AwaitTermination<C>(p: Pool<C>, timeout: int): (r: Wait)
    ensures r == Done(true) <==> p.workPendingCounter == 0
    ensures r == Done(false) <==> p.workPendingCounter != 0 && NoWait(timeout)
    ensures r != Done(true) && r != Done(false) ==> r == KeepWaiting
  {
    if p.workPendingCounter == 0 then Done(true)
    else if NoWait(timeout) then Done(false)
    else KeepWaiting
  }

  /**
   * The termination waiter after its timed `await` returns: done as soon as
   * nothing is pending, whatever woke it; otherwise an interrupt throws, a
   * timeout fails, and a wake before the deadline waits on.
   */
  function ResumeAwaitTermination<C>(p: Pool<C>, wake: Wake): (r: Wait)
    ensures r == Done(true) <==> p.workPendingCounter == 0
    ensures p.workPendingCounter != 0 ==>
      r == match wake
           case Woken => KeepWaiting
           case Expired => Done(false)
           case Interrupted => Fails(InterruptedException)
  {
    if p.workPendingCounter == 0 then Done(true)
    else
      match wake
      case Woken => KeepWaiting
      case Expired => Done(false)
      case Interrupted => Fails(InterruptedException)
  }

  /** The end of one `run` iteration: the unit is done and the worker lets go of it. */
  function CompleteWork<C>(p: Pool<C>, w: nat): (p': Pool<C>)
    requires w in p.workers && p.workers[w].at == Running
    ensures p'.workPendingCounter == p.workPendingCounter - 1
    ensures p'.workers == p.workers[w := Worker(None, Fetching)]
    ensures p'.(workers := p.workers, workPendingCounter := p.workPendingCounter) == p
  {
    p.(workers := p.workers[w := Worker(None, Fetching)],
       workPendingCounter := p.workPendingCounter - 1)
  }

  /**
   * `fetchWork` on entry: take the oldest queued unit and mark it executing;
   * otherwise end after shutdown or with a zero keep-alive; otherwise list
   * the worker as waiting and park it.
   */
  function FetchWork<C>(p: Pool<C>, w: nat): (r: (Pool<C>, Step<bool>))
    requires WellFormed(p) && w in p.workers && p.workers[w].at == Fetching
    ensures r.0.workers.Keys == p.workers.Keys && r.0.workersCounter == p.workersCounter
    ensures p.workToExecute != [] ==>
      && r.1 == Returned(true)
      && p.workToExecute[0] in r.0.units
      && r.0.workToExecute == p.workToExecute[1..]
      && r.0.workers[w] == Worker(Some(p.workToExecute[0]), Running)
      && r.0.units[p.workToExecute[0]].isBeingExecuted
    ensures p.workToExecute == [] ==>
      && r.0.workToExecute == []
      && (r.1 == Returned(false) <==> p.shuttingDown || NoWait(p.keepAliveTime))
      && (r.1 == Returned(false) ==> r.0.workers[w] == Worker(None, Leaving))
      && (r.1 != Returned(false) ==>
            r.1 == Parked(w) && r.0.workersWaiting == p.workersWaiting + [w]
            && r.0.workers[w] == Worker(None, AwaitingWork))
    ensures r.0.workPendingCounter == p.workPendingCounter
  {
    if p.workToExecute != [] then
      var u := p.workToExecute[0];
      (p.(workToExecute := p.workToExecute[1..],
          units := p.units[u := p.units[u].(isBeingExecuted := true)],
          workers := p.workers[w := Worker(Some(u), Running)]),
       Returned(true))
    else if p.shuttingDown || NoWait(p.keepAliveTime) then
      (p.(workers := p.workers[w := Worker(None, Leaving)]), Returned(false))
    else
      (p.(workersWaiting := p.workersWaiting + [w],
          workers := p.workers[w := Worker(None, AwaitingWork)]),
       Parked(w))
  }

  /**
   * A worker parked in `fetchWork` once its timed `await` returns: it runs
   * on once it has been handed a unit, whatever woke it; otherwise a wake
   * before the deadline waits on, and a timeout or an interrupt takes it off
   * the waiting list and ends it.
   */
  function ResumeFetch<C>(p: Pool<C>, w: nat, wake: Wake): (r: (Pool<C>, Step<bool>))
    requires w in p.workers && p.workers[w].at == AwaitingWork
    ensures p.workers[w].workUnit.Some? ==>
      r.1 == Returned(true) && r.0 == p.(workers := p.workers[w := p.workers[w].(at := Running)])
    ensures p.workers[w].workUnit == None && wake == Woken ==> r == (p, Parked(w))
    ensures p.workers[w].workUnit == None && wake != Woken ==>
      && r.1 == Returned(false)
      && r.0.workersWaiting == RemoveFirst(p.workersWaiting, w)
      && r.0.workers == p.workers[w := Worker(None, Leaving)]
    ensures r.0.workers.Keys == p.workers.Keys && r.0.workPendingCounter == p.workPendingCounter
  {
    if p.workers[w].workUnit.Some? then
      (p.(workers := p.workers[w := p.workers[w].(at := Running)]), Returned(true))
    else if wake == Woken then (p, Parked(w))
    else
      (p.(workersWaiting := RemoveFirst(p.workersWaiting, w),
          workers := p.workers[w := Worker(None, Leaving)]),
       Returned(false))
  }

  /** A worker thread ends as written: it is gone, but the counter of started workers keeps it. */
  function RetireAsWritten<C>(p: Pool<C>, w: nat): (p': Pool<C>)
    requires w in p.workers && p.workers[w].at == Leaving
    ensures p'.workers == p.workers - {w}
    ensures p'.workersCounter == p.workersCounter
    ensures p'.(workers := p.workers) == p
  {
    p.(workers := p.workers - {w})
  }

  /** A worker thread ends and the counter of started workers gives its slot back. */
  function Retire<C>(p: Pool<C>, w: nat): (p': Pool<C>)
    requires w in p.workers && p.workers[w].at == Leaving
    ensures p'.workers == p.workers - {w}
    ensures p'.workersCounter == p.workersCounter - 1
    ensures p'.(workers := p.workers, workersCounter := p.workersCounter) == p
  {
    p.(workers := p.workers - {w}, workersCounter := p.workersCounter - 1)
  }

  /** Nothing is pending exactly when no unit is queued and no worker holds one. */
  lemma PendingZeroIffIdle<C>(p: Pool<C>)
    requires Valid(p)
    ensures p.workPendingCounter == 0 <==> Idle(p)
  {
    if exists w :: w in p.workers && p.workers[w].workUnit.Some? {
      var w :| w in p.workers && p.workers[w].workUnit.Some?;
      assert w in Busy(p.workers);
    } else {
      assert Busy(p.workers) == {};
    }
  }

  /** `awaitTermination` returns true at once exactly when the pool is idle. */
  lemma TerminatedAtOnceIffIdle<C>(p: Pool<C>, timeout: int)
    requires Valid(p)
    ensures AwaitTermination(p, timeout) == Done(true) <==> Idle(p)
  {
    PendingZeroIffIdle(p);
  }

  // Framing lemmas: how each kind of update touches one part of the invariant.

  lemma BusyAdd(workers: map<nat, Worker>, w: nat, v: Worker)
    requires (w !in workers || workers[w].workUnit == None) && v.workUnit.Some?
    ensures |Busy(workers[w := v])| == |Busy(workers)| + 1
  {
    assert Busy(workers[w := v]) == Busy(workers) + {w};
  }

  lemma BusyRemove(workers: map<nat, Worker>, w: nat, v: Worker)
    requires w in workers && workers[w].workUnit.Some? && v.workUnit == None
    ensures |Busy(workers[w := v])| == |Busy(workers)| - 1
  {
    assert Busy(workers[w := v]) == Busy(workers) - {w};
  }

  lemma KeysAdd(workers: map<nat, Worker>, w: nat, v: Worker)
    requires w !in workers
    ensures |workers[w := v].Keys| == |workers.Keys| + 1
  {
    assert workers[w := v].Keys == workers.Keys + {w};
  }

  lemma KeysDrop(workers: map<nat, Worker>, w: nat)
    requires w in workers
    ensures |(workers - {w}).Keys| == |workers.Keys| - 1
  {
    assert (workers - {w}).Keys == workers.Keys - {w};
  }

  lemma BusyKeep(workers: map<nat, Worker>, w: nat, v: Worker)
    requires w in workers && workers[w].workUnit == v.workUnit
    ensures |Busy(workers[w := v])| == |Busy(workers)|
  {
    assert Busy(workers[w := v]) == Busy(workers);
  }

  lemma BusyDrop(workers: map<nat, Worker>, w: nat)
    requires w in workers && workers[w].workUnit == None
    ensures |Busy(workers - {w})| == |Busy(workers)|
  {
    assert Busy(workers - {w}) == Busy(workers);
  }

  /** A worker whose unit agrees with its phase keeps the phases consistent. */
  lemma PhasesUpdate(workers: map<nat, Worker>, w: nat, v: Worker)
    requires PhasesAgree(workers)
    requires (v.at == Running ==> v.workUnit.Some?) && (v.at == Fetching || v.at == Leaving ==> v.workUnit == None)
    ensures PhasesAgree(workers[w := v])
  {
  }

  lemma WaitingFirstHandedOff(workers: map<nat, Worker>, waiting: seq<nat>, u: nat)
    requires WaitingListed(workers, waiting) && waiting != []
    ensures WaitingListed(workers[waiting[0] := workers[waiting[0]].(workUnit := Some(u))], waiting[1..])
  {
    var w := waiting[0];
    var workers' := workers[w := workers[w].(workUnit := Some(u))];
    assert waiting == [w] + waiting[1..];
    forall v | v in workers' && workers'[v] == Worker(None, AwaitingWork)
      ensures v in waiting[1..]
    {
      assert v != w && v in waiting;
    }
  }

  lemma WaitingUnlistedUpdate(workers: map<nat, Worker>, waiting: seq<nat>, w: nat, v: Worker)
    requires WaitingListed(workers, waiting)
    requires (w in workers ==> workers[w] != Worker(None, AwaitingWork)) && v != Worker(None, AwaitingWork)
    ensures WaitingListed(workers[w := v], waiting)
  {
    assert w !in waiting;
  }

  lemma WaitingUnlistedDrop(workers: map<nat, Worker>, waiting: seq<nat>, w: nat)
    requires WaitingListed(workers, waiting)
    requires w in workers && workers[w] != Worker(None, AwaitingWork)
    ensures WaitingListed(workers - {w}, waiting)
  {
    assert w !in waiting;
  }

  lemma WaitingParks(workers: map<nat, Worker>, waiting: seq<nat>, w: nat)
    requires WaitingListed(workers, waiting)
    requires w in workers && workers[w] != Worker(None, AwaitingWork)
    ensures WaitingListed(workers[w := Worker(None, AwaitingWork)], waiting + [w])
  {
    assert w !in waiting;
  }

  lemma WaitingGivesUp(workers: map<nat, Worker>, waiting: seq<nat>, w: nat)
    requires WaitingListed(workers, waiting)
    requires w in workers && workers[w] == Worker(None, AwaitingWork)
    ensures WaitingListed(workers[w := Worker(None, Leaving)], RemoveFirst(waiting, w))
  {
    var workers' := workers[w := Worker(None, Leaving)];
    var waiting' := RemoveFirst(waiting, w);
    assert Distinct(waiting') && w !in waiting';
    forall i | 0 <= i < |waiting'|
      ensures waiting'[i] in workers' && workers'[waiting'[i]] == Worker(None, AwaitingWork)
    {
      var x := waiting'[i];
      assert x in waiting && x != w;
    }
    forall v | v in workers' && workers'[v] == Worker(None, AwaitingWork)
      ensures v in waiting'
    {
      RemoveFirstKeeps(waiting, w, v);
    }
  }

  lemma QueueFreshUnit<C>(queue: seq<nat>, units: map<nat, WorkUnit<C>>, submitters: set<nat>, u: nat, x: WorkUnit<C>)
    requires QueueAwaited(queue, units, submitters) && u !in units
    ensures QueueAwaited(queue, units[u := x], submitters)
  {
  }

  lemma QueueEnqueue<C>(queue: seq<nat>, units: map<nat, WorkUnit<C>>, submitters: set<nat>, u: nat, x: WorkUnit<C>)
    requires QueueAwaited(queue, units, submitters) && u !in units && !x.isBeingExecuted
    ensures QueueAwaited(queue + [u], units[u := x], submitters + {u})
  {
    assert u !in queue;
  }

  lemma QueueTake<C>(queue: seq<nat>, units: map<nat, WorkUnit<C>>, submitters: set<nat>)
    requires QueueAwaited(queue, units, submitters) && queue != []
    ensures QueueAwaited(queue[1..], units[queue[0] := units[queue[0]].(isBeingExecuted := true)], submitters)
  {
    var u := queue[0];
    var units' := units[u := units[u].(isBeingExecuted := true)];
    assert queue == [u] + queue[1..];
    forall v | v in submitters
      ensures v in units' && (v in queue[1..] || units'[v].isBeingExecuted)
    {
      if v != u && v in queue {
        assert v in queue[1..];
      }
    }
  }

  lemma QueueWithdraw<C>(queue: seq<nat>, units: map<nat, WorkUnit<C>>, submitters: set<nat>, u: nat)
    requires QueueAwaited(queue, units, submitters) && u in submitters && !units[u].isBeingExecuted
    ensures QueueAwaited(RemoveFirst(queue, u), units, submitters - {u})
    ensures |RemoveFirst(queue, u)| == |queue| - 1
  {
    var queue' := RemoveFirst(queue, u);
    var i := IndexOf(queue, u);
    assert queue == queue[..i] + [u] + queue[i + 1..];
    forall j | 0 <= j < |queue'|
      ensures queue'[j] in units && !units[queue'[j]].isBeingExecuted && queue'[j] in submitters - {u}
    {
      assert queue'[j] in queue;
    }
    forall v | v in submitters - {u}
      ensures v in units && (v in queue' || units[v].isBeingExecuted)
    {
      if v in queue {
        RemoveFirstKeeps(queue, u, v);
      }
    }
  }

  lemma QueueReleaseExecuted<C>(queue: seq<nat>, units: map<nat, WorkUnit<C>>, submitters: set<nat>, u: nat)
    requires QueueAwaited(queue, units, submitters) && u in submitters && units[u].isBeingExecuted
    ensures QueueAwaited(queue, units, submitters - {u})
  {
  }

  // Preservation of the invariant, one transition at a time. Each also keeps
  // the worker counter exact when it was; only `RetireAsWritten` breaks that.

  lemma ExecutePreservesValid<C>(p: Pool<C>, command: C, timeout: int)
    requires Valid(p)
    ensures Valid(Execute(p, command, timeout).0)
    ensures Counted(p) ==> Counted(Execute(p, command, timeout).0)
  {
    if p.shuttingDown {
    } else if p.workersWaiting != [] {
      HandOffPreservesValid(p, command);
    } else if p.workersCounter < p.maxPoolSize {
      SpawnPreservesValid(p, command);
    } else if !NoWait(timeout) {
      EnqueuePreservesValid(p, command);
    }
  }

  lemma HandOffPreservesValid<C>(p: Pool<C>, command: C)
    requires Valid(p) && p.workersWaiting != []
    ensures Valid(HandOff(p, command)) && (Counted(p) ==> Counted(HandOff(p, command)))
  {
    var w := p.workersWaiting[0];
    var u := p.nextId;
    var r := HandOff(p, command);
    BusyAdd(p.workers, w, p.workers[w].(workUnit := Some(u)));
    assert r.workers.Keys == p.workers.Keys;
    WaitingFirstHandedOff(p.workers, p.workersWaiting, u);
    QueueFreshUnit(p.workToExecute, p.units, p.submitters, u, WorkUnit(command, false));
  }

  lemma SpawnPreservesValid<C>(p: Pool<C>, command: C)
    requires Valid(p) && p.workersCounter < p.maxPoolSize
    ensures Valid(Spawn(p, command)) && (Counted(p) ==> Counted(Spawn(p, command)))
  {
    SpawnKeepsWorkers(p, command);
    QueueFreshUnit(p.workToExecute, p.units, p.submitters, p.nextId, WorkUnit(command, false));
  }

  /** The parts of the invariant about workers survive starting one more. */
  lemma SpawnKeepsWorkers<C>(p: Pool<C>, command: C)
    requires Valid(p) && p.workersCounter < p.maxPoolSize
    ensures var r := Spawn(p, command);
      && Accounted(r) && WaitingListed(r.workers, r.workersWaiting) && PhasesAgree(r.workers)
      && (Counted(p) ==> Counted(r))
  {
    var w := p.nextId + 1;
    var v := Worker(Some(p.nextId), Running);
    assert w !in p.workers;
    SpawnKeepsAccounted(p, command);
    WaitingUnlistedUpdate(p.workers, p.workersWaiting, w, v);
    PhasesUpdate(p.workers, w, v);
  }

  /** Starting a worker on a fresh unit keeps the counters exact. */
  lemma SpawnKeepsAccounted<C>(p: Pool<C>, command: C)
    requires Valid(p) && p.workersCounter < p.maxPoolSize
    ensures Accounted(Spawn(p, command)) && (Counted(p) ==> Counted(Spawn(p, command)))
  {
    var w := p.nextId + 1;
    var v := Worker(Some(p.nextId), Running);
    assert w !in p.workers;
    BusyAdd(p.workers, w, v);
    KeysAdd(p.workers, w, v);
  }

  lemma EnqueuePreservesValid<C>(p: Pool<C>, command: C)
    requires Valid(p)
    ensures Valid(Enqueue(p, command)) && (Counted(p) ==> Counted(Enqueue(p, command)))
  {
    QueueEnqueue(p.workToExecute, p.units, p.submitters, p.nextId, WorkUnit(command, false));
  }

  lemma ResumeExecutePreservesValid<C>(p: Pool<C>, u: nat, wake: Wake)
    requires Valid(p) && u in p.submitters
    ensures Valid(ResumeExecute(p, u, wake).0)
    ensures Counted(p) ==> Counted(ResumeExecute(p, u, wake).0)
  {
    if p.units[u].isBeingExecuted {
      QueueReleaseExecuted(p.workToExecute, p.units, p.submitters, u);
    } else if wake != Woken {
      QueueWithdraw(p.workToExecute, p.units, p.submitters, u);
    }
  }

  lemma ShutdownPreservesValid<C>(p: Pool<C>)
    requires Valid(p)
    ensures Valid(Shutdown(p)) && (Counted(p) ==> Counted(Shutdown(p)))
  {
  }

  lemma CompleteWorkPreservesValid<C>(p: Pool<C>, w: nat)
    requires Valid(p) && w in p.workers && p.workers[w].at == Running
    ensures Valid(CompleteWork(p, w)) && (Counted(p) ==> Counted(CompleteWork(p, w)))
  {
    var r := CompleteWork(p, w);
    BusyRemove(p.workers, w, Worker(None, Fetching));
    assert r.workers.Keys == p.workers.Keys;
    WaitingUnlistedUpdate(p.workers, p.workersWaiting, w, Worker(None, Fetching));
  }

  lemma FetchWorkPreservesValid<C>(p: Pool<C>, w: nat)
    requires Valid(p) && w in p.workers && p.workers[w].at == Fetching
    ensures Valid(FetchWork(p, w).0) && (Counted(p) ==> Counted(FetchWork(p, w).0))
  {
    if p.workToExecute != [] {
      TakeQueuedPreservesValid(p, w);
    } else {
      var r := FetchWork(p, w).0;
      var v := r.workers[w];
      BusyKeep(p.workers, w, v);
      PhasesUpdate(p.workers, w, v);
      if v.at == Leaving {
        WaitingUnlistedUpdate(p.workers, p.workersWaiting, w, v);
      } else {
        WaitingParks(p.workers, p.workersWaiting, w);
      }
      assert r.workPendingCounter == |r.workToExecute| + |Busy(r.workers)|;
    }
  }

  lemma TakeQueuedPreservesValid<C>(p: Pool<C>, w: nat)
    requires Valid(p) && w in p.workers && p.workers[w].at == Fetching && p.workToExecute != []
    ensures Valid(FetchWork(p, w).0) && (Counted(p) ==> Counted(FetchWork(p, w).0))
  {
    var u := p.workToExecute[0];
    var r := FetchWork(p, w).0;
    BusyAdd(p.workers, w, Worker(Some(u), Running));
    PhasesUpdate(p.workers, w, Worker(Some(u), Running));
    WaitingUnlistedUpdate(p.workers, p.workersWaiting, w, Worker(Some(u), Running));
    QueueTake(p.workToExecute, p.units, p.submitters);
    assert r.workPendingCounter == |r.workToExecute| + |Busy(r.workers)|;
  }

  lemma ResumeFetchPreservesValid<C>(p: Pool<C>, w: nat, wake: Wake)
    requires Valid(p) && w in p.workers && p.workers[w].at == AwaitingWork
    ensures Valid(ResumeFetch(p, w, wake).0) && (Counted(p) ==> Counted(ResumeFetch(p, w, wake).0))
  {
    if p.workers[w].workUnit.Some? {
      BusyKeep(p.workers, w, p.workers[w].(at := Running));
      WaitingUnlistedUpdate(p.workers, p.workersWaiting, w, p.workers[w].(at := Running));
    } else if wake != Woken {
      GiveUpPreservesValid(p, w, wake);
    }
  }

  lemma GiveUpPreservesValid<C>(p: Pool<C>, w: nat, wake: Wake)
    requires Valid(p) && w in p.workers && p.workers[w] == Worker(None, AwaitingWork) && wake != Woken
    ensures Valid(ResumeFetch(p, w, wake).0) && (Counted(p) ==> Counted(ResumeFetch(p, w, wake).0))
  {
    BusyKeep(p.workers, w, Worker(None, Leaving));
    PhasesUpdate(p.workers, w, Worker(None, Leaving));
    WaitingGivesUp(p.workers, p.workersWaiting, w);
  }

  /** Ending a worker as written keeps the invariant, though not the exact count. */
  lemma RetireAsWrittenPreservesValid<C>(p: Pool<C>, w: nat)
    requires Valid(p) && w in p.workers && p.workers[w].at == Leaving
    ensures Valid(RetireAsWritten(p, w))
  {
    BusyDrop(p.workers, w);
    WaitingUnlistedDrop(p.workers, p.workersWaiting, w);
  }

  /** The corrected end of a worker keeps the invariant and the counter exact. */
  lemma RetirePreservesValid<C>(p: Pool<C>, w: nat)
    requires Valid(p) && w in p.workers && p.workers[w].at == Leaving
    ensures Valid(Retire(p, w))
    ensures Counted(p) ==> Counted(Retire(p, w))
  {
    BusyDrop(p.workers, w);
    WaitingUnlistedDrop(p.workers, p.workersWaiting, w);
  }

  /** `execute` with a zero timeout on each command in turn. */
  function ExecuteAllNoWait<C>(p: Pool<C>, commands: seq<C>): (r: (Pool<C>, seq<Step<bool>>))
    requires WellFormed(p)
    ensures WellFormed(r.0) && |r.1| == |commands|
    decreases |commands|
  {
    if commands == [] then (p, [])
    else
      var (p1, s) := Execute(p, commands[0], 0);
      var (p2, rest) := ExecuteAllNoWait(p1, commands[1..]);
      (p2, [s] + rest)
  }

  /**
   * With no idle worker and room for `n` more workers, `n` zero-timeout
   * commands each start a worker and succeed.
   */
  lemma {:induction false} ExecuteAllNoWaitStartsWorkers<C>(p: Pool<C>, commands: seq<C>)
    requires WellFormed(p) && !p.shuttingDown && p.workersWaiting == []
    requires p.workersCounter + |commands| <= p.maxPoolSize
    ensures var (p', steps) := ExecuteAllNoWait(p, commands);
      && (forall i | 0 <= i < |steps| :: steps[i] == Returned(true))
      && p'.workersCounter == p.workersCounter + |commands|
      && p'.workPendingCounter == p.workPendingCounter + |commands|
      && p'.workersWaiting == [] && !p'.shuttingDown && p'.maxPoolSize == p.maxPoolSize
    decreases |commands|
  {
    if commands != [] {
      var p1 := Spawn(p, commands[0]);
      assert Execute(p, commands[0], 0) == (p1, Returned(true));
      ExecuteAllNoWaitStartsWorkers(p1, commands[1..]);
    }
  }

  /**
   * A fresh pool of size S takes S zero-timeout commands, each on a worker
   * of its own, and refuses the next one.
   */
  lemma SaturatedPoolRefuses<C>(maxPoolSize: nat, keepAliveTime: int, commands: seq<C>, extra: C)
    requires |commands| == maxPoolSize
    ensures var (p, steps) := ExecuteAllNoWait(New<C>(maxPoolSize, keepAliveTime), commands);
      && (forall i | 0 <= i < |steps| :: steps[i] == Returned(true))
      && Execute(p, extra, 0) == (p, Returned(false))
  {
    ExecuteAllNoWaitStartsWorkers(New<C>(maxPoolSize, keepAliveTime), commands);
  }

  /**
   * As written, slots of ended workers are never given back: once the
   * counter has reached `maxPoolSize` and every worker has ended, a
   * zero-timeout command is refused and any other one is queued with no
   * live worker to take it.
   */
  lemma ExhaustedPoolStarves<C>(p: Pool<C>, command: C, timeout: int)
    requires Valid(p) && !p.shuttingDown
    requires p.workers == map[] && p.workersCounter >= p.maxPoolSize
    ensures NoWait(timeout) ==> Execute(p, command, timeout).1 == Returned(false)
    ensures !NoWait(timeout) ==>
      Execute(p, command, timeout).1.Parked? && Execute(p, command, timeout).0.workers == map[]
  {
  }

  /**
   * The run that reaches that state: in a pool of one worker with no
   * keep-alive, the only worker runs one unit and ends. As written, the pool
   * then has no live worker and still refuses a zero-timeout command.
   */
  lemma RetiredWorkerKeepsSlot<C>(c1: C, c2: C)
    ensures
      var (p1, s1) := Execute(New<C>(1, 0), c1, 0);
      var p2 := CompleteWork(p1, 1);
      var (p3, s3) := FetchWork(p2, 1);
      var p4 := RetireAsWritten(p3, 1);
      && s1 == Returned(true) && s3 == Returned(false)
      && p4.workers == map[] && p4.workPendingCounter == 0 && !Counted(p4)
      && Execute(p4, c2, 0).1 == Returned(false)
  {
  }

  /** With the slot given back, the same run leaves the pool able to start a worker again. */
  lemma RetireFreesSlot<C>(c1: C, c2: C)
    ensures
      var (p1, s1) := Execute(New<C>(1, 0), c1, 0);
      var p2 := CompleteWork(p1, 1);
      var (p3, s3) := FetchWork(p2, 1);
      var p4 := Retire(p3, 1);
      && s1 == Returned(true) && s3 == Returned(false)
      && p4.workers == map[] && Counted(p4)
      && Execute(p4, c2, 0).1 == Returned(true)
  {
  }

  /**
   * With the slot given back the counter stays exact, so a pool whose
   * workers have all ended starts a new one for the next command.
   */
  lemma CountedPoolStartsWorker<C>(p: Pool<C>, command: C, timeout: int)
    requires Valid(p) && Counted(p) && !p.shuttingDown
    requires p.workers == map[] && p.maxPoolSize > 0
    ensures Execute(p, command, timeout).1 == Returned(true)
    ensures |Execute(p, command, timeout).0.workers.Keys| == 1
  {
    KeysAdd(p.workers, p.nextId + 1, Worker(Some(p.nextId), Running));
  }
}
