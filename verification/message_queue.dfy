/**
 * The blocking message queue: `send` hands a message straight to the oldest
 * parked receiver, or queues it behind a cancellable ticket; `receive`
 * takes the oldest queued message, or parks until a sender serves it.
 *
 * Tickets (`WaitingStatus`) and receivers (`Receiver`) are objects with
 * identity; they live in the heaps `tickets` and `inbox` under ids drawn
 * from `nextId`. `messages` and `receivers` are the two FIFO lists of ids;
 * `waiting` holds the receivers whose `receive` call is still parked.
 */
module MessageQueue {
  import opened Sync

  /** A queued send: its message and the two flags its owner can observe. */
  datatype Ticket<T> = Ticket(message: T, isSent: bool, canceled: bool)

  /** What `send` returns: an already delivered status, or a ticket. */
  datatype SendStatus = Delivered | Waiting(id: nat)

  datatype Queue<T> = Queue(
    messages: seq<nat>,
    receivers: seq<nat>,
    tickets: map<nat, Ticket<T>>,
    inbox: map<nat, Option<T>>,
    waiting: set<nat>,
    nextId: nat)

  /** Reference safety: no id dangles and every allocated id is below `nextId`. */
  ghost predicate WellFormed<T>(q: Queue<T>) {
    && (forall i | 0 <= i < |q.messages| :: q.messages[i] in q.tickets)
    && (forall i | 0 <= i < |q.receivers| :: q.receivers[i] in q.inbox)
    && (forall id | id in q.waiting :: id in q.inbox)
    && (forall id | id in q.tickets :: id < q.nextId)
    && (forall id | id in q.inbox :: id < q.nextId)
  }

  /**
   * The queue's invariant. Queued tickets are exactly the tickets neither
   * sent nor canceled; a canceled ticket is never sent; parked receivers are
   * exactly the waiting receivers that have not been served.
   */
  ghost predicate Valid<T>(q: Queue<T>) {
    && WellFormed(q)
    && Distinct(q.messages)
    && Distinct(q.receivers)
    && (forall id | id in q.tickets ::
          (id in q.messages <==> !q.tickets[id].isSent && !q.tickets[id].canceled))
    && (forall id | id in q.tickets :: q.tickets[id].canceled ==> !q.tickets[id].isSent)
    && (forall id | id in q.inbox ::
          (id in q.receivers <==> id in q.waiting && q.inbox[id] == None))
  }

  /** The messages waiting to be received, oldest first. */
  function Pending<T>(q: Queue<T>): (p: seq<T>)
    requires WellFormed(q)
    ensures |p| == |q.messages|
  {
    seq(|q.messages|, i requires 0 <= i < |q.messages| => q.tickets[q.messages[i]].message)
  }

  function Empty<T>(): Queue<T> {
    Queue([], [], map[], map[], {}, 0)
  }

  /** A new queue has nothing pending and no parked receiver. */
  lemma EmptyIsValid<T>()
    ensures Valid(Empty<T>()) && Pending(Empty<T>()) == [] && Empty<T>().receivers == []
  { }

  /**
   * `send`: serve the oldest parked receiver and report delivery, or queue a
   * fresh unsent, uncanceled ticket at the end and return it.
   */
  function Send<T>(q: Queue<T>, sentMsg: T): (r: (Queue<T>, SendStatus))
    requires WellFormed(q)
    ensures WellFormed(r.0) && r.0.nextId >= q.nextId
    ensures q.receivers != [] ==>
      && r.1 == Delivered
      && r.0.receivers == q.receivers[1..]
      && r.0.inbox == q.inbox[q.receivers[0] := Some(sentMsg)]
      && r.0.messages == q.messages && r.0.tickets == q.tickets
    ensures q.receivers == [] ==>
      && r.1.Waiting? && r.1.id !in q.tickets && r.1.id !in q.inbox
      && r.0.messages == q.messages + [r.1.id]
      && r.0.tickets == q.tickets[r.1.id := Ticket(sentMsg, false, false)]
      && r.0.receivers == q.receivers && r.0.inbox == q.inbox
      && Pending(r.0) == Pending(q) + [sentMsg]
    ensures r.0.waiting == q.waiting
  {
    if q.receivers != [] then
      var receiver := q.receivers[0];
      (q.(receivers := q.receivers[1..], inbox := q.inbox[receiver := Some(sentMsg)]), Delivered)
    else
      var id := q.nextId;
      var q' := q.(messages := q.messages + [id],
                   tickets := q.tickets[id := Ticket(sentMsg, false, false)],
                   nextId := id + 1);
      assert Pending(q') == Pending(q) + [sentMsg];
      (q', Waiting(id))
  }

  /**
   * The critical section `receive` runs on entry: take the oldest queued
   * message and mark its ticket sent, give up at once on a zero timeout, or
   * register a fresh receiver at the end of `receivers` and park.
   */
  function Receive<T>(q: Queue<T>, timeout: int): (r: (Queue<T>, Step<Option<T>>))
    requires WellFormed(q)
    ensures WellFormed(r.0) && r.0.nextId >= q.nextId
    ensures q.messages != [] ==>
      && r.1 == Returned(Some(Pending(q)[0]))
      && r.0.messages == q.messages[1..]
      && Pending(r.0) == Pending(q)[1..]
      && r.0.tickets == q.tickets[q.messages[0] := q.tickets[q.messages[0]].(isSent := true)]
      && r.0.receivers == q.receivers && r.0.inbox == q.inbox && r.0.waiting == q.waiting
    ensures q.messages == [] && NoWait(timeout) ==> r == (q, Returned(None))
    ensures q.messages == [] && !NoWait(timeout) ==>
      && r.1.Parked? && r.1.id !in q.inbox && r.1.id !in q.tickets
      && r.0.receivers == q.receivers + [r.1.id]
      && r.0.inbox == q.inbox[r.1.id := None]
      && r.0.waiting == q.waiting + {r.1.id}
      && r.0.messages == q.messages && r.0.tickets == q.tickets
  {
    if q.messages != [] then
      var id := q.messages[0];
      var q' := q.(messages := q.messages[1..], tickets := q.tickets[id := q.tickets[id].(isSent := true)]);
      assert Pending(q') == Pending(q)[1..];
      (q', Returned(Some(q.tickets[id].message)))
    else if NoWait(timeout) then
      (q, Returned(None))
    else
      var id := q.nextId;
      (q.(receivers := q.receivers + [id],
          inbox := q.inbox[id := None],
          waiting := q.waiting + {id},
          nextId := id + 1),
       Parked(id))
  }

  /**
   * What a parked receiver does once its `await` returns: a served receiver
   * returns its message (also on interrupt); an unserved one removes itself
   * from `receivers` on expiry (empty result) or interrupt (rethrow), and
   * keeps waiting otherwise.
   */
  function ResumeReceive<T>(q: Queue<T>, id: nat, wake: Wake): (r: (Queue<T>, Step<Option<T>>))
    requires WellFormed(q) && id in q.waiting
    ensures WellFormed(r.0)
    ensures r.0.messages == q.messages && r.0.tickets == q.tickets && r.0.inbox == q.inbox
    ensures r.0.nextId == q.nextId
    ensures q.inbox[id].Some? ==>
      r == (q.(waiting := q.waiting - {id}), Returned(q.inbox[id]))
    ensures q.inbox[id] == None && wake == Woken ==> r == (q, Parked(id))
    ensures q.inbox[id] == None && wake != Woken ==>
      && r.0.receivers == RemoveFirst(q.receivers, id)
      && r.0.waiting == q.waiting - {id}
      && r.1 == (if wake == Expired then Returned(None) else Threw(InterruptedException))
  {
    var received := q.inbox[id];
    var left := q.(waiting := q.waiting - {id});
    match wake
    case Interrupted =>
      if received.Some? then (left, Returned(received))
      else (left.(receivers := RemoveFirst(q.receivers, id)), Threw(InterruptedException))
    case Woken =>
      if received.Some? then (left, Returned(received))
      else (q, Parked(id))
    case Expired =>
      if received.Some? then (left, Returned(received))
      else (left.(receivers := RemoveFirst(q.receivers, id)), Returned(None))
  }

  /** `SendStatus.isSent`: a delivered status always, a ticket once a receiver took it. */
  function IsSent<T>(q: Queue<T>, status: SendStatus): (sent: bool)
    requires status.Waiting? ==> status.id in q.tickets
    ensures status == Delivered ==> sent
    ensures Valid(q) && status.Waiting? ==>
      (sent <==> status.id !in q.messages && !q.tickets[status.id].canceled)
  {
    match status
    case Delivered => true
    case Waiting(id) => q.tickets[id].isSent
  }

  /**
   * `SendStatus.tryCancel`: fails on a delivered status or a sent ticket;
   * otherwise withdraws the ticket from `messages` and marks it canceled.
   */
  function TryCancel<T>(q: Queue<T>, status: SendStatus): (r: (Queue<T>, bool))
    requires WellFormed(q)
    requires status.Waiting? ==> status.id in q.tickets
    ensures WellFormed(r.0)
    ensures r.1 <==> !IsSent(q, status)
    ensures !r.1 ==> r.0 == q
    ensures r.1 ==>
      && r.0.messages == RemoveFirst(q.messages, status.id)
      && r.0.tickets == q.tickets[status.id := q.tickets[status.id].(canceled := true)]
      && r.0.receivers == q.receivers && r.0.inbox == q.inbox && r.0.waiting == q.waiting
      && r.0.nextId == q.nextId
  {
    match status
    case Delivered => (q, false)
    case Waiting(id) =>
      if q.tickets[id].isSent then (q, false)
      else
        (q.(messages := RemoveFirst(q.messages, id), tickets := q.tickets[id := q.tickets[id].(canceled := true)]), true)
  }

  /**
   * The entry of `SendStatus.await`: true at once when sent, false at once
   * on a zero timeout or a canceled ticket, otherwise park on the ticket.
   */
  function AwaitSent<T>(q: Queue<T>, status: SendStatus, timeout: int): (r: Step<bool>)
    requires status.Waiting? ==> status.id in q.tickets
    ensures IsSent(q, status) ==> r == Returned(true)
    ensures !IsSent(q, status) && (NoWait(timeout) || q.tickets[status.id].canceled) ==> r == Returned(false)
    ensures r.Parked? <==> !IsSent(q, status) && !NoWait(timeout) && !q.tickets[status.id].canceled
    ensures r.Parked? ==> r.id == status.id
  {
    match status
    case Delivered => Returned(true)
    case Waiting(id) =>
      if q.tickets[id].isSent then Returned(true)
      else if NoWait(timeout) || q.tickets[id].canceled then Returned(false)
      else Parked(id)
  }

  lemma SendPreservesValid<T>(q: Queue<T>, sentMsg: T)
    requires Valid(q)
    ensures Valid(Send(q, sentMsg).0)
  {
    var r := Send(q, sentMsg).0;
    if q.receivers == [] {
      assert q.nextId !in q.tickets && q.nextId !in q.messages;
      assert forall i | 0 <= i < |q.messages| :: q.messages[i] < q.nextId;
    } else {
      var head := q.receivers[0];
      assert q.receivers == [head] + r.receivers;
      forall id | id in r.inbox
        ensures id in r.receivers <==> id in r.waiting && r.inbox[id] == None
      {
        if id == head {
          assert head !in r.receivers;
        } else {
          assert id in q.receivers <==> id in r.receivers;
        }
      }
    }
  }

  lemma ReceivePreservesValid<T>(q: Queue<T>, timeout: int)
    requires Valid(q)
    ensures Valid(Receive(q, timeout).0)
  {
    var r := Receive(q, timeout).0;
    if q.messages != [] {
      var head := q.messages[0];
      assert q.messages == [head] + r.messages;
      forall id | id in r.tickets
        ensures id in r.messages <==> !r.tickets[id].isSent && !r.tickets[id].canceled
      {
        if id == head {
          assert head !in r.messages;
        } else {
          assert id in q.messages <==> id in r.messages;
        }
      }
    } else if !NoWait(timeout) {
      assert q.nextId !in q.inbox;
      assert forall i | 0 <= i < |q.receivers| :: q.receivers[i] < q.nextId;
    }
  }

  lemma ResumeReceivePreservesValid<T>(q: Queue<T>, id: nat, wake: Wake)
    requires Valid(q) && id in q.waiting
    ensures Valid(ResumeReceive(q, id, wake).0)
  {
    var r := ResumeReceive(q, id, wake).0;
    if q.inbox[id] == None && wake != Woken {
      forall j | j in r.inbox
        ensures j in r.receivers <==> j in r.waiting && r.inbox[j] == None
      {
        if j != id && j in q.receivers {
          RemoveFirstKeeps(q.receivers, id, j);
        }
      }
    }
  }

  lemma TryCancelPreservesValid<T>(q: Queue<T>, status: SendStatus)
    requires Valid(q) && (status.Waiting? ==> status.id in q.tickets)
    ensures Valid(TryCancel(q, status).0)
  {
    var (r, ok) := TryCancel(q, status);
    if ok {
      forall j | j in r.tickets
        ensures j in r.messages <==> !r.tickets[j].isSent && !r.tickets[j].canceled
      {
        if j != status.id && j in q.messages {
          RemoveFirstKeeps(q.messages, status.id, j);
        }
      }
    }
  }

  /** A successful cancel leaves a ticket that reports unsent and whose `await` fails. */
  lemma CancelThenAwaitFails<T>(q: Queue<T>, id: nat, timeout: int)
    requires Valid(q) && id in q.tickets
    ensures
      var (q', ok) := TryCancel(q, Waiting(id));
      ok ==> !IsSent(q', Waiting(id)) && AwaitSent(q', Waiting(id), timeout) == Returned(false)
  {
  }

  /** The transitions the queue's callers can drive. */
  datatype Op<T> =
    | DoSend(msg: T)
    | DoReceive(timeout: int)
    | DoResumeReceive(receiver: nat, wake: Wake)
    | DoTryCancel(ticket: nat)

  /** Runs one transition; a call on an id it cannot name does nothing. */
  function Apply<T>(q: Queue<T>, op: Op<T>): (q': Queue<T>)
    requires WellFormed(q)
    ensures WellFormed(q')
  {
    match op
    case DoSend(m) => Send(q, m).0
    case DoReceive(t) => Receive(q, t).0
    case DoResumeReceive(id, w) => if id in q.waiting then ResumeReceive(q, id, w).0 else q
    case DoTryCancel(id) => if id in q.tickets then TryCancel(q, Waiting(id)).0 else q
  }

  function Run<T>(q: Queue<T>, ops: seq<Op<T>>): (q': Queue<T>)
    requires WellFormed(q)
    ensures WellFormed(q')
    decreases |ops|
  {
    if ops == [] then q else Run(Apply(q, ops[0]), ops[1..])
  }

  lemma ApplyPreservesValid<T>(q: Queue<T>, op: Op<T>)
    requires Valid(q)
    ensures Valid(Apply(q, op))
  {
    match op
    case DoSend(m) => SendPreservesValid(q, m);
    case DoReceive(t) => ReceivePreservesValid(q, t);
    case DoResumeReceive(id, w) => if id in q.waiting { ResumeReceivePreservesValid(q, id, w); }
    case DoTryCancel(id) => if id in q.tickets { TryCancelPreservesValid(q, Waiting(id)); }
  }

  /**
   * A canceled ticket is never delivered afterwards: whatever sends,
   * receives, wake-ups and cancels follow, it stays out of `messages` (so
   * no `receive` takes its message) and keeps reporting unsent.
   */
  lemma {:induction false} CanceledNeverDelivered<T>(q: Queue<T>, id: nat, ops: seq<Op<T>>)
    requires Valid(q) && id in q.tickets && q.tickets[id].canceled
    ensures
      var q' := Run(q, ops);
      && Valid(q')
      && id in q'.tickets && q'.tickets[id].canceled
      && id !in q'.messages && !IsSent(q', Waiting(id))
    decreases |ops|
  {
    if ops != [] {
      var q1 := Apply(q, ops[0]);
      ApplyPreservesValid(q, ops[0]);
      assert id in q1.tickets && q1.tickets[id].canceled;
      CanceledNeverDelivered(q1, id, ops[1..]);
    }
  }
}
