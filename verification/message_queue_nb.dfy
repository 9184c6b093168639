/**
 * The non-blocking message queue: the same contract as the blocking queue,
 * but pending tickets and parked receivers are kept in two lock-free linked
 * queues, and a ticket cannot be canceled. The main operations run over
 * the linked queue with the intended `get` (`LinkedQueueNB.Get`), the one
 * that moves `head`. The written `get` loses every item put after the
 * queue first drains; `SendAsWritten` and `ReceiveAsWritten` run over it,
 * and `SecondMessageLost` shows a message lost that way.
 *
 * Tickets and receivers live in the heaps `tickets` and `inbox` under ids
 * drawn from `nextId`; the two linked queues hold those ids; `waiting` holds
 * the receivers whose `receive` call is still parked.
 */
module MessageQueueNonBlocking {
  import opened Sync
  import LinkedQueueNB

  datatype Ticket<T> = Ticket(message: T, isSent: bool)

  /** What `send` returns: an already delivered status, or a ticket. */
  datatype SendStatus = Delivered | Waiting(id: nat)

  datatype QueueNB<T> = QueueNB(
    messages: LinkedQueueNB.LinkedQueue<nat>,
    receivers: LinkedQueueNB.LinkedQueue<nat>,
    tickets: map<nat, Ticket<T>>,
    inbox: map<nat, Option<T>>,
    waiting: set<nat>,
    nextId: nat)

  /**
   * Reference safety: both linked queues are well shaped, the ids they hold
   * name allocated tickets and receivers, and ids are below `nextId`.
   */
  ghost predicate WellFormed<T>(q: QueueNB<T>) {
    && LinkedQueueNB.Valid(q.messages) && LinkedQueueNB.Valid(q.receivers)
    && (forall id | id in LinkedQueueNB.Contents(q.messages) :: id in q.tickets)
    && (forall id | id in LinkedQueueNB.Contents(q.receivers) :: id in q.inbox)
    && (forall id | id in q.waiting :: id in q.inbox)
    && (forall id | id in q.tickets :: id < q.nextId)
    && (forall id | id in q.inbox :: id < q.nextId)
  }

  /**
   * The queue's invariant: the queued tickets are exactly the unsent ones,
   * each once; every queued receiver is unserved; every waiting receiver
   * that is unserved is still queued. Queued receivers need not be waiting:
   * a receiver that gave up stays queued.
   */
  ghost predicate Valid<T>(q: QueueNB<T>) {
    && WellFormed(q)
    && Distinct(LinkedQueueNB.Contents(q.messages))
    && Distinct(LinkedQueueNB.Contents(q.receivers))
    && (forall id | id in q.tickets :: (id in LinkedQueueNB.Contents(q.messages) <==> !q.tickets[id].isSent))
    && (forall id | id in LinkedQueueNB.Contents(q.receivers) :: q.inbox[id] == None)
    && (forall id | id in q.waiting && q.inbox[id] == None :: id in LinkedQueueNB.Contents(q.receivers))
  }

  /** The messages waiting to be received, oldest first. */
  ghost function Pending<T>(q: QueueNB<T>): (p: seq<T>)
    requires WellFormed(q)
    ensures |p| == |LinkedQueueNB.Contents(q.messages)|
  {
    var ids := LinkedQueueNB.Contents(q.messages);
    seq(|ids|, i requires 0 <= i < |ids| => q.tickets[ids[i]].message)
  }

  function Empty<T>(): QueueNB<T> {
    QueueNB(LinkedQueueNB.New(), LinkedQueueNB.New(), map[], map[], {}, 0)
  }

  /** A new queue has nothing pending, no queued receiver and no parked caller. */
  lemma EmptyIsValid<T>()
    ensures var q := Empty<T>();
      && Valid(q) && Pending(q) == [] && LinkedQueueNB.Contents(q.receivers) == [] && q.waiting == {}
  {
    LinkedQueueNB.NewIsEmpty<nat>();
  }

  /**
   * `send`: if some receiver is queued, take the oldest, give it the
   * message and report delivery; otherwise queue a fresh unsent ticket.
   */
  function Send<T>(q: QueueNB<T>, sentMsg: T): (r: (QueueNB<T>, SendStatus))
    requires WellFormed(q)
    ensures WellFormed(r.0) && r.0.nextId >= q.nextId && r.0.waiting == q.waiting
    ensures LinkedQueueNB.Contents(q.receivers) != [] ==>
      && r.1 == Delivered
      && LinkedQueueNB.Contents(r.0.receivers) == LinkedQueueNB.Contents(q.receivers)[1..]
      && r.0.inbox == q.inbox[LinkedQueueNB.Contents(q.receivers)[0] := Some(sentMsg)]
      && r.0.messages == q.messages && r.0.tickets == q.tickets
    ensures LinkedQueueNB.Contents(q.receivers) == [] ==>
      && r.1.Waiting? && r.1.id !in q.tickets && r.1.id !in q.inbox
      && LinkedQueueNB.Contents(r.0.messages) == LinkedQueueNB.Contents(q.messages) + [r.1.id]
      && r.0.tickets == q.tickets[r.1.id := Ticket(sentMsg, false)]
      && Pending(r.0) == Pending(q) + [sentMsg]
      && r.0.receivers == q.receivers && r.0.inbox == q.inbox
  {
    if LinkedQueueNB.IsNotEmpty(q.receivers) then (Deliver(q, sentMsg), Delivered)
    else
      var (q', id) := QueueTicket(q, sentMsg);
      (q', Waiting(id))
  }

  /** The delivering branch of `send`: the oldest queued receiver gets the message. */
  function Deliver<T>(q: QueueNB<T>, sentMsg: T): (q': QueueNB<T>)
    requires WellFormed(q) && LinkedQueueNB.Contents(q.receivers) != []
    ensures WellFormed(q') && q'.nextId == q.nextId && q'.waiting == q.waiting
    ensures LinkedQueueNB.Contents(q'.receivers) == LinkedQueueNB.Contents(q.receivers)[1..]
    ensures q'.inbox == q.inbox[LinkedQueueNB.Contents(q.receivers)[0] := Some(sentMsg)]
    ensures q'.messages == q.messages && q'.tickets == q.tickets
  {
    LinkedQueueNB.GetTakesOldest(q.receivers);
    var (receivers, receiver) := LinkedQueueNB.Get(q.receivers);
    assert receiver.value in LinkedQueueNB.Contents(q.receivers);
    q.(receivers := receivers, inbox := q.inbox[receiver.value := Some(sentMsg)])
  }

  /** The queueing branch of `send`: a fresh unsent ticket goes to the end of the queue. */
  function QueueTicket<T>(q: QueueNB<T>, sentMsg: T): (r: (QueueNB<T>, nat))
    requires WellFormed(q)
    ensures WellFormed(r.0) && r.0.nextId > q.nextId && r.0.waiting == q.waiting
    ensures r.1 !in q.tickets && r.1 !in q.inbox && r.1 == q.nextId
    ensures LinkedQueueNB.Contents(r.0.messages) == LinkedQueueNB.Contents(q.messages) + [r.1]
    ensures r.0.tickets == q.tickets[r.1 := Ticket(sentMsg, false)]
    ensures Pending(r.0) == Pending(q) + [sentMsg]
    ensures r.0.receivers == q.receivers && r.0.inbox == q.inbox
  {
    var id := q.nextId;
    LinkedQueueNB.PutAppends(q.messages, id);
    var (messages, _) := LinkedQueueNB.Put(q.messages, id);
    var q' := q.(messages := messages, tickets := q.tickets[id := Ticket(sentMsg, false)], nextId := id + 1);
    MessagesAppend(LinkedQueueNB.Contents(q.messages), id, q.tickets, Ticket(sentMsg, false));
    (q', id)
  }

  /** The messages of queued tickets, after one more ticket is queued under a fresh id. */
  lemma MessagesAppend<T>(ids: seq<nat>, id: nat, tickets: map<nat, Ticket<T>>, t: Ticket<T>)
    requires forall x | x in ids :: x in tickets
    requires id !in tickets
    ensures var ids' := ids + [id];
      var tickets' := tickets[id := t];
      seq(|ids'|, i requires 0 <= i < |ids'| => tickets'[ids'[i]].message)
      == seq(|ids|, i requires 0 <= i < |ids| => tickets[ids[i]].message) + [t.message]
  {
    var ids' := ids + [id];
    forall i | 0 <= i < |ids|
      ensures ids'[i] == ids[i] && ids[i] != id
    {
      assert ids[i] in ids;
    }
  }

  /** Take the oldest queued ticket, mark it sent and yield its message. */
  function TakeMessage<T>(q: QueueNB<T>): (r: (QueueNB<T>, T))
    requires WellFormed(q) && LinkedQueueNB.Contents(q.messages) != []
    ensures WellFormed(r.0)
    ensures var id := LinkedQueueNB.Contents(q.messages)[0];
      && r.1 == Pending(q)[0]
      && LinkedQueueNB.Contents(r.0.messages) == LinkedQueueNB.Contents(q.messages)[1..]
      && Pending(r.0) == Pending(q)[1..]
      && r.0.tickets == q.tickets[id := q.tickets[id].(isSent := true)]
      && r.0.receivers == q.receivers && r.0.inbox == q.inbox
      && r.0.waiting == q.waiting && r.0.nextId == q.nextId
  {
    LinkedQueueNB.GetTakesOldest(q.messages);
    var (messages, taken) := LinkedQueueNB.Get(q.messages);
    var id := taken.value;
    var q' := q.(messages := messages, tickets := q.tickets[id := q.tickets[id].(isSent := true)]);
    assert Pending(q') == Pending(q)[1..];
    (q', q.tickets[id].message)
  }

  /**
   * The entry of `receive`: take the oldest queued message, give up at once
   * on a zero timeout, or queue a fresh receiver and park.
   */
  function Receive<T>(q: QueueNB<T>, timeout: int): (r: (QueueNB<T>, Step<Option<T>>))
    requires WellFormed(q)
    ensures WellFormed(r.0) && r.0.nextId >= q.nextId
    ensures Pending(q) != [] ==>
      && r.1 == Returned(Some(Pending(q)[0]))
      && Pending(r.0) == Pending(q)[1..]
      && r.0.receivers == q.receivers && r.0.waiting == q.waiting
    ensures Pending(q) == [] && NoWait(timeout) ==> r == (q, Returned(None))
    ensures Pending(q) == [] && !NoWait(timeout) ==>
      && r.1.Parked? && r.1.id !in q.inbox && r.1.id !in q.tickets
      && LinkedQueueNB.Contents(r.0.receivers) == LinkedQueueNB.Contents(q.receivers) + [r.1.id]
      && r.0.inbox == q.inbox[r.1.id := None]
      && r.0.waiting == q.waiting + {r.1.id}
      && r.0.messages == q.messages && r.0.tickets == q.tickets
  {
    if LinkedQueueNB.IsNotEmpty(q.messages) then
      var (q', m) := TakeMessage(q);
      (q', Returned(Some(m)))
    else if NoWait(timeout) then
      (q, Returned(None))
    else
      var id := q.nextId;
      LinkedQueueNB.PutAppends(q.receivers, id);
      var (receivers, _) := LinkedQueueNB.Put(q.receivers, id);
      (q.(receivers := receivers, inbox := q.inbox[id := None], waiting := q.waiting + {id}, nextId := id + 1),
       Parked(id))
  }

  /**
   * What a parked receiver does once its `await` returns. A served receiver
   * returns its message (also on interrupt); an unserved one rethrows an
   * interrupt, and otherwise re-runs the loop: take a queued message if
   * there is one, give up empty on expiry, or park again. In no case does it
   * leave the receivers queue.
   */
  function ResumeReceive<T>(q: QueueNB<T>, id: nat, wake: Wake): (r: (QueueNB<T>, Step<Option<T>>))
    requires WellFormed(q) && id in q.waiting
    ensures WellFormed(r.0)
    ensures r.0.receivers == q.receivers && r.0.inbox == q.inbox && r.0.nextId == q.nextId
    ensures r.0.waiting == if r.1.Parked? then q.waiting else q.waiting - {id}
    ensures q.inbox[id].Some? ==> r.1 == Returned(q.inbox[id]) && r.0.messages == q.messages
    ensures q.inbox[id] == None && wake == Interrupted ==> r == (q.(waiting := q.waiting - {id}), Threw(InterruptedException))
    ensures q.inbox[id] == None && wake != Interrupted ==>
      if Pending(q) != [] then r.1 == Returned(Some(Pending(q)[0])) && Pending(r.0) == Pending(q)[1..]
      else r.0.messages == q.messages && r.1 == (if wake == Expired then Returned(None) else Parked(id))
  {
    var left := q.(waiting := q.waiting - {id});
    if q.inbox[id].Some? then (left, Returned(q.inbox[id]))
    else if wake == Interrupted then (left, Threw(InterruptedException))
    else if LinkedQueueNB.IsNotEmpty(q.messages) then
      var (q', m) := TakeMessage(left);
      (q', Returned(Some(m)))
    else if wake == Expired then (left, Returned(None))
    else (q, Parked(id))
  }

  /** `SendStatusNB.isSent`: a delivered status always, a ticket once a receiver took it. */
  function IsSent<T>(q: QueueNB<T>, status: SendStatus): (sent: bool)
    requires status.Waiting? ==> status.id in q.tickets
    ensures status == Delivered ==> sent
    ensures Valid(q) && status.Waiting? ==> (sent <==> status.id !in LinkedQueueNB.Contents(q.messages))
  {
    match status
    case Delivered => true
    case Waiting(id) => q.tickets[id].isSent
  }

  /** The entry of `await`: true at once when sent, false at once on a zero timeout, else park. */
  function AwaitSent<T>(q: QueueNB<T>, status: SendStatus, timeout: int): (r: Step<bool>)
    requires status.Waiting? ==> status.id in q.tickets
    ensures IsSent(q, status) ==> r == Returned(true)
    ensures !IsSent(q, status) && NoWait(timeout) ==> r == Returned(false)
    ensures r.Parked? <==> !IsSent(q, status) && !NoWait(timeout)
    ensures r.Parked? ==> r.id == status.id
  {
    match status
    case Delivered => Returned(true)
    case Waiting(id) =>
      if q.tickets[id].isSent then Returned(true)
      else if NoWait(timeout) then Returned(false)
      else Parked(id)
  }

  /** Ids below `nextId` exclude the fresh one, so appending it keeps a sequence distinct. */
  lemma AppendFresh(s: seq<nat>, id: nat)
    requires Distinct(s) && forall x | x in s :: x < id
    ensures Distinct(s + [id])
  {
    var t := s + [id];
    forall i, j | 0 <= i < j < |t|
      ensures t[i] != t[j]
    {
      if j == |s| {
        assert t[i] == s[i] && s[i] in s;
      }
    }
  }

  lemma TakeMessagePreservesValid<T>(q: QueueNB<T>)
    requires Valid(q) && LinkedQueueNB.Contents(q.messages) != []
    ensures Valid(TakeMessage(q).0)
  {
    var r := TakeMessage(q).0;
    var ids := LinkedQueueNB.Contents(q.messages);
    assert ids == [ids[0]] + LinkedQueueNB.Contents(r.messages);
    forall id | id in r.tickets
      ensures id in LinkedQueueNB.Contents(r.messages) <==> !r.tickets[id].isSent
    {
      if id != ids[0] {
        assert id in ids <==> id in LinkedQueueNB.Contents(r.messages);
      }
    }
  }

  lemma SendPreservesValid<T>(q: QueueNB<T>, sentMsg: T)
    requires Valid(q)
    ensures Valid(Send(q, sentMsg).0)
  {
    if LinkedQueueNB.Contents(q.receivers) != [] {
      DeliverPreservesValid(q, sentMsg);
    } else {
      QueueTicketPreservesValid(q, sentMsg);
    }
  }

  lemma DeliverPreservesValid<T>(q: QueueNB<T>, sentMsg: T)
    requires Valid(q) && LinkedQueueNB.Contents(q.receivers) != []
    ensures Valid(Deliver(q, sentMsg))
  {
    var r := Deliver(q, sentMsg);
    var rs := LinkedQueueNB.Contents(q.receivers);
    DropAt(rs, 0);
    assert LinkedQueueNB.Contents(r.receivers) == rs[..0] + rs[1..];
    forall id | id in r.waiting && r.inbox[id] == None
      ensures id in LinkedQueueNB.Contents(r.receivers)
    {
      assert id != rs[0];
    }
  }

  lemma QueueTicketPreservesValid<T>(q: QueueNB<T>, sentMsg: T)
    requires Valid(q)
    ensures Valid(QueueTicket(q, sentMsg).0)
  {
    AppendFresh(LinkedQueueNB.Contents(q.messages), q.nextId);
  }

  lemma ReceivePreservesValid<T>(q: QueueNB<T>, timeout: int)
    requires Valid(q)
    ensures Valid(Receive(q, timeout).0)
  {
    if LinkedQueueNB.Contents(q.messages) != [] {
      TakeMessagePreservesValid(q);
    } else if !NoWait(timeout) {
      AppendFresh(LinkedQueueNB.Contents(q.receivers), q.nextId);
    }
  }

  lemma ResumeReceivePreservesValid<T>(q: QueueNB<T>, id: nat, wake: Wake)
    requires Valid(q) && id in q.waiting
    ensures Valid(ResumeReceive(q, id, wake).0)
  {
    if q.inbox[id] == None && wake != Interrupted && LinkedQueueNB.Contents(q.messages) != [] {
      TakeMessagePreservesValid(q.(waiting := q.waiting - {id}));
    }
  }

  /**
   * A receiver that gave up stays in the receivers queue, so the next send
   * hands it the message and reports delivery although nobody will ever
   * return that message, and the message is not queued for a later receive.
   */
  lemma AbandonedReceiverSwallowsMessage<T>(q: QueueNB<T>, timeout: int, m: T)
    requires Valid(q) && Pending(q) == [] && LinkedQueueNB.Contents(q.receivers) == [] && !NoWait(timeout)
    ensures
      var (q1, registered) := Receive(q, timeout);
      && registered.Parked?
      && var (q2, gaveUp) := ResumeReceive(q1, registered.id, Expired);
      && gaveUp == Returned(None)
      && registered.id !in q2.waiting
      && LinkedQueueNB.Contents(q2.receivers) == [registered.id]
      && var (q3, status) := Send(q2, m);
      && status == Delivered
      && q3.inbox[registered.id] == Some(m)
      && Pending(q3) == []
  {
  }

  // The operations over the linked queue's `get` as written, which unlinks
  // the first node from the dummy but moves neither `head` nor `tail`.

  /**
   * What the written `get` keeps true of a linked queue of ids: every node
   * some node points to carries an item, and every item names an entry of
   * `ids`.
   */
  ghost predicate Stocked(lq: LinkedQueueNB.LinkedQueue<nat>, ids: set<nat>) {
    && LinkedQueueNB.Linked(lq)
    && (forall n | n in lq.nodes && lq.nodes[n].next.Some? :: lq.nodes[lq.nodes[n].next.value].item.Some?)
    && (forall n | n in lq.nodes && lq.nodes[n].item.Some? :: lq.nodes[n].item.value in ids)
  }

  /** Reference safety for the operations over the written `get`. */
  ghost predicate WrittenShape<T>(q: QueueNB<T>) {
    && Stocked(q.messages, q.tickets.Keys)
    && Stocked(q.receivers, q.inbox.Keys)
    && (forall id | id in q.tickets :: id < q.nextId)
    && (forall id | id in q.inbox :: id < q.nextId)
  }

  /** The written `get` yields an id of `ids` and keeps the queue stocked. */
  lemma GetAsWrittenStocked(lq: LinkedQueueNB.LinkedQueue<nat>, ids: set<nat>)
    requires Stocked(lq, ids) && LinkedQueueNB.IsNotEmpty(lq)
    ensures var (lq', item) := LinkedQueueNB.GetAsWritten(lq);
      && Stocked(lq', ids) && item.Some? && item.value in ids
  {
  }

  /** `put` of an id already in `ids` keeps the queue stocked, over any larger set of ids. */
  lemma PutStocked(lq: LinkedQueueNB.LinkedQueue<nat>, ids: set<nat>, id: nat, ids': set<nat>)
    requires Stocked(lq, ids) && ids <= ids' && id in ids'
    ensures Stocked(LinkedQueueNB.Put(lq, id).0, ids')
  {
    var lq' := LinkedQueueNB.Put(lq, id).0;
    var last := LinkedQueueNB.AdvanceTail(lq, lq.tail);
    forall n | n in lq'.nodes && lq'.nodes[n].next.Some?
      ensures lq'.nodes[lq'.nodes[n].next.value].item.Some?
    {
      if n != last && n != lq.nextId {
        assert lq'.nodes[n] == lq.nodes[n];
        assert lq.nodes[n].next.value < lq.nextId;
      }
    }
  }

  /** As written: `send`, with the written `get` taking the oldest queued receiver. */
  function SendAsWritten<T>(q: QueueNB<T>, sentMsg: T): (r: (QueueNB<T>, SendStatus))
    requires WrittenShape(q)
    ensures WrittenShape(r.0) && r.0.waiting == q.waiting
    ensures LinkedQueueNB.IsNotEmpty(q.receivers) ==>
      var (receivers, receiver) := LinkedQueueNB.GetAsWritten(q.receivers);
      && r.1 == Delivered && receiver.Some? && receiver.value in q.inbox
      && r.0 == q.(receivers := receivers, inbox := q.inbox[receiver.value := Some(sentMsg)])
    ensures LinkedQueueNB.IsEmpty(q.receivers) ==>
      && r.1 == Waiting(q.nextId) && q.nextId !in q.tickets
      && r.0.messages == LinkedQueueNB.Put(q.messages, q.nextId).0
      && r.0.tickets == q.tickets[q.nextId := Ticket(sentMsg, false)]
      && r.0.receivers == q.receivers && r.0.inbox == q.inbox
  {
    if LinkedQueueNB.IsNotEmpty(q.receivers) then
      GetAsWrittenStocked(q.receivers, q.inbox.Keys);
      var (receivers, receiver) := LinkedQueueNB.GetAsWritten(q.receivers);
      (q.(receivers := receivers, inbox := q.inbox[receiver.value := Some(sentMsg)]), Delivered)
    else
      var id := q.nextId;
      var tickets := q.tickets[id := Ticket(sentMsg, false)];
      PutStocked(q.messages, q.tickets.Keys, id, tickets.Keys);
      var (messages, _) := LinkedQueueNB.Put(q.messages, id);
      (q.(messages := messages, tickets := tickets, nextId := id + 1), Waiting(id))
  }

  /**
   * As written: the entry of `receive`, with the written `get` taking the
   * oldest queued ticket.
   */
  function ReceiveAsWritten<T>(q: QueueNB<T>, timeout: int): (r: (QueueNB<T>, Step<Option<T>>))
    requires WrittenShape(q)
    ensures WrittenShape(r.0)
    ensures LinkedQueueNB.IsNotEmpty(q.messages) ==>
      var (messages, ticket) := LinkedQueueNB.GetAsWritten(q.messages);
      && ticket.Some? && ticket.value in q.tickets
      && r.1 == Returned(Some(q.tickets[ticket.value].message))
      && r.0 == q.(messages := messages, tickets := q.tickets[ticket.value := q.tickets[ticket.value].(isSent := true)])
    ensures LinkedQueueNB.IsEmpty(q.messages) && NoWait(timeout) ==> r == (q, Returned(None))
    ensures LinkedQueueNB.IsEmpty(q.messages) && !NoWait(timeout) ==>
      && r.1 == Parked(q.nextId) && q.nextId !in q.inbox
      && r.0.receivers == LinkedQueueNB.Put(q.receivers, q.nextId).0
      && r.0.inbox == q.inbox[q.nextId := None] && r.0.waiting == q.waiting + {q.nextId}
      && r.0.messages == q.messages && r.0.tickets == q.tickets
  {
    if LinkedQueueNB.IsNotEmpty(q.messages) then
      GetAsWrittenStocked(q.messages, q.tickets.Keys);
      var (messages, ticket) := LinkedQueueNB.GetAsWritten(q.messages);
      var id := ticket.value;
      (q.(messages := messages, tickets := q.tickets[id := q.tickets[id].(isSent := true)]),
       Returned(Some(q.tickets[id].message)))
    else if NoWait(timeout) then
      (q, Returned(None))
    else
      var id := q.nextId;
      var inbox := q.inbox[id := None];
      PutStocked(q.receivers, q.inbox.Keys, id, inbox.Keys);
      var (receivers, _) := LinkedQueueNB.Put(q.receivers, id);
      (q.(receivers := receivers, inbox := inbox, waiting := q.waiting + {id}, nextId := id + 1),
       Parked(id))
  }

  /**
   * While at least two tickets are queued, `receive` over the written `get`
   * does what it does over the corrected one: the same result, the same
   * ticket marked sent, and the same tickets left queued in order.
   */
  lemma ReceiveAsWrittenBeforeDrain<T>(q: QueueNB<T>, timeout: int)
    requires Valid(q) && WrittenShape(q) && |LinkedQueueNB.Contents(q.messages)| >= 2
    ensures var (qw, rw) := ReceiveAsWritten(q, timeout);
      var (qc, rc) := Receive(q, timeout);
      && rw == rc && qw.tickets == qc.tickets
      && LinkedQueueNB.Valid(qw.messages)
      && LinkedQueueNB.Contents(qw.messages) == LinkedQueueNB.Contents(qc.messages)
  {
    LinkedQueueNB.GetAsWrittenBeforeDrain(q.messages);
  }

  /**
   * While at least two receivers are queued, `send` over the written `get`
   * does what it does over the corrected one: the same receiver gets the
   * message, and the same receivers stay queued in order.
   */
  lemma SendAsWrittenBeforeDrain<T>(q: QueueNB<T>, sentMsg: T)
    requires Valid(q) && WrittenShape(q) && |LinkedQueueNB.Contents(q.receivers)| >= 2
    ensures var (qw, sw) := SendAsWritten(q, sentMsg);
      var (qc, sc) := Send(q, sentMsg);
      && sw == sc == Delivered && qw.inbox == qc.inbox
      && LinkedQueueNB.Valid(qw.receivers)
      && LinkedQueueNB.Contents(qw.receivers) == LinkedQueueNB.Contents(qc.receivers)
  {
    LinkedQueueNB.GetAsWrittenBeforeDrain(q.receivers);
  }

  /** A new queue meets the reference safety of the operations over the written `get`. */
  lemma EmptyIsWrittenShape<T>()
    ensures WrittenShape(Empty<T>())
  {
    LinkedQueueNB.NewIsEmpty<nat>();
  }

  /**
   * As written, the second message is lost. `send(1)` queues a ticket, and
   * `receive(0)` takes it with the written `get`, which leaves the messages
   * queue's `tail` on the consumed node. `send(2)` then links its ticket
   * after that node, where the dummy no longer sees it: `receive(0)` finds
   * the queue empty and the ticket stays unsent.
   */
  lemma SecondMessageLost()
    ensures WrittenShape(Empty<int>())
    ensures
      var (q1, s1) := SendAsWritten(Empty<int>(), 1);
      var (q2, r1) := ReceiveAsWritten(q1, 0);
      var (q3, s2) := SendAsWritten(q2, 2);
      var (q4, r2) := ReceiveAsWritten(q3, 0);
      && r1 == Returned(Some(1))
      && s2.Waiting? && s2.id in q4.tickets && q4.tickets[s2.id] == Ticket(2, false)
      && LinkedQueueNB.IsEmpty(q4.messages)
      && r2 == Returned(None)
  {
    EmptyIsWrittenShape<int>();
  }

  /** The same calls over the corrected `get` deliver both messages, and the second ticket is sent. */
  lemma SecondMessageDelivered()
    ensures WellFormed(Empty<int>())
    ensures
      var (q1, s1) := Send(Empty<int>(), 1);
      var (q2, r1) := Receive(q1, 0);
      var (q3, s2) := Send(q2, 2);
      var (q4, r2) := Receive(q3, 0);
      && r1 == Returned(Some(1))
      && s2.Waiting? && s2.id in q4.tickets && IsSent(q4, s2)
      && r2 == Returned(Some(2))
  {
    EmptyIsValid<int>();
  }
}
