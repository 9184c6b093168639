/**
 * The event bus: subscribers register for one message type and each owns a
 * bounded buffer; `publishEvent` appends a message to the buffer of every
 * subscriber of the message's exact type that has room, and drops it for
 * the others. After `shutdown`, subscribers drain their buffers and leave.
 *
 * A message's runtime class is modelled as an explicit type tag carried by
 * the event. Subscribers live in the heap `subs` under ids drawn from
 * `nextId`; `subscribers` maps a tag to its bucket, the ids of the
 * subscribers registered for it in registration order.
 */
module EventBus {
  import opened Sync

  type TypeTag = string

  /** A published message together with its runtime type. */
  datatype Event<V> = Event(tag: TypeTag, value: V)

  datatype Subscriber<V> = Subscriber(subscriptionType: TypeTag, eventsBuffer: seq<Event<V>>)

  datatype Bus<V> = Bus(
    maxPending: int,
    subscribers: map<TypeTag, seq<nat>>,
    subs: map<nat, Subscriber<V>>,
    shuttingDown: bool,
    nextId: nat)

  /** How many events a buffer can hold: `maxPending`, or none if it is negative. */
  function Capacity<V>(bus: Bus<V>): nat {
    if bus.maxPending < 0 then 0 else bus.maxPending
  }

  /** Reference safety: bucket ids name allocated subscribers; ids are below `nextId`. */
  ghost predicate WellFormed<V>(bus: Bus<V>) {
    && (forall t, i | t in bus.subscribers && 0 <= i < |bus.subscribers[t]| :: bus.subscribers[t][i] in bus.subs)
    && (forall id | id in bus.subs :: id < bus.nextId)
  }

  /** The subscriber is still registered in the bucket of its own type. */
  ghost predicate Listed<V>(bus: Bus<V>, id: nat) {
    && id in bus.subs
    && bus.subs[id].subscriptionType in bus.subscribers
    && id in bus.subscribers[bus.subs[id].subscriptionType]
  }

  /**
   * The bus's invariant: buckets are non-empty, list each subscriber once
   * and only under its own type, and no buffer exceeds the capacity. A
   * subscriber that has left its bucket left with an empty buffer.
   */
  ghost predicate Valid<V>(bus: Bus<V>) {
    && WellFormed(bus)
    && (forall t | t in bus.subscribers :: bus.subscribers[t] != [] && Distinct(bus.subscribers[t]))
    && (forall t, i | t in bus.subscribers && 0 <= i < |bus.subscribers[t]| ::
          bus.subs[bus.subscribers[t][i]].subscriptionType == t)
    && (forall id | id in bus.subs :: |bus.subs[id].eventsBuffer| <= Capacity(bus))
    && (forall id | id in bus.subs && !Listed(bus, id) :: bus.subs[id].eventsBuffer == [])
  }

  function New<V>(maxPending: int): Bus<V> {
    Bus(maxPending, map[], map[], false, 0)
  }

  /** A new bus has no subscriber and is not shutting down. */
  lemma NewIsValid<V>(maxPending: int)
    ensures var bus := New<V>(maxPending); Valid(bus) && !bus.shuttingDown && bus.subscribers == map[]
  { }

  /** `Subscriber.addEvent`: append if the buffer holds fewer than `maxPending`, else drop. */
  function AddEvent<V>(maxPending: int, s: Subscriber<V>, e: Event<V>): (s': Subscriber<V>)
    ensures s'.subscriptionType == s.subscriptionType
    ensures s'.eventsBuffer == s.eventsBuffer || s'.eventsBuffer == s.eventsBuffer + [e]
    ensures s'.eventsBuffer == s.eventsBuffer + [e] <==> |s.eventsBuffer| < maxPending
    ensures |s.eventsBuffer| <= maxPending ==> |s'.eventsBuffer| <= maxPending
  {
    if |s.eventsBuffer| < maxPending then s.(eventsBuffer := s.eventsBuffer + [e]) else s
  }

  /** `EventSubscribers.addToAllSubscribers`: `addEvent` on each id of a bucket in turn. */
  function AddToAll<V>(subs: map<nat, Subscriber<V>>, ids: seq<nat>, e: Event<V>, maxPending: int): (subs': map<nat, Subscriber<V>>)
    requires forall i | 0 <= i < |ids| :: ids[i] in subs
    ensures subs'.Keys == subs.Keys
    decreases |ids|
  {
    if ids == [] then subs
    else AddToAll(subs[ids[0] := AddEvent(maxPending, subs[ids[0]], e)], ids[1..], e, maxPending)
  }

  /** Over a bucket listing each id once, every listed subscriber gets one `addEvent`, the rest nothing. */
  lemma {:induction false} AddToAllPointwise<V>(subs: map<nat, Subscriber<V>>, ids: seq<nat>, e: Event<V>, maxPending: int)
    requires forall i | 0 <= i < |ids| :: ids[i] in subs
    requires Distinct(ids)
    ensures forall id | id in subs ::
      AddToAll(subs, ids, e, maxPending)[id] == if id in ids then AddEvent(maxPending, subs[id], e) else subs[id]
    decreases |ids|
  {
    if ids != [] {
      var subs1 := subs[ids[0] := AddEvent(maxPending, subs[ids[0]], e)];
      assert Distinct(ids[1..]);
      AddToAllPointwise(subs1, ids[1..], e, maxPending);
      assert ids == [ids[0]] + ids[1..];
    }
  }

  /**
   * `init`: refuse after shutdown; otherwise create the type's bucket if it
   * is absent and append a fresh subscriber with an empty buffer to it.
   */
  function Init<V>(bus: Bus<V>, eventType: TypeTag): (r: (Bus<V>, Option<nat>))
    requires WellFormed(bus)
    ensures WellFormed(r.0)
    ensures bus.shuttingDown ==> r == (bus, None)
    ensures !bus.shuttingDown ==>
      && r.1.Some? && r.1.value !in bus.subs
      && r.0.subs == bus.subs[r.1.value := Subscriber(eventType, [])]
      && r.0.subscribers == bus.subscribers[eventType :=
           (if eventType in bus.subscribers then bus.subscribers[eventType] else []) + [r.1.value]]
      && r.0.shuttingDown == bus.shuttingDown && r.0.maxPending == bus.maxPending
  {
    if bus.shuttingDown then (bus, None)
    else
      var bucket := if eventType in bus.subscribers then bus.subscribers[eventType] else [];
      var id := bus.nextId;
      (bus.(subscribers := bus.subscribers[eventType := bucket + [id]],
            subs := bus.subs[id := Subscriber(eventType, [])],
            nextId := id + 1),
       Some(id))
  }

  /**
   * `publishEvent`: illegal after shutdown; otherwise the event is offered
   * to the bucket of its own type, if any. No bucket or subscriber appears
   * or disappears.
   */
  function Publish<V>(bus: Bus<V>, e: Event<V>): (r: Result<Bus<V>>)
    requires WellFormed(bus)
    ensures r.Err? <==> bus.shuttingDown
    ensures r.Err? ==> r.error == IllegalState
    ensures r.Ok? ==>
      && WellFormed(r.value)
      && r.value.subscribers == bus.subscribers && r.value.subs.Keys == bus.subs.Keys
      && r.value.shuttingDown == bus.shuttingDown && r.value.maxPending == bus.maxPending
      && r.value.nextId == bus.nextId
      && (e.tag !in bus.subscribers ==> r.value == bus)
  {
    if bus.shuttingDown then Err(IllegalState)
    else if bus.subscribers == map[] then Ok(bus)
    else if e.tag in bus.subscribers && bus.subscribers[e.tag] != [] then
      Ok(bus.(subs := AddToAll(bus.subs, bus.subscribers[e.tag], e, bus.maxPending)))
    else Ok(bus)
  }

  /**
   * What a publish does to each subscriber: exactly those registered under
   * the event's own type get it appended, if their buffer has room; every
   * other buffer is unchanged. The invariant, and so the capacity bound, is
   * kept.
   */
  lemma PublishDelivers<V>(bus: Bus<V>, e: Event<V>)
    requires Valid(bus) && !bus.shuttingDown
    ensures var r := Publish(bus, e);
      && r.Ok? && Valid(r.value)
      && forall id | id in bus.subs ::
           r.value.subs[id] ==
             if e.tag in bus.subscribers && id in bus.subscribers[e.tag]
             then AddEvent(bus.maxPending, bus.subs[id], e)
             else bus.subs[id]
  {
    if e.tag in bus.subscribers {
      AddToAllPointwise(bus.subs, bus.subscribers[e.tag], e, bus.maxPending);
    }
  }

  lemma InitPreservesValid<V>(bus: Bus<V>, eventType: TypeTag)
    requires Valid(bus)
    ensures Valid(Init(bus, eventType).0)
  {
    if !bus.shuttingDown {
      var r := Init(bus, eventType).0;
      var bucket := if eventType in bus.subscribers then bus.subscribers[eventType] else [];
      assert forall i | 0 <= i < |bucket| :: bucket[i] < bus.nextId;
      assert Distinct(bucket + [bus.nextId]);
    }
  }

  /** `Subscriber.getEvent`: take the oldest buffered event, if any. */
  function Poll<V>(s: Subscriber<V>): (r: (Subscriber<V>, Option<Event<V>>))
    ensures s.eventsBuffer == [] ==> r == (s, None)
    ensures s.eventsBuffer != [] ==>
      && r.1 == Some(s.eventsBuffer[0])
      && s.eventsBuffer == [s.eventsBuffer[0]] + r.0.eventsBuffer
    ensures r.0.subscriptionType == s.subscriptionType
  {
    if s.eventsBuffer == [] then (s, None)
    else (s.(eventsBuffer := s.eventsBuffer[1..]), Some(s.eventsBuffer[0]))
  }

  /** The subscribe loop's guard: run on while not shutting down or while events remain. */
  predicate KeepsProcessing<V>(bus: Bus<V>, id: nat)
    requires id in bus.subs
  {
    !bus.shuttingDown || bus.subs[id].eventsBuffer != []
  }

  /**
   * The bus's `getEvent` on entry: the oldest buffered event if there is
   * one; nothing once shutting down; otherwise park on the type's condition.
   */
  function GetEvent<V>(bus: Bus<V>, id: nat): (r: (Bus<V>, Step<Option<Event<V>>>))
    requires id in bus.subs
    ensures r.0.subscribers == bus.subscribers && r.0.subs.Keys == bus.subs.Keys
    ensures r.0.shuttingDown == bus.shuttingDown && r.0.maxPending == bus.maxPending && r.0.nextId == bus.nextId
    ensures forall j | j in bus.subs && j != id :: r.0.subs[j] == bus.subs[j]
    ensures bus.subs[id].eventsBuffer != [] ==>
      && r.1 == Returned(Some(bus.subs[id].eventsBuffer[0]))
      && r.0.subs[id].eventsBuffer == bus.subs[id].eventsBuffer[1..]
    ensures bus.subs[id].eventsBuffer == [] ==>
      r == (bus, if bus.shuttingDown then Returned(None) else Parked(id))
  {
    var s := bus.subs[id];
    if s.eventsBuffer != [] then
      var (s', e) := Poll(s);
      (bus.(subs := bus.subs[id := s']), Returned(e))
    else if bus.shuttingDown then (bus, Returned(None))
    else (bus, Parked(id))
  }

  /**
   * A subscriber parked in `getEvent` once its untimed `await` returns:
   * an interrupt propagates (and the subscriber is never removed from its
   * bucket); otherwise it polls its buffer, which may still be empty.
   */
  function ResumeGetEvent<V>(bus: Bus<V>, id: nat, interrupted: bool): (r: (Bus<V>, Step<Option<Event<V>>>))
    requires id in bus.subs
    ensures interrupted ==> r == (bus, Threw(InterruptedException))
    ensures !interrupted ==>
      && r.1 == Returned(Poll(bus.subs[id]).1)
      && r.0 == bus.(subs := bus.subs[id := Poll(bus.subs[id]).0])
  {
    if interrupted then (bus, Threw(InterruptedException))
    else
      var (s', e) := Poll(bus.subs[id]);
      (bus.(subs := bus.subs[id := s']), Returned(e))
  }

  /**
   * An interrupt while parked leaves `subscribeEvent` by the exception and
   * skips `signalIfLast`: the subscriber stays in its bucket, so the bus is
   * never seen empty by `shutdown` again.
   */
  lemma InterruptedSubscriberStaysRegistered<V>(bus: Bus<V>, id: nat, eventType: TypeTag)
    requires Valid(bus) && eventType in bus.subscribers && id in bus.subscribers[eventType]
    ensures id in bus.subs
    ensures var (b, step) := ResumeGetEvent(bus, id, true);
      && step == Threw(InterruptedException)
      && eventType in b.subscribers && id in b.subscribers[eventType]
      && !ResumeShutdown(Shutdown(b).0)
  {
  }

  lemma GetEventPreservesValid<V>(bus: Bus<V>, id: nat)
    requires Valid(bus) && id in bus.subs
    ensures Valid(GetEvent(bus, id).0)
  {
  }

  /** Resuming a parked subscriber, woken or interrupted, preserves the invariant. */
  lemma ResumeGetEventPreservesValid<V>(bus: Bus<V>, id: nat, interrupted: bool)
    requires Valid(bus) && id in bus.subs
    ensures Valid(ResumeGetEvent(bus, id, interrupted).0)
  {
  }

  /**
   * The subscribe loop once the bus is shutting down: it never parks, takes
   * the buffered events oldest first, and exits exactly when the buffer is
   * empty.
   */
  function DrainAfterShutdown<V>(bus: Bus<V>, id: nat): (r: (Bus<V>, seq<Event<V>>))
    requires id in bus.subs && bus.shuttingDown
    ensures id in r.0.subs && r.0.shuttingDown && !KeepsProcessing(r.0, id)
    ensures r.1 == bus.subs[id].eventsBuffer
    ensures r.0.subscribers == bus.subscribers
    decreases |bus.subs[id].eventsBuffer|
  {
    if !KeepsProcessing(bus, id) then (bus, [])
    else
      var (bus1, step) := GetEvent(bus, id);
      var (bus2, rest) := DrainAfterShutdown(bus1, id);
      (bus2, [step.value.value] + rest)
  }

  /**
   * After the drain a registered subscriber meets what `signalIfLast` asks
   * of it: it is still in its bucket, its loop has exited, and the bus is
   * still valid.
   */
  lemma {:induction false} DrainReadiesLeave<V>(bus: Bus<V>, id: nat)
    requires Valid(bus) && bus.shuttingDown && Listed(bus, id)
    ensures var b := DrainAfterShutdown(bus, id).0;
      && Valid(b) && Listed(b, id) && !KeepsProcessing(b, id)
      && b.subs[id].subscriptionType == bus.subs[id].subscriptionType
    decreases |bus.subs[id].eventsBuffer|
  {
    if KeepsProcessing(bus, id) {
      var bus1 := GetEvent(bus, id).0;
      GetEventPreservesValid(bus, id);
      DrainReadiesLeave(bus1, id);
    }
  }

  /**
   * `signalIfLast`: remove the subscriber from its bucket, drop the bucket
   * once empty, and signal the shutdown waiter only when no bucket is left.
   * It runs once the subscribe loop has exited, with the type the
   * subscriber registered for.
   */
  function SignalIfLast<V>(bus: Bus<V>, id: nat, eventType: TypeTag): (r: (Bus<V>, bool))
    requires WellFormed(bus) && eventType in bus.subscribers
    requires id in bus.subs && bus.subs[id].subscriptionType == eventType && !KeepsProcessing(bus, id)
    ensures WellFormed(r.0)
    ensures r.0.subs == bus.subs && r.0.shuttingDown == bus.shuttingDown && r.0.nextId == bus.nextId
    ensures r.0.subscribers.Keys <= bus.subscribers.Keys
    ensures forall t | t in bus.subscribers && t != eventType :: t in r.0.subscribers && r.0.subscribers[t] == bus.subscribers[t]
    ensures eventType in r.0.subscribers <==> RemoveFirst(bus.subscribers[eventType], id) != []
    ensures eventType in r.0.subscribers ==> r.0.subscribers[eventType] == RemoveFirst(bus.subscribers[eventType], id)
    ensures r.1 <==> r.0.subscribers == map[]
  {
    var bucket := RemoveFirst(bus.subscribers[eventType], id);
    if bucket == [] then
      var remaining := bus.subscribers - {eventType};
      (bus.(subscribers := remaining), remaining == map[])
    else
      (bus.(subscribers := bus.subscribers[eventType := bucket]), false)
  }

  lemma SignalIfLastPreservesValid<V>(bus: Bus<V>, id: nat, eventType: TypeTag)
    requires Valid(bus) && eventType in bus.subscribers
    requires id in bus.subs && bus.subs[id].subscriptionType == eventType && !KeepsProcessing(bus, id)
    ensures Valid(SignalIfLast(bus, id, eventType).0)
    ensures !Listed(SignalIfLast(bus, id, eventType).0, id)
  {
    SignalIfLastKeepsBuckets(bus, id, eventType);
    SignalIfLastLeavesDrained(bus, id, eventType);
  }

  /** The buckets left by `signalIfLast` are non-empty, list each subscriber once, and only under its type. */
  lemma SignalIfLastKeepsBuckets<V>(bus: Bus<V>, id: nat, eventType: TypeTag)
    requires Valid(bus) && eventType in bus.subscribers
    requires id in bus.subs && bus.subs[id].subscriptionType == eventType && !KeepsProcessing(bus, id)
    ensures var r := SignalIfLast(bus, id, eventType).0;
      && (forall t | t in r.subscribers :: r.subscribers[t] != [] && Distinct(r.subscribers[t]))
      && (forall t, i | t in r.subscribers && 0 <= i < |r.subscribers[t]| ::
            r.subs[r.subscribers[t][i]].subscriptionType == t)
  {
    var r := SignalIfLast(bus, id, eventType).0;
    var bucket := bus.subscribers[eventType];
    assert Distinct(RemoveFirst(bucket, id));
    forall t, i | t in r.subscribers && 0 <= i < |r.subscribers[t]|
      ensures r.subs[r.subscribers[t][i]].subscriptionType == t
    {
      if t == eventType {
        assert r.subscribers[t][i] in bucket;
      }
    }
  }

  /** Only the leaving subscriber, whose buffer is empty, becomes unregistered. */
  lemma SignalIfLastLeavesDrained<V>(bus: Bus<V>, id: nat, eventType: TypeTag)
    requires Valid(bus) && eventType in bus.subscribers
    requires id in bus.subs && bus.subs[id].subscriptionType == eventType && !KeepsProcessing(bus, id)
    ensures var r := SignalIfLast(bus, id, eventType).0;
      forall j | j in r.subs && !Listed(r, j) :: r.subs[j].eventsBuffer == []
  {
    var r := SignalIfLast(bus, id, eventType).0;
    RemoveFirstMembers(bus.subscribers[eventType], id);
    forall j | j in r.subs && !Listed(r, j)
      ensures r.subs[j].eventsBuffer == []
    {
      if j != id {
        assert !Listed(bus, j);
      }
    }
  }

  /**
   * `shutdown` as written: set the flag, wake the subscribers, then wait
   * for the completion signal before the first check that no subscriber is
   * left. The second component tells whether the call returns without
   * waiting: it never does.
   */
  function Shutdown<V>(bus: Bus<V>): (r: (Bus<V>, bool))
    ensures r.0 == bus.(shuttingDown := true) && !r.1
  {
    (bus.(shuttingDown := true), false)
  }

  /**
   * Setting the flag, as either version of `shutdown` does, preserves the
   * invariant, and afterwards no publish succeeds.
   */
  lemma ShutdownPreservesValid<V>(bus: Bus<V>, e: Event<V>)
    requires Valid(bus)
    ensures Valid(Shutdown(bus).0) && Valid(ShutdownChecked(bus).0)
    ensures Publish(Shutdown(bus).0, e) == Err(IllegalState)
  {
  }

  /**
   * `shutdown` with the check first: it returns at once when no subscriber
   * is registered, and otherwise waits as the written one does.
   */
  function ShutdownChecked<V>(bus: Bus<V>): (r: (Bus<V>, bool))
    ensures r.0 == bus.(shuttingDown := true)
    ensures r.1 <==> bus.subscribers == map[]
  {
    (bus.(shuttingDown := true), bus.subscribers == map[])
  }

  /**
   * The shutdown waiter after each wake (interrupts ignored): done once no
   * bucket is left, and then every subscriber has processed its whole
   * buffer.
   */
  function ResumeShutdown<V>(bus: Bus<V>): (done: bool)
    ensures done <==> bus.subscribers.Keys == {}
    ensures Valid(bus) && done ==> forall id | id in bus.subs :: bus.subs[id].eventsBuffer == []
  {
    bus.subscribers == map[]
  }

  /**
   * With no subscriber registered, `shutdown` parks and nothing can ever
   * signal it: no subscriber can join any more, so `signalIfLast`, the only
   * place that signals completion, has no bucket to run on.
   */
  lemma ShutdownWithoutSubscribersWaits<V>(bus: Bus<V>, eventType: TypeTag)
    requires WellFormed(bus) && bus.subscribers == map[]
    ensures var (b, returnsAtOnce) := Shutdown(bus);
      && !returnsAtOnce
      && eventType !in b.subscribers
      && Init(b, eventType) == (b, None)
    ensures ShutdownChecked(bus).1
  {
  }

  /** `publishEvent` on each event in turn; a failing publish changes nothing. */
  function PublishAll<V>(bus: Bus<V>, es: seq<Event<V>>): (bus': Bus<V>)
    requires WellFormed(bus)
    ensures WellFormed(bus')
    ensures bus'.subscribers == bus.subscribers && bus'.subs.Keys == bus.subs.Keys
    ensures bus'.shuttingDown == bus.shuttingDown && bus'.maxPending == bus.maxPending
    decreases |es|
  {
    if es == [] then bus
    else
      match Publish(bus, es[0])
      case Ok(b) => PublishAll(b, es[1..])
      case Err(_) => PublishAll(bus, es[1..])
  }

  /**
   * Back-pressure by drop: a subscriber that takes nothing while events of
   * its type are published keeps the oldest ones that fit in its buffer and
   * loses the rest.
   */
  lemma {:induction false} PublishAllKeepsOldest<V>(bus: Bus<V>, es: seq<Event<V>>, id: nat, tag: TypeTag)
    requires WellFormed(bus) && !bus.shuttingDown
    requires tag in bus.subscribers && Distinct(bus.subscribers[tag]) && id in bus.subscribers[tag]
    requires |bus.subs[id].eventsBuffer| <= Capacity(bus)
    requires forall i | 0 <= i < |es| :: es[i].tag == tag
    ensures PublishAll(bus, es).subs[id].eventsBuffer ==
      (bus.subs[id].eventsBuffer + es)[..Min(Capacity(bus), |bus.subs[id].eventsBuffer| + |es|)]
    decreases |es|
  {
    var buf := bus.subs[id].eventsBuffer;
    if es == [] {
      assert (buf + es)[..Min(Capacity(bus), |buf|)] == buf;
    } else {
      PublishReaches(bus, es[0], id);
      var b1 := Publish(bus, es[0]).value;
      assert PublishAll(bus, es) == PublishAll(b1, es[1..]);
      PublishAllKeepsOldest(b1, es[1..], id, tag);
      BufferStep(buf, es, bus.maxPending, Capacity(bus));
    }
  }

  /** One publish reaches a subscriber of the event's type through `addEvent`. */
  lemma PublishReaches<V>(bus: Bus<V>, e: Event<V>, id: nat)
    requires WellFormed(bus) && !bus.shuttingDown
    requires e.tag in bus.subscribers && Distinct(bus.subscribers[e.tag]) && id in bus.subscribers[e.tag]
    ensures id in bus.subs
    ensures Publish(bus, e).value.subs[id] == AddEvent(bus.maxPending, bus.subs[id], e)
  {
    AddToAllPointwise(bus.subs, bus.subscribers[e.tag], e, bus.maxPending);
  }

  /** The sequence arithmetic of one step of `PublishAllKeepsOldest`. */
  lemma BufferStep<E>(buf: seq<E>, es: seq<E>, maxPending: int, cap: nat)
    requires es != [] && |buf| <= cap && cap == (if maxPending < 0 then 0 else maxPending)
    ensures var buf1 := if |buf| < maxPending then buf + [es[0]] else buf;
      (buf1 + es[1..])[..Min(cap, |buf1| + |es[1..]|)] == (buf + es)[..Min(cap, |buf| + |es|)]
  {
    assert es == [es[0]] + es[1..];
    if |buf| < maxPending {
      assert buf + es == (buf + [es[0]]) + es[1..];
    }
  }

  /**
   * One slow subscriber with capacity K. It parks on its empty buffer; the
   * first event wakes it and is taken for handling at once. While it
   * handles that one, any number n >= K of further events of its type
   * leaves exactly the next K in its buffer; after `shutdown` it drains
   * those K, so K + 1 events are handled in all.
   */
  lemma SlowSubscriberHandlesCapacityPlusOne<V>(bus: Bus<V>, e0: Event<V>, es: seq<Event<V>>, id: nat, tag: TypeTag)
    requires Valid(bus) && !bus.shuttingDown
    requires tag in bus.subscribers && id in bus.subscribers[tag]
    requires bus.subs[id].eventsBuffer == []
    requires e0.tag == tag && forall i | 0 <= i < |es| :: es[i].tag == tag
    requires |es| >= Capacity(bus)
    ensures id in bus.subs && GetEvent(bus, id) == (bus, Parked(id))
    ensures var b1 := Publish(bus, e0).value;
      var (b2, first) := ResumeGetEvent(b1, id, false);
      var closed := Shutdown(PublishAll(b2, es)).0;
      && first == Returned(if Capacity(bus) > 0 then Some(e0) else None)
      && id in closed.subs
      && DrainAfterShutdown(closed, id).1 == es[..Capacity(bus)]
      && (Capacity(bus) > 0 ==> |[e0] + DrainAfterShutdown(closed, id).1| == Capacity(bus) + 1)
  {
    var b2 := FirstEventTaken(bus, e0, id, tag);
    PublishAllKeepsOldest(b2, es, id, tag);
    assert ([] + es) == es;
  }

  /** The first publish wakes the parked subscriber, which takes the event and leaves its buffer empty. */
  lemma FirstEventTaken<V>(bus: Bus<V>, e0: Event<V>, id: nat, tag: TypeTag) returns (b2: Bus<V>)
    requires Valid(bus) && !bus.shuttingDown
    requires tag in bus.subscribers && id in bus.subscribers[tag]
    requires bus.subs[id].eventsBuffer == [] && e0.tag == tag
    ensures b2 == ResumeGetEvent(Publish(bus, e0).value, id, false).0
    ensures ResumeGetEvent(Publish(bus, e0).value, id, false).1 == Returned(if Capacity(bus) > 0 then Some(e0) else None)
    ensures WellFormed(b2) && !b2.shuttingDown && b2.maxPending == bus.maxPending
    ensures tag in b2.subscribers && Distinct(b2.subscribers[tag]) && id in b2.subscribers[tag]
    ensures id in b2.subs && b2.subs[id].eventsBuffer == []
  {
    PublishReaches(bus, e0, id);
    b2 := ResumeGetEvent(Publish(bus, e0).value, id, false).0;
  }
}
