# Coordination primitives of `pc` as sequential state machines

This project models the coordination primitives of the `pc` coursework
repository in Dafny. It covers:

- the keyed exchanger, in both copies;
- the blocking message queue with cancellable tickets;
- the lock-free linked queue, and the non-blocking message queue built on
  it (mainly over a corrected `get`; see below);
- the event bus with bounded per-subscriber buffers;
- the simple thread-pool executor;
- the lives-limited message box.

Thread scheduling is not modelled. Each `lock()` … `unlock()` critical
section is read as one atomic transition over an immutable state record.
A single-threaded pass through a CAS loop is read the same way.

A blocking call is split in two:

- **Start function.** Runs the code up to the first `await`. It returns a
  `Step`: `Returned(v)`, `Parked(id)` or `Threw(e)`.
- **Resume function.** Runs the code after one return from `await`. The
  return is one of three kinds, given as a `Wake` parameter: `Woken`
  (signalled, or a spurious wakeup before the deadline), `Expired` or
  `Interrupted`.

Objects with identity live in maps from `nat` ids to records, with fresh
ids drawn from `nextId`:

- holders, tickets, receivers, subscribers, work units, workers;
- linked-queue nodes.

Each state type with ids has two predicates:

- `WellFormed` is reference safety: no id dangles. The linked queue calls
  it `Linked`.
- `Valid` is the primitive's invariant. Each transition that changes the
  state has a lemma stating that it preserves `Valid`.

Two exceptions: the message box holds no ids and has no invariant beyond
its types, and the non-blocking queue's operations over the code's `get`
keep only their own reference safety, `WrittenShape`, because over that
`get` the invariant fails (finding 3).

`Timeouts.noWait` is modelled as `NoWait(t) := t == 0`, which is what the
callers and tests rely on. No arithmetic on milliseconds is modelled.

Modules and files:

- `Sync` (`sync.dfy`): shared types (`Option`, `Result`, `Step`, `Wake`,
  `Failure`) and sequence helpers. `RemoveFirst` is `LinkedList.remove(Object)`.
- `KeyedExchanger` and `KeyedExchangerSrc` (`keyed_exchanger.dfy`): the JVM
  copy and the older `src/` copy.
- `MessageQueue` (`message_queue.dfy`).
- `LinkedQueueNB` (`linked_queue_nb.dfy`).
- `MessageQueueNonBlocking` (`message_queue_nb.dfy`).
- `EventBus` (`event_bus.dfy`).
- `SimpleThreadPoolExecutor` (`thread_pool.dfy`).
- `ThreadSafeMessageBox` (`message_box.dfy`).

Where the code departs from what its surroundings evidently expect, the
model follows the code, with one exception, the first item below:

- **`LinkedQueueNB.get` does not move `head`.** A Michael–Scott `get`
  swings `head` onto the consumed node, which becomes the new dummy. The
  code CASes the dummy's `next` instead, and never moves `head` or `tail`.
  `GetAsWritten` models the code; `Get` is the Michael–Scott version
  (finding 2). The main operations of `MessageQueueNonBlocking` (`Send`,
  `Receive`, `ResumeReceive` and their branches) run over `Get`, not over
  the code's `get`. Over the code's `get`, a message sent after the
  messages queue first drains is lost. `SendAsWritten` and
  `ReceiveAsWritten` model that path, `SecondMessageLost` shows it
  (finding 3), and `SendAsWrittenBeforeDrain` and
  `ReceiveAsWrittenBeforeDrain` show both paths agree until the drain.
- **`get` on an empty queue.** Callers check `isNotEmpty` first, and the
  code dereferences `null` on an empty queue, so `Get` and `GetAsWritten`
  require a non-empty queue.
- **Timed-out receivers stay queued.** A receiver of the non-blocking
  queue that times out or is interrupted would be expected to deregister
  itself. The code never removes it from `receivers`.
  `MessageQueueNonBlocking` follows the code
  (`AbandonedReceiverSwallowsMessage`).
- **An interrupted subscriber is never removed.** A subscriber whose wait
  is interrupted would be expected to leave its bucket. In the code the
  interrupt leaves `subscribeEvent` without calling `signalIfLast`
  (`InterruptedSubscriberStaysRegistered`).
- **The `src/` exchanger keeps its key.** A waiter that gives up would be
  expected to remove its slot, as the JVM copy does. The `src/` copy of
  `KeyedExchanger` does not (finding 1).

## Model

| member | source | states |
|---|---|---|
| Sync.RemoveFirst | JVM/src/main/java/pc/serie1/messageQueue/MessageQueue.java:62-62 | `LinkedList.remove(Object)` drops exactly the first occurrence and keeps the order of the rest. An absent element leaves the list unchanged. A list without duplicates stays without duplicates and loses the element entirely. |
| Sync.RemoveFirstMembers | JVM/src/main/java/pc/serie1/messageQueue/MessageQueue.java:62-62 | After removing the first `x`, every other value is in the list exactly when it was before. |
| Sync.RemoveFirstKeeps | JVM/src/main/java/pc/serie1/messageQueue/MessageQueue.java:71-71 | Removing one element from the receivers list keeps every other element in it. |
| KeyedExchanger.EmptyIsValid | JVM/src/main/java/pc/serie1/KeyedExchanger.java:32-33 | A fresh exchanger has no registered key and satisfies the invariant. |
| KeyedExchanger.SetAndGet | JVM/src/main/java/pc/serie1/KeyedExchanger.java:25-29 | The matching partner gets the holder's own data back. The holder records the partner's data and becomes matched. Its key and own data are unchanged. |
| KeyedExchanger.Exchange | JVM/src/main/java/pc/serie1/KeyedExchanger.java:35-56 | Fast path: with a holder under the key, the caller gets that holder's data. The caller's data is stored in the holder, the holder is matched, the key is removed and no other holder changes. With no holder and a zero timeout: an empty result and no state change. Otherwise a fresh unmatched holder with the caller's data is installed under the previously free key, and the caller parks. |
| KeyedExchanger.Resume | JVM/src/main/java/pc/serie1/KeyedExchanger.java:57-74 | A matched waiter returns the partner's data, also when interrupted. An unmatched waiter removes its key: on expiry it returns empty, on interrupt it rethrows. A wake before the deadline keeps it waiting with nothing changed. |
| KeyedExchanger.ExchangePreservesValid | JVM/src/main/java/pc/serie1/KeyedExchanger.java:38-56 | Entering `exchange` preserves the invariant. Every registered holder is unmatched, knows its key and belongs to a parked caller. Every unmatched parked caller is found under its key. |
| KeyedExchanger.ResumePreservesValid | JVM/src/main/java/pc/serie1/KeyedExchanger.java:57-74 | Every way of leaving or continuing the wait preserves that invariant. |
| KeyedExchanger.OneWaiterPerKey | JVM/src/main/java/pc/serie1/KeyedExchanger.java:38-56 | Two unmatched parked callers with the same key are the same caller: each key has at most one holder. |
| KeyedExchanger.SymmetricSwap | JVM/src/main/java/pc/serie1/KeyedExchanger.java:41-67 | A caller that registers and the next caller under the same key receive each other's values, whatever wakes the first. Afterwards the key map and the set of parked callers are as before. |
| KeyedExchanger.GiveUpWithdraws | JVM/src/main/java/pc/serie1/KeyedExchanger.java:60-72 | After an unmatched caller gives up, its key is free and no key refers to its holder. |
| KeyedExchanger.LateCallerFindsNoPartner | JVM/src/main/java/pc/serie1/KeyedExchanger.java:69-72 | After the first caller times out, a zero-timeout caller under the same key finds no partner and gets an empty result. |
| KeyedExchangerSrc.Resume | src/main/java/pc/serie1/KeyedExchanger.java:57-72 | As in the JVM copy, a matched waiter returns the partner's data, also when interrupted. An unmatched one returns empty on expiry or rethrows on interrupt, but the key map and the holders are left unchanged. |
| KeyedExchangerSrc.ExchangePreservesRegistered | src/main/java/pc/serie1/KeyedExchanger.java:38-56 | Entering `exchange` keeps every registered holder unmatched and under its own key. |
| KeyedExchangerSrc.ResumePreservesRegistered | src/main/java/pc/serie1/KeyedExchanger.java:57-72 | Giving up in this copy also keeps every registered holder unmatched and under its own key. |
| KeyedExchangerSrc.NoWaitPairBothEmpty | src/main/java/pc/serie1/KeyedExchanger.java:48-49 | Two zero-timeout callers under a free key both get an empty result, and the exchanger is unchanged. |
| KeyedExchangerSrc.StaleHolderSwallowsValue | src/main/java/pc/serie1/KeyedExchanger.java:69-71 | A caller that timed out has returned empty and is no longer parked, yet its holder stays under the key and the invariant is broken. The next caller under that key is matched with it and receives the departed caller's value. |
| MessageQueue.Pending | JVM/src/main/java/pc/serie1/messageQueue/MessageQueue.java:15-15 | The queued messages, oldest first, one per queued ticket. |
| MessageQueue.EmptyIsValid | JVM/src/main/java/pc/serie1/messageQueue/MessageQueue.java:14-16 | A new queue has no pending message and no parked receiver, and satisfies the invariant. |
| MessageQueue.Send | JVM/src/main/java/pc/serie1/messageQueue/MessageQueue.java:18-34 | With parked receivers, the oldest one gets the message and leaves the list, and the result is a delivered status. Pending messages are unchanged. With no receiver, a fresh unsent, uncanceled ticket is queued at the end and returned. The pending messages gain exactly this message at the end. |
| MessageQueue.Receive | JVM/src/main/java/pc/serie1/messageQueue/MessageQueue.java:36-55 | With pending messages, the caller gets the oldest one, its ticket is marked sent, and the other pending messages keep their order. With none and a zero timeout: an empty result and no state change. Otherwise a fresh receiver joins the end of the receivers list and parks. |
| MessageQueue.ResumeReceive | JVM/src/main/java/pc/serie1/messageQueue/MessageQueue.java:56-74 | A served receiver returns its message, also when interrupted. An unserved one removes itself from the receivers list: on expiry it returns empty, on interrupt it rethrows. A wake before the deadline waits on. |
| MessageQueue.IsSent | JVM/src/main/java/pc/serie1/messageQueue/MessageQueue.java:80-128 | A delivered status is always sent. Under the invariant, a ticket is sent exactly when it is neither queued nor canceled. |
| MessageQueue.TryCancel | JVM/src/main/java/pc/serie1/messageQueue/MessageQueue.java:130-144 | Cancelling succeeds exactly when the status is not sent; a delivered status never cancels. On success the ticket leaves the queue and is marked canceled, and nothing else changes. On failure nothing changes. |
| MessageQueue.AwaitSent | JVM/src/main/java/pc/serie1/messageQueue/MessageQueue.java:146-160 | `await` returns true at once when sent. It returns false at once on a zero timeout or a canceled ticket. Otherwise it parks. |
| Sync.ResumeAwait | JVM/src/main/java/pc/serie1/messageQueue/MessageQueue.java:160-175 | A sender woken in `await` returns true exactly when its ticket is sent, even on interrupt or expiry. An unsent ticket gives false exactly on expiry, rethrows exactly on interrupt, and waits on exactly when signalled. The non-blocking queue's `await` loop makes the same choice. |
| MessageQueue.SendPreservesValid | JVM/src/main/java/pc/serie1/messageQueue/MessageQueue.java:18-34 | `send` preserves the invariant: exactly the unsent, uncanceled tickets are queued, each once, and a canceled ticket is never sent. Exactly the parked, unserved receivers are listed, each once. |
| MessageQueue.ReceivePreservesValid | JVM/src/main/java/pc/serie1/messageQueue/MessageQueue.java:36-55 | Entering `receive` preserves that invariant. |
| MessageQueue.ResumeReceivePreservesValid | JVM/src/main/java/pc/serie1/messageQueue/MessageQueue.java:56-74 | Every way a parked receiver continues preserves that invariant. |
| MessageQueue.TryCancelPreservesValid | JVM/src/main/java/pc/serie1/messageQueue/MessageQueue.java:130-144 | `tryCancel` preserves that invariant. |
| MessageQueue.CancelThenAwaitFails | JVM/src/main/java/pc/serie1/messageQueue/MessageQueue.java:152-156 | After a successful cancel, the ticket reports unsent and its `await` returns false. |
| MessageQueue.Apply | JVM/src/main/java/pc/serie1/messageQueue/MessageQueue.java:18-144 | Any one caller-driven transition keeps the queue well formed. |
| MessageQueue.Run | JVM/src/main/java/pc/serie1/messageQueue/MessageQueue.java:18-144 | Any sequence of such transitions keeps the queue well formed. |
| MessageQueue.ApplyPreservesValid | JVM/src/main/java/pc/serie1/messageQueue/MessageQueue.java:18-144 | Any one caller-driven transition preserves the invariant. |
| MessageQueue.CanceledNeverDelivered | JVM/src/main/java/pc/serie1/messageQueue/MessageQueue.java:135-140 | A canceled ticket stays canceled, unqueued and unsent after any sequence of sends, receives, wake-ups and cancels. |
| LinkedQueueNB.NewIsEmpty | JVM/src/main/java/pc/serie2/messageQueueOptimized/LinkedQueueNB.java:18-22 | `head` and `tail` name one dummy node with no successor. The queue is empty and well shaped. |
| LinkedQueueNB.IsEmpty | JVM/src/main/java/pc/serie2/messageQueueOptimized/LinkedQueueNB.java:51-53 | In a well-shaped queue, empty exactly when it holds no item. |
| LinkedQueueNB.IsNotEmpty | JVM/src/main/java/pc/serie2/messageQueueOptimized/LinkedQueueNB.java:55-57 | Always the negation of `IsEmpty`. In a well-shaped queue, true exactly when an item is held. |
| LinkedQueueNB.AdvanceTail | JVM/src/main/java/pc/serie2/messageQueueOptimized/LinkedQueueNB.java:27-32 | Advancing a lagging tail ends on a node with no successor, at or after the start. |
| LinkedQueueNB.Put | JVM/src/main/java/pc/serie2/messageQueueOptimized/LinkedQueueNB.java:24-39 | Always reports success. A fresh node with the item is linked after the node the tail reaches, and `tail` swings to it. No other node changes. |
| LinkedQueueNB.GetAsWritten | JVM/src/main/java/pc/serie2/messageQueueOptimized/LinkedQueueNB.java:41-49 | As written: returns the first item's node payload and unlinks that node from the dummy's `next`. `head`, `tail` and every other node are unchanged. |
| LinkedQueueNB.Get | JVM/src/main/java/pc/serie2/messageQueueOptimized/LinkedQueueNB.java:41-49 | Corrected: `head` moves onto the consumed node, which becomes the new dummy, and that node's item is returned. No node changes. |
| LinkedQueueNB.TailNeverLags | JVM/src/main/java/pc/serie2/messageQueueOptimized/LinkedQueueNB.java:30-32 | In a well-shaped queue, the tail-advancing step stays put. |
| LinkedQueueNB.AdvanceReachesTail | JVM/src/main/java/pc/serie2/messageQueueOptimized/LinkedQueueNB.java:26-32 | From any node of the item chain, advancing reaches `tail`. |
| LinkedQueueNB.PutAppends | JVM/src/main/java/pc/serie2/messageQueueOptimized/LinkedQueueNB.java:24-39 | `put` keeps the queue well shaped and appends its item at the end of the contents. |
| LinkedQueueNB.GetTakesOldest | JVM/src/main/java/pc/serie2/messageQueueOptimized/LinkedQueueNB.java:41-49 | The corrected `get` on a non-empty queue returns the oldest item. The rest stays queued in order and the queue stays well shaped. |
| LinkedQueueNB.GetAsWrittenBeforeDrain | JVM/src/main/java/pc/serie2/messageQueueOptimized/LinkedQueueNB.java:41-49 | While at least two items are queued, the written `get` also returns the oldest item and keeps the shape. |
| LinkedQueueNB.DrainStrandsTail | JVM/src/main/java/pc/serie2/messageQueueOptimized/LinkedQueueNB.java:33-48 | Taking the last item with the written `get` returns it, but leaves `tail` on the consumed node and breaks the shape. The next `put` links onto that node, and the queue still reports empty. |
| LinkedQueueNB.PutAllPreservesValid | JVM/src/main/java/pc/serie2/messageQueueOptimized/LinkedQueueNB.java:24-39 | Any number of puts keep the queue well shaped. |
| LinkedQueueNB.PutAllAppends | JVM/src/main/java/pc/serie2/messageQueueOptimized/LinkedQueueNB.java:24-39 | Putting a sequence of items appends exactly that sequence to the contents. |
| LinkedQueueNB.GetNInOrder | JVM/src/main/java/pc/serie2/messageQueueOptimized/LinkedQueueNB.java:41-49 | `n` corrected gets return the `n` oldest items in order and leave the rest queued. |
| LinkedQueueNB.FifoOrder | JVM/src/main/java/pc/serie2/messageQueueOptimized/LinkedQueueNB.java:24-49 | With the corrected `get`: items put into a fresh queue come out of the gets in the order they were put. |
| LinkedQueueNB.GetNAsWrittenInOrder | JVM/src/main/java/pc/serie2/messageQueueOptimized/LinkedQueueNB.java:41-48 | With no `put` in between, `n` written gets return the `n` oldest items in order; the last of them may be the one that strands `tail`. |
| LinkedQueueNB.FifoOrderAsWritten | JVM/src/main/java/pc/serie2/messageQueueOptimized/LinkedQueueNB.java:24-48 | With the written `get`: items put into a fresh queue all come out, in the order they were put, as long as every `put` precedes every `get`. |
| MessageQueueNonBlocking.Pending | JVM/src/main/java/pc/serie2/messageQueueOptimized/MessageQueueNonBlocking.java:19-19 | The queued messages, oldest first, one per queued ticket. |
| MessageQueueNonBlocking.EmptyIsValid | JVM/src/main/java/pc/serie2/messageQueueOptimized/MessageQueueNonBlocking.java:19-20 | A new queue has nothing pending and no receiver, and satisfies the invariant. |
| MessageQueueNonBlocking.Send | JVM/src/main/java/pc/serie2/messageQueueOptimized/MessageQueueNonBlocking.java:22-38 | Over the corrected `get`: With a queued receiver, the oldest one is taken, given the message, and a delivered status is returned. Otherwise a fresh unsent ticket is queued and returned, and the pending messages gain exactly this one at the end. |
| MessageQueueNonBlocking.Deliver | JVM/src/main/java/pc/serie2/messageQueueOptimized/MessageQueueNonBlocking.java:23-32 | Over the corrected `get`: The oldest queued receiver leaves the receivers queue and gets the message. The messages queue is unchanged. |
| MessageQueueNonBlocking.QueueTicket | JVM/src/main/java/pc/serie2/messageQueueOptimized/MessageQueueNonBlocking.java:33-37 | Over the corrected `get`: A fresh unsent ticket joins the end of the messages queue. The pending messages gain exactly this message at the end. |
| MessageQueueNonBlocking.TakeMessage | JVM/src/main/java/pc/serie2/messageQueueOptimized/MessageQueueNonBlocking.java:42-46 | Over the corrected `get`: The oldest pending message is returned, its ticket is marked sent, and the other pending messages keep their order. |
| MessageQueueNonBlocking.Receive | JVM/src/main/java/pc/serie2/messageQueueOptimized/MessageQueueNonBlocking.java:40-57 | Over the corrected `get`: With a pending message, the oldest is returned and nothing else is registered. With none and a zero timeout: an empty result and no state change. Otherwise a fresh receiver is queued and parks. |
| MessageQueueNonBlocking.ResumeReceive | JVM/src/main/java/pc/serie2/messageQueueOptimized/MessageQueueNonBlocking.java:57-77 | Over the corrected `get`: A served receiver returns its message, also on interrupt. An unserved one rethrows an interrupt; otherwise it re-checks: it takes a pending message, returns empty on expiry, or parks again. In no case does it leave the receivers queue. |
| MessageQueueNonBlocking.IsSent | JVM/src/main/java/pc/serie2/messageQueueOptimized/MessageQueueNonBlocking.java:83-119 | A delivered status is always sent. Under the invariant, a ticket is sent exactly when it is no longer queued. |
| MessageQueueNonBlocking.AwaitSent | JVM/src/main/java/pc/serie2/messageQueueOptimized/MessageQueueNonBlocking.java:121-128 | `await` returns true at once when sent and false at once on a zero timeout. Otherwise it parks. |
| MessageQueueNonBlocking.SendPreservesValid | JVM/src/main/java/pc/serie2/messageQueueOptimized/MessageQueueNonBlocking.java:22-38 | Over the corrected `get`: `send` preserves the invariant: exactly the unsent tickets are queued, each once. Queued receivers are unserved. Every parked unserved receiver is queued. |
| MessageQueueNonBlocking.DeliverPreservesValid | JVM/src/main/java/pc/serie2/messageQueueOptimized/MessageQueueNonBlocking.java:23-32 | Over the corrected `get`: The delivering branch preserves that invariant. |
| MessageQueueNonBlocking.QueueTicketPreservesValid | JVM/src/main/java/pc/serie2/messageQueueOptimized/MessageQueueNonBlocking.java:33-37 | Over the corrected `get`: The queueing branch preserves that invariant. |
| MessageQueueNonBlocking.TakeMessagePreservesValid | JVM/src/main/java/pc/serie2/messageQueueOptimized/MessageQueueNonBlocking.java:42-46 | Over the corrected `get`: Taking the oldest message preserves that invariant. |
| MessageQueueNonBlocking.ReceivePreservesValid | JVM/src/main/java/pc/serie2/messageQueueOptimized/MessageQueueNonBlocking.java:40-57 | Over the corrected `get`: Entering `receive` preserves that invariant. |
| MessageQueueNonBlocking.ResumeReceivePreservesValid | JVM/src/main/java/pc/serie2/messageQueueOptimized/MessageQueueNonBlocking.java:57-77 | Over the corrected `get`: Every way a parked receiver continues preserves that invariant. |
| MessageQueueNonBlocking.GetAsWrittenStocked | JVM/src/main/java/pc/serie2/messageQueueOptimized/LinkedQueueNB.java:41-48 | The written `get` on a non-empty queue of ids yields an id, and every node some node points to still carries an id. |
| MessageQueueNonBlocking.PutStocked | JVM/src/main/java/pc/serie2/messageQueueOptimized/LinkedQueueNB.java:24-39 | `put` of a known id keeps every linked node carrying a known id. |
| MessageQueueNonBlocking.SendAsWritten | JVM/src/main/java/pc/serie2/messageQueueOptimized/MessageQueueNonBlocking.java:22-38 | As written, over the code's `get`: with a receiver reachable from the dummy, that receiver is unlinked and given the message, and delivery is reported. Otherwise a fresh unsent ticket is put on the messages queue. |
| MessageQueueNonBlocking.ReceiveAsWritten | JVM/src/main/java/pc/serie2/messageQueueOptimized/MessageQueueNonBlocking.java:40-57 | As written, over the code's `get`: with a ticket reachable from the dummy, that ticket is unlinked, marked sent and its message returned. With none and a zero timeout: an empty result and no state change. Otherwise a fresh receiver is put and parks. |
| MessageQueueNonBlocking.ReceiveAsWrittenBeforeDrain | JVM/src/main/java/pc/serie2/messageQueueOptimized/MessageQueueNonBlocking.java:40-46 | While at least two tickets are queued, `receive` over the code's `get` returns what it returns over the corrected `get`, marks the same ticket sent, and leaves the same tickets queued in order. |
| MessageQueueNonBlocking.SendAsWrittenBeforeDrain | JVM/src/main/java/pc/serie2/messageQueueOptimized/MessageQueueNonBlocking.java:22-32 | While at least two receivers are queued, `send` over the code's `get` delivers to the same receiver as over the corrected `get`, and leaves the same receivers queued in order. |
| MessageQueueNonBlocking.EmptyIsWrittenShape | JVM/src/main/java/pc/serie2/messageQueueOptimized/MessageQueueNonBlocking.java:19-20 | A new queue meets what the operations over the code's `get` need. |
| MessageQueueNonBlocking.SecondMessageLost | JVM/src/main/java/pc/serie2/messageQueueOptimized/MessageQueueNonBlocking.java:22-49 | As written: `send(1)`, `receive(0)`, `send(2)`, `receive(0)` returns 1 and then empty. The second ticket stays unsent, and the messages queue reports empty. |
| MessageQueueNonBlocking.SecondMessageDelivered | JVM/src/main/java/pc/serie2/messageQueueOptimized/MessageQueueNonBlocking.java:22-49 | Over the corrected `get`, the same four calls return 1 and then 2, and the second ticket is sent. |
| MessageQueueNonBlocking.AbandonedReceiverSwallowsMessage | JVM/src/main/java/pc/serie2/messageQueueOptimized/MessageQueueNonBlocking.java:64-66 | A receiver that timed out and returned empty is still queued. The next send hands it the message and reports delivery, and the message is not pending for any later receive. |
| EventBus.NewIsValid | JVM/src/main/java/pc/serie1/EventBus.java:17-19 | A new bus has no subscriber, is not shutting down, and satisfies the invariant. |
| EventBus.AddEvent | JVM/src/main/java/pc/serie1/EventBus.java:193-201 | The event is appended exactly when the buffer holds fewer than `maxPending` events; otherwise the buffer is unchanged. A buffer within the bound stays within it. |
| EventBus.AddToAll | JVM/src/main/java/pc/serie1/EventBus.java:151-158 | Offering an event to a bucket neither adds nor removes subscribers. |
| EventBus.AddToAllPointwise | JVM/src/main/java/pc/serie1/EventBus.java:151-158 | Each subscriber in the bucket is offered the event once, and every other subscriber is unchanged. |
| EventBus.Init | JVM/src/main/java/pc/serie1/EventBus.java:70-89 | After shutdown nothing is registered and no subscriber comes back. Otherwise the type's bucket is created if absent, and a fresh subscriber with an empty buffer is appended to it. |
| EventBus.InitPreservesValid | JVM/src/main/java/pc/serie1/EventBus.java:70-89 | Subscribing preserves the invariant. Buckets are non-empty and list each subscriber once, under its own type. No buffer exceeds `maxPending`. A subscriber no longer in its bucket has an empty buffer. |
| EventBus.Publish | JVM/src/main/java/pc/serie1/EventBus.java:91-109 | Publishing fails with an illegal-state error exactly when shutting down. Otherwise no bucket or subscriber appears or disappears. An event whose type has no bucket changes nothing. |
| EventBus.PublishDelivers | JVM/src/main/java/pc/serie1/EventBus.java:95-105 | Before shutdown, exactly the subscribers registered under the event's own type are offered it, with append-if-room. Every other buffer is unchanged, and the invariant, including the bound, is kept. |
| EventBus.Poll | JVM/src/main/java/pc/serie1/EventBus.java:203-210 | A subscriber's `getEvent` takes the oldest buffered event, if any, and leaves the rest in order. |
| EventBus.GetEvent | JVM/src/main/java/pc/serie1/EventBus.java:52-62 | The bus's `getEvent` returns the oldest buffered event if there is one. Otherwise it returns nothing once shutting down, and parks before that. No other subscriber changes. |
| EventBus.ResumeGetEvent | JVM/src/main/java/pc/serie1/EventBus.java:62-64 | After the untimed wait, an interrupt propagates with nothing changed. Otherwise the subscriber polls its buffer. |
| EventBus.GetEventPreservesValid | JVM/src/main/java/pc/serie1/EventBus.java:52-68 | Taking an event preserves the invariant. |
| EventBus.ResumeGetEventPreservesValid | JVM/src/main/java/pc/serie1/EventBus.java:62-64 | Resuming a parked subscriber, woken or interrupted, preserves the invariant. |
| EventBus.InterruptedSubscriberStaysRegistered | JVM/src/main/java/pc/serie1/EventBus.java:21-33 | An interrupt while parked skips `signalIfLast`. The subscriber stays in its bucket, so a later `shutdown` never sees the bus empty. |
| EventBus.DrainAfterShutdown | JVM/src/main/java/pc/serie1/EventBus.java:26-31 | Once shutting down, the subscribe loop processes exactly the buffered events, oldest first. It exits with the loop guard false and the buckets unchanged. |
| EventBus.SignalIfLast | JVM/src/main/java/pc/serie1/EventBus.java:33-50 | Called once the subscriber's loop has exited, with its own type. The subscriber is removed from its bucket. The bucket is dropped exactly when it becomes empty, and other buckets are unchanged. Completion is signalled exactly when no bucket is left. |
| EventBus.SignalIfLastPreservesValid | JVM/src/main/java/pc/serie1/EventBus.java:33-50 | Leaving preserves the invariant, and the subscriber is no longer listed in its bucket. |
| EventBus.SignalIfLastKeepsBuckets | JVM/src/main/java/pc/serie1/EventBus.java:36-50 | The buckets left after a subscriber leaves are non-empty, list each subscriber once, and only under its own type. |
| EventBus.SignalIfLastLeavesDrained | JVM/src/main/java/pc/serie1/EventBus.java:26-50 | Only the leaving subscriber becomes unregistered, and it leaves with an empty buffer. |
| EventBus.DrainReadiesLeave | JVM/src/main/java/pc/serie1/EventBus.java:26-33 | After draining once shutting down, a registered subscriber is still in its bucket with its loop exited, and the bus is still valid, so `signalIfLast` may run. |
| EventBus.Shutdown | JVM/src/main/java/pc/serie1/EventBus.java:111-128 | As written: sets the flag and never returns without first waiting for the completion signal. |
| EventBus.ShutdownChecked | JVM/src/main/java/pc/serie1/EventBus.java:111-128 | Corrected: sets the flag and returns at once exactly when no subscriber is registered. |
| EventBus.ShutdownPreservesValid | JVM/src/main/java/pc/serie1/EventBus.java:111-117 | Setting the shutdown flag, in either version of `shutdown`, preserves the invariant, and every later publish fails with an illegal-state error. |
| EventBus.ResumeShutdown | JVM/src/main/java/pc/serie1/EventBus.java:119-128 | After each wake, with interrupts ignored, the waiter is done exactly when no bucket is left. On a valid bus, once done, every subscriber's buffer is empty: all pending events were processed. |
| EventBus.ShutdownWithoutSubscribersWaits | JVM/src/main/java/pc/serie1/EventBus.java:111-128 | With no subscriber, the written `shutdown` parks, and no subscriber can join afterwards to signal it. The corrected one returns at once. |
| EventBus.PublishAll | JVM/src/main/java/pc/serie1/EventBus.java:91-109 | A run of publishes adds or removes no subscriber or bucket, and leaves the flag and capacity unchanged. |
| EventBus.PublishAllKeepsOldest | JVM/src/main/java/pc/serie1/EventBus.java:193-201 | A subscriber receiving a run of events of its type ends with its old buffer followed by the earliest events, cut at `maxPending`. The later ones are dropped. |
| EventBus.SlowSubscriberHandlesCapacityPlusOne | JVM/src/test/java/pc/serie1tests/EventBusTests.java:36-77 | A subscriber parked on an empty buffer is woken by the first event and takes it at once. While it handles that one, at least `maxPending` more events of its type arrive. After `shutdown` it drains exactly the first `maxPending` of them, so `maxPending` + 1 events are handled in all. |
| EventBus.FirstEventTaken | JVM/src/main/java/pc/serie1/EventBus.java:52-64 | The first publish wakes the parked subscriber, which takes the event and is left with an empty buffer. |
| SimpleThreadPoolExecutor.NewIsIdle | src/main/java/pc/serie1/SimpleThreadPoolExecutor.java:24-27 | A new pool is idle, not shutting down, has nothing pending and no worker, and satisfies the invariant. |
| SimpleThreadPoolExecutor.Execute | src/main/java/pc/serie1/SimpleThreadPoolExecutor.java:29-63 | After shutdown: a rejection and no state change. Otherwise it succeeds at once exactly when a worker is idle or the counter is below `maxPoolSize`. The oldest idle worker is used first, otherwise a new worker is started and counted. It fails at once only when saturated with a zero timeout, changing nothing. Otherwise the unit is queued and the caller parks. On success and on parking, a fresh unexecuted unit holding the command is added. Pending grows by one on every non-failing path. |
| SimpleThreadPoolExecutor.HandOff | src/main/java/pc/serie1/SimpleThreadPoolExecutor.java:37-43 | The oldest idle worker leaves the idle list and gets a fresh unexecuted unit holding the command. Pending grows by one. No other worker, the queue, the submitters and the counter are unchanged. |
| SimpleThreadPoolExecutor.Spawn | src/main/java/pc/serie1/SimpleThreadPoolExecutor.java:45-52 | A new worker, with a fresh id, starts running a fresh unexecuted unit holding the command. The counter and pending each grow by one. No existing worker, the queue, the idle list and the submitters are unchanged. |
| SimpleThreadPoolExecutor.Enqueue | src/main/java/pc/serie1/SimpleThreadPoolExecutor.java:61-63 | A new, unexecuted unit holding the command gets an id no unit had, joins the end of the queue, and its submitter waits on it. The pending count rises by one. Workers, the idle list and the shutdown flag are untouched. |
| SimpleThreadPoolExecutor.Withdraw | src/main/java/pc/serie1/SimpleThreadPoolExecutor.java:67-82 | A submitter that gives up stops waiting. Its unit leaves the queue, which shrinks by one; every other queued unit stays. The pending count drops by one. Units and workers are untouched. |
| SimpleThreadPoolExecutor.ResumeExecute | src/main/java/pc/serie1/SimpleThreadPoolExecutor.java:64-84 | A submitter whose unit was taken returns true, whatever woke it. Otherwise expiry withdraws the unit and returns false, an interrupt withdraws it and rethrows, and an early wake waits on. |
| SimpleThreadPoolExecutor.Shutdown | src/main/java/pc/serie1/SimpleThreadPoolExecutor.java:90-97 | `shutdown` only sets the flag. |
| SimpleThreadPoolExecutor.AwaitTermination | src/main/java/pc/serie1/SimpleThreadPoolExecutor.java:99-112 | `awaitTermination` returns true at once exactly when nothing is pending. It returns false at once exactly when something is pending and the timeout is zero. Otherwise it waits. |
| SimpleThreadPoolExecutor.ResumeAwaitTermination | src/main/java/pc/serie1/SimpleThreadPoolExecutor.java:113-129 | After each wake, the waiter succeeds exactly when nothing is pending, even on interrupt. Otherwise interrupt throws, expiry fails, and an early wake waits on. |
| SimpleThreadPoolExecutor.CompleteWork | src/main/java/pc/serie1/SimpleThreadPoolExecutor.java:155-165 | A completed unit lowers pending by exactly one and frees its worker. Nothing else changes. |
| SimpleThreadPoolExecutor.FetchWork | src/main/java/pc/serie1/SimpleThreadPoolExecutor.java:179-203 | The oldest queued unit is claimed and marked executing. With none queued, the worker ends exactly when shutting down or with a zero keep-alive. Otherwise it joins the end of the idle list and parks. No worker appears or disappears. |
| SimpleThreadPoolExecutor.ResumeFetch | src/main/java/pc/serie1/SimpleThreadPoolExecutor.java:204-223 | A worker that was handed a unit runs on, whatever woke it. An unassigned one leaves the idle list and ends on expiry or interrupt, and an early wake waits on. |
| SimpleThreadPoolExecutor.RetireAsWritten | src/main/java/pc/serie1/SimpleThreadPoolExecutor.java:155-166 | As written, an ending worker disappears but the counter of started workers keeps its slot. |
| SimpleThreadPoolExecutor.Retire | src/main/java/pc/serie1/SimpleThreadPoolExecutor.java:155-166 | Corrected: an ending worker disappears and gives its slot back. |
| SimpleThreadPoolExecutor.PendingZeroIffIdle | src/main/java/pc/serie1/SimpleThreadPoolExecutor.java:22-22 | Under the invariant, the pending counter is zero exactly when no unit is queued and no worker holds one. |
| SimpleThreadPoolExecutor.TerminatedAtOnceIffIdle | src/main/java/pc/serie1/SimpleThreadPoolExecutor.java:104-105 | `awaitTermination` returns true at once exactly when the pool is idle. |
| SimpleThreadPoolExecutor.ExecutePreservesValid | src/main/java/pc/serie1/SimpleThreadPoolExecutor.java:29-63 | `execute` preserves the invariant. Pending counts the queued units plus the busy workers, and the counter bounds the workers. The idle list holds each parked unassigned worker once. Phases match held units. Queued units are unclaimed and awaited. Where the counter is exact, it stays exact. |
| SimpleThreadPoolExecutor.HandOffPreservesValid | src/main/java/pc/serie1/SimpleThreadPoolExecutor.java:37-43 | The hand-off path preserves the invariant and the exact count. |
| SimpleThreadPoolExecutor.SpawnPreservesValid | src/main/java/pc/serie1/SimpleThreadPoolExecutor.java:45-52 | The spawn path preserves the invariant and the exact count. |
| SimpleThreadPoolExecutor.SpawnKeepsWorkers | src/main/java/pc/serie1/SimpleThreadPoolExecutor.java:45-52 | Starting a worker keeps the counters, the idle list and the worker phases consistent. |
| SimpleThreadPoolExecutor.SpawnKeepsAccounted | src/main/java/pc/serie1/SimpleThreadPoolExecutor.java:45-52 | Starting a worker on a fresh unit keeps pending equal to queued plus held units, and keeps the counter exact if it was. |
| SimpleThreadPoolExecutor.EnqueuePreservesValid | src/main/java/pc/serie1/SimpleThreadPoolExecutor.java:61-63 | The queueing path preserves the invariant and the exact count. |
| SimpleThreadPoolExecutor.ResumeExecutePreservesValid | src/main/java/pc/serie1/SimpleThreadPoolExecutor.java:64-84 | A parked submitter's continuation preserves the invariant and the exact count. |
| SimpleThreadPoolExecutor.ShutdownPreservesValid | src/main/java/pc/serie1/SimpleThreadPoolExecutor.java:90-97 | `shutdown` preserves the invariant and the exact count. |
| SimpleThreadPoolExecutor.CompleteWorkPreservesValid | src/main/java/pc/serie1/SimpleThreadPoolExecutor.java:159-165 | Completing a unit preserves the invariant and the exact count. |
| SimpleThreadPoolExecutor.FetchWorkPreservesValid | src/main/java/pc/serie1/SimpleThreadPoolExecutor.java:179-203 | `fetchWork` on entry preserves the invariant and the exact count. |
| SimpleThreadPoolExecutor.TakeQueuedPreservesValid | src/main/java/pc/serie1/SimpleThreadPoolExecutor.java:184-189 | Claiming a queued unit preserves the invariant and the exact count. |
| SimpleThreadPoolExecutor.ResumeFetchPreservesValid | src/main/java/pc/serie1/SimpleThreadPoolExecutor.java:204-223 | A parked worker's continuation preserves the invariant and the exact count. |
| SimpleThreadPoolExecutor.GiveUpPreservesValid | src/main/java/pc/serie1/SimpleThreadPoolExecutor.java:207-222 | A parked worker giving up preserves the invariant and the exact count. |
| SimpleThreadPoolExecutor.RetireAsWrittenPreservesValid | src/main/java/pc/serie1/SimpleThreadPoolExecutor.java:155-166 | Ending a worker as written preserves the invariant: the counter still bounds the workers. |
| SimpleThreadPoolExecutor.RetirePreservesValid | src/main/java/pc/serie1/SimpleThreadPoolExecutor.java:155-166 | The corrected end preserves the invariant and the exact count. |
| SimpleThreadPoolExecutor.ExecuteAllNoWait | src/main/java/pc/serie1/SimpleThreadPoolExecutor.java:29-55 | A run of zero-timeout `execute` calls gives one outcome per command and keeps the pool well formed. |
| SimpleThreadPoolExecutor.ExecuteAllNoWaitStartsWorkers | src/main/java/pc/serie1/SimpleThreadPoolExecutor.java:45-52 | With no idle worker and room for `n` more, `n` zero-timeout commands each start a worker and succeed. |
| SimpleThreadPoolExecutor.SaturatedPoolRefuses | src/main/java/pc/serie1/SimpleThreadPoolExecutor.java:45-55 | A new pool of size S takes S zero-timeout commands. The next one returns false and changes nothing. |
| SimpleThreadPoolExecutor.ExhaustedPoolStarves | src/main/java/pc/serie1/SimpleThreadPoolExecutor.java:45-63 | As written, with every worker ended and the counter at `maxPoolSize`, a zero-timeout command is refused. Any other command is queued with no worker left to take it. |
| SimpleThreadPoolExecutor.RetiredWorkerKeepsSlot | src/main/java/pc/serie1/SimpleThreadPoolExecutor.java:45-52 | Concrete run: a pool of one worker with no keep-alive runs one unit and the worker ends. As written, the pool has no worker, an inexact counter, and refuses the next zero-timeout command. |
| SimpleThreadPoolExecutor.RetireFreesSlot | src/main/java/pc/serie1/SimpleThreadPoolExecutor.java:45-52 | In the same run with the corrected end, the next command starts a worker and succeeds. |
| SimpleThreadPoolExecutor.CountedPoolStartsWorker | src/main/java/pc/serie1/SimpleThreadPoolExecutor.java:45-52 | With an exact counter, a pool whose workers have all ended starts exactly one new worker for the next command. |
| ThreadSafeMessageBox.Publish | JVM/src/main/java/pc/serie2/ThreadSafeMessageBox.java:19-21 | `publish` replaces the holder with the message and a fresh counter equal to the lives given. |
| ThreadSafeMessageBox.TryConsume | JVM/src/main/java/pc/serie2/ThreadSafeMessageBox.java:23-35 | The message comes back exactly when the counter was positive, and then the counter drops by exactly one. Otherwise nothing comes back and nothing changes. The message never changes, and a counter that starts at zero or above stays there. |
| ThreadSafeMessageBox.ConsumeN | JVM/src/main/java/pc/serie2/ThreadSafeMessageBox.java:23-35 | Out of `n` calls, at most `n` succeed. |
| ThreadSafeMessageBox.ConsumeNCount | JVM/src/main/java/pc/serie2/ThreadSafeMessageBox.java:23-35 | With `L >= 0` lives, `n` calls succeed exactly `min(n, L)` times and leave `L - min(n, L)` lives. |
| ThreadSafeMessageBox.NothingBeforePublish | JVM/src/main/java/pc/serie2/ThreadSafeMessageBox.java:17-27 | The box starts with no holder, so before any `publish` every call returns nothing and changes nothing. |
| ThreadSafeMessageBox.LivesScenarios | JVM/src/main/java/pc/serie2/ThreadSafeMessageBox.java:19-35 | After `publish(m, L)`, L/2, L and 2L calls succeed L/2, L and L times. |

## Left out

- Thread interleaving, `Condition` signalling, lock reentrancy, memory visibility, and the linearizability and lock-freedom of `LinkedQueueNB` under contention. Each critical section, and each single-threaded pass of a CAS loop, is one transition. Which wake a parked thread sees is a parameter.
- Wall-clock time and `pc.utils.Timeouts`, which is not part of this model. `noWait` is `timeout == 0`. Deadline arithmetic is replaced by the `Expired` wake. Spurious wakeups are folded into `Woken`, which re-runs the loop.
- Running user `Runnable`s and `Consumer` handlers, and starting threads. A worker's run is its `CompleteWork` step, and a handler call is one element of the processed sequence.
- The termination signal of the pool (`waitTermination.signal()` in `fetchWork`) is not modelled as an event. `ResumeAwaitTermination` re-checks the counter after any wake.
- EventBus.ResumeGetEvent: the untimed `await` has no expiry, so only `interrupted: bool` is a parameter. The spurious-wake case re-polls the buffer, as the code does.
- Null messages and null items: a `Receiver` counts as served when its message is non-null. The model uses `Option`, so a null message cannot be sent. The dummy node's null item is `None`.
- Integer widths: the counters (`workersCounter`, `workPendingCounter`, `lives`, `maxPending`) are unbounded integers. Overflow of Java's `int` is not modelled.
- LinkedQueueNB.FifoOrder: stated for the corrected `get`. For the written `get`, `FifoOrderAsWritten` covers runs where every `put` precedes every `get`; a `put` after the queue drains is lost (`DrainStrandsTail`).
- MessageQueueNonBlocking.Send: runs over the corrected `get`. The code's `get` strands the receivers queue once it drains, so `send` never hands a message to a receiver queued after that; `SendAsWritten` models that.
- MessageQueueNonBlocking.Deliver: runs over the corrected `get`, for the same reason as `Send`.
- MessageQueueNonBlocking.QueueTicket: its ticket is reachable from the dummy only with the corrected `get`. Over the code's `get`, a ticket put after the messages queue drains is lost (`SecondMessageLost`).
- MessageQueueNonBlocking.TakeMessage: runs over the corrected `get`. Over the code's `get`, the oldest ticket is taken only while the messages queue has not drained before.
- MessageQueueNonBlocking.Receive: runs over the corrected `get`. `ReceiveAsWritten` models the code's `get`, which loses messages sent after the first drain.
- MessageQueueNonBlocking.ResumeReceive: runs over the corrected `get`. The loop's re-check over the code's `get` is not modelled on its own; it loses messages as `ReceiveAsWritten` does.
- MessageQueueNonBlocking.SendPreservesValid: the invariant is proved over the corrected `get` only. Over the code's `get` it fails: a queued unsent ticket can be unreachable.
- MessageQueueNonBlocking.DeliverPreservesValid: proved over the corrected `get` only, as for `SendPreservesValid`.
- MessageQueueNonBlocking.QueueTicketPreservesValid: proved over the corrected `get` only, as for `SendPreservesValid`.
- MessageQueueNonBlocking.TakeMessagePreservesValid: proved over the corrected `get` only, as for `SendPreservesValid`.
- MessageQueueNonBlocking.ReceivePreservesValid: proved over the corrected `get` only, as for `SendPreservesValid`.
- MessageQueueNonBlocking.ResumeReceivePreservesValid: proved over the corrected `get` only, as for `SendPreservesValid`.
- `MessageQueueNonBlocking` fast paths run outside the monitor. Races between `isNotEmpty` and `get` (another thread draining the queue in between) are not modelled.
- `MessageQueue` `tryCancel` takes the ticket's own lock, not the queue's, when it removes the ticket from `messages`. That race is not modelled; the cancel is one atomic step.
- `SendStatus` is an interface; each queue has its own status datatype.
- `subscribeEvent` as a whole is not one member. Its pieces are `Init`, `GetEvent`, `ResumeGetEvent`, `KeepsProcessing` (the loop guard), `DrainAfterShutdown` (the loop once shutting down) and `SignalIfLast`.
- The C# files (`DOTNET/…`, `JsonEchoServer.cs`) are UI, file and socket plumbing with no coordination logic.
- The test classes drive several threads through a helper class that is not part of this model. Their scenarios appear only as the scenario lemmas named above.
- `KeyedExchangerSrc` reuses `KeyedExchanger.Exchange`: the entry critical section of the two copies is the same text.

## Findings

| source | as written | input that shows it | evidently intended | confidence | as-written member | corrected member |
|---|---|---|---|---|---|---|
| src/main/java/pc/serie1/KeyedExchanger.java:60-71 | A waiter that times out, or is interrupted, unmatched returns without removing its holder from `keysMap`. | `exchange(k, a, t>0)` expires and returns empty. Then `exchange(k, b, 0)` matches the stale holder, returns `a`, and `b` reaches nobody. | Remove the key on both give-up paths, as the JVM copy does. | not executed | KeyedExchangerSrc.StaleHolderSwallowsValue | KeyedExchanger.LateCallerFindsNoPartner |
| JVM/src/main/java/pc/serie2/messageQueueOptimized/LinkedQueueNB.java:41-48 | `get` CASes the dummy's `next` and never moves `head` or `tail`. After the last item is taken, `tail` names the consumed node. | `put(a); get(); put(b)`: `b` is linked after the consumed node, and `isEmpty()` stays true for ever. | Michael–Scott `get`: swing `head` onto the consumed node, which becomes the new dummy. | not executed | LinkedQueueNB.DrainStrandsTail | LinkedQueueNB.GetTakesOldest |
| JVM/src/main/java/pc/serie2/messageQueueOptimized/MessageQueueNonBlocking.java:22-46 | `send` and `receive` use `LinkedQueueNB.get`, which never moves `tail` (finding 2). | `send(1); receive(0); send(2); receive(0)`: the second `receive` returns empty and ticket 2 is never sent. | A `get` that swings `head`, so a ticket put after a drain stays reachable. | not executed | MessageQueueNonBlocking.SecondMessageLost | MessageQueueNonBlocking.SecondMessageDelivered |
| src/main/java/pc/serie1/SimpleThreadPoolExecutor.java:45-52 | `workersCounter` is incremented when a worker starts and never decremented when a worker ends in `fetchWork`. | `new(1, 0)`, then `execute(c1, 0)`; the worker finishes and ends. `execute(c2, 0)` returns false with no live worker. | Give the slot back when a worker ends. | not executed | SimpleThreadPoolExecutor.RetiredWorkerKeepsSlot | SimpleThreadPoolExecutor.RetireFreesSlot |
| JVM/src/main/java/pc/serie1/EventBus.java:119-128 | `shutdown` awaits the completion signal before its first check that no subscriber is left. | `shutdown()` on a bus with no subscriber: nothing can ever signal `finishedCondition`. | Check `subscribers.isEmpty()` before the first `await`. | not executed | EventBus.ShutdownWithoutSubscribersWaits | EventBus.ShutdownChecked |
