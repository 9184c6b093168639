/**
 * The lock-free linked queue, read sequentially: every CAS succeeds the
 * first time it is tried, so one call of `put` or `get` is one transition.
 *
 * Nodes are objects with identity: `nodes` maps a node id to its item
 * (`None` for the null item of the initial dummy) and its `next` reference.
 * `head` and `tail` are the two atomic references; `nextId` is the next
 * fresh node id. `head` always names a dummy node whose successor holds the
 * first item.
 */
module LinkedQueueNB {
  import opened Sync

  datatype Node<E> = Node(item: Option<E>, next: Option<nat>)

  datatype LinkedQueue<E> = LinkedQueue(nodes: map<nat, Node<E>>, head: nat, tail: nat, nextId: nat)

  /**
   * Reference safety of the node graph: the allocated ids are exactly those
   * below `nextId`, `head` and `tail` name allocated nodes, and a `next`
   * always points to a younger allocated node (so following `next` ends).
   */
  ghost predicate Linked<E>(q: LinkedQueue<E>) {
    && (forall n: nat :: n in q.nodes <==> n < q.nextId)
    && q.head < q.nextId && q.tail < q.nextId
    && forall n | n in q.nodes && q.nodes[n].next.Some? :: n < q.nodes[n].next.value < q.nextId
  }

  /** The nodes `f` .. `t` form one chain of consecutive ids. */
  ghost predicate Chain<E>(nodes: map<nat, Node<E>>, f: nat, t: nat) {
    forall i | f <= i < t :: i in nodes && nodes[i].next == Some(i + 1)
  }

  /** The nodes `f` .. `t` all exist and carry an item. */
  ghost predicate Filled<E>(nodes: map<nat, Node<E>>, f: nat, t: nat) {
    forall i | f <= i <= t :: i in nodes && nodes[i].item.Some?
  }

  /** The items of nodes `f` .. `t`, in id order (empty when `f == t + 1`). */
  ghost function Items<E>(nodes: map<nat, Node<E>>, f: nat, t: nat): (items: seq<E>)
    requires f <= t + 1 && Filled(nodes, f, t)
    ensures |items| == t + 1 - f
  {
    seq(t + 1 - f, i requires 0 <= i < t + 1 - f => nodes[f + i].item.value)
  }

  /**
   * The queue's shape: `tail` is the newest node and has no successor; if
   * the dummy has a successor, the nodes from it up to `tail` form one chain
   * of consecutive ids, each carrying an item; if not, `tail` is the dummy.
   */
  ghost predicate Valid<E>(q: LinkedQueue<E>) {
    && Linked(q)
    && q.tail + 1 == q.nextId
    && q.nodes[q.tail].next == None
    && (q.nodes[q.head].next == None ==> q.tail == q.head)
    && (q.nodes[q.head].next.Some? ==>
          && Chain(q.nodes, q.nodes[q.head].next.value, q.tail)
          && Filled(q.nodes, q.nodes[q.head].next.value, q.tail))
  }

  /** The items in the queue, oldest first: those of the chain after the dummy. */
  ghost function Contents<E>(q: LinkedQueue<E>): (items: seq<E>)
    requires Valid(q)
  {
    match q.nodes[q.head].next
    case None => []
    case Some(f) => Items(q.nodes, f, q.tail)
  }

  /** The constructor: `head` and `tail` both name a dummy node with no successor. */
  function New<E>(): LinkedQueue<E> {
    LinkedQueue(map[0 := Node(None, None)], 0, 0, 1)
  }

  /** A new queue is one dummy node, named by both `head` and `tail`: well shaped and empty. */
  lemma NewIsEmpty<E>()
    ensures var q := New<E>();
      && Valid(q) && q.head == q.tail && q.nodes[q.head].next == None
      && Contents(q) == [] && IsEmpty(q)
  {
    assert forall n: nat :: n in New<E>().nodes <==> n < 1;
  }

  function IsEmpty<E>(q: LinkedQueue<E>): (empty: bool)
    requires q.head in q.nodes
    ensures Valid(q) ==> (empty <==> Contents(q) == [])
  {
    q.nodes[q.head].next == None
  }

  function IsNotEmpty<E>(q: LinkedQueue<E>): (nonEmpty: bool)
    requires q.head in q.nodes
    ensures nonEmpty == !IsEmpty(q)
    ensures Valid(q) ==> (nonEmpty <==> Contents(q) != [])
  {
    q.nodes[q.head].next != None
  }

  /**
   * The tail-advancing half of `put`'s retry loop: while the node reached
   * has a successor, move on to it; stop at a node with none.
   */
  function AdvanceTail<E>(q: LinkedQueue<E>, n: nat): (last: nat)
    requires Linked(q) && n in q.nodes
    ensures last in q.nodes && q.nodes[last].next == None && n <= last
    decreases q.nextId - n
  {
    match q.nodes[n].next
    case None => n
    case Some(m) => AdvanceTail(q, m)
  }

  /**
   * `put`: link a fresh node carrying `item` after the node `tail` reaches,
   * then swing `tail` to it. Always reports success.
   */
  function Put<E>(q: LinkedQueue<E>, item: E): (r: (LinkedQueue<E>, bool))
    requires Linked(q)
    ensures Linked(r.0) && r.1
    ensures r.0.head == q.head && r.0.tail == q.nextId && r.0.nextId == q.nextId + 1
    ensures q.nextId !in q.nodes && r.0.nodes[r.0.tail] == Node(Some(item), None)
    ensures var last := AdvanceTail(q, q.tail);
      && last in r.0.nodes && r.0.nodes[last].next == Some(r.0.tail)
      && r.0.nodes[last].item == q.nodes[last].item
      && forall n | n in q.nodes && n != last :: n in r.0.nodes && r.0.nodes[n] == q.nodes[n]
  {
    var last := AdvanceTail(q, q.tail);
    var id := q.nextId;
    var nodes := q.nodes[last := q.nodes[last].(next := Some(id))][id := Node(Some(item), None)];
    (q.(nodes := nodes, tail := id, nextId := id + 1), true)
  }

  /**
   * `get` as written: the successor of the dummy is unlinked by a CAS on
   * the dummy's `next`; neither `head` nor `tail` moves. The caller must
   * know the queue is non-empty (an empty queue dereferences null).
   */
  function GetAsWritten<E>(q: LinkedQueue<E>): (r: (LinkedQueue<E>, Option<E>))
    requires Linked(q) && q.nodes[q.head].next.Some?
    ensures Linked(r.0)
    ensures r.0.head == q.head && r.0.tail == q.tail && r.0.nextId == q.nextId
    ensures var first := q.nodes[q.head].next.value;
      && r.1 == q.nodes[first].item
      && r.0.nodes == q.nodes[q.head := q.nodes[q.head].(next := q.nodes[first].next)]
  {
    var first := q.nodes[q.head].next.value;
    var nodes := q.nodes[q.head := q.nodes[q.head].(next := q.nodes[first].next)];
    (q.(nodes := nodes), q.nodes[first].item)
  }

  /**
   * `get` as the Michael-Scott queue intends it: the consumed node becomes
   * the new dummy by moving `head` onto it; no node changes.
   */
  function Get<E>(q: LinkedQueue<E>): (r: (LinkedQueue<E>, Option<E>))
    requires Linked(q) && q.nodes[q.head].next.Some?
    ensures Linked(r.0)
    ensures r.0.nodes == q.nodes && r.0.tail == q.tail && r.0.nextId == q.nextId
    ensures r.0.head == q.nodes[q.head].next.value && r.1 == q.nodes[r.0.head].item
  {
    var first := q.nodes[q.head].next.value;
    (q.(head := first), q.nodes[first].item)
  }

  /** From any node of the chain, the tail-advancing loop ends at `tail`. */
  lemma {:induction false} AdvanceReachesTail<E>(q: LinkedQueue<E>, n: nat)
    requires Valid(q) && q.nodes[q.head].next.Some?
    requires q.nodes[q.head].next.value <= n <= q.tail
    ensures AdvanceTail(q, n) == q.tail
    decreases q.tail - n
  {
    if n < q.tail {
      assert q.nodes[n].next == Some(n + 1);
      AdvanceReachesTail(q, n + 1);
    }
  }

  /** In a well-shaped queue `tail` never lags: the advancing loop stays put. */
  lemma TailNeverLags<E>(q: LinkedQueue<E>)
    requires Valid(q)
    ensures AdvanceTail(q, q.tail) == q.tail
  {
  }

  /** `put` keeps the shape and appends its item at the end. */
  lemma PutAppends<E>(q: LinkedQueue<E>, item: E)
    requires Valid(q)
    ensures Valid(Put(q, item).0)
    ensures Contents(Put(q, item).0) == Contents(q) + [item]
  {
    TailNeverLags(q);
    var q' := Put(q, item).0;
    match q.nodes[q.head].next
    case None =>
      assert q'.nodes[q'.head].next == Some(q'.tail);
      assert Contents(q') == [item];
    case Some(f) =>
      assert q'.nodes[q'.head].next == Some(f);
      assert forall i | f <= i < q'.tail :: i in q'.nodes && q'.nodes[i].next == Some(i + 1);
      assert Contents(q') == Contents(q) + [item];
  }

  /** Dropping the first node of a filled range drops the first item. */
  lemma ItemsDropFirst<E>(nodes: map<nat, Node<E>>, f: nat, t: nat)
    requires f <= t && Filled(nodes, f, t)
    ensures Filled(nodes, f + 1, t)
    ensures Items(nodes, f + 1, t) == Items(nodes, f, t)[1..]
    ensures Items(nodes, f, t)[0] == nodes[f].item.value
  {
  }

  /** Items of a range only depend on the nodes in it. */
  lemma ItemsFrame<E>(nodes: map<nat, Node<E>>, nodes': map<nat, Node<E>>, f: nat, t: nat)
    requires f <= t + 1 && Filled(nodes, f, t)
    requires forall i | f <= i <= t :: i in nodes' && nodes'[i] == nodes[i]
    ensures Filled(nodes', f, t) && Items(nodes', f, t) == Items(nodes, f, t)
  {
  }

  /** The corrected `get` keeps the shape and takes the oldest item. */
  lemma GetTakesOldest<E>(q: LinkedQueue<E>)
    requires Valid(q) && !IsEmpty(q)
    ensures Valid(Get(q).0)
    ensures Get(q).1 == Some(Contents(q)[0])
    ensures Contents(Get(q).0) == Contents(q)[1..]
  {
    var (q', x) := Get(q);
    var f := q.nodes[q.head].next.value;
    assert q'.head == f;
    ItemsDropFirst(q.nodes, f, q.tail);
    if f < q.tail {
      assert q.nodes[f].next == Some(f + 1);
      assert Chain(q'.nodes, f + 1, q'.tail);
      assert Valid(q');
      assert Contents(q') == Items(q.nodes, f + 1, q.tail);
    } else {
      assert q'.nodes[q'.head].next == None;
      assert Valid(q');
    }
  }

  /**
   * The written `get` behaves like the intended one while at least two
   * items are queued: it keeps the shape and takes the oldest item.
   */
  lemma GetAsWrittenBeforeDrain<E>(q: LinkedQueue<E>)
    requires Valid(q) && |Contents(q)| >= 2
    ensures Valid(GetAsWritten(q).0)
    ensures GetAsWritten(q).1 == Some(Contents(q)[0])
    ensures Contents(GetAsWritten(q).0) == Contents(q)[1..]
  {
    var (q', x) := GetAsWritten(q);
    var f := q.nodes[q.head].next.value;
    assert f < q.tail;
    assert q.nodes[f].next == Some(f + 1);
    assert q'.nodes[q'.head].next == Some(f + 1);
    ItemsDropFirst(q.nodes, f, q.tail);
    assert forall i | f + 1 <= i <= q.tail :: i in q'.nodes && q'.nodes[i] == q.nodes[i];
    ItemsFrame(q.nodes, q'.nodes, f + 1, q.tail);
    assert Chain(q'.nodes, f + 1, q'.tail);
    assert Valid(q');
  }

  /**
   * Draining with the written `get` strands `tail` on the consumed node: the
   * dummy has no successor yet `tail` is not the dummy, and the next `put`
   * links onto the consumed node, where no `get` can reach its item.
   */
  lemma DrainStrandsTail<E>(q: LinkedQueue<E>, item: E)
    requires Valid(q) && |Contents(q)| == 1
    ensures GetAsWritten(q).1 == Some(Contents(q)[0])
    ensures
      var (drained, _) := GetAsWritten(q);
      && IsEmpty(drained) && drained.tail != drained.head
      && !Valid(drained)
      && var (after, _) := Put(drained, item);
      && IsEmpty(after)
      && after.nodes[drained.tail].next == Some(after.tail)
  {
    var (drained, _) := GetAsWritten(q);
    assert AdvanceTail(drained, drained.tail) == drained.tail;
  }

  /** Puts on a fresh queue, in order. */
  function PutAll<E>(q: LinkedQueue<E>, items: seq<E>): (q': LinkedQueue<E>)
    requires Linked(q)
    ensures Linked(q')
    decreases |items|
  {
    if items == [] then q else PutAll(Put(q, items[0]).0, items[1..])
  }

  lemma {:induction false} PutAllPreservesValid<E>(q: LinkedQueue<E>, items: seq<E>)
    requires Valid(q)
    ensures Valid(PutAll(q, items))
    decreases |items|
  {
    if items != [] {
      PutAppends(q, items[0]);
      PutAllPreservesValid(Put(q, items[0]).0, items[1..]);
    }
  }

  lemma {:induction false} PutAllAppends<E>(q: LinkedQueue<E>, items: seq<E>)
    requires Valid(q)
    ensures Valid(PutAll(q, items)) && Contents(PutAll(q, items)) == Contents(q) + items
    decreases |items|
  {
    PutAllPreservesValid(q, items);
    if items != [] {
      var q1 := Put(q, items[0]).0;
      PutAppends(q, items[0]);
      assert PutAll(q, items) == PutAll(q1, items[1..]);
      PutAllAppends(q1, items[1..]);
      AppendFirstThenRest(Contents(q), items);
    }
  }

  lemma AppendFirstThenRest<T>(c: seq<T>, items: seq<T>)
    requires items != []
    ensures (c + [items[0]]) + items[1..] == c + items
  {
    assert items == [items[0]] + items[1..];
  }

  /** The items of `n` consecutive corrected `get`s, in the order returned. */
  function GetN<E>(q: LinkedQueue<E>, n: nat): (r: (LinkedQueue<E>, seq<Option<E>>))
    requires Linked(q)
    ensures Linked(r.0) && |r.1| <= n
    decreases n
  {
    if n == 0 || IsEmpty(q) then (q, [])
    else
      var (q1, x) := Get(q);
      var (q2, xs) := GetN(q1, n - 1);
      (q2, [x] + xs)
  }

  /** Sequential FIFO: `n` gets return the `n` oldest items in order. */
  lemma {:induction false} GetNInOrder<E>(q: LinkedQueue<E>, n: nat)
    requires Valid(q) && n <= |Contents(q)|
    ensures Valid(GetN(q, n).0)
    ensures GetN(q, n).1 == Somes(Contents(q), n)
    ensures Contents(GetN(q, n).0) == Contents(q)[n..]
    decreases n
  {
    if n > 0 {
      assert !IsEmpty(q);
      GetTakesOldest(q);
      var q1 := Get(q).0;
      GetNInOrder(q1, n - 1);
      GetNStep(q, n);
      SomesCons(Contents(q), n);
      assert Contents(q1)[n - 1..] == Contents(q)[n..];
    }
  }

  /** One step of the `n`-fold get: the first get, then `n - 1` more. */
  lemma GetNStep<E>(q: LinkedQueue<E>, n: nat)
    requires Linked(q) && n > 0 && !IsEmpty(q)
    ensures GetN(q, n) == (GetN(Get(q).0, n - 1).0, [Get(q).1] + GetN(Get(q).0, n - 1).1)
  {
  }

  /** What goes in comes out, in the same order, with the corrected `get`. */
  lemma FifoOrder<E>(items: seq<E>)
    ensures GetN(PutAll(New<E>(), items), |items|).1 == Somes(items, |items|)
  {
    var q0 := New<E>();
    var q := PutAll(q0, items);
    PutAllAppends(q0, items);
    assert Contents(q) == items;
    GetNInOrder(q, |items|);
  }

  /** The items of `n` consecutive written `get`s, in the order returned. */
  function GetNAsWritten<E>(q: LinkedQueue<E>, n: nat): (r: (LinkedQueue<E>, seq<Option<E>>))
    requires Linked(q)
    ensures Linked(r.0) && |r.1| <= n
    decreases n
  {
    if n == 0 || IsEmpty(q) then (q, [])
    else
      var (q1, x) := GetAsWritten(q);
      var (q2, xs) := GetNAsWritten(q1, n - 1);
      (q2, [x] + xs)
  }

  /** The first `n` items of `c`, each wrapped as a `get` returns it. */
  function Somes<E>(c: seq<E>, n: nat): (xs: seq<Option<E>>)
    requires n <= |c|
    ensures |xs| == n && forall i | 0 <= i < n :: xs[i] == Some(c[i])
  {
    seq(n, i requires 0 <= i < n => Some(c[i]))
  }

  /** Taking the first item, then `n - 1` from the rest, gives the first `n`. */
  lemma SomesCons<E>(c: seq<E>, n: nat)
    requires 0 < n <= |c|
    ensures Somes(c, n) == [Some(c[0])] + Somes(c[1..], n - 1)
  {
  }

  /**
   * The written `get` is FIFO as long as no `put` comes after a drain: up to
   * `|Contents(q)|` written gets return the oldest items in order.
   */
  lemma {:induction false} GetNAsWrittenInOrder<E>(q: LinkedQueue<E>, n: nat)
    requires Valid(q) && n <= |Contents(q)|
    ensures GetNAsWritten(q, n).1 == Somes(Contents(q), n)
    decreases n
  {
    if n > 0 {
      var c := Contents(q);
      assert !IsEmpty(q);
      GetNAsWrittenStep(q, n);
      SomesCons(c, n);
      if |c| >= 2 {
        var q1 := GetAsWritten(q).0;
        GetAsWrittenBeforeDrain(q);
        GetNAsWrittenInOrder(q1, n - 1);
      } else {
        DrainStrandsTail(q, c[0]);
      }
    }
  }

  /** One step of the `n`-fold written get: the first get, then `n - 1` more. */
  lemma GetNAsWrittenStep<E>(q: LinkedQueue<E>, n: nat)
    requires Linked(q) && n > 0 && !IsEmpty(q)
    ensures GetNAsWritten(q, n) ==
      (GetNAsWritten(GetAsWritten(q).0, n - 1).0, [GetAsWritten(q).1] + GetNAsWritten(GetAsWritten(q).0, n - 1).1)
  {
  }

  /** What goes in comes out, in the same order, with the written `get` and no `put` after a drain. */
  lemma FifoOrderAsWritten<E>(items: seq<E>)
    ensures GetNAsWritten(PutAll(New<E>(), items), |items|).1 == Somes(items, |items|)
  {
    var q0 := New<E>();
    var q := PutAll(q0, items);
    NewIsEmpty<E>();
    PutAllAppends(q0, items);
    assert Contents(q) == items;
    GetNAsWrittenInOrder(q, |items|);
  }
}
