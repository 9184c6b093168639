/**
 * The keyed exchanger (JVM copy): two callers that use the same integer key
 * swap their values. The first caller registers a holder under the key and
 * waits; the second finds it, stores its own value in it and takes the
 * first caller's value without waiting.
 *
 * Holders are objects with identity, so they live in a heap `holders`
 * indexed by ids; `keysMap` maps a key to the id of the holder registered
 * under it, and `waiting` holds the ids whose `exchange` call is still
 * parked.
 */
module KeyedExchanger {
  import opened Sync

  /** The record a waiting caller leaves under its key. */
  datatype Holder<T> = Holder(key: int, myData: T, otherData: Option<T>, wasMatched: bool)

  datatype Exchanger<T> = Exchanger(
    keysMap: map<int, nat>,
    holders: map<nat, Holder<T>>,
    waiting: set<nat>,
    nextId: nat)

  /** Reference safety: no id dangles and every allocated id is below `nextId`. */
  ghost predicate WellFormed<T>(s: Exchanger<T>) {
    && (forall k | k in s.keysMap :: s.keysMap[k] in s.holders)
    && (forall id | id in s.waiting :: id in s.holders)
    && (forall id | id in s.holders :: id < s.nextId)
  }

  /**
   * The exchanger's invariant: every registered holder is unmatched, knows
   * its key and belongs to a caller still waiting; and every waiting caller
   * that is still unmatched can be found under its key.
   */
  ghost predicate Valid<T>(s: Exchanger<T>) {
    && WellFormed(s)
    && (forall k | k in s.keysMap ::
          && s.holders[s.keysMap[k]].key == k
          && !s.holders[s.keysMap[k]].wasMatched
          && s.keysMap[k] in s.waiting)
    && (forall id | id in s.waiting ::
          !s.holders[id].wasMatched ==>
            s.holders[id].key in s.keysMap && s.keysMap[s.holders[id].key] == id)
    && (forall id | id in s.holders :: s.holders[id].wasMatched ==> s.holders[id].otherData.Some?)
  }

  function Empty<T>(): Exchanger<T> {
    Exchanger(map[], map[], {}, 0)
  }

  /** A fresh exchanger has no registered key and no parked caller. */
  lemma EmptyIsValid<T>()
    ensures Valid(Empty<T>()) && Empty<T>().keysMap == map[] && Empty<T>().waiting == {}
  { }

  /** `DataHolder.setAndGet`: the partner records its value and takes ours. */
  function SetAndGet<T>(h: Holder<T>, dataToSet: T): (r: (Holder<T>, T))
    ensures r.1 == h.myData
    ensures r.0.wasMatched && r.0.otherData == Some(dataToSet)
    ensures r.0.key == h.key && r.0.myData == h.myData
  {
    (h.(otherData := Some(dataToSet), wasMatched := true), h.myData)
  }

  /**
   * The critical section `exchange` runs on entry: match a waiting holder
   * (fast path), give up at once on a zero timeout, or register a fresh
   * holder and park.
   */
  function Exchange<T>(s: Exchanger<T>, key: int, myData: T, timeout: int): (r: (Exchanger<T>, Step<Option<T>>))
    requires WellFormed(s)
    ensures WellFormed(r.0)
    ensures r.0.nextId >= s.nextId
    // fast path: the partner's own value comes back, ours is stored, the key is freed
    ensures key in s.keysMap ==>
      var id := s.keysMap[key];
      && r.1 == Returned(Some(s.holders[id].myData))
      && id in r.0.holders && r.0.holders[id].otherData == Some(myData) && r.0.holders[id].wasMatched
      && r.0.keysMap == s.keysMap - {key}
      && r.0.waiting == s.waiting
      && (forall j | j in s.holders && j != id :: j in r.0.holders && r.0.holders[j] == s.holders[j])
    // no partner and no wait: empty result, nothing registered
    ensures key !in s.keysMap && NoWait(timeout) ==> r == (s, Returned(None))
    // no partner: a fresh unmatched holder carrying our value, only under a free key
    ensures key !in s.keysMap && !NoWait(timeout) ==>
      && r.1.Parked? && r.1.id !in s.holders && r.1.id in r.0.waiting
      && r.0.holders == s.holders[r.1.id := Holder(key, myData, None, false)]
      && r.0.keysMap == s.keysMap[key := r.1.id]
      && r.0.waiting == s.waiting + {r.1.id}
  {
    if key in s.keysMap then
      var id := s.keysMap[key];
      var (holder, ret) := SetAndGet(s.holders[id], myData);
      (s.(keysMap := s.keysMap - {key}, holders := s.holders[id := holder]), Returned(Some(ret)))
    else if NoWait(timeout) then
      (s, Returned(None))
    else
      var id := s.nextId;
      (s.(keysMap := s.keysMap[key := id],
          holders := s.holders[id := Holder(key, myData, None, false)],
          waiting := s.waiting + {id},
          nextId := id + 1),
       Parked(id))
  }

  /**
   * What the parked caller owning holder `id` does once its `await`
   * returns. A matched holder always yields the partner's value, even on
   * interrupt; an unmatched one withdraws its key on expiry (empty result)
   * and on interrupt (rethrow), and keeps waiting otherwise.
   */
  function Resume<T>(s: Exchanger<T>, id: nat, wake: Wake): (r: (Exchanger<T>, Step<Option<T>>))
    requires WellFormed(s) && id in s.waiting
    ensures WellFormed(r.0)
    ensures r.0.holders == s.holders && r.0.nextId == s.nextId
    ensures s.holders[id].wasMatched ==>
      r == (s.(waiting := s.waiting - {id}), Returned(s.holders[id].otherData))
    ensures !s.holders[id].wasMatched && wake == Woken ==> r == (s, Parked(id))
    ensures !s.holders[id].wasMatched && wake != Woken ==>
      && r.0.keysMap == s.keysMap - {s.holders[id].key}
      && r.0.waiting == s.waiting - {id}
      && r.1 == (if wake == Expired then Returned(None) else Threw(InterruptedException))
  {
    var h := s.holders[id];
    var left := s.(waiting := s.waiting - {id});
    match wake
    case Interrupted =>
      if h.wasMatched then (left, Returned(h.otherData))
      else (left.(keysMap := s.keysMap - {h.key}), Threw(InterruptedException))
    case Woken =>
      if h.wasMatched then (left, Returned(h.otherData))
      else (s, Parked(id))
    case Expired =>
      if h.wasMatched then (left, Returned(h.otherData))
      else (left.(keysMap := s.keysMap - {h.key}), Returned(None))
  }

  lemma ExchangePreservesValid<T>(s: Exchanger<T>, key: int, myData: T, timeout: int)
    requires Valid(s)
    ensures Valid(Exchange(s, key, myData, timeout).0)
  {
    var r := Exchange(s, key, myData, timeout).0;
    if key in s.keysMap {
      var id := s.keysMap[key];
      forall j | j in r.waiting && !r.holders[j].wasMatched
        ensures r.holders[j].key in r.keysMap && r.keysMap[r.holders[j].key] == j
      {
        assert j != id;
        assert s.holders[j].key != key;
      }
    } else if !NoWait(timeout) {
      assert s.nextId !in s.holders;
      forall k | k in r.keysMap
        ensures r.keysMap[k] in r.waiting
      {
      }
    }
  }

  lemma ResumePreservesValid<T>(s: Exchanger<T>, id: nat, wake: Wake)
    requires Valid(s) && id in s.waiting
    ensures Valid(Resume(s, id, wake).0)
  {
    var r := Resume(s, id, wake).0;
    var h := s.holders[id];
    if !h.wasMatched && wake != Woken {
      forall j | j in r.waiting && !r.holders[j].wasMatched
        ensures r.holders[j].key in r.keysMap && r.keysMap[r.holders[j].key] == j
      {
        assert j != id;
        assert s.keysMap[s.holders[j].key] == j;
        assert s.holders[j].key != h.key;
      }
    } else if h.wasMatched {
      forall k | k in r.keysMap
        ensures r.keysMap[k] in r.waiting
      {
        assert s.keysMap[k] != id;
      }
    }
  }

  /** At most one unmatched waiter per key. */
  lemma OneWaiterPerKey<T>(s: Exchanger<T>, a: nat, b: nat)
    requires Valid(s) && a in s.waiting && b in s.waiting
    requires !s.holders[a].wasMatched && !s.holders[b].wasMatched
    requires s.holders[a].key == s.holders[b].key
    ensures a == b
  {
  }

  /**
   * The swap is symmetric: a caller that registers under a free key and a
   * partner that arrives next under the same key receive each other's
   * values, whatever woke the first one, and the key is free again.
   */
  lemma SymmetricSwap<T>(s: Exchanger<T>, key: int, a: T, b: T, ta: int, tb: int, wake: Wake)
    requires Valid(s) && key !in s.keysMap && !NoWait(ta)
    ensures
      var (s1, first) := Exchange(s, key, a, ta);
      && first.Parked?
      && var (s2, second) := Exchange(s1, key, b, tb);
      && second == Returned(Some(a))
      && var (s3, firstDone) := Resume(s2, first.id, wake);
      && firstDone == Returned(Some(b))
      && s3.keysMap == s.keysMap
      && s3.waiting == s.waiting
  {
    var (s1, first) := Exchange(s, key, a, ta);
    ExchangePreservesValid(s, key, a, ta);
    var (s2, second) := Exchange(s1, key, b, tb);
    assert s2.holders[first.id].otherData == Some(b);
    assert s2.holders[first.id].wasMatched;
  }

  /**
   * A caller that gave up unmatched can no longer be matched: its key is
   * free afterwards and its holder is referenced by no key.
   */
  lemma GiveUpWithdraws<T>(s: Exchanger<T>, id: nat, wake: Wake)
    requires Valid(s) && id in s.waiting && !s.holders[id].wasMatched && wake != Woken
    ensures
      var r := Resume(s, id, wake).0;
      && s.holders[id].key !in r.keysMap
      && forall k | k in r.keysMap :: r.keysMap[k] != id
  {
    ResumePreservesValid(s, id, wake);
  }

  /**
   * Once a caller has given up on expiry, the next zero-timeout caller
   * under the same key finds no partner: it cannot be matched with the
   * departed caller.
   */
  lemma LateCallerFindsNoPartner<T>(s: Exchanger<T>, key: int, a: T, b: T, ta: int)
    requires Valid(s) && key !in s.keysMap && !NoWait(ta)
    ensures
      var (s1, first) := Exchange(s, key, a, ta);
      && first.Parked?
      && var (s2, gaveUp) := Resume(s1, first.id, Expired);
      && gaveUp == Returned(None)
      && Valid(s2)
      && var (s3, late) := Exchange(s2, key, b, 0);
      && late == Returned(None)
  {
    var (s1, first) := Exchange(s, key, a, ta);
    ExchangePreservesValid(s, key, a, ta);
    ResumePreservesValid(s1, first.id, Expired);
  }
}

/**
 * The older copy of the keyed exchanger (under `src/`). Its `exchange`
 * entry critical section is textually the same as the JVM copy's, so
 * `KeyedExchanger.Exchange` models both; the copies differ only in what a
 * caller that gives up does: this one returns without removing its key.
 */
module KeyedExchangerSrc {
  import opened Sync
  import opened KeyedExchanger

  /** What survives in this copy: registered holders are unmatched and know their key. */
  ghost predicate Registered<T>(s: Exchanger<T>) {
    && WellFormed(s)
    && (forall k | k in s.keysMap :: s.holders[s.keysMap[k]].key == k && !s.holders[s.keysMap[k]].wasMatched)
    && (forall id | id in s.holders :: s.holders[id].wasMatched ==> s.holders[id].otherData.Some?)
  }

  /**
   * The parked caller's step after `await` returns, as written in this
   * copy: a matched holder yields the partner's value (also on interrupt);
   * an unmatched one returns empty on expiry or rethrows on interrupt but
   * leaves its holder registered under the key.
   */
  function Resume<T>(s: Exchanger<T>, id: nat, wake: Wake): (r: (Exchanger<T>, Step<Option<T>>))
    requires WellFormed(s) && id in s.waiting
    ensures WellFormed(r.0)
    ensures r.0.holders == s.holders && r.0.keysMap == s.keysMap && r.0.nextId == s.nextId
    ensures s.holders[id].wasMatched ==> r.1 == Returned(s.holders[id].otherData)
    ensures !s.holders[id].wasMatched ==>
      r.1 == match wake
             case Woken => Parked(id)
             case Expired => Returned(None)
             case Interrupted => Threw(InterruptedException)
    ensures r.1.Parked? <==> !s.holders[id].wasMatched && wake == Woken
    ensures r.0.waiting == if r.1.Parked? then s.waiting else s.waiting - {id}
  {
    var h := s.holders[id];
    var left := s.(waiting := s.waiting - {id});
    match wake
    case Interrupted =>
      if h.wasMatched then (left, Returned(h.otherData))
      else (left, Threw(InterruptedException))
    case Woken =>
      if h.wasMatched then (left, Returned(h.otherData))
      else (s, Parked(id))
    case Expired =>
      if h.wasMatched then (left, Returned(h.otherData))
      else (left, Returned(None))
  }

  lemma ExchangePreservesRegistered<T>(s: Exchanger<T>, key: int, myData: T, timeout: int)
    requires Registered(s)
    ensures Registered(Exchange(s, key, myData, timeout).0)
  {
    if key !in s.keysMap && !NoWait(timeout) {
      assert s.nextId !in s.holders;
    }
  }

  lemma ResumePreservesRegistered<T>(s: Exchanger<T>, id: nat, wake: Wake)
    requires Registered(s) && id in s.waiting
    ensures Registered(Resume(s, id, wake).0)
  {
  }

  /** Two zero-timeout callers under a free key both come back empty. */
  lemma NoWaitPairBothEmpty<T>(s: Exchanger<T>, key: int, a: T, b: T)
    requires WellFormed(s) && key !in s.keysMap
    ensures
      var (s1, first) := Exchange(s, key, a, 0);
      && first == Returned(None)
      && var (s2, second) := Exchange(s1, key, b, 0);
      && second == Returned(None)
      && s2 == s
  {
  }

  /**
   * The stale holder this copy leaves behind: a caller that gave up on
   * expiry has returned empty, yet the next caller under the same key is
   * matched with it, receives the departed caller's value and hands its own
   * value to nobody. The exchanger invariant no longer holds.
   */
  lemma StaleHolderSwallowsValue<T>(s: Exchanger<T>, key: int, a: T, b: T, ta: int)
    requires Valid(s) && key !in s.keysMap && !NoWait(ta)
    ensures
      var (s1, first) := Exchange(s, key, a, ta);
      && first.Parked?
      && var (s2, gaveUp) := Resume(s1, first.id, Expired);
      && gaveUp == Returned(None)
      && first.id !in s2.waiting
      && !Valid(s2)
      && var (s3, late) := Exchange(s2, key, b, 0);
      && late == Returned(Some(a))
  {
    var (s1, first) := Exchange(s, key, a, ta);
    var (s2, gaveUp) := Resume(s1, first.id, Expired);
    assert s2.keysMap[key] == first.id && first.id !in s2.waiting;
  }
}
