/**
 * Vocabulary shared by every primitive of the library.
 *
 * Each primitive is modelled as an immutable state record; one critical
 * section (or one single-threaded run of a CAS loop) is one transition
 * function. A call that may block is split into a start transition, which
 * either returns at once or registers a waiter and reports it as parked, and
 * a resume transition, which is what the parked thread does after its
 * `await` returns: because it was woken, because its deadline passed, or
 * because it was interrupted.
 */
module Sync {

  datatype Option<+T> = None | Some(value: T)

  /** The deadline helper's "do not wait at all" test; a zero timeout. */
  predicate NoWait(timeout: int) {
    timeout == 0
  }

  /** Why a parked thread's `await` returned. */
  datatype Wake =
    | Woken        // signalled (or spuriously woken) before its deadline
    | Expired      // the remaining time was found to be used up
    | Interrupted  // the thread received an interrupt while parked

  /** The exceptions a call can end with. */
  datatype Failure = InterruptedException | RejectedExecution | IllegalState

  /** How one transition of a possibly blocking call ends. */
  datatype Step<+R> =
    | Returned(value: R)
    | Parked(id: nat)       // the caller waits on the waiter object `id`
    | Threw(error: Failure)

  /** A call that cannot block: its result, or the exception it throws. */
  datatype Result<+R> = Ok(value: R) | Err(error: Failure)

  /**
   * What a sender parked in `await` on ticket `id` does once woken, in both
   * message queues: a sent ticket returns true whatever the wake; an unsent
   * one gives false on expiry, rethrows on interrupt and waits on otherwise.
   */
  function ResumeAwait(sent: bool, id: nat, wake: Wake): (r: Step<bool>)
    ensures r == Returned(true) <==> sent
    ensures r == Returned(false) <==> !sent && wake == Expired
    ensures r == Threw(InterruptedException) <==> !sent && wake == Interrupted
    ensures r == Parked(id) <==> !sent && wake == Woken
  {
    if sent then Returned(true)
    else
      match wake
      case Woken => Parked(id)
      case Expired => Returned(false)
      case Interrupted => Threw(InterruptedException)
  }

  function Min(a: int, b: int): int {
    if a <= b then a else b
  }

  predicate Distinct<T(==)>(s: seq<T>) {
    forall i, j | 0 <= i < j < |s| :: s[i] != s[j]
  }

  /** Position of the first occurrence of `x` in `s`. */
  function IndexOf<T(==)>(s: seq<T>, x: T): (i: nat)
    requires x in s
    ensures i < |s| && s[i] == x && x !in s[..i]
  {
    if s[0] == x then 0 else 1 + IndexOf(s[1..], x)
  }

  /** `LinkedList.remove(Object)`: drop the first occurrence, if any. */
  function RemoveFirst<T(==)>(s: seq<T>, x: T): (r: seq<T>)
    ensures x !in s ==> r == s
    ensures x in s ==> r == s[..IndexOf(s, x)] + s[IndexOf(s, x) + 1..]
    ensures forall y :: y in r ==> y in s
    ensures Distinct(s) ==> Distinct(r) && x !in r
  {
    if x !in s then s
    else
      var i := IndexOf(s, x);
      DropAt(s, i);
      s[..i] + s[i + 1..]
  }

  /** Dropping position `i` keeps the others in order. */
  lemma DropAt<T>(s: seq<T>, i: nat)
    requires i < |s|
    ensures var r := s[..i] + s[i + 1..];
      && |r| == |s| - 1
      && (forall k | 0 <= k < i :: r[k] == s[k])
      && (forall k | i <= k < |r| :: r[k] == s[k + 1])
      && (forall y :: y in r ==> y in s)
      && (Distinct(s) ==> Distinct(r) && s[i] !in r)
  {
    var r := s[..i] + s[i + 1..];
    forall y | y in r
      ensures y in s
    {
      var k :| 0 <= k < |r| && r[k] == y;
      if k < i {
        assert s[k] == y;
      } else {
        assert s[k + 1] == y;
      }
    }
    if Distinct(s) {
      forall a, b | 0 <= a < b < |r|
        ensures r[a] != r[b]
      {
        var a' := if a < i then a else a + 1;
        var b' := if b < i then b else b + 1;
        assert r[a] == s[a'] && r[b] == s[b'];
      }
      forall k | 0 <= k < |r|
        ensures r[k] != s[i]
      {
        var k' := if k < i then k else k + 1;
        assert r[k] == s[k'];
      }
    }
  }

  /** Removing the first `x` keeps every other element, and no more. */
  lemma RemoveFirstMembers<T>(s: seq<T>, x: T)
    ensures forall y | y != x :: y in RemoveFirst(s, x) <==> y in s
  {
    forall y | y != x && y in s
      ensures y in RemoveFirst(s, x)
    {
      RemoveFirstKeeps(s, x, y);
    }
  }

  /** Removing an element other than `y` keeps `y`. */
  lemma RemoveFirstKeeps<T>(s: seq<T>, x: T, y: T)
    requires y in s && y != x
    ensures y in RemoveFirst(s, x)
  {
    if x in s {
      var i := IndexOf(s, x);
      var r := RemoveFirst(s, x);
      DropAt(s, i);
      var j :| 0 <= j < |s| && s[j] == y;
      if j < i {
        assert r[j] == y;
      } else {
        assert j != i;
        assert r[j - 1] == y;
      }
    }
  }
}
