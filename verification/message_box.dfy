/**
 * The message box: one published message that can be consumed a limited
 * number of times ("lives"). `tryConsume` is a CAS retry loop; read
 * sequentially its one successful iteration decrements a positive counter.
 */
module ThreadSafeMessageBox {
  import opened Sync

  datatype MsgHolder<M> = MsgHolder(msg: M, lives: int)

  /** `holder` is `None` until the first `publish`. */
  datatype MessageBox<M> = MessageBox(holder: Option<MsgHolder<M>>)

  function New<M>(): MessageBox<M> {
    MessageBox(None)
  }

  /** `publish`: a fresh holder replaces the old one, with its own counter. */
  function Publish<M>(box: MessageBox<M>, m: M, lives: int): (box': MessageBox<M>)
    ensures box'.holder == Some(MsgHolder(m, lives))
  {
    MessageBox(Some(MsgHolder(m, lives)))
  }

  /**
   * `tryConsume`: the message comes back exactly when the counter was
   * positive, and then the counter drops by one; otherwise nothing comes
   * back and nothing changes. The message itself never changes.
   */
  function TryConsume<M>(box: MessageBox<M>): (r: (MessageBox<M>, Option<M>))
    ensures r.1.Some? <==> box.holder.Some? && box.holder.value.lives > 0
    ensures r.1.Some? ==>
      && r.1.value == box.holder.value.msg
      && r.0.holder == Some(box.holder.value.(lives := box.holder.value.lives - 1))
    ensures r.1 == None ==> r.0 == box
    ensures box.holder.Some? && box.holder.value.lives >= 0 ==>
      r.0.holder.Some? && r.0.holder.value.msg == box.holder.value.msg && r.0.holder.value.lives >= 0
  {
    match box.holder
    case None => (box, None)
    case Some(h) =>
      if h.lives <= 0 then (box, None)
      else (MessageBox(Some(h.(lives := h.lives - 1))), Some(h.msg))
  }

  /** `n` calls of `tryConsume` in a row: the final box and how many succeeded. */
  function ConsumeN<M>(box: MessageBox<M>, n: nat): (r: (MessageBox<M>, nat))
    ensures r.1 <= n
    decreases n
  {
    if n == 0 then (box, 0)
    else
      var (box1, got) := TryConsume(box);
      var (box2, count) := ConsumeN(box1, n - 1);
      (box2, count + (if got.Some? then 1 else 0))
  }

  /**
   * With `lives` >= 0 left, `n` calls succeed exactly `min(n, lives)` times
   * and the counter ends at `lives - min(n, lives)`, never below zero.
   */
  lemma {:induction false} ConsumeNCount<M>(box: MessageBox<M>, n: nat)
    requires box.holder.Some? && box.holder.value.lives >= 0
    ensures var (box', count) := ConsumeN(box, n);
      && count == Min(n, box.holder.value.lives)
      && box'.holder == Some(box.holder.value.(lives := box.holder.value.lives - count))
    decreases n
  {
    if n > 0 {
      var (box1, got) := TryConsume(box);
      ConsumeNCount(box1, n - 1);
    }
  }

  /** Before any `publish`, every call comes back empty. */
  lemma {:induction false} NothingBeforePublish<M>(n: nat)
    ensures ConsumeN(New<M>(), n) == (New<M>(), 0)
    decreases n
  {
    if n > 0 {
      NothingBeforePublish<M>(n - 1);
    }
  }

  /** Half the lives, all the lives and twice the lives: L/2, L and L successes. */
  lemma LivesScenarios<M>(box: MessageBox<M>, m: M, lives: nat)
    ensures ConsumeN(Publish(box, m, lives), lives / 2).1 == lives / 2
    ensures ConsumeN(Publish(box, m, lives), lives).1 == lives
    ensures ConsumeN(Publish(box, m, lives), 2 * lives).1 == lives
  {
    ConsumeNCount(Publish(box, m, lives), lives / 2);
    ConsumeNCount(Publish(box, m, lives), lives);
    ConsumeNCount(Publish(box, m, lives), 2 * lives);
  }
}
