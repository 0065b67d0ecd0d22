/** The Rust handle to a posted message, whose `done` flag must track the
    driver's slot so that dropping the handle frees it. */
module QueuedMessages {
  import opened Errors
  import opened Clock
  import opened Sessions
  import opened Smc

  /** A timeout in whole milliseconds, saturated; `0` selects the default. */
  function Millis(timeout: Option<nat>): (ms: Word) {
    match timeout
    case None => 0
    case Some(ns) => if ns / NS_PER_MS < U32_MOD then ns / NS_PER_MS else U32_MOD - 1
  }

  /** The budget a wait really gets: its whole milliseconds, capped; a duration
      below one millisecond waits the default second, just as no timeout does. */
  lemma BudgetOfTimeout(timeout: Option<nat>)
    ensures timeout.None? ==> Budget(Millis(timeout)) == 1000
    ensures timeout.Some? && timeout.value < NS_PER_MS ==> Budget(Millis(timeout)) == 1000
    ensures timeout.Some? && U32_MOD * NS_PER_MS <= timeout.value ==> Budget(Millis(timeout)) == U32_MOD - 1
    ensures timeout.Some? && NS_PER_MS <= timeout.value && timeout.value < U32_MOD * NS_PER_MS ==>
              timeout.value - NS_PER_MS < Budget(Millis(timeout)) * NS_PER_MS <= timeout.value
  {
  }

  /** Whether an attempt to read the reply took the message off the slot. */
  function Settled(r: Code, e: Errno, retry: Errno): bool {
    r == TT_OK || e != retry
  }

  class Queued {
    const sess: Session
    const ch: Channel
    var done: bool

    /** What the binding relies on: the borrow keeps the session open, and a
        message marked done is off the slot. */
    ghost predicate Valid()
      reads this, sess, ch
    {
      sess.fd >= 0 && ch.Valid() && (done ==> Free(ch.c))
    }

    /** The handle to a message the driver has just accepted. */
    constructor (sess: Session, ch: Channel)
      requires sess.fd >= 0 && ch.Valid() && ch.c.slot.Pending?
      ensures Valid() && !done && this.sess == sess && this.ch == ch
    {
      this.sess, this.ch, done := sess, ch, false;
    }

    static method Post(th: Thread, sess: Session, ch: Channel, req: array<Word>) returns (r: Code, q: Queued?)
      requires sess.fd >= 0 && ch.Valid() && req.Length == 8
      modifies th, ch
      ensures r == TT_OK ==> q != null && fresh(q) && q.Valid() && !q.done && q.sess == sess && q.ch == ch
      ensures r == TT_OK ==> ch.c == Chan(Pending(req[..]), false) && ch.sent == old(ch.sent) + [req[..]]
      ensures r == TT_ERR ==> q == null && ch.c.slot == old(ch.c.slot) && ch.sent == old(ch.sent)
    {
      q := null;
      r := Smc.Post(th, sess, ch, req);
      if r == TT_OK {
        q := new Queued(sess, ch);
      }
    }

    method Wait(th: Thread, tm: Timer, timeout: Option<nat>, rsp: array<Word>) returns (r: Code)
      requires Valid() && rsp.Length == 8
      modifies this, th, tm, ch, rsp
      ensures Valid() && ch.sent == old(ch.sent)
      ensures r == TT_OK ==> ch.received == old(ch.received) + [rsp[..]]
      ensures r == TT_ERR ==> rsp[..] == old(rsp[..]) && ch.received == old(ch.received)
      ensures WaitRel(old(ch.c), ch.c, r, th.errno, ch.cause) && done == (r == TT_OK || th.errno != ETIMEDOUT)
      ensures r == TT_ERR && ch.cause == EAGAIN ==> tm.now >= old(tm.now) + Budget(Millis(timeout)) * NS_PER_MS
    {
      r := Smc.Wait(th, tm, sess, ch, rsp, Millis(timeout));
      done := Settled(r, th.errno, ETIMEDOUT);
    }

    method TryWait(th: Thread, rsp: array<Word>) returns (r: Code)
      requires Valid() && rsp.Length == 8
      modifies this, th, ch, rsp
      ensures Valid() && ch.sent == old(ch.sent)
      ensures r == TT_OK ==> ch.received == old(ch.received) + [rsp[..]]
      ensures r == TT_ERR ==>
                rsp[..] == old(rsp[..]) && ch.received == old(ch.received) && th.errno == Normalize(ch.cause)
      ensures PollRel(old(ch.c), ch.c, r, th.errno) && done == (r == TT_OK || th.errno != EAGAIN)
    {
      r := Smc.Poll(th, sess, ch, rsp);
      done := Settled(r, th.errno, EAGAIN);
    }

    /** Dropping the handle leaves the descriptor free to post again. */
    method Release(th: Thread)
      requires Valid()
      modifies th, ch
      ensures Free(ch.c) && (old(ch.c.severed) ==> ch.c.severed)
    {
      if !done {
        var _ := Smc.Drop(th, sess, ch);
      }
    }
  }

  // ---- whole lives of a handle ----

  datatype Life = Life(done: bool, c: Chan)

  /** One thing that happens to a live handle: an attempt to read the reply,
      or an out-of-band reset of the device. */
  ghost predicate Lives(s: Life, s': Life) {
    || (exists r, e, cause :: WaitRel(s.c, s'.c, r, e, cause) && s'.done == (r == TT_OK || e != ETIMEDOUT))
    || (exists r, e :: PollRel(s.c, s'.c, r, e) && s'.done == (r == TT_OK || e != EAGAIN))
    || s' == s.(c := s.c.(severed := true))
  }

  /** From the post on, a message marked done is off the slot, and one still on
      a live slot is not marked done, so that releasing the handle always
      frees the descriptor. */
  lemma {:induction false} DoneTracksSlot(life: seq<Life>, i: nat)
    requires i < |life| && !life[0].done && life[0].c.slot.Pending?
    requires forall k :: 0 < k < |life| ==> Lives(life[k - 1], life[k])
    ensures life[i].done ==> Free(life[i].c)
    ensures life[i].c.slot.Pending? ==> life[i].c.slot == life[0].c.slot
    decreases i
  {
    if i > 0 {
      DoneTracksSlot(life, i - 1);
      assert Lives(life[i - 1], life[i]);
    }
  }

  /** A timeout does not always leave the message outstanding, as the header
      says it does: the driver may report a failed exchange as `ETIMEDOUT`,
      which consumes the message. The handle then stays not done, and its
      release drops nothing. */
  lemma TimeoutMayConsume(w: Words)
    ensures var c := Chan(Pending(w), false);
            DriverPoll(c, Failed(ETIMEDOUT)) == (FRESH, Denied(ETIMEDOUT))
            && WaitRel(c, FRESH, TT_ERR, ETIMEDOUT, ETIMEDOUT)
            && !Settled(TT_ERR, ETIMEDOUT, ETIMEDOUT)
            && DriverAbandon(FRESH) == (FRESH, None)
  {
  }

  /** On an unsevered descriptor, a wait that times out leaves the message
      outstanding if and only if the driver's last answer was that it is still
      pending: a timeout the driver itself reports has consumed it. */
  lemma TimeoutLeavesMessage(c: Chan, c': Chan, cause: Errno)
    requires !c'.severed && WaitRel(c, c', TT_ERR, ETIMEDOUT, cause)
    ensures c'.slot.Pending? <==> cause == EAGAIN
  {
  }
}
