/** The SMC exchange: the driver's one-message slot of a descriptor and the
    library calls that post to it, poll it, wait on it and drop from it. */
module Smc {
  import opened Errors
  import opened Clock
  import opened Sessions

  const SPIN_POLLS := 32
  const POLL_INTERVAL_US := 1000
  const TIMEOUT_DEFAULT := 1000

  type Words = s: seq<Word> | |s| == 8 witness [0, 0, 0, 0, 0, 0, 0, 0]

  datatype Slot = Idle | Pending(request: Words)

  /** A descriptor as the driver's message queue sees it. */
  datatype Chan = Chan(slot: Slot, severed: bool)

  /** How the environment answers a poll for an outstanding message. */
  datatype Progress = NotReady | Answer(reply: Words) | Failed(cause: Errno)

  datatype Reply = Got(reply: Words) | Denied(errno: Errno)

  function DriverPost(c: Chan, w: Words, refusal: Option<Errno>): (r: (Chan, Option<Errno>)) {
    if c.severed then (c, Some(ENODEV))
    else if c.slot.Pending? then (c, Some(EBUSY))
    else if refusal.Some? && refusal.value != EBUSY then (c, refusal)
    else (c.(slot := Pending(w)), None)
  }

  function DriverPoll(c: Chan, p: Progress): (Chan, Reply) {
    if c.severed then (c, Denied(ENODEV))
    else if c.slot.Idle? then (c, Denied(ESRCH))
    else match p
      case NotReady => (c, Denied(EAGAIN))
      case Answer(w) => (c.(slot := Idle), Got(w))
      case Failed(e) => if e == EAGAIN then (c, Denied(EAGAIN)) else (c.(slot := Idle), Denied(e))
  }

  function DriverAbandon(c: Chan): (Chan, Option<Errno>) {
    if c.severed then (c, Some(ENODEV)) else (c.(slot := Idle), None)
  }

  // ---- laws of the slot over whole runs ----

  /** A call on the descriptor with the driver's answer, or an event outside. */
  datatype Cmd =
    | CmdPost(w: Words, refusal: Option<Errno>)
    | CmdPoll(p: Progress)
    | CmdAbandon
    | CmdSever

  /** What became of a message. */
  datatype Fate = Answered(reply: Words) | Lost(cause: Errno) | Dropped

  /** The requests accepted, and the fates met, each in order. */
  datatype Tally = Tally(posted: seq<Words>, fates: seq<(Words, Fate)>)

  const FRESH := Chan(Idle, false)

  function Meets(t: Tally, c: Chan, fate: Fate): Tally {
    if c.slot.Pending? then t.(fates := t.fates + [(c.slot.request, fate)]) else t
  }

  function Exec1(c: Chan, t: Tally, cmd: Cmd): (Chan, Tally) {
    match cmd
    case CmdPost(w, refusal) =>
      var (d, e) := DriverPost(c, w, refusal);
      (d, if e.None? then t.(posted := t.posted + [w]) else t)
    case CmdPoll(p) =>
      var (d, reply) := DriverPoll(c, p);
      (d, if d == c then t else Meets(t, c, if reply.Got? then Answered(reply.reply) else Lost(reply.errno)))
    case CmdAbandon =>
      var (d, e) := DriverAbandon(c);
      (d, if d == c then t else Meets(t, c, Dropped))
    case CmdSever => (c.(severed := true), t)
  }

  function Exec(cmds: seq<Cmd>): (Chan, Tally) {
    if cmds == [] then (FRESH, Tally([], [])) else
      var (c, t) := Exec(cmds[..|cmds| - 1]);
      Exec1(c, t, cmds[|cmds| - 1])
  }

  function Requests(fates: seq<(Words, Fate)>): (ws: seq<Words>)
    ensures |ws| == |fates|
  {
    if fates == [] then [] else Requests(fates[..|fates| - 1]) + [fates[|fates| - 1].0]
  }

  function Replies(fates: seq<(Words, Fate)>): seq<Words> {
    if fates == [] then [] else
      Replies(fates[..|fates| - 1]) + match fates[|fates| - 1].1
                                      case Answered(reply) => [reply]
                                      case _ => []
  }

  lemma FatesNext(fates: seq<(Words, Fate)>, w: Words, fate: Fate)
    ensures Requests(fates + [(w, fate)]) == Requests(fates) + [w]
    ensures Replies(fates + [(w, fate)]) == Replies(fates) + if fate.Answered? then [fate.reply] else []
  {
    assert (fates + [(w, fate)])[..|fates|] == fates;
  }

  lemma ExecNext(cmds: seq<Cmd>, cmd: Cmd)
    ensures Exec([]) == (FRESH, Tally([], []))
    ensures Exec(cmds + [cmd]) == Exec1(Exec(cmds).0, Exec(cmds).1, cmd)
  {
    assert (cmds + [cmd])[..|cmds|] == cmds;
  }

  /** Every accepted message has met its fate, except the outstanding one. */
  ghost predicate Balanced(c: Chan, t: Tally) {
    t.posted == Requests(t.fates) + if c.slot.Pending? then [c.slot.request] else []
  }

  lemma StepBalances(c: Chan, t: Tally, cmd: Cmd)
    requires Balanced(c, t)
    ensures Balanced(Exec1(c, t, cmd).0, Exec1(c, t, cmd).1)
  {
    hide Requests;
    hide Replies;
    if c.slot.Pending? && (cmd.CmdPoll? || cmd.CmdAbandon?) {
      var fate := if cmd.CmdAbandon? then Dropped else
                  match DriverPoll(c, cmd.p).1
                  case Got(reply) => Answered(reply)
                  case Denied(e) => Lost(e);
      FatesNext(t.fates, c.slot.request, fate);
    }
  }

  /** What a step hands over: the reply of an answered poll. */
  lemma StepReplies(c: Chan, t: Tally, cmd: Cmd)
    ensures Replies(Exec1(c, t, cmd).1.fates) ==
            Replies(t.fates) + if cmd.CmdPoll? && DriverPoll(c, cmd.p).1.Got? then [DriverPoll(c, cmd.p).1.reply] else []
  {
    hide Requests;
    hide Replies;
    if c.slot.Pending? && (cmd.CmdPoll? || cmd.CmdAbandon?) {
      var fate := if cmd.CmdAbandon? then Dropped else
                  match DriverPoll(c, cmd.p).1
                  case Got(reply) => Answered(reply)
                  case Denied(e) => Lost(e);
      FatesNext(t.fates, c.slot.request, fate);
    }
  }

  /** Over every run of the slot, the accepted messages meet their fates in the
      order they were posted, each exactly once; one at most is outstanding, and
      it is the last. */
  lemma {:induction false} MessagesConserved(cmds: seq<Cmd>)
    ensures Balanced(Exec(cmds).0, Exec(cmds).1)
  {
    if cmds != [] {
      var init := cmds[..|cmds| - 1];
      MessagesConserved(init);
      StepBalances(Exec(init).0, Exec(init).1, cmds[|cmds| - 1]);
    }
  }

  // ---- the descriptor as the library reaches it ----

  class Channel {
    var c: Chan
    ghost var cmds: seq<Cmd>  // everything that happened to it
    ghost var sent: seq<Words>  // every request the driver accepted, in order
    ghost var received: seq<Words>  // every reply it handed over
    ghost var cause: Errno  // why it last refused a post or a poll
    ghost var polled: nat  // how often it was polled

    constructor ()
      ensures Valid() && c == FRESH && sent == [] && received == []
    {
      c, cmds, sent, received, cause, polled := FRESH, [], [], [], EINVAL, 0;
    }

    /** The requests and replies are those of the run so far. */
    ghost predicate Valid()
      reads this
    {
      var (d, t) := Exec(cmds);
      c == d && sent == t.posted && received == Replies(t.fates)
    }

    /** How a command carries the run on. */
    lemma Step(cmd: Cmd)
      requires Valid()
      ensures var (d, t) := Exec(cmds + [cmd]);
              && d == Exec1(c, Exec(cmds).1, cmd).0
              && t.posted == sent + (if cmd.CmdPost? && DriverPost(c, cmd.w, cmd.refusal).1.None? then [cmd.w] else [])
              && Replies(t.fates) ==
                 received + if cmd.CmdPoll? && DriverPoll(c, cmd.p).1.Got? then [DriverPoll(c, cmd.p).1.reply] else []
    {
      hide Replies;
      ExecNext(cmds, cmd);
      StepReplies(c, Exec(cmds).1, cmd);
    }

    /** So the laws of the slot speak of the requests and replies seen here. */
    lemma Conserved() returns (fates: seq<(Words, Fate)>)
      requires Valid()
      ensures fates == Exec(cmds).1.fates && received == Replies(fates)
      ensures sent == Requests(fates) + if c.slot.Pending? then [c.slot.request] else []
    {
      MessagesConserved(cmds);
      fates := Exec(cmds).1.fates;
    }

    /** An out-of-band reset may come between any two calls. */
    method Outside()
      requires Valid()
      modifies this`c, this`cmds
      ensures Valid() && (c == old(c) || c == old(c).(severed := true))
    {
      var reset: bool :| true;
      if reset {
        Step(CmdSever);
        c, cmds := c.(severed := true), cmds + [CmdSever];
      }
    }

    method IoctlPost(th: Thread, w: Words) returns (ok: bool)
      requires Valid()
      modifies this, th
      ensures Valid() && received == old(received) && polled == old(polled)
      ensures old(c.severed) ==> c.severed
      ensures !ok ==> th.errno == cause
      ensures ok ==> old(c) == FRESH && c == Chan(Pending(w), false) && sent == old(sent) + [w]
      ensures !ok ==> c.slot == old(c.slot) && sent == old(sent)
      ensures !ok && th.errno == EBUSY ==> c.slot.Pending?
      ensures !ok && c.slot.Pending? && !c.severed ==> th.errno == EBUSY
    {
      hide Exec;
      hide Replies;
      Outside();
      var refusal: Option<Errno> :| true;
      var (c', e) := DriverPost(c, w, refusal);
      Step(CmdPost(w, refusal));
      c, ok, cmds := c', e.None?, cmds + [CmdPost(w, refusal)];
      if ok {
        sent := sent + [w];
      } else {
        th.errno, cause := e.value, e.value;
      }
    }

    method IoctlPoll(th: Thread) returns (r: Option<Words>)
      requires Valid()
      modifies this, th
      ensures Valid() && sent == old(sent) && polled == old(polled) + 1
      ensures old(c.severed) ==> c.severed
      ensures received == old(received) + if r.Some? then [r.value] else []
      ensures r.None? ==> th.errno == cause
      ensures r.Some? ==> old(c.slot).Pending? && c == FRESH
      ensures r.None? && th.errno == EAGAIN ==> old(c.slot).Pending? && c == old(c) && !c.severed
      ensures r.None? && th.errno != EAGAIN ==> c.slot.Idle? || (c.severed && c.slot == old(c.slot))
      ensures old(c.slot).Idle? && !c.severed ==> r.None? && th.errno == ESRCH
    {
      hide Exec;
      hide Replies;
      Outside();
      var p: Progress :| true;
      var (c', reply) := DriverPoll(c, p);
      Step(CmdPoll(p));
      c, cmds, polled := c', cmds + [CmdPoll(p)], polled + 1;
      if reply.Got? {
        r := Some(reply.reply);
        received := received + [reply.reply];
      } else {
        th.errno, cause := reply.errno, reply.errno;
        r := None;
      }
    }

    method IoctlAbandon(th: Thread) returns (ok: bool)
      requires Valid()
      modifies this, th
      ensures Valid() && sent == old(sent) && received == old(received) && polled == old(polled) && cause == old(cause)
      ensures old(c.severed) ==> c.severed
      ensures ok ==> c == FRESH
      ensures !ok ==> c.severed && c.slot == old(c.slot) && th.errno == ENODEV
    {
      hide Exec;
      hide Replies;
      Outside();
      var (c', e) := DriverAbandon(c);
      Step(CmdAbandon);
      c, ok, cmds := c', e.None?, cmds + [CmdAbandon];
      if !ok {
        th.errno := e.value;
      }
    }
  }

  /** The descriptor can take a new message, or is beyond use. */
  predicate Free(c: Chan) {
    c.slot.Idle? || c.severed
  }

  // ---- what each library call does to the slot ----

  /** Polling: only a pending reply leaves the message where it was. */
  ghost predicate PollRel(c: Chan, c': Chan, r: Code, e: Errno) {
    && (c.severed ==> c'.severed)
    && (r == TT_OK ==> c.slot.Pending? && c' == FRESH)
    && (r == TT_ERR && e == EAGAIN ==> c.slot.Pending? && c' == c && !c'.severed)
    && (r == TT_ERR && e != EAGAIN ==> Free(c') && c'.slot in {Idle, c.slot})
    && (c.slot.Idle? && !c'.severed ==> r == TT_ERR && e == ESRCH)
  }

  /** Waiting, where `cause` is the driver's last refusal: only a message still
      pending when the budget is spent is left outstanding. */
  ghost predicate WaitRel(c: Chan, c': Chan, r: Code, e: Errno, cause: Errno) {
    && (c.severed ==> c'.severed)
    && (r == TT_OK ==> c.slot.Pending? && c' == FRESH)
    && (r == TT_ERR ==> e == if cause == EAGAIN then ETIMEDOUT else Normalize(cause))
    && (r == TT_ERR && cause == EAGAIN ==> c.slot.Pending? && c' == c && !c'.severed)
    && (r == TT_ERR && cause != EAGAIN ==> Free(c') && c'.slot in {Idle, c.slot})
    && (c.slot.Idle? && !c'.severed ==> r == TT_ERR && e == ESRCH)
  }

  method Post(th: Thread, sess: Session, ch: Channel, req: array<Word>) returns (r: Code)
    requires ch.Valid() && req.Length == 8
    modifies th, ch
    ensures ch.Valid() && ch.received == old(ch.received) && ch.polled == old(ch.polled)
    ensures sess.fd < 0 ==> r == TT_ERR && th.errno == ENOTCONN && ch.c == old(ch.c)
    ensures sess.fd >= 0 && r == TT_ERR ==> th.errno == Normalize(ch.cause)
    ensures old(ch.c.severed) ==> ch.c.severed
    ensures r == TT_OK ==>
              old(ch.c.slot).Idle? && ch.c == Chan(Pending(req[..]), false) && ch.sent == old(ch.sent) + [req[..]]
    ensures r == TT_ERR ==> ch.c.slot == old(ch.c.slot) && ch.sent == old(ch.sent)
    ensures r == TT_ERR && th.errno == EBUSY ==> ch.c.slot.Pending?
    ensures sess.fd >= 0 && old(ch.c.slot).Pending? ==> r == TT_ERR && (th.errno == EBUSY || ch.c.severed)
  {
    if sess.fd < 0 {
      r := th.Fail(ENOTCONN);
      return;
    }
    var ok := ch.IoctlPost(th, req[..]);
    if !ok {
      r := th.FailIo(th.errno);
      return;
    }
    r := TT_OK;
  }

  method Poll(th: Thread, sess: Session, ch: Channel, rsp: array<Word>) returns (r: Code)
    requires ch.Valid() && rsp.Length == 8
    modifies th, ch, rsp
    ensures ch.Valid() && ch.sent == old(ch.sent) && ch.polled == old(ch.polled) + if sess.fd < 0 then 0 else 1
    ensures sess.fd < 0 ==> r == TT_ERR && th.errno == ENOTCONN && ch.c == old(ch.c)
    ensures sess.fd >= 0 ==> PollRel(old(ch.c), ch.c, r, th.errno)
    ensures sess.fd >= 0 && r == TT_ERR ==> th.errno == Normalize(ch.cause)
    ensures r == TT_OK ==> ch.received == old(ch.received) + [rsp[..]]
    ensures r == TT_ERR ==> rsp[..] == old(rsp[..]) && ch.received == old(ch.received)
  {
    if sess.fd < 0 {
      r := th.Fail(ENOTCONN);
      return;
    }
    var reply := ch.IoctlPoll(th);
    if reply.None? {
      r := th.FailIo(th.errno);
      return;
    }
    var words := reply.value;
    forall i | 0 <= i < 8 {
      rsp[i] := words[i];
    }
    assert rsp[..] == words;
    r := TT_OK;
  }

  function Budget(timeout: Word): (b: nat)
    ensures 0 < b < U32_MOD
  {
    if timeout == 0 then TIMEOUT_DEFAULT else timeout
  }

  /** Sleeps taken around the first `p` polls: the 32-bit spin counter lets
      the first 32 of every 2^32 go back to back. */
  ghost function Sleeps(p: nat): nat {
    if p == 0 then 0 else Sleeps(p - 1) + if (p - 1) % U32_MOD >= 32 then 1 else 0
  }

  lemma SleepsNext(p: nat)
    ensures Sleeps(p + 1) == Sleeps(p) + if p % U32_MOD >= SPIN_POLLS then 1 else 0
  {
  }

  /** Short of the counter's wrap, `n` sleeps leave room for `n + 32` polls. */
  lemma {:induction false} PollsFromSleeps(p: nat, n: nat)
    requires Sleeps(p) <= n && n + SPIN_POLLS < U32_MOD
    ensures p <= n + SPIN_POLLS
  {
    SleepsGrow(p, U32_MOD);
    if p <= U32_MOD {
      SleepsExact(p);
    } else {
      SleepsExact(U32_MOD);
    }
  }

  /** At least one poll; short of the counter's wrap no more than 33 beyond the
      budget in milliseconds, and one more for every interrupted sleep. */
  ghost predicate FewPolls(polls: nat, budget: nat, before: nat, after: nat) {
    && after <= before && polls >= 1 && Sleeps(polls - 1) <= budget + before - after
    && (budget + before + SPIN_POLLS < U32_MOD ==> polls <= budget + 33 + before - after)
  }

  lemma FewSoFar(polls: nat, budget: nat, before: nat, after: nat)
    requires polls >= 1 && after <= before && Sleeps(polls - 1) <= budget + before - after
    ensures FewPolls(polls, budget, before, after)
  {
    if budget + before + SPIN_POLLS < U32_MOD {
      PollsFromSleeps(polls - 1, budget + before - after);
    }
  }

  lemma {:induction false} SleepsExact(p: nat)
    requires p <= U32_MOD
    ensures Sleeps(p) == if p <= SPIN_POLLS then 0 else p - SPIN_POLLS
  {
    if p > 0 {
      SleepsExact(p - 1);
    }
  }

  lemma {:induction false} SleepsGrow(p: nat, q: nat)
    ensures q <= p ==> Sleeps(q) <= Sleeps(p)
    decreases p
  {
    if q < p {
      SleepsGrow(p - 1, q);
    }
  }

  /** A poll that is not to be repeated ends the wait with its own outcome;
      otherwise the message is still there for the wait to give up on. */
  lemma WaitEnds(c: Chan, c': Chan, r: Code, e: Errno, cause: Errno)
    requires PollRel(c, c', r, e) && (r == TT_ERR ==> e == Normalize(cause))
    ensures r == TT_OK || e != EAGAIN ==> WaitRel(c, c', r, e, cause)
    ensures r == TT_ERR && e == EAGAIN ==>
              cause == EAGAIN && c' == c && c.slot.Pending? && !c.severed && WaitRel(c, c', TT_ERR, ETIMEDOUT, cause)
  {
  }

  /** One turn of the wait: a poll, and unless that or the budget ended the
      wait, a sleep once the spin is over. */
  method Turn(th: Thread, tm: Timer, sess: Session, ch: Channel, rsp: array<Word>, start: Timespec, budget: nat,
          spins: Word)
    returns (r: Code, over: bool)
    requires ch.Valid() && rsp.Length == 8 && sess.fd >= 0
    requires 0 <= start.nsec < NS_PER_SEC && budget < U32_MOD
    requires Ns(start) <= tm.now <= Ns(start) + budget * NS_PER_MS + 2 * STEP_MAX
    modifies th, tm, ch, rsp
    ensures ch.Valid() && ch.sent == old(ch.sent) && ch.polled == old(ch.polled) + 1
    ensures r == TT_OK ==> over && ch.received == old(ch.received) + [rsp[..]]
    ensures r == TT_ERR ==> rsp[..] == old(rsp[..]) && ch.received == old(ch.received)
    ensures old(tm.now) <= tm.now && tm.signals <= old(tm.signals)
    ensures over ==> WaitRel(old(ch.c), ch.c, r, th.errno, ch.cause) && tm.signals == old(tm.signals)
    ensures over && r == TT_ERR && ch.cause == EAGAIN ==> tm.now >= Ns(start) + budget * NS_PER_MS
    ensures tm.naps == old(tm.naps) + if over || spins < 32 then [] else [1000]
    ensures !over ==> ch.c == old(ch.c) && ch.c.slot.Pending? && !ch.c.severed
    ensures !over ==> tm.now <= Ns(start) + budget * NS_PER_MS + 2 * STEP_MAX
    ensures !over && spins < SPIN_POLLS ==>
              tm.signals == old(tm.signals) && old(tm.now) < Ns(start) + budget * NS_PER_MS
    ensures !over && spins >= SPIN_POLLS ==>
              && old(tm.now) < Ns(start) + budget * NS_PER_MS
              && if tm.signals == old(tm.signals) then tm.now >= old(tm.now) + NS_PER_MS
                 else tm.signals + 1 == old(tm.signals)
  {
    hide PollRel;
    hide WaitRel;
    over := true;
    r := Poll(th, sess, ch, rsp);
    tm.Pass();
    WaitEnds(old(ch.c), ch.c, r, th.errno, ch.cause);
    if r == TT_OK {
      return;
    }
    if th.errno != EAGAIN {
      return;
    }
    tm.Measurable(start);
    var ms := tm.Elapsed(start);
    if ms >= budget {
      r := th.Fail(ETIMEDOUT);
      return;
    }
    over := false;
    if spins >= SPIN_POLLS {
      var full := tm.Sleep(POLL_INTERVAL_US);
    }
  }

  /** One poll more, and the sleep it may take. */
  lemma Another(was: seq<nat>, polls: nat, spins: Word)
    requires spins == polls % U32_MOD
    ensures (spins + 1) % U32_MOD == (polls + 1) % U32_MOD
    ensures Sleeps(polls + 1) == Sleeps(polls) + if spins < 32 then 0 else 1
    ensures was + Naps(Sleeps(polls), 1000) + (if spins < 32 then [] else [1000]) == was + Naps(Sleeps(polls + 1), 1000)
  {
    ModStep(polls);
    SleepsNext(polls);
    NapsNext(was, Sleeps(polls), 1000);
  }

  /** Waits for the reply. */
  method Wait(th: Thread, tm: Timer, sess: Session, ch: Channel, rsp: array<Word>, timeout: Word) returns (r: Code)
    requires ch.Valid() && rsp.Length == 8
    modifies th, tm, ch, rsp
    ensures ch.Valid() && ch.sent == old(ch.sent) && tm.now >= old(tm.now) && tm.signals <= old(tm.signals)
    ensures sess.fd < 0 ==> r == TT_ERR && th.errno == ENOTCONN && ch.c == old(ch.c) && ch.polled == old(ch.polled)
    ensures sess.fd >= 0 ==> WaitRel(old(ch.c), ch.c, r, th.errno, ch.cause)
    ensures r == TT_OK ==> ch.received == old(ch.received) + [rsp[..]]
    ensures r == TT_ERR ==> rsp[..] == old(rsp[..]) && ch.received == old(ch.received)
    // The loop gives up only once its budget has passed, and polls seldom.
    ensures sess.fd >= 0 && r == TT_ERR && ch.cause == EAGAIN ==> tm.now >= old(tm.now) + Budget(timeout) * NS_PER_MS
    ensures ch.polled >= old(ch.polled)
    ensures sess.fd >= 0 ==> FewPolls(ch.polled - old(ch.polled), Budget(timeout), old(tm.signals), tm.signals)
    // It sleeps for a millisecond between polls, but for the first 32.
    ensures sess.fd >= 0 ==> tm.naps == old(tm.naps) + Naps(Sleeps(ch.polled - old(ch.polled) - 1), 1000)
  {
    hide WaitRel;
    hide Budget;
    assert Sleeps(0) == 0;
    hide Sleeps;
    hide FewPolls;
    hide Naps;
    if sess.fd < 0 {
      r := th.Fail(ENOTCONN);
      return;
    }
    var budget := Budget(timeout);
    NapsNext(tm.naps, 0, 1000);
    tm.Pass();
    var start := tm.Read();
    ghost var t0, sig0, slept, polls := tm.now, tm.signals, 0, 0;
    var spins := 0;
    while true
      invariant t0 == Ns(start) && 0 <= start.nsec < NS_PER_SEC && old(tm.now) <= t0
      invariant sig0 == old(tm.signals) && tm.signals <= sig0
      invariant t0 <= tm.now <= t0 + budget * NS_PER_MS + 2 * STEP_MAX
      invariant spins == polls % U32_MOD && ch.Valid() && ch.polled == old(ch.polled) + polls && ch.sent == old(ch.sent)
      invariant ch.c == old(ch.c) && rsp[..] == old(rsp[..]) && ch.received == old(ch.received)
      invariant tm.naps == old(tm.naps) + Naps(Sleeps(polls), 1000)
      invariant Sleeps(polls) == slept + (sig0 - tm.signals) && slept <= budget && tm.now >= t0 + slept * NS_PER_MS
      decreases budget + sig0 - Sleeps(polls), if spins < SPIN_POLLS then SPIN_POLLS - spins else 0
    {
      var over;
      ghost var signals := tm.signals;
      r, over := Turn(th, tm, sess, ch, rsp, start, budget, spins);
      Another(old(tm.naps), polls, spins);
      polls := polls + 1;
      if over {
        FewSoFar(polls, budget, sig0, tm.signals);
        return;
      }
      slept := slept + if spins >= SPIN_POLLS && tm.signals == signals then 1 else 0;
      spins := (spins + 1) % U32_MOD;
    }
  }

  method Drop(th: Thread, sess: Session, ch: Channel) returns (r: Code)
    requires ch.Valid()
    modifies th, ch
    ensures ch.Valid() && ch.sent == old(ch.sent) && ch.received == old(ch.received) && ch.cause == old(ch.cause)
    ensures sess.fd < 0 ==> r == TT_ERR && th.errno == ENOTCONN && ch.c == old(ch.c)
    ensures old(ch.c.severed) ==> ch.c.severed
    ensures sess.fd >= 0 && r == TT_OK ==> ch.c == FRESH
    ensures sess.fd >= 0 && r == TT_ERR ==> ch.c.severed && ch.c.slot == old(ch.c.slot) && th.errno == ECONNRESET
  {
    if sess.fd < 0 {
      r := th.Fail(ENOTCONN);
      return;
    }
    var ok := ch.IoctlAbandon(th);
    if !ok {
      r := th.FailIo(th.errno);
      return;
    }
    r := TT_OK;
  }

  /** A whole exchange. `req` and `rsp` may be one object. */
  method Call(th: Thread, tm: Timer, sess: Session, ch: Channel, req: array<Word>, rsp: array<Word>, timeout: Word)
    returns (r: Code, ghost posted: bool)
    requires ch.Valid() && req.Length == 8 && rsp.Length == 8
    modifies th, tm, ch, rsp
    ensures ch.Valid()
    ensures sess.fd < 0 ==> r == TT_ERR && th.errno == ENOTCONN && ch.c == old(ch.c)
    ensures posted ==> old(ch.c.slot).Idle? && ch.sent == old(ch.sent) + [old(req[..])] && Free(ch.c)
    ensures !posted ==> r == TT_ERR && ch.sent == old(ch.sent) && ch.c.slot == old(ch.c.slot)
    ensures sess.fd >= 0 && old(ch.c.slot).Pending? ==> !posted && (th.errno == EBUSY || ch.c.severed)
    ensures r == TT_ERR && !posted && th.errno == EBUSY ==> ch.c.slot.Pending?
    ensures r == TT_OK ==> posted && ch.c == FRESH && ch.received == old(ch.received) + [rsp[..]]
    ensures r == TT_ERR ==> rsp[..] == old(rsp[..]) && ch.received == old(ch.received)
    ensures sess.fd >= 0 && r == TT_ERR ==>
              th.errno == if posted && ch.cause == EAGAIN then ETIMEDOUT else Normalize(ch.cause)
    ensures posted && r == TT_ERR && ch.cause == EAGAIN ==> tm.now >= old(tm.now) + Budget(timeout) * NS_PER_MS
    ensures r == TT_ERR || req != rsp ==> req[..] == old(req[..])
  {
    posted := false;
    r := Post(th, sess, ch, req);
    if r != TT_OK {
      return;
    }
    posted := true;
    r := Wait(th, tm, sess, ch, rsp, timeout);
    if r != TT_OK {
      var err := th.errno;
      var _ := Drop(th, sess, ch);
      r := th.Fail(err);
    }
  }
}
