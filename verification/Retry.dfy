/** The binding's persistent sessions: an operation that finds the connection
    reset is retried on a reopened session, a bounded number of times. */
module Retry {
  import opened Errors
  import opened Kernel
  import opened Hosts
  import opened Sessions
  import opened Lifecycle

  const RETRIES := 3

  predicate IsLost(r: Result<nat>) {
    r == Err(ECONNRESET)
  }

  /** A caller's operation, whose k-th run comes out as `outcome(k)`. */
  class Operation {
    const outcome: nat -> Result<nat>
    var runs: nat

    constructor (outcome: nat -> Result<nat>)
      ensures this.outcome == outcome && runs == 0
    {
      this.outcome, runs := outcome, 0;
    }

    method Run(h: Host) returns (r: Result<nat>)
      requires h.Valid()
      modifies this, h`k, h`log
      ensures h.Valid() && Later(old(h.k), h.k) && AddsWindows(old(h.Mine()), h.Mine())
      ensures r == outcome(old(runs)) && runs == old(runs) + 1 && h.log == old(h.log) + [EvRan(r)]
    {
      h.Work();
      r := outcome(runs);
      runs := runs + 1;
      h.log := h.log + [EvRan(r)];
    }
  }

  /** What a call does: run the operation, or reopen the session. */
  datatype Step = Tried(r: Result<nat>) | Reopened(calls: seq<Event>, failure: Option<Errno>)

  /** The session a call starts on, with its descriptor's number. */
  datatype Origin = Origin(dev: Dev, flags: nat, fd: int)

  /** The calls of reopening the session whose number is `fd`: its descriptor is
      closed, if it has one, and its own device opened with its own options. */
  predicate Reopening(o: Origin, fd: int, calls: seq<Event>, failed: bool) {
    && |calls| == (if fd >= 0 then 2 else 1) && (fd >= 0 ==> calls[0].EvClose? && calls[0].closed == fd)
    && var last := calls[|calls| - 1];
       last.EvOpen? && last == Opening(o.dev, o.flags, last.fd) && (failed <==> last.fd < 0)
  }

  /** The session's number after these calls. */
  function NumberAfter(fd: int, calls: seq<Event>): int {
    if calls == [] then fd
    else if calls[|calls| - 1].EvOpen? && calls[|calls| - 1].fd >= 0 then calls[|calls| - 1].fd
    else if calls[0].EvClose? && calls[0].ok then -1 else fd
  }

  /** The session's number after these steps. */
  function FdAfter(o: Origin, steps: seq<Step>): int {
    if steps == [] then o.fd else
      match steps[|steps| - 1]
      case Tried(_) => FdAfter(o, steps[..|steps| - 1])
      case Reopened(calls, _) => NumberAfter(FdAfter(o, steps[..|steps| - 1]), calls)
  }

  /** Each reopen is one of the session as the steps before left it. */
  ghost predicate InPlace(o: Origin, steps: seq<Step>) {
    steps == [] ||
    (&& InPlace(o, steps[..|steps| - 1])
     && match steps[|steps| - 1]
        case Tried(_) => true
        case Reopened(calls, failure) => Reopening(o, FdAfter(o, steps[..|steps| - 1]), calls, failure.Some?))
  }

  lemma InPlaceNext(o: Origin, steps: seq<Step>, step: Step)
    ensures FdAfter(o, steps + [step]) ==
            if step.Tried? then FdAfter(o, steps) else NumberAfter(FdAfter(o, steps), step.calls)
    ensures InPlace(o, steps + [step]) <==>
            InPlace(o, steps) && (step.Reopened? ==> Reopening(o, FdAfter(o, steps), step.calls, step.failure.Some?))
  {
    assert (steps + [step])[..|steps|] == steps;
  }

  /** What steps leave in the log. */
  function LogOf(step: Step): seq<Event> {
    match step
    case Tried(r) => [EvRan(r)]
    case Reopened(calls, _) => calls
  }

  function Logged(steps: seq<Step>): seq<Event> {
    if steps == [] then [] else Logged(steps[..|steps| - 1]) + LogOf(steps[|steps| - 1])
  }

  function Opens(es: seq<Event>): nat {
    if es == [] then 0 else Opens(es[..|es| - 1]) + if es[|es| - 1].EvOpen? then 1 else 0
  }

  function Runs(es: seq<Event>): nat {
    if es == [] then 0 else Runs(es[..|es| - 1]) + if es[|es| - 1].EvRan? then 1 else 0
  }

  /** Tries and reopens take turns. */
  predicate Alternates(steps: seq<Step>) {
    forall i :: 0 <= i < |steps| ==> (steps[i].Tried? <==> i % 2 == 0)
  }

  lemma LastTurn(o: Origin, steps: seq<Step>)
    requires steps != [] && Alternates(steps) && InPlace(o, steps)
    ensures var init, last := steps[..|steps| - 1], steps[|steps| - 1];
            && Alternates(init) && InPlace(o, init) && (last.Tried? <==> |steps| % 2 == 1)
            && (last.Reopened? ==> Reopening(o, FdAfter(o, init), last.calls, last.failure.Some?))
  {
  }

  /** The steps of one call and its answer. Operations and reopens alternate,
      each reopen on the session as it was left; only a lost connection is followed by a reopen and only a successful
      reopen by another operation; the call ends at the first other outcome,
      or after the last retry with the device declared unusable. */
  ghost predicate Performs(o: Origin, steps: seq<Step>, persist: bool, res: Result<nat>) {
    && 0 < |steps| <= 2 * RETRIES + 1 && Alternates(steps) && InPlace(o, steps)
    && (forall i :: 0 <= i < |steps| - 1 && steps[i].Tried? ==> persist && IsLost(steps[i].r))
    && (forall i :: 0 <= i < |steps| - 1 && steps[i].Reopened? ==> steps[i].failure == None)
    && match steps[|steps| - 1]
       case Reopened(_, failure) => failure.Some? && res == Err(failure.value)
       case Tried(r) =>
         if persist && IsLost(r) then |steps| == 2 * RETRIES + 1 && res == Err(ENODEV) else res == r
  }

  lemma LoggedNext(log: seq<Event>, steps: seq<Step>, step: Step)
    ensures log + Logged(steps) + LogOf(step) == log + Logged(steps + [step])
  {
    assert (steps + [step])[..|steps|] == steps;
  }

  /** Every open in the log is one of the session's device, with its options. */
  ghost predicate OpensOnly(o: Origin, es: seq<Event>) {
    forall i :: 0 <= i < |es| && es[i].EvOpen? ==> es[i] == Opening(o.dev, o.flags, es[i].fd)
  }

  /** The log tells the steps apart: it holds one run for every try and one
      open, of the session's own device, for every reopen. */
  lemma {:induction false} LogCounts(o: Origin, steps: seq<Step>)
    requires Alternates(steps) && InPlace(o, steps)
    ensures Runs(Logged(steps)) == (|steps| + 1) / 2 && Opens(Logged(steps)) == |steps| / 2
    ensures OpensOnly(o, Logged(steps))
  {
    if steps != [] {
      hide Runs;
      hide Opens;
      hide OpensOnly;
      hide Reopening;
      hide Alternates;
      hide InPlace;
      LastTurn(o, steps);
      var init, last := steps[..|steps| - 1], steps[|steps| - 1];
      LogCounts(o, init);
      assert Logged(steps) == Logged(init) + LogOf(last);
      StepCounts(o, FdAfter(o, init), Logged(init), last);
    } else {
      assert Logged(steps) == [];
    }
  }

  lemma StepCounts(o: Origin, fd: int, es: seq<Event>, step: Step)
    requires (step.Reopened? ==> Reopening(o, fd, step.calls, step.failure.Some?)) && OpensOnly(o, es)
    ensures Runs(es + LogOf(step)) == Runs(es) + if step.Tried? then 1 else 0
    ensures Opens(es + LogOf(step)) == Opens(es) + if step.Tried? then 0 else 1
    ensures OpensOnly(o, es + LogOf(step))
  {
    hide Runs;
    hide Opens;
    var calls := LogOf(step);
    CountNext(es, calls[0]);
    if |calls| == 1 {
      assert calls == [calls[0]];
    } else {
      CountNext(es + [calls[0]], calls[1]);
      assert es + calls == es + [calls[0]] + [calls[1]];
    }
  }

  lemma CountNext(es: seq<Event>, e: Event)
    ensures Runs(es + [e]) == Runs(es) + if e.EvRan? then 1 else 0
    ensures Opens(es + [e]) == Opens(es) + if e.EvOpen? then 1 else 0
  {
    assert (es + [e])[..|es|] == es;
  }

  /** The process's other open descriptors. */
  function Others(p: Proc, fd: int): set<DescId> {
    set d | d in p.descs && p.descs[d].open && d != fd
  }

  /** The session's descriptor is open, on its device and with its options. */
  predicate Serves(p: Proc, o: Origin, fd: int) {
    IsOpen(p, fd) && p.descs[fd].dev == o.dev && p.descs[fd].excl == Exclusive(o.flags)
  }

  lemma WorkKeeps(p: Proc, p': Proc, o: Origin, fd: int)
    requires AddsWindows(p, p')
    ensures Others(p', fd) == Others(p, fd) && (Serves(p, o, fd) ==> Serves(p', o, fd))
    ensures fd >= 0 && Mapped(p, fd) ==> Mapped(p', fd)
  {
  }

  /** A reopen replaces the session's descriptor, and no other. */
  lemma ReopenedInPlace(p: Proc, o: Origin, fd: int, calls: seq<Event>, r: Code, p': Proc, fd': int)
    requires ReopenRel(p, o.dev, o.flags, fd, calls, r, p', fd')
    ensures Reopening(o, fd, calls, r == TT_ERR) && fd' == NumberAfter(fd, calls) && Others(p', fd') == Others(p, fd)
    ensures if r == TT_OK then Serves(p', o, fd') else !IsOpen(p', fd) && !IsOpen(p', fd')
  {
  }

  /** A reopen as a step of a call. */
  method Reconnect(th: Thread, h: Host, sess: Session) returns (r: Code, ghost step: Step)
    requires h.Valid() && KnownFlags(sess.flags)
    modifies th, h`k, h`failed, h`log, sess
    ensures h.Valid() && Later(old(h.k), h.k) && sess.dev == old(sess.dev) && sess.flags == old(sess.flags)
    ensures h.log == old(h.log) + LogOf(step)
    ensures step.Reopened? && step.failure == if r == TT_OK then None else Some(th.errno)
    ensures ReopenRel(old(h.Mine()), sess.dev, sess.flags, old(sess.fd), step.calls, r, h.Mine(), sess.fd)
    ensures r == TT_ERR ==> th.errno == if Busy(h.k, sess.dev, sess.flags) then EAGAIN else ENODEV
    ensures old(SelfBlocked(h, sess)) && old(sess.fd) !in h.k.gone ==> r == TT_ERR
  {
    hide Inv;
    hide ReopenRel;
    r := TtReopen(th, h, sess);
    ghost var calls := h.log[|old(h.log)|..];
    assert h.log == old(h.log) + calls;
    step := Reopened(calls, if r == TT_OK then None else Some(th.errno));
  }

  /** A call so far: tries of the operation, all lost but the last, with
      successful reopens in between. */
  ghost predicate Along(o: Origin, steps: seq<Step>, outcome: nat -> Result<nat>, from: nat) {
    && |steps| % 2 == 1 && Alternates(steps) && InPlace(o, steps)
    && (forall i :: 0 <= i < |steps| && steps[i].Tried? ==> steps[i].r == outcome(from + i / 2))
    && (forall i :: 0 <= i < |steps| - 1 && steps[i].Tried? ==> IsLost(steps[i].r))
    && (forall i :: 0 <= i < |steps| && steps[i].Reopened? ==> steps[i].failure == None)
  }

  /** A finished call, as the log tells it: at most four runs of the operation,
      with the outcomes it had, and at most three opens, of the session's own
      device and with its options. */
  ghost predicate Answered(o: Origin, steps: seq<Step>, outcome: nat -> Result<nat>, from: nat, persist: bool,
          res: Result<nat>) {
    && Performs(o, steps, persist, res) && OpensOnly(o, Logged(steps))
    && (forall i :: 0 <= i < |steps| && steps[i].Tried? ==> steps[i].r == outcome(from + i / 2))
    && Runs(Logged(steps)) == (|steps| + 1) / 2 <= RETRIES + 1 && Opens(Logged(steps)) == |steps| / 2 <= RETRIES
  }

  /** A call as its runs' outcomes tell it: it is run again only after a lost
      connection, at most three times; any other outcome is its answer. Lost to
      the end, it answers with what kept it from going on. */
  ghost predicate Told(steps: seq<Step>, outcome: nat -> Result<nat>, from: nat, persist: bool, res: Result<nat>) {
    var n := (|steps| + 1) / 2;
    && 1 <= n <= 4
    && (n > 1 ==> persist) && (forall k: nat :: from <= k < from + n - 1 ==> outcome(k) == Err(ECONNRESET))
    && var last := outcome(from + n - 1);
       if !persist || last != Err(ECONNRESET) then |steps| == 2 * n - 1 && res == last
       else if |steps| == 2 * n - 1 then n == 4 && res == Err(ENODEV)
       else
         && steps[|steps| - 1].Reopened? && steps[|steps| - 1].failure.Some?
         && res == Err(steps[|steps| - 1].failure.value)
  }

  lemma OutcomesTell(o: Origin, steps: seq<Step>, outcome: nat -> Result<nat>, from: nat, persist: bool,
          res: Result<nat>)
    requires Answered(o, steps, outcome, from, persist, res)
    ensures Told(steps, outcome, from, persist, res)
  {
    hide InPlace;
    hide Runs;
    hide Opens;
    hide OpensOnly;
    var n := (|steps| + 1) / 2;
    var i := 2 * (n - 1);
    assert steps[0].Tried? && steps[i].Tried? && steps[i].r == outcome(from + i / 2) == outcome(from + n - 1);
    forall k: nat | from <= k < from + n - 1 ensures outcome(k) == Err(ECONNRESET) {
      var j := 2 * (k - from);
      assert steps[j].Tried? && steps[j].r == outcome(from + j / 2) && j / 2 == k - from;
    }
    if |steps| == 2 * n {
      assert steps[2 * n - 1].Reopened?;
    }
  }

  lemma Begun(o: Origin, outcome: nat -> Result<nat>, from: nat)
    ensures var steps := [Tried(outcome(from))]; Along(o, steps, outcome, from) && FdAfter(o, steps) == o.fd
  {
    hide InPlace;
    hide FdAfter;
    OneTry(o, outcome(from));
  }

  lemma OneTry(o: Origin, r: Result<nat>)
    ensures InPlace(o, [Tried(r)]) && FdAfter(o, [Tried(r)]) == o.fd
  {
    var none: seq<Step>, first := [], Tried(r);
    assert InPlace(o, none) && FdAfter(o, none) == o.fd;
    hide InPlace;
    hide FdAfter;
    InPlaceNext(o, none, first);
    assert none + [first] == [first];
  }

  lemma GoesOn(o: Origin, steps: seq<Step>, outcome: nat -> Result<nat>, from: nat, step: Step, next: Step)
    requires Along(o, steps, outcome, from) && IsLost(steps[|steps| - 1].r)
    requires step.Reopened? && step.failure == None && Reopening(o, FdAfter(o, steps), step.calls, false)
    requires next == Tried(outcome(from + |steps| / 2 + 1))
    ensures Along(o, steps + [step] + [next], outcome, from)
  {
    hide Reopening;
    hide InPlace;
    hide FdAfter;
    InPlaceNext(o, steps, step);
    InPlaceNext(o, steps + [step], next);
  }

  /** A call that ends with a try. */
  lemma AnswersWith(o: Origin, steps: seq<Step>, outcome: nat -> Result<nat>, from: nat, persist: bool, res: Result<nat>)
    requires Along(o, steps, outcome, from) && (persist || |steps| == 1) && |steps| <= 2 * RETRIES + 1
    requires var r := steps[|steps| - 1].r;
             res == if persist && IsLost(r) then Err(ENODEV) else r
    requires persist && IsLost(steps[|steps| - 1].r) ==> |steps| == 2 * RETRIES + 1
    ensures Answered(o, steps, outcome, from, persist, res)
  {
    hide Runs;
    hide Opens;
    hide OpensOnly;
    hide Logged;
    hide InPlace;
    LogCounts(o, steps);
  }

  /** A call that ends with a failed reopen. */
  lemma GivesUp(o: Origin, steps: seq<Step>, outcome: nat -> Result<nat>, from: nat, step: Step)
    requires Along(o, steps, outcome, from) && |steps| < 2 * RETRIES + 1 && IsLost(steps[|steps| - 1].r)
    requires step.Reopened? && step.failure.Some? && Reopening(o, FdAfter(o, steps), step.calls, true)
    ensures Answered(o, steps + [step], outcome, from, true, Err(step.failure.value))
  {
    hide Runs;
    hide Opens;
    hide OpensOnly;
    hide Logged;
    hide InPlace;
    hide FdAfter;
    hide Reopening;
    var all := steps + [step];
    InPlaceNext(o, steps, step);
    assert Alternates(all) && Performs(o, all, true, Err(step.failure.value));
    LogCounts(o, all);
  }

  /** One retry: `reopen()?` and the operation again. */
  method TryAgain(th: Thread, h: Host, sess: Session, op: Operation, ghost o: Origin, ghost log: seq<Event>,
          ghost tried: seq<Step>, ghost from: nat)
    returns (r: Code, res: Result<nat>, ghost steps: seq<Step>)
    requires h.Valid() && KnownFlags(sess.flags) && sess.dev == o.dev && sess.flags == o.flags
    requires Along(o, tried, op.outcome, from) && |tried| < 2 * RETRIES + 1 && IsLost(tried[|tried| - 1].r)
    requires h.log == log + Logged(tried) && op.runs == from + |tried| / 2 + 1 && sess.fd == FdAfter(o, tried)
    modifies th, h`k, h`failed, h`log, sess, op
    ensures h.Valid() && Later(old(h.k), h.k) && sess.dev == o.dev && sess.flags == o.flags
    ensures h.log == log + Logged(steps) && sess.fd == FdAfter(o, steps)
    ensures Others(h.Mine(), sess.fd) == Others(old(h.Mine()), old(sess.fd))
    ensures r == TT_OK ==>
              && |steps| == |tried| + 2 && steps[|steps| - 1] == Tried(res) && Along(o, steps, op.outcome, from)
              && op.runs == old(op.runs) + 1 && Serves(h.Mine(), o, sess.fd)
    ensures r == TT_ERR ==>
              && Answered(o, steps, op.outcome, from, true, res) && op.runs == old(op.runs) && |steps| == |tried| + 1
              && steps[|tried|].Reopened? && !IsOpen(h.Mine(), old(sess.fd)) && !IsOpen(h.Mine(), sess.fd)
              && res == Err(if Busy(h.k, sess.dev, sess.flags) then EAGAIN else ENODEV)
    ensures old(SelfBlocked(h, sess)) && r == TT_OK ==> old(sess.fd) in h.k.gone
  {
    hide Inv;
    hide Along;
    hide Answered;
    hide Logged;
    hide FdAfter;
    hide ReopenRel;
    hide Reopening;
    hide NumberAfter;
    hide Others;
    hide Serves;
    hide AddsWindows;
    ghost var p, fd := h.Mine(), sess.fd;
    ghost var step;
    r, step := Reconnect(th, h, sess);
    ReopenedInPlace(p, o, fd, step.calls, r, h.Mine(), sess.fd);
    InPlaceNext(o, tried, step);
    LoggedNext(log, tried, step);
    steps := tried + [step];
    if r == TT_ERR {
      GivesUp(o, tried, op.outcome, from, step);
      return r, Err(th.errno), steps;
    }
    ghost var reopened := h.Mine();
    res := op.Run(h);
    WorkKeeps(reopened, h.Mine(), o, sess.fd);
    InPlaceNext(o, steps, Tried(res));
    LoggedNext(log, steps, Tried(res));
    GoesOn(o, tried, op.outcome, from, step, Tried(res));
    steps := steps + [Tried(res)];
  }

  method Perform(th: Thread, h: Host, sess: Session, op: Operation, persist: bool)
    returns (res: Result<nat>, ghost steps: seq<Step>)
    requires h.Valid() && KnownFlags(sess.flags)
    modifies th, h`k, h`failed, h`log, sess, op
    ensures h.Valid() && sess.dev == old(sess.dev) && sess.flags == old(sess.flags) && |steps| > 0
    // The log and the operation's count tell what was done.
    ensures h.log == old(h.log) + Logged(steps) && op.runs == old(op.runs) + (|steps| + 1) / 2
    ensures var o := Origin(sess.dev, sess.flags, old(sess.fd));
            Answered(o, steps, op.outcome, old(op.runs), persist, res) && sess.fd == FdAfter(o, steps)
    ensures Told(steps, op.outcome, old(op.runs), persist, res)
    ensures persist ==> res != Err(ECONNRESET)
    // The session is reopened in place: no other descriptor is touched.
    ensures Others(h.Mine(), sess.fd) == Others(old(h.Mine()), old(sess.fd))
    ensures |steps| > 1 && steps[|steps| - 1].Tried? ==>
              Serves(h.Mine(), Origin(sess.dev, sess.flags, old(sess.fd)), sess.fd)
    ensures steps[|steps| - 1].Reopened? ==>
              !IsOpen(h.Mine(), sess.fd) && res == Err(if Busy(h.k, sess.dev, sess.flags) then EAGAIN else ENODEV)
    // An exclusive session with a window still mapped cannot be recovered.
    ensures old(SelfBlocked(h, sess)) && old(sess.fd) !in h.k.gone ==> |steps| <= 2
  {
    ghost var o := Origin(sess.dev, sess.flags, sess.fd);
    Begun(o, op.outcome, op.runs);
    assert h.log + Logged([]) == h.log;
    hide Inv;
    hide Along;
    hide Answered;
    hide Logged;
    hide FdAfter;
    hide Others;
    hide Serves;
    hide Told;
    ghost var log, runs, p := h.log, op.runs, h.Mine();
    res := op.Run(h);
    WorkKeeps(p, h.Mine(), o, sess.fd);
    steps := [Tried(res)];
    LoggedNext(log, [], Tried(res));
    if persist {
      res, steps := Persist(th, h, sess, op, res, o, log, steps, runs);
    } else {
      AnswersWith(o, steps, op.outcome, runs, false, res);
    }
    OutcomesTell(o, steps, op.outcome, runs, persist, res);
  }

  /** The retries of a persistent session, after a first run came out as `first`. */
  method Persist(th: Thread, h: Host, sess: Session, op: Operation, first: Result<nat>, ghost o: Origin,
          ghost log: seq<Event>, ghost tried: seq<Step>, ghost from: nat)
    returns (res: Result<nat>, ghost steps: seq<Step>)
    requires h.Valid() && KnownFlags(sess.flags) && sess.dev == o.dev && sess.flags == o.flags
    requires |tried| == 1 && tried[0] == Tried(first) && Along(o, tried, op.outcome, from)
    requires h.log == log + Logged(tried) && op.runs == from + 1 && sess.fd == FdAfter(o, tried)
    modifies th, h`k, h`failed, h`log, sess, op
    ensures h.Valid() && sess.dev == o.dev && sess.flags == o.flags
    ensures h.log == log + Logged(steps) && |steps| > 0 && op.runs == from + (|steps| + 1) / 2
    ensures Answered(o, steps, op.outcome, from, true, res) && sess.fd == FdAfter(o, steps)
    ensures Others(h.Mine(), sess.fd) == Others(old(h.Mine()), old(sess.fd))
    ensures |steps| > 1 && steps[|steps| - 1].Tried? ==> Serves(h.Mine(), o, sess.fd)
    ensures steps[|steps| - 1].Reopened? ==>
              !IsOpen(h.Mine(), sess.fd) && res == Err(if Busy(h.k, sess.dev, sess.flags) then EAGAIN else ENODEV)
    ensures old(SelfBlocked(h, sess)) && old(sess.fd) !in h.k.gone ==> |steps| <= 2
  {
    hide Inv;
    hide Along;
    hide Answered;
    hide Logged;
    hide FdAfter;
    hide Others;
    hide Serves;
    ghost var blocked := SelfBlocked(h, sess);
    res, steps := first, tried;
    var n := 0;
    while n < RETRIES
      invariant 0 <= n <= RETRIES && h.Valid() && sess.dev == o.dev && sess.flags == o.flags
      invariant |steps| == 2 * n + 1 && steps[|steps| - 1] == Tried(res) && Along(o, steps, op.outcome, from)
      invariant h.log == log + Logged(steps) && op.runs == from + n + 1 && sess.fd == FdAfter(o, steps)
      invariant Others(h.Mine(), sess.fd) == Others(old(h.Mine()), old(sess.fd))
      invariant if n == 0 then sess.fd == old(sess.fd) && h.k == old(h.k) else Serves(h.Mine(), o, sess.fd)
      invariant n > 0 && blocked ==> old(sess.fd) in h.k.gone
    {
      if !IsLost(res) {
        AnswersWith(o, steps, op.outcome, from, true, res);
        return;
      }
      var r;
      r, res, steps := TryAgain(th, h, sess, op, o, log, steps, from);
      if r == TT_ERR {
        return;
      }
      n := n + 1;
    }
    if IsLost(res) {
      res := Err(ENODEV);
    }
    AnswersWith(o, steps, op.outcome, from, true, res);
  }

  /** At most four operations and three reopens, each of the session's device and
      with its options; a persistent session answers with its last operation's
      outcome, a reopen's failure, or `ENODEV`, and surfaces a reset only if a
      reopen itself reported one. */
  lemma PersistentAnswer(o: Origin, steps: seq<Step>, res: Result<nat>)
    requires Performs(o, steps, true, res)
    ensures Runs(Logged(steps)) <= 4 && Opens(Logged(steps)) <= 3 && OpensOnly(o, Logged(steps))
    ensures steps[|steps| - 1].Reopened? ==> res == Err(steps[|steps| - 1].failure.value)
    ensures steps[|steps| - 1].Tried? ==>
              res == if IsLost(steps[|steps| - 1].r) then Err(ENODEV) else steps[|steps| - 1].r
    ensures IsLost(res) ==> steps[|steps| - 1].Reopened? && steps[|steps| - 1].failure == Some(ECONNRESET)
  {
    LogCounts(o, steps);
  }

  /** A session without persistence runs the operation once and hands its
      outcome on, a reset included. */
  lemma PlainAnswer(o: Origin, steps: seq<Step>, res: Result<nat>)
    requires Performs(o, steps, false, res)
    ensures Logged(steps) == [EvRan(res)] && FdAfter(o, steps) == o.fd
  {
    assert steps[0].Tried?;
    assert steps == [] + [Tried(res)];
    LoggedNext([], [], Tried(res));
    InPlaceNext(o, [], Tried(res));
    assert Logged([]) == [];
  }

  /** The answer as the outcomes alone determine it: `outcome(k)` of the k-th
      run, `reopen(k)` the failure of the reopen after it. */
  function Answer(outcome: nat -> Result<nat>, reopen: nat -> Option<Errno>, persist: bool, k: nat): Result<nat>
    requires k <= RETRIES
    decreases RETRIES - k
  {
    if !persist || !IsLost(outcome(k)) then outcome(k)
    else if k == RETRIES then Err(ENODEV)
    else match reopen(k)
      case Some(e) => Err(e)
      case None => Answer(outcome, reopen, persist, k + 1)
  }

  /** The outcomes decide the call: it answers what they determine. */
  lemma OutcomesDecide(o: Origin, steps: seq<Step>, persist: bool, res: Result<nat>, outcome: nat -> Result<nat>,
          reopen: nat -> Option<Errno>)
    requires Performs(o, steps, persist, res)
    requires forall i :: 0 <= i < |steps| ==>
               if steps[i].Tried? then steps[i].r == outcome(i / 2) else steps[i].failure == reopen(i / 2)
    ensures res == Answer(outcome, reopen, persist, 0)
  {
    DecidedFrom(o, steps, persist, res, outcome, reopen, 0);
  }

  lemma {:induction false} DecidedFrom(o: Origin, steps: seq<Step>, persist: bool, res: Result<nat>,
                                       outcome: nat -> Result<nat>, reopen: nat -> Option<Errno>, k: nat)
    requires Performs(o, steps, persist, res) && 2 * k < |steps|
    requires forall i :: 0 <= i < |steps| ==>
               if steps[i].Tried? then steps[i].r == outcome(i / 2) else steps[i].failure == reopen(i / 2)
    ensures res == Answer(outcome, reopen, persist, k)
    decreases |steps| - k
  {
    assert steps[2 * k].Tried? && 2 * k / 2 == k;
    if 2 * k + 1 < |steps| {
      assert steps[2 * k + 1].Reopened? && (2 * k + 1) / 2 == k;
      if 2 * k + 2 < |steps| {
        DecidedFrom(o, steps, persist, res, outcome, reopen, k + 1);
      }
    }
  }
}
