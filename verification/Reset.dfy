/** Resetting a device on one exclusive descriptor. */
module Resets {
  import opened Errors
  import opened Clock
  import opened Kernel
  import opened Hosts
  import opened Sessions
  import opened Lifecycle

  const RESET_TIMEOUT_MS := 5000
  const POLL_INTERVAL_US := 100_000
  const POST_RESET_DELAY_NS := 500 * NS_PER_MS

  /** The driver clears bit 6 when an in-place reset is done. */
  predicate Cleared(s: Sight) {
    s.Present? && s.command.Some? && s.command.value / 64 % 2 == 0
  }

  /** Probe `i` shows a completed reset: the device is back after it was seen
      gone, or is in place with the marker cleared. */
  predicate Finished(seen: seq<Sight>, i: nat)
    requires i < |seen|
  {
    seen[i].Present? && ((exists j :: 0 <= j < i && seen[j].Absent?) || Cleared(seen[i]))
  }

  ghost predicate NoneFinished(seen: seq<Sight>) {
    forall i :: 0 <= i < |seen| ==> !Finished(seen, i)
  }

  /** Look `i` shows the directory back after an absence, or the command byte with
      its bit of 64 clear. */
  ghost predicate BackOrClear(es: seq<Event>, bit: seq<nat>, i: nat)
    requires Looks(es) && i < |es| == |bit|
  {
    && es[i].sight.Present?
    && ((exists j :: 0 <= j < i && es[j].sight.Absent?) || (es[i].sight.command.Some? && bit[i] == 0))
  }

  /** On the bytes themselves: a wait completes at the first look that shows the
      device back, or in place with bit 6 of its byte clear; a byte that could not
      be read shows nothing. */
  lemma FinishedMeans(es: seq<Event>, hi: seq<nat>, bit: seq<nat>, lo: seq<nat>)
    requires es != [] && Looks(es) && |hi| == |bit| == |lo| == |es|
    requires forall i :: 0 <= i < |es| ==> bit[i] < 2 && lo[i] < 64
    requires forall i :: 0 <= i < |es| && es[i].sight.Present? && es[i].sight.command.Some? ==>
               es[i].sight.command.value == 128 * hi[i] + 64 * bit[i] + lo[i]
    ensures FinishedAtLast(es) <==>
            BackOrClear(es, bit, |es| - 1) && forall i :: 0 <= i < |es| - 1 ==> !BackOrClear(es, bit, i)
    ensures Unfinished(es) <==> forall i :: 0 <= i < |es| ==> !BackOrClear(es, bit, i)
  {
    forall i | 0 <= i < |es| ensures Finished(Sights(es), i) <==> BackOrClear(es, bit, i) {
      BitSix(hi[i], bit[i], lo[i]);
    }
    var init := es[..|es| - 1];
    forall i | 0 <= i < |init| ensures Finished(Sights(init), i) <==> Finished(Sights(es), i) {
    }
  }

  lemma BitSix(hi: nat, bit: nat, lo: nat)
    requires bit < 2 && lo < 64
    ensures (128 * hi + 64 * bit + lo) / 64 % 2 == bit
  {
    assert (128 * hi + 64 * bit + lo) / 64 == 2 * hi + bit;
  }

  lemma NoneFinishedExtends(seen: seq<Sight>, s: Sight)
    requires NoneFinished(seen)
    ensures NoneFinished(seen + [s]) <==> !Finished(seen + [s], |seen|)
    ensures Finished(seen + [s], |seen|) <==> s.Present? && (Absent in seen || Cleared(s))
  {
    var all := seen + [s];
    forall i | 0 <= i < |seen| ensures !Finished(all, i) {
      assert !Finished(seen, i);
    }
    if Absent in seen && s.Present? {
      var j :| 0 <= j < |seen| && seen[j].Absent?;
      assert all[j].Absent?;
    }
  }

  /** A stretch of the log in which sysfs is polled, and what it showed. */
  predicate Looks(es: seq<Event>) {
    forall i :: 0 <= i < |es| ==> es[i].EvLook?
  }

  function Sights(es: seq<Event>): (seen: seq<Sight>)
    requires Looks(es)
    ensures |seen| == |es| && forall i :: 0 <= i < |es| ==> seen[i] == es[i].sight
  {
    seq(|es|, i requires 0 <= i < |es| => es[i].sight)
  }

  /** No look of the stretch showed a completed reset. */
  ghost predicate Unfinished(es: seq<Event>) {
    Looks(es) && NoneFinished(Sights(es))
  }

  /** The last look of the stretch is the first to show a completed reset. */
  ghost predicate FinishedAtLast(es: seq<Event>) {
    |es| > 0 && Looks(es) && Finished(Sights(es), |es| - 1) && Unfinished(es[..|es| - 1])
  }

  ghost predicate SeenGone(es: seq<Event>) {
    Looks(es) && Absent in Sights(es)
  }

  lemma LookedOn(es: seq<Event>, e: Event)
    requires Unfinished(es) && e.EvLook?
    ensures SeenGone(es + [e]) <==> SeenGone(es) || e.sight.Absent?
    ensures if e.sight.Present? && (SeenGone(es) || Cleared(e.sight))
            then FinishedAtLast(es + [e]) else Unfinished(es + [e])
  {
    assert Sights(es + [e]) == Sights(es) + [e.sight] && (es + [e])[..|es|] == es;
    NoneFinishedExtends(Sights(es), e.sight);
  }

  /** Polls sysfs until the reset has completed or the budget is spent; `looks`
      is what that added to the log. */
  method AwaitCompletion(h: Host, tm: Timer) returns (complete: bool, ghost looks: seq<Event>)
    requires h.Valid()
    modifies h`k, h`log, tm
    ensures h.Valid() && Frame(old(h.k), h.k, h.me) && h.log == old(h.log) + looks
    ensures complete ==> FinishedAtLast(looks) && old(tm.now) <= looks[|looks| - 1].at == tm.now
    ensures !complete ==> Unfinished(looks) && tm.now >= old(tm.now) + 5_000_000_000
    ensures tm.now >= old(tm.now) && tm.signals <= old(tm.signals)
    ensures 1 <= |looks| <= 50 + old(tm.signals) - tm.signals
    // It sleeps for 100 ms after every look but one that shows completion.
    ensures tm.naps == old(tm.naps) + Naps(|looks| - if complete then 1 else 0, 100_000)
  {
    assert Unfinished([]) && !SeenGone([]);
    hide Unfinished;
    hide FinishedAtLast;
    hide SeenGone;
    hide Inv;
    hide Naps;
    hide Cleared;
    var disappeared := false;
    complete, looks := false, [];
    NapsNext(tm.naps, 0, 100_000);
    tm.Pass();
    var start := tm.Read();
    ghost var t0, sig0, slept := tm.now, tm.signals, 0;
    tm.Measurable(start);
    var elapsed := tm.Elapsed(start);
    while elapsed < RESET_TIMEOUT_MS
      invariant h.Valid() && Frame(old(h.k), h.k, h.me) && h.log == old(h.log) + looks
      invariant !complete && Unfinished(looks) && (disappeared <==> SeenGone(looks))
      invariant t0 == Ns(start) && 0 <= start.nsec < NS_PER_SEC && old(tm.now) <= t0
      invariant sig0 == old(tm.signals) && tm.signals <= sig0
      invariant t0 <= tm.now && elapsed == (tm.now - t0) / NS_PER_MS
      invariant looks == [] ==> elapsed < RESET_TIMEOUT_MS
      invariant tm.naps == old(tm.naps) + Naps(|looks|, 100_000)
      invariant |looks| == slept + (sig0 - tm.signals) && slept <= 50 && tm.now >= t0 + slept * 100 * NS_PER_MS
      decreases 50 + sig0 - |looks|
    {
      ghost var look;
      complete, disappeared, look := LookOnce(h, tm, disappeared, looks);
      looks := looks + [look];
      if complete {
        break;
      }
      var full := tm.Sleep(POLL_INTERVAL_US);
      NapsNext(old(tm.naps), |looks| - 1, 100_000);
      slept := slept + if full then 1 else 0;
      tm.Measurable(start);
      elapsed := tm.Elapsed(start);
    }
  }

  /** One look at sysfs, after `looks`, and whether it shows completion. */
  method LookOnce(h: Host, tm: Timer, gone: bool, ghost looks: seq<Event>)
    returns (complete: bool, disappeared: bool, ghost look: Event)
    requires h.Valid() && Unfinished(looks) && (gone <==> SeenGone(looks))
    modifies h`k, h`log, tm
    ensures h.Valid() && Frame(old(h.k), h.k, h.me) && h.log == old(h.log) + [look] && look.EvLook? && look.at == tm.now
    ensures if complete then FinishedAtLast(looks + [look]) else Unfinished(looks + [look])
    ensures !complete ==> (disappeared <==> SeenGone(looks + [look]))
    ensures old(tm.now) <= tm.now <= old(tm.now) + STEP_MAX && tm.signals == old(tm.signals) && tm.naps == old(tm.naps)
  {
    hide Unfinished;
    hide FinishedAtLast;
    hide SeenGone;
    hide Inv;
    complete, disappeared := false, gone;
    var sight := h.Look(tm);
    look := EvLook(sight, tm.now);
    LookedOn(looks, look);
    if sight.Present? {
      if disappeared {
        complete := true;
        return;
      }
      if Cleared(sight) {
        complete := true;
      }
    } else {
      disappeared := true;
    }
  }

  /** Sleeps out the firmware delay, resuming after signals. */
  method AwaitFirmware(tm: Timer)
    modifies tm
    ensures tm.now >= old(tm.now) + 500_000_000 && tm.signals <= old(tm.signals)
  {
    var delay := tm.Nanosleep(POST_RESET_DELAY_NS);
    while delay > 0
      invariant tm.now >= old(tm.now) + POST_RESET_DELAY_NS - delay && tm.signals <= old(tm.signals)
      decreases tm.signals, delay
    {
      delay := tm.Nanosleep(delay);
    }
  }

  /** How far one reset came, with the descriptor it acquired, the times of its
      reset calls, what it saw in between, and whether its close was clean. */
  datatype Trace =
    | Refused
    | NoInfo(d: DescId, clean: bool)
    | NotReset(d: DescId, at: nat, result: Option<nat>, clean: bool)
    | NotDone(d: DescId, at: nat, looks: seq<Event>, clean: bool)
    | Done(d: DescId, at: nat, looks: seq<Event>, postAt: nat, result: Option<nat>, clean: bool)

  /** Everything it did after its open: each reset call severs nobody, and the
      one close comes last. */
  function Acted(t: Trace): seq<Event> {
    if t.Refused? then [] else [EvInfo(t.d, !t.NoInfo?)] + Informed(t)
  }

  /** What came after asking for the device's information. */
  function Informed(t: Trace): seq<Event>
  {
    match t
    case NoInfo(d, clean) => [EvClose(d, clean)]
    case NotReset(d, at, result, clean) => [EvReset(d, AsicReset, result, {}, at), EvClose(d, clean)]
    case NotDone(d, at, _, _) => [EvReset(d, AsicReset, Some(0), {}, at)] + SeenThrough(t)
    case Done(d, at, _, _, _, _) => [EvReset(d, AsicReset, Some(0), {}, at)] + SeenThrough(t)
    case Refused => []
  }

  /** What came after an accepted ASIC reset. */
  function SeenThrough(t: Trace): seq<Event> {
    match t
    case NotDone(d, _, looks, clean) => looks + [EvClose(d, clean)]
    case Done(d, _, looks, postAt, result, clean) =>
      looks + [EvReset(d, PostReset, result, {}, postAt), EvClose(d, clean)]
    case _ => []
  }

  function Events(dev: Dev, t: Trace): seq<Event> {
    [EvOpen(dev, true, true, if t.Refused? then -1 else t.d)] + Acted(t)
  }

  /** The post-reset comes only after completion was seen, and after the delay;
      without completion the whole budget has passed since the reset. */
  ghost predicate Paced(t: Trace, now: nat) {
    match t
    case NotDone(_, at, looks, _) =>
      looks != [] && Unfinished(looks) && now >= at + 5_000_000_000
    case Done(_, at, looks, postAt, _, _) =>
      FinishedAtLast(looks) && at <= looks[|looks| - 1].at && postAt >= looks[|looks| - 1].at + 500_000_000
    case _ => true
  }

  function LooksOf(t: Trace): seq<Event> {
    if t.NotDone? || t.Done? then t.looks else []
  }

  /** A reset call's two ways of failing: refused by the driver for a cause, or
      carried out with a result code of its own, which reads as `EIO`. */
  ghost predicate Rejected(result: Option<nat>, before: seq<Errno>, after: seq<Errno>, e: Errno) {
    if result.None? then Reports(before, after, e) else result.value != 0 && before <= after && e == EIO
  }

  /** Success takes both resets and a clean close; every failure past the
      acquisition has its cause. */
  ghost predicate Answers(t: Trace, r: Code, before: seq<Errno>, after: seq<Errno>, e: Errno) {
    && (r == TT_OK <==> t.Done? && t.result == Some(0) && t.clean)
    && match t
       case Refused => true
       case NoInfo(_, _) => Reports(before, after, e)
       case NotReset(_, _, result, _) => Rejected(result, before, after, e)
       case NotDone(_, _, _, _) => e == ETIMEDOUT
       case Done(_, _, _, _, result, clean) =>
         if result == Some(0) then after == before + if clean then [] else [e] else Rejected(result, before, after, e)
  }

  /** A descriptor opened and closed again with nothing mapped holds nothing. */
  lemma ClosedIsDead(p: Proc, d: DescId, dev: Dev)
    requires d !in p.descs && Tidy(p)
    ensures var q := Closed(p.(descs := p.descs[d := Desc(dev, true, true, map[])]), d);
            q == p.(descs := p.descs[d := Desc(dev, true, false, map[])]) && !Alive(q, d)
  {
  }

  /** `close(fd), tt_fail(err)`: the cause survives the close. */
  method CloseAndFail(th: Thread, h: Host, fd: int, err: Errno) returns (r: Code, ghost clean: bool)
    requires h.Valid() && IsOpen(h.Mine(), fd)
    modifies th, h`k, h`failed, h`log
    ensures h.Valid() && Later(old(h.k), h.k)
    ensures r == TT_ERR && th.errno == err && old(h.failed) <= h.failed
    ensures h.Mine() == Closed(old(h.Mine()), fd) && h.log == old(h.log) + [EvClose(fd, clean)]
  {
    var ok := h.SysClose(th, fd);
    clean := ok;
    r := th.Fail(err);
  }

  /** One reset call on the exclusive descriptor: it severs nobody, and fails
      with the normalised cause or, softly refused, with `EIO`. */
  method IssueReset(th: Thread, h: Host, tm: Timer, fd: int, kind: ResetKind, dev: Dev)
    returns (accepted: bool, ghost answer: Option<nat>)
    requires h.Valid() && fd >= 0 && OpenExclusive(h.k, h.me, fd, dev)
    modifies th, h`k, h`failed, h`log
    ensures h.Valid() && Later(old(h.k), h.k) && h.Mine() == old(h.Mine())
    ensures h.log == old(h.log) + [EvReset(fd, kind, answer, {}, tm.now)] && (accepted <==> answer == Some(0))
    ensures accepted ==> h.failed == old(h.failed)
    ensures !accepted ==> Rejected(answer, old(h.failed), h.failed, th.errno)
  {
    var ok, result := h.SysReset(th, tm, fd, kind);
    accepted, answer := ok && result == 0, if ok then Some(result) else None;
    if ok {
      assert Alive(h.Mine(), fd) && HoldsExclusively(h.k, h.me, fd, dev);
      ExclusiveIsAlone(h.k, h.me, fd, dev);
      assert {fd} - {fd} == {};
    }
    if !ok {
      var _ := th.FailIo(th.errno);
    } else if result != 0 {
      var _ := th.Fail(EIO);
    }
  }

  /** The end of the sequence: the post-reset and the release. */
  method FinishReset(th: Thread, h: Host, tm: Timer, fd: int, dev: Dev)
    returns (r: Code, ghost answer: Option<nat>, ghost clean: bool)
    requires h.Valid() && fd >= 0 && OpenExclusive(h.k, h.me, fd, dev)
    modifies th, h`k, h`failed, h`log
    ensures h.Valid() && Later(old(h.k), h.k)
    ensures r == TT_OK <==> answer == Some(0) && clean
    ensures answer != Some(0) ==> Rejected(answer, old(h.failed), h.failed, th.errno)
    ensures answer == Some(0) ==> h.failed == old(h.failed) + if clean then [] else [th.errno]
    ensures h.Mine() == Closed(old(h.Mine()), fd)
    ensures h.log == old(h.log) + [EvReset(fd, PostReset, answer, {}, tm.now), EvClose(fd, clean)]
  {
    hide Inv;
    var issued;
    issued, answer := IssueReset(th, h, tm, fd, PostReset, dev);
    if !issued {
      r, clean := CloseAndFail(th, h, fd, th.errno);
      return;
    }
    var ok := h.SysClose(th, fd);
    clean := ok;
    r := if ok then TT_OK else TT_ERR;
  }

  lemma Joins(a: seq<Event>, b: seq<Event>, c: seq<Event>)
    ensures a + b + c == a + (b + c)
  {
  }

  lemma ActedJoins(log: seq<Event>, t: Trace)
    requires !t.Refused?
    ensures log + [EvInfo(t.d, !t.NoInfo?)] + Informed(t) == log + Acted(t)
  {
    Joins(log, [EvInfo(t.d, !t.NoInfo?)], Informed(t));
  }

  lemma InformedJoins(log: seq<Event>, t: Trace)
    requires !t.Refused? && !t.NoInfo?
    ensures t.NotReset? ==>
              log + [EvReset(t.d, AsicReset, t.result, {}, t.at)] + [EvClose(t.d, t.clean)] == log + Informed(t)
    ensures !t.NotReset? ==> log + [EvReset(t.d, AsicReset, Some(0), {}, t.at)] + SeenThrough(t) == log + Informed(t)
  {
    hide SeenThrough;
    if t.NotReset? {
      Joins(log, [EvReset(t.d, AsicReset, t.result, {}, t.at)], [EvClose(t.d, t.clean)]);
    } else {
      Joins(log, [EvReset(t.d, AsicReset, Some(0), {}, t.at)], SeenThrough(t));
    }
  }

  lemma EndsEarly(t: Trace, before: seq<Errno>, after: seq<Errno>, e: Errno, now: nat)
    requires t.NoInfo? || t.NotReset?
    requires if t.NoInfo? then Reports(before, after, e) else Rejected(t.result, before, after, e)
    ensures Paced(t, now) && Answers(t, TT_ERR, before, after, e)
  {
  }

  /** The sequence on the acquired descriptor: ASIC reset, completion, the
      firmware delay, post-reset, close. */
  method ResetOn(th: Thread, h: Host, tm: Timer, sess: Session, dev: Dev) returns (r: Code, ghost t: Trace)
    requires h.Valid() && sess.fd >= 0 && OpenExclusive(h.k, h.me, sess.fd, dev)
    modifies th, h`k, h`failed, h`log, tm
    ensures h.Valid() && Later(old(h.k), h.k) && tm.now >= old(tm.now)
    ensures !t.Refused? && t.d == sess.fd && h.log == old(h.log) + Acted(t)
    ensures Paced(t, tm.now) && Answers(t, r, old(h.failed), h.failed, th.errno)
    ensures h.Mine() == Closed(old(h.Mine()), sess.fd)
    ensures |LooksOf(t)| <= 50 + old(tm.signals) - tm.signals
  {
    hide Inv;
    hide SeenThrough;
    hide Acted;
    hide Paced;
    hide Answers;
    var fd := sess.fd;
    ghost var log, failed, clean := h.log, h.failed, true;
    var info;
    r, info := TtDevInfo(th, h, sess);
    if r == TT_ERR {
      r, clean := CloseAndFail(th, h, fd, th.errno);
      t := NoInfo(fd, clean);
      assert Informed(t) == [EvClose(fd, clean)];
      ActedJoins(log, t);
      EndsEarly(t, failed, h.failed, th.errno, tm.now);
      return;
    }
    r, t := ResetInformed(th, h, tm, fd, dev);
    ActedJoins(log, t);
  }

  /** The sequence from the ASIC reset on. */
  method ResetInformed(th: Thread, h: Host, tm: Timer, fd: int, dev: Dev) returns (r: Code, ghost t: Trace)
    requires h.Valid() && fd >= 0 && OpenExclusive(h.k, h.me, fd, dev)
    modifies th, h`k, h`failed, h`log, tm
    ensures h.Valid() && Later(old(h.k), h.k) && tm.now >= old(tm.now)
    ensures !t.Refused? && !t.NoInfo? && t.d == fd && h.log == old(h.log) + Informed(t)
    ensures Paced(t, tm.now) && Answers(t, r, old(h.failed), h.failed, th.errno)
    ensures h.Mine() == Closed(old(h.Mine()), fd)
    ensures |LooksOf(t)| <= 50 + old(tm.signals) - tm.signals
  {
    hide Inv;
    hide Informed;
    hide Paced;
    hide Answers;
    ghost var log, failed, at, clean, answer := h.log, h.failed, tm.now, true, None;
    var accepted;
    accepted, answer := IssueReset(th, h, tm, fd, AsicReset, dev);
    if !accepted {
      r, clean := CloseAndFail(th, h, fd, th.errno);
      t := NotReset(fd, at, answer, clean);
      InformedJoins(log, t);
      EndsEarly(t, failed, h.failed, th.errno, tm.now);
      return;
    }
    r, t := SeeThrough(th, h, tm, fd, dev);
    InformedJoins(log, t);
  }

  /** The sequence from the accepted ASIC reset on. */
  method SeeThrough(th: Thread, h: Host, tm: Timer, fd: int, dev: Dev) returns (r: Code, ghost t: Trace)
    requires h.Valid() && fd >= 0 && OpenExclusive(h.k, h.me, fd, dev)
    modifies th, h`k, h`failed, h`log, tm
    ensures h.Valid() && Later(old(h.k), h.k) && tm.now >= old(tm.now)
    ensures (t.NotDone? || t.Done?) && t.d == fd && t.at == old(tm.now) && h.log == old(h.log) + SeenThrough(t)
    ensures Paced(t, tm.now) && Answers(t, r, old(h.failed), h.failed, th.errno)
    ensures h.Mine() == Closed(old(h.Mine()), fd)
    ensures |LooksOf(t)| <= 50 + old(tm.signals) - tm.signals
  {
    hide Inv;
    ghost var log, at := h.log, tm.now;
    var complete;
    ghost var looks, posted, clean;
    complete, looks := AwaitCompletion(h, tm);
    if !complete {
      r, clean := CloseAndFail(th, h, fd, ETIMEDOUT);
      t := NotDone(fd, at, looks, clean);
      return;
    }
    AwaitFirmware(tm);
    r, posted, clean := FinishReset(th, h, tm, fd, dev);
    t := Done(fd, at, looks, tm.now, posted, clean);
    assert h.log == log + SeenThrough(t);
  }

  method TtReset(th: Thread, h: Host, tm: Timer, dev: Dev) returns (r: Code, ghost t: Trace)
    requires h.Valid()
    modifies th, h`k, h`failed, h`log, tm
    ensures h.Valid() && Later(old(h.k), h.k) && tm.now >= old(tm.now)
    ensures h.log == old(h.log) + Events(dev, t) && Paced(t, tm.now) && Answers(t, r, old(h.failed), h.failed, th.errno)
    ensures |LooksOf(t)| <= 50 + old(tm.signals) - tm.signals
    // Refused: nothing was done.
    ensures t.Refused? ==> r == TT_ERR && h.Mine() == old(h.Mine())
    ensures t.Refused? ==> th.errno == if dev in h.k.present && !MayOpen(h.k, dev, true) then EAGAIN else ENODEV
    // Acquired: one new descriptor, which holds nothing afterwards.
    ensures !t.Refused? ==> Admits(old(h.Mine()), h.k.gone, dev, true) && t.d !in old(h.Mine()).descs
    ensures !t.Refused? ==>
              && h.Mine() == old(h.Mine()).(descs := old(h.Mine()).descs[t.d := Desc(dev, true, false, map[])])
              && !Alive(h.Mine(), t.d)
  {
    assert Paced(Refused, tm.now) && forall a, b, e :: Answers(Refused, TT_ERR, a, b, e);
    hide Inv;
    hide Events;
    hide Acted;
    hide Paced;
    hide Answers;
    ghost var log := h.log;
    Logged(log, dev, Refused);
    var sess;
    r, sess := Acquire(th, h, dev);
    if r == TT_ERR {
      t := Refused;
      return;
    }
    r, t := ResetOn(th, h, tm, sess, dev);
    Logged(log, dev, t);
  }

  /** The exclusive, non-blocking open. */
  method Acquire(th: Thread, h: Host, dev: Dev) returns (r: Code, sess: Session)
    requires h.Valid()
    modifies th, h`k, h`failed, h`log
    ensures h.Valid() && Later(old(h.k), h.k) && fresh(sess)
    ensures h.log == old(h.log) + [EvOpen(dev, true, true, if r == TT_OK then sess.fd else -1)]
    ensures r == TT_ERR ==> h.Mine() == old(h.Mine())
    ensures r == TT_ERR ==> th.errno == if dev in h.k.present && !MayOpen(h.k, dev, true) then EAGAIN else ENODEV
    ensures r == TT_OK ==> h.failed == old(h.failed) && sess.fd >= 0 && OpenExclusive(h.k, h.me, sess.fd, dev)
    ensures r == TT_OK ==> Admits(old(h.Mine()), h.k.gone, dev, true) && sess.fd !in old(h.Mine()).descs
    ensures r == TT_OK ==>
              var p := old(h.Mine()).(descs := old(h.Mine()).descs[sess.fd := Desc(dev, true, false, map[])]);
              Closed(h.Mine(), sess.fd) == p && !Alive(p, sess.fd)
  {
    MineTidy(h);
    hide Inv;
    ghost var p := h.Mine();
    sess := new Session(dev, -1, 0);
    r := TtOpen(th, h, dev, sess, TT_OPEN_EXCL + TT_OPEN_NONBLOCK);
    if r == TT_OK {
      ClosedIsDead(p, sess.fd, dev);
    }
  }

  lemma Logged(log: seq<Event>, dev: Dev, t: Trace)
    ensures log + [EvOpen(dev, true, true, if t.Refused? then -1 else t.d)] + Acted(t) == log + Events(dev, t)
    ensures t.Refused? ==> Acted(t) == [] && log + [EvOpen(dev, true, true, -1)] == log + Events(dev, t)
  {
  }

  /** Resets the session's device, consuming the session on every path. A
      window of the session that is still mapped keeps the old descriptor
      alive, so unless the device was removed meanwhile the reset is refused
      and no reset call is made. */
  method TtResetWith(th: Thread, h: Host, tm: Timer, sess: Session)
    returns (r: Code, ghost closed: bool, ghost t: Trace)
    requires h.Valid() && Bound(h, sess)
    modifies th, h`k, h`failed, h`log, tm, sess`fd
    ensures h.Valid() && Later(old(h.k), h.k)
    ensures old(sess.fd) < 0 ==>
              && r == TT_ERR && th.errno == ENOTCONN
              && h.Mine() == old(h.Mine()) && h.log == old(h.log) && sess.fd == old(sess.fd)
    ensures old(sess.fd) >= 0 ==>
              && sess.fd == -1
              && h.log == old(h.log) + [EvClose(old(sess.fd), closed)] + if closed then Events(sess.dev, t) else []
    ensures !IsOpen(h.Mine(), old(sess.fd))
    ensures old(sess.fd) >= 0 && !closed ==> r == TT_ERR && h.failed == old(h.failed) + [th.errno]
    ensures old(sess.fd) >= 0 && closed ==> Paced(t, tm.now) && Answers(t, r, old(h.failed), h.failed, th.errno)
    ensures old(sess.fd) >= 0 && closed && t.Refused? ==>
              && r == TT_ERR
              && th.errno == if sess.dev in h.k.present && !MayOpen(h.k, sess.dev, true) then EAGAIN else ENODEV
    ensures h.Mine().maps == old(h.Mine()).maps
    ensures old(sess.fd >= 0 && Mapped(h.Mine(), sess.fd)) && closed && old(sess.fd) !in h.k.gone ==>
              t == Refused && r == TT_ERR && th.errno == EAGAIN
  {
    hide Inv;
    hide Events;
    hide Paced;
    hide Answers;
    t, closed := Refused, false;
    if sess.fd < 0 {
      r := th.Fail(ENOTCONN);
      return;
    }
    ghost var fd, p := sess.fd, h.Mine();
    r := TtClose(th, h, sess);
    closed := r == TT_OK;
    assert h.Mine().maps == p.maps && (closed ==> h.failed == old(h.failed));
    if r == TT_ERR {
      sess.fd := -1;
      return;
    }
    r, t := TtReset(th, h, tm, sess.dev);
    if Mapped(p, fd) && fd !in h.k.gone {
      SelfBlocks(h.k, h.me, p, fd, sess.dev);
    }
  }
}
