/** The monotonic clock: the elapsed-time arithmetic both timed loops use, and
    the clock itself as the environment of those loops. */
module Clock {
  import opened Errors

  const NS_PER_SEC := 1_000_000_000
  const NS_PER_MS := 1_000_000
  const I64_MAX := 0x7fff_ffff_ffff_ffff
  const U64_MOD := 0x1_0000_0000_0000_0000

  datatype Timespec = Timespec(sec: int, nsec: int)

  predicate I64(x: int) {
    -I64_MAX - 1 <= x <= I64_MAX
  }

  predicate Normal(t: Timespec) {
    I64(t.sec) && 0 <= t.nsec < NS_PER_SEC
  }

  /** The point in time a timespec denotes, in unbounded nanoseconds. */
  function Ns(t: Timespec): int {
    t.sec * NS_PER_SEC + t.nsec
  }

  /** C's integer division, which truncates toward zero. */
  function TruncDiv(a: int, b: int): int
    requires b > 0
  {
    if a >= 0 then a / b else -((-a) / b)
  }

  /** Elapsed milliseconds; `None` when a step leaves the signed 64-bit range
      (undefined in C). The final cast to unsigned wraps. */
  function DiffMs(start: Timespec, end: Timespec): Option<nat> {
    var s := end.sec - start.sec;
    var p := s * NS_PER_SEC;
    var ns := p + (end.nsec - start.nsec);
    if I64(s) && I64(p) && I64(ns) then Some(TruncDiv(ns, NS_PER_MS) % U64_MOD) else None
  }

  /** Exactly which ordered intervals the 64-bit arithmetic can measure. */
  lemma DiffDefined(start: Timespec, end: Timespec)
    requires Normal(start) && Normal(end) && Ns(start) <= Ns(end)
    ensures DiffMs(start, end).Some? <==>
            var s := end.sec - start.sec;
            s < 9_223_372_036 || (s == 9_223_372_036 && end.nsec - start.nsec <= 854_775_807)
  {
  }

  /** An ordered interval reads as its whole milliseconds: no wrap, no
      borrow error across a second boundary. */
  lemma DiffIsFloor(start: Timespec, end: Timespec)
    requires Normal(start) && Normal(end) && Ns(start) <= Ns(end)
    requires DiffMs(start, end).Some?
    ensures DiffMs(start, end).value == (Ns(end) - Ns(start)) / NS_PER_MS
  {
  }

  /** A measured interval wraps to a value near 2^64 exactly when it runs
      backwards by at least a whole millisecond. */
  lemma DiffWraps(start: Timespec, end: Timespec)
    requires DiffMs(start, end).Some?
    ensures DiffMs(start, end).value > I64_MAX <==> Ns(end) - Ns(start) <= -NS_PER_MS
  {
  }

  /** Elapsed time never runs backwards as the end point advances. */
  lemma DiffMonotone(start: Timespec, mid: Timespec, end: Timespec)
    requires Normal(start) && Normal(mid) && Normal(end)
    requires Ns(start) <= Ns(mid) <= Ns(end)
    requires DiffMs(start, end).Some?
    ensures DiffMs(start, mid).Some? && DiffMs(start, mid).value <= DiffMs(start, end).value
  {
  }

  /** The points of an ordered chain of adjacent intervals. */
  ghost predicate Chain(ts: seq<Timespec>) {
    && |ts| > 0
    && (forall i :: 0 <= i < |ts| ==> Normal(ts[i]))
    && (forall i :: 0 < i < |ts| ==> Ns(ts[i - 1]) <= Ns(ts[i]))
  }

  lemma {:induction false} ChainOrdered(ts: seq<Timespec>, i: nat)
    requires Chain(ts) && i < |ts|
    ensures Ns(ts[0]) <= Ns(ts[i])
    decreases i
  {
    if i > 0 {
      ChainOrdered(ts, i - 1);
    }
  }

  function SumOfDiffs(ts: seq<Timespec>): int {
    if |ts| < 2 then 0 else
      SumOfDiffs(ts[..|ts| - 1]) + DiffMs(ts[|ts| - 2], ts[|ts| - 1]).GetOr(0)
  }

  /** Measuring n adjacent intervals one by one never overcounts the whole and
      undercounts it by less than n milliseconds. */
  lemma {:induction false} AdjacentIntervals(ts: seq<Timespec>)
    requires Chain(ts) && DiffMs(ts[0], ts[|ts| - 1]).Some?
    ensures SumOfDiffs(ts) <= DiffMs(ts[0], ts[|ts| - 1]).value
    ensures |ts| > 1 ==> DiffMs(ts[0], ts[|ts| - 1]).value < SumOfDiffs(ts) + (|ts| - 1)
  {
    var n := |ts|;
    if n > 1 {
      var first, prev, last := ts[0], ts[n - 2], ts[n - 1];
      ChainOrdered(ts, n - 2);
      DiffMonotone(first, prev, last);
      DiffDefined(first, last);
      DiffDefined(prev, last);
      DiffIsFloor(first, prev);
      DiffIsFloor(prev, last);
      DiffIsFloor(first, last);
      AdjacentIntervals(ts[..n - 1]);
      FloorSplit(Ns(prev) - Ns(first), Ns(last) - Ns(prev));
    }
  }

  lemma FloorSplit(a: nat, b: nat)
    ensures a / NS_PER_MS + b / NS_PER_MS <= (a + b) / NS_PER_MS <= a / NS_PER_MS + b / NS_PER_MS + 1
  {
  }

  /** No single system call or sleep lasts this long (36 years). */
  const STEP_MAX := 0x1000_0000_0000_0000

  /** So many sleeps of so many microseconds. */
  function Naps(n: nat, us: nat): seq<nat> {
    seq(n, _ => us)
  }

  lemma NapsNext(was: seq<nat>, n: nat, us: nat)
    ensures was + Naps(n, us) + [us] == was + Naps(n + 1, us) && was + Naps(0, us) == was
  {
  }

  /** The clock a timed loop runs against. Every call the loop makes takes
      time; a signal may cut a sleep short, and finitely many signals arrive. */
  class Timer {
    var now: nat
    var signals: nat
    ghost var naps: seq<nat>  // the microseconds of each sleep asked for

    constructor (now: nat, signals: nat)
      ensures this.now == now && this.signals == signals && naps == []
    {
      this.now, this.signals, naps := now, signals, [];
    }

    /** A step of the loop takes its time. */
    method Pass()
      modifies this
      ensures old(now) <= now <= old(now) + STEP_MAX
      ensures signals == old(signals) && naps == old(naps)
    {
      var d: nat :| true;
      now := now + d % STEP_MAX;
    }

    /** Sleeps `us` microseconds, unless a signal ends the sleep early. */
    method Sleep(us: nat) returns (full: bool)
      requires us * 1000 <= STEP_MAX
      modifies this
      ensures old(now) <= now <= old(now) + STEP_MAX
      ensures full ==> signals == old(signals) && now >= old(now) + us * 1000
      ensures !full ==> signals + 1 == old(signals)
      ensures naps == old(naps) + [us]
    {
      naps := naps + [us];
      var d: nat :| true;
      var cut: bool :| true;
      if cut && signals > 0 {
        signals := signals - 1;
        now := now + d % STEP_MAX;
        full := false;
      } else {
        now := now + us * 1000 + d % (STEP_MAX + 1 - us * 1000);
        full := true;
      }
    }

    /** nanosleep(2): `left` is what a signal left of the delay. */
    method Nanosleep(ns: nat) returns (left: nat)
      modifies this
      ensures left <= ns && now >= old(now) + ns - left
      ensures signals == old(signals) - (if left > 0 then 1 else 0) && naps == old(naps)
    {
      var d: nat :| true;
      var cut: nat :| true;
      left := if cut <= ns && signals > 0 then cut else 0;
      signals := signals - if left > 0 then 1 else 0;
      now := now + ns - left + d;
    }

    function Read(): (t: Timespec)
      reads this
      ensures Ns(t) == now && 0 <= t.nsec < NS_PER_SEC
    {
      Timespec(now / NS_PER_SEC, now % NS_PER_SEC)
    }

    /** What a timed loop runs into is always measurable. */
    lemma Measurable(start: Timespec)
      requires 0 <= start.nsec < NS_PER_SEC && Ns(start) <= now < Ns(start) + 4 * STEP_MAX
      ensures DiffMs(start, Read()).Some?
    {
      Shifted(start, Read());
    }

    /** `elapsed_ms`: whole milliseconds since `start`, for every interval the
        64-bit arithmetic can measure. */
    method Elapsed(start: Timespec) returns (ms: nat)
      requires 0 <= start.nsec < NS_PER_SEC && Ns(start) <= now && DiffMs(start, Read()).Some?
      ensures ms == (now - Ns(start)) / NS_PER_MS
    {
      Shifted(start, Read());
      ms := DiffMs(start, Read()).value;
    }
  }

  /** Only the interval matters, not where the seconds count from. */
  lemma Shifted(start: Timespec, end: Timespec)
    requires 0 <= start.nsec < NS_PER_SEC && 0 <= end.nsec < NS_PER_SEC && Ns(start) <= Ns(end)
    ensures Ns(end) < Ns(start) + 4 * STEP_MAX ==> DiffMs(start, end).Some?
    ensures DiffMs(start, end).Some? ==> DiffMs(start, end).value == (Ns(end) - Ns(start)) / NS_PER_MS
  {
    var zero, shifted := Timespec(0, start.nsec), Timespec(end.sec - start.sec, end.nsec);
    assert Ns(shifted) - Ns(zero) == Ns(end) - Ns(start) && shifted.sec >= 0;
    assert DiffMs(start, end) == DiffMs(zero, shifted);
    if I64(shifted.sec) {
      DiffDefined(zero, shifted);
      if DiffMs(start, end).Some? {
        DiffIsFloor(zero, shifted);
      }
    }
  }
}
