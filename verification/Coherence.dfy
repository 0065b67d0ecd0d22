/** What a table read while the firmware keeps publishing is worth: when an
    accepted one is from a single cycle, and when it need not be. */
module Coherence {
  import opened Errors
  import opened Kernel
  import opened TagIndex

  /** A word for every cycle and address: what the firmware publishes. */
  type Image = (nat, Target) -> Word

  /** Offset `off` from a window's target. */
  function At(t: Target, off: nat): Target {
    if t.Noc? then t.(addr := t.addr + off) else t
  }

  /** Where a tag's value lives, given its offset. */
  function Cell(t: Target, data: nat, off: nat): Target {
    At(t, data + 4 * off)
  }

  /** The table holds, for every mapped tag that `seen` covers, the value of the
      cycle seen, between `from` and `to`, and zero everywhere else. */
  ghost predicate Filled(image: Image, t: Target, data: nat, m: Index, table: seq<Word>, seen: seq<nat>, from: nat,
          to: nat)
  {
    && |table| == TELEMETRY_LEN && |seen| <= TELEMETRY_LEN
    && forall tag :: 0 <= tag < TELEMETRY_LEN ==>
      if tag < |seen| && m[tag] != UNSET
      then from <= seen[tag] <= to && table[tag] == image(seen[tag], Cell(t, data, m[tag]))
      else table[tag] == 0
  }

  /** A pass with nothing read, one read on, and one that waits. */
  lemma FilledNone(image: Image, t: Target, data: nat, m: Index, table: seq<Word>, seen: seq<nat>, from: nat, to: nat)
    requires |table| == TELEMETRY_LEN && |seen| <= 1 && m[0] == UNSET
            && forall i :: 0 <= i < TELEMETRY_LEN ==> table[i] == 0
    ensures Filled(image, t, data, m, table, seen, from, to)
  {
  }

  lemma FilledNext(image: Image, t: Target, data: nat, m: Index, table: seq<Word>, seen: seq<nat>, from: nat, to: nat,
          g: nat, w: Word)
    requires Filled(image, t, data, m, table, seen, from, to) && |seen| < TELEMETRY_LEN && from <= to <= g
    requires m[|seen|] != UNSET ==> w == image(g, Cell(t, data, m[|seen|]))
    ensures Filled(image, t, data, m, if m[|seen|] != UNSET then table[|seen| := w] else table, seen + [g], from, g)
  {
  }

  lemma FilledLater(image: Image, t: Target, data: nat, m: Index, table: seq<Word>, seen: seq<nat>, from: nat,
          to: nat, later: nat)
    requires Filled(image, t, data, m, table, seen, from, to) && to <= later
    ensures Filled(image, t, data, m, table, seen, from, later)
  {
  }

  /** The table is exactly what the firmware had in cycle `g`. */
  ghost predicate CoherentAt(image: Image, t: Target, data: nat, m: Index, table: seq<Word>, g: nat) {
    |table| == TELEMETRY_LEN && forall tag :: 0 <= tag < TELEMETRY_LEN ==>
      table[tag] == if m[tag] != UNSET then image(g, Cell(t, data, m[tag])) else 0
  }

  /** The firmware's side of the bargain: it counts its publishes at `beat`. */
  ghost predicate Beats(image: Image, beat: Target) {
    forall g: nat :: image(g + 1, beat) == (image(g, beat) + 1) % U32_MOD
  }

  lemma {:induction false} BeatAfter(image: Image, beat: Target, g: nat, n: nat)
    requires Beats(image, beat)
    ensures image(g + n, beat) == (image(g, beat) + n) % U32_MOD
  {
    if n > 0 {
      BeatAfter(image, beat, g, n - 1);
      var h := g + (n - 1);
      assert image(h + 1, beat) == (image(h, beat) + 1) % U32_MOD;
      ModStep(image(g, beat) + (n - 1));
    }
  }

  /** The heartbeat check passes exactly when a whole number of counter
      wraps, possibly none, was published in between. */
  lemma CheckPassesIff(image: Image, beat: Target, first: nat, last: nat)
    requires Beats(image, beat) && first <= last
    ensures image(first, beat) == image(last, beat) <==> (last - first) % U32_MOD == 0
  {
    BeatAfter(image, beat, first, last - first);
    var w, n := image(first, beat), last - first;
    assert (w + n) % U32_MOD == (w + n % U32_MOD) % U32_MOD;
  }

  /** With fewer than 2^32 publishes during the attempt, an accepted attempt
      saw one cycle only. */
  lemma AcceptedIsCoherent(image: Image, t: Target, data: nat, m: Index, table: seq<Word>,
                           seen: seq<nat>, first: nat, last: nat)
    requires m[HEARTBEAT] != UNSET && Beats(image, Cell(t, data, m[HEARTBEAT]))
    requires image(first, Cell(t, data, m[HEARTBEAT])) == image(last, Cell(t, data, m[HEARTBEAT]))
    requires first <= last < first + U32_MOD
    requires |seen| == TELEMETRY_LEN && Filled(image, t, data, m, table, seen, first, last)
    ensures CoherentAt(image, t, data, m, table, first)
  {
    CheckPassesIff(image, Cell(t, data, m[HEARTBEAT]), first, last);
  }

  // ---- exactly when accepted means coherent ----

  /** A table an attempt between cycles `first` and `last` may accept from a
      firmware that keeps its side. */
  ghost predicate Acceptable(image: Image, t: Target, data: nat, m: Index, table: seq<Word>, seen: seq<nat>,
          first: nat, last: nat) {
    && |seen| == TELEMETRY_LEN && Filled(image, t, data, m, table, seen, first, last)
    && (m[HEARTBEAT] != UNSET ==>
          var beat := Cell(t, data, m[HEARTBEAT]); Beats(image, beat) && image(first, beat) == image(last, beat))
  }

  /** The table is from one cycle of the attempt. */
  ghost predicate Coherent(image: Image, t: Target, data: nat, m: Index, table: seq<Word>, first: nat, last: nat) {
    exists g :: first <= g <= last && CoherentAt(image, t, data, m, table, g)
  }

  predicate AtMostOneMapped(m: Index) {
    forall i, j :: 0 <= i < j < TELEMETRY_LEN ==> m[i] == UNSET || m[j] == UNSET
  }

  /** Whatever the index: every table that may be accepted is coherent if and
      only if nothing was published in between, or there is but one value to
      read, or there is a heartbeat and it has not come full circle. */
  lemma CoherentIff(t: Target, data: nat, m: Index, first: nat, last: nat)
    requires first <= last
    ensures (forall image, table, seen :: Acceptable(image, t, data, m, table, seen, first, last) ==>
                                            Coherent(image, t, data, m, table, first, last))
            <==>
            first == last || AtMostOneMapped(m) || (m[HEARTBEAT] != UNSET && (last - first) % U32_MOD != 0)
  {
    if first == last || AtMostOneMapped(m) || (m[HEARTBEAT] != UNSET && (last - first) % U32_MOD != 0) {
      forall image, table, seen | Acceptable(image, t, data, m, table, seen, first, last)
        ensures Coherent(image, t, data, m, table, first, last)
      {
        OneCycleSeen(image, t, data, m, table, seen, first, last);
      }
    } else {
      var i: nat, j: nat :| i < j < TELEMETRY_LEN && m[i] != UNSET && m[j] != UNSET;
      var (image, table, seen) := Torn(t, data, m, first, i);
      TornAccepted(t, data, m, first, last, i, j);
    }
  }

  lemma OneCycleSeen(image: Image, t: Target, data: nat, m: Index, table: seq<Word>, seen: seq<nat>, first: nat,
          last: nat)
    requires first <= last && Acceptable(image, t, data, m, table, seen, first, last)
    requires first == last || AtMostOneMapped(m) || (m[HEARTBEAT] != UNSET && (last - first) % U32_MOD != 0)
    ensures Coherent(image, t, data, m, table, first, last)
  {
    if m[HEARTBEAT] != UNSET && (last - first) % U32_MOD != 0 {
      CheckPassesIff(image, Cell(t, data, m[HEARTBEAT]), first, last);
    } else if first == last {
      assert CoherentAt(image, t, data, m, table, first);
    } else if i: nat :| i < TELEMETRY_LEN && m[i] != UNSET {
      assert forall k :: 0 <= k < TELEMETRY_LEN && k != i ==> m[k] == UNSET;
      assert CoherentAt(image, t, data, m, table, seen[i]);
    } else {
      assert CoherentAt(image, t, data, m, table, first);
    }
  }

  /** A firmware, keeping its side, whose values change with cycles `first` + 1
      and `first` + 2; and what a pass reads of it that sees the second of them
      from just after tag `i` on. */
  function Changing(t: Target, data: nat, m: Index, first: nat): Image {
    (g: nat, a: Target) =>
      if m[HEARTBEAT] != UNSET && a == Cell(t, data, m[HEARTBEAT]) then g % U32_MOD
      else if g <= first then 0 else if g == first + 1 then 1 else 2
  }

  function Torn(t: Target, data: nat, m: Index, first: nat, i: nat): (r: (Image, seq<Word>, seq<nat>))
    requires i < TELEMETRY_LEN
    ensures |r.1| == |r.2| == TELEMETRY_LEN
  {
    var image := Changing(t, data, m, first);
    var seen := seq(TELEMETRY_LEN, k => if k <= i then first else first + 1);
    (image, seq(TELEMETRY_LEN, k requires 0 <= k < TELEMETRY_LEN =>
                  if m[k] != UNSET then image(if k <= i then first else first + 1, Cell(t, data, m[k])) else 0), seen)
  }

  /** Two mapped tags, read in their order from two cycles, make a table that is
      accepted and from no cycle at all. */
  lemma TornAccepted(t: Target, data: nat, m: Index, first: nat, last: nat, i: nat, j: nat)
    requires first < last && i < j < TELEMETRY_LEN && m[i] != UNSET && m[j] != UNSET
    requires m[HEARTBEAT] != UNSET ==> (last - first) % U32_MOD == 0
    ensures var (image, table, seen) := Torn(t, data, m, first, i);
            && Acceptable(image, t, data, m, table, seen, first, last)
            && (forall k, l :: 0 <= k < l < TELEMETRY_LEN ==> seen[k] <= seen[l])
            && !Coherent(image, t, data, m, table, first, last)
  {
    var (image, table, seen) := Torn(t, data, m, first, i);
    if m[HEARTBEAT] != UNSET {
      var beat := Cell(t, data, m[HEARTBEAT]);
      forall g: nat ensures image(g + 1, beat) == (image(g, beat) + 1) % U32_MOD {
        ModStep(g);
      }
      CheckPassesIff(image, beat, first, last);
    }
    forall g: nat | first <= g <= last ensures !CoherentAt(image, t, data, m, table, g) {
      NoCycleHasBoth(t, data, m, first, g, Cell(t, data, m[i]), Cell(t, data, m[j]));
    }
  }

  /** No cycle from `first` on shows one address as of `first` and another, or
      the same, as of the next. */
  lemma NoCycleHasBoth(t: Target, data: nat, m: Index, first: nat, g: nat, a: Target, b: Target)
    requires first <= g
    ensures var image := Changing(t, data, m, first);
            image(g, a) != image(first, a) || image(g, b) != image(first + 1, b)
  {
    ModStep(first);
  }

  /** An accepted table from no cycle of its attempt. */
  ghost predicate Tears(image: Image, t: Target, data: nat, m: Index, table: seq<Word>, seen: seq<nat>, first: nat,
          last: nat) {
    Acceptable(image, t, data, m, table, seen, first, last) && !Coherent(image, t, data, m, table, first, last)
  }

  /** A table without a heartbeat is accepted unchecked: for any two mapped tags
      a publish between their reads tears it, contrary to the promise of
      coherence. */
  lemma NoHeartbeatTears(t: Target, data: nat, m: Index, first: nat, last: nat, i: nat, j: nat)
    requires m[HEARTBEAT] == UNSET && i < j < TELEMETRY_LEN && m[i] != UNSET && m[j] != UNSET && first < last
    ensures exists image, table, seen :: Tears(image, t, data, m, table, seen, first, last)
  {
    TornAccepted(t, data, m, first, last, i, j);
    var (image, table, seen) := Torn(t, data, m, first, i);
    assert Tears(image, t, data, m, table, seen, first, last);
  }

  /** With a heartbeat, 2^32 publishes between its two reads do, or any multiple. */
  lemma WrapTears(t: Target, data: nat, m: Index, first: nat, last: nat, i: nat, j: nat)
    requires m[HEARTBEAT] != UNSET && i < j < TELEMETRY_LEN && m[i] != UNSET && m[j] != UNSET
    requires first < last && (last - first) % U32_MOD == 0
    ensures exists image, table, seen :: Tears(image, t, data, m, table, seen, first, last)
  {
    TornAccepted(t, data, m, first, last, i, j);
    var (image, table, seen) := Torn(t, data, m, first, i);
    assert Tears(image, t, data, m, table, seen, first, last);
  }
}
