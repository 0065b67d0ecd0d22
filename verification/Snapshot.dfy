/** Reading the firmware's telemetry table through a guarded window while the
    firmware keeps publishing, and what a snapshot accepted is worth. */
module Snapshots {
  import opened Errors
  import opened Kernel
  import opened Hosts
  import opened Traps
  import opened TagIndex
  import opened Coherence

  const TLB_2MB := 0x20_0000
  const CSM_SIZE := 0x8_0000

  /** What the firmware has published: `image(g, a)` is the word at address `a`
      in cycle `g`. A host read sees one cycle, the cycles seen never go back. */
  class Firmware {
    const image: Image
    var gen: nat
    ghost var trail: seq<Access>

    constructor (image: Image)
      ensures this.image == image && gen == 0 && trail == []
    {
      this.image, gen, trail := image, 0, [];
    }
  }

  /** A window read: the device address, where and under which guard, and the
      cycle it saw; none when it faulted. */
  datatype Access = Access(at: Target, addr: Addr, base: Addr, len: nat, cycle: Option<nat>)

  /** The read at offset `off` of the window at `base`, pointed at `t`. */
  function Read(t: Target, base: Addr, off: nat, cycle: Option<nat>): Access {
    Access(At(t, off), base + off, base, TLB_2MB, cycle)
  }

  predicate Inside(a: Access, base: Addr) {
    a.base == base && a.len == TLB_2MB && base <= a.addr && a.addr + 4 <= base + TLB_2MB
  }

  /** Reads made since `before`, all inside the window armed at `base`. */
  ghost predicate AllInside(before: seq<Access>, after: seq<Access>, base: Addr) {
    |before| <= |after| && after[..|before|] == before && forall i :: |before| <= i < |after| ==> Inside(after[i], base)
  }

  lemma InsideJoins(a: seq<Access>, b: seq<Access>, c: seq<Access>, base: Addr)
    requires AllInside(a, b, base) && AllInside(b, c, base)
    ensures AllInside(a, c, base)
  {
    assert c[..|a|] == c[..|b|][..|a|];
    forall i | |a| <= i < |c| ensures Inside(c[i], base) {
      if i < |b| {
        assert c[..|b|][i] == b[i];
      }
    }
  }

  /** Since `before` exactly these reads were made, and after them, if `fault`,
      one that faulted. */
  ghost predicate Trailed(before: seq<Access>, after: seq<Access>, made: seq<Access>, fault: bool) {
    if fault then
      |after| == |before| + |made| + 1 && after[..|after| - 1] == before + made && after[|after| - 1].cycle.None?
    else after == before + made
  }

  lemma TrailStarts(a: seq<Access>)
    ensures Trailed(a, a, [], false) && forall base :: AllInside(a, a, base)
  {
  }

  lemma TrailOne(a: seq<Access>, r: Access)
    ensures if r.cycle.Some? then Trailed(a, a + [r], [r], false) else Trailed(a, a + [r], [], true)
  {
  }

  lemma TrailJoins(a: seq<Access>, b: seq<Access>, c: seq<Access>, made: seq<Access>, more: seq<Access>, fault: bool)
    requires Trailed(a, b, made, false) && Trailed(b, c, more, fault)
    ensures Trailed(a, c, made + more, fault) && (more == [] ==> Trailed(a, c, made, fault))
  {
    assert a + made + more == a + (made + more);
  }

  /** Some read since `before` faulted. */
  ghost predicate Faults(before: seq<Access>, after: seq<Access>) {
    exists i :: |before| <= i < |after| && after[i].cycle.None?
  }

  /** These reads all went through. */
  ghost predicate Saw(made: seq<Access>) {
    forall i :: 0 <= i < |made| ==> made[i].cycle.Some?
  }

  lemma FaultsIff(before: seq<Access>, after: seq<Access>, made: seq<Access>, fault: bool)
    requires Trailed(before, after, made, fault) && Saw(made)
    ensures Faults(before, after) <==> fault
  {
    if fault {
      assert after[|after| - 1].cycle.None?;
    } else {
      assert forall i :: |before| <= i < |after| ==> after[i] == made[i - |before|];
    }
  }

  lemma FaultsJoin(a: seq<Access>, b: seq<Access>, c: seq<Access>)
    requires |a| <= |b| <= |c| && c[..|b|] == b
    ensures Faults(a, c) <==> Faults(a, b) || Faults(b, c)
  {
    assert forall i :: 0 <= i < |b| ==> c[i] == c[..|b|][i] == b[i];
    if Faults(a, b) {
      var i :| |a| <= i < |b| && b[i].cycle.None?;
      assert c[i].cycle.None?;
    }
  }

  /** This process has a 2 MB window at `base`, pointed at `t`. */
  ghost predicate Window(p: Proc, base: Addr, t: Target) {
    && base != 0 && base in p.maps && p.maps[base].len == TLB_2MB && p.maps[base].desc in p.descs
    && p.maps[base].tlb in p.descs[p.maps[base].desc].tlbs
    && p.descs[p.maps[base].desc].tlbs[p.maps[base].tlb] == t && t.Noc?
  }

  /** The guard is armed over that window. */
  ghost predicate Guarded(h: Host, tr: Trap, base: Addr, t: Target)
    reads h`k, tr
  {
    h.Valid() && Window(h.Mine(), base, t) && tr.armedPtr == base && tr.armedLen == TLB_2MB
  }

  /** A volatile 32-bit read at `base + off`. A reset in the meantime has taken
      the mapping away: the access faults, and the guard recovers it. */
  method Load(h: Host, tr: Trap, fw: Firmware, base: Addr, t: Target, off: nat) returns (w: Option<Word>)
    requires Guarded(h, tr, base, t) && off + 4 <= TLB_2MB
    modifies h`k, tr`armedPtr, fw`gen, fw`trail
    ensures h.Valid() && Frame(old(h.k), h.k, h.me) && fw.gen >= old(fw.gen)
    ensures AllInside(old(fw.trail), fw.trail, base)
    ensures Trailed(old(fw.trail), fw.trail, if w.Some? then [Read(t, base, off, Some(fw.gen))] else [], w.None?)
    ensures w.Some? ==> Guarded(h, tr, base, t) && w.value == fw.image(fw.gen, At(t, off))
    ensures w.None? ==> tr.armedPtr == 0
  {
    h.Interfere();
    hide Inv;
    if h.k.procs[h.me].maps[base].desc in h.k.severed {
      var byte: nat :| byte < 4;
      var v := tr.Deliver(base + off + byte);
      assert v == Jump;
      w := None;
    } else {
      var published: nat :| true;
      fw.gen := fw.gen + published;
      w := Some(fw.image(fw.gen, At(t, off)));
    }
    TrailOne(fw.trail, Read(t, base, off, if w.Some? then Some(fw.gen) else None));
    fw.trail := fw.trail + [Read(t, base, off, if w.Some? then Some(fw.gen) else None)];
  }

  // ---- building the index ----

  /** Entry `i` of the tag table as the firmware had it in cycle `g`. */
  function Entry(image: Image, t: Target, tags: nat, i: nat, g: nat): Word {
    image(g, At(t, tags + 4 * (2 + i)))
  }

  /** How far the index came: complete, refused, or cut short by a fault. */
  datatype Progress = Done | Refused | Trapped

  /** The entries an index was built from, each as of the cycle it was read in. */
  ghost predicate ReadEntries(image: Image, t: Target, tags: nat, entries: seq<Word>, at: seq<nat>, from: nat,
          to: nat) {
    && |at| == |entries| <= ENTRY_CAP
    && forall i :: 0 <= i < |entries| ==> from <= at[i] <= to && entries[i] == Entry(image, t, tags, i, at[i])
  }

  /** The reads an index is built with: the count, if it came that far, and the
      entries. */
  function IndexTrail(t: Target, base: Addr, tags: nat, counted: Option<nat>, at: seq<nat>): seq<Access> {
    if counted.None? then [] else [Read(t, base, tags + 4, counted)] + EntryTrail(t, base, tags, at)
  }

  function EntryTrail(t: Target, base: Addr, tags: nat, at: seq<nat>): seq<Access> {
    seq(|at|, i requires 0 <= i < |at| => Read(t, base, tags + 4 * (2 + i), Some(at[i])))
  }

  lemma IndexTrailNext(t: Target, base: Addr, tags: nat, counted: Option<nat>, at: seq<nat>, g: nat)
    requires counted.Some?
    ensures IndexTrail(t, base, tags, counted, at + [g]) ==
            IndexTrail(t, base, tags, counted, at) + [Read(t, base, tags + 4 * (2 + |at|), Some(g))]
  {
    var past, next := EntryTrail(t, base, tags, at), Read(t, base, tags + 4 * (2 + |at|), Some(g));
    assert EntryTrail(t, base, tags, at + [g]) == past + [next];
    hide EntryTrail;
    hide Read;
    assert [Read(t, base, tags + 4, counted)] + past + [next] == [Read(t, base, tags + 4, counted)] + (past + [next]);
  }

  /** The number of entries the firmware's count asks for. */
  function Asked(image: Image, t: Target, tags: nat, counted: nat): nat {
    var count := image(counted, At(t, tags + 4));
    if count > ENTRY_CAP then ENTRY_CAP else count
  }

  /** The last of the entries is the first that clashes with an earlier one. */
  ghost predicate Clashing(entries: seq<Word>) {
    entries != [] && Build(entries).None? && Build(entries[..|entries| - 1]).Some?
  }

  method ReadIndex(th: Thread, h: Host, tr: Trap, fw: Firmware, base: Addr, t: Target, tags: nat, map_: array<nat>)
    returns (o: Progress, ghost entries: seq<Word>, ghost at: seq<nat>, ghost counted: Option<nat>)
    requires Guarded(h, tr, base, t) && tags < CSM_SIZE
    requires map_[..] == Blank()
    modifies th, h`k, tr`armedPtr, fw`gen, fw`trail, map_
    ensures h.Valid() && Frame(old(h.k), h.k, h.me) && fw.gen >= old(fw.gen)
    ensures AllInside(old(fw.trail), fw.trail, base)
    ensures Trailed(old(fw.trail), fw.trail, IndexTrail(t, base, tags, counted, at), o == Trapped)
    ensures ReadEntries(fw.image, t, tags, entries, at, old(fw.gen), fw.gen)
    ensures counted.Some? ==> old(fw.gen) <= counted.value <= fw.gen
    ensures o != Trapped ==> Guarded(h, tr, base, t)
    ensures o == Trapped ==> tr.armedPtr == 0
    ensures o == Trapped ==> counted.None? || |entries| < Asked(fw.image, t, tags, counted.value)
    ensures o == Refused ==>
              && th.errno == EIO && Clashing(entries)
              && counted.Some? && |entries| <= Asked(fw.image, t, tags, counted.value)
    ensures o == Done ==>
              counted.Some? && Build(entries) == Some(map_[..]) && |entries| == Asked(fw.image, t, tags, counted.value)
  {
    hide Inv;
    hide Build;
    hide Clashing;
    hide AllInside;
    hide Trailed;
    BuildStep([], 0);
    ghost var trail := fw.trail;
    entries, at, counted := [], [], None;
    var word := Load(h, tr, fw, base, t, tags + 4);
    if word.None? {
      return Trapped, entries, at, counted;
    }
    counted := Some(fw.gen);
    assert IndexTrail(t, base, tags, counted, at) == [Read(t, base, tags + 4, counted)];
    hide IndexTrail;
    var count := if word.value > ENTRY_CAP then ENTRY_CAP else word.value;
    var idx := 0;
    while idx < count
      invariant idx <= count == Asked(fw.image, t, tags, counted.value) && |entries| == idx
      invariant Guarded(h, tr, base, t) && Frame(old(h.k), h.k, h.me)
      invariant old(fw.gen) <= counted.value <= fw.gen
      invariant AllInside(trail, fw.trail, base)
              && Trailed(trail, fw.trail, IndexTrail(t, base, tags, counted, at), false)
      invariant ReadEntries(fw.image, t, tags, entries, at, old(fw.gen), fw.gen)
      invariant Build(entries) == Some(map_[..])
    {
      ghost var before := fw.trail;
      word := Load(h, tr, fw, base, t, tags + 4 * (2 + idx));
      InsideJoins(trail, before, fw.trail, base);
      TrailJoins(trail, before, fw.trail, IndexTrail(t, base, tags, counted, at),
                 if word.None? then [] else [Read(t, base, tags + 4 * (2 + idx), Some(fw.gen))], word.None?);
      if word.None? {
        return Trapped, entries, at, counted;
      }
      var entry := word.value;
      IndexTrailNext(t, base, tags, counted, at, fw.gen);
      var entered := TakeIn(th, map_, entry, entries);
      entries, at := entries + [entry], at + [fw.gen];
      idx := idx + 1;
      if !entered {
        return Refused, entries, at, counted;
      }
    }
    o := Done;
  }

  /** One step of the construction. */
  method TakeIn(th: Thread, map_: array<nat>, entry: Word, ghost entries: seq<Word>) returns (ok: bool)
    requires Build(entries) == Some(map_[..])
    modifies th, map_
    ensures ok ==> Build(entries + [entry]) == Some(map_[..])
    ensures !ok ==> Clashing(entries + [entry]) && th.errno == EIO
  {
    BuildStep(entries, entry);
    assert (entries + [entry])[..|entries|] == entries;
    hide Build;
    var tag, off := Tag(entry), Off(entry);
    if tag == 0 || tag >= TELEMETRY_LEN {
      return true;
    }
    if map_[tag] != UNSET {
      var _ := th.Fail(EIO);
      return false;
    }
    map_[tag] := off;
    ok := true;
  }

  // ---- reading the table ----

  /** One pass over the table: the cycles of the two heartbeat reads and of the
      values, for the tags below `|seen|`. Before the pass has got past its first
      heartbeat read, `seen` is empty. */
  datatype Pass = Pass(first: nat, seen: seq<nat>, last: nat)

  /** The reads of the values below `|seen|`, in tag order. */
  function ValueTrail(t: Target, base: Addr, data: nat, m: Index, seen: seq<nat>): seq<Access>
    requires |seen| <= TELEMETRY_LEN
  {
    if |seen| <= 1 then [] else
      var tag := |seen| - 1;
      ValueTrail(t, base, data, m, seen[..tag])
      + if m[tag] != UNSET then [Read(t, base, data + 4 * m[tag], Some(seen[tag]))] else []
  }

  lemma ValueTrailNext(t: Target, base: Addr, data: nat, m: Index, seen: seq<nat>, g: nat)
    requires 1 <= |seen| < TELEMETRY_LEN
    ensures ValueTrail(t, base, data, m, seen + [g]) ==
            ValueTrail(t, base, data, m, seen)
            + if m[|seen|] != UNSET then [Read(t, base, data + 4 * m[|seen|], Some(g))] else []
    ensures m[|seen|] == UNSET ==> ValueTrail(t, base, data, m, seen + [g]) == ValueTrail(t, base, data, m, seen)
  {
    assert (seen + [g])[..|seen|] == seen;
  }

  function BeatRead(t: Target, base: Addr, data: nat, m: Index, g: nat): seq<Access> {
    if m[HEARTBEAT] != UNSET then [Read(t, base, data + 4 * m[HEARTBEAT], Some(g))] else []
  }

  /** The reads of a pass up to its last value, and of a whole pass. */
  function PassTrail(t: Target, base: Addr, data: nat, m: Index, p: Pass): seq<Access>
    requires |p.seen| <= TELEMETRY_LEN
  {
    if p.seen == [] then [] else BeatRead(t, base, data, m, p.first) + ValueTrail(t, base, data, m, p.seen)
  }

  function WholePass(t: Target, base: Addr, data: nat, m: Index, p: Pass): seq<Access>
    requires |p.seen| <= TELEMETRY_LEN
  {
    PassTrail(t, base, data, m, p) + BeatRead(t, base, data, m, p.last)
  }

  /** How an attempt ended: accepted, mismatched, or cut short by a fault. */
  datatype Attempted = Accepted | Mismatched | Faulted

  /** Reads every mapped tag's value, in tag order, after a first read in cycle
      `first`; `seen` shows how far a faulted pass got. */
  method ReadValues(h: Host, tr: Trap, fw: Firmware, base: Addr, t: Target, data: nat, map_: array<nat>,
          table: array<Word>, ghost first: nat)
    returns (ok: bool, ghost seen: seq<nat>)
    requires Guarded(h, tr, base, t) && data < CSM_SIZE && map_ as object != table as object && first <= fw.gen
    requires map_.Length == table.Length == TELEMETRY_LEN && map_[0] == UNSET
    requires forall i :: 0 <= i < TELEMETRY_LEN ==> map_[i] <= UNSET && table[i] == 0
    modifies h`k, tr`armedPtr, fw`gen, fw`trail, table
    ensures h.Valid() && Frame(old(h.k), h.k, h.me) && fw.gen >= old(fw.gen)
    ensures AllInside(old(fw.trail), fw.trail, base)
    ensures 1 <= |seen| <= TELEMETRY_LEN && (ok <==> |seen| == TELEMETRY_LEN)
    ensures Trailed(old(fw.trail), fw.trail, ValueTrail(t, base, data, map_[..], seen), !ok)
    ensures if ok then Guarded(h, tr, base, t) else tr.armedPtr == 0
    ensures Filled(fw.image, t, data, map_[..], table[..], seen, first, fw.gen)
  {
    hide Inv;
    hide AllInside;
    hide Trailed;
    hide Filled;
    ghost var m: Index, trail := map_[..], fw.trail;
    seen := [0];
    FilledNone(fw.image, t, data, m, table[..], seen, first, fw.gen);
    TrailStarts(trail);
    assert ValueTrail(t, base, data, m, [0]) == [];
    hide ValueTrail;
    var tag := 1;
    while tag < TELEMETRY_LEN
      invariant 1 <= tag == |seen| <= TELEMETRY_LEN && map_[..] == m
      invariant Guarded(h, tr, base, t) && Frame(old(h.k), h.k, h.me)
      invariant first <= fw.gen && old(fw.gen) <= fw.gen
      invariant AllInside(trail, fw.trail, base) && Trailed(trail, fw.trail, ValueTrail(t, base, data, m, seen), false)
      invariant Filled(fw.image, t, data, m, table[..], seen, first, fw.gen)
    {
      ghost var gen, was, w := fw.gen, table[..], 0;
      if map_[tag] != UNSET {
        ghost var before := fw.trail;
        var word := Load(h, tr, fw, base, t, data + 4 * map_[tag]);
        InsideJoins(trail, before, fw.trail, base);
        TrailJoins(trail, before, fw.trail, ValueTrail(t, base, data, m, seen),
                   if word.None? then [] else [Read(t, base, data + 4 * m[tag], Some(fw.gen))], word.None?);
        if word.None? {
          FilledLater(fw.image, t, data, m, was, seen, first, gen, fw.gen);
          return false, seen;
        }
        table[tag] := word.value;
        w := word.value;
        assert table[..] == was[tag := w];
      }
      FilledNext(fw.image, t, data, m, was, seen, first, gen, fw.gen, w);
      ValueTrailNext(t, base, data, m, seen, fw.gen);
      seen := seen + [fw.gen];
      tag := tag + 1;
    }
    ok := true;
  }

  /** Reads the heartbeat, if the index maps it. */
  method Tick(h: Host, tr: Trap, fw: Firmware, base: Addr, t: Target, data: nat, map_: array<nat>)
    returns (ok: bool, beat: Word)
    requires Guarded(h, tr, base, t) && data < CSM_SIZE && map_.Length == TELEMETRY_LEN
    requires forall i :: 0 <= i < TELEMETRY_LEN ==> map_[i] <= UNSET
    modifies h`k, tr`armedPtr, fw`gen, fw`trail
    ensures h.Valid() && Frame(old(h.k), h.k, h.me) && fw.gen >= old(fw.gen)
    ensures AllInside(old(fw.trail), fw.trail, base)
    ensures Trailed(old(fw.trail), fw.trail, if ok then BeatRead(t, base, data, map_[..], fw.gen) else [], !ok)
    ensures ok && map_[HEARTBEAT] != UNSET ==> beat == fw.image(fw.gen, Cell(t, data, map_[HEARTBEAT]))
    ensures if ok then Guarded(h, tr, base, t) else tr.armedPtr == 0
    ensures map_[HEARTBEAT] == UNSET ==> ok && fw.gen == old(fw.gen)
  {
    hide Inv;
    hide AllInside;
    TrailStarts(fw.trail);
    ok, beat := true, 0;
    if map_[HEARTBEAT] != UNSET {
      var word := Load(h, tr, fw, base, t, data + 4 * map_[HEARTBEAT]);
      if word.None? {
        return false, 0;
      }
      beat := word.value;
    }
  }

  /** One attempt, and what of a pass it made. */
  method Attempt(h: Host, tr: Trap, fw: Firmware, base: Addr, t: Target, data: nat, map_: array<nat>,
          table: array<Word>)
    returns (o: Attempted, ghost p: Pass)
    requires Guarded(h, tr, base, t) && data < CSM_SIZE && map_ as object != table as object
    requires map_.Length == table.Length == TELEMETRY_LEN && map_[0] == UNSET
    requires forall i :: 0 <= i < TELEMETRY_LEN ==> map_[i] <= UNSET && table[i] == 0
    modifies h`k, tr`armedPtr, fw`gen, fw`trail, table
    ensures h.Valid() && Frame(old(h.k), h.k, h.me)
    ensures AllInside(old(fw.trail), fw.trail, base)
    ensures |p.seen| <= TELEMETRY_LEN && (o != Faulted ==> |p.seen| == TELEMETRY_LEN)
    ensures Trailed(old(fw.trail), fw.trail,
                    if o == Faulted then PassTrail(t, base, data, map_[..], p)
                    else WholePass(t, base, data, map_[..], p),
                    o == Faulted)
    ensures old(fw.gen) <= p.first <= p.last == fw.gen
    ensures if o == Faulted then tr.armedPtr == 0 else Guarded(h, tr, base, t)
    ensures Filled(fw.image, t, data, map_[..], table[..], p.seen, p.first, p.last)
    ensures o != Faulted && map_[HEARTBEAT] != UNSET ==>
              var beat := Cell(t, data, map_[HEARTBEAT]);
              o == Accepted <==> fw.image(p.first, beat) == fw.image(p.last, beat)
    ensures o == Mismatched ==> map_[HEARTBEAT] != UNSET
  {
    hide Inv;
    hide AllInside;
    hide Trailed;
    hide Filled;
    hide ValueTrail;
    hide BeatRead;
    hide Cell;
    ghost var m: Index, trail := map_[..], fw.trail;
    var ok, tick, tock;
    ok, tick := Tick(h, tr, fw, base, t, data, map_);
    p := Pass(fw.gen, [], fw.gen);
    FilledNone(fw.image, t, data, m, table[..], [], p.first, p.last);
    if !ok {
      return Faulted, p;
    }
    ghost var begun, seen := fw.trail, [];
    ok, seen := ReadValues(h, tr, fw, base, t, data, map_, table, p.first);
    p := Pass(p.first, seen, fw.gen);
    InsideJoins(trail, begun, fw.trail, base);
    TrailJoins(trail, begun, fw.trail, BeatRead(t, base, data, m, p.first), ValueTrail(t, base, data, m, seen), !ok);
    if !ok {
      return Faulted, p;
    }
    ghost var read, gen := fw.trail, fw.gen;
    ok, tock := Tick(h, tr, fw, base, t, data, map_);
    p := p.(last := fw.gen);
    InsideJoins(trail, read, fw.trail, base);
    FilledLater(fw.image, t, data, m, table[..], p.seen, p.first, gen, p.last);
    TrailJoins(trail, read, fw.trail, PassTrail(t, base, data, m, p),
               if ok then BeatRead(t, base, data, m, p.last) else [], !ok);
    if !ok {
      return Faulted, p;
    }
    o := if map_[HEARTBEAT] == UNSET || tick == tock then Accepted else Mismatched;
  }

  // ---- a whole snapshot ----

  /** What a snapshot read: through the window at `base` the count and the
      entries, each in its cycle, and with the index `m` made of them the passes
      that missed and the one after these. */
  datatype Reading = Reading(base: Addr, counted: Option<nat>, entries: seq<Word>, at: seq<nat>, m: Index,
          misses: seq<Pass>, pass: Pass)

  function NothingRead(base: Addr, gen: nat): Reading {
    Reading(base, None, [], [], Blank(), [], Pass(gen, [], gen))
  }

  /** The entries are all that the count asked for, and make the index. */
  ghost predicate Indexed(image: Image, t: Target, tags: nat, rd: Reading, from: nat, to: nat) {
    && ReadEntries(image, t, tags, rd.entries, rd.at, from, to)
    && rd.counted.Some? && from <= rd.counted.value <= to && |rd.entries| == Asked(image, t, tags, rd.counted.value)
    && Build(rd.entries) == Some(rd.m)
  }

  /** Passes, one after the other, whose two heartbeat reads differed. */
  ghost predicate Missed(image: Image, beat: Target, misses: seq<Pass>, from: nat, to: nat) {
    && from <= to
    && (forall i :: 0 <= i < |misses| ==>
          |misses[i].seen| == TELEMETRY_LEN && from <= misses[i].first <= misses[i].last <= to)
    && (forall i :: 0 <= i < |misses| ==> image(misses[i].first, beat) != image(misses[i].last, beat))
    && (forall i, j :: 0 <= i < j < |misses| ==> misses[i].last <= misses[j].first)
  }

  /** So far the index, and passes that missed. */
  ghost predicate Tried(image: Image, t: Target, tags: nat, data: nat, rd: Reading, from: nat, to: nat) {
    && Indexed(image, t, tags, rd, from, to) && |rd.misses| <= 3 && (rd.misses != [] ==> rd.m[HEARTBEAT] != UNSET)
    && Missed(image, Cell(t, data, rd.m[HEARTBEAT]), rd.misses, from, to)
  }

  /** The table as a snapshot that did not fail leaves it. */
  ghost predicate Complete(image: Image, t: Target, tags: nat, data: nat, table: seq<Word>, rd: Reading, from: nat,
          to: nat) {
    && Tried(image, t, tags, data, rd, from, rd.pass.first) && rd.pass.first <= rd.pass.last <= to
    && |rd.pass.seen| == TELEMETRY_LEN
    && Filled(image, t, data, rd.m, table, rd.pass.seen, rd.pass.first, rd.pass.last)
    && (rd.m[HEARTBEAT] != UNSET ==>
          var beat := Cell(t, data, rd.m[HEARTBEAT]);
          && image(rd.pass.first, beat) == image(rd.pass.last, beat)
          && (Beats(image, beat) && rd.pass.last - rd.pass.first < U32_MOD ==>
                CoherentAt(image, t, data, rd.m, table, rd.pass.first)))
  }

  /** The table as a fault leaves it: all zeros while the index is not finished,
      and then values of mapped tags read in the current pass, and zeros. */
  ghost predicate Partial(image: Image, t: Target, tags: nat, data: nat, table: seq<Word>, rd: Reading, from: nat,
          to: nat) {
    if rd.counted.None? || |rd.entries| < Asked(image, t, tags, rd.counted.value) then
      |table| == TELEMETRY_LEN && Zero(table) && rd.misses == [] && rd.pass.seen == []
    else
      && Tried(image, t, tags, data, rd, from, rd.pass.first) && |rd.misses| < 3 && rd.pass.first <= rd.pass.last <= to
      && Filled(image, t, data, rd.m, table, rd.pass.seen, rd.pass.first, rd.pass.last)
  }

  /** The counted entries have a clash, and were read up to it. */
  ghost predicate Clashed(image: Image, t: Target, tags: nat, rd: Reading, from: nat, to: nat) {
    && ReadEntries(image, t, tags, rd.entries, rd.at, from, to) && Clashing(rd.entries)
    && rd.counted.Some? && from <= rd.counted.value <= to && |rd.entries| <= Asked(image, t, tags, rd.counted.value)
  }

  /** Why a snapshot was refused: the tag table has a clash, or the heartbeat
      moved in each of three passes. */
  ghost predicate Unreadable(image: Image, t: Target, tags: nat, data: nat, rd: Reading, from: nat, to: nat) {
    || (Clashed(image, t, tags, rd, from, to) && rd.misses == [])
    || (Tried(image, t, tags, data, rd, from, to) && |rd.misses| == 3)
  }

  function MissTrail(t: Target, base: Addr, data: nat, m: Index, misses: seq<Pass>): seq<Access>
    requires forall i :: 0 <= i < |misses| ==> |misses[i].seen| <= TELEMETRY_LEN
  {
    if misses == [] then [] else
      MissTrail(t, base, data, m, misses[..|misses| - 1]) + WholePass(t, base, data, m, misses[|misses| - 1])
  }

  lemma MissTrailNext(t: Target, base: Addr, data: nat, m: Index, misses: seq<Pass>, p: Pass)
    requires |p.seen| <= TELEMETRY_LEN && forall i :: 0 <= i < |misses| ==> |misses[i].seen| <= TELEMETRY_LEN
    ensures MissTrail(t, base, data, m, misses + [p]) ==
            MissTrail(t, base, data, m, misses) + WholePass(t, base, data, m, p)
  {
    assert (misses + [p])[..|misses|] == misses;
  }

  ghost predicate Sized(rd: Reading) {
    |rd.pass.seen| <= TELEMETRY_LEN && forall i :: 0 <= i < |rd.misses| ==> |rd.misses[i].seen| <= TELEMETRY_LEN
  }

  /** The reads up to the current pass; with it as far as it goes, when the
      snapshot was cut short; and with the whole of it, when it was accepted. */
  ghost function TriedTrail(t: Target, tags: nat, data: nat, rd: Reading): seq<Access>
    requires Sized(rd)
  {
    IndexTrail(t, rd.base, tags, rd.counted, rd.at) + MissTrail(t, rd.base, data, rd.m, rd.misses)
  }

  ghost function CutTrail(t: Target, tags: nat, data: nat, rd: Reading): seq<Access>
    requires Sized(rd)
  {
    TriedTrail(t, tags, data, rd) + PassTrail(t, rd.base, data, rd.m, rd.pass)
  }

  ghost function FullTrail(t: Target, tags: nat, data: nat, rd: Reading): seq<Access>
    requires Sized(rd)
  {
    TriedTrail(t, tags, data, rd) + WholePass(t, rd.base, data, rd.m, rd.pass)
  }

  /** The reads of a snapshot, but for the one that may have cut it short. */
  lemma SnapshotSaw(t: Target, tags: nat, data: nat, rd: Reading)
    requires Sized(rd)
    ensures Saw(TriedTrail(t, tags, data, rd)) && Saw(CutTrail(t, tags, data, rd)) && Saw(FullTrail(t, tags, data, rd))
  {
    hide PassTrail;
    hide WholePass;
    MissesSaw(t, rd.base, data, rd.m, rd.misses);
    PassSaw(t, rd.base, data, rd.m, rd.pass);
  }

  lemma {:induction false} ValuesSaw(t: Target, base: Addr, data: nat, m: Index, seen: seq<nat>)
    requires |seen| <= TELEMETRY_LEN
    ensures Saw(ValueTrail(t, base, data, m, seen))
    decreases |seen|
  {
    if |seen| > 1 {
      ValuesSaw(t, base, data, m, seen[..|seen| - 1]);
    }
  }

  lemma PassSaw(t: Target, base: Addr, data: nat, m: Index, p: Pass)
    requires |p.seen| <= TELEMETRY_LEN
    ensures Saw(PassTrail(t, base, data, m, p)) && Saw(WholePass(t, base, data, m, p))
  {
    hide ValueTrail;
    ValuesSaw(t, base, data, m, p.seen);
  }

  lemma {:induction false} MissesSaw(t: Target, base: Addr, data: nat, m: Index, misses: seq<Pass>)
    requires forall i :: 0 <= i < |misses| ==> |misses[i].seen| <= TELEMETRY_LEN
    ensures Saw(MissTrail(t, base, data, m, misses))
    decreases |misses|
  {
    if misses != [] {
      hide WholePass;
      MissesSaw(t, base, data, m, misses[..|misses| - 1]);
      PassSaw(t, base, data, m, misses[|misses| - 1]);
    }
  }

  lemma MissedAgain(image: Image, beat: Target, misses: seq<Pass>, from: nat, to: nat, p: Pass)
    requires Missed(image, beat, misses, from, to) && to <= p.first <= p.last
            && image(p.first, beat) != image(p.last, beat)
    requires |p.seen| == TELEMETRY_LEN
    ensures Missed(image, beat, misses + [p], from, p.last)
  {
  }

  lemma {:induction false} MissesTakePublishes(image: Image, beat: Target, misses: seq<Pass>, from: nat, to: nat)
    requires Missed(image, beat, misses, from, to)
    ensures to >= from + |misses|
    decreases |misses|
  {
    if misses != [] {
      var n := |misses| - 1;
      MissesTakePublishes(image, beat, misses[..n], from, misses[n].first);
    }
  }

  /** A firmware that publishes less than three times during the call is
      refused for a clash only. */
  lemma RefusedOnlyIfBusy(image: Image, t: Target, tags: nat, data: nat, rd: Reading, from: nat, to: nat)
    requires Unreadable(image, t, tags, data, rd, from, to)
    ensures to >= from + 3 || exists i, j :: Clash(rd.entries, i, j)
  {
    IndexMeaning(rd.entries);
    if Build(rd.entries).Some? {
      MissesTakePublishes(image, Cell(t, data, rd.m[HEARTBEAT]), rd.misses, from, to);
    }
  }

  predicate Zero(table: seq<Word>) {
    forall i :: 0 <= i < |table| ==> table[i] == 0
  }

  method ZeroTable(table: array<Word>)
    modifies table
    ensures Zero(table[..])
  {
    for i := 0 to table.Length
      invariant forall j :: 0 <= j < i ==> table[j] == 0
    {
      table[i] := 0;
    }
  }

  method Snapshot(th: Thread, h: Host, tr: Trap, fw: Firmware, base: Addr, t: Target, tags: nat, data: nat,
          table: array<Word>)
    returns (o: Progress, ghost rd: Reading)
    requires Guarded(h, tr, base, t) && tags < CSM_SIZE && data < CSM_SIZE
    requires table.Length == TELEMETRY_LEN && Zero(table[..])
    modifies th, h`k, tr`armedPtr, fw`gen, fw`trail, table
    ensures h.Valid() && Frame(old(h.k), h.k, h.me) && fw.gen >= old(fw.gen)
    ensures AllInside(old(fw.trail), fw.trail, base) && Sized(rd) && rd.base == base
    ensures o == Trapped <==> Faults(old(fw.trail), fw.trail)
    ensures o != Trapped ==> Guarded(h, tr, base, t)
    ensures o == Trapped ==> tr.armedPtr == 0 && Partial(fw.image, t, tags, data, table[..], rd, old(fw.gen), fw.gen)
    ensures o == Trapped ==> Trailed(old(fw.trail), fw.trail, CutTrail(t, tags, data, rd), true)
    ensures o == Refused ==>
              th.errno == EIO && Zero(table[..]) && Unreadable(fw.image, t, tags, data, rd, old(fw.gen), fw.gen)
    ensures o == Refused ==> Trailed(old(fw.trail), fw.trail, TriedTrail(t, tags, data, rd), false)
    ensures o == Done ==> Complete(fw.image, t, tags, data, table[..], rd, old(fw.gen), fw.gen)
    ensures o == Done ==> Trailed(old(fw.trail), fw.trail, FullTrail(t, tags, data, rd), false)
  {
    hide Inv;
    hide Build;
    hide AllInside;
    hide Trailed;
    hide IndexTrail;
    hide TriedTrail;
    hide CutTrail;
    hide FullTrail;
    hide ReadEntries;
    hide Complete;
    hide Faults;
    hide Saw;
    ghost var trail := fw.trail;
    rd := NothingRead(base, fw.gen);
    var map_ := new nat[TELEMETRY_LEN](_ => UNSET);
    assert map_[..] == Blank();
    ghost var entries, at, counted;
    o, entries, at, counted := ReadIndex(th, h, tr, fw, base, t, tags, map_);
    rd := rd.(entries := entries, at := at, counted := counted);
    NoMisses(t, tags, data, rd);
    if o != Done {
      SnapshotSaw(t, tags, data, rd);
      FaultsIff(trail, fw.trail, CutTrail(t, tags, data, rd), o == Trapped);
      return;
    }
    IndexMeaning(entries);
    rd := rd.(m := map_[..]);
    NoMisses(t, tags, data, rd);
    ghost var indexed := fw.trail;
    o, rd := ReadTable(th, h, tr, fw, base, t, tags, data, map_, table, rd, trail, old(fw.gen));
    InsideJoins(trail, indexed, fw.trail, base);
    SnapshotSaw(t, tags, data, rd);
    FaultsIff(trail, fw.trail,
              match o {
                case Trapped => CutTrail(t, tags, data, rd)
                case Done => FullTrail(t, tags, data, rd)
                case Refused => TriedTrail(t, tags, data, rd)
              }, o == Trapped);
  }

  lemma NoMisses(t: Target, tags: nat, data: nat, rd: Reading)
    requires rd.misses == [] && rd.pass.seen == []
    ensures TriedTrail(t, tags, data, rd) == CutTrail(t, tags, data, rd)
    ensures TriedTrail(t, tags, data, rd) == IndexTrail(t, rd.base, tags, rd.counted, rd.at)
  {
  }

  /** The trails of a snapshot with one more pass. */
  lemma TrailsNext(t: Target, tags: nat, data: nat, rd: Reading, p: Pass)
    requires Sized(rd) && |p.seen| <= TELEMETRY_LEN
    ensures var rd' := rd.(pass := p);
            && Sized(rd') && TriedTrail(t, tags, data, rd') == TriedTrail(t, tags, data, rd)
            && CutTrail(t, tags, data, rd') == TriedTrail(t, tags, data, rd) + PassTrail(t, rd.base, data, rd.m, p)
            && FullTrail(t, tags, data, rd') == TriedTrail(t, tags, data, rd) + WholePass(t, rd.base, data, rd.m, p)
            && var rd'' := rd'.(misses := rd.misses + [p]);
               && Sized(rd'')
               && TriedTrail(t, tags, data, rd'') == TriedTrail(t, tags, data, rd) + WholePass(t, rd.base, data, rd.m, p)
  {
    hide PassTrail;
    hide WholePass;
    hide IndexTrail;
    MissTrailNext(t, rd.base, data, rd.m, rd.misses, p);
  }

  lemma TriedNothing(image: Image, t: Target, tags: nat, data: nat, rd: Reading, from: nat, to: nat)
    requires Indexed(image, t, tags, rd, from, to) && rd.misses == [] && from <= to
    ensures Tried(image, t, tags, data, rd, from, to)
  {
  }

  lemma TriedLater(image: Image, t: Target, tags: nat, data: nat, rd: Reading, from: nat, to: nat, later: nat)
    requires Tried(image, t, tags, data, rd, from, to) && to <= later
    ensures Tried(image, t, tags, data, rd, from, later)
  {
  }

  lemma TriedAgain(image: Image, t: Target, tags: nat, data: nat, rd: Reading, from: nat, to: nat, p: Pass)
    requires Tried(image, t, tags, data, rd, from, to) && |rd.misses| < 3 && rd.m[HEARTBEAT] != UNSET
    requires to <= p.first <= p.last && |p.seen| == TELEMETRY_LEN
    requires var beat := Cell(t, data, rd.m[HEARTBEAT]); image(p.first, beat) != image(p.last, beat)
    ensures Tried(image, t, tags, data, rd.(misses := rd.misses + [p]), from, p.last)
  {
    hide Cell;
    MissedAgain(image, Cell(t, data, rd.m[HEARTBEAT]), rd.misses, from, to, p);
  }

  /** An accepted pass completes the snapshot. */
  lemma AcceptedCompletes(image: Image, t: Target, tags: nat, data: nat, table: seq<Word>, rd: Reading, from: nat,
          to: nat)
    requires Tried(image, t, tags, data, rd, from, rd.pass.first) && rd.pass.first <= rd.pass.last <= to
    requires |rd.pass.seen| == TELEMETRY_LEN
    requires Filled(image, t, data, rd.m, table, rd.pass.seen, rd.pass.first, rd.pass.last)
    requires rd.m[HEARTBEAT] != UNSET ==>
               var beat := Cell(t, data, rd.m[HEARTBEAT]); image(rd.pass.first, beat) == image(rd.pass.last, beat)
    ensures Complete(image, t, tags, data, table, rd, from, to)
  {
    hide Tried;
    hide Filled;
    hide CoherentAt;
    hide Cell;
    var p := rd.pass;
    if rd.m[HEARTBEAT] != UNSET && Beats(image, Cell(t, data, rd.m[HEARTBEAT])) && p.last - p.first < U32_MOD {
      AcceptedIsCoherent(image, t, data, rd.m, table, p.seen, p.first, p.last);
    }
  }

  /** Up to three attempts with the finished index. */
  method ReadTable(th: Thread, h: Host, tr: Trap, fw: Firmware, base: Addr, t: Target, tags: nat, data: nat,
          map_: array<nat>, table: array<Word>, ghost rd0: Reading, ghost trail: seq<Access>, ghost from: nat)
    returns (o: Progress, ghost rd: Reading)
    requires Guarded(h, tr, base, t) && data < CSM_SIZE && map_ as object != table as object
    requires map_.Length == table.Length == TELEMETRY_LEN && Zero(table[..]) && map_[..] == rd0.m && map_[0] == UNSET
    requires Indexed(fw.image, t, tags, rd0, from, fw.gen) && rd0.misses == [] && Sized(rd0) && rd0.base == base
    requires Trailed(trail, fw.trail, TriedTrail(t, tags, data, rd0), false)
    modifies th, h`k, tr`armedPtr, fw`gen, fw`trail, table
    ensures h.Valid() && Frame(old(h.k), h.k, h.me) && fw.gen >= old(fw.gen)
    ensures AllInside(old(fw.trail), fw.trail, base) && Sized(rd) && rd.base == base
    ensures o != Trapped ==> Guarded(h, tr, base, t)
    ensures o == Trapped ==> tr.armedPtr == 0 && Partial(fw.image, t, tags, data, table[..], rd, from, fw.gen)
    ensures o == Trapped ==> Trailed(trail, fw.trail, CutTrail(t, tags, data, rd), true)
    ensures o == Refused ==> th.errno == EIO && Zero(table[..]) && Unreadable(fw.image, t, tags, data, rd, from, fw.gen)
    ensures o == Refused ==> Trailed(trail, fw.trail, TriedTrail(t, tags, data, rd), false)
    ensures o == Done ==> Complete(fw.image, t, tags, data, table[..], rd, from, fw.gen)
    ensures o == Done ==> Trailed(trail, fw.trail, FullTrail(t, tags, data, rd), false)
  {
    hide Inv;
    hide Build;
    hide AllInside;
    hide Trailed;
    hide TriedTrail;
    hide CutTrail;
    hide FullTrail;
    hide PassTrail;
    hide WholePass;
    hide Filled;
    hide Missed;
    hide Complete;
    rd := rd0;
    ghost var m: Index, begun := map_[..], fw.trail;
    TriedNothing(fw.image, t, tags, data, rd, from, fw.gen);
    TrailStarts(begun);
    var try := 0;
    while try < 3
      invariant 0 <= try <= 3 && |rd.misses| == try && rd.m == m && rd.base == base
      invariant Guarded(h, tr, base, t) && Frame(old(h.k), h.k, h.me) && map_[..] == m && old(fw.gen) <= fw.gen
      invariant AllInside(begun, fw.trail, base)
      invariant Sized(rd) && Tried(fw.image, t, tags, data, rd, from, fw.gen)
      invariant Trailed(trail, fw.trail, TriedTrail(t, tags, data, rd), false)
      invariant Zero(table[..])
    {
      var a;
      ghost var p, tried := Pass(0, [], 0), fw.trail;
      ghost var before := fw.gen;
      a, p := Attempt(h, tr, fw, base, t, data, map_, table);
      TrailsNext(t, tags, data, rd, p);
      rd := rd.(pass := p);
      InsideJoins(begun, tried, fw.trail, base);
      TriedLater(fw.image, t, tags, data, rd, from, before, p.first);
      if a == Faulted {
        TrailJoins(trail, tried, fw.trail, TriedTrail(t, tags, data, rd), PassTrail(t, base, data, m, p), true);
        return Trapped, rd;
      }
      TrailJoins(trail, tried, fw.trail, TriedTrail(t, tags, data, rd), WholePass(t, base, data, m, p), false);
      if a == Accepted {
        AcceptedCompletes(fw.image, t, tags, data, table[..], rd, from, fw.gen);
        return Done, rd;
      }
      TriedAgain(fw.image, t, tags, data, rd, from, before, p);
      rd := rd.(misses := rd.misses + [p]);
      ZeroTable(table);
      try := try + 1;
    }
    var _ := th.Fail(EIO);
    o := Refused;
  }
}
