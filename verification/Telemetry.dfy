/** The telemetry call: one window, bound twice, read under the guard, and
    given back on every path. */
module Telemetry {
  import opened Errors
  import opened Kernel
  import opened Hosts
  import opened Sessions
  import opened Lifecycle
  import opened Tlbs
  import opened Traps
  import opened TagIndex
  import opened Coherence
  import opened Snapshots

  const CSM_BASE := 0x1000_0000
  const RESET_BASE := 0x8003_0000
  const WORMHOLE := 0x401e
  const BLACKHOLE := 0xb140

  /** Where an architecture keeps its two telemetry pointers, and on which node. */
  datatype Arch = Arch(tags: nat, data: nat, x: nat, y: nat)

  function ArchOf(deviceId: nat): Option<Arch> {
    if deviceId == WORMHOLE then Some(Arch(RESET_BASE + 0x1D0, RESET_BASE + 0x1D4, 0, 2))
    else if deviceId == BLACKHOLE then Some(Arch(RESET_BASE + 0x434, RESET_BASE + 0x430, 8, 0))
    else None
  }

  /** An address within its 2 MB window, and the window's base address. */
  function Within(addr: nat): nat {
    addr % TLB_2MB
  }

  function WindowBase(addr: nat): nat {
    addr - Within(addr)
  }

  predicate InCsm(ptr: nat) {
    CSM_BASE <= ptr < CSM_BASE + CSM_SIZE
  }

  /** Both register pointers lie in one window; a checked pointer's offset in
      the CSM window reaches the very address it names. */
  lemma Windows(deviceId: nat, ptr: nat, off: nat, a: Arch)
    requires ArchOf(deviceId) == Some(a)
    ensures WindowBase(a.tags) == WindowBase(a.data)
    ensures Within(a.tags) + 4 <= TLB_2MB && Within(a.data) + 4 <= TLB_2MB
    ensures InCsm(ptr) ==> Within(ptr) < CSM_SIZE && CSM_BASE + Within(ptr) + off == ptr + off
  {
    assert RESET_BASE == 0x400 * TLB_2MB + 0x3_0000 && CSM_BASE == 0x80 * TLB_2MB;
    Remainder(0x400, a.tags - 0x400 * TLB_2MB);
    Remainder(0x400, a.data - 0x400 * TLB_2MB);
    if InCsm(ptr) {
      Remainder(0x80, ptr - CSM_BASE);
    }
  }

  lemma Remainder(q: nat, k: nat)
    requires k < TLB_2MB
    ensures (q * TLB_2MB + k) % TLB_2MB == k
  {
  }

  // ---- giving the window back ----

  /** `p` is `p0` plus the handle's window and mapping, and what has leaked. */
  ghost predicate Extra(p0: Proc, p: Proc, fd: int, tlb: Handle, target: Target, leaked: set<Addr>) {
    && IsOpen(p0, fd) && tlb.id !in p0.descs[fd].tlbs && tlb.gen == fd && tlb.len == TLB_2MB
    && WindowAt(tlb.idx) == tlb.id
    && p.descs == WithTlbs(p0, fd, p0.descs[fd].tlbs[tlb.id := target]).descs
    && leaked <= p.maps.Keys && leaked !! p0.maps.Keys && tlb.ptr !in leaked && tlb.ptr !in p0.maps && 0 !in p.maps
    && p.maps - leaked == if tlb.ptr != 0 then p0.maps[tlb.ptr := Region(fd, tlb.id, TLB_2MB)] else p0.maps
  }

  /** `p` is `p0` again, except for a window the driver would not take back
      and mappings it would not remove. */
  ghost predicate Restored(p0: Proc, p: Proc, fd: int, id: nat, leaked: set<Addr>) {
    && IsOpen(p0, fd) && leaked !! p0.maps.Keys && p.maps - leaked == p0.maps
    && (p.descs != p0.descs ==>
          fd in p.descs && id in p.descs[fd].tlbs
          && p.descs == WithTlbs(p0, fd, p0.descs[fd].tlbs[id := p.descs[fd].tlbs[id]]).descs)
  }

  lemma BindExtra(p0: Proc, p: Proc, fd: int, t: Handle, was: Target, target: Target, r: Code, p': Proc, t': Handle,
          leaked: set<Addr>, stuck: set<Addr>)
    requires Extra(p0, p, fd, t, was, leaked) && fd >= 0 && Tidy(p')
    requires BindRel(p, fd, t, target, r, p', t', stuck)
    ensures Extra(p0, p', fd, t', if r == TT_OK then target else was, leaked + stuck)
    ensures r == TT_OK ==> Window(p', t'.ptr, target) || target.Unbound?
  {
    if t.ptr != 0 {
      assert t.ptr in p.maps - leaked;
    }
    BindMapsExtra(p0, p, fd, t, was, target, r, p', t', leaked, stuck);
    if r == TT_OK {
      assert t'.ptr in p'.maps - stuck;
      assert p0.descs[fd].tlbs[t.id := was][t.id := target] == p0.descs[fd].tlbs[t.id := target];
      assert p'.descs == WithTlbs(p0, fd, p0.descs[fd].tlbs[t.id := target]).descs;
    }
  }

  lemma BindMapsExtra(p0: Proc, p: Proc, fd: int, t: Handle, was: Target, target: Target, r: Code, p': Proc,
          t': Handle, leaked: set<Addr>, stuck: set<Addr>)
    requires Extra(p0, p, fd, t, was, leaked) && fd >= 0 && Tidy(p')
    requires BindRel(p, fd, t, target, r, p', t', stuck)
    ensures var all := leaked + stuck;
            && all <= p'.maps.Keys && all !! p0.maps.Keys && t'.ptr !in all && t'.ptr !in p0.maps
            && p'.maps - all == if t'.ptr != 0 then p0.maps[t'.ptr := Region(fd, t.id, TLB_2MB)] else p0.maps
  {
    var all := leaked + stuck;
    var kept := p.maps - {t.ptr} - stuck;
    KeptIsOld(p0, p, fd, t, was, leaked, stuck);
    forall a | a in leaked ensures a in p'.maps {
      if a !in stuck {
        assert a in kept;
        assert a in p'.maps - stuck;
      }
    }
    assert p'.maps - all == (p'.maps - stuck) - leaked;
    if r == TT_OK {
      assert forall a :: a in p0.maps ==> a in kept - leaked;
      assert t'.ptr !in p.maps;
    }
  }

  /** Past the handle's own mapping and what leaked, there is what was before. */
  lemma KeptIsOld(p0: Proc, p: Proc, fd: int, t: Handle, was: Target, leaked: set<Addr>, stuck: set<Addr>)
    requires Extra(p0, p, fd, t, was, leaked) && forall a :: a in stuck ==> a == t.ptr || a !in p.maps
    ensures p.maps - {t.ptr} - stuck - leaked == p0.maps
  {
    var kept := p.maps - {t.ptr} - stuck;
    var held := p.maps - leaked;
    forall a
      ensures a in kept - leaked <==> a in p0.maps
      ensures a in p0.maps ==> (kept - leaked)[a] == p0.maps[a]
    {
      assert a in held <==> a in p0.maps || (a == t.ptr && t.ptr != 0);
      assert a in p0.maps ==> held[a] == p0.maps[a];
    }
  }

  lemma FreeExtra(p0: Proc, p: Proc, fd: int, t: Handle, target: Target, r: Code, p': Proc, t': Handle, unmapped: bool,
          leaked: set<Addr>)
    requires Extra(p0, p, fd, t, target, leaked) && fd >= 0
    requires FreeRel(p, fd, t, r, p', t', unmapped)
    ensures Restored(p0, p', fd, t.id, leaked + if unmapped then {} else {t.ptr})
    ensures r == TT_OK ==> p'.descs == p0.descs
  {
    var all := leaked + if unmapped then {} else {t.ptr};
    assert p'.maps - all == (p.maps - leaked) - {t.ptr};
    if r == TT_OK {
      assert p0.descs[fd].tlbs[t.id := target] - {t.id} == p0.descs[fd].tlbs;
    }
  }

  // ---- the call ----

  /** Every read of the trail since `before` was covered whole by the guard. */
  ghost predicate AllCovered(before: seq<Access>, after: seq<Access>) {
    && |before| <= |after| && after[..|before|] == before
    && forall i :: |before| <= i < |after| ==> Inside(after[i], after[i].base)
  }

  lemma CoveredTwice(a: seq<Access>, b: seq<Access>, c: seq<Access>)
    requires AllCovered(a, b) && AllCovered(b, c)
    ensures AllCovered(a, c)
  {
  }

  /** Disarms the guard and gives the window back. */
  method GiveBack(th: Thread, h: Host, tr: Trap, sess: Session, tlb: Tlb, ghost p0: Proc, ghost target: Target,
          ghost leaked: set<Addr>)
    returns (ghost all: set<Addr>, ghost unmapped: bool)
    requires h.Valid() && sess.fd >= 0 && Extra(p0, h.Mine(), sess.fd, tlb.View(), target, leaked)
    modifies th, h`k, h`failed, h`log, tr`armedPtr, tlb
    ensures h.Valid() && Later(old(h.k), h.k)
    ensures tr.armedPtr == 0 && Restored(p0, h.Mine(), sess.fd, old(tlb.id), all) && old(h.failed) <= h.failed
    ensures h.log == old(h.log) + if unmapped then [EvFree(sess.fd, old(tlb.id))] else []
    ensures h.unmaps ==> unmapped && all == leaked
  {
    hide Inv;
    tr.Disarm();
    ghost var p, t := h.Mine(), tlb.View();
    var freed;
    freed, unmapped := TlbFree(th, h, sess, tlb);
    FreeExtra(p0, p, sess.fd, t, target, freed, h.Mine(), tlb.View(), unmapped, leaked);
    all := leaked + if unmapped then {} else {t.ptr};
  }

  /** The clean-up label: the failure's cause survives giving the window back. */
  method CleanUp(th: Thread, h: Host, tr: Trap, sess: Session, tlb: Tlb, ghost p0: Proc, ghost target: Target,
          ghost leaked: set<Addr>)
    returns (r: Code, ghost all: set<Addr>, ghost unmapped: bool)
    requires h.Valid() && sess.fd >= 0 && Extra(p0, h.Mine(), sess.fd, tlb.View(), target, leaked)
    modifies th, h`k, h`failed, h`log, tr`armedPtr, tlb
    ensures h.Valid() && Later(old(h.k), h.k)
    ensures tr.armedPtr == 0 && Restored(p0, h.Mine(), sess.fd, old(tlb.id), all) && old(h.failed) <= h.failed
    ensures h.log == old(h.log) + if unmapped then [EvFree(sess.fd, old(tlb.id))] else []
    ensures h.unmaps ==> unmapped && all == leaked
    ensures r == TT_ERR && th.errno == old(th.errno)
  {
    hide Inv;
    var err := th.errno;
    all, unmapped := GiveBack(th, h, tr, sess, tlb, p0, target, leaked);
    r := th.Fail(err);
  }

  /** The pointers read from the registers through the window at `base`, and the
      cycles they are from. */
  datatype Pointers = Pointers(base: Addr, tags: Word, data: Word, tagsAt: nat, dataAt: nat)

  /** The registers held these pointers. */
  ghost predicate Pointed(image: Image, a: Arch, ptrs: Pointers, from: nat, to: nat) {
    && from <= ptrs.tagsAt <= ptrs.dataAt <= to
    && ptrs.tags == image(ptrs.tagsAt, Noc(a.tags, a.x, a.y)) && ptrs.data == image(ptrs.dataAt, Noc(a.data, a.x, a.y))
  }

  /** The reads of the two registers. */
  function PointerTrail(a: Arch, ptrs: Pointers): seq<Access> {
    var t := Noc(WindowBase(a.tags), a.x, a.y);
    [Read(t, ptrs.base, Within(a.tags), Some(ptrs.tagsAt)), Read(t, ptrs.base, Within(a.data), Some(ptrs.dataAt))]
  }

  /** A fault cut the pointer reads short, on the first or on the second. */
  ghost predicate PointerCut(image: Image, a: Arch, ptrs: Pointers, from: nat, to: nat, before: seq<Access>,
          after: seq<Access>) {
    || Trailed(before, after, [], true)
    || (&& from <= ptrs.tagsAt <= to && ptrs.tags == image(ptrs.tagsAt, Noc(a.tags, a.x, a.y))
        && Trailed(before, after, PointerTrail(a, ptrs)[..1], true))
  }

  /** Reads the two registers through the window bound to them. */
  method ReadPointers(h: Host, tr: Trap, fw: Firmware, base: Addr, a: Arch, ghost deviceId: nat)
    returns (ok: bool, tags: Word, data: Word, ghost ptrs: Pointers)
    requires ArchOf(deviceId) == Some(a) && Guarded(h, tr, base, Noc(WindowBase(a.tags), a.x, a.y))
    modifies h`k, tr`armedPtr, fw`gen, fw`trail
    ensures h.Valid() && Frame(old(h.k), h.k, h.me) && fw.gen >= old(fw.gen)
    ensures AllInside(old(fw.trail), fw.trail, base)
    ensures ok ==> Pointed(fw.image, a, ptrs, old(fw.gen), fw.gen) && tags == ptrs.tags && data == ptrs.data
    ensures ok ==> Trailed(old(fw.trail), fw.trail, PointerTrail(a, ptrs), false)
    ensures ok ==> tr.armedPtr == base
    ensures !ok ==> tr.armedPtr == 0
    ensures ok <==> !Faults(old(fw.trail), fw.trail)
    ensures !ok ==> PointerCut(fw.image, a, ptrs, old(fw.gen), fw.gen, old(fw.trail), fw.trail)
  {
    hide Inv;
    hide Faults;
    Windows(deviceId, 0, 0, a);
    ok, tags, data, ptrs := false, 0, 0, Pointers(base, 0, 0, 0, 0);
    var t := Noc(WindowBase(a.tags), a.x, a.y);
    assert At(t, Within(a.tags)) == Noc(a.tags, a.x, a.y) && At(t, Within(a.data)) == Noc(a.data, a.x, a.y);
    ghost var trail := fw.trail;
    var word := Load(h, tr, fw, base, t, Within(a.tags));
    if word.None? {
      FaultsIff(trail, fw.trail, [], true);
      return;
    }
    tags := word.value;
    ghost var tagsAt, mid := fw.gen, fw.trail;
    ptrs := Pointers(base, tags, 0, tagsAt, tagsAt);
    assert PointerTrail(a, ptrs)[..1] == [Read(t, base, Within(a.tags), Some(tagsAt))];
    word := Load(h, tr, fw, base, t, Within(a.data));
    InsideJoins(trail, mid, fw.trail, base);
    if word.None? {
      TrailJoins(trail, mid, fw.trail, PointerTrail(a, ptrs)[..1], [], true);
      FaultsIff(trail, fw.trail, PointerTrail(a, ptrs)[..1], true);
      return;
    }
    ok, data, ptrs := true, word.value, Pointers(base, tags, word.value, tagsAt, fw.gen);
    TrailJoins(trail, mid, fw.trail, [Read(t, base, Within(a.tags), Some(tagsAt))],
               [Read(t, base, Within(a.data), Some(fw.gen))], false);
    FaultsIff(trail, fw.trail, PointerTrail(a, ptrs), false);
  }

  /** A bind of the held window. */
  method BindHeld(th: Thread, h: Host, sess: Session, tlb: Tlb, ghost p0: Proc, ghost was: Target,
          ghost leaked: set<Addr>, target: Target)
    returns (r: Code, ghost now: Target, ghost all: set<Addr>)
    requires h.Valid() && sess.fd >= 0 && target.Noc? && Extra(p0, h.Mine(), sess.fd, tlb.View(), was, leaked)
    modifies th, h`k, h`failed, tlb`ptr
    ensures h.Valid() && Later(old(h.k), h.k)
    ensures Extra(p0, h.Mine(), sess.fd, tlb.View(), now, all) && (h.unmaps ==> all == leaked)
    ensures r == TT_OK ==> now == target && Window(h.Mine(), tlb.ptr, target)
    ensures r == TT_OK && old(tlb.ptr) == 0 ==> all == leaked && h.failed == old(h.failed)
    ensures r == TT_ERR ==> Reports(old(h.failed), h.failed, th.errno)
  {
    ghost var p, t := h.Mine(), tlb.View();
    ghost var stuck;
    assert tlb.ptr != 0 ==> tlb.ptr in p.maps - leaked;
    hide Inv;
    r, stuck := TlbBind(th, h, sess, tlb, target);
    assert Tidy(h.Mine()) by { MineTidy(h); }
    BindExtra(p0, p, sess.fd, t, was, target, r, h.Mine(), tlb.View(), leaked, stuck);
    now, all := if r == TT_OK then target else was, leaked + stuck;
  }

  /** What starts no earlier than the tables are read started no earlier than
      the call. */
  lemma SinceEarlier(image: Image, t: Target, tags: nat, data: nat, table: seq<Word>, rd: Reading, from: nat, to: nat,
          earlier: nat)
    requires earlier <= from
    ensures Complete(image, t, tags, data, table, rd, from, to) ==>
              Complete(image, t, tags, data, table, rd, earlier, to)
    ensures Partial(image, t, tags, data, table, rd, from, to) ==> Partial(image, t, tags, data, table, rd, earlier, to)
    ensures Unreadable(image, t, tags, data, rd, from, to) ==> Unreadable(image, t, tags, data, rd, earlier, to)
  {
    hide Build;
  }

  /** What makes the firmware's data unusable, with the reads that showed it: a
      pointer outside core shared memory, or a snapshot refused. */
  ghost predicate Malformed(image: Image, a: Arch, ptrs: Pointers, rd: Reading, from: nat, to: nat,
          before: seq<Access>, after: seq<Access>) {
    && Pointed(image, a, ptrs, from, to)
    && if InCsm(ptrs.tags) && InCsm(ptrs.data) then
         && Unreadable(image, Csm(a), Within(ptrs.tags), Within(ptrs.data), rd, from, to) && Sized(rd)
         && var made := PointerTrail(a, ptrs) + TriedTrail(Csm(a), Within(ptrs.tags), Within(ptrs.data), rd);
            Trailed(before, after, made, false)
       else Trailed(before, after, PointerTrail(a, ptrs), false)
  }

  /** The reads made when a system call fails: none before the window is bound to
      the registers, and those of two good pointers before it is bound again. */
  ghost predicate Unread(image: Image, a: Arch, ptrs: Pointers, from: nat, to: nat, before: seq<Access>,
          after: seq<Access>) {
    || after == before
    || (&& Pointed(image, a, ptrs, from, to) && InCsm(ptrs.tags) && InCsm(ptrs.data)
        && Trailed(before, after, PointerTrail(a, ptrs), false))
  }

  /** Core shared memory, as the second binding of the window reaches it. */
  function Csm(a: Arch): Target {
    Noc(CSM_BASE, a.x, a.y)
  }

  /** What a fault leaves. On a pointer read, as only that and perhaps the one
      before it were made: all zeros. Later: nothing but values
      of tags mapped by the firmware's own index, read in the current pass; and
      the reads made are exactly those of the pointers, the index, the passes
      that missed, and this pass up to the fault. */
  ghost predicate CutShort(image: Image, a: Arch, ptrs: Pointers, rd: Reading, table: seq<Word>, from: nat, to: nat,
          before: seq<Access>, after: seq<Access>) {
    || (|table| == TELEMETRY_LEN && Zero(table) && PointerCut(image, a, ptrs, from, to, before, after))
    || (&& Pointed(image, a, ptrs, from, to) && InCsm(ptrs.tags) && InCsm(ptrs.data) && Sized(rd)
        && Partial(image, Csm(a), Within(ptrs.tags), Within(ptrs.data), table, rd, from, to)
        && var made := PointerTrail(a, ptrs) + CutTrail(Csm(a), Within(ptrs.tags), Within(ptrs.data), rd);
           Trailed(before, after, made, true))
  }

  /** A finished call made exactly the reads of the pointers, the index, the
      passes that missed and the accepted one. */
  ghost predicate ReadAll(a: Arch, ptrs: Pointers, rd: Reading, before: seq<Access>, after: seq<Access>) {
    && Sized(rd)
    && var made := PointerTrail(a, ptrs) + FullTrail(Csm(a), Within(ptrs.tags), Within(ptrs.data), rd);
       Trailed(before, after, made, false)
  }

  /** How the reads of a held window ended. */
  datatype Reads = ReadOk | ReadErr | ReadFault

  /** Points the window at the registers and then at the tables, and reads
      them, with the guard disarmed while the mapping is replaced. */
  method ReadThrough(th: Thread, h: Host, tr: Trap, fw: Firmware, sess: Session, tlb: Tlb, a: Arch,
          ghost deviceId: nat, table: array<Word>, ghost p0: Proc)
    returns (o: Reads, ghost target: Target, ghost leaked: set<Addr>, ghost rd: Reading, ghost ptrs: Pointers)
    requires ArchOf(deviceId) == Some(a) && table.Length == TELEMETRY_LEN && Zero(table[..])
    requires h.Valid() && sess.fd >= 0 && tlb.ptr == 0 && Extra(p0, h.Mine(), sess.fd, tlb.View(), Unbound, {})
    modifies th, h`k, h`failed, tr, fw`gen, fw`trail, tlb`ptr, table
    ensures h.Valid() && Later(old(h.k), h.k) && fw.gen >= old(fw.gen)
    ensures Extra(p0, h.Mine(), sess.fd, tlb.View(), target, leaked) && (h.unmaps ==> leaked == {})
    ensures AllCovered(old(fw.trail), fw.trail)
    ensures o == ReadErr ==> Zero(table[..])
    ensures o == ReadErr ==>
              || (Reports(old(h.failed), h.failed, th.errno)
                  && Unread(fw.image, a, ptrs, old(fw.gen), fw.gen, old(fw.trail), fw.trail))
              || (th.errno == EIO
                  && Malformed(fw.image, a, ptrs, rd, old(fw.gen), fw.gen, old(fw.trail), fw.trail))
    ensures o == ReadFault ==> th.errno == ECONNRESET && tr.armedPtr == 0
    ensures o == ReadFault <==> Faults(old(fw.trail), fw.trail)
    ensures o == ReadFault ==>
              CutShort(fw.image, a, ptrs, rd, table[..], old(fw.gen), fw.gen, old(fw.trail), fw.trail)
    ensures o == ReadOk ==> Pointed(fw.image, a, ptrs, old(fw.gen), fw.gen) && InCsm(ptrs.tags) && InCsm(ptrs.data)
    ensures o == ReadOk ==>
              && Complete(fw.image, Csm(a), Within(ptrs.tags), Within(ptrs.data), table[..], rd, old(fw.gen), fw.gen)
              && ReadAll(a, ptrs, rd, old(fw.trail), fw.trail)
  {
    hide Inv;
    hide Build;
    hide Complete;
    hide Partial;
    hide Unreadable;
    hide Trailed;
    hide TriedTrail;
    hide CutTrail;
    hide FullTrail;
    hide PointerTrail;
    hide PointerCut;
    hide Faults;
    target, leaked := Unbound, {};
    rd, ptrs := NothingRead(0, fw.gen), Pointers(0, 0, 0, 0, 0);
    Windows(deviceId, 0, 0, a);
    ghost var begun := fw.trail;
    TrailStarts(begun);
    FaultsIff(begun, begun, [], false);
    var r;
    r, target, leaked := BindHeld(th, h, sess, tlb, p0, target, leaked, Noc(WindowBase(a.tags), a.x, a.y));
    if r == TT_ERR {
      o := ReadErr;
      return;
    }
    tr.Arm(tlb.ptr, TLB_2MB);
    var ok, tags, data;
    ok, tags, data, ptrs := ReadPointers(h, tr, fw, tlb.ptr, a, deviceId);
    if !ok {
      th.errno := ECONNRESET;
      o := ReadFault;
      return;
    }
    if tags < CSM_BASE || tags >= CSM_BASE + CSM_SIZE || data < CSM_BASE || data >= CSM_BASE + CSM_SIZE {
      th.errno := EIO;
      o := ReadErr;
      return;
    }
    tr.Disarm();
    ghost var trail := fw.trail;
    o, target, leaked, rd := ReadTables(th, h, tr, fw, sess, tlb, a, deviceId, ptrs, tags, data, table, p0, target,
                                        old(fw.gen));
    CoveredTwice(begun, trail, fw.trail);
    FaultsJoin(begun, trail, fw.trail);
    ghost var t, i, d := Csm(a), Within(tags), Within(data);
    if o == ReadFault {
      TrailJoins(begun, trail, fw.trail, PointerTrail(a, ptrs), CutTrail(t, i, d, rd), true);
    } else if o == ReadOk {
      TrailJoins(begun, trail, fw.trail, PointerTrail(a, ptrs), FullTrail(t, i, d, rd), false);
    } else if Trailed(trail, fw.trail, TriedTrail(t, i, d, rd), false) {
      TrailJoins(begun, trail, fw.trail, PointerTrail(a, ptrs), TriedTrail(t, i, d, rd), false);
    }
  }

  /** The second half: with pointers checked, binds the window to core shared
      memory and takes the snapshot there. */
  method ReadTables(th: Thread, h: Host, tr: Trap, fw: Firmware, sess: Session, tlb: Tlb, a: Arch, ghost deviceId: nat,
          ghost ptrs: Pointers, tags: Word, data: Word, table: array<Word>, ghost p0: Proc, ghost was: Target,
          ghost from: nat)
    returns (o: Reads, ghost target: Target, ghost leaked: set<Addr>, ghost rd: Reading)
    requires ArchOf(deviceId) == Some(a) && table.Length == TELEMETRY_LEN && Zero(table[..])
    requires InCsm(tags) && InCsm(data) && ptrs.tags == tags && ptrs.data == data
    requires Pointed(fw.image, a, ptrs, from, fw.gen) && from <= fw.gen
    requires h.Valid() && sess.fd >= 0 && tr.armedPtr == 0 && Extra(p0, h.Mine(), sess.fd, tlb.View(), was, {})
    modifies th, h`k, h`failed, tr, fw`gen, fw`trail, tlb`ptr, table
    ensures h.Valid() && Later(old(h.k), h.k) && fw.gen >= old(fw.gen)
    ensures Extra(p0, h.Mine(), sess.fd, tlb.View(), target, leaked) && (h.unmaps ==> leaked == {})
    ensures AllCovered(old(fw.trail), fw.trail) && Sized(rd)
    ensures o == ReadErr ==> Zero(table[..])
    ensures o == ReadErr ==>
              || (Reports(old(h.failed), h.failed, th.errno) && fw.trail == old(fw.trail))
              || (&& th.errno == EIO && Unreadable(fw.image, Csm(a), Within(tags), Within(data), rd, from, fw.gen)
                  && Trailed(old(fw.trail), fw.trail, TriedTrail(Csm(a), Within(tags), Within(data), rd), false))
    ensures o == ReadFault ==> th.errno == ECONNRESET && tr.armedPtr == 0
    ensures o == ReadFault <==> Faults(old(fw.trail), fw.trail)
    ensures o == ReadFault ==>
              && Partial(fw.image, Csm(a), Within(tags), Within(data), table[..], rd, from, fw.gen)
              && Trailed(old(fw.trail), fw.trail, CutTrail(Csm(a), Within(tags), Within(data), rd), true)
    ensures o == ReadOk ==>
              && Complete(fw.image, Csm(a), Within(tags), Within(data), table[..], rd, from, fw.gen)
              && Trailed(old(fw.trail), fw.trail, FullTrail(Csm(a), Within(tags), Within(data), rd), false)
  {
    hide Inv;
    hide Build;
    hide Complete;
    hide Partial;
    hide Unreadable;
    hide Trailed;
    hide TriedTrail;
    hide CutTrail;
    hide FullTrail;
    hide Faults;
    rd := NothingRead(0, fw.gen);
    TrailStarts(fw.trail);
    FaultsIff(fw.trail, fw.trail, [], false);
    var r;
    r, target, leaked := BindHeld(th, h, sess, tlb, p0, was, {}, Csm(a));
    if r == TT_ERR {
      o := ReadErr;
      return;
    }
    tr.Arm(tlb.ptr, TLB_2MB);
    Windows(deviceId, tags, 0, a);
    Windows(deviceId, data, 0, a);
    ghost var gen := fw.gen;
    var done;
    done, rd := Snapshot(th, h, tr, fw, tlb.ptr, Csm(a), Within(tags), Within(data), table);
    SinceEarlier(fw.image, Csm(a), Within(tags), Within(data), table[..], rd, gen, fw.gen, from);
    match done {
      case Done => o := ReadOk;
      case Refused => o := ReadErr;
      case Trapped =>
        th.errno := ECONNRESET;
        o := ReadFault;
    }
  }

  /** A mapped tag's value lives at the firmware's own data pointer, four bytes
      per offset, on the controller's node. */
  function ValueAt(a: Arch, dataPtr: nat, off: nat): Target {
    Noc(dataPtr + 4 * off, a.x, a.y)
  }

  /** The table is what the firmware had published in cycle `g`: its value for
      every tag the index maps, zero for every other. */
  ghost predicate PublishedAt(image: Image, a: Arch, dataPtr: nat, m: Index, table: seq<Word>, g: nat) {
    |table| == TELEMETRY_LEN && forall tag :: 0 <= tag < TELEMETRY_LEN ==>
      table[tag] == if m[tag] != UNSET then image(g, ValueAt(a, dataPtr, m[tag])) else 0
  }

  /** What a successful call returned: an index made of all the entries the
      firmware's tag table counts, for every mapped tag a value of the accepted
      pass and zero for every other, and if the firmware keeps its side one
      cycle, current at some instant of the call, that the whole table is from. */
  ghost predicate Linearized(image: Image, a: Arch, ptrs: Pointers, rd: Reading, table: seq<Word>, from: nat, to: nat) {
    && Pointed(image, a, ptrs, from, to) && InCsm(ptrs.tags) && InCsm(ptrs.data)
    && Complete(image, Csm(a), Within(ptrs.tags), Within(ptrs.data), table, rd, from, to)
    && (rd.m[HEARTBEAT] != UNSET && Beats(image, ValueAt(a, ptrs.data, rd.m[HEARTBEAT]))
        && rd.pass.last - rd.pass.first < U32_MOD ==>
          PublishedAt(image, a, ptrs.data, rd.m, table, rd.pass.first))
  }

  lemma LinearizedFrom(image: Image, a: Arch, ptrs: Pointers, rd: Reading, table: seq<Word>, from: nat, to: nat,
          deviceId: nat)
    requires ArchOf(deviceId) == Some(a) && Pointed(image, a, ptrs, from, to) && InCsm(ptrs.tags) && InCsm(ptrs.data)
    requires Complete(image, Csm(a), Within(ptrs.tags), Within(ptrs.data), table, rd, from, to)
    ensures Linearized(image, a, ptrs, rd, table, from, to)
  {
    hide Build;
    hide Tried;
    hide Filled;
  }

  /** Past the argument checks: `device` failed before the window was held. */
  datatype Stage = Early | Held(id: nat)

  /** One telemetry call, on an open session whose device answers. */
  method TtTelemetry(th: Thread, h: Host, tr: Trap, fw: Firmware, sess: Session, table: array<Word>)
    returns (r: Code, ghost stage: Stage, ghost trapped: bool, ghost arch: Option<Arch>, ghost ptrs: Pointers,
          ghost rd: Reading, ghost leaked: set<Addr>)
    requires h.Valid() && table.Length == TELEMETRY_LEN && tr.armedPtr == 0
    modifies th, h`k, h`failed, h`log, tr, fw`gen, fw`trail, table
    ensures h.Valid() && Later(old(h.k), h.k)
    ensures sess.fd < 0 ==> r == TT_ERR && th.errno == ENOTCONN && table[..] == old(table[..]) && stage == Early
    ensures trapped ==> r == TT_ERR && th.errno == ECONNRESET
    ensures trapped <==> Faults(old(fw.trail), fw.trail)
    ensures r == TT_ERR && !trapped && sess.fd >= 0 ==>
              || (Reports(old(h.failed), h.failed, th.errno)
                  && (fw.trail == old(fw.trail)
                      || (arch.Some?
                          && Unread(fw.image, arch.value, ptrs, old(fw.gen), fw.gen, old(fw.trail), fw.trail))))
              || (th.errno == ENOTSUP && IsOpen(old(h.Mine()), sess.fd)
                  && ArchOf(h.infos(old(h.Mine()).descs[sess.fd].dev).deviceId).None?)
              || (th.errno == EIO && arch.Some?
                  && Malformed(fw.image, arch.value, ptrs, rd, old(fw.gen), fw.gen, old(fw.trail), fw.trail))
    // On every path the guard is disarmed, every read was covered by it, and
    // this process's mappings and windows are as before.
    ensures tr.armedPtr == 0 && AllCovered(old(fw.trail), fw.trail)
    ensures stage == Early ==>
              && r == TT_ERR && h.Mine() == old(h.Mine()) && leaked == {} && !trapped && fw.trail == old(fw.trail)
              && (h.log == old(h.log) || (|h.log| == |old(h.log)| + 1 && h.log[|old(h.log)|].EvInfo?))
    ensures stage.Held? ==> Restored(old(h.Mine()), h.Mine(), sess.fd, stage.id, leaked)
    ensures h.unmaps ==>
              leaked == {} && (stage.Held? ==> h.log == old(h.log) + [EvInfo(sess.fd, true), EvFree(sess.fd, stage.id)])
    // The table: untouched, coherent, all zeros, or cut short by a fault.
    ensures r == TT_OK ==>
              && stage.Held? && arch.Some? && Linearized(fw.image, arch.value, ptrs, rd, table[..], old(fw.gen), fw.gen)
              && ReadAll(arch.value, ptrs, rd, old(fw.trail), fw.trail)
    ensures r == TT_ERR && !trapped ==> table[..] == (if arch.None? then old(table[..]) else seq(TELEMETRY_LEN, _ => 0))
    ensures trapped ==> arch.Some?
    ensures arch.Some? ==>
              IsOpen(old(h.Mine()), sess.fd) && arch == ArchOf(h.infos(old(h.Mine()).descs[sess.fd].dev).deviceId)
    ensures trapped ==>
              CutShort(fw.image, arch.value, ptrs, rd, table[..], old(fw.gen), fw.gen, old(fw.trail), fw.trail)
  {
    hide Inv;
    hide CutShort;
    hide ReadAll;
    hide Linearized;
    hide Malformed;
    hide Unread;
    hide Faults;
    TrailStarts(fw.trail);
    FaultsIff(fw.trail, fw.trail, [], false);
    stage, trapped, arch, leaked := Early, false, None, {};
    rd, ptrs := NothingRead(0, fw.gen), Pointers(0, 0, 0, 0, 0);
    if sess.fd < 0 {
      r := th.Fail(ENOTCONN);
      return;
    }
    var info;
    r, info := TtDevInfo(th, h, sess);
    if r == TT_ERR {
      return;
    }
    var known := ArchOf(info.deviceId);
    arch := known;
    if known.None? {
      r := th.Fail(ENOTSUP);
      return;
    }
    ZeroTable(table);
    var tlb := new Tlb();
    r := TlbAlloc(th, h, sess, TLB_2MB, Uncached, tlb);
    if r == TT_ERR {
      return;
    }
    ghost var p0 := old(h.Mine());
    stage := Held(tlb.id);
    HeldExtra(p0, h, sess.fd, tlb);
    r, trapped, ptrs, rd, leaked := ReadHeld(th, h, tr, fw, sess, tlb, known.value, info.deviceId, table, p0);
  }

  /** The call from the point where it holds a window: reads through it, and
      gives it back on every path. */
  method ReadHeld(th: Thread, h: Host, tr: Trap, fw: Firmware, sess: Session, tlb: Tlb, a: Arch, ghost deviceId: nat,
          table: array<Word>, ghost p0: Proc)
    returns (r: Code, ghost trapped: bool, ghost ptrs: Pointers, ghost rd: Reading, ghost leaked: set<Addr>)
    requires ArchOf(deviceId) == Some(a) && table.Length == TELEMETRY_LEN && Zero(table[..])
    requires h.Valid() && sess.fd >= 0 && tlb.ptr == 0 && Extra(p0, h.Mine(), sess.fd, tlb.View(), Unbound, {})
    modifies th, h`k, h`failed, h`log, tr, fw`gen, fw`trail, tlb, table
    ensures h.Valid() && Later(old(h.k), h.k)
    ensures tr.armedPtr == 0 && AllCovered(old(fw.trail), fw.trail)
    ensures Restored(p0, h.Mine(), sess.fd, old(tlb.id), leaked)
    ensures h.unmaps ==> leaked == {} && h.log == old(h.log) + [EvFree(sess.fd, old(tlb.id))]
    ensures r == TT_ERR && !trapped ==>
              || (Reports(old(h.failed), h.failed, th.errno)
                  && Unread(fw.image, a, ptrs, old(fw.gen), fw.gen, old(fw.trail), fw.trail))
              || (th.errno == EIO
                  && Malformed(fw.image, a, ptrs, rd, old(fw.gen), fw.gen, old(fw.trail), fw.trail))
    ensures trapped ==> r == TT_ERR && th.errno == ECONNRESET
    ensures trapped <==> Faults(old(fw.trail), fw.trail)
    ensures r == TT_OK ==>
              && Linearized(fw.image, a, ptrs, rd, table[..], old(fw.gen), fw.gen)
              && ReadAll(a, ptrs, rd, old(fw.trail), fw.trail)
    ensures r == TT_ERR && !trapped ==> Zero(table[..])
    ensures trapped ==> CutShort(fw.image, a, ptrs, rd, table[..], old(fw.gen), fw.gen, old(fw.trail), fw.trail)
  {
    hide Inv;
    hide Complete;
    hide Partial;
    hide Unreadable;
    hide CutShort;
    hide ReadAll;
    hide Malformed;
    hide Unread;
    hide Faults;
    var o;
    ghost var target, unmapped;
    o, target, leaked, rd, ptrs := ReadThrough(th, h, tr, fw, sess, tlb, a, deviceId, table, p0);
    if o == ReadOk {
      LinearizedFrom(fw.image, a, ptrs, rd, table[..], old(fw.gen), fw.gen, deviceId);
      leaked, unmapped := GiveBack(th, h, tr, sess, tlb, p0, target, leaked);
      return TT_OK, false, ptrs, rd, leaked;
    }
    trapped := o == ReadFault;
    r, leaked, unmapped := CleanUp(th, h, tr, sess, tlb, p0, target, leaked);
  }

  lemma HeldExtra(p0: Proc, h: Host, fd: int, tlb: Tlb)
    requires h.Valid() && exists t :: AllocRel(p0, fd, TLB_2MB, Uncached, t, TT_OK, h.Mine(), tlb.View())
    ensures Extra(p0, h.Mine(), fd, tlb.View(), Unbound, {})
  {
  }
}
