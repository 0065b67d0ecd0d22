/** Conservation over whole runs of a process that opens a session, allocates,
    binds, rebinds and frees windows in any order, and closes or reopens the
    session, while everybody else acts in between. */
module Ownership {
  import opened Errors
  import opened Kernel
  import opened Hosts
  import opened Tlbs

  /** The process: its part of the driver, its session's descriptor, the
      handles it has not freed, and mappings munmap has failed to remove. */
  datatype World = World(p: Proc, fd: int, handles: map<nat, Handle>, leaked: set<Addr>)

  ghost predicate HandleOk(p: Proc, t: Handle) {
    && t.gen >= 0 && t.gen in p.descs && t.id in p.descs[t.gen].tlbs && WindowAt(t.idx) == t.id
    && (t.ptr != 0 ==> t.ptr in p.maps && p.maps[t.ptr] == Region(t.gen, t.id, t.len))
  }

  /** Some handle owns the mapping at `a`. */
  ghost predicate Claimed(w: World, a: Addr) {
    exists n :: n in w.handles && w.handles[n].ptr == a
  }

  /** Every live mapping belongs to exactly one handle, or has leaked; handles
      to windows of one descriptor have distinct ids. */
  ghost predicate Owned(w: World) {
    && Tidy(w.p)
    && (w.fd >= 0 ==> w.fd in w.p.descs)
    && (forall n :: n in w.handles ==> HandleOk(w.p, w.handles[n]) && w.handles[n].ptr !in w.leaked)
    && (forall n, m :: n in w.handles && m in w.handles && n != m && w.handles[n].gen == w.handles[m].gen ==>
          w.handles[n].id != w.handles[m].id)
    && (forall a :: a in w.p.maps ==> a in w.leaked || Claimed(w, a))
    && w.leaked <= w.p.maps.Keys
  }

  // ---- the steps of the process ----

  /** One call of the process, with what it returned and left in the handle. */
  datatype Op =
    | OpAlloc(n: nat, size: nat, mode: CacheMode, t: Handle, r: Code, t': Handle)
    | OpBind(n: nat, target: Target, r: Code, t': Handle, stuck: set<Addr>)
    | OpFree(n: nat, r: Code, t': Handle, unmapped: bool)
    | OpClose(fd': int)
    | OpOpen(d: DescId, dev: Dev, excl: bool)

  /** A handle is used on the descriptor it came from, or after closing it. */
  predicate SameGeneration(w: World, n: nat) {
    n in w.handles && (w.fd < 0 || w.fd == w.handles[n].gen)
  }

  /** Its id names no other handle's window on the session's descriptor. */
  predicate TakesNobodys(w: World, n: nat) {
    n in w.handles &&
    forall m :: m in w.handles && m != n && w.handles[m].gen == w.fd ==> w.handles[m].id != w.handles[n].id
  }

  lemma SameTakesNobodys(w: World, n: nat)
    requires Owned(w) && SameGeneration(w, n)
    ensures TakesNobodys(w, n)
  {
    assert forall m :: m in w.handles ==> HandleOk(w.p, w.handles[m]);
  }

  /** What a call does, used as it should be or not. */
  ghost predicate Makes(w: World, op: Op, w': World) {
    match op
    case OpAlloc(n, size, mode, t, r, t') =>
      && n !in w.handles && AllocRel(w.p, w.fd, size, mode, t, r, w'.p, t')
      && w' == World(w'.p, w.fd, if r == TT_OK then w.handles[n := t'] else w.handles, w.leaked)
    case OpBind(n, target, r, t', stuck) =>
      && n in w.handles && BindRel(w.p, w.fd, w.handles[n], target, r, w'.p, t', stuck)
      && w' == World(w'.p, w.fd, w.handles[n := t'], w.leaked + stuck)
    case OpFree(n, r, t', unmapped) =>
      && n in w.handles && FreeRel(w.p, w.fd, w.handles[n], r, w'.p, t', unmapped)
      && w' == World(w'.p, w.fd, if r == TT_OK then w.handles - {n} else w.handles[n := t'], w.leaked)
    case OpClose(fd') =>
      && w' == World(if IsOpen(w.p, w.fd) then Closed(w.p, w.fd) else w.p, fd', w.handles, w.leaked)
      && (fd' < 0 || fd' == w.fd)
    case OpOpen(d, dev, excl) =>
      && d !in w.p.descs
      && w' == World(w.p.(descs := w.p.descs[d := Desc(dev, excl, true, map[])]), d, w.handles, w.leaked)
  }

  /** A bind that succeeds is of a handle of the session's descriptor, and a free
      that does takes no other handle's window. */
  predicate Permitted(w: World, op: Op) {
    match op
    case OpBind(n, _, r, _, _) => r == TT_OK ==> SameGeneration(w, n)
    case OpFree(n, r, _, _) => r == TT_OK ==> TakesNobodys(w, n)
    case _ => true
  }

  ghost predicate Does(w: World, op: Op, w': World) {
    Makes(w, op, w') && Permitted(w, op)
  }

  ghost predicate Step(w: World, w': World) {
    Tidy(w'.p) && exists op :: Does(w, op, w')
  }

  /** The five parts of ownership, for one handle, pair or mapping at a time. */
  lemma OwnedFrom(w: World)
    requires Tidy(w.p) && (w.fd >= 0 ==> w.fd in w.p.descs) && w.leaked <= w.p.maps.Keys
    requires forall n :: n in w.handles ==> HandleOk(w.p, w.handles[n]) && w.handles[n].ptr !in w.leaked
    requires forall n, m :: n in w.handles && m in w.handles && n != m && w.handles[n].gen == w.handles[m].gen ==>
                            w.handles[n].id != w.handles[m].id
    requires forall a :: a in w.p.maps && a !in w.leaked ==> Claimed(w, a)
    ensures Owned(w)
  {
  }

  lemma AllocHandles(w: World, op: Op, w': World, m: nat)
    requires Owned(w) && op.OpAlloc? && Does(w, op, w') && m in w'.handles
    ensures HandleOk(w'.p, w'.handles[m]) && w'.handles[m].ptr !in w'.leaked
  {
    hide Claimed;
    if m in w.handles {
      assert HandleOk(w.p, w.handles[m]);
    } else {
      assert 0 !in w.p.maps;
    }
  }

  /** A new window has an id of its own on its descriptor. */
  lemma AllocDistinct(w: World, op: Op, w': World, m: nat, l: nat)
    requires Owned(w) && op.OpAlloc? && Does(w, op, w') && m in w.handles && l in w'.handles && l !in w.handles
    ensures w'.handles[m] == w.handles[m]
            && (w'.handles[m].gen == w'.handles[l].gen ==> w'.handles[m].id != w'.handles[l].id)
  {
    hide Claimed;
    hide Tidy;
    assert HandleOk(w.p, w.handles[m]);
  }

  lemma AllocKeeps(w: World, op: Op, w': World)
    requires Owned(w) && Tidy(w'.p) && op.OpAlloc? && Does(w, op, w')
    ensures Owned(w')
  {
    hide HandleOk;
    hide Tidy;
    forall m | m in w'.handles
      ensures HandleOk(w'.p, w'.handles[m]) && w'.handles[m].ptr !in w'.leaked
    {
      AllocHandles(w, op, w', m);
    }
    forall a | a in w'.p.maps && a !in w'.leaked ensures Claimed(w', a) {
      var m :| m in w.handles && w.handles[m].ptr == a;
      assert m in w'.handles && w'.handles[m].ptr == a;
    }
    forall m, l | m in w'.handles && l in w'.handles && m != l && w'.handles[m].gen == w'.handles[l].gen
      ensures w'.handles[m].id != w'.handles[l].id
    {
      if m !in w.handles {
        AllocDistinct(w, op, w', l, m);
      } else if l !in w.handles {
        AllocDistinct(w, op, w', m, l);
      }
    }
    OwnedFrom(w');
  }

  lemma BindHandles(w: World, op: Op, w': World, m: nat)
    requires Owned(w) && Tidy(w'.p) && op.OpBind? && Does(w, op, w') && m in w.handles
    ensures HandleOk(w'.p, w'.handles[m]) && w'.handles[m].ptr !in w'.leaked
  {
    assert HandleOk(w.p, w.handles[op.n]) && HandleOk(w.p, w.handles[m]) && 0 !in w.p.maps && 0 !in w'.p.maps;
    if w.fd < 0 {
      assert w.handles[op.n := op.t'] == w.handles;
    } else {
      if m != op.n && w.handles[m].ptr != 0 {
        PointersDiffer(w, m, op.n);
      }
      hide Owned;
      hide Tidy;
      if m == op.n {
        BindBound(w, op, w');
      } else {
        BindOther(w, op, w', w.handles[m]);
      }
    }
  }

  lemma BindBound(w: World, op: Op, w': World)
    requires op.OpBind? && Does(w, op, w') && w.fd >= 0 && HandleOk(w.p, w.handles[op.n])
    requires 0 !in w.leaked && w.leaked <= w.p.maps.Keys && w.handles[op.n].ptr !in w.leaked
    ensures HandleOk(w'.p, op.t') && op.t'.ptr !in w'.leaked
  {
    if op.r == TT_OK {
      assert op.t'.ptr in w'.p.maps - op.stuck;
    }
  }

  lemma BindOther(w: World, op: Op, w': World, s: Handle)
    requires op.OpBind? && Does(w, op, w') && w.fd >= 0 && HandleOk(w.p, w.handles[op.n])
    requires HandleOk(w.p, s) && s.ptr !in w.leaked && (s.ptr != 0 ==> s.ptr != w.handles[op.n].ptr)
    requires 0 !in w.p.maps && 0 !in w'.p.maps
    ensures HandleOk(w'.p, s) && s.ptr !in w'.leaked
  {
    if s.ptr != 0 {
      assert s.ptr in w.p.maps - {w.handles[op.n].ptr} - op.stuck;
      assert s.ptr in w'.p.maps - op.stuck;
      assert (w'.p.maps - op.stuck)[s.ptr] == w.p.maps[s.ptr];
    }
  }

  lemma BindMaps(w: World, op: Op, w': World, a: Addr)
    requires Owned(w) && Tidy(w'.p) && op.OpBind? && Does(w, op, w')
    ensures a in w'.p.maps && a !in w'.leaked ==> Claimed(w', a)
    ensures a in w'.leaked ==> a in w'.p.maps
  {
    hide Tidy;
    var t := w.handles[op.n];
    assert HandleOk(w.p, t);
    if w.fd < 0 {
      assert w.handles[op.n := op.t'] == w.handles;
      assert w' == w;
    } else if a in w'.leaked {
      if a !in op.stuck {
        assert a in w.p.maps && a != t.ptr;
        assert a in w.p.maps - {t.ptr} - op.stuck;
        assert a in w'.p.maps - op.stuck;
      }
    } else if a in w'.p.maps {
      if a == op.t'.ptr {
        assert w'.handles[op.n].ptr == a;
      } else {
        assert a in w'.p.maps - op.stuck;
        assert a in w.p.maps - {t.ptr} - op.stuck;
        var m :| m in w.handles && w.handles[m].ptr == a;
        assert m in w'.handles && w'.handles[m].ptr == a;
      }
    }
  }

  lemma BindKeeps(w: World, op: Op, w': World)
    requires Owned(w) && Tidy(w'.p) && op.OpBind? && Does(w, op, w')
    ensures Owned(w')
  {
    forall m | m in w'.handles
      ensures HandleOk(w'.p, w'.handles[m]) && w'.handles[m].ptr !in w'.leaked
    {
      BindHandles(w, op, w', m);
    }
    forall a ensures (a in w'.p.maps && a !in w'.leaked ==> Claimed(w', a)) && (a in w'.leaked ==> a in w'.p.maps) {
      BindMaps(w, op, w', a);
    }
    OwnedFrom(w');
  }

  /** Distinct handles never share a mapping. */
  lemma PointersDiffer(w: World, n: nat, m: nat)
    requires Owned(w) && n in w.handles && m in w.handles && n != m && w.handles[n].ptr != 0
    ensures w.handles[n].ptr != w.handles[m].ptr
  {
  }

  lemma FreeKeeps(w: World, op: Op, w': World)
    requires Owned(w) && Tidy(w'.p) && op.OpFree? && Does(w, op, w')
    ensures Owned(w')
  {
    hide HandleOk;
    hide Tidy;
    forall m | m in w'.handles
      ensures HandleOk(w'.p, w'.handles[m]) && w'.handles[m].ptr !in w'.leaked
    {
      FreeHandles(w, op, w', m);
    }
    forall a | a in w'.p.maps && a !in w'.leaked ensures Claimed(w', a) {
      assert a in w.p.maps;
      var m :| m in w.handles && w.handles[m].ptr == a;
      assert m in w'.handles && w'.handles[m].ptr == a;
    }
    OwnedFrom(w');
  }

  lemma FreeHandles(w: World, op: Op, w': World, m: nat)
    requires Owned(w) && op.OpFree? && Does(w, op, w') && m in w'.handles
    ensures HandleOk(w'.p, w'.handles[m]) && w'.handles[m].ptr !in w'.leaked
  {
    hide FreeRel;
    var t, s := w.handles[op.n], w.handles[m];
    assert HandleOk(w.p, t) && HandleOk(w.p, s) && 0 !in w.p.maps;
    if m == op.n {
      FreedOwn(w.p, w.fd, t, op.r, w'.p, op.t', op.unmapped);
    } else {
      if s.ptr != 0 {
        PointersDiffer(w, m, op.n);
      }
      FreedOther(w.p, w.fd, t, op.r, w'.p, op.t', op.unmapped, s);
    }
  }

  lemma FreedOwn(p: Proc, fd: int, t: Handle, r: Code, p': Proc, t': Handle, unmapped: bool)
    requires FreeRel(p, fd, t, r, p', t', unmapped) && HandleOk(p, t)
    ensures r == TT_ERR ==> HandleOk(p', t') && (t'.ptr == 0 || t'.ptr == t.ptr)
  {
  }

  lemma FreedOther(p: Proc, fd: int, t: Handle, r: Code, p': Proc, t': Handle, unmapped: bool, s: Handle)
    requires FreeRel(p, fd, t, r, p', t', unmapped) && HandleOk(p, s)
    requires (s.ptr != 0 ==> s.ptr != t.ptr) && (r == TT_OK && s.gen == fd ==> s.id != t.id)
    ensures HandleOk(p', s)
  {
    if r == TT_OK {
      assert s.id in p'.descs[s.gen].tlbs;
    }
  }

  lemma SessionKeeps(w: World, op: Op, w': World)
    requires Owned(w) && Tidy(w'.p) && (op.OpClose? || op.OpOpen?) && Does(w, op, w')
    ensures Owned(w')
  {
    forall m | m in w'.handles
      ensures HandleOk(w'.p, w'.handles[m]) && w'.handles[m].ptr !in w'.leaked
    {
      assert HandleOk(w.p, w.handles[m]);
    }
    forall a | a in w'.p.maps && a !in w'.leaked ensures Claimed(w', a) {
      assert a in w.p.maps;
    }
    OwnedFrom(w');
  }

  lemma StepKeeps(w: World, w': World)
    requires Owned(w) && Step(w, w')
    ensures Owned(w')
  {
    var op :| Does(w, op, w');
    match op {
      case OpAlloc(_, _, _, _, _, _) => AllocKeeps(w, op, w');
      case OpBind(_, _, _, _, _) => BindKeeps(w, op, w');
      case OpFree(_, _, _, _) => FreeKeeps(w, op, w');
      case OpClose(_) => SessionKeeps(w, op, w');
      case OpOpen(_, _, _) => SessionKeeps(w, op, w');
    }
  }

  const START := World(Proc(map[], map[]), -1, map[], {})

  ghost predicate IsRun(ws: seq<World>) {
    |ws| > 0 && ws[0] == START && forall i :: 0 < i < |ws| ==> Step(ws[i - 1], ws[i])
  }

  /** Ownership holds at every point of every run. */
  lemma {:induction false} RunOwned(ws: seq<World>, i: nat)
    requires IsRun(ws) && i < |ws|
    ensures Owned(ws[i])
  {
    if i > 0 {
      RunOwned(ws, i - 1);
      StepKeeps(ws[i - 1], ws[i]);
    }
  }

  /** The mappings of the window a handle names, less what has leaked. */
  ghost function MappingsOf(w: World, t: Handle): set<Addr> {
    set a | a in w.p.maps && a !in w.leaked && w.p.maps[a].desc == t.gen && w.p.maps[a].tlb == t.id
  }

  /** At every point of every run, a handle has exactly one live mapping if its
      pointer is set and none otherwise. */
  lemma OneMappingEach(ws: seq<World>, i: nat, n: nat)
    requires IsRun(ws) && i < |ws| && n in ws[i].handles
    ensures var t := ws[i].handles[n];
            MappingsOf(ws[i], t) == if t.ptr != 0 then {t.ptr} else {}
  {
    var w := ws[i];
    RunOwned(ws, i);
    var t := w.handles[n];
    assert HandleOk(w.p, t) && t.ptr !in w.leaked;
    forall a | a in MappingsOf(w, t) ensures a == t.ptr && t.ptr != 0 {
      var m :| m in w.handles && w.handles[m].ptr == a;
      assert HandleOk(w.p, w.handles[m]);
    }
  }

  /** At every point of every run, a descriptor is alive, and with it its hold
      on the device, exactly while it is open, a handle of its own is mapped,
      or a mapping of its own has leaked. */
  lemma HoldEndsExactly(ws: seq<World>, i: nat, d: DescId)
    requires IsRun(ws) && i < |ws| && d in ws[i].p.descs
    ensures var w := ws[i];
            Alive(w.p, d) <==>
            || w.p.descs[d].open
            || (exists n :: n in w.handles && w.handles[n].gen == d && w.handles[n].ptr != 0)
            || (exists a :: a in w.leaked && a in w.p.maps && w.p.maps[a].desc == d)
  {
    var w := ws[i];
    RunOwned(ws, i);
    if Mapped(w.p, d) {
      var a :| a in w.p.maps && w.p.maps[a].desc == d;
      if a !in w.leaked {
        var n :| n in w.handles && w.handles[n].ptr == a;
        assert HandleOk(w.p, w.handles[n]);
      }
    }
    if n :| n in w.handles && w.handles[n].gen == d && w.handles[n].ptr != 0 {
      assert HandleOk(w.p, w.handles[n]) && w.p.maps[w.handles[n].ptr].desc == d;
    }
  }

  /** Successive bindings of one handle never overlap: interior pointers into
      the old one fault. */
  lemma RebindNeverOverlaps(w: World, n: nat, target: Target, p': Proc, t': Handle, leaked: set<Addr>)
    requires Owned(w) && n in w.handles && w.handles[n].ptr != 0
    requires BindRel(w.p, w.fd, w.handles[n], target, TT_OK, p', t', leaked)
    ensures var t := w.handles[n];
            t'.ptr + t'.len <= t.ptr || t.ptr + t.len <= t'.ptr
  {
  }

  /** Exactly when a free is harmless, on whatever descriptor the session is by
      now: it keeps ownership if and only if it fails, or no other handle of that
      descriptor has the same id. Within a generation none has; a handle of an
      earlier one may take a younger handle's window. */
  lemma FreeHarmlessIff(w: World, n: nat, r: Code, p': Proc, t': Handle, unmapped: bool)
    requires Owned(w) && n in w.handles && FreeRel(w.p, w.fd, w.handles[n], r, p', t', unmapped)
    ensures var handles := if r == TT_OK then w.handles - {n} else w.handles[n := t'];
            Owned(World(p', w.fd, handles, w.leaked)) <==> r == TT_ERR || TakesNobodys(w, n)
  {
    hide HandleOk;
    FreeTidy(w, n, r, p', t', unmapped);
    hide FreeRel;
    hide Tidy;
    var w' := World(p', w.fd, if r == TT_OK then w.handles - {n} else w.handles[n := t'], w.leaked);
    if r == TT_ERR || TakesNobodys(w, n) {
      FreeKeeps(w, OpFree(n, r, t', unmapped), w');
    } else {
      var m :| m in w.handles && m != n && w.handles[m].gen == w.fd && w.handles[m].id == w.handles[n].id;
      FreedFrom(w.p, w.fd, w.handles[n], p', t', unmapped, w.handles[m]);
      assert m in w'.handles && w'.handles[m] == w.handles[m];
    }
  }

  lemma FreeTidy(w: World, n: nat, r: Code, p': Proc, t': Handle, unmapped: bool)
    requires Owned(w) && n in w.handles && FreeRel(w.p, w.fd, w.handles[n], r, p', t', unmapped)
    ensures Tidy(p')
  {
  }

  /** The handle whose window a free took. */
  lemma FreedFrom(p: Proc, fd: int, t: Handle, p': Proc, t': Handle, unmapped: bool, s: Handle)
    requires FreeRel(p, fd, t, TT_OK, p', t', unmapped) && s.gen == fd && s.id == t.id
    ensures !HandleOk(p', s)
  {
  }

  /** Exactly when a bind is: it keeps ownership if and only if it fails, or the
      handle is of the session's descriptor, or that is closed. */
  lemma BindHarmlessIff(w: World, n: nat, target: Target, r: Code, p': Proc, t': Handle, stuck: set<Addr>)
    requires Owned(w) && n in w.handles && BindRel(w.p, w.fd, w.handles[n], target, r, p', t', stuck) && Tidy(p')
    ensures Owned(World(p', w.fd, w.handles[n := t'], w.leaked + stuck)) <==> r == TT_ERR || SameGeneration(w, n)
  {
    var w' := World(p', w.fd, w.handles[n := t'], w.leaked + stuck);
    if r == TT_ERR || SameGeneration(w, n) {
      hide BindRel;
      BindKeeps(w, OpBind(n, target, r, t', stuck), w');
    } else {
      assert t'.ptr in p'.maps - stuck;
      assert w'.handles[n] == t' && !HandleOk(p', t');
    }
  }

  /** So, whatever the call: ownership survives it if and only if the call was
      permitted. */
  lemma OwnedIffPermitted(w: World, op: Op, w': World)
    requires Owned(w) && Makes(w, op, w') && Tidy(w'.p)
    ensures Owned(w') <==> Permitted(w, op)
  {
    hide Owned;
    hide AllocRel;
    hide BindRel;
    hide FreeRel;
    hide SameGeneration;
    hide TakesNobodys;
    match op {
      case OpAlloc(_, _, _, _, _, _) => AllocKeeps(w, op, w');
      case OpBind(n, target, r, t', stuck) => BindHarmlessIff(w, n, target, r, w'.p, t', stuck);
      case OpFree(n, r, t', unmapped) => FreeHarmlessIff(w, n, r, w'.p, t', unmapped);
      case OpClose(_) => SessionKeeps(w, op, w');
      case OpOpen(_, _, _) => SessionKeeps(w, op, w');
    }
  }

  /** A permitted call carries a run on; any other ends ownership. */
  lemma RunNext(ws: seq<World>, op: Op, w': World)
    requires IsRun(ws) && Tidy(w'.p) && Makes(ws[|ws| - 1], op, w')
    ensures if Permitted(ws[|ws| - 1], op) then IsRun(ws + [w']) else !Owned(w')
  {
    hide Makes;
    hide Tidy;
    hide Permitted;
    hide Owned;
    RunOwned(ws, |ws| - 1);
    OwnedIffPermitted(ws[|ws| - 1], op, w');
    if Permitted(ws[|ws| - 1], op) {
      assert Does(ws[|ws| - 1], op, w');
      assert Step(ws[|ws| - 1], w');
      hide Step;
    }
  }

  /** Why ownership is per descriptor: after a reopen the driver takes an old
      handle's id for a window of the new descriptor. Freeing the old handle on
      the reopened session then succeeds and takes the window away from the
      new handle with the same id. */
  lemma StaleFreeTakesWindow()
    ensures var was, now := Desc(0, false, false, map[5 := Unbound]), Desc(0, false, true, map[5 := Unbound]);
            var p := Proc(map[0 := was, 1 := now], map[]);
            var p' := Proc(p.descs[1 := Desc(0, false, true, map[])], map[]);
            var stale, young := Handle(5, 0, 4096, 10, 0), Handle(5, 0, 4096, 10, 1);
            var w := World(p, 1, map[0 := stale, 1 := young], {});
            && Owned(w) && !TakesNobodys(w, 0)
            && FreeRel(p, 1, stale, TT_OK, p', stale.(id := 0), true)
            && !HandleOk(p', young)
  {
    var handles := map[0 := Handle(5, 0, 4096, 10, 0), 1 := Handle(5, 0, 4096, 10, 1)];
    assert 1 in handles && handles[1].gen == 1 && handles[1].id == handles[0].id;
  }
}
