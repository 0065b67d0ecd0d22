/** TLB windows: allocating, binding, rebinding and freeing a handle. */
module Tlbs {
  import opened Errors
  import opened Kernel
  import opened Hosts
  import opened Sessions

  datatype CacheMode = Uncached | WriteCombined | BadMode

  /** A handle's fields; `ptr == 0` is the null pointer, and `gen` names the
      descriptor the window was allocated on. */
  datatype Handle = Handle(id: nat, ptr: Addr, len: nat, idx: nat, gen: int)

  class Tlb {
    var id: nat
    var ptr: Addr
    var len: nat
    var idx: nat
    ghost var gen: int

    constructor ()
      ensures View() == Handle(0, 0, 0, 0, -1)
    {
      id, ptr, len, idx, gen := 0, 0, 0, 0, -1;
    }

    ghost function View(): Handle
      reads this
    {
      Handle(id, ptr, len, idx, gen)
    }
  }

  // ---- what each operation does to this process's part of the driver ----

  /** A window and a handle to it come into being together, or neither; only a
      failed clean-up after a bad cache mode leaves a window behind. */
  ghost predicate AllocRel(p: Proc, fd: int, size: nat, mode: CacheMode, t: Handle, r: Code, p': Proc, t': Handle) {
    && (r == TT_OK ==>
          && mode != BadMode && IsOpen(p, fd) && t'.id !in p.descs[fd].tlbs
          && t' == Handle(t'.id, 0, size, Offset(t'.id, mode == WriteCombined), fd)
          && p' == WithTlbs(p, fd, p.descs[fd].tlbs[t'.id := Unbound]))
    && (r == TT_ERR && mode != BadMode ==> p' == p && t' == t)
    && (r == TT_ERR && p' != p ==>
          && IsOpen(p, fd)
          && exists id: nat :: id !in p.descs[fd].tlbs && p' == WithTlbs(p, fd, p.descs[fd].tlbs[id := Unbound]))
  }

  /** A bound handle has one mapping, clear of every mapping alive before; a
      failed bind leaves none. `leaked` are mappings munmap would not remove. */
  ghost predicate BindRel(p: Proc, fd: int, t: Handle, target: Target, r: Code, p': Proc, t': Handle,
          leaked: set<Addr>) {
    && t' == t.(ptr := t'.ptr)
    && leaked <= p'.maps.Keys && t'.ptr !in leaked
    && (forall a :: a in leaked ==> a == t.ptr || a !in p.maps)
    && (fd < 0 ==> r == TT_ERR && p' == p && t' == t && leaked == {})
    && (fd >= 0 && r == TT_ERR ==>
          && t'.ptr == 0 && p'.descs == p.descs
          && p'.maps - leaked == p.maps - {t.ptr} - leaked)
    && (r == TT_OK ==>
          && t'.ptr != 0 && Clear(p, t'.ptr, t.len) && t'.ptr !in p.maps
          && IsOpen(p, fd) && WindowAt(t.idx) in p.descs[fd].tlbs && t.id in p.descs[fd].tlbs
          && p'.descs == WithTlbs(p, fd, p.descs[fd].tlbs[t.id := target]).descs
          && p'.maps - leaked == (p.maps - {t.ptr} - leaked)[t'.ptr := Region(fd, WindowAt(t.idx), t.len)])
  }

  /** A failed bind leaves the handle without a mapping if and only if it got
      past the check that the session is open, or there was none before. */
  lemma FailedBindClears(p: Proc, fd: int, t: Handle, target: Target, p': Proc, t': Handle, leaked: set<Addr>)
    requires BindRel(p, fd, t, target, TT_ERR, p', t', leaked)
    ensures t'.ptr == 0 <==> fd >= 0 || t.ptr == 0
  {
  }

  /** So a bound handle stays bound through a bind on a closed session. */
  lemma ClosedBindKeeps()
    ensures var p := Proc(map[3 := Desc(0, false, false, map[])], map[4096 := Region(3, 0, 8)]);
            var t := Handle(0, 4096, 8, 0, 3);
            BindRel(p, -1, t, Unbound, TT_ERR, p, t, {})
  {
  }

  /** Freeing unmaps first, even on a closed session, and only then gives the
      window back; a failed unmap changes nothing. */
  ghost predicate FreeRel(p: Proc, fd: int, t: Handle, r: Code, p': Proc, t': Handle, unmapped: bool) {
    && (!unmapped ==> r == TT_ERR && p' == p && t' == t && t.ptr != 0)
    && (unmapped ==>
          && t'.ptr == 0 && t' == t.(ptr := 0, id := t'.id) && p'.maps == p.maps - {t.ptr}
          && (r == TT_ERR ==> t'.id == t.id && p'.descs == p.descs)
          && (r == TT_OK ==>
                && IsOpen(p, fd) && t.id in p.descs[fd].tlbs && t'.id == 0
                && p'.descs == WithTlbs(p, fd, p.descs[fd].tlbs - {t.id}).descs))
    && (fd < 0 ==> r == TT_ERR)
  }

  /** A window new to `p` was given back, or is left because that failed. */
  ghost predicate GivenBack(p: Proc, fd: int, id: nat, p': Proc, before: seq<Errno>, after: seq<Errno>) {
    && IsOpen(p, fd) && id !in p.descs[fd].tlbs
    && (p' == p || (p' == WithTlbs(p, fd, p.descs[fd].tlbs[id := Unbound]) && |after| > |before|))
  }

  method TlbAlloc(th: Thread, h: Host, sess: Session, size: nat, mode: CacheMode, tlb: Tlb) returns (r: Code)
    requires h.Valid()
    modifies th, h`k, h`failed, h`log, tlb
    ensures h.Valid() && Later(old(h.k), h.k)
    ensures sess.fd < 0 ==> r == TT_ERR && th.errno == ENOTCONN
    ensures AllocRel(old(h.Mine()), sess.fd, size, mode, old(tlb.View()), r, h.Mine(), tlb.View())
    ensures r == TT_OK || sess.fd < 0 ==> h.failed == old(h.failed)
    ensures r == TT_ERR && sess.fd >= 0 && h.log == old(h.log) ==> Reports(old(h.failed), h.failed, th.errno)
    ensures h.log != old(h.log) ==> mode == BadMode && th.errno == EINVAL
    // In no known mode the new window is given back, unless that fails too.
    ensures h.log == old(h.log) || exists id ::
              && h.log == old(h.log) + [EvFree(sess.fd, id)]
              && GivenBack(old(h.Mine()), sess.fd, id, h.Mine(), old(h.failed), h.failed)
    ensures r == TT_ERR && h.log == old(h.log) ==> h.Mine() == old(h.Mine())
    ensures old(h.failed) <= h.failed
  {
    MineTidy(h);
    hide Inv;
    if sess.fd < 0 {
      r := th.Fail(ENOTCONN);
      return;
    }
    var id := h.SysAlloc(th, sess.fd);
    if id.None? {
      r := th.FailIo(th.errno);
      return;
    }
    tlb.id, tlb.ptr, tlb.len, tlb.gen := id.value, 0, size, sess.fd;
    match mode {
      case Uncached => tlb.idx := Offset(id.value, false);
      case WriteCombined => tlb.idx := Offset(id.value, true);
      case BadMode =>
        r := Unallocate(th, h, sess, tlb, old(h.Mine()));
        return;
    }
    r := TT_OK;
  }

  /** Gives a window back that was asked for in no known mode. */
  method Unallocate(th: Thread, h: Host, sess: Session, tlb: Tlb, ghost p: Proc) returns (r: Code)
    requires h.Valid() && tlb.ptr == 0 && 0 !in p.maps && IsOpen(p, sess.fd) && tlb.id !in p.descs[sess.fd].tlbs
    requires h.Mine() == WithTlbs(p, sess.fd, p.descs[sess.fd].tlbs[tlb.id := Unbound])
    modifies th, h`k, h`failed, h`log, tlb
    ensures h.Valid() && Later(old(h.k), h.k)
    ensures r == TT_ERR && th.errno == EINVAL && old(h.failed) <= h.failed
    ensures h.log == old(h.log) + [EvFree(sess.fd, old(tlb.id))]
    ensures h.Mine() == p || (h.Mine() == old(h.Mine()) && |h.failed| > |old(h.failed)|)
  {
    hide Inv;
    var freed;
    ghost var unmapped;
    freed, unmapped := TlbFree(th, h, sess, tlb);
    assert p.maps - {0} == p.maps;
    if freed == TT_OK {
      assert p.descs[sess.fd].tlbs[old(tlb.id) := Unbound] - {old(tlb.id)} == p.descs[sess.fd].tlbs;
      assert h.Mine() == p;
    }
    r := th.Fail(EINVAL);
  }

  lemma BindClosed(p: Proc, fd: int, t: Handle, target: Target)
    requires fd < 0
    ensures BindRel(p, fd, t, target, TT_ERR, p, t, {})
  {
  }

  lemma BindFailed(p: Proc, fd: int, t: Handle, target: Target, p': Proc, leaked: set<Addr>)
    requires fd >= 0 && leaked <= p'.maps.Keys && 0 !in leaked && forall a :: a in leaked ==> a == t.ptr || a !in p.maps
    requires p'.descs == p.descs && p'.maps - leaked == p.maps - {t.ptr} - leaked
    ensures BindRel(p, fd, t, target, TT_ERR, p', t.(ptr := 0), leaked)
  {
  }

  lemma BindDone(p: Proc, fd: int, t: Handle, target: Target, p': Proc, ptr: Addr, leaked: set<Addr>)
    requires fd >= 0 && leaked <= p'.maps.Keys && leaked <= {t.ptr} && (ptr == t.ptr ==> ptr in p.maps)
    requires ptr != 0 && Clear(p, ptr, t.len) && ptr !in p.maps
    requires IsOpen(p, fd) && WindowAt(t.idx) in p.descs[fd].tlbs && t.id in p.descs[fd].tlbs
    requires p'.descs == WithTlbs(p, fd, p.descs[fd].tlbs[t.id := target]).descs
    requires p'.maps - leaked == (p.maps - {t.ptr} - leaked)[ptr := Region(fd, WindowAt(t.idx), t.len)]
    ensures BindRel(p, fd, t, target, TT_OK, p', t.(ptr := ptr), leaked)
  {
  }

  method TlbBind(th: Thread, h: Host, sess: Session, tlb: Tlb, target: Target)
    returns (r: Code, ghost leaked: set<Addr>)
    requires h.Valid()
    requires tlb.ptr != 0 ==> tlb.ptr in h.Mine().maps
    modifies th, h`k, h`failed, tlb`ptr
    ensures h.Valid() && Later(old(h.k), h.k)
    ensures sess.fd < 0 ==> th.errno == ENOTCONN
    ensures BindRel(old(h.Mine()), sess.fd, old(tlb.View()), target, r, h.Mine(), tlb.View(), leaked)
    ensures old(h.failed) <= h.failed && (sess.fd < 0 || (r == TT_OK && leaked == {}) ==> h.failed == old(h.failed))
    ensures r == TT_ERR && sess.fd >= 0 ==> Reports(old(h.failed), h.failed, th.errno)
    ensures r == TT_OK ==> leaked <= {old(tlb.ptr)} - {0}
    ensures h.unmaps ==> leaked == {}
  {
    MineTidy(h);
    hide Inv;
    hide BindRel;
    leaked := {};
    ghost var p, t := h.Mine(), tlb.View();
    if sess.fd < 0 {
      r := th.Fail(ENOTCONN);
      BindClosed(p, sess.fd, t, target);
      return;
    }
    var ptr := h.SysMmap(th, sess.fd, tlb.idx, tlb.len);
    if ptr == 0 {
      var _ := th.FailIo(th.errno);
      r, leaked := BindCleanup(th, h, tlb, p, {});
      BindFailed(p, sess.fd, t, target, h.Mine(), leaked);
      return;
    }
    r, leaked := BindMapped(th, h, sess, tlb, target, ptr, p);
  }

  /** The rest of a bind, with the window mapped a second time at `ptr`. */
  method BindMapped(th: Thread, h: Host, sess: Session, tlb: Tlb, target: Target, ptr: Addr, ghost p: Proc)
    returns (r: Code, ghost leaked: set<Addr>)
    requires h.Valid() && Tidy(p) && IsOpen(p, sess.fd) && WindowAt(tlb.idx) in p.descs[sess.fd].tlbs
    requires ptr != 0 && Clear(p, ptr, tlb.len) && ptr !in p.maps && (tlb.ptr != 0 ==> tlb.ptr in p.maps)
    requires h.Mine() == p.(maps := p.maps[ptr := Region(sess.fd, WindowAt(tlb.idx), tlb.len)])
    modifies th, h`k, h`failed, tlb`ptr
    ensures h.Valid() && Later(old(h.k), h.k)
    ensures BindRel(p, sess.fd, old(tlb.View()), target, r, h.Mine(), tlb.View(), leaked)
    ensures old(h.failed) <= h.failed && (r == TT_OK && leaked == {} ==> h.failed == old(h.failed))
    ensures r == TT_ERR ==> Reports(old(h.failed), h.failed, th.errno)
    ensures r == TT_OK ==> leaked <= {old(tlb.ptr)} - {0}
    ensures h.unmaps ==> leaked == {}
  {
    hide Inv;
    hide BindRel;
    ghost var t := tlb.View();
    ghost var region := Region(sess.fd, WindowAt(tlb.idx), tlb.len);
    var ok := h.SysConfigure(th, sess.fd, tlb.id, target);
    if !ok {
      var _ := th.FailIo(th.errno);
      ghost var extra := Unbind(th, h, ptr, p.maps, region);
      r, leaked := BindCleanup(th, h, tlb, p, extra);
      BindFailed(p, sess.fd, t, target, h.Mine(), leaked);
      return;
    }
    leaked := Replace(th, h, tlb, ptr, p.maps, region);
    BindDone(p, sess.fd, t, target, h.Mine(), ptr, leaked);
    r := TT_OK;
  }

  /** Takes back the mapping of a window that could not be pointed. */
  method Unbind(th: Thread, h: Host, ptr: Addr, ghost maps: map<Addr, Region>, ghost region: Region)
    returns (ghost extra: set<Addr>)
    requires h.Valid() && ptr !in maps && h.Mine().maps == maps[ptr := region]
    modifies th, h`k, h`failed
    ensures h.Valid() && Later(old(h.k), h.k) && th.errno == old(th.errno)
    ensures old(h.failed) <= h.failed
    ensures h.Mine().descs == old(h.Mine()).descs && extra <= {ptr} && (h.unmaps ==> extra == {})
    ensures extra <= h.Mine().maps.Keys && h.Mine().maps - extra == maps
  {
    hide Inv;
    var err := th.errno;
    var gone := h.SysMunmap(th, ptr);
    extra := if gone then {} else {ptr};
    th.errno := err;
  }

  /** Makes the new mapping the handle's and unmaps the one it replaces. */
  method Replace(th: Thread, h: Host, tlb: Tlb, ptr: Addr, ghost maps: map<Addr, Region>, ghost region: Region)
    returns (ghost leaked: set<Addr>)
    requires h.Valid() && ptr !in maps && 0 !in maps && h.Mine().maps == maps[ptr := region]
    requires tlb.ptr != 0 ==> tlb.ptr in maps
    modifies th, h`k, h`failed, tlb`ptr
    ensures h.Valid() && Later(old(h.k), h.k)
    ensures old(h.failed) <= h.failed && (leaked == {} ==> h.failed == old(h.failed))
    ensures tlb.ptr == ptr && h.Mine().descs == old(h.Mine()).descs
    ensures leaked <= {old(tlb.ptr)} - {0} && (h.unmaps ==> leaked == {})
    ensures leaked <= h.Mine().maps.Keys && h.Mine().maps - leaked == (maps - {old(tlb.ptr)} - leaked)[ptr := region]
  {
    hide Inv;
    leaked := {};
    if tlb.ptr != 0 {
      var gone := h.SysMunmap(th, tlb.ptr);
      leaked := if gone then {} else {tlb.ptr};
    }
    tlb.ptr := ptr;
  }

  /** The shared failure path of a bind: unmap the previous mapping, keeping
      the cause. `extra` is what the failed bind could not unmap itself. */
  method BindCleanup(th: Thread, h: Host, tlb: Tlb, ghost p: Proc, ghost extra: set<Addr>)
    returns (r: Code, ghost leaked: set<Addr>)
    requires h.Valid() && extra !! p.maps.Keys && 0 !in p.maps && 0 !in extra
    requires h.Mine().descs == p.descs && extra <= h.Mine().maps.Keys && h.Mine().maps - extra == p.maps
    requires tlb.ptr != 0 ==> tlb.ptr in p.maps
    modifies th, h`k, h`failed, tlb`ptr
    ensures h.Valid() && Later(old(h.k), h.k)
    ensures old(h.failed) <= h.failed
    ensures r == TT_ERR && th.errno == old(th.errno) && tlb.View() == old(tlb.View()).(ptr := 0)
    ensures h.Mine().descs == p.descs && leaked <= h.Mine().maps.Keys && 0 !in leaked
            && leaked <= extra + {old(tlb.ptr)}
    ensures h.Mine().maps - leaked == p.maps - {old(tlb.ptr)} - leaked
    ensures h.unmaps ==> leaked == extra
  {
    hide Inv;
    var err := th.errno;
    leaked := extra;
    if tlb.ptr != 0 {
      var gone := h.SysMunmap(th, tlb.ptr);
      leaked := if gone then extra else extra + {tlb.ptr};
      tlb.ptr := 0;
    }
    r := th.Fail(err);
  }

  method TlbFree(th: Thread, h: Host, sess: Session, tlb: Tlb) returns (r: Code, ghost unmapped: bool)
    requires h.Valid()
    modifies th, h`k, h`failed, h`log, tlb
    ensures h.Valid() && Later(old(h.k), h.k)
    ensures FreeRel(old(h.Mine()), sess.fd, old(tlb.View()), r, h.Mine(), tlb.View(), unmapped)
    ensures unmapped && sess.fd < 0 ==> th.errno == ENOTCONN
    ensures r == TT_OK || (unmapped && sess.fd < 0) ==> h.failed == old(h.failed)
    ensures !unmapped ==> h.failed == old(h.failed) + [th.errno]
    ensures unmapped && sess.fd >= 0 && r == TT_ERR ==> Reports(old(h.failed), h.failed, th.errno)
    ensures h.log == old(h.log) + if unmapped && sess.fd >= 0 then [EvFree(sess.fd, old(tlb.id))] else []
    ensures h.unmaps ==> unmapped
  {
    unmapped := true;
    MineTidy(h);
    if tlb.ptr != 0 {
      var gone := h.SysMunmap(th, tlb.ptr);
      if !gone {
        unmapped := false;
        r := TT_ERR;
        return;
      }
    }
    tlb.ptr := 0;
    assert h.Mine().maps == old(h.Mine()).maps - {old(tlb.ptr)};
    if sess.fd < 0 {
      r := th.Fail(ENOTCONN);
      return;
    }
    var ok := h.SysFree(th, sess.fd, tlb.id);
    if !ok {
      r := th.FailIo(th.errno);
      return;
    }
    tlb.id := 0;
    r := TT_OK;
  }
}
