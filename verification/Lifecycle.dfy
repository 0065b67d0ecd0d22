/** Opening, closing and reopening a session. */
module Lifecycle {
  import opened Errors
  import opened Kernel
  import opened Hosts
  import opened Sessions

  /** The session's descriptor, if it names one, is a descriptor of its device. */
  ghost predicate Bound(h: Host, sess: Session)
    reads h`k, sess
  {
    sess.fd >= 0 ==> sess.fd in h.Mine().descs && h.Mine().descs[sess.fd].dev == sess.dev
  }

  /** The session's own window stands in the way of opening its device again. */
  ghost predicate SelfBlocked(h: Host, sess: Session)
    reads h`k, sess
  {
    Exclusive(sess.flags) && sess.fd >= 0 && Bound(h, sess) && Mapped(h.Mine(), sess.fd)
  }

  /** Another holder stands in the way of a non-blocking open. */
  predicate Busy(k: State, dev: Dev, flags: nat) {
    Nonblocking(flags) && dev in k.present && !MayOpen(k, dev, Exclusive(flags))
  }

  /** The call an open makes, and the descriptor it got (-1 for none). */
  function Opening(dev: Dev, flags: nat, fd: int): Event {
    var both := TT_OPEN_EXCL + TT_OPEN_NONBLOCK;
    EvOpen(dev, flags in {TT_OPEN_EXCL, both}, flags in {TT_OPEN_NONBLOCK, both}, fd)
  }

  method TtOpen(th: Thread, h: Host, dev: Dev, sess: Session, flags: nat) returns (r: Code)
    requires h.Valid()
    modifies th, h`k, h`log, h`failed, sess
    ensures h.Valid() && Later(old(h.k), h.k)
    ensures flags !in {0, TT_OPEN_EXCL, TT_OPEN_NONBLOCK, TT_OPEN_EXCL + TT_OPEN_NONBLOCK} <==> !KnownFlags(flags)
    ensures !KnownFlags(flags) ==> r == TT_ERR && th.errno == EINVAL
    ensures r == TT_ERR ==>
              && h.Mine() == old(h.Mine())
              && sess.dev == old(sess.dev) && sess.fd == old(sess.fd) && sess.flags == old(sess.flags)
    ensures r == TT_ERR && KnownFlags(flags) ==> th.errno == if Busy(h.k, dev, flags) then EAGAIN else ENODEV
    ensures h.failed == old(h.failed) || (|h.failed| == |old(h.failed)| + 1 && old(h.failed) < h.failed)
    ensures h.failed == old(h.failed) <==> r == TT_OK || !KnownFlags(flags)
    ensures r == TT_OK ==> KnownFlags(flags) && sess.dev == dev && sess.flags == flags
    ensures r == TT_OK ==>
              old(h.k).next <= sess.fd < h.k.next && sess.fd !in h.k.severed && sess.fd !in old(h.Mine()).descs
    ensures r == TT_OK ==>
              var desc := Desc(dev, Exclusive(flags), true, map[]);
              h.Mine() == old(h.Mine()).(descs := old(h.Mine()).descs[sess.fd := desc])
    ensures r == TT_OK ==>
              h.Mine().descs[sess.fd].excl == (flags in {TT_OPEN_EXCL, TT_OPEN_EXCL + TT_OPEN_NONBLOCK})
    ensures r == TT_OK ==> Admits(old(h.Mine()), h.k.gone, dev, Exclusive(flags))
    ensures h.log == old(h.log)
                     + if KnownFlags(flags) then [Opening(dev, flags, if r == TT_OK then sess.fd else -1)] else []
  {
    FlagsMean(flags);
    if !KnownFlags(flags) {
      r := th.Fail(EINVAL);
      return;
    }
    var fd := h.SysOpen(th, dev, Exclusive(flags), Nonblocking(flags));
    if fd < 0 {
      r := th.Fail(if th.errno == EAGAIN then EAGAIN else ENODEV);
      return;
    }
    sess.dev, sess.fd, sess.flags := dev, fd, flags;
    r := TT_OK;
  }

  /** The process without an open descriptor `fd`. */
  function Without(p: Proc, fd: int): Proc {
    if IsOpen(p, fd) then Closed(p, fd) else p
  }

  method TtClose(th: Thread, h: Host, sess: Session) returns (r: Code)
    requires h.Valid()
    modifies th, h`k, h`failed, h`log, sess`fd
    ensures h.Valid() && Later(old(h.k), h.k)
    ensures old(sess.fd) < 0 ==> r == TT_OK && sess.fd == old(sess.fd) && h.log == old(h.log)
    ensures old(sess.fd) >= 0 ==>
              && sess.fd == (if r == TT_OK then -1 else old(sess.fd))
              && h.log == old(h.log) + [EvClose(old(sess.fd), r == TT_OK)]
    ensures h.Mine() == Without(old(h.Mine()), old(sess.fd))
    ensures old(sess.fd) >= 0 && !IsOpen(old(h.Mine()), old(sess.fd)) ==> r == TT_ERR
    ensures h.failed == old(h.failed) + if r == TT_OK then [] else [th.errno]
  {
    if sess.fd < 0 {
      r := TT_OK;
      return;
    }
    var ok := h.SysClose(th, sess.fd);
    if !ok {
      r := TT_ERR;
      return;
    }
    sess.fd := -1;
    r := TT_OK;
  }

  /** What reopening a session with descriptor `fd` does to process `p`, given
      how its calls were answered: the old descriptor is released whatever
      close(2) reported, and a failed open leaves the number that closing left. */
  ghost predicate ReopenRel(p: Proc, dev: Dev, flags: nat, fd: int, calls: seq<Event>, r: Code, p': Proc, fd': int) {
    && |calls| == (if fd >= 0 then 2 else 1)
    && (fd >= 0 ==> calls[0].EvClose? && calls[0].closed == fd && (calls[0].ok ==> IsOpen(p, fd)))
    && calls[|calls| - 1] == Opening(dev, flags, if r == TT_OK then fd' else -1)
    && (r == TT_OK ==>
          && fd' >= 0 && fd' !in p.descs
          && p' == Without(p, fd).(descs := Without(p, fd).descs[fd' := Desc(dev, Exclusive(flags), true, map[])]))
    && (r == TT_ERR ==> p' == Without(p, fd) && fd' == if fd >= 0 && calls[0].ok then -1 else fd)
  }

  /** A mapped window keeps every exclusive open of its device out. */
  lemma MappingBlocks(gone: set<DescId>, p: Proc, d: DescId, dev: Dev)
    requires d in p.descs && d !in gone && p.descs[d].dev == dev && Mapped(p, d)
    ensures !Admits(p, gone, dev, true)
  {
    assert Alive(p, d);
  }

  /** So a session stands in its own way, closed or not: while process `p` had a
      window of `fd` mapped, and has done no more than close it. */
  lemma SelfBlocks(k: State, me: Client, p: Proc, fd: DescId, dev: Dev)
    requires Inv(k) && fd in p.descs && p.descs[fd].dev == dev && Mapped(p, fd) && fd !in k.gone
    ensures !Admits(Without(p, fd), k.gone, dev, true)
    ensures Of(k, me) == Without(p, fd) ==> dev in k.present && !MayOpen(k, dev, true)
  {
    MappingBlocks(k.gone, Without(p, fd), fd, dev);
    if Of(k, me) == Without(p, fd) {
      assert Holds(k, me, fd, dev);
    }
  }

  method TtReopen(th: Thread, h: Host, sess: Session) returns (r: Code)
    requires h.Valid() && KnownFlags(sess.flags)
    modifies th, h`k, h`failed, h`log, sess
    ensures h.Valid() && Later(old(h.k), h.k)
    ensures sess.dev == old(sess.dev) && sess.flags == old(sess.flags)
    ensures old(h.log) <= h.log
    ensures ReopenRel(old(h.Mine()), sess.dev, sess.flags, old(sess.fd), h.log[|old(h.log)|..], r, h.Mine(), sess.fd)
    ensures r == TT_OK ==> sess.fd !in h.k.severed
    ensures r == TT_ERR ==> th.errno == if Busy(h.k, sess.dev, sess.flags) then EAGAIN else ENODEV
    ensures |h.failed| == |old(h.failed)| + (if r == TT_ERR then 1 else 0)
                          + if old(sess.fd) >= 0 && !h.log[|old(h.log)|].ok then 1 else 0
    // An exclusive session stands in its own way while a window of it is mapped.
    ensures old(SelfBlocked(h, sess)) && old(sess.fd) !in h.k.gone ==>
              r == TT_ERR && th.errno == if Nonblocking(sess.flags) then EAGAIN else ENODEV
  {
    hide Inv;
    hide Admits;
    hide MayOpen;
    hide Mapped;
    ghost var p, fd, calls, blocked := h.Mine(), sess.fd, h.log, SelfBlocked(h, sess);
    r := TtClose(th, h, sess);
    assert h.Mine().maps == p.maps;
    ghost var closed := h.log[|calls|..];
    r := TtOpen(th, h, sess.dev, sess, sess.flags);
    assert h.log[|calls|..] == closed + [Opening(sess.dev, sess.flags, if r == TT_OK then sess.fd else -1)];
    if blocked && fd !in h.k.gone {
      SelfBlocks(h.k, h.me, p, fd, sess.dev);
    }
  }

  /** A failed reopen leaves the session closed if and only if it was closed
      before or close(2) reported success. */
  lemma FailedReopenCloses(p: Proc, dev: Dev, flags: nat, fd: int, calls: seq<Event>, p': Proc, fd': int)
    requires ReopenRel(p, dev, flags, fd, calls, TT_ERR, p', fd')
    ensures fd' < 0 <==> fd < 0 || calls[0].ok
    ensures fd >= 0 ==> !IsOpen(p', fd)
  {
  }

  /** The promise that it always does fails for an open descriptor whose close
      reports an error, with the device gone: the session keeps the number of a
      descriptor that is no longer open. */
  lemma FailedReopenKeepsNumber()
    ensures var p := Proc(map[7 := Desc(0, false, true, map[])], map[]);
            IsOpen(p, 7) && ReopenRel(p, 0, 0, 7, [EvClose(7, false), Opening(0, 0, -1)], TT_ERR, Closed(p, 7), 7)
  {
  }

  method TtDevInfo(th: Thread, h: Host, sess: Session) returns (r: Code, info: Info)
    requires h.Valid()
    modifies th, h`k, h`log, h`failed
    ensures h.Valid() && Frame(old(h.k), h.k, h.me)
    ensures h.log == old(h.log) + if sess.fd >= 0 then [EvInfo(sess.fd, r == TT_OK)] else []
    ensures r == TT_OK ==>
              IsOpen(h.Mine(), sess.fd) && sess.fd !in h.k.severed && info == h.infos(h.Mine().descs[sess.fd].dev)
    ensures sess.fd < 0 ==> r == TT_ERR && th.errno == ENOTCONN
    ensures r == TT_OK || sess.fd < 0 ==> h.failed == old(h.failed)
    ensures r == TT_ERR && sess.fd >= 0 ==> Reports(old(h.failed), h.failed, th.errno)
  {
    info := Info(0, 0, 0);
    if sess.fd < 0 {
      r := th.Fail(ENOTCONN);
      return;
    }
    var got := h.SysInfo(th, sess.fd);
    if got.None? {
      r := th.FailIo(th.errno);
      return;
    }
    info := got.value;
    r := TT_OK;
  }
}
