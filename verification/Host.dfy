/** The calling process: its system calls into the driver. Before each call
    every other client and the hardware may have acted any number of times. */
module Hosts {
  import opened Clock
  import opened Errors
  import opened Kernel

  /** The part of the device information the library uses. */
  datatype Info = Info(deviceId: Half, domain: Half, busDevFn: Half)

  type Half = x: nat | x < 0x1_0000

  datatype ResetKind = AsicReset | PostReset

  /** What one look at sysfs shows: the device's directory, and the PCI
      command byte if the config file could be read. */
  datatype Sight = Absent | Present(command: Option<nat>)

  /** What the process did, with what came of it: opens (`fd < 0` for a failed
      one), closes, queries, windows given back, resets with their result code
      (none for a refused one) and those they severed, looks at sysfs, and runs of a caller's operation. */
  datatype Event =
    | EvOpen(dev: Dev, excl: bool, nonblock: bool, fd: int)
    | EvClose(closed: DescId, ok: bool)
    | EvInfo(asked: DescId, ok: bool)
    | EvFree(of: DescId, id: nat)
    | EvReset(on: DescId, kind: ResetKind, result: Option<nat>, victims: set<DescId>, at: nat)
    | EvLook(sight: Sight, at: nat)
    | EvRan(outcome: Result<nat>)

  /** A window's mapping offset, which also fixes its cache mode. */
  function Offset(id: nat, writeCombined: bool): nat {
    2 * id + if writeCombined then 1 else 0
  }

  function WindowAt(idx: nat): nat {
    idx / 2
  }

  predicate IsOpen(p: Proc, fd: int) {
    fd >= 0 && fd in p.descs && p.descs[fd].open
  }

  function Closed(p: Proc, d: DescId): Proc
    requires d in p.descs
  {
    p.(descs := p.descs[d := p.descs[d].(open := false)])
  }

  function WithTlbs(p: Proc, d: DescId, tlbs: map<nat, Target>): Proc
    requires d in p.descs
  {
    p.(descs := p.descs[d := p.descs[d].(tlbs := tlbs)])
  }

  /** `e` is what a session operation reports for the first of the system calls
      that failed since `before`. */
  ghost predicate Reports(before: seq<Errno>, after: seq<Errno>, e: Errno) {
    before < after && e == Normalize(after[|before|])
  }

  /** `p` with windows and mappings added to its descriptors. */
  predicate AddsWindows(p: Proc, p': Proc) {
    && p'.descs.Keys == p.descs.Keys
    && (forall d :: d in p.descs ==>
          && p'.descs[d] == p.descs[d].(tlbs := p'.descs[d].tlbs)
          && forall id :: id in p.descs[d].tlbs ==>
               id in p'.descs[d].tlbs && p'.descs[d].tlbs[id] == p.descs[d].tlbs[id])
    && forall a :: a in p.maps ==> a in p'.maps && p'.maps[a] == p.maps[a]
  }

  class Host {
    const me: Client
    const unmaps: bool  // this run's munmap calls on live mappings succeed
    const infos: Dev -> Info
    var k: State
    ghost var log: seq<Event>
    ghost var failed: seq<Errno>  // what each failed system call reported, in order

    constructor (me: Client, unmaps: bool, infos: Dev -> Info)
      ensures Valid() && this.me == me && this.unmaps == unmaps && this.infos == infos
      ensures k == INITIAL && log == [] && failed == []
    {
      this.me, this.unmaps, this.infos := me, unmaps, infos;
      k, log, failed := INITIAL, [], [];
      new;
      RunKeepsInv([]);
    }

    ghost predicate Valid()
      reads this`k
    {
      Inv(k)
    }

    ghost function Mine(): Proc
      reads this`k
    {
      Of(k, me)
    }

    method Interfere()
      requires Valid()
      modifies this`k
      ensures Valid() && Frame(old(k), k, me)
    {
      var acts: seq<Act> :| true;
      OthersRun(k, acts, me);
      k := RunOthers(k, acts, me);
    }

    /** Whatever a caller's operation does: this process may have windows and
        mappings more afterwards, and everybody else may have acted meanwhile. */
    method Work()
      requires Valid()
      modifies this`k
      ensures Valid() && Later(old(k), k) && AddsWindows(old(Mine()), Mine())
    {
      assert Run(k, []) == k;
      var acts: seq<Act> :| AddsWindows(Of(k, me), Of(Run(k, acts), me));
      RunOn(k, acts);
      k := Run(k, acts);
    }

    /** One act of this process, if the driver would carry it out. */
    method Do(a: Act)
      requires Valid() && Enabled(k, a)
      modifies this`k
      ensures Valid() && k == Effect(old(k), a)
    {
      ApplyKeepsInv(k, a);
      k := Apply(k, a);
    }

    /** The errno of a call on a descriptor the driver does not serve. */
    method Reject(th: Thread, fd: int, deny: Option<Errno>) returns (rejected: bool)
      modifies th
      ensures !rejected ==> IsOpen(Mine(), fd) && fd !in k.severed && Usable(k, me, fd)
      ensures rejected && th.errno == EAGAIN ==> deny == Some(EAGAIN)
    {
      rejected := true;
      if fd < 0 || me !in k.procs || fd !in k.procs[me].descs || !k.procs[me].descs[fd].open {
        th.errno := EBADF;
      } else if fd in k.severed {
        th.errno := ENODEV;
      } else if deny.Some? {
        th.errno := deny.value;
      } else {
        rejected := false;
      }
    }

    /** open(2). The arbitration answers first; an admitted open may still
        fail for causes of its own, and a blocking one may be interrupted. */
    method SysOpen(th: Thread, dev: Dev, excl: bool, nonblock: bool) returns (fd: int)
      requires Valid()
      modifies this`k, this`log, this`failed, th
      ensures Valid() && Later(old(k), k) && fd >= -1 && log == old(log) + [EvOpen(dev, excl, nonblock, fd)]
      ensures failed == old(failed) + if fd < 0 then [th.errno] else []
      ensures fd < 0 ==> Frame(old(k), k, me)
      ensures fd < 0 ==> (th.errno == EAGAIN <==> nonblock && dev in k.present && !MayOpen(k, dev, excl))
      ensures fd >= 0 ==> old(k).next <= fd < k.next && fd !in k.severed && fd !in old(Mine()).descs
      ensures fd >= 0 ==> Mine() == old(Mine()).(descs := old(Mine()).descs[fd := Desc(dev, excl, true, map[])])
      ensures fd >= 0 ==> Admits(old(Mine()), k.gone, dev, excl)
    {
      Interfere();
      var cause: Errno :| true;
      if cause == EAGAIN {
        cause := EIO;
      }
      if dev !in k.present {
        th.errno := cause;
        fd := -1;
      } else if !MayOpen(k, dev, excl) {
        th.errno := if nonblock then EAGAIN else cause;
        fd := -1;
      } else {
        var deny: bool :| true;
        if deny {
          th.errno := cause;
          fd := -1;
        } else {
          fd := k.next;
          assert Numbered(k);
          Do(Open(me, dev, excl));
        }
      }
      failed := failed + if fd < 0 then [th.errno] else [];
      log := log + [EvOpen(dev, excl, nonblock, fd)];
    }

    /** close(2) releases the descriptor even when it reports an error. */
    method SysClose(th: Thread, fd: int) returns (ok: bool)
      requires Valid() && fd >= 0
      modifies this`k, this`log, this`failed, th
      ensures Valid() && Later(old(k), k) && log == old(log) + [EvClose(fd, ok)]
      ensures Mine() == if IsOpen(old(Mine()), fd) then Closed(old(Mine()), fd) else old(Mine())
      ensures !IsOpen(old(Mine()), fd) ==> !ok
      ensures failed == old(failed) + if ok then [] else [th.errno]
      ensures ok ==> th.errno == old(th.errno)
    {
      Interfere();
      ok := true;
      if me !in k.procs || fd !in k.procs[me].descs || !k.procs[me].descs[fd].open {
        th.errno := EBADF;
        ok := false;
      } else {
        Do(Close(me, fd));
        var cause: Option<Errno> :| true;
        if cause.Some? {
          th.errno := cause.value;
          ok := false;
        }
      }
      failed := failed + if ok then [] else [th.errno];
      log := log + [EvClose(fd, ok)];
    }

    method SysInfo(th: Thread, fd: int) returns (info: Option<Info>)
      requires Valid() && fd >= 0
      modifies this`k, this`log, this`failed, th
      ensures Valid() && Frame(old(k), k, me) && log == old(log) + [EvInfo(fd, info.Some?)]
      ensures failed == old(failed) + if info.Some? then [] else [th.errno]
      ensures info.Some? ==> IsOpen(Mine(), fd) && fd !in k.severed && info.value == infos(Mine().descs[fd].dev)
    {
      Interfere();
      var deny: Option<Errno> :| true;
      var rejected := Reject(th, fd, deny);
      info := if rejected then None else Some(infos(k.procs[me].descs[fd].dev));
      failed := failed + if rejected then [th.errno] else [];
      log := log + [EvInfo(fd, !rejected)];
    }

    method SysAlloc(th: Thread, fd: int) returns (id: Option<nat>)
      requires Valid()
      modifies this`k, this`failed, th
      ensures Valid() && Later(old(k), k)
      ensures failed == old(failed) + if id.Some? then [] else [th.errno]
      ensures id.None? ==> Mine() == old(Mine())
      ensures id.Some? ==> IsOpen(old(Mine()), fd) && fd !in k.severed && id.value !in old(Mine()).descs[fd].tlbs
      ensures id.Some? ==> Mine() == WithTlbs(old(Mine()), fd, old(Mine()).descs[fd].tlbs[id.value := Unbound])
    {
      Interfere();
      var deny: Option<Errno> :| true;
      var pick: nat :| true;
      var rejected := Reject(th, fd, deny);
      if rejected {
        id := None;
      } else if pick in k.procs[me].descs[fd].tlbs {
        th.errno := Other(12);
        id := None;
      } else {
        Do(Alloc(me, fd, pick));
        id := Some(pick);
      }
      failed := failed + if id.Some? then [] else [th.errno];
    }

    method SysConfigure(th: Thread, fd: int, id: nat, target: Target) returns (ok: bool)
      requires Valid()
      modifies this`k, this`failed, th
      ensures Valid() && Later(old(k), k)
      ensures failed == old(failed) + if ok then [] else [th.errno]
      ensures !ok ==> Mine() == old(Mine())
      ensures ok ==> IsOpen(old(Mine()), fd) && id in old(Mine()).descs[fd].tlbs
      ensures ok ==> Mine() == WithTlbs(old(Mine()), fd, old(Mine()).descs[fd].tlbs[id := target])
    {
      Interfere();
      var deny: Option<Errno> :| true;
      var rejected := Reject(th, fd, deny);
      ok := !rejected && id in k.procs[me].descs[fd].tlbs;
      if ok {
        Do(Configure(me, fd, id, target));
      } else if !rejected {
        th.errno := EINVAL;
      }
      failed := failed + if ok then [] else [th.errno];
    }

    method SysFree(th: Thread, fd: int, id: nat) returns (ok: bool)
      requires Valid() && fd >= 0
      modifies this`k, this`failed, this`log, th
      ensures Valid() && Later(old(k), k)
      ensures log == old(log) + [EvFree(fd, id)]
      ensures failed == old(failed) + if ok then [] else [th.errno]
      ensures !ok ==> Mine() == old(Mine())
      ensures ok ==> IsOpen(old(Mine()), fd) && id in old(Mine()).descs[fd].tlbs
      ensures ok ==> Mine() == WithTlbs(old(Mine()), fd, old(Mine()).descs[fd].tlbs - {id})
    {
      Interfere();
      log := log + [EvFree(fd, id)];
      var deny: Option<Errno> :| true;
      var rejected := Reject(th, fd, deny);
      ok := !rejected && id in k.procs[me].descs[fd].tlbs;
      if ok {
        Do(FreeTlb(me, fd, id));
      } else if !rejected {
        th.errno := EINVAL;
      }
      failed := failed + if ok then [] else [th.errno];
    }

    /** mmap(2) of a window; `0` stands for `MAP_FAILED`. */
    method SysMmap(th: Thread, fd: int, idx: nat, len: nat) returns (at: Addr)
      requires Valid()
      modifies this`k, this`failed, th
      ensures Valid() && Later(old(k), k)
      ensures failed == old(failed) + if at != 0 then [] else [th.errno]
      ensures at == 0 ==> Mine() == old(Mine())
      ensures at != 0 ==> IsOpen(old(Mine()), fd) && WindowAt(idx) in old(Mine()).descs[fd].tlbs
      ensures at != 0 ==> Clear(old(Mine()), at, len) && at !in old(Mine()).maps
      ensures at != 0 ==> Mine() == old(Mine()).(maps := old(Mine()).maps[at := Region(fd, WindowAt(idx), len)])
    {
      Interfere();
      var deny: Option<Errno> :| true;
      var pick: Addr :| true;
      var rejected := Reject(th, fd, deny);
      if rejected {
        at := 0;
      } else if WindowAt(idx) in k.procs[me].descs[fd].tlbs && Clear(k.procs[me], pick, len) {
        assert Tidy(k.procs[me]);
        at := pick;
        Do(Map(me, fd, WindowAt(idx), len, at));
      } else {
        th.errno := EINVAL;
        at := 0;
      }
      failed := failed + if at != 0 then [] else [th.errno];
    }

    /** munmap(2) of the mapping at `at`. */
    method SysMunmap(th: Thread, at: Addr) returns (ok: bool)
      requires Valid()
      modifies this`k, this`failed, th
      ensures Valid() && Later(old(k), k)
      ensures Mine() == if ok then old(Mine()).(maps := old(Mine()).maps - {at}) else old(Mine())
      ensures failed == old(failed) + if ok then [] else [th.errno]
      ensures unmaps ==> ok
    {
      Interfere();
      var fails: bool :| true;
      if fails && !unmaps {
        th.errno := Other(12);
        failed := failed + [th.errno];
        ok := false;
      } else {
        if me in k.procs && at in k.procs[me].maps {
          Do(Unmap(me, at));
        }
        ok := true;
      }
    }

    /** RESET_DEVICE: refused, or carried out with a result code. */
    method SysReset(th: Thread, tm: Timer, fd: int, kind: ResetKind) returns (ok: bool, result: nat)
      requires Valid() && fd >= 0
      modifies this`k, this`log, this`failed, th
      ensures Valid() && Later(old(k), k) && Mine() == old(Mine())
      ensures failed == old(failed) + if ok then [] else [th.errno]
      ensures ok ==> IsOpen(Mine(), fd) && fd !in k.gone
      ensures ok ==>
                log == old(log) + [EvReset(fd, kind, Some(result), Holders(k, Mine().descs[fd].dev) - {fd}, tm.now)]
      ensures !ok ==> log == old(log) + [EvReset(fd, kind, None, {}, tm.now)]
    {
      Interfere();
      var deny: Option<Errno> :| true;
      result :| true;
      var rejected := Reject(th, fd, deny);
      ok := !rejected;
      if ok {
        log := log + [EvReset(fd, kind, Some(result), Holders(k, k.procs[me].descs[fd].dev) - {fd}, tm.now)];
        ghost var before := k;
        Do(Reset(me, fd));
        assert forall dev :: Holders(k, dev) == Holders(before, dev);
      } else {
        log := log + [EvReset(fd, kind, None, {}, tm.now)];
        failed := failed + [th.errno];
      }
    }

    /** Looks at the device in sysfs. */
    method Look(tm: Timer) returns (sight: Sight)
      requires Valid()
      modifies this`k, this`log, tm
      ensures Valid() && Frame(old(k), k, me)
      ensures old(tm.now) <= tm.now <= old(tm.now) + STEP_MAX && tm.signals == old(tm.signals)
      ensures tm.naps == old(tm.naps)
      ensures log == old(log) + [EvLook(sight, tm.now)]
    {
      Interfere();
      sight :| true;
      tm.Pass();
      log := log + [EvLook(sight, tm.now)];
    }
  }

  lemma MineTidy(h: Host)
    requires h.Valid()
    ensures Tidy(h.Mine())
  {
  }
}
