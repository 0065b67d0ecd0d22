/** A client program: any sequence of permitted calls on one session and its
    windows is a run in the sense of the ownership laws, so they hold between its
    calls; and any other call ends them. */
module Programs {
  import opened Errors
  import opened Kernel
  import opened Hosts
  import opened Sessions
  import opened Lifecycle
  import opened Tlbs
  import opened Ownership

  class Program {
    const th: Thread
    const h: Host
    const sess: Session
    var tlbs: seq<Tlb>
    var live: set<nat>  // handles allocated and not freed
    ghost var leaked: set<Addr>
    ghost var ws: seq<World>

    constructor (th: Thread, h: Host, dev: Dev)
      requires h.Valid() && h.k == INITIAL
      ensures Valid() && this.th == th && this.h == h && fresh(sess) && sess.fd == -1 && tlbs == []
    {
      this.th, this.h := th, h;
      sess := new Session(dev, -1, 0);
      tlbs, live, leaked, ws := [], {}, {}, [START];
      new;
      assert Now() == START;
    }

    ghost predicate Shaped()
      reads `tlbs, `live
    {
      && (forall n :: n in live ==> n < |tlbs|)
      && forall i, j :: 0 <= i < j < |tlbs| ==> tlbs[i] != tlbs[j]
    }

    /** The state the ownership laws speak of. */
    ghost function Now(): World
      requires Shaped()
      reads `tlbs, `live, `leaked, h`k, sess, tlbs
    {
      World(h.Mine(), sess.fd, map n | n in live :: tlbs[n].View(), leaked)
    }

    /** The calls made so far are a run, and this is its last state. */
    ghost predicate Valid()
      reads this, h`k, sess, tlbs
    {
      && h.Valid() && Shaped()
      && IsRun(ws) && ws[|ws| - 1] == Now()
    }

    /** Between its calls, a program owns exactly what its handles say. */
    lemma Owns()
      requires Valid()
      ensures Owned(Now())
    {
      RunOwned(ws, |ws| - 1);
    }

    lemma PointerIsMapped(n: nat)
      requires Valid() && n in live
      ensures tlbs[n].ptr != 0 ==> tlbs[n].ptr in h.Mine().maps
    {
      Owns();
      assert HandleOk(Now().p, Now().handles[n]);
    }

    /** Takes a call into the run, if it was permitted. */
    ghost method Record(w: World, op: Op)
      requires h.Valid() && Shaped() && IsRun(ws) && ws[|ws| - 1] == w && Makes(w, op, Now())
      modifies this`ws
      ensures if Permitted(w, op) then Valid() && Does(w, op, Now()) else Shaped() && !Owned(Now())
      ensures Now() == old(Now())
    {
      MineTidy(h);
      hide Inv;
      hide IsRun;
      hide Makes;
      hide Permitted;
      hide Owned;
      hide Tidy;
      RunNext(ws, op, Now());
      if Permitted(w, op) {
        ws := ws + [Now()];
      }
    }

    method Open(dev: Dev, flags: nat) returns (r: Code)
      requires Valid()
      modifies this`ws, th, h`k, h`log, h`failed, sess
      ensures Valid()
      ensures r == TT_OK ==> sess.fd >= 0 && Does(old(Now()), OpOpen(sess.fd, dev, Exclusive(flags)), Now())
      ensures r == TT_ERR ==> Now() == old(Now())
    {
      hide Inv;
      hide IsRun;
      ghost var w := Now();
      r := TtOpen(th, h, dev, sess, flags);
      if r == TT_OK {
        Record(w, OpOpen(sess.fd, dev, Exclusive(flags)));
      }
    }

    method Close() returns (r: Code)
      requires Valid()
      modifies this`ws, th, h`k, h`failed, h`log, sess`fd
      ensures Valid() && Does(old(Now()), OpClose(sess.fd), Now())
    {
      hide Inv;
      hide IsRun;
      ghost var w := Now();
      r := TtClose(th, h, sess);
      Record(w, OpClose(sess.fd));
    }

    method Alloc(size: nat, mode: CacheMode) returns (r: Code)
      requires Valid()
      modifies this`tlbs, this`live, this`ws, th, h`k, h`failed, h`log
      ensures Valid()
      ensures exists t' :: Does(old(Now()), OpAlloc(|old(tlbs)|, size, mode, Handle(0, 0, 0, 0, -1), r, t'), Now())
    {
      hide Inv;
      hide IsRun;
      hide AllocRel;
      ghost var w, n := Now(), |tlbs|;
      var tlb;
      r, tlb := Reserve(size, mode);
      if r == TT_OK {
        Keep(tlb);
      }
      Record(w, OpAlloc(n, size, mode, Handle(0, 0, 0, 0, -1), r, tlb.View()));
    }

    method Reserve(size: nat, mode: CacheMode) returns (r: Code, tlb: Tlb)
      requires h.Valid() && Shaped()
      modifies th, h`k, h`failed, h`log
      ensures h.Valid() && fresh(tlb) && (r == TT_OK ==> tlb.gen == sess.fd)
      ensures AllocRel(old(h.Mine()), sess.fd, size, mode, Handle(0, 0, 0, 0, -1), r, h.Mine(), tlb.View())
      ensures Now() == World(h.Mine(), sess.fd, old(Now()).handles, leaked)
    {
      hide Inv;
      tlb := new Tlb();
      r := TlbAlloc(th, h, sess, size, mode, tlb);
    }

    /** Takes a new handle in. */
    method Keep(tlb: Tlb)
      requires Shaped() && tlb !in tlbs
      modifies this`tlbs, this`live
      ensures Shaped() && tlbs == old(tlbs) + [tlb]
      ensures Now() == old(Now()).(handles := old(Now()).handles[|old(tlbs)| := tlb.View()])
    {
      var n := |tlbs|;
      tlbs, live := tlbs + [tlb], live + {n};
    }

    method Bind(n: nat, target: Target) returns (r: Code, ghost stuck: set<Addr>)
      requires Valid() && n in live
      modifies this`leaked, this`ws, th, h`k, h`failed, tlbs[n]
      ensures Shaped() && Makes(old(Now()), OpBind(n, target, r, tlbs[n].View(), stuck), Now())
      ensures if Permitted(old(Now()), OpBind(n, target, r, tlbs[n].View(), stuck)) then Valid() else !Owned(Now())
    {
      hide Inv;
      hide IsRun;
      hide BindRel;
      hide Permitted;
      PointerIsMapped(n);
      ghost var w := Now();
      r, stuck := Rebind(n, target);
      leaked := leaked + stuck;
      Record(w, OpBind(n, target, r, tlbs[n].View(), stuck));
    }

    method Rebind(n: nat, target: Target) returns (r: Code, ghost stuck: set<Addr>)
      requires h.Valid() && Shaped() && n in live && (tlbs[n].ptr != 0 ==> tlbs[n].ptr in h.Mine().maps)
      modifies th, h`k, h`failed, tlbs[n]
      ensures h.Valid() && tlbs[n].gen == old(tlbs[n].gen)
      ensures BindRel(old(h.Mine()), sess.fd, old(tlbs[n].View()), target, r, h.Mine(), tlbs[n].View(), stuck)
      ensures Now() == World(h.Mine(), sess.fd, old(Now()).handles[n := tlbs[n].View()], leaked)
    {
      hide Inv;
      r, stuck := TlbBind(th, h, sess, tlbs[n], target);
      assert Now().handles == old(Now()).handles[n := tlbs[n].View()];
    }

    method Free(n: nat) returns (r: Code, ghost unmapped: bool)
      requires Valid() && n in live
      modifies this`live, this`ws, th, h`k, h`failed, h`log, tlbs[n]
      ensures Shaped() && Makes(old(Now()), OpFree(n, r, tlbs[n].View(), unmapped), Now())
      ensures if Permitted(old(Now()), OpFree(n, r, tlbs[n].View(), unmapped)) then Valid() else !Owned(Now())
    {
      hide Inv;
      hide IsRun;
      hide FreeRel;
      hide Permitted;
      ghost var w := Now();
      r, unmapped := Release(n);
      if r == TT_OK {
        Forget(n);
      }
      Record(w, OpFree(n, r, tlbs[n].View(), unmapped));
    }

    /** Lets a freed handle go. */
    method Forget(n: nat)
      requires Shaped() && n in live
      modifies this`live
      ensures Shaped()
      ensures Now() == old(Now()).(handles := old(Now()).handles - {n})
    {
      live := live - {n};
      assert Now().handles == old(Now()).handles - {n};
    }

    method Release(n: nat) returns (r: Code, ghost unmapped: bool)
      requires h.Valid() && Shaped() && n in live
      modifies th, h`k, h`failed, h`log, tlbs[n]
      ensures h.Valid() && tlbs[n].gen == old(tlbs[n].gen)
      ensures FreeRel(old(h.Mine()), sess.fd, old(tlbs[n].View()), r, h.Mine(), tlbs[n].View(), unmapped)
      ensures Now() == World(h.Mine(), sess.fd, old(Now()).handles[n := tlbs[n].View()], leaked)
    {
      hide Inv;
      r, unmapped := TlbFree(th, h, sess, tlbs[n]);
      assert Now().handles == old(Now()).handles[n := tlbs[n].View()];
    }
  }
}
