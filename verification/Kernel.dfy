/** The environment: the driver's descriptors, TLB windows and mappings for
    every client of every device, with its open-time arbitration, and the
    hardware events that sever descriptors. One `Act` is one system call of
    one client, or one hardware event; runs interleave them freely. */
module Kernel {
  type Client = nat
  type Dev = nat
  type DescId = nat
  type Addr = nat

  /** What a TLB window points at on the device's network-on-chip. */
  datatype Target = Unbound | Noc(addr: nat, x: nat, y: nat)

  /** An open file description, with the TLB windows it owns. */
  datatype Desc = Desc(dev: Dev, excl: bool, open: bool, tlbs: map<nat, Target>)

  /** A live mapping of a window. */
  datatype Region = Region(desc: DescId, tlb: nat, len: nat)

  datatype Proc = Proc(descs: map<DescId, Desc>, maps: map<Addr, Region>)

  /** `severed` descriptors answer no call any more; those in `gone` belong to a
      device instance that has been removed, whatever is probed afterwards. */
  datatype State = State(procs: map<Client, Proc>, severed: set<DescId>, gone: set<DescId>, present: set<Dev>,
          next: DescId)

  function Of(k: State, c: Client): Proc {
    if c in k.procs then k.procs[c] else Proc(map[], map[])
  }

  /** A mapping keeps a closed descriptor, and its hold on the device, alive. */
  predicate Mapped(p: Proc, d: DescId) {
    exists a :: a in p.maps && p.maps[a].desc == d
  }

  predicate Alive(p: Proc, d: DescId) {
    d in p.descs && (p.descs[d].open || Mapped(p, d))
  }

  /** Client `c`'s descriptor `d` is alive and holds device `dev`, in its
      present instance. */
  predicate Holds(k: State, c: Client, d: DescId, dev: Dev) {
    c in k.procs && Alive(k.procs[c], d) && k.procs[c].descs[d].dev == dev && d !in k.gone
  }

  predicate HoldsExclusively(k: State, c: Client, d: DescId, dev: Dev) {
    Holds(k, c, d, dev) && k.procs[c].descs[d].excl
  }

  /** Every descriptor that holds `dev`, of any client. */
  function Holders(k: State, dev: Dev): set<DescId> {
    set c, d | c in k.procs && d in k.procs[c].descs && Holds(k, c, d, dev) :: d
  }

  /** The arbitration: writers exclude everybody, readers exclude writers. */
  predicate MayOpen(k: State, dev: Dev, excl: bool) {
    forall c :: c in k.procs ==> Admits(k.procs[c], k.gone, dev, excl)
  }

  predicate Admits(p: Proc, gone: set<DescId>, dev: Dev, excl: bool) {
    forall d :: d in p.descs && d !in gone && Alive(p, d) && p.descs[d].dev == dev ==> !excl && !p.descs[d].excl
  }

  /** A fresh mapping lies clear of every other mapping of its process. */
  predicate Clear(p: Proc, at: Addr, len: nat) {
    at > 0 && len > 0 && forall a :: a in p.maps ==> at + len <= a || a + p.maps[a].len <= at
  }

  /** Descriptor `d` of `p` answers system calls. */
  predicate Usable(k: State, c: Client, d: DescId) {
    c in k.procs && d in k.procs[c].descs && k.procs[c].descs[d].open && d !in k.severed
  }

  datatype Act =
    | Open(c: Client, dev: Dev, excl: bool)
    | Close(c: Client, d: DescId)
    | Alloc(c: Client, d: DescId, id: nat)
    | Configure(c: Client, d: DescId, id: nat, target: Target)
    | FreeTlb(c: Client, d: DescId, id: nat)
    | Map(c: Client, d: DescId, id: nat, len: nat, at: Addr)
    | Unmap(c: Client, at: Addr)
    | Reset(c: Client, d: DescId)
    | OutOfBand(dev: Dev)
    | Remove(dev: Dev)
    | Probe(dev: Dev)

  predicate By(a: Act, me: Client) {
    !a.OutOfBand? && !a.Remove? && !a.Probe? && a.c == me
  }

  predicate Enabled(k: State, a: Act) {
    match a
    case Open(c, dev, excl) => dev in k.present && MayOpen(k, dev, excl)
    case Close(c, d) => c in k.procs && d in k.procs[c].descs && k.procs[c].descs[d].open
    case Alloc(c, d, id) => Usable(k, c, d) && id !in k.procs[c].descs[d].tlbs
    case Configure(c, d, id, _) => Usable(k, c, d) && id in k.procs[c].descs[d].tlbs
    case FreeTlb(c, d, id) => Usable(k, c, d) && id in k.procs[c].descs[d].tlbs
    case Map(c, d, id, len, at) =>
      Usable(k, c, d) && id in k.procs[c].descs[d].tlbs && Clear(k.procs[c], at, len)
    case Unmap(c, at) => c in k.procs && at in k.procs[c].maps
    case Reset(c, d) => Usable(k, c, d)
    case OutOfBand(_) => true
    case Remove(_) => true
    case Probe(_) => true
  }

  function SetDesc(k: State, c: Client, d: DescId, desc: Desc): State
    requires c in k.procs
  {
    k.(procs := k.procs[c := k.procs[c].(descs := k.procs[c].descs[d := desc])])
  }

  function SetMaps(k: State, c: Client, maps: map<Addr, Region>): State
    requires c in k.procs
  {
    k.(procs := k.procs[c := k.procs[c].(maps := maps)])
  }

  function Effect(k: State, a: Act): State
    requires Enabled(k, a)
  {
    match a
    case Open(c, dev, excl) =>
      var p := Of(k, c);
      k.(procs := k.procs[c := p.(descs := p.descs[k.next := Desc(dev, excl, true, map[])])], next := k.next + 1)
    case Close(c, d) => SetDesc(k, c, d, k.procs[c].descs[d].(open := false))
    case Alloc(c, d, id) =>
      var desc := k.procs[c].descs[d];
      SetDesc(k, c, d, desc.(tlbs := desc.tlbs[id := Unbound]))
    case Configure(c, d, id, target) =>
      var desc := k.procs[c].descs[d];
      SetDesc(k, c, d, desc.(tlbs := desc.tlbs[id := target]))
    case FreeTlb(c, d, id) =>
      var desc := k.procs[c].descs[d];
      SetDesc(k, c, d, desc.(tlbs := desc.tlbs - {id}))
    case Map(c, d, id, len, at) => SetMaps(k, c, k.procs[c].maps[at := Region(d, id, len)])
    case Unmap(c, at) => SetMaps(k, c, k.procs[c].maps - {at})
    // A reset bumps the generation: every descriptor of the device but the
    // issuing one is severed, and its mappings fault from then on.
    case Reset(c, d) => k.(severed := k.severed + (Holders(k, k.procs[c].descs[d].dev) - {d}))
    case OutOfBand(dev) => k.(severed := k.severed + Holders(k, dev))
    case Remove(dev) =>
      k.(severed := k.severed + Holders(k, dev), gone := k.gone + Holders(k, dev), present := k.present - {dev})
    case Probe(dev) => k.(present := k.present + {dev})
  }

  /** A system call the driver refuses changes nothing. */
  function Apply(k: State, a: Act): State {
    if Enabled(k, a) then Effect(k, a) else k
  }

  function Run(k: State, acts: seq<Act>): State {
    if acts == [] then k else Apply(Run(k, acts[..|acts| - 1]), acts[|acts| - 1])
  }

  /** What everybody but `me` does. */
  function RunOthers(k: State, acts: seq<Act>, me: Client): State {
    if acts == [] then k else
      var k' := RunOthers(k, acts[..|acts| - 1], me);
      if By(acts[|acts| - 1], me) then k' else Apply(k', acts[|acts| - 1])
  }

  const INITIAL := State(map[], {}, {}, {}, 0)

  // ---- the invariant of every run ----

  ghost predicate Tidy(p: Proc) {
    && (forall a :: a in p.maps ==> a > 0 && p.maps[a].len > 0 && p.maps[a].desc in p.descs)
    && (forall a, b :: a in p.maps && b in p.maps && a != b ==> a + p.maps[a].len <= b || b + p.maps[b].len <= a)
  }

  /** An exclusive holder of a device is its only holder. */
  ghost predicate Arbitrated(k: State) {
    forall c, d, c', d', dev :: HoldsExclusively(k, c, d, dev) && Holds(k, c', d', dev) ==> d == d'
  }

  /** Descriptor numbers are given out once, each to one client. */
  ghost predicate Numbered(k: State) {
    && k.gone <= k.severed && (forall d :: d in k.severed ==> d < k.next)
    && (forall c, d :: c in k.procs && d in k.procs[c].descs ==> d < k.next)
    && (forall c, c', d :: c in k.procs && c' in k.procs && d in k.procs[c].descs && d in k.procs[c'].descs ==> c == c')
  }

  /** Only devices that are there are held. */
  ghost predicate Placed(k: State) {
    forall c, d, dev :: Holds(k, c, d, dev) ==> dev in k.present
  }

  ghost predicate Inv(k: State) {
    && Numbered(k) && Placed(k)
    && (forall c :: c in k.procs ==> Tidy(k.procs[c]))
    && Arbitrated(k)
  }

  /** Holding a device changes hands only by opening: every holder after any
      other act held it before, with the same kind of hold. */
  ghost predicate NoNewHolds(k: State, k': State) {
    forall c, d, dev :: Holds(k', c, d, dev) ==>
      Holds(k, c, d, dev) && k'.procs[c].descs[d].excl == k.procs[c].descs[d].excl
  }

  lemma ArbitratedFrom(k: State, k': State)
    requires Arbitrated(k) && NoNewHolds(k, k')
    ensures Arbitrated(k')
  {
    forall c, d, c', d', dev | HoldsExclusively(k', c, d, dev) && Holds(k', c', d', dev)
      ensures d == d'
    {
      assert HoldsExclusively(k, c, d, dev) && Holds(k, c', d', dev);
    }
  }

  /** An act that opens nothing: descriptors keep their device and kind, and
      only an open one is mapped anew. */
  lemma NothingOpened(k: State, a: Act, c: Client)
    requires Inv(k) && Enabled(k, a) && !a.Open? && c in Effect(k, a).procs
    ensures c in k.procs && k.gone <= Effect(k, a).gone
    ensures var p, p' := k.procs[c], Effect(k, a).procs[c];
            && (forall d :: d in p'.descs ==>
                  d in p.descs && p'.descs[d].dev == p.descs[d].dev && p'.descs[d].excl == p.descs[d].excl)
            && (forall d :: d in p'.descs && p'.descs[d].open ==> p.descs[d].open)
            && (forall at :: at in p'.maps && at !in p.maps ==>
                  p'.maps[at].desc in p.descs && p.descs[p'.maps[at].desc].open)
            && (forall at :: at in p'.maps && at in p.maps ==> p'.maps[at] == p.maps[at])
  {
    hide MayOpen;
    hide Holders;
    hide Arbitrated;
    hide Placed;
    hide Numbered;
  }

  lemma MappedOnlyBefore(k: State, a: Act)
    requires Inv(k) && Enabled(k, a) && !a.Open?
    ensures NoNewHolds(k, Effect(k, a))
  {
    hide Effect;
    var k' := Effect(k, a);
    forall c, d, dev | Holds(k', c, d, dev)
      ensures Holds(k, c, d, dev) && k'.procs[c].descs[d].excl == k.procs[c].descs[d].excl
    {
      NothingOpened(k, a, c);
      var p, p' := k.procs[c], k'.procs[c];
      if !p'.descs[d].open {
        var at :| at in p'.maps && p'.maps[at].desc == d;
      }
    }
  }

  /** An open adds one hold and leaves every other as it was. */
  lemma OpenAddsOne(k: State, a: Act, c: Client, d: DescId, dev: Dev)
    requires Inv(k) && Enabled(k, a) && a.Open? && Holds(Effect(k, a), c, d, dev) && d != k.next
    ensures Holds(k, c, d, dev) && Effect(k, a).procs[c].descs[d] == k.procs[c].descs[d]
  {
  }

  lemma OpenNewcomer(k: State, a: Act, c: Client, dev: Dev)
    requires Inv(k) && Enabled(k, a) && a.Open? && Holds(Effect(k, a), c, k.next, dev)
    ensures c == a.c && dev == a.dev && Effect(k, a).procs[c].descs[k.next].excl == a.excl
  {
  }

  lemma OpenArbitrated(k: State, a: Act)
    requires Inv(k) && Enabled(k, a) && a.Open?
    ensures Arbitrated(Effect(k, a))
  {
    var k' := Effect(k, a);
    forall c, d, c', d', dev | HoldsExclusively(k', c, d, dev) && Holds(k', c', d', dev)
      ensures d == d'
    {
      if d == k.next {
        OpenNewcomer(k, a, c, dev);
        if d' != k.next {
          OpenAddsOne(k, a, c', d', dev);
        }
      } else {
        OpenAddsOne(k, a, c, d, dev);
        if d' == k.next {
          OpenNewcomer(k, a, c', dev);
        } else {
          OpenAddsOne(k, a, c', d', dev);
          assert HoldsExclusively(k, c, d, dev);
        }
      }
    }
  }

  lemma TidyMapped(p: Proc, at: Addr, r: Region)
    requires Tidy(p) && Clear(p, at, r.len) && r.desc in p.descs
    ensures Tidy(p.(maps := p.maps[at := r]))
  {
  }

  lemma TidyAfter(k: State, a: Act)
    requires Inv(k) && Enabled(k, a)
    ensures forall c :: c in Effect(k, a).procs ==> Tidy(Effect(k, a).procs[c])
  {
    hide MayOpen;
    hide Holders;
    hide Arbitrated;
    hide Placed;
    hide Numbered;
    if a.Map? {
      TidyMapped(k.procs[a.c], a.at, Region(a.d, a.id, a.len));
      hide Clear;
      hide Tidy;
    } else {
      hide Clear;
    }
  }

  lemma NumberedAfter(k: State, a: Act)
    requires Inv(k) && Enabled(k, a)
    ensures Numbered(Effect(k, a))
  {
    hide MayOpen;
    hide Arbitrated;
    hide Placed;
    hide Tidy;
    var k' := Effect(k, a);
    forall c, d | c in k'.procs && d in k'.procs[c].descs
      ensures d < k'.next && (d in Of(k, c).descs || (a.Open? && c == a.c && d == k.next))
    {
    }
  }

  lemma PlacedAfter(k: State, a: Act)
    requires Inv(k) && Enabled(k, a)
    ensures Placed(Effect(k, a))
  {
    hide MayOpen;
    hide Tidy;
    hide Arbitrated;
    hide Numbered;
    var k' := Effect(k, a);
    forall c, d, dev | Holds(k', c, d, dev)
      ensures dev in k'.present
    {
      if a.Open? && d == k.next {
        OpenNewcomer(k, a, c, dev);
      } else if a.Open? {
        OpenAddsOne(k, a, c, d, dev);
      } else {
        MappedOnlyBefore(k, a);
      }
    }
  }

  lemma ApplyKeepsInv(k: State, a: Act)
    requires Inv(k)
    ensures Inv(Apply(k, a))
  {
    if Enabled(k, a) {
      TidyAfter(k, a);
      NumberedAfter(k, a);
      PlacedAfter(k, a);
      if a.Open? {
        OpenArbitrated(k, a);
      } else {
        MappedOnlyBefore(k, a);
        ArbitratedFrom(k, Effect(k, a));
      }
    }
  }

  /** What no act takes back: descriptors stay severed, removed instances gone,
      and numbers used. */
  predicate Later(k: State, k': State) {
    k.severed <= k'.severed && k.gone <= k'.gone && k.next <= k'.next
  }

  /** What `me` can rely on while others act: its own descriptors, windows and
      mappings stay as they are, except that they may be severed. */
  ghost predicate Frame(k: State, k': State, me: Client) {
    && Of(k', me) == Of(k, me)
    && Later(k, k')
  }

  lemma ApplyFrames(k: State, a: Act, me: Client)
    requires !By(a, me)
    ensures Frame(k, Apply(k, a), me)
  {
  }

  lemma {:induction false} OthersRun(k: State, acts: seq<Act>, me: Client)
    requires Inv(k)
    ensures Inv(RunOthers(k, acts, me)) && Frame(k, RunOthers(k, acts, me), me)
  {
    if acts != [] {
      var k', a := RunOthers(k, acts[..|acts| - 1], me), acts[|acts| - 1];
      OthersRun(k, acts[..|acts| - 1], me);
      ApplyKeepsInv(k', a);
      if !By(a, me) {
        ApplyFrames(k', a, me);
      }
    }
  }

  lemma ApplyLater(k: State, a: Act)
    ensures Later(k, Apply(k, a))
  {
  }

  lemma {:induction false} RunOn(k: State, acts: seq<Act>)
    requires Inv(k)
    ensures Inv(Run(k, acts)) && Later(k, Run(k, acts))
  {
    if acts != [] {
      var k', a := Run(k, acts[..|acts| - 1]), acts[|acts| - 1];
      RunOn(k, acts[..|acts| - 1]);
      ApplyKeepsInv(k', a);
      ApplyLater(k', a);
    }
  }

  // ---- properties of every run ----

  lemma RunKeepsInv(acts: seq<Act>)
    ensures Inv(Run(INITIAL, acts))
  {
    RunOn(INITIAL, acts);
  }

  /** The exclusive holder is alone on its device. */
  lemma ExclusiveIsAlone(k: State, c: Client, d: DescId, dev: Dev)
    requires Inv(k) && HoldsExclusively(k, c, d, dev)
    ensures Holders(k, dev) == {d}
  {
  }

  /** In every run, a reset issued on an exclusive descriptor severs nobody. */
  lemma ExclusiveResetSeversNobody(acts: seq<Act>, c: Client, d: DescId)
    requires var k := Run(INITIAL, acts);
             Enabled(k, Reset(c, d)) && k.procs[c].descs[d].excl
    ensures Run(INITIAL, acts + [Reset(c, d)]) == Run(INITIAL, acts)
  {
    var k := Run(INITIAL, acts);
    RunKeepsInv(acts);
    ExclusiveIsAlone(k, c, d, k.procs[c].descs[d].dev);
    assert (acts + [Reset(c, d)])[..|acts|] == acts;
    assert k.severed + ({d} - {d}) == k.severed;
  }

  /** A shared reset does sever: exclusivity is what protects the others. */
  lemma SharedResetSevers()
    ensures var acts := [Probe(0), Open(1, 0, false), Open(2, 0, false)];
            Run(INITIAL, acts + [Reset(1, 0)]).severed == {1}
  {
    var k1 := Apply(INITIAL, Probe(0));
    var k2 := Apply(k1, Open(1, 0, false));
    var k3 := Apply(k2, Open(2, 0, false));
    var acts := [Probe(0), Open(1, 0, false), Open(2, 0, false)];
    assert acts[..2] == [Probe(0), Open(1, 0, false)] && acts[..2][..1] == [Probe(0)] && acts[..2][..1][..0] == [];
    assert Run(INITIAL, acts[..2][..1]) == k1;
    assert Run(INITIAL, acts[..2]) == k2;
    assert Run(INITIAL, acts) == k3;
    assert (acts + [Reset(1, 0)])[..3] == acts;
    assert Holds(k3, 1, 0, 0) && Holds(k3, 2, 1, 0);
    assert Holders(k3, 0) == {0, 1};
  }

  /** A reset nobody's descriptor issued severs every holder, an exclusive one
      included, and a removal does; the device stays held, if it stays. */
  lemma OutOfBandSeversAll(k: State, c: Client, d: DescId, dev: Dev)
    requires Holds(k, c, d, dev)
    ensures !Usable(Apply(k, OutOfBand(dev)), c, d) && Holds(Apply(k, OutOfBand(dev)), c, d, dev)
    ensures !Usable(Apply(k, Remove(dev)), c, d) && !Holds(Apply(k, Remove(dev)), c, d, dev)
  {
    assert d in Holders(k, dev);
  }

  /** From an exclusive open until its descriptor is closed or its device
      removed, no other descriptor is alive on the device, whatever anybody
      does in between. */
  lemma {:induction false} AloneUntilClosed(acts: seq<Act>, more: seq<Act>, c: Client, dev: Dev)
    requires Enabled(Run(INITIAL, acts), Open(c, dev, true))
    requires Close(c, Run(INITIAL, acts).next) !in more && Remove(dev) !in more
    ensures var d := Run(INITIAL, acts).next;
            var k := Run(INITIAL, acts + [Open(c, dev, true)] + more);
            HoldsExclusively(k, c, d, dev) && Holders(k, dev) == {d}
  {
    var since, d := acts + [Open(c, dev, true)], Run(INITIAL, acts).next;
    OpenedExclusively(acts, c, dev);
    StaysOpen(since, more, c, dev, d);
    RunKeepsInv(since + more);
    ExclusiveIsAlone(Run(INITIAL, since + more), c, d, dev);
  }

  /** Nor is it any use to a removed instance's descriptor that the device is
      probed again: from an exclusive open on, whatever anybody does, removal
      and re-probing included, a reset on its descriptor severs nobody. */
  lemma {:induction false} ResetHarmsNobody(acts: seq<Act>, more: seq<Act>, c: Client, dev: Dev)
    requires Enabled(Run(INITIAL, acts), Open(c, dev, true))
    ensures var d := Run(INITIAL, acts).next;
            var run := acts + [Open(c, dev, true)] + more;
            Run(INITIAL, run + [Reset(c, d)]) == Run(INITIAL, run)
  {
    var since, d := acts + [Open(c, dev, true)], Run(INITIAL, acts).next;
    var run := since + more;
    OpenedExclusively(acts, c, dev);
    StaysExclusive(since, more, c, dev, d);
    assert (run + [Reset(c, d)])[..|run|] == run;
    if Enabled(Run(INITIAL, run), Reset(c, d)) {
      ExclusiveResetSeversNobody(run, c, d);
    }
  }

  /** Removing the device is the way around an exclusive holder: probed again,
      it may be opened by anybody, even exclusively, though the old descriptor
      is still alive, and the old holder's reset is refused. */
  lemma RemovalFreesDevice(k: State, c: Client, d: DescId, dev: Dev, c': Client)
    requires Inv(k) && HoldsExclusively(k, c, d, dev)
    ensures !Enabled(k, Open(c', dev, false)) && Enabled(Replugged(k, dev), Open(c', dev, true))
    ensures Alive(Of(Replugged(k, dev), c), d) && !Enabled(Replugged(k, dev), Reset(c, d))
  {
    hide Inv;
    hide Enabled;
    hide Replugged;
    Excludes(k, c, d, dev, c');
    ReplugAdmits(k, dev, c');
    ReplugSevers(k, c, d, dev);
  }

  /** The device is removed and probed again. */
  function Replugged(k: State, dev: Dev): State {
    Apply(Apply(k, Remove(dev)), Probe(dev))
  }

  lemma Excludes(k: State, c: Client, d: DescId, dev: Dev, c': Client)
    requires HoldsExclusively(k, c, d, dev)
    ensures !Enabled(k, Open(c', dev, false))
  {
    assert !Admits(k.procs[c], k.gone, dev, false);
  }

  lemma ReplugAdmits(k: State, dev: Dev, c': Client)
    ensures Enabled(Replugged(k, dev), Open(c', dev, true))
  {
    var k' := Replugged(k, dev);
    assert k'.procs == k.procs && k'.gone == k.gone + Holders(k, dev) && dev in k'.present;
    forall c, d | c in k.procs && d in k.procs[c].descs && Alive(k.procs[c], d) && k.procs[c].descs[d].dev == dev
      ensures d in k'.gone
    {
      assert d in k.gone || Holds(k, c, d, dev);
    }
  }

  lemma ReplugSevers(k: State, c: Client, d: DescId, dev: Dev)
    requires Holds(k, c, d, dev)
    ensures Of(Replugged(k, dev), c) == k.procs[c] && !Enabled(Replugged(k, dev), Reset(c, d))
  {
    assert d in Holders(k, dev);
    assert d in Apply(k, Remove(dev)).severed;
  }

  lemma OpenedExclusively(acts: seq<Act>, c: Client, dev: Dev)
    requires Enabled(Run(INITIAL, acts), Open(c, dev, true))
    ensures var d := Run(INITIAL, acts).next;
            var k := Run(INITIAL, acts + [Open(c, dev, true)]);
            OpenExclusive(k, c, d, dev) && d !in k.gone
  {
    assert (acts + [Open(c, dev, true)])[..|acts|] == acts;
    RunKeepsInv(acts);
  }

  predicate IsExclusive(k: State, c: Client, d: DescId, dev: Dev) {
    c in k.procs && d in k.procs[c].descs && k.procs[c].descs[d].excl && k.procs[c].descs[d].dev == dev
  }

  predicate OpenExclusive(k: State, c: Client, d: DescId, dev: Dev) {
    IsExclusive(k, c, d, dev) && k.procs[c].descs[d].open
  }

  lemma StaysOpenOnce(k: State, a: Act, c: Client, d: DescId, dev: Dev)
    requires Inv(k) && IsExclusive(k, c, d, dev)
    ensures IsExclusive(Apply(k, a), c, d, dev)
    ensures OpenExclusive(k, c, d, dev) && a != Close(c, d) ==> OpenExclusive(Apply(k, a), c, d, dev)
    ensures d !in k.gone && a != Remove(dev) ==> d !in Apply(k, a).gone
  {
    hide MayOpen;
    hide Clear;
    hide Tidy;
    hide Arbitrated;
    hide Placed;
  }

  lemma {:induction false} StaysExclusive(acts: seq<Act>, more: seq<Act>, c: Client, dev: Dev, d: DescId)
    requires IsExclusive(Run(INITIAL, acts), c, d, dev)
    ensures IsExclusive(Run(INITIAL, acts + more), c, d, dev)
    decreases |more|
  {
    if more == [] {
      assert acts + more == acts;
    } else {
      var init, last := more[..|more| - 1], more[|more| - 1];
      StaysExclusive(acts, init, c, dev, d);
      assert (acts + more)[..|acts + more| - 1] == acts + init && (acts + more)[|acts + more| - 1] == last;
      RunKeepsInv(acts + init);
      StaysOpenOnce(Run(INITIAL, acts + init), last, c, d, dev);
    }
  }

  lemma {:induction false} StaysOpen(acts: seq<Act>, more: seq<Act>, c: Client, dev: Dev, d: DescId)
    requires Close(c, d) !in more && Remove(dev) !in more
    requires OpenExclusive(Run(INITIAL, acts), c, d, dev) && d !in Run(INITIAL, acts).gone
    ensures var k := Run(INITIAL, acts + more); OpenExclusive(k, c, d, dev) && d !in k.gone
    decreases |more|
  {
    if more == [] {
      assert acts + more == acts;
    } else {
      var init, last := more[..|more| - 1], more[|more| - 1];
      StaysOpen(acts, init, c, dev, d);
      assert (acts + more)[..|acts + more| - 1] == acts + init && (acts + more)[|acts + more| - 1] == last;
      RunKeepsInv(acts + init);
      StaysOpenOnce(Run(INITIAL, acts + init), last, c, d, dev);
    }
  }
}
