/** Finding a device by its PCI address text. */
module Lookup {
  import opened Errors
  import opened Text
  import opened Pci
  import opened Scan
  import opened Kernel
  import opened Hosts
  import opened Sessions
  import opened Lifecycle

  const SCAN_CAP := 64
  const TEXT_CAP := 19

  /** The numeric fields a lookup compares. */
  datatype Bdf = Bdf(domain: Word, bus: Word, slot: Word, func: Word)

  /** `%x.%x`, after the last colon. */
  function ScanSlotFunc(s: string): Option<(Word, Word)> {
    match ScanHex(s)
    case None => None
    case Some((slot, s1)) =>
      match Expect(s1, '.')
      case None => None
      case Some(s2) =>
        match ScanHex(s2)
        case None => None
        case Some((func, _)) => Some((slot, func))
  }

  /** `%x:%x.%x` */
  function ScanShort(s: string): Option<Bdf> {
    match ScanHex(s)
    case None => None
    case Some((bus, s1)) =>
      match Expect(s1, ':')
      case None => None
      case Some(s2) =>
        match ScanSlotFunc(s2)
        case None => None
        case Some((slot, func)) => Some(Bdf(0, bus, slot, func))
  }

  /** `%x:%x:%x.%x` */
  function ScanFull(s: string): Option<Bdf> {
    match ScanHex(s)
    case None => None
    case Some((domain, s1)) =>
      match Expect(s1, ':')
      case None => None
      case Some(s2) =>
        match ScanShort(s2)
        case None => None
        case Some(rest) => Some(rest.(domain := domain))
  }

  /** The full form if it matches, the short form otherwise. */
  function ScanBdf(s: string): Option<Bdf> {
    if ScanFull(s).Some? then ScanFull(s) else ScanShort(s)
  }

  /** What fits the 20-byte buffers the two texts are compared in. */
  function Clip(s: string): string {
    if |s| > TEXT_CAP then s[..TEXT_CAP] else s
  }

  function Normalized(q: Bdf): string {
    Clip(Format(q.domain, q.bus, q.slot, q.func))
  }

  /** A device's own address, unpacked from its information. */
  function BdfOf(info: Info): Bdf {
    Bdf(info.domain, info.busDevFn / 256 % 256, info.busDevFn / 8 % 32, info.busDevFn % 8)
  }

  /** The device's own domain and packed number are those of the address `q`. */
  ghost predicate Located(info: Info, q: Bdf) {
    && info.domain == q.domain && q.slot < 32 && q.func < 8
    && info.busDevFn == 256 * q.bus + 8 * q.slot + q.func
  }

  /** Unpacking is exact: a packed number is of one bus, device and function. */
  lemma UnpacksIff(info: Info, q: Bdf)
    ensures BdfOf(info) == q <==> Located(info, q)
  {
    var n := info.busDevFn;
    assert n / 256 % 256 == n / 256;
    Packing(n);
    if q.slot < 32 && q.func < 8 && n == 256 * q.bus + 8 * q.slot + q.func {
      Unpacked(q.bus, q.slot, q.func);
    }
  }

  lemma Packing(n: nat)
    ensures n == 256 * (n / 256) + 8 * (n / 8 % 32) + n % 8
  {
    assert n / 8 == 32 * (n / 256) + n / 8 % 32;
  }

  lemma Unpacked(bus: nat, slot: nat, func: nat)
    requires slot < 32 && func < 8
    ensures var n := 256 * bus + 8 * slot + func;
            n / 256 == bus && n / 8 % 32 == slot && n % 8 == func
  {
    var n := 256 * bus + 8 * slot + func;
    assert n / 8 == 32 * bus + slot;
  }

  lemma DeviceTextLength(q: Bdf)
    requires q.domain < 0x1_0000 && q.bus < 0x100 && q.slot < 0x100 && q.func < 16
    ensures |Format(q.domain, q.bus, q.slot, q.func)| == 12
  {
    HexPowers();
    PaddedLength(q.domain, 4);
    PaddedLength(q.bus, 2);
    PaddedLength(q.slot, 2);
    ShowLength(q.func, 16, 1);
  }

  lemma FormatInjective(q: Bdf, r: Bdf)
    requires Format(q.domain, q.bus, q.slot, q.func) == Format(r.domain, r.bus, r.slot, r.func)
    ensures q == r
  {
    hide Show;
    hide Padded;
    var a, b, c, d := Padded(q.domain, 4), Padded(q.bus, 2), Padded(q.slot, 2), Show(q.func, 16);
    var a', b', c', d' := Padded(r.domain, 4), Padded(r.bus, 2), Padded(r.slot, 2), Show(r.func, 16);
    FieldsEqual(a, b, c, d, a', b', c', d');
  }

  lemma FieldsEqual(a: string, b: string, c: string, d: string, a': string, b': string, c': string, d': string)
    requires AllDigits(a, 16) && AllDigits(b, 16) && AllDigits(c, 16) && AllDigits(d, 16)
    requires AllDigits(a', 16) && AllDigits(b', 16) && AllDigits(c', 16) && AllDigits(d', 16)
    requires a + [':'] + b + [':'] + c + ['.'] + d == a' + [':'] + b' + [':'] + c' + ['.'] + d'
    ensures a == a' && b == b' && c == c' && d == d'
  {
    DigitsOnly(a); DigitsOnly(b); DigitsOnly(c);
    DigitsOnly(a'); DigitsOnly(b'); DigitsOnly(c');
    var s := a + [':'] + b + [':'] + c + ['.'] + d;
    RegroupFull(a, b, c, d);
    RegroupFull(a', b', c', d');
    SplitUnique(s, ':', a, b + [':'] + c + ['.'] + d);
    SplitUnique(s, ':', a', b' + [':'] + c' + ['.'] + d');
    Regroup(b, c, d);
    Regroup(b', c', d');
    var t := b + [':'] + c + ['.'] + d;
    SplitUnique(t, ':', b, c + ['.'] + d);
    SplitUnique(t, ':', b', c' + ['.'] + d');
    SplitUnique(c + ['.'] + d, '.', c, d);
    SplitUnique(c + ['.'] + d, '.', c', d');
  }

  /** Comparing the clipped texts compares the numbers: for all 32-bit query
      fields, a device is taken if and only if all four of its own agree. */
  lemma ComparisonExact(q: Bdf, info: Info)
    ensures Normalized(BdfOf(info)) == Normalized(q) <==> q == BdfOf(info)
  {
    hide Show;
    hide Padded;
    var own := BdfOf(info);
    DeviceTextLength(own);
    if Normalized(own) == Normalized(q) {
      FormatInjective(q, own);
    }
  }

  /** A hexadecimal field with its separator, and what follows. */
  ghost predicate FieldThen(s: string, v: nat, c: char, rest: string) {
    Hexadecimal(s, v, [c] + rest)
  }

  /** `B:D.F`, with anything behind it. */
  ghost predicate ShortText(s: string, bus: nat, slot: nat, func: nat) {
    exists t, u, rest :: FieldThen(s, bus, ':', t) && FieldThen(t, slot, '.', u) && Hexadecimal(u, func, rest)
  }

  /** `N:B:D.F`, with anything behind it. */
  ghost predicate FullText(s: string, q: Bdf) {
    exists t :: FieldThen(s, q.domain, ':', t) && ShortText(t, q.bus, q.slot, q.func)
  }

  lemma FieldLanguage(s: string, v: Word, c: char, rest: string)
    ensures FieldThen(s, v, c, rest) <==> ScanHex(s) == Some((v, [c] + rest))
    ensures ScanHex(s).Some? && Expect(ScanHex(s).value.1, c) == Some(rest) <==>
            exists w: Word :: ScanHex(s) == Some((w, [c] + rest))
  {
    hide ScanHex;
    hide Hexadecimal;
    HexLanguage(s, v, [c] + rest);
    if ScanHex(s).Some? && Expect(ScanHex(s).value.1, c) == Some(rest) {
      assert ScanHex(s).value.1 == [c] + rest;
      assert ScanHex(s) == Some((ScanHex(s).value.0, [c] + rest));
    }
  }

  lemma ShortLanguage(s: string, q: Bdf)
    ensures ScanShort(s) == Some(q) <==> q.domain == 0 && ShortText(s, q.bus, q.slot, q.func)
  {
    hide ScanHex;
    hide Hexadecimal;
    hide FieldThen;
    if ScanShort(s) == Some(q) {
      var t := ScanHex(s).value.1[1..];
      var u := ScanHex(t).value.1[1..];
      var rest := ScanHex(u).value.1;
      assert ScanHex(s).value.1 == [':'] + t && ScanHex(t).value.1 == ['.'] + u;
      FieldLanguage(s, q.bus, ':', t);
      FieldLanguage(t, q.slot, '.', u);
      HexLanguage(u, q.func, rest);
    }
    if q.domain == 0 && ShortText(s, q.bus, q.slot, q.func) {
      var t, u, rest :| FieldThen(s, q.bus, ':', t) && FieldThen(t, q.slot, '.', u) && Hexadecimal(u, q.func, rest);
      FieldLanguage(s, q.bus, ':', t);
      FieldLanguage(t, q.slot, '.', u);
      HexLanguage(u, q.func, rest);
    }
  }

  /** The exact language of the lookup: the full form, and the short form, in
      domain 0, of a text that is in no way a full one. */
  lemma LookupLanguage(s: string, q: Bdf)
    ensures ScanBdf(s) == Some(q) <==>
            FullText(s, q) || (q.domain == 0 && ShortText(s, q.bus, q.slot, q.func) && forall r :: !FullText(s, r))
  {
    hide ScanHex;
    hide Hexadecimal;
    hide FieldThen;
    hide ScanShort;
    hide ShortText;
    ShortLanguage(s, q);
    forall r ensures ScanFull(s) == Some(r) <==> FullText(s, r) {
      FullLanguage(s, r);
    }
  }

  lemma FullLanguage(s: string, q: Bdf)
    ensures ScanFull(s) == Some(q) <==> FullText(s, q)
  {
    hide ScanHex;
    hide Hexadecimal;
    hide FieldThen;
    hide ScanShort;
    hide ShortText;
    if ScanFull(s) == Some(q) {
      var t := ScanHex(s).value.1[1..];
      assert ScanHex(s).value.1 == [':'] + t;
      FieldLanguage(s, q.domain, ':', t);
      ShortLanguage(t, q.(domain := 0));
      assert ScanShort(t) == Some(q.(domain := 0)) by { ShortInZero(t); }
    }
    if FullText(s, q) {
      var t :| FieldThen(s, q.domain, ':', t) && ShortText(t, q.bus, q.slot, q.func);
      FieldLanguage(s, q.domain, ':', t);
      ShortLanguage(t, q.(domain := 0));
    }
  }

  lemma ShortInZero(s: string)
    ensures ScanShort(s).Some? ==> ScanShort(s).value.domain == 0
  {
  }

  /** What one field of hex digits is read as. */
  function Field(digits: string): Word
    requires AllDigits(digits, 16)
  {
    Unsigned64(false, Value(digits, 16)) % U32_MOD
  }

  /** A field is read as the number it writes if and only if that fits 32 bits. */
  lemma FieldExact(digits: string)
    requires AllDigits(digits, 16)
    ensures Field(digits) == Value(digits, 16) <==> Value(digits, 16) < U32_MOD
  {
  }

  /** Fields of hex digits, of any width, with the separators of either form
      are read field by field; the short form means domain 0. */
  lemma TextScanned(n: string, b: string, d: string, f: string)
    requires n != "" && b != "" && d != "" && f != ""
    requires AllDigits(n, 16) && AllDigits(b, 16) && AllDigits(d, 16) && AllDigits(f, 16)
    ensures ScanBdf(n + [':'] + (b + [':'] + (d + ['.'] + f))) == Some(Bdf(Field(n), Field(b), Field(d), Field(f)))
    ensures ScanBdf(b + [':'] + (d + ['.'] + f)) == Some(Bdf(0, Field(b), Field(d), Field(f)))
  {
    hide Value;
    hide ScanHex;
    hide Field;
    var devfn := d + ['.'] + f;
    ScanHexField(f, "");
    assert f + "" == f;
    ScanFieldThen(d, '.', f);
    ScanFieldThen(b, ':', devfn);
    ScanFieldThen(n, ':', b + [':'] + devfn);
    assert ScanShort(devfn).None?;
  }

  /** The numbers are the ones that these digits write. */
  predicate Written(q: Bdf, n: nat, b: nat, d: nat, f: nat) {
    q.domain == n && q.bus == b && q.slot == d && q.func == f
  }

  /** A text in either form is read as the address it writes if and only if all
      of its fields fit 32 bits. */
  lemma AddressExact(n: string, b: string, d: string, f: string)
    requires n != "" && b != "" && d != "" && f != ""
    requires AllDigits(n, 16) && AllDigits(b, 16) && AllDigits(d, 16) && AllDigits(f, 16)
    ensures var full := ScanBdf(n + [':'] + (b + [':'] + (d + ['.'] + f)));
            && full.Some?
            && (Written(full.value, Value(n, 16), Value(b, 16), Value(d, 16), Value(f, 16)) <==>
                Value(n, 16) < U32_MOD && Value(b, 16) < U32_MOD && Value(d, 16) < U32_MOD && Value(f, 16) < U32_MOD)
    ensures var short := ScanBdf(b + [':'] + (d + ['.'] + f));
            && short.Some?
            && (Written(short.value, 0, Value(b, 16), Value(d, 16), Value(f, 16)) <==>
                Value(b, 16) < U32_MOD && Value(d, 16) < U32_MOD && Value(f, 16) < U32_MOD)
  {
    hide Value;
    hide ScanBdf;
    hide Field;
    TextScanned(n, b, d, f);
    FieldExact(n);
    FieldExact(b);
    FieldExact(d);
    FieldExact(f);
  }

  lemma ScanHexField(digits: string, rest: string)
    requires digits != "" && AllDigits(digits, 16)
    requires rest != "" ==> DigitVal(rest[0]) >= 16 && rest[0] != 'x' && rest[0] != 'X'
    ensures ScanHex(digits + rest) == Some((Field(digits), rest))
  {
    ScanHexDigits(digits, rest);
  }

  /** A field and its separator are consumed, and the rest left. */
  lemma ScanFieldThen(d: string, c: char, rest: string)
    requires d != "" && AllDigits(d, 16) && (c == ':' || c == '.')
    ensures var s := d + [c] + rest;
            ScanHex(s) == Some((Field(d), [c] + rest)) && Expect([c] + rest, c) == Some(rest)
  {
    ScanHexField(d, [c] + rest);
    assert d + [c] + rest == d + ([c] + rest);
  }

  /** An address printed by the binding is read back to its own fields. */
  lemma PrintedIsScanned(a: Address)
    ensures ScanBdf(Display(a)) == Some(Bdf(a.domain, a.bus, a.device, a.function_))
  {
    hide Show;
    hide Padded;
    hide Value;
    hide ScanBdf;
    var n, b, d, f := Padded(a.domain, 4), Padded(a.bus, 2), Padded(a.device, 2), Show(a.function_, 16);
    RegroupFull(n, b, d, f);
    Regroup(b, d, f);
    TextScanned(n, b, d, f);
  }

  /** The lookup is exact on what the scanner reads, which is not always what
      was written: domain 100000003 is read as 3, so that whatever the other
      fields are, the device of domain 3 answers to an address that is not its. */
  lemma WideFieldAliases(b: string, d: string, f: string)
    requires b != "" && d != "" && f != "" && AllDigits(b, 16) && AllDigits(d, 16) && AllDigits(f, 16)
    ensures var digits, rest := "10000000" + "3", [':'] + (b + [':'] + (d + ['.'] + f));
            && AllDigits(digits, 16) && Value(digits, 16) == 0x1_0000_0003
            && ScanBdf(digits + rest) == ScanBdf("3" + rest) == Some(Bdf(3, Field(b), Field(d), Field(f)))
  {
    hide ScanBdf;
    NineDigits();
    var digits, tail := "10000000" + "3", b + [':'] + (d + ['.'] + f);
    assert "3"[..0] == "" && Value("3", 16) == 3;
    hide Value;
    TextScanned(digits, b, d, f);
    TextScanned("3", b, d, f);
    assert digits + [':'] + tail == digits + ([':'] + tail) && "3" + [':'] + tail == "3" + ([':'] + tail);
  }

  lemma NineDigits()
    ensures AllDigits("10000000" + "3", 16) && Value("10000000" + "3", 16) == 0x1_0000_0003
  {
    PowerOfSixteen(8);
    var d := "1" + Zeros(7);
    assert d == "10000000";
    ValueSnoc(d, '3', 16);
    assert Pow(16, 7) == 0x1000_0000 by {
      HexPowers();
      assert Pow(16, 6) == 16 * Pow(16, 5) && Pow(16, 5) == 16 * Pow(16, 4);
    }
  }

  lemma {:induction false} PowerOfSixteen(k: nat)
    requires k > 0
    ensures AllDigits("1" + Zeros(k - 1), 16) && Value("1" + Zeros(k - 1), 16) == Pow(16, k - 1)
  {
    if k == 1 {
      assert "1" + Zeros(0) == "1" && "1"[..0] == "";
      assert Value("1", 16) == 1;
    } else {
      PowerOfSixteen(k - 1);
      assert "1" + Zeros(k - 1) == ("1" + Zeros(k - 2)) + ['0'];
      ValueSnoc("1" + Zeros(k - 2), '0', 16);
    }
  }

  // ---- the lookup ----

  /** No open descriptor of `p'` that was not open in `p`. */
  ghost predicate NothingLeftOpen(p: Proc, p': Proc) {
    p'.maps == p.maps && forall d :: IsOpen(p', d) ==> IsOpen(p, d)
  }

  /** How one device answered: its open failed, its query failed, or it told its
      address; with the descriptor and what its close reported. */
  datatype Answer = NoOpen | NoInfo(d: DescId, clean: bool) | Told(d: DescId, clean: bool)

  /** The calls that asking a device makes. */
  function Asked(dev: Dev, a: Answer): seq<Event> {
    match a
    case NoOpen => [EvOpen(dev, false, false, -1)]
    case NoInfo(d, clean) => [EvOpen(dev, false, false, d), EvInfo(d, false), EvClose(d, clean)]
    case Told(d, clean) => [EvOpen(dev, false, false, d), EvInfo(d, true), EvClose(d, clean)]
  }

  /** The calls of asking the first devices listed, one after the other. */
  function AskedAll(ids: seq<Word>, answers: seq<Answer>): seq<Event>
    requires |answers| <= |ids|
  {
    if answers == [] then [] else
      var n := |answers| - 1;
      AskedAll(ids, answers[..n]) + Asked(ids[n], answers[n])
  }

  lemma AskedNext(log: seq<Event>, ids: seq<Word>, answers: seq<Answer>, a: Answer)
    requires |answers| < |ids|
    ensures log + AskedAll(ids, answers) + Asked(ids[|answers|], a) == log + AskedAll(ids, answers + [a])
  {
    assert (answers + [a])[..|answers|] == answers;
  }

  /** How many devices did not tell. */
  function Silent(answers: seq<Answer>): nat {
    if answers == [] then 0 else Silent(answers[..|answers| - 1]) + if answers[|answers| - 1].Told? then 0 else 1
  }

  lemma SilentNext(answers: seq<Answer>, a: Answer)
    ensures Silent(answers + [a]) == Silent(answers) + if a.Told? then 0 else 1
  {
    assert (answers + [a])[..|answers|] == answers;
  }

  lemma {:induction false} NoneSilent(answers: seq<Answer>, j: nat)
    requires Silent(answers) == 0 && j < |answers|
    ensures answers[j].Told?
  {
    if j < |answers| - 1 {
      NoneSilent(answers[..|answers| - 1], j);
    }
  }

  /** Opens a device briefly to learn its address. */
  method Query(th: Thread, h: Host, dev: Dev) returns (info: Option<Info>, ghost a: Answer)
    requires h.Valid()
    modifies th, h`k, h`failed, h`log
    ensures h.Valid() && NothingLeftOpen(old(h.Mine()), h.Mine())
    ensures h.log == old(h.log) + Asked(dev, a) && (info.Some? <==> a.Told?)
    ensures |h.failed| >= |old(h.failed)| + if a.Told? then 0 else 1
    ensures info.Some? ==> info.value == h.infos(dev)
  {
    hide Inv;
    var sess := new Session(dev, -1, 0);
    var r := TtOpen(th, h, dev, sess, 0);
    if r == TT_ERR {
      return None, NoOpen;
    }
    ghost var fd := sess.fd;
    var res, got := TtDevInfo(th, h, sess);
    r := TtClose(th, h, sess);
    info := if res == TT_OK then Some(got) else None;
    a := if res == TT_OK then Told(fd, r == TT_OK) else NoInfo(fd, r == TT_OK);
  }

  /** None of the devices asked told the address `q`. */
  ghost predicate Passed(h: Host, ids: seq<Word>, answers: seq<Answer>, q: Bdf) {
    |answers| <= |ids| && forall j :: 0 <= j < |answers| && answers[j].Told? ==> !Located(h.infos(ids[j]), q)
  }

  /** The answers end with device `dev`, the first to tell the address `q`. */
  ghost predicate FoundLast(h: Host, ids: seq<Word>, answers: seq<Answer>, q: Bdf, dev: Word) {
    && 0 < |answers| <= |ids| && ids[|answers| - 1] == dev
    && answers[|answers| - 1].Told? && Located(h.infos(dev), q) && Passed(h, ids, answers[..|answers| - 1], q)
  }

  lemma FoundNotPassed(h: Host, ids: seq<Word>, answers: seq<Answer>, q: Bdf, dev: Word)
    requires FoundLast(h, ids, answers, q, dev)
    ensures !Passed(h, ids, answers, q)
  {
    assert answers[|answers| - 1].Told?;
  }

  lemma PassedNext(h: Host, ids: seq<Word>, answers: seq<Answer>, a: Answer, q: Bdf)
    requires Passed(h, ids, answers, q) && |answers| < |ids|
    ensures a.Told? && Located(h.infos(ids[|answers|]), q) ==> FoundLast(h, ids, answers + [a], q, ids[|answers|])
    ensures !a.Told? || !Located(h.infos(ids[|answers|]), q) ==> Passed(h, ids, answers + [a], q)
  {
    assert (answers + [a])[..|answers|] == answers;
  }

  /** Asks the listed devices in turn and takes the first that tells the scanned
      address, going on past those that do not open or answer. The loop runs to
      the number of devices there are, which may be more than the buffer holds:
      it goes `beyond` what was stored if and only if none of those that were
      tells the address. What comes of that is not defined. */
  method TtDevFromBdf(th: Thread, h: Host, addr: string, dir: Directory)
    returns (r: Code, dev: Word, beyond: bool, ghost answers: seq<Answer>)
    requires h.Valid()
    modifies th, h`k, h`failed, h`log
    ensures h.Valid() && NothingLeftOpen(old(h.Mine()), h.Mine())
    ensures |answers| <= |Seen(dir)| && |answers| <= 64 && h.log == old(h.log) + AskedAll(Seen(dir), answers)
    ensures |h.failed| >= |old(h.failed)| + Silent(answers)
    ensures ScanBdf(addr).None? ==> r == TT_ERR && th.errno == EINVAL && answers == [] && !beyond
    ensures ScanBdf(addr).Some? ==>
              (beyond <==> |answers| == 64 < |Seen(dir)| && Passed(h, Seen(dir), answers, ScanBdf(addr).value))
    ensures ScanBdf(addr).Some? && r == TT_OK ==> !beyond && FoundLast(h, Seen(dir), answers, ScanBdf(addr).value, dev)
    ensures ScanBdf(addr).Some? && r == TT_ERR && !beyond ==>
              th.errno == ENODEV && |answers| == |Seen(dir)| && Passed(h, Seen(dir), answers, ScanBdf(addr).value)
  {
    hide Inv;
    hide ScanBdf;
    hide Normalized;
    hide BdfOf;
    hide Located;
    hide Listed;
    hide Asked;
    dev, beyond, answers := 0, false, [];
    ghost var log, ids := h.log, Seen(dir);
    assert log + AskedAll(ids, []) == log;
    var q := ScanBdf(addr);
    if q.None? {
      r := th.Fail(EINVAL);
      return;
    }
    var normalized := Normalized(q.value);
    var devs := new Scan.Cell[SCAN_CAP](_ => Uninit);
    var count := DevScan(th, dir, SCAN_CAP, devs);
    assert forall j :: 0 <= j < count && j < SCAN_CAP ==> devs[..][j] == Init(ids[j]);
    hide AskedAll;
    hide Passed;
    hide FoundLast;
    hide Silent;
    assert Passed(h, ids, [], q.value);
    var i := 0;
    while i < count
      invariant 0 <= i <= |ids| && i <= SCAN_CAP && |answers| == i && (if count < 0 then ids == [] else count == |ids|)
      invariant h.Valid() && NothingLeftOpen(old(h.Mine()), h.Mine())
      invariant h.log == log + AskedAll(ids, answers) && |h.failed| >= |old(h.failed)| + Silent(answers)
      invariant forall j :: 0 <= j < count && j < SCAN_CAP ==> devs[j] == Init(ids[j])
      invariant Passed(h, ids, answers, q.value)
    {
      if i == SCAN_CAP {
        return TT_ERR, 0, true, answers;
      }
      assert devs[i] == Init(ids[i]);
      var info;
      ghost var a;
      info, a := Query(th, h, devs[i].id);
      AskedNext(log, ids, answers, a);
      SilentNext(answers, a);
      PassedNext(h, ids, answers, a, q.value);
      answers := answers + [a];
      if info.Some? {
        ComparisonExact(q.value, info.value);
        UnpacksIff(info.value, q.value);
        var own := BdfOf(info.value);
        if Normalized(own) == normalized {
          FoundNotPassed(h, ids, answers, q.value, devs[i].id);
          return TT_OK, devs[i].id, false, answers;
        }
      }
      i := i + 1;
    }
    r := th.Fail(ENODEV);
  }

  /** The binding's lookup by address: prints it and hands the text on. It
      finds the first listed device that tells exactly these fields, and reports
      `ENODEV` only after all were asked and none of those that told has them. */
  method DeviceAt(th: Thread, h: Host, a: Address, dir: Directory)
    returns (r: Code, dev: Word, beyond: bool, ghost answers: seq<Answer>)
    requires h.Valid()
    modifies th, h`k, h`failed, h`log
    ensures h.Valid() && NothingLeftOpen(old(h.Mine()), h.Mine())
    ensures |answers| <= |Seen(dir)| && |answers| <= 64 && h.log == old(h.log) + AskedAll(Seen(dir), answers)
    ensures beyond <==>
              && |answers| == 64 < |Seen(dir)|
              && Passed(h, Seen(dir), answers, Bdf(a.domain, a.bus, a.device, a.function_))
    ensures r == TT_OK ==>
              !beyond && FoundLast(h, Seen(dir), answers, Bdf(a.domain, a.bus, a.device, a.function_), dev)
    ensures r == TT_OK ==>
              && h.infos(dev).domain == a.domain && a.device < 32 && a.function_ < 8
              && h.infos(dev).busDevFn == 256 * a.bus + 8 * a.device + a.function_
    ensures r == TT_ERR && !beyond ==>
              && th.errno == ENODEV && |answers| == |Seen(dir)|
              && Passed(h, Seen(dir), answers, Bdf(a.domain, a.bus, a.device, a.function_))
    // If no call failed, every device asked told its address.
    ensures |h.failed| == |old(h.failed)| ==> forall j :: 0 <= j < |answers| ==> answers[j].Told?
  {
    hide Inv;
    hide ScanBdf;
    hide Display;
    hide BdfOf;
    hide Listed;
    PrintedIsScanned(a);
    r, dev, beyond, answers := TtDevFromBdf(th, h, Display(a), dir);
    if |h.failed| == |old(h.failed)| {
      forall j: nat | j < |answers| ensures answers[j].Told? {
        NoneSilent(answers, j);
      }
    }
  }
}
