/** PCI addresses as the binding prints and parses them. */
module Pci {
  import opened Errors
  import opened Text

  type U8 = x: nat | x < 0x100
  type U16 = x: nat | x < 0x1_0000

  const U8_MAX := 0xff
  const U16_MAX := 0xffff

  datatype Address = Address(domain: U16, bus: U8, device: U8, function_: U8)

  /** `DDDD:BB:DD.F`, each field at least that wide. */
  function Format(domain: nat, bus: nat, device: nat, func: nat): string {
    Padded(domain, 4) + [':'] + Padded(bus, 2) + [':'] + Padded(device, 2) + ['.'] + Show(func, 16)
  }

  function Display(a: Address): string {
    Format(a.domain, a.bus, a.device, a.function_)
  }

  function ShortDisplay(a: Address): string {
    Padded(a.bus, 2) + [':'] + Padded(a.device, 2) + ['.'] + Show(a.function_, 16)
  }

  /** `from_str_radix`: one optional plus, at least one hex digit, in range. */
  function ParseField(s: string, max: nat): Option<nat> {
    var digits := if s != "" && s[0] == '+' then s[1..] else s;
    if digits == "" || !AllDigits(digits, 16) || Value(digits, 16) > max then None else Some(Value(digits, 16))
  }

  /** The part after the bus: `DD.F`. */
  function ParseDevFn(s: string): Option<(U8, U8)> {
    match SplitOnce(s, '.')
    case None => None
    case Some((dev, fn)) =>
      match (ParseField(dev, U8_MAX), ParseField(fn, U8_MAX))
      case (Some(d), Some(f)) => Some((d, f))
      case _ => None
  }

  function ParseBusDevFn(domain: U16, s: string): Option<Address> {
    match SplitOnce(s, ':')
    case None => None
    case Some((bus, devfn)) =>
      match (ParseField(bus, U8_MAX), ParseDevFn(devfn))
      case (Some(b), Some((d, f))) => Some(Address(domain, b, d, f))
      case _ => None
  }

  function Parse(s: string): Option<Address> {
    if Count(s, ':') == 2 then
      match SplitOnce(s, ':')
      case None => None
      case Some((domain, rest)) =>
        match ParseField(domain, U16_MAX)
        case None => None
        case Some(d) => ParseBusDevFn(d, rest)
    else if Count(s, ':') == 1 then ParseBusDevFn(0, s)
    else None
  }

  // ---- the shape ----

  /** What is printed: four, two, two, and one or two lower-case digits, and the
      separators between them. */
  lemma DisplayShape(a: Address)
    ensures var s := Display(a);
            && |s| == (if a.function_ < 16 then 12 else 13)
            && s[4] == ':' && s[7] == ':' && s[10] == '.'
            && forall i :: 0 <= i < |s| && i !in {4, 7, 10} ==> Lower(s[i])
  {
    hide Lower;
    hide Show;
    hide Padded;
    var n, b, d, f := Padded(a.domain, 4), Padded(a.bus, 2), Padded(a.device, 2), Show(a.function_, 16);
    HexPowers();
    PaddedLength(a.domain, 4);
    PaddedLength(a.bus, 2);
    PaddedLength(a.device, 2);
    ShowLength(a.function_, 16, 1);
    ShowLength(a.function_, 16, 2);
    PaddedLower(a.domain, 4);
    PaddedLower(a.bus, 2);
    PaddedLower(a.device, 2);
    ShowLower(a.function_);
  }

  /** A lower-case hex digit. */
  predicate Lower(c: char) {
    c in "0123456789abcdef"
  }

  predicate AllLower(s: string) {
    forall i :: 0 <= i < |s| ==> Lower(s[i])
  }

  lemma {:induction false} ShowLower(n: nat)
    ensures AllLower(Show(n, 16))
  {
    hide Lower;
    hide Value;
    hide AllDigits;
    hide DigitChar;
    hide DigitVal;
    DivMod(n, 16);
    LowerDigit(n % 16);
    if n >= 16 {
      ShowLower(n / 16);
      assert Show(n, 16) == Show(n / 16, 16) + [DigitChar(n % 16)];
      hide Show;
    } else {
      assert n % 16 == n;
    }
  }

  lemma LowerDigit(d: nat)
    requires d < 16
    ensures DigitChar(d) == "0123456789abcdef"[d] && Lower(DigitChar(d))
  {
  }

  lemma PaddedLower(n: nat, w: nat)
    ensures AllLower(Padded(n, w))
  {
    assert Lower('0');
    hide Lower;
    hide Value;
    ShowLower(n);
    hide Show;
  }

  lemma PaddedLength(n: nat, w: nat)
    requires w > 0 && n < Pow(16, w)
    ensures |Padded(n, w)| == w
  {
    ShowLength(n, 16, w);
  }

  lemma HexPowers()
    ensures Pow(16, 1) == 16 && Pow(16, 2) == 0x100 && Pow(16, 4) == 0x1_0000
  {
  }

  // ---- the language ----

  /** `s` writes `v` as a field no larger than `max`: hex digits in either case,
      leading zeros allowed, after at most one plus sign. */
  ghost predicate Writes(s: string, v: nat, max: nat) {
    exists digits: string ::
      && digits != "" && AllDigits(digits, 16) && Value(digits, 16) == v <= max
      && (s == digits || s == "+" + digits)
  }

  lemma FieldLanguage(s: string, v: nat, max: nat)
    ensures ParseField(s, max) == Some(v) <==> Writes(s, v, max)
    ensures Writes(s, v, max) ==> ':' !in s && '.' !in s
  {
  }

  /** `s` is `B:D.F`, writing the last three fields of `a`. */
  ghost predicate Short(s: string, a: Address) {
    exists b, d, f ::
      && Writes(b, a.bus, U8_MAX) && Writes(d, a.device, U8_MAX) && Writes(f, a.function_, U8_MAX)
      && s == b + [':'] + (d + ['.'] + f)
  }

  /** `s` is `N:B:D.F`, writing all four fields of `a`. */
  ghost predicate Full(s: string, a: Address) {
    exists n, rest :: Writes(n, a.domain, U16_MAX) && Short(rest, a) && s == n + [':'] + rest
  }

  lemma DevFnLanguage(s: string, d: U8, f: U8)
    ensures ParseDevFn(s) == Some((d, f)) <==>
            exists ds, fs :: Writes(ds, d, U8_MAX) && Writes(fs, f, U8_MAX) && s == ds + ['.'] + fs
  {
    if ParseDevFn(s) == Some((d, f)) {
      var (ds, fs) := SplitOnce(s, '.').value;
      FieldLanguage(ds, d, U8_MAX);
      FieldLanguage(fs, f, U8_MAX);
    }
    if ds, fs :| Writes(ds, d, U8_MAX) && Writes(fs, f, U8_MAX) && s == ds + ['.'] + fs {
      FieldLanguage(ds, d, U8_MAX);
      FieldLanguage(fs, f, U8_MAX);
      SplitUnique(s, '.', ds, fs);
    }
  }

  lemma OneColon(b: string, rest: string)
    requires ':' !in b && ':' !in rest
    ensures Count(b + [':'] + rest, ':') == 1
  {
    CountSplit(b + [':'] + rest, ':', b, rest);
    CountZero(rest, ':');
  }

  lemma ShortLanguage(s: string, domain: U16, a: Address)
    ensures ParseBusDevFn(domain, s) == Some(a) <==> a.domain == domain && Short(s, a)
    ensures Short(s, a) ==> Count(s, ':') == 1
  {
    hide Count;
    if ParseBusDevFn(domain, s) == Some(a) {
      var (b, devfn) := SplitOnce(s, ':').value;
      FieldLanguage(b, a.bus, U8_MAX);
      DevFnLanguage(devfn, a.device, a.function_);
    }
    if Short(s, a) {
      var b, d, f :| Writes(b, a.bus, U8_MAX) && Writes(d, a.device, U8_MAX) && Writes(f, a.function_, U8_MAX)
                     && s == b + [':'] + (d + ['.'] + f);
      FieldLanguage(b, a.bus, U8_MAX);
      FieldLanguage(d, a.device, U8_MAX);
      FieldLanguage(f, a.function_, U8_MAX);
      SplitUnique(s, ':', b, d + ['.'] + f);
      DevFnLanguage(d + ['.'] + f, a.device, a.function_);
      OneColon(b, d + ['.'] + f);
    }
  }

  /** The exact language: parsing yields `a` if and only if the text is the
      full form of `a`, or the short form of an `a` in domain 0. */
  lemma Language(s: string, a: Address)
    ensures Parse(s) == Some(a) <==> Full(s, a) || (a.domain == 0 && Short(s, a))
  {
    if Count(s, ':') == 2 && Parse(s) == Some(a) {
      var (n, rest) := SplitOnce(s, ':').value;
      FieldLanguage(n, a.domain, U16_MAX);
      ShortLanguage(rest, a.domain, a);
      assert s == n + [':'] + rest;
    }
    if Full(s, a) {
      var n, rest :| Writes(n, a.domain, U16_MAX) && Short(rest, a) && s == n + [':'] + rest;
      FieldLanguage(n, a.domain, U16_MAX);
      SplitUnique(s, ':', n, rest);
      CountSplit(s, ':', n, rest);
      ShortLanguage(rest, a.domain, a);
    }
    ShortLanguage(s, 0, a);
  }

  lemma DigitsWrite(s: string, v: nat, max: nat)
    requires s != "" && AllDigits(s, 16) && Value(s, 16) == v <= max
    ensures Writes(s, v, max)
  {
  }

  lemma ShortDisplayed(a: Address, domain: U16)
    ensures Short(ShortDisplay(a), a.(domain := domain))
  {
    hide Padded;
    hide Show;
    hide Value;
    var b, d, f := Padded(a.bus, 2), Padded(a.device, 2), Show(a.function_, 16);
    DigitsWrite(b, a.bus, U8_MAX);
    DigitsWrite(d, a.device, U8_MAX);
    DigitsWrite(f, a.function_, U8_MAX);
    Regroup(b, d, f);
    assert Short(b + [':'] + (d + ['.'] + f), a.(domain := domain));
  }

  lemma Regroup(b: string, d: string, f: string)
    ensures b + [':'] + d + ['.'] + f == b + [':'] + (d + ['.'] + f)
  {
  }

  lemma RegroupFull(n: string, b: string, d: string, f: string)
    ensures n + [':'] + b + [':'] + d + ['.'] + f == n + [':'] + (b + [':'] + d + ['.'] + f)
  {
  }

  lemma FullDisplayed(a: Address)
    ensures Full(Display(a), a)
  {
    var n := Padded(a.domain, 4);
    DigitsWrite(n, a.domain, U16_MAX);
    ShortDisplayed(a, a.domain);
    FormatSplits(a.domain, a.bus, a.device, a.function_);
  }

  lemma FormatSplits(domain: nat, bus: nat, device: nat, func: nat)
    ensures Format(domain, bus, device, func) ==
            Padded(domain, 4) + [':'] + (Padded(bus, 2) + [':'] + Padded(device, 2) + ['.'] + Show(func, 16))
  {
    RegroupFull(Padded(domain, 4), Padded(bus, 2), Padded(device, 2), Show(func, 16));
  }

  /** Printing and parsing is the identity on all 2^40 addresses, and the short
      form means domain 0. */
  lemma RoundTrip(a: Address)
    ensures Parse(Display(a)) == Some(a)
    ensures Parse(ShortDisplay(a)) == Some(a.(domain := 0))
  {
    FullDisplayed(a);
    Language(Display(a), a);
    ShortDisplayed(a, 0);
    Language(ShortDisplay(a), a.(domain := 0));
  }

  /** Hence no two addresses print alike. */
  lemma DisplayInjective(a: Address, b: Address)
    requires Display(a) == Display(b)
    ensures a == b
  {
    RoundTrip(a);
    RoundTrip(b);
  }

  /** The device and function numbers are not held to the five and three bits
      the type's documentation gives them. */
  lemma WideFieldsAccepted()
    ensures Parse(Display(Address(0, 0, 0xff, 0xff))) == Some(Address(0, 0, 0xff, 0xff))
  {
    RoundTrip(Address(0, 0, 0xff, 0xff));
  }
}
