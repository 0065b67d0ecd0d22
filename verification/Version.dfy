/** Firmware versions: read from a device attribute by the C library, turned
    into a semantic version by the binding. */
module Versions {
  import opened Errors
  import opened Sessions
  import opened Text

  const READ_CAP := 31
  const PRE_SIZE := 32

  type U64 = x: nat | x <= U64_MAX

  /** A firmware version as the attribute gives it. */
  datatype Fw = Fw(major: U64, minor: U64, patch: U64, rc: U64)

  // ---- reading the attribute ----

  /** The string in a buffer: everything before the first nul character. */
  function CStr(buf: string): (s: string)
    ensures |s| <= |buf| && s == buf[..|s|] && '\0' !in s
  {
    if buf == "" || buf[0] == '\0' then "" else
      assert buf == [buf[0]] + buf[1..];
      [buf[0]] + CStr(buf[1..])
  }

  lemma {:induction false} CStrStops(s: string, rest: string)
    requires '\0' !in s && (rest != "" ==> rest[0] == '\0')
    ensures CStr(s + rest) == s
  {
    if s == "" {
      assert s + rest == rest;
    } else {
      assert (s + rest)[1..] == s[1..] + rest;
      CStrStops(s[1..], rest);
      assert [s[0]] + s[1..] == s;
    }
  }

  lemma {:induction false} Terminated(s: string)
    ensures CStr(s + ['\0']) == CStr(s)
  {
    if s != "" {
      assert (s + ['\0'])[1..] == s[1..] + ['\0'];
      Terminated(s[1..]);
    }
  }

  /** `k` decimal conversions with dots between them. */
  function ScanFields(s: string, k: nat): (r: Option<seq<U64>>)
    requires k > 0
    ensures r.Some? ==> |r.value| == k
    decreases k
  {
    match ScanDec(s)
    case None => None
    case Some((v, rest)) =>
      if k == 1 then Some([v]) else
        match Expect(rest, '.')
        case None => None
        case Some(s') =>
          match ScanFields(s', k - 1)
          case None => None
          case Some(vs) => Some([v] + vs)
  }

  /** What the library makes of an attribute's text: the first 31 bytes, up to
      a nul character, must start with four numbers. */
  function ReadVersion(text: string): (r: Option<Fw>)
    ensures text == "" ==> r.None?
  {
    match ScanFields(CStr(if |text| > READ_CAP then text[..READ_CAP] else text), 4)
    case None => None
    case Some(xs) => Some(Fw(xs[0], xs[1], xs[2], xs[3]))
  }

  /** `s` starts with these decimal numbers, with dots between them. */
  ghost predicate Dotted(s: string, xs: seq<U64>)
    requires xs != []
    decreases |xs|
  {
    exists rest ::
      Decimal(s, xs[0], rest) && (|xs| > 1 ==> rest != "" && rest[0] == '.' && Dotted(rest[1..], xs[1..]))
  }

  lemma {:induction false} FieldsLanguage(s: string, xs: seq<U64>)
    requires xs != []
    ensures ScanFields(s, |xs|) == Some(xs) <==> Dotted(s, xs)
    decreases |xs|
  {
    hide ScanDec;
    hide Decimal;
    if ScanDec(s).Some? {
      var (v, rest) := ScanDec(s).value;
      DecimalLanguage(s, v, rest);
      if |xs| > 1 && rest != "" && rest[0] == '.' {
        FieldsLanguage(rest[1..], xs[1..]);
      }
    }
    if Dotted(s, xs) {
      var rest :| Decimal(s, xs[0], rest) && (|xs| > 1 ==> rest != "" && rest[0] == '.' && Dotted(rest[1..], xs[1..]));
      DecimalLanguage(s, xs[0], rest);
    }
    assert |xs| > 1 ==> [xs[0]] + xs[1..] == xs;
    assert |xs| == 1 ==> xs == [xs[0]];
  }

  /** Exactly which texts are read, and as what: `head` is what there is of the
      text before a nul character, up to 31 characters, and must start with four
      numbers. */
  lemma ReadLanguage(text: string, head: string, v: Fw)
    requires head <= text && |head| <= 31 && '\0' !in head
    requires |head| == |text| || |head| == 31 || text[|head|] == '\0'
    ensures ReadVersion(text) == Some(v) <==> Dotted(head, [v.major, v.minor, v.patch, v.rc])
  {
    hide ScanFields;
    hide Dotted;
    var buf := if |text| > READ_CAP then text[..READ_CAP] else text;
    assert buf == head + buf[|head|..];
    CStrStops(head, buf[|head|..]);
    hide DigitVal;
    hide CStr;
    hide Decimal;
    FieldsLanguage(head, [v.major, v.minor, v.patch, v.rc]);
    match ScanFields(head, 4)
    case None =>
    case Some(ys) => assert ys == [ys[0], ys[1], ys[2], ys[3]];
  }

  /** Numbers printed with dots between them. */
  function Join(xs: seq<U64>): (s: string)
    requires xs != []
    ensures s != ""
    decreases |xs|
  {
    if |xs| == 1 then Show(xs[0], 10) else Show(xs[0], 10) + ['.'] + Join(xs[1..])
  }

  function Canonical(v: Fw): string {
    Join([v.major, v.minor, v.patch, v.rc])
  }

  /** What may follow the version in the attribute: nothing, or anything that
      does not extend its last number. */
  predicate Tail(tail: string) {
    '\0' !in tail && (tail != "" ==> DigitVal(tail[0]) >= 10)
  }

  lemma {:induction false} JoinScans(xs: seq<U64>, tail: string)
    requires xs != [] && Tail(tail)
    ensures ScanFields(Join(xs) + tail, |xs|) == Some(xs)
    decreases |xs|
  {
    hide ScanDec;
    hide Show;
    var d := Show(xs[0], 10);
    if |xs| == 1 {
      ScanDecDigits(d, tail);
      assert xs == [xs[0]] && Join(xs) == d;
    } else {
      var rest := Join(xs[1..]) + tail;
      assert Join(xs) + tail == d + (['.'] + rest);
      ScanDecDigits(d, ['.'] + rest);
      assert (['.'] + rest)[1..] == rest;
      JoinScans(xs[1..], tail);
      assert [xs[0]] + xs[1..] == xs && |xs| > 1;
      assert ScanFields(d + (['.'] + rest), |xs|) == Some([xs[0]] + xs[1..]);
    }
  }

  /** A proper prefix of a printed number is a smaller number. */
  lemma {:induction false} PrefixSmaller(n: nat, k: nat)
    requires 0 < k < |Show(n, 10)|
    ensures AllDigits(Show(n, 10)[..k], 10) && Value(Show(n, 10)[..k], 10) < n
    decreases n
  {
    var d := Show(n, 10);
    var init := Show(n / 10, 10);
    assert d == init + [DigitChar(n % 10)];
    if k == |init| {
      assert d[..k] == init;
    } else {
      assert d[..k] == init[..k];
      PrefixSmaller(n / 10, k);
    }
  }

  lemma {:induction false} CutMisreads(xs: seq<U64>, cut: nat)
    requires xs != [] && cut < |Join(xs)|
    ensures ScanFields(Join(xs)[..cut], |xs|) != Some(xs)
    decreases |xs|
  {
    hide ScanDec;
    hide Show;
    hide Value;
    var d := Show(xs[0], 10);
    if cut <= |d| {
      CutNumber(xs, cut);
    } else {
      var rest := Join(xs[1..])[..cut - |d| - 1];
      assert Join(xs)[..cut] == d + (['.'] + rest);
      ScanDecDigits(d, ['.'] + rest);
      assert (['.'] + rest)[1..] == rest;
      CutMisreads(xs[1..], cut - |d| - 1);
    }
  }

  lemma CutNumber(xs: seq<U64>, cut: nat)
    requires xs != [] && cut < |Join(xs)| && cut <= |Show(xs[0], 10)|
    ensures ScanFields(Join(xs)[..cut], |xs|) != Some(xs)
  {
    var d := Show(xs[0], 10);
    var s := Join(xs)[..cut];
    assert s == d[..cut];
    if cut > 0 {
      ScanDecDigits(s, "");
      assert s + "" == s;
      if cut < |d| {
        PrefixSmaller(xs[0], cut);
      }
    }
  }

  lemma {:induction false} JoinNoNul(xs: seq<U64>)
    requires xs != []
    ensures '\0' !in Join(xs)
    decreases |xs|
  {
    if |xs| > 1 {
      JoinNoNul(xs[1..]);
    }
  }

  /** A version in canonical form is read back if and only if it fits the 31
      bytes read; a longer one is misread or refused. */
  lemma ReadsBackIff(v: Fw, tail: string)
    requires Tail(tail)
    ensures ReadVersion(Canonical(v) + tail) == Some(v) <==> |Canonical(v)| <= READ_CAP
  {
    hide Join;
    hide ScanFields;
    var xs := [v.major, v.minor, v.patch, v.rc];
    var s, text := Canonical(v), Canonical(v) + tail;
    JoinNoNul(xs);
    var buf := if |text| > READ_CAP then text[..READ_CAP] else text;
    if |s| <= READ_CAP {
      var k := |buf| - |s|;
      assert buf == s + tail[..k];
      CStrStops(buf, "");
      assert buf + "" == buf;
      JoinScans(xs, tail[..k]);
    } else {
      assert buf == s[..READ_CAP];
      CStrStops(buf, "");
      assert buf + "" == buf;
      CutMisreads(xs, READ_CAP);
      match ScanFields(buf, 4)
      case None =>
      case Some(ys) => assert ys == [ys[0], ys[1], ys[2], ys[3]];
    }
  }

  // ---- the library's version record ----

  /** The contents of a version record. */
  datatype Raw = Raw(major: U64, minor: U64, patch: U64, pre: string, build: string)

  function Nuls(n: nat): (s: string)
    ensures |s| == n
  {
    seq(n, _ => '\0')
  }

  /** The pre-release identifier of a release candidate; a stable release has
      none. */
  function RcText(rc: U64): string {
    if rc == 0 then "" else "rc." + Show(rc, 10)
  }

  /** Neither the text nor its terminator is ever cut. */
  lemma RcFits(rc: U64)
    ensures |RcText(rc)| <= 23 < PRE_SIZE && '\0' !in RcText(rc)
  {
    hide Show;
    assert Pow(10, 5) == 100_000 by {
      assert Pow(10, 2) == 100 && Pow(10, 3) == 10 * Pow(10, 2);
    }
    PowAdds(10, 5, 5);
    PowAdds(10, 10, 10);
    ShowLength(rc, 10, 20);
    DigitsNoNul(Show(rc, 10));
  }

  lemma DigitsNoNul(s: string)
    requires AllDigits(s, 10)
    ensures '\0' !in s
  {
  }

  /** The record of a firmware version: the candidate's number, padded with nul
      characters, and no build metadata. */
  function RawOf(v: Fw): Raw {
    var pre := RcText(v.rc);
    RcFits(v.rc);
    Raw(v.major, v.minor, v.patch, pre + Nuls(PRE_SIZE - |pre|), Nuls(PRE_SIZE))
  }

  class RawVersion {
    var major: U64
    var minor: U64
    var patch: U64
    const pre: array<char>
    const build: array<char>

    constructor ()
      ensures fresh(pre) && fresh(build) && pre.Length == build.Length == PRE_SIZE && pre != build
    {
      major, minor, patch := 0, 0, 0;
      pre := new char[PRE_SIZE](_ => '\0');
      build := new char[PRE_SIZE](_ => '\0');
    }

    ghost predicate Valid() {
      pre.Length == build.Length == PRE_SIZE && pre != build
    }

    ghost function Contents(): Raw
      reads this, pre, build
    {
      Raw(major, minor, patch, pre[..], build[..])
    }
  }

  /** Bounded printing: as much of the text as fits before a nul character; what
      lies behind that stays. */
  method PrintInto(buf: array<char>, text: string)
    requires buf.Length > 0
    modifies buf
    ensures var n := if |text| < buf.Length then |text| else buf.Length - 1;
            buf[..] == text[..n] + ['\0'] + old(buf[n + 1..])
  {
    var n := if |text| < buf.Length then |text| else buf.Length - 1;
    forall i | 0 <= i < n {
      buf[i] := text[i];
    }
    buf[n] := '\0';
  }

  method Clear(buf: array<char>)
    modifies buf
    ensures buf[..] == Nuls(buf.Length)
  {
    forall i | 0 <= i < buf.Length {
      buf[i] := '\0';
    }
  }

  /** The device attribute holding the version. */
  datatype Attribute = CannotOpen(cause: Errno) | ReadFails(cause: Errno) | Text(text: string)

  method TtFwVersion(th: Thread, sess: Session, attr: Attribute, version: RawVersion) returns (r: Code)
    requires version.Valid()
    modifies th, version, version.pre, version.build
    ensures r == TT_OK <==> sess.fd >= 0 && attr.Text? && ReadVersion(attr.text).Some?
    ensures r == TT_OK ==> version.Contents() == RawOf(ReadVersion(attr.text).value)
    ensures r == TT_ERR ==> version.Contents() == old(version.Contents())
    ensures r == TT_ERR ==> th.errno == if sess.fd < 0 then ENOTCONN else if attr.Text? then EIO else attr.cause
  {
    hide CStr;
    hide ScanFields;
    hide Show;
    if sess.fd < 0 {
      r := th.Fail(ENOTCONN);
      return;
    }
    match attr {
      case CannotOpen(cause) =>
        th.errno := cause;
        return TT_ERR;
      case ReadFails(cause) =>
        r := th.Fail(cause);
      case Text(text) =>
        if text == "" {
          r := th.Fail(EIO);
          return;
        }
        var buf := text[..if |text| < READ_CAP then |text| else READ_CAP] + ['\0'];
        Terminated(buf[..|buf| - 1]);
        assert buf[..|buf| - 1] == if |text| > READ_CAP then text[..READ_CAP] else text;
        var parsed := ScanFields(CStr(buf), 4);
        if parsed.None? {
          r := th.Fail(EIO);
          return;
        }
        var xs := parsed.value;
        version.major, version.minor, version.patch := xs[0], xs[1], xs[2];
        Clear(version.pre);
        Clear(version.build);
        RcFits(xs[3]);
        if xs[3] > 0 {
          PrintInto(version.pre, "rc." + Show(xs[3], 10));
        }
        return TT_OK;
    }
  }

  // ---- the binding's semantic version ----

  datatype SemVer = SemVer(major: U64, minor: U64, patch: U64, pre: string)

  /** Identifiers between dots. */
  function Split(s: string): seq<string>
    decreases |s|
  {
    match SplitOnce(s, '.')
    case None => [s]
    case Some((a, b)) => [a] + Split(b)
  }

  predicate IdentChar(c: char) {
    '0' <= c <= '9' || 'a' <= c <= 'z' || 'A' <= c <= 'Z' || c == '-'
  }

  predicate Numeric(id: string) {
    id != "" && AllDigits(id, 10)
  }

  /** Sections 9 and 2 of Semantic Versioning 2.0.0: no empty identifier, no
      leading zero in a numeric one. */
  predicate ValidIdent(id: string) {
    id != "" && (forall c <- id :: IdentChar(c)) && (Numeric(id) && |id| > 1 ==> id[0] != '0')
  }

  predicate ValidPre(s: string) {
    s == "" || forall id <- Split(s) :: ValidIdent(id)
  }

  predicate TextLess(s: string, t: string) {
    t != "" && (s == "" || s[0] < t[0] || (s[0] == t[0] && TextLess(s[1..], t[1..])))
  }

  predicate IdentLess(a: string, b: string) {
    if Numeric(a) && Numeric(b) then Value(a, 10) < Value(b, 10)
    else if Numeric(a) || Numeric(b) then Numeric(a)
    else TextLess(a, b)
  }

  predicate IdentsLess(s: seq<string>, t: seq<string>) {
    t != [] && (s == [] || IdentLess(s[0], t[0]) || (s[0] == t[0] && IdentsLess(s[1..], t[1..])))
  }

  /** Section 11 of Semantic Versioning 2.0.0: no pre-release ranks highest. */
  predicate PreLess(p: string, q: string) {
    p != "" && (q == "" || IdentsLess(Split(p), Split(q)))
  }

  /** Precedence in section 11 of Semantic Versioning 2.0.0. */
  predicate Precedes(v: SemVer, w: SemVer) {
    if v.major != w.major then v.major < w.major
    else if v.minor != w.minor then v.minor < w.minor
    else if v.patch != w.patch then v.patch < w.patch
    else PreLess(v.pre, w.pre)
  }

  /** A nul-terminated buffer's string; nothing if no terminator is there. */
  function UntilNul(buf: string): string {
    if '\0' in buf then CStr(buf) else ""
  }

  function FromRaw(raw: Raw): SemVer {
    var pre := UntilNul(raw.pre);
    SemVer(raw.major, raw.minor, raw.patch, if ValidPre(pre) then pre else "")
  }

  /** A record's pre-release identifier is what stands before its first nul
      character, if that is valid; a record without a nul character has none. */
  lemma RecordRead(raw: Raw, k: nat)
    ensures k < |raw.pre| && raw.pre[k] == '\0' && '\0' !in raw.pre[..k] ==>
              var pre := if ValidPre(raw.pre[..k]) then raw.pre[..k] else "";
              FromRaw(raw) == SemVer(raw.major, raw.minor, raw.patch, pre)
    ensures '\0' !in raw.pre ==> FromRaw(raw) == SemVer(raw.major, raw.minor, raw.patch, "")
  {
    hide Split;
    if k < |raw.pre| && raw.pre[k] == '\0' && '\0' !in raw.pre[..k] {
      assert raw.pre == raw.pre[..k] + raw.pre[k..];
      CStrStops(raw.pre[..k], raw.pre[k..]);
    }
  }

  // ---- validity and precedence, as Semantic Versioning 2.0.0 words them ----

  /** Identifiers written with dots between them. */
  function Joined(ids: seq<string>): string
    requires ids != []
  {
    if |ids| == 1 then ids[0] else ids[0] + ['.'] + Joined(ids[1..])
  }

  lemma {:induction false} SplitJoined(ids: seq<string>)
    requires ids != [] && forall id <- ids :: '.' !in id
    ensures Split(Joined(ids)) == ids
    decreases |ids|
  {
    if |ids| > 1 {
      SplitUnique(Joined(ids), '.', ids[0], Joined(ids[1..]));
      SplitJoined(ids[1..]);
    }
  }

  lemma {:induction false} JoinedSplit(s: string)
    ensures Split(s) != [] && Joined(Split(s)) == s && forall id <- Split(s) :: '.' !in id
    decreases |s|
  {
    match SplitOnce(s, '.')
    case None =>
    case Some((a, b)) =>
      JoinedSplit(b);
      assert ([a] + Split(b))[1..] == Split(b);
  }

  /** An identifier, section 9: letters, digits and hyphens, at least one, and no
      leading zero if all of them are digits. */
  predicate Identifier(id: string) {
    && id != "" && (forall c <- id :: 48 <= c as int <= 57 || 65 <= c as int <= 90 || 97 <= c as int <= 122 || c == '-')
    && (|id| > 1 && id[0] == '0' ==> exists c <- id :: c !in "0123456789")
  }

  lemma IdentifierIff(id: string)
    ensures ValidIdent(id) <==> Identifier(id)
  {
    forall c ensures DigitVal(c) < 10 <==> c in "0123456789" {
      NoDigit(c);
    }
  }

  /** A pre-release is valid if and only if it is a series of identifiers. */
  lemma ValidPreIff(s: string)
    ensures ValidPre(s) <==>
            s == "" || exists ids: seq<string> :: ids != [] && Joined(ids) == s && forall id <- ids :: Identifier(id)
  {
    hide Split;
    hide ValidIdent;
    JoinedSplit(s);
    forall id ensures ValidIdent(id) <==> Identifier(id) {
      IdentifierIff(id);
    }
    if ids: seq<string> :| ids != [] && Joined(ids) == s && forall id <- ids :: Identifier(id) {
      hide Joined;
      forall id <- ids ensures '.' !in id {
        hide DigitVal;
      }
      SplitJoined(ids);
    }
  }

  /** Text is compared by the first character that differs. */
  lemma {:induction false} TextLessIff(s: string, t: string)
    ensures TextLess(s, t) <==>
            exists k :: 0 <= k <= |s| && k < |t| && s[..k] == t[..k] && (k == |s| || s[k] < t[k])
    decreases |s|
  {
    if s != "" && t != "" && s[0] == t[0] {
      TextLessIff(s[1..], t[1..]);
      if k :| 0 <= k <= |s| - 1 && k < |t| - 1 && s[1..][..k] == t[1..][..k] && (k == |s| - 1 || s[1..][k] < t[1..][k]) {
        assert s[..k + 1] == [s[0]] + s[1..][..k] && t[..k + 1] == [t[0]] + t[1..][..k];
      }
      if k :| 0 <= k <= |s| && k < |t| && s[..k] == t[..k] && (k == |s| || s[k] < t[k]) {
        assert k > 0 && s[1..][..k - 1] == s[..k][1..] && t[1..][..k - 1] == t[..k][1..];
      }
    } else if t != "" && (s == "" || s[0] < t[0]) {
      assert s[..0] == t[..0];
    } else {
      assert forall k :: 0 < k <= |s| && k < |t| ==> s[..k][0] == s[0] && t[..k][0] == t[0];
    }
  }

  /** The example of section 11: each of these pre-releases precedes the next, and
      the last one the release. */
  lemma PrecedenceExample()
    ensures PreLess("alpha", "alpha.1") && PreLess("alpha.1", "alpha.beta") && PreLess("alpha.beta", "beta")
    ensures PreLess("beta", "beta.2") && PreLess("beta.2", "beta.11") && PreLess("beta.11", "rc.1")
    ensures PreLess("rc.1", "")
  {
    hide PreLess;
    Names();
    Numbers();
    hide IdentLess;
    hide Split;
    Spelled();
    NoDots();
    Chained("alpha", "beta", "rc", "1", "2", "11");
  }

  lemma Chained(a: string, b: string, c: string, m: string, n: string, o: string)
    requires a != "" && b != "" && '.' !in a + b + c + m + n + o
    requires IdentLess(a, b) && IdentLess(b, c) && IdentLess(m, b) && IdentLess(n, o)
    ensures PreLess(a, a + "." + m) && PreLess(a + "." + m, a + "." + b) && PreLess(a + "." + b, b)
    ensures PreLess(b, b + "." + n) && PreLess(b + "." + n, b + "." + o) && PreLess(b + "." + o, c + "." + m)
    ensures PreLess(c + "." + m, "")
  {
    Longer(a, m);
    SecondBelow(a, m, b);
    TwoIdents(a, b);
    OneIdent(b);
    FirstBelow(a + "." + b, b);
    Longer(b, n);
    SecondBelow(b, n, o);
    TwoIdents(b, o);
    TwoIdents(c, m);
    FirstBelow(b + "." + o, c + "." + m);
  }

  lemma NoDots()
    ensures '.' !in "alpha" + "beta" + "rc" + "1" + "2" + "11"
  {
  }

  lemma Spelled()
    ensures "alpha" + "." + "1" == "alpha.1" && "alpha" + "." + "beta" == "alpha.beta"
    ensures "beta" + "." + "2" == "beta.2" && "beta" + "." + "11" == "beta.11" && "rc" + "." + "1" == "rc.1"
  {
  }

  lemma Longer(a: string, b: string)
    requires a != "" && '.' !in a && '.' !in b
    ensures PreLess(a, a + "." + b)
  {
    OneIdent(a);
    TwoIdents(a, b);
    assert [a][1..] == [] && [a, b][1..] == [b];
  }

  lemma SecondBelow(a: string, b: string, c: string)
    requires '.' !in a && '.' !in b && '.' !in c && IdentLess(b, c)
    ensures PreLess(a + "." + b, a + "." + c)
  {
    TwoIdents(a, b);
    TwoIdents(a, c);
    assert [a, b][1..] == [b] && [a, c][1..] == [c];
  }

  lemma FirstBelow(p: string, q: string)
    requires p != "" && q != "" && Split(p) != [] && Split(q) != [] && IdentLess(Split(p)[0], Split(q)[0])
    ensures PreLess(p, q)
  {
  }

  lemma Names()
    ensures IdentLess("alpha", "beta") && IdentLess("beta", "rc")
  {
    NoDigit('a');
    NoDigit('b');
    NoDigit('r');
  }

  lemma Numbers()
    ensures IdentLess("1", "beta") && IdentLess("2", "11")
  {
    NoDigit('b');
    assert "2"[..0] == "" && "11"[..1] == "1" && "1"[..0] == "";
    assert Value("1", 10) == 1 && Value("2", 10) == 2 && Value("11", 10) == 11;
  }

  lemma OneIdent(a: string)
    requires '.' !in a
    ensures Split(a) == [a]
  {
    SplitJoined([a]);
  }

  lemma TwoIdents(a: string, b: string)
    requires '.' !in a && '.' !in b
    ensures Split(a + "." + b) == [a, b]
  {
    SplitUnique(a + "." + b, '.', a, b);
    SplitJoined([b]);
  }

  // ---- the embedding ----

  /** The order of firmware releases: a stable release comes after all of its
      candidates. */
  predicate Earlier(v: Fw, w: Fw) {
    if v.major != w.major then v.major < w.major
    else if v.minor != w.minor then v.minor < w.minor
    else if v.patch != w.patch then v.patch < w.patch
    else v.rc != 0 && (w.rc == 0 || v.rc < w.rc)
  }

  lemma {:induction false} NoLeadingZero(n: nat)
    requires n > 0
    ensures Show(n, 10)[0] != '0'
  {
    if n >= 10 {
      NoLeadingZero(n / 10);
    }
  }

  lemma RcIdents(rc: U64)
    requires rc > 0
    ensures Split(RcText(rc)) == ["rc", Show(rc, 10)]
    ensures ValidPre(RcText(rc))
  {
    hide Show;
    var d := Show(rc, 10);
    DigitsOnly(d);
    assert RcText(rc) == "rc" + ['.'] + d;
    SplitUnique(RcText(rc), '.', "rc", d);
    NoLeadingZero(rc);
    assert DigitVal("rc"[0]) >= 10;
  }

  lemma CandidatesInOrder(rc: U64, rc': U64)
    ensures PreLess(RcText(rc), RcText(rc')) <==> rc != 0 && (rc' == 0 || rc < rc')
  {
    hide Show;
    if rc > 0 && rc' > 0 {
      RcIdents(rc);
      RcIdents(rc');
      var d, d' := Show(rc, 10), Show(rc', 10);
      assert DigitVal("rc"[0]) >= 10 && !TextLess("c", "c") && !TextLess("rc", "rc");
      assert ["rc", d][1..] == [d] && ["rc", d'][1..] == [d'];
      assert IdentsLess(["rc", d], ["rc", d']) == IdentsLess([d], [d']);
      assert [d][1..] == [d'][1..] == [];
      assert Numeric(d) && Numeric(d');
      assert IdentsLess([d], [d']) <==> rc < rc';
    }
  }

  lemma PaddingDropped(s: string, n: nat)
    requires '\0' !in s && n > 0
    ensures UntilNul(s + Nuls(n)) == s
  {
    CStrStops(s, Nuls(n));
    assert (s + Nuls(n))[|s|] == '\0';
  }

  /** The record keeps the release candidate's identifier. */
  lemma RecordKeepsRc(v: Fw)
    ensures |RawOf(v).pre| == |RawOf(v).build| == 32
    ensures FromRaw(RawOf(v)) == SemVer(v.major, v.minor, v.patch, RcText(v.rc))
  {
    hide Show;
    hide UntilNul;
    RcFits(v.rc);
    PaddingDropped(RcText(v.rc), PRE_SIZE - |RcText(v.rc)|);
    if v.rc > 0 {
      hide ValidPre;
      RcIdents(v.rc);
    }
  }

  /** The whole way from two attribute texts to two semantic versions keeps the
      order of releases and tells different releases apart. */
  lemma VersionsEmbed(v: Fw, w: Fw, tail: string, tail': string)
    requires Tail(tail) && Tail(tail')
    requires |Canonical(v)| <= READ_CAP && |Canonical(w)| <= READ_CAP
    ensures var a, b := ReadVersion(Canonical(v) + tail), ReadVersion(Canonical(w) + tail');
            && a.Some? && b.Some?
            && (Precedes(FromRaw(RawOf(a.value)), FromRaw(RawOf(b.value))) <==> Earlier(v, w))
            && (FromRaw(RawOf(a.value)) == FromRaw(RawOf(b.value)) <==> v == w)
  {
    hide ReadVersion;
    hide Canonical;
    hide RawOf;
    hide FromRaw;
    ReadsBackIff(v, tail);
    ReadsBackIff(w, tail');
    RecordKeepsRc(v);
    RecordKeepsRc(w);
    CandidatesInOrder(v.rc, w.rc);
    CandidatesInOrder(w.rc, v.rc);
  }
}
