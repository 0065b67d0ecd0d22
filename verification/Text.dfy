/** Numerals and separators: the text both the bindings and the C library
    print and parse. */
module Text {
  import opened Errors

  /** A digit's value in bases up to 16; 16 for any other character. */
  function DigitVal(c: char): nat {
    if '0' <= c <= '9' then (c - '0') as nat
    else if 'a' <= c <= 'f' then 10 + (c - 'a') as nat
    else if 'A' <= c <= 'F' then 10 + (c - 'A') as nat
    else 16
  }

  /** Printing uses lower-case digits. */
  function DigitChar(d: nat): (c: char)
    requires d < 16
    ensures DigitVal(c) == d
  {
    if d < 10 then '0' + d as char else 'a' + (d - 10) as char
  }

  type Base = b: nat | 2 <= b <= 16 witness 10

  predicate AllDigits(s: string, b: Base) {
    forall i :: 0 <= i < |s| ==> DigitVal(s[i]) < b
  }

  function Value(s: string, b: Base): nat
    requires AllDigits(s, b)
  {
    if s == "" then 0 else b * Value(s[..|s| - 1], b) + DigitVal(s[|s| - 1])
  }

  lemma ValueSnoc(s: string, c: char, b: Base)
    requires AllDigits(s, b) && DigitVal(c) < b
    ensures AllDigits(s + [c], b) && Value(s + [c], b) == b * Value(s, b) + DigitVal(c)
  {
  }

  lemma DivMod(n: nat, b: Base)
    ensures b * (n / b) + n % b == n && n % b < b
    ensures n >= b ==> n / b < n
  {
  }

  function Show(n: nat, b: Base): (s: string)
    ensures s != "" && AllDigits(s, b) && Value(s, b) == n
  {
    DivMod(n, b);
    if n < b then [DigitChar(n)] else
      ValueSnoc(Show(n / b, b), DigitChar(n % b), b);
      Show(n / b, b) + [DigitChar(n % b)]
  }

  function Zeros(n: nat): (s: string)
    ensures |s| == n && forall b: Base :: AllDigits(s, b)
  {
    seq(n, _ => '0')
  }

  /** Zero-padded on the left to at least `w` digits. */
  function Padded(n: nat, w: nat): (s: string)
    ensures s != "" && AllDigits(s, 16) && Value(s, 16) == n
  {
    var t := Show(n, 16);
    if |t| < w then
      ZerosAddNothing(Zeros(w - |t|), t, 16);
      Zeros(w - |t|) + t
    else t
  }

  lemma {:induction false} ZerosAddNothing(z: string, t: string, b: Base)
    requires AllDigits(z, b) && AllDigits(t, b) && forall i :: 0 <= i < |z| ==> z[i] == '0'
    ensures AllDigits(z + t, b) && Value(z + t, b) == Value(t, b)
    decreases |z| + |t|
  {
    if t != "" {
      assert (z + t)[..|z + t| - 1] == z + t[..|t| - 1];
      ZerosAddNothing(z, t[..|t| - 1], b);
    } else if z != "" {
      assert z + t == z && z[..|z| - 1] + t == z[..|z| - 1];
      ZerosAddNothing(z[..|z| - 1], t, b);
    }
  }

  function Pow(b: Base, k: nat): (p: nat)
    ensures p > 0
  {
    if k == 0 then 1 else b * Pow(b, k - 1)
  }

  lemma MulAssoc(a: nat, b: nat, c: nat)
    ensures a * (b * c) == (a * b) * c
  {
  }

  lemma {:induction false} PowAdds(b: Base, i: nat, j: nat)
    ensures Pow(b, i + j) == Pow(b, i) * Pow(b, j)
  {
    if i > 0 {
      PowAdds(b, i - 1, j);
      MulAssoc(b, Pow(b, i - 1), Pow(b, j));
    }
  }

  /** How many digits a number takes. */
  lemma {:induction false} ShowLength(n: nat, b: Base, k: nat)
    requires k > 0
    ensures |Show(n, b)| <= k <==> n < Pow(b, k)
  {
    hide Value;
    DivMod(n, b);
    if n < b {
      PowAtLeast(b, k);
    } else if k == 1 {
      PowAtLeast(b, 1);
    } else {
      ShowLength(n / b, b, k - 1);
      DivBound(n, b, Pow(b, k - 1));
    }
  }

  lemma PowAtLeast(b: Base, k: nat)
    requires k > 0
    ensures Pow(b, k) >= b && (k == 1 ==> Pow(b, k) == b)
  {
  }

  lemma DivBound(n: nat, b: Base, p: nat)
    ensures n / b < p <==> n < b * p
  {
  }

  /** Splitting at the first separator. */
  function SplitOnce(s: string, c: char): (r: Option<(string, string)>)
    ensures r.None? <==> c !in s
    ensures r.Some? ==> c !in r.value.0 && s == r.value.0 + [c] + r.value.1
  {
    if s == "" then None
    else if s[0] == c then Some(("", s[1..]))
    else match SplitOnce(s[1..], c)
      case None => None
      case Some((a, b)) =>
        assert s == [s[0]] + s[1..];
        Some(([s[0]] + a, b))
  }

  lemma SplitUnique(s: string, c: char, a: string, b: string)
    requires s == a + [c] + b && c !in a
    ensures SplitOnce(s, c) == Some((a, b))
  {
    var r := SplitOnce(s, c);
    assert s[|a|] == c;
    var (x, y) := r.value;
    assert s[|x|] == c;
    assert forall i :: 0 <= i < |a| ==> s[i] == a[i] != c;
    assert forall i :: 0 <= i < |x| ==> s[i] == x[i] != c;
    assert x == s[..|a|] == a && y == s[|a| + 1..] == b;
  }

  function Count(s: string, c: char): nat {
    if s == "" then 0 else Count(s[..|s| - 1], c) + if s[|s| - 1] == c then 1 else 0
  }

  lemma {:induction false} CountJoins(a: string, b: string, c: char)
    ensures Count(a + b, c) == Count(a, c) + Count(b, c)
  {
    if b == "" {
      assert a + b == a;
    } else {
      assert (a + b)[..|a + b| - 1] == a + b[..|b| - 1];
      CountJoins(a, b[..|b| - 1], c);
    }
  }

  lemma {:induction false} CountZero(s: string, c: char)
    ensures Count(s, c) == 0 <==> c !in s
  {
    if s != "" {
      CountZero(s[..|s| - 1], c);
      assert s == s[..|s| - 1] + [s[|s| - 1]];
    }
  }

  lemma CountSplit(s: string, c: char, a: string, b: string)
    requires s == a + [c] + b && c !in a
    ensures Count(s, c) == 1 + Count(b, c)
  {
    CountJoins(a + [c], b, c);
    CountJoins(a, [c], c);
    CountZero(a, c);
    assert [c][..0] == "";
    assert Count([c], c) == 1;
  }

  /** Digits are no separators. */
  lemma DigitsOnly(s: string)
    requires AllDigits(s, 16)
    ensures ':' !in s && '.' !in s && '+' !in s && '-' !in s && ' ' !in s
  {
  }

  // ---- the C library's number scanning ----

  const U64_MAX := 0xffff_ffff_ffff_ffff

  predicate IsSpace(c: char) {
    c == ' ' || '\t' <= c <= '\r'
  }

  function SkipSpace(s: string): (t: string)
    ensures |t| <= |s|
    ensures s != "" && !IsSpace(s[0]) ==> t == s
  {
    if s != "" && IsSpace(s[0]) then SkipSpace(s[1..]) else s
  }

  /** A number of any length as an unsigned 64-bit result: saturated when it
      does not fit, negated modulo 2^64 after a minus sign. */
  function Unsigned64(negative: bool, v: nat): (r: nat)
    ensures r <= U64_MAX
    ensures !negative && v <= U64_MAX ==> r == v
  {
    if v > U64_MAX then U64_MAX else if negative then (U64_MAX + 1 - v) % (U64_MAX + 1) else v
  }

  /** How many of the leading characters are digits. */
  function RunLength(s: string, b: Base): (n: nat)
    ensures n <= |s| && AllDigits(s[..n], b) && (n < |s| ==> DigitVal(s[n]) >= b)
  {
    if s == "" || DigitVal(s[0]) >= b then 0 else
      var n := RunLength(s[1..], b);
      assert s[..n + 1] == [s[0]] + s[1..][..n];
      n + 1
  }

  lemma {:induction false} RunOfDigits(d: string, rest: string, b: Base)
    requires AllDigits(d, b) && (rest != "" ==> DigitVal(rest[0]) >= b)
    ensures RunLength(d + rest, b) == |d|
  {
    if d == "" {
      assert d + rest == rest;
    } else {
      assert (d + rest)[1..] == d[1..] + rest;
      RunOfDigits(d[1..], rest, b);
    }
  }

  function Signed(s: string): bool {
    s != "" && (s[0] == '-' || s[0] == '+')
  }

  function Unsign(s: string): string {
    if Signed(s) then s[1..] else s
  }

  /** A decimal conversion: blanks, a sign, a digit at least; what follows the
      digits is left for the next conversion. */
  function ScanDec(s: string): Option<(nat, string)> {
    var t := SkipSpace(s);
    var u := Unsign(t);
    var n := RunLength(u, 10);
    if n == 0 then None else Some((Unsigned64(t[0] == '-', Value(u[..n], 10)), u[n..]))
  }

  /** Without an optional `0x`. */
  function Unprefixed(u: string): string {
    if |u| >= 2 && u[0] == '0' && (u[1] == 'x' || u[1] == 'X') then u[2..] else u
  }

  /** A hexadecimal conversion into 32 bits, with an optional `0x`. */
  function ScanHex(s: string): Option<(Word, string)> {
    var t := SkipSpace(s);
    HexDigits(t != "" && t[0] == '-', Unprefixed(Unsign(t)))
  }

  function HexDigits(negative: bool, u: string): Option<(Word, string)> {
    var n := RunLength(u, 16);
    if n == 0 then None else Some((Unsigned64(negative, Value(u[..n], 16)) % U32_MOD, u[n..]))
  }

  /** Matching one character of a format. */
  function Expect(s: string, c: char): Option<string> {
    if s != "" && s[0] == c then Some(s[1..]) else None
  }

  /** A conversion skips nothing before a digit. */
  lemma StartsAtOnce(d: string, rest: string)
    requires d != "" && AllDigits(d, 16)
    ensures SkipSpace(d + rest) == d + rest && Unsign(d + rest) == d + rest && (d + rest)[0] == d[0] != '-'
  {
    assert (d + rest)[0] == d[0];
  }

  lemma ScanDecDigits(d: string, rest: string)
    requires d != "" && AllDigits(d, 10) && (rest != "" ==> DigitVal(rest[0]) >= 10)
    ensures ScanDec(d + rest) == Some((Unsigned64(false, Value(d, 10)), rest))
  {
    hide Value;
    RunOfDigits(d, rest, 10);
    StartsAtOnce(d, rest);
    assert (d + rest)[..|d|] == d && (d + rest)[|d|..] == rest;
  }

  lemma ScanHexDigits(d: string, rest: string)
    requires d != "" && AllDigits(d, 16) && (rest != "" ==> DigitVal(rest[0]) >= 16 && rest[0] != 'x' && rest[0] != 'X')
    ensures ScanHex(d + rest) == Some((Unsigned64(false, Value(d, 16)) % U32_MOD, rest))
  {
    hide Value;
    hide RunLength;
    hide SkipSpace;
    hide Unsign;
    RunOfDigits(d, rest, 16);
    StartsAtOnce(d, rest);
    var s := d + rest;
    assert s[..|d|] == d && s[|d|..] == rest;
    assert |s| >= 2 ==> s[1] == if |d| >= 2 then d[1] else rest[0];
  }

  // ---- the languages of the two conversions ----

  /** Each digit's value, in either case. */
  lemma DigitsMean(d: nat)
    requires d < 16
    ensures DigitVal("0123456789abcdef"[d]) == DigitVal("0123456789ABCDEF"[d]) == d
  {
  }

  /** There are no other digits. */
  lemma NoDigit(c: char)
    ensures DigitVal(c) == 16 <==> c !in "0123456789abcdefABCDEF"
    ensures DigitVal(c) < 10 <==> c in "0123456789"
  {
  }

  /** Spaces and the controls from tab to carriage return. */
  predicate Blanks(s: string) {
    forall i :: 0 <= i < |s| ==> s[i] as int in {9, 10, 11, 12, 13, 32}
  }

  /** What a number with a sign comes to in 64 bits. */
  function Comes(sign: string, n: nat): nat {
    if n >= 0x1_0000_0000_0000_0000 then 0xffff_ffff_ffff_ffff
    else if sign == "-" && n > 0 then 0x1_0000_0000_0000_0000 - n else n
  }

  /** Blanks, a sign and digits, and then `rest`. */
  predicate Parts(s: string, blanks: string, sign: string, digits: string, rest: string) {
    Blanks(blanks) && sign in {"", "+", "-"} && digits != "" && s == blanks + (sign + (digits + rest))
  }

  /** `s` starts with a decimal number that comes to `v`, before `rest`. */
  ghost predicate Decimal(s: string, v: nat, rest: string) {
    && (rest != "" ==> rest[0] !in "0123456789")
    && exists blanks, sign, digits ::
         Parts(s, blanks, sign, digits, rest) && AllDigits(digits, 10) && v == Comes(sign, Value(digits, 10))
  }

  /** `s` starts with a hexadecimal number, perhaps prefixed, whose last 32 bits
      are `v`, before `rest`. */
  ghost predicate Hexadecimal(s: string, v: nat, rest: string) {
    && (rest != "" ==> rest[0] !in "0123456789abcdefABCDEF")
    && exists blanks, sign, prefix, digits :: HexParts(s, blanks, sign, prefix, digits, rest, v)
  }

  /** A zero before an x is a prefix, and never the number. */
  ghost predicate HexParts(s: string, blanks: string, sign: string, prefix: string, digits: string, rest: string,
          v: nat) {
    && prefix in {"", "0x", "0X"} && digits != "" && AllDigits(digits, 16)
    && Parts(s, blanks, sign, prefix + digits, rest) && v == Comes(sign, Value(digits, 16)) % 0x1_0000_0000
    && (prefix == "" && digits == "0" && rest != "" ==> rest[0] !in "xX")
  }

  /** Where blanks and a sign end. */
  lemma {:induction false} BlanksSkipped(blanks: string, s: string)
    requires Blanks(blanks) && s != "" && !IsSpace(s[0])
    ensures SkipSpace(blanks + s) == s
  {
    if blanks == "" {
      assert blanks + s == s;
    } else {
      assert (blanks + s)[1..] == blanks[1..] + s;
      BlanksSkipped(blanks[1..], s);
    }
  }

  lemma {:induction false} BlanksBefore(s: string) returns (blanks: string)
    ensures Blanks(blanks) && s == blanks + SkipSpace(s)
    decreases |s|
  {
    if s != "" && IsSpace(s[0]) {
      var more := BlanksBefore(s[1..]);
      blanks := [s[0]] + more;
    } else {
      blanks := "";
    }
  }

  lemma SignTaken(sign: string, s: string)
    requires sign in {"", "+", "-"} && s != "" && s[0] !in "+-"
    ensures Unsign(sign + s) == s && ((sign + s)[0] == '-' <==> sign == "-")
  {
    if sign == "" {
      assert sign + s == s;
    }
  }

  lemma SignBefore(s: string) returns (sign: string)
    requires s != ""
    ensures sign in {"", "+", "-"} && s == sign + Unsign(s) && (s[0] == '-' <==> sign == "-")
  {
    sign := if Signed(s) then [s[0]] else "";
  }

  /** The decimal conversion takes exactly such texts. */
  lemma DecimalLanguage(s: string, v: nat, rest: string)
    ensures ScanDec(s) == Some((v, rest)) <==> Decimal(s, v, rest)
  {
    hide ScanDec;
    hide Decimal;
    if ScanDec(s) == Some((v, rest)) {
      DecimalFound(s, v, rest);
    }
    if Decimal(s, v, rest) {
      DecimalTaken(s, v, rest);
    }
  }

  lemma DecimalFound(s: string, v: nat, rest: string)
    requires ScanDec(s) == Some((v, rest))
    ensures Decimal(s, v, rest)
  {
    hide Value;
    hide SkipSpace;
    hide Unsign;
    hide RunLength;
    var blanks := BlanksBefore(s);
    var t := SkipSpace(s);
    var u := Unsign(t);
    var digits := u[..RunLength(u, 10)];
    assert t != "" by { NotBlank(s); }
    var sign := SignBefore(t);
    assert u == digits + rest;
    assert Parts(s, blanks, sign, digits, rest);
    if rest != "" {
      NoDigit(rest[0]);
    }
  }

  lemma NotBlank(s: string)
    requires ScanDec(s).Some?
    ensures SkipSpace(s) != ""
  {
    hide Value;
  }

  lemma DecimalTaken(s: string, v: nat, rest: string)
    requires Decimal(s, v, rest)
    ensures ScanDec(s) == Some((v, rest))
  {
    hide Value;
    hide SkipSpace;
    hide Unsign;
    hide RunLength;
    var blanks, sign, digits :|
      Parts(s, blanks, sign, digits, rest) && AllDigits(digits, 10) && v == Comes(sign, Value(digits, 10));
    NumberTaken(s, blanks, sign, digits, rest);
    RunOfDigits(digits, rest, 10);
    assert (digits + rest)[..|digits|] == digits && (digits + rest)[|digits|..] == rest;
  }

  lemma NumberTaken(s: string, blanks: string, sign: string, digits: string, rest: string)
    requires Parts(s, blanks, sign, digits, rest) && DigitVal(digits[0]) < 16
    ensures SkipSpace(s) == sign + (digits + rest) && Unsign(SkipSpace(s)) == digits + rest
    ensures SkipSpace(s)[0] == '-' <==> sign == "-"
  {
    assert (digits + rest)[0] == digits[0];
    assert (sign + (digits + rest))[0] == if sign == "" then digits[0] else sign[0];
    BlanksSkipped(blanks, sign + (digits + rest));
    SignTaken(sign, digits + rest);
  }

  /** The hexadecimal conversion takes exactly such texts. */
  lemma HexLanguage(s: string, v: nat, rest: string)
    ensures ScanHex(s) == Some((v, rest)) <==> Hexadecimal(s, v, rest)
  {
    hide ScanHex;
    hide Hexadecimal;
    if ScanHex(s) == Some((v, rest)) {
      HexFound(s, v, rest);
    }
    if Hexadecimal(s, v, rest) {
      HexTaken(s, v, rest);
    }
  }

  lemma HexFound(s: string, v: nat, rest: string)
    requires ScanHex(s) == Some((v, rest))
    ensures Hexadecimal(s, v, rest)
  {
    var t := SkipSpace(s);
    var u := Unsign(t);
    var blanks := BlanksBefore(s);
    NotBlankHex(s);
    var sign := SignBefore(t);
    hide Value;
    hide RunLength;
    hide Unprefixed;
    hide SkipSpace;
    hide Unsign;
    hide Comes;
    var digits := HexDigitsFound(sign == "-", Unprefixed(u), v, rest);
    hide HexDigits;
    ComesTo(sign, Value(digits, 16));
    var prefix := PrefixFound(u, digits, rest);
    assert Parts(s, blanks, sign, prefix + digits, rest);
    hide Parts;
    assert HexParts(s, blanks, sign, prefix, digits, rest, v);
  }

  lemma HexDigitsFound(negative: bool, u: string, v: nat, rest: string) returns (digits: string)
    requires HexDigits(negative, u) == Some((v, rest))
    ensures digits != "" && AllDigits(digits, 16) && u == digits + rest
    ensures v == Unsigned64(negative, Value(digits, 16)) % 0x1_0000_0000
    ensures rest != "" ==> rest[0] !in "0123456789abcdefABCDEF"
  {
    digits := u[..RunLength(u, 16)];
    if rest != "" {
      NoDigit(rest[0]);
    }
    hide Value;
  }

  lemma PrefixFound(u: string, digits: string, rest: string) returns (prefix: string)
    requires Unprefixed(u) == digits + rest && digits != ""
    ensures prefix in {"", "0x", "0X"} && u == (prefix + digits) + rest
    ensures prefix == "" && digits == "0" && rest != "" ==> rest[0] !in "xX"
  {
    prefix := u[..|u| - |Unprefixed(u)|];
    assert prefix == "" || prefix == [u[0], u[1]];
    assert u == (prefix + digits) + rest;
    if prefix == "" && digits == "0" && rest != "" {
      assert u == digits + rest && u[0] == digits[0] && u[1] == rest[0];
    }
  }

  lemma NotBlankHex(s: string)
    requires ScanHex(s).Some?
    ensures SkipSpace(s) != ""
  {
    hide Value;
  }

  lemma HexTaken(s: string, v: nat, rest: string)
    requires Hexadecimal(s, v, rest)
    ensures ScanHex(s) == Some((v, rest))
  {
    hide Value;
    hide SkipSpace;
    hide Unsign;
    hide Unprefixed;
    hide HexDigits;
    var blanks, sign, prefix, digits :| HexParts(s, blanks, sign, prefix, digits, rest, v);
    assert (prefix + digits) + rest == prefix + (digits + rest);
    NumberTaken(s, blanks, sign, prefix + digits, rest);
    PrefixTaken(prefix, digits, rest);
    HexDigitsTaken(sign, digits, rest);
  }

  lemma HexDigitsTaken(sign: string, digits: string, rest: string)
    requires digits != "" && AllDigits(digits, 16) && (rest != "" ==> rest[0] !in "0123456789abcdefABCDEF")
    ensures HexDigits(sign == "-", digits + rest) == Some((Comes(sign, Value(digits, 16)) % 0x1_0000_0000, rest))
  {
    if rest != "" {
      NoDigit(rest[0]);
    }
    RunOfDigits(digits, rest, 16);
    ComesTo(sign, Value(digits, 16));
    hide Value;
    hide RunLength;
    hide Unsigned64;
    hide Comes;
    assert (digits + rest)[..|digits|] == digits && (digits + rest)[|digits|..] == rest;
  }

  lemma ComesTo(sign: string, n: nat)
    ensures Unsigned64(sign == "-", n) == Comes(sign, n)
  {
  }

  lemma PrefixTaken(prefix: string, digits: string, rest: string)
    requires prefix in {"", "0x", "0X"} && digits != "" && AllDigits(digits, 16)
    requires prefix == "" && digits == "0" && rest != "" ==> rest[0] !in "xX"
    ensures Unprefixed(prefix + (digits + rest)) == digits + rest
  {
    var u := prefix + (digits + rest);
    if prefix == "" {
      assert u == digits + rest && u[0] == digits[0];
      if |digits| >= 2 {
        assert u[1] == digits[1];
      } else if rest != "" {
        assert u[1] == rest[0];
      }
    } else {
      assert u[0] == prefix[0] && u[1] == prefix[1] && u[2..] == digits + rest;
    }
  }
}
