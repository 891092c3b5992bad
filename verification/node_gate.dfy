/**
 * The installer's Node.js version gate: the major version is the first
 * dot-separated component of `process.versions.node`, read with
 * `parseInt(_, 10)`, and the installer stops when it is below 4.
 */
module NodeGate {
  import opened JsText

  /** The lowest accepted major version. */
  const MinMajor: int := 4

  /** `s.split('.')[0]`: the text before the first '.', or all of `s`. */
  function FirstComponent(s: string): (r: string)
    ensures '.' !in r
    ensures r <= s
    ensures r == s || s[|r|] == '.'
  {
    if s == [] || s[0] == '.' then [] else [s[0]] + FirstComponent(s[1..])
  }

  /**
   * The white space `parseInt` skips before the number (StrWhiteSpaceChar:
   * WhiteSpace and LineTerminator of ECMAScript).
   */
  predicate IsJsWhiteSpace(c: char) {
    || c == '\t' || c == '\U{000B}' || c == '\U{000C}' || c == ' ' || c == '\U{00A0}'
    || c == '\U{FEFF}' || c == '\U{1680}' || ('\U{2000}' <= c <= '\U{200A}')
    || c == '\U{202F}' || c == '\U{205F}' || c == '\U{3000}'
    || c == '\n' || c == '\r' || c == '\U{2028}' || c == '\U{2029}'
  }

  predicate IsDigit(c: char) {
    '0' <= c <= '9'
  }

  function TrimStart(s: string): (r: string)
    ensures |r| <= |s| && r == s[|s| - |r|..]
    ensures r == [] || !IsJsWhiteSpace(r[0])
    ensures forall i :: 0 <= i < |s| - |r| ==> IsJsWhiteSpace(s[i])
  {
    if s != [] && IsJsWhiteSpace(s[0]) then
      var r := TrimStart(s[1..]);
      assert s[1..][|s| - 1 - |r|..] == s[|s| - |r|..];
      assert forall i :: 1 <= i < |s| - |r| ==> s[i] == s[1..][i - 1];
      r
    else s
  }

  /** The longest prefix of `s` made of decimal digits. */
  function LeadingDigits(s: string): (r: string)
    ensures r <= s
    ensures forall i :: 0 <= i < |r| ==> IsDigit(r[i])
    ensures r == s || !IsDigit(s[|r|])
  {
    if s != [] && IsDigit(s[0]) then [s[0]] + LeadingDigits(s[1..]) else []
  }

  /** The value of a decimal digit (only ever applied to digits). */
  function DigitValue(c: char): nat {
    if IsDigit(c) then c as int - '0' as int else 0
  }

  /** The number a string of decimal digits denotes. */
  function DigitsValue(ds: string): nat {
    if ds == [] then 0
    else DigitsValue(ds[..|ds| - 1]) * 10 + DigitValue(ds[|ds| - 1])
  }

  /**
   * `parseInt(s, 10)`: skip leading white space, take an optional sign, then
   * the longest run of decimal digits. None stands for NaN (no digit). The
   * value is exact; JavaScript rounds very long numbers to a double, which
   * never changes a comparison with a small integer.
   */
  function ParseIntDecimal(s: string): (r: Option<int>)
    ensures r.None? <==> LeadingDigits(SkipSign(TrimStart(s))) == []
    ensures r.Some? && r.value < 0 ==> TrimStart(s)[0] == '-'
  {
    ParseSigned(TrimStart(s))
  }

  /** What `parseInt(_, 10)` does once the white space is skipped. */
  function ParseSigned(t: string): Option<int> {
    var negative := t != [] && t[0] == '-';
    var ds := LeadingDigits(SkipSign(t));
    if ds == [] then None
    else
      var magnitude: int := DigitsValue(ds);
      Some(if negative then -magnitude else magnitude)
  }

  /** Removes one leading '+' or '-'. */
  function SkipSign(t: string): string {
    if t != [] && (t[0] == '+' || t[0] == '-') then t[1..] else t
  }

  /**
   * The gate: the installer refuses to go on when the major version parses
   * to a number below 4. A NaN major compares false and is let through.
   */
  predicate NodeVersionRejected(nodeVersion: string)
    ensures NodeVersionRejected(nodeVersion) ==>
      var t := TrimStart(FirstComponent(nodeVersion));
      t != [] && (IsDigit(t[0]) || t[0] == '+' || t[0] == '-')
  {
    match ParseIntDecimal(FirstComponent(nodeVersion))
    case None => false
    case Some(major) => major < MinMajor
  }

  /** The decimal numeral of `n`, as Node.js prints its version numbers. */
  function Decimal(n: nat): (ds: string)
    ensures ds != []
    ensures forall i :: 0 <= i < |ds| ==> IsDigit(ds[i])
  {
    if n < 10 then ['0' + n as char] else Decimal(n / 10) + ['0' + (n % 10) as char]
  }

  lemma {:induction false} DecimalValue(n: nat)
    ensures DigitsValue(Decimal(n)) == n
  {
    if n >= 10 {
      var ds := Decimal(n);
      assert ds[..|ds| - 1] == Decimal(n / 10);
      DecimalValue(n / 10);
    }
  }

  /** The digit run of digits followed by a non-digit is those digits. */
  lemma {:induction false} LeadingDigitsOfNumeral(ds: string, tail: string)
    requires forall i :: 0 <= i < |ds| ==> IsDigit(ds[i])
    requires tail == [] || !IsDigit(tail[0])
    ensures LeadingDigits(ds + tail) == ds
  {
    if ds != [] {
      assert (ds + tail)[1..] == ds[1..] + tail;
      LeadingDigitsOfNumeral(ds[1..], tail);
    }
  }

  /** The first component of text without a '.' followed by '.' is that text. */
  lemma {:induction false} FirstComponentOf(head: string, rest: string)
    requires '.' !in head
    ensures FirstComponent(head + "." + rest) == head
  {
    if head != [] {
      assert (head + "." + rest)[1..] == head[1..] + "." + rest;
      FirstComponentOf(head[1..], rest);
    }
  }

  /** `parseInt` reads a numeral back as the number it denotes. */
  lemma ParseDecimal(n: nat, tail: string)
    requires tail == [] || !IsDigit(tail[0])
    ensures ParseIntDecimal(Decimal(n) + tail) == Some(n)
  {
    var ds := Decimal(n);
    var s := ds + tail;
    assert s[0] == ds[0] && IsDigit(s[0]);
    assert TrimStart(s) == s by {
      assert !IsJsWhiteSpace(s[0]);
    }
    assert SkipSign(s) == s;
    LeadingDigitsOfNumeral(ds, tail);
    DecimalValue(n);
  }

  /** `parseInt` skips any run of white space in front of the number. */
  lemma {:induction false} TrimWhiteSpace(w: string, s: string)
    requires forall i :: 0 <= i < |w| ==> IsJsWhiteSpace(w[i])
    requires s == [] || !IsJsWhiteSpace(s[0])
    ensures TrimStart(w + s) == s
  {
    if w == [] {
      assert w + s == s;
    } else {
      assert (w + s)[1..] == w[1..] + s;
      TrimWhiteSpace(w[1..], s);
    }
  }

  /** Leading zeros do not change the number a digit string denotes. */
  lemma {:induction false} LeadingZeros(zs: string, ds: string)
    requires forall i :: 0 <= i < |zs| ==> zs[i] == '0'
    requires forall i :: 0 <= i < |ds| ==> IsDigit(ds[i])
    ensures DigitsValue(zs + ds) == DigitsValue(ds)
    decreases |zs| + |ds|
  {
    if ds != [] {
      assert (zs + ds)[..|zs + ds| - 1] == zs + ds[..|ds| - 1];
      LeadingZeros(zs, ds[..|ds| - 1]);
    } else if zs != [] {
      var init := zs[..|zs| - 1];
      assert zs + ds == zs && init + [] == init;
      LeadingZeros(init, []);
    } else {
      assert zs + ds == [];
    }
  }

  /** White space in front of the number changes nothing. */
  lemma ParseAfterWhiteSpace(w: string, u: string)
    requires forall i :: 0 <= i < |w| ==> IsJsWhiteSpace(w[i])
    requires u == [] || !IsJsWhiteSpace(u[0])
    ensures ParseIntDecimal(w + u) == ParseIntDecimal(u) == ParseSigned(u)
  {
    TrimWhiteSpace(w, u);
    TrimWhiteSpace([], u);
    assert [] + u == u;
  }

  /** An optional sign in front of the number: nothing, '+' or '-'. */
  predicate OptionalSign(sign: string) {
    sign == [] || (|sign| == 1 && (sign[0] == '+' || sign[0] == '-'))
  }

  /**
   * What `parseInt` sees in a sign, digits and a non-digit: no white space
   * in front, the sign to drop, and the digits as the digit run.
   */
  lemma {:induction false} SignedNumeralShape(sign: string, ds: string, tail: string)
    requires OptionalSign(sign)
    requires ds != [] && forall i :: 0 <= i < |ds| ==> IsDigit(ds[i])
    requires tail == [] || !IsDigit(tail[0])
    ensures SkipSign(sign + ds + tail) == ds + tail
    ensures LeadingDigits(ds + tail) == ds
    ensures (sign + ds + tail)[0] == '-' <==> sign != [] && sign[0] == '-'
  {
    var u := sign + ds + tail;
    assert u[0] == (if sign == [] then ds[0] else sign[0]);
    assert SkipSign(u) == ds + tail by {
      if sign == [] {
        assert u == ds + tail;
      } else {
        assert u[1..] == ds + tail;
      }
    }
    LeadingDigitsOfNumeral(ds, tail);
  }

  /** A signed numeral does not start with white space. */
  lemma SignedNumeralStart(sign: string, ds: string, tail: string)
    requires OptionalSign(sign)
    requires ds != [] && forall i :: 0 <= i < |ds| ==> IsDigit(ds[i])
    ensures !IsJsWhiteSpace((sign + ds + tail)[0])
  {
    assert (sign + ds + tail)[0] == (if sign == [] then ds[0] else sign[0]);
  }

  /** Once the digit run after the sign is known, so is the number. */
  lemma ParseSignedOf(t: string, ds: string)
    requires ds != [] && LeadingDigits(SkipSign(t)) == ds
    ensures t != []
    ensures ParseSigned(t)
      == Some(if t[0] == '-' then -(DigitsValue(ds) as int) else DigitsValue(ds) as int)
  {
  }

  /** A sign, digits and then a non-digit read as the signed value of the digits. */
  lemma ParseSignedDigits(sign: string, ds: string, tail: string)
    requires OptionalSign(sign)
    requires ds != [] && forall i :: 0 <= i < |ds| ==> IsDigit(ds[i])
    requires tail == [] || !IsDigit(tail[0])
    ensures ParseSigned(sign + ds + tail)
      == Some(if sign != [] && sign[0] == '-' then -(DigitsValue(ds) as int) else DigitsValue(ds) as int)
  {
    SignedNumeralShape(sign, ds, tail);
    ParseSignedOf(sign + ds + tail, ds);
  }

  /** A numeral behind leading zeros is still made of digits and denotes the same number. */
  lemma NumeralWithZeros(zs: string, n: nat)
    requires forall i :: 0 <= i < |zs| ==> zs[i] == '0'
    ensures zs + Decimal(n) != []
    ensures forall i :: 0 <= i < |zs + Decimal(n)| ==> IsDigit((zs + Decimal(n))[i])
    ensures DigitsValue(zs + Decimal(n)) == n
  {
    LeadingZeros(zs, Decimal(n));
    DecimalValue(n);
  }

  /** Regrouping the five parts of a signed numeral with white space. */
  lemma Regroup(w: string, sign: string, zs: string, d: string, tail: string)
    ensures w + sign + zs + d + tail == w + (sign + (zs + d) + tail)
  {
  }

  /** A signed numeral with leading zeros, once the white space is skipped. */
  lemma ParseSignedNumeral(sign: string, zs: string, n: nat, tail: string)
    requires OptionalSign(sign)
    requires forall i :: 0 <= i < |zs| ==> zs[i] == '0'
    requires tail == [] || !IsDigit(tail[0])
    ensures ParseSigned(sign + (zs + Decimal(n)) + tail)
      == Some(if sign != [] && sign[0] == '-' then -(n as int) else n as int)
  {
    NumeralWithZeros(zs, n);
    ParseSignedDigits(sign, zs + Decimal(n), tail);
  }

  /** White space in front of a signed numeral is skipped. */
  lemma SkipWhiteSpaceBeforeNumeral(w: string, sign: string, zs: string, n: nat, tail: string)
    requires forall i :: 0 <= i < |w| ==> IsJsWhiteSpace(w[i])
    requires OptionalSign(sign)
    requires forall i :: 0 <= i < |zs| ==> zs[i] == '0'
    ensures ParseIntDecimal(w + (sign + (zs + Decimal(n)) + tail))
      == ParseSigned(sign + (zs + Decimal(n)) + tail)
  {
    var ds := zs + Decimal(n);
    NumeralWithZeros(zs, n);
    SignedNumeralStart(sign, ds, tail);
    ParseAfterWhiteSpace(w, sign + ds + tail);
  }

  /**
   * The value of `parseInt(_, 10)`: after white space, an optional sign and
   * leading zeros, a numeral followed by a non-digit reads as its number,
   * negated after a '-'.
   */
  lemma ParseIntDecimalValue(w: string, sign: string, zs: string, n: nat, tail: string)
    requires forall i :: 0 <= i < |w| ==> IsJsWhiteSpace(w[i])
    requires OptionalSign(sign)
    requires forall i :: 0 <= i < |zs| ==> zs[i] == '0'
    requires tail == [] || !IsDigit(tail[0])
    ensures ParseIntDecimal(w + sign + zs + Decimal(n) + tail)
      == Some(if sign != [] && sign[0] == '-' then -(n as int) else n as int)
  {
    Regroup(w, sign, zs, Decimal(n), tail);
    ParseSignedNumeral(sign, zs, n, tail);
    SkipWhiteSpaceBeforeNumeral(w, sign, zs, n, tail);
  }

  /**
   * For a release version "major.minor.patch" (any text after the first
   * '.'), the gate refuses exactly the majors below 4.
   */
  lemma ReleaseVersionGate(nodeVersion: string, major: nat, rest: string)
    requires nodeVersion == Decimal(major) + "." + rest
    ensures NodeVersionRejected(nodeVersion) <==> major < 4
  {
    assert '.' !in Decimal(major) by {
      forall i | 0 <= i < |Decimal(major)| ensures Decimal(major)[i] != '.' {
        assert IsDigit(Decimal(major)[i]);
      }
    }
    FirstComponentOf(Decimal(major), rest);
    ParseDecimal(major, []);
    assert Decimal(major) + [] == Decimal(major);
  }

  /**
   * A version whose first component has no digit where the number should
   * start (for instance "v18.0.0") parses to NaN and is let through.
   */
  lemma NonNumericMajorPasses(nodeVersion: string)
    requires nodeVersion != []
    requires !IsDigit(nodeVersion[0]) && !IsJsWhiteSpace(nodeVersion[0])
    requires nodeVersion[0] != '+' && nodeVersion[0] != '-'
    ensures !NodeVersionRejected(nodeVersion)
  {
    var c := FirstComponent(nodeVersion);
    if c != [] {
      assert c[0] == nodeVersion[0];
      assert TrimStart(c) == c;
      assert SkipSign(c) == c;
    }
  }

  /** Node.js 3.10.0 is refused. */
  lemma ExampleThreeRefused()
    ensures NodeVersionRejected("3.10.0")
  {
    ReleaseVersionGate("3.10.0", 3, "10.0");
  }

  /** Node.js 0.12.18 is refused. */
  lemma ExampleZeroRefused()
    ensures NodeVersionRejected("0.12.18")
  {
    ReleaseVersionGate("0.12.18", 0, "12.18");
  }

  /** Node.js 4.0.0 passes. */
  lemma ExampleFourPasses()
    ensures !NodeVersionRejected("4.0.0")
  {
    ReleaseVersionGate("4.0.0", 4, "0.0");
  }

  /** Node.js 10.0.0 passes: the comparison is numeric, not textual. */
  lemma ExampleTenPasses()
    ensures !NodeVersionRejected("10.0.0")
  {
    assert Decimal(10) == "10";
    ReleaseVersionGate("10.0.0", 10, "0.0");
  }

  /** "v18.17.1" passes: its major is NaN. */
  lemma ExampleLeadingV()
    ensures !NodeVersionRejected("v18.17.1")
  {
    NonNumericMajorPasses("v18.17.1");
  }
}
