/**
 * Python's `int(v, 16)` on a string, as the dsfield validator uses it, and
 * Python's `hex(n)` rendering as its inverse.
 *
 * The accepted syntax is CPython's for an ASCII string: optional leading and
 * trailing whitespace, an optional sign, an optional `0x`/`0X` prefix that may
 * be followed by one underscore, then one or more hexadecimal digits (either
 * case) in which single underscores may separate two digits.
 */
module Hex {
  import opened Wrappers

  /** The ASCII characters CPython skips around an integer literal. */
  predicate IsSpace(c: char) {
    c == ' ' || c == '\t' || c == '\n' || c == '\r' || c == '\U{000B}' || c == '\U{000C}'
  }

  function DigitValue(c: char): (d: Option<nat>)
    ensures d.Some? ==> d.value < 16
  {
    if '0' <= c <= '9' then Some(c as int - '0' as int)
    else if 'a' <= c <= 'f' then Some(c as int - 'a' as int + 10)
    else if 'A' <= c <= 'F' then Some(c as int - 'A' as int + 10)
    else None
  }

  predicate IsHexDigit(c: char) {
    DigitValue(c).Some?
  }

  /** `s` without its leading whitespace. */
  function TrimLeft(s: string): (t: string)
    ensures |t| <= |s|
    ensures t == [] || !IsSpace(t[0])
  {
    if |s| > 0 && IsSpace(s[0]) then TrimLeft(s[1..]) else s
  }

  /** `s` without its trailing whitespace. */
  function TrimRight(s: string): (t: string)
    ensures |t| <= |s|
    ensures t == [] || !IsSpace(t[|t| - 1])
  {
    if |s| > 0 && IsSpace(s[|s| - 1]) then TrimRight(s[..|s| - 1]) else s
  }

  lemma {:induction false} TrimmedContents(s: string)
    ensures forall c :: c in TrimLeft(s) ==> c in s
    ensures forall c :: c in TrimRight(s) ==> c in s
  {
    if |s| > 0 {
      TrimmedContents(s[1..]);
      TrimmedContents(s[..|s| - 1]);
    }
  }

  function Strip(s: string): string {
    TrimRight(TrimLeft(s))
  }

  /** Digits and single separating underscores, starting and ending with a digit. */
  predicate IsDigitGroup(s: string) {
    && |s| > 0
    && IsHexDigit(s[0])
    && IsHexDigit(s[|s| - 1])
    && (forall i :: 0 <= i < |s| ==> IsHexDigit(s[i]) || s[i] == '_')
    && (forall i :: 0 <= i < |s| - 1 ==> s[i] != '_' || s[i + 1] != '_')
  }

  /** The base-16 value of the digits of `s`; any other character (an underscore) is skipped. */
  function Value(s: string): nat {
    if s == [] then 0
    else match DigitValue(s[|s| - 1])
      case Some(d) => 16 * Value(s[..|s| - 1]) + d
      case None => Value(s[..|s| - 1])
  }

  /** The unsigned part after an optional base prefix and the one underscore allowed after it. */
  function WithoutPrefix(u: string): string {
    if |u| >= 2 && u[0] == '0' && (u[1] == 'x' || u[1] == 'X') then
      if |u| >= 3 && u[2] == '_' then u[3..] else u[2..]
    else u
  }

  /** The value of an unsigned literal with an optional base prefix. */
  function ParseUnsigned(u: string): Option<nat> {
    var body := WithoutPrefix(u);
    if IsDigitGroup(body) then Some(Value(body)) else None
  }

  /** The value of a literal with an optional sign, whitespace already stripped. */
  function ParseSigned(t: string): Option<int> {
    if |t| > 0 && t[0] == '-' then
      match ParseUnsigned(t[1..])
      case Some(m) => Some(-(m as int))
      case None => None
    else if |t| > 0 && t[0] == '+' then
      match ParseUnsigned(t[1..])
      case Some(m) => Some(m)
      case None => None
    else
      match ParseUnsigned(t)
      case Some(m) => Some(m)
      case None => None
  }

  /** `int(s, 16)`: the integer `s` denotes in base 16, or None where Python raises ValueError. */
  function ParseInt16(s: string): (r: Option<int>)
    ensures var t := Strip(s);
      var u := if |t| > 0 && (t[0] == '-' || t[0] == '+') then t[1..] else t;
      r.Some? <==> IsDigitGroup(WithoutPrefix(u))
    ensures r.Some? && r.value < 0 ==> Strip(s)[0] == '-'
  {
    ParseSigned(Strip(s))
  }

  function HexChar(d: nat): (c: char)
    requires d < 16
    ensures DigitValue(c) == Some(d)
    ensures d >= 10 ==> 'a' <= c <= 'f'
  {
    if d < 10 then ('0' as int + d) as char else ('a' as int + d - 10) as char
  }

  /** The lower-case base-16 digits of `n` without leading zeros (Python's `format(n, 'x')`). */
  function ToHex(n: nat): (h: string)
    ensures |h| > 0
    ensures forall i :: 0 <= i < |h| ==> IsHexDigit(h[i])
    ensures h[0] == '0' ==> n == 0
  {
    if n < 16 then [HexChar(n)] else ToHex(n / 16) + [HexChar(n % 16)]
  }

  function Zeros(k: nat): (z: string)
    ensures |z| == k && forall i :: 0 <= i < k ==> z[i] == '0'
  {
    if k == 0 then [] else Zeros(k - 1) + ['0']
  }

  lemma {:induction false} ValueOfToHex(n: nat)
    ensures Value(ToHex(n)) == n
  {
    var h := ToHex(n);
    if n >= 16 {
      ValueOfToHex(n / 16);
      assert h[..|h| - 1] == ToHex(n / 16);
    }
  }

  /** Appending one character adds its digit in the units place, or nothing if it is not a digit. */
  lemma ValueSnoc(s: string, c: char)
    ensures Value(s + [c]) == match DigitValue(c) case Some(d) => 16 * Value(s) + d case None => Value(s)
  {
    assert (s + [c])[..|s|] == s;
  }

  lemma {:induction false} ValueOfZeros(k: nat)
    ensures Value(Zeros(k)) == 0
  {
    if k > 0 {
      ValueOfZeros(k - 1);
      ValueSnoc(Zeros(k - 1), '0');
    }
  }

  /** Leading zeros do not change the value of a digit string. */
  lemma {:induction false} ValueLeadingZeros(k: nat, h: string)
    ensures Value(Zeros(k) + h) == Value(h)
  {
    var z := Zeros(k);
    if h == [] {
      assert z + h == z;
      ValueOfZeros(k);
    } else {
      var h' := h[..|h| - 1];
      ValueLeadingZeros(k, h');
      assert (z + h)[..|z + h| - 1] == z + h';
    }
  }

  lemma StripUnpadded(u: string)
    requires |u| > 0 && !IsSpace(u[0]) && !IsSpace(u[|u| - 1])
    ensures Strip(u) == u
  {
  }

  lemma RenderingDigits(n: nat, pad: nat)
    ensures var d := Zeros(pad) + ToHex(n); |d| > 0 && forall i :: 0 <= i < |d| ==> IsHexDigit(d[i])
  {
    var h := ToHex(n);
    var d := Zeros(pad) + h;
    forall i | 0 <= i < |d| ensures IsHexDigit(d[i]) {
      if i < pad { assert d[i] == '0'; } else { assert d[i] == h[i - pad]; }
    }
  }

  /** A base prefix is removed from a run of digits, and a run of digits alone has none to remove. */
  lemma PrefixRemoved(prefix: string, d: string)
    requires prefix == "" || prefix == "0x" || prefix == "0X"
    requires |d| > 0 && forall i :: 0 <= i < |d| ==> IsHexDigit(d[i])
    ensures WithoutPrefix(prefix + d) == d
  {
    var u := prefix + d;
    if prefix == "" {
      assert u == d;
      if |d| >= 2 {
        assert IsHexDigit(d[1]);
      }
    } else {
      assert u[2..] == d;
      assert u[2] == d[0];
    }
  }

  lemma ParseUnsignedOfDigits(prefix: string, d: string)
    requires IsDigitGroup(d) && WithoutPrefix(prefix + d) == d
    ensures ParseUnsigned(prefix + d) == Some(Value(d))
  {
  }

  /** The digits of `n` after any number of zeros form a digit group whose value is `n`. */
  lemma RenderingValue(n: nat, pad: nat)
    ensures IsDigitGroup(Zeros(pad) + ToHex(n)) && Value(Zeros(pad) + ToHex(n)) == n
  {
    RenderingDigits(n, pad);
    ValueLeadingZeros(pad, ToHex(n));
    ValueOfToHex(n);
  }

  /** Leading zeros and the lower- or upper-case prefix are all accepted before the digits of `n`. */
  lemma ParseUnsignedRendering(n: nat, prefix: string, pad: nat)
    requires prefix == "" || prefix == "0x" || prefix == "0X"
    ensures ParseUnsigned(prefix + (Zeros(pad) + ToHex(n))) == Some(n)
  {
    var d := Zeros(pad) + ToHex(n);
    RenderingDigits(n, pad);
    PrefixRemoved(prefix, d);
    RenderingValue(n, pad);
    ParseUnsignedOfDigits(prefix, d);
  }

  /** A literal that starts with neither a sign nor whitespace and does not end in whitespace. */
  lemma ParseOfUnsigned(u: string, m: nat)
    requires |u| > 0 && !IsSpace(u[0]) && !IsSpace(u[|u| - 1]) && u[0] != '-' && u[0] != '+'
    requires ParseUnsigned(u) == Some(m)
    ensures ParseInt16(u) == Some(m)
    ensures ParseInt16("-" + u) == Some(-(m as int))
  {
    StripUnpadded(u);
    assert ParseSigned(u) == Some(m);
    var v := "-" + u;
    assert v[0] == '-' && v[|v| - 1] == u[|u| - 1];
    StripUnpadded(v);
    assert v[1..] == u;
    assert ParseSigned(v) == Some(-(m as int));
  }

  /** The rendering of `n` with the given prefix and `pad` leading zeros. */
  function Rendering(n: nat, prefix: string, pad: nat): string {
    prefix + (Zeros(pad) + ToHex(n))
  }

  /**
   * Round trip: the rendering of `n` with no prefix, `0x` or `0X`, and any
   * number of leading zeros (as `0x00` in a capture dissector's output),
   * signed or not, parses back to the number.
   */
  lemma ParseOfRendering(n: nat, prefix: string, pad: nat)
    requires prefix == "" || prefix == "0x" || prefix == "0X"
    ensures ParseInt16(Rendering(n, prefix, pad)) == Some(n)
    ensures ParseInt16("-" + Rendering(n, prefix, pad)) == Some(-(n as int))
  {
    var h := ToHex(n);
    var d := Zeros(pad) + h;
    var u := Rendering(n, prefix, pad);
    ParseUnsignedRendering(n, prefix, pad);
    assert u[|u| - 1] == h[|h| - 1];
    assert IsHexDigit(h[|h| - 1]);
    assert IsHexDigit(d[0]);
    assert u[0] == (if prefix == "" then d[0] else '0');
    ParseOfUnsigned(u, n);
  }

  /** Python's `hex(i)`: `0x` and the digits of the magnitude, with a leading `-` for a negative number. */
  function PyHex(i: int): string {
    if i < 0 then "-" + Rendering(-i, "0x", 0) else Rendering(i, "0x", 0)
  }

  /** Python's `hex()` output parses back: `int(hex(i), 16) == i` for every integer. */
  lemma ParseOfPyHex(i: int)
    ensures ParseInt16(PyHex(i)) == Some(i)
  {
    var m: nat := if i < 0 then -i else i;
    ParseOfRendering(m, "0x", 0);
    assert i < 0 ==> -(m as int) == i;
  }

  /** A lower-case digit string without prefix: `int("1a", 16) == 26`. */
  lemma ParseExampleDigits()
    ensures ParseInt16("1a") == Some(26)
  {
    var u := "1a";
    assert u[..1] == "1" && u[..0] == "";
    assert Value(u) == 26;
    assert IsDigitGroup(u) && WithoutPrefix(u) == u;
    ParseOfUnsigned(u, 26);
  }

  /** An upper-case digit string with prefix: `int("0xFF", 16) == 255`. */
  lemma ParseExamplePrefixed()
    ensures ParseInt16("0xFF") == Some(255)
  {
    var u := "0xFF";
    var d := "FF";
    assert u[2..] == d && |u| == 4 && u[2] == 'F';
    assert d[..1] == "F" && d[..0] == "";
    assert Value(d) == 255;
    assert IsDigitGroup(d) && WithoutPrefix(u) == d;
    ParseOfUnsigned(u, 255);
  }

  /** Two values the dsfield validator produces, and two strings it rejects. */
  lemma ParseExamples()
    ensures ParseInt16("1a") == Some(26)
    ensures ParseInt16("0xFF") == Some(255)
    ensures ParseInt16("zz") == None
    ensures ParseInt16("") == None
  {
    ParseExampleDigits();
    ParseExamplePrefixed();
    assert !IsHexDigit("zz"[0]) && !IsHexDigit("zz"[1]);
    ParseNeedsDigit("zz");
    ParseNeedsDigit("");
  }

  /** A string with no hexadecimal digit in it, the empty string among them, is rejected. */
  lemma ParseNeedsDigit(s: string)
    requires forall i :: 0 <= i < |s| ==> !IsHexDigit(s[i])
    ensures ParseInt16(s) == None
  {
    var t := Strip(s);
    TrimmedContents(s);
    TrimmedContents(TrimLeft(s));
    var unsigned := if |t| > 0 && (t[0] == '+' || t[0] == '-') then t[1..] else t;
    assert forall c :: c in unsigned ==> c in t;
    var body := WithoutPrefix(unsigned);
    assert forall c :: c in body ==> c in unsigned;
    assert !IsDigitGroup(body) by {
      if |body| > 0 {
        assert body[0] in s;
      }
    }
  }

  /** Upper-casing of ASCII letters. */
  function UpperChar(c: char): char {
    if 'a' <= c <= 'z' then (c as int - 'a' as int + 'A' as int) as char else c
  }

  function Upper(s: string): (u: string)
    ensures |u| == |s| && forall i :: 0 <= i < |s| ==> u[i] == UpperChar(s[i])
  {
    seq(|s|, i requires 0 <= i < |s| => UpperChar(s[i]))
  }

  /** Upper-casing changes no whitespace, sign, underscore, digit value or prefix letter's role. */
  lemma UpperCharFacts(c: char)
    ensures IsSpace(UpperChar(c)) == IsSpace(c)
    ensures DigitValue(UpperChar(c)) == DigitValue(c)
    ensures (UpperChar(c) == '-') == (c == '-') && (UpperChar(c) == '+') == (c == '+')
    ensures (UpperChar(c) == '_') == (c == '_') && (UpperChar(c) == '0') == (c == '0')
    ensures (UpperChar(c) == 'x' || UpperChar(c) == 'X') == (c == 'x' || c == 'X')
  {
  }

  lemma UpperSlice(s: string, a: nat, b: nat)
    requires a <= b <= |s|
    ensures Upper(s)[a..b] == Upper(s[a..b])
  {
  }

  lemma {:induction false} TrimLeftUpper(s: string)
    ensures TrimLeft(Upper(s)) == Upper(TrimLeft(s))
  {
    if |s| > 0 {
      UpperCharFacts(s[0]);
    }
    if |s| > 0 && IsSpace(s[0]) {
      UpperSlice(s, 1, |s|);
      assert s[1..|s|] == s[1..] && Upper(s)[1..|s|] == Upper(s)[1..];
      TrimLeftUpper(s[1..]);
      assert IsSpace(Upper(s)[0]);
      assert TrimLeft(Upper(s)) == TrimLeft(Upper(s)[1..]);
      assert TrimLeft(s) == TrimLeft(s[1..]);
    }
  }

  lemma {:induction false} TrimRightUpper(s: string)
    ensures TrimRight(Upper(s)) == Upper(TrimRight(s))
  {
    if |s| > 0 {
      UpperCharFacts(s[|s| - 1]);
    }
    if |s| > 0 && IsSpace(s[|s| - 1]) {
      UpperSlice(s, 0, |s| - 1);
      TrimRightUpper(s[..|s| - 1]);
      assert IsSpace(Upper(s)[|s| - 1]);
      assert TrimRight(Upper(s)) == TrimRight(Upper(s)[..|s| - 1]);
      assert TrimRight(s) == TrimRight(s[..|s| - 1]);
    }
  }

  lemma {:induction false} ValueUpper(s: string)
    ensures Value(Upper(s)) == Value(s)
  {
    if s != [] {
      UpperCharFacts(s[|s| - 1]);
      UpperSlice(s, 0, |s| - 1);
      ValueUpper(s[..|s| - 1]);
    }
  }

  lemma WithoutPrefixUpper(u: string)
    ensures WithoutPrefix(Upper(u)) == Upper(WithoutPrefix(u))
  {
    if |u| >= 2 {
      UpperCharFacts(u[0]);
      UpperCharFacts(u[1]);
      UpperSlice(u, 2, |u|);
      assert u[2..|u|] == u[2..] && Upper(u)[2..|u|] == Upper(u)[2..];
    }
    if |u| >= 3 {
      UpperCharFacts(u[2]);
      UpperSlice(u, 3, |u|);
      assert u[3..|u|] == u[3..] && Upper(u)[3..|u|] == Upper(u)[3..];
    }
  }

  lemma DigitGroupUpper(b: string)
    ensures IsDigitGroup(Upper(b)) == IsDigitGroup(b)
  {
    forall i | 0 <= i < |b| ensures IsHexDigit(Upper(b)[i]) == IsHexDigit(b[i]) && (Upper(b)[i] == '_') == (b[i] == '_') {
      UpperCharFacts(b[i]);
    }
  }

  lemma ParseUnsignedUpper(u: string)
    ensures ParseUnsigned(Upper(u)) == ParseUnsigned(u)
  {
    WithoutPrefixUpper(u);
    DigitGroupUpper(WithoutPrefix(u));
    ValueUpper(WithoutPrefix(u));
  }

  /** Two literals with the same sign character and equally parsing rests parse alike. */
  lemma ParseSignedAlike(t: string, v: string)
    requires |t| > 0 && |v| > 0
    requires (v[0] == '-') == (t[0] == '-') && (v[0] == '+') == (t[0] == '+')
    requires ParseUnsigned(v[1..]) == ParseUnsigned(t[1..]) && ParseUnsigned(v) == ParseUnsigned(t)
    ensures ParseSigned(v) == ParseSigned(t)
  {
  }

  lemma ParseSignedUpper(t: string)
    ensures ParseSigned(Upper(t)) == ParseSigned(t)
  {
    var v := Upper(t);
    ParseUnsignedUpper(t);
    if |t| > 0 {
      UpperCharFacts(t[0]);
      assert v[0] == UpperChar(t[0]);
      UpperSlice(t, 1, |t|);
      assert t[1..|t|] == t[1..] && v[1..|t|] == v[1..];
      ParseUnsignedUpper(t[1..]);
      ParseSignedAlike(t, v);
    }
  }

  /** Case does not matter, in the digits or in the prefix: for ASCII text, `int(s.upper(), 16) == int(s, 16)`. */
  lemma ParseIgnoresCase(s: string)
    ensures ParseInt16(Upper(s)) == ParseInt16(s)
  {
    TrimLeftUpper(s);
    TrimRightUpper(TrimLeft(s));
    ParseSignedUpper(Strip(s));
  }
}
