/** The pieces of the JavaScript string library the tools rely on:
    `parseInt` (with no radix and with radix 16), `String.prototype.trim`,
    `String.prototype.substring`, and the decimal text of a non-negative
    integer produced by a template literal.

    JavaScript strings are sequences of UTF-16 code units; here a string is a
    `seq<char>`, which agrees with them on every character of the Basic
    Multilingual Plane. */
module JsText {
  import opened Wrappers

  // ---------------------------------------------------------------- whitespace

  /** The characters ECMAScript classes as WhiteSpace or LineTerminator
      (StrWhiteSpaceChar); `parseInt` skips them at the front and `trim`
      strips them at both ends. */
  predicate IsWhiteSpace(c: char) {
    || c == '\U{9}' || c == '\U{A}' || c == '\U{B}' || c == '\U{C}' || c == '\U{D}'
    || c == ' ' || c == '\U{A0}' || c == '\U{1680}'
    || ('\U{2000}' <= c <= '\U{200A}')
    || c == '\U{2028}' || c == '\U{2029}' || c == '\U{202F}' || c == '\U{205F}'
    || c == '\U{3000}' || c == '\U{FEFF}'
  }

  predicate AllWhiteSpace(s: string) {
    forall i :: 0 <= i < |s| ==> IsWhiteSpace(s[i])
  }

  /** How many whitespace characters open `s`. */
  function LeadingWhiteSpace(s: string): (n: nat)
    ensures n <= |s| && AllWhiteSpace(s[..n])
    ensures n < |s| ==> !IsWhiteSpace(s[n])
  {
    if |s| > 0 && IsWhiteSpace(s[0]) then
      var n := 1 + LeadingWhiteSpace(s[1..]);
      assert forall i :: 1 <= i < n ==> s[i] == s[1..][i - 1];
      n
    else 0
  }

  /** How many whitespace characters close `s`. */
  function TrailingWhiteSpace(s: string): (n: nat)
    ensures n <= |s| && AllWhiteSpace(s[|s| - n..])
    ensures n < |s| ==> !IsWhiteSpace(s[|s| - n - 1])
  {
    if |s| > 0 && IsWhiteSpace(s[|s| - 1]) then
      var init := s[..|s| - 1];
      var n := 1 + TrailingWhiteSpace(init);
      assert forall i :: |s| - n <= i < |s| - 1 ==> s[i] == init[i];
      n
    else 0
  }

  /** `s` with its leading whitespace removed. */
  function TrimStart(s: string): string {
    s[LeadingWhiteSpace(s)..]
  }

  /** `s` with its trailing whitespace removed. */
  function TrimEnd(s: string): string {
    s[..|s| - TrailingWhiteSpace(s)]
  }

  /** `String.prototype.trim`: the slice of `s` between its leading and its
      trailing whitespace, so neither end of a non-empty result is
      whitespace. */
  function Trim(s: string): (r: string)
    ensures LeadingWhiteSpace(s) + |r| <= |s|
    ensures r == s[LeadingWhiteSpace(s)..LeadingWhiteSpace(s) + |r|]
    ensures |r| > 0 ==> !IsWhiteSpace(r[0]) && !IsWhiteSpace(r[|r| - 1])
  {
    var k := LeadingWhiteSpace(s);
    var t := s[k..];
    var m := TrailingWhiteSpace(t);
    var r := t[..|t| - m];
    assert TrimEnd(TrimStart(s)) == r;
    assert |r| > 0 ==> r[0] == s[k] && r[|r| - 1] == t[|t| - m - 1];
    TrimEnd(TrimStart(s))
  }

  /** What `trim` drops on either side of the slice it keeps is all
      whitespace. */
  lemma TrimDropsWhiteSpace(s: string)
    ensures var k := LeadingWhiteSpace(s);
      k + |Trim(s)| <= |s| && AllWhiteSpace(s[..k]) && AllWhiteSpace(s[k + |Trim(s)|..])
  {
    var k := LeadingWhiteSpace(s);
    var t := s[k..];
    var m := TrailingWhiteSpace(t);
    assert AllWhiteSpace(t[|t| - m..]);
    assert |Trim(s)| == |t| - m;
    assert s[k + |t| - m..] == t[|t| - m..];
  }

  /** The trimmed text is empty exactly when the input is all whitespace,
      which is what the `!text` guards after `trim()` reject. */
  lemma TrimEmptyIff(s: string)
    ensures Trim(s) == [] <==> AllWhiteSpace(s)
  {
    var k := LeadingWhiteSpace(s);
    if AllWhiteSpace(s) {
      assert k == |s|;
    } else {
      assert k < |s|;
    }
  }

  /** Trimming twice is trimming once. */
  lemma TrimIdempotent(s: string)
    ensures Trim(Trim(s)) == Trim(s)
  {
    var r := Trim(s);
    assert LeadingWhiteSpace(r) == 0;
    assert TrailingWhiteSpace(r) == 0;
  }

  // ---------------------------------------------------------------- digits

  /** The value of `c` as a digit in any radix up to 36: `0`-`9` are 0-9 and
      the Latin letters, in either case, are 10-35. Every other character gets
      36, which no radix accepts. */
  function DigitValue(c: char): (v: nat)
    ensures v <= 36
    ensures v < 10 <==> '0' <= c <= '9'
  {
    if '0' <= c <= '9' then (c as int - '0' as int)
    else if 'a' <= c <= 'z' then (c as int - 'a' as int) + 10
    else if 'A' <= c <= 'Z' then (c as int - 'A' as int) + 10
    else 36
  }

  predicate IsDigit(c: char, radix: nat) {
    DigitValue(c) < radix
  }

  predicate AllDigits(s: string, radix: nat) {
    forall i :: 0 <= i < |s| ==> IsDigit(s[i], radix)
  }

  /** The longest prefix of `s` made of radix-`radix` digits. */
  function DigitPrefix(s: string, radix: nat): (z: string)
    ensures |z| <= |s| && z == s[..|z|]
    ensures AllDigits(z, radix)
    ensures |z| < |s| ==> !IsDigit(s[|z|], radix)
  {
    if |s| > 0 && IsDigit(s[0], radix) then [s[0]] + DigitPrefix(s[1..], radix) else []
  }

  function Pow(b: nat, e: nat): (p: nat)
    ensures b > 0 ==> p > 0
  {
    if e == 0 then 1 else b * Pow(b, e - 1)
  }

  /** The number a string of digits denotes, most significant digit first. */
  function DigitsValue(z: string, radix: nat): (v: nat)
    requires AllDigits(z, radix)
    ensures v < Pow(radix, |z|)
  {
    if |z| == 0 then 0
    else
      var prev := DigitsValue(z[..|z| - 1], radix);
      var d := DigitValue(z[|z| - 1]);
      ShiftInDigit(prev, d, radix, Pow(radix, |z| - 1));
      prev * radix + d
  }

  /** Appending a digit below `radix` to a number below `p` gives a number
      below `p * radix`. */
  lemma ShiftInDigit(prev: nat, d: nat, radix: nat, p: nat)
    requires prev < p && d < radix
    ensures prev * radix + d < p * radix
  {
    assert prev * radix <= (p - 1) * radix;
  }

  // ---------------------------------------------------------------- parseInt

  /** The radix argument of a `parseInt` call: omitted (base 10, but a `0x`
      prefix switches to 16) or 16. */
  datatype Radix = Default | Hex

  function Base(radix: Radix): nat {
    match radix
    case Default => 10
    case Hex => 16
  }

  /** `s` starts with `0x` or `0X`. */
  predicate HasHexPrefix(s: string) {
    |s| >= 2 && s[0] == '0' && (s[1] == 'x' || s[1] == 'X')
  }

  /** What `parseInt` reads once whitespace and sign are gone: a `0x`/`0X`
      prefix forces base 16, then the longest run of digits is taken; no
      digits at all is `NaN`, modelled as `None`. */
  function ParseMagnitude(u: string, radix: Radix): (m: Option<int>)
    ensures m.Some? ==> m.value >= 0
  {
    var base := if HasHexPrefix(u) then 16 else Base(radix);
    var z := DigitPrefix(if HasHexPrefix(u) then u[2..] else u, base);
    if |z| == 0 then None else Some(DigitsValue(z, base))
  }

  /** The global `parseInt(s)` / `parseInt(s, 16)`: skip leading whitespace,
      then read an optional sign and the magnitude. */
  function ParseInt(s: string, radix: Radix): (r: Option<int>)
    ensures |TrimStart(s)| == 0 ==> r.None?
    ensures r.Some? && r.value < 0 ==> |TrimStart(s)| > 1 && TrimStart(s)[0] == '-'
    ensures |TrimStart(s)| > 0 && TrimStart(s)[0] == '-' ==> r.None? || r.value <= 0
  {
    ParseSigned(TrimStart(s), radix)
  }

  /** An optional sign followed by the magnitude. Negative zero is folded
      into 0 (both are falsy, so no caller here can tell them apart). */
  function ParseSigned(t: string, radix: Radix): Option<int> {
    if |t| > 0 && t[0] == '-' then
      match ParseMagnitude(t[1..], radix)
      case None => None
      case Some(n) => Some(-n)
    else if |t| > 0 && t[0] == '+' then ParseMagnitude(t[1..], radix)
    else ParseMagnitude(t, radix)
  }

  /** A string that starts with a letter or digit is read with no sign and
      no skipped whitespace. */
  lemma ParseIntUnsigned(s: string, radix: Radix)
    requires |s| > 0 && IsDigit(s[0], 36)
    ensures ParseInt(s, radix) == ParseMagnitude(s, radix)
  {
    assert TrimStart(s) == s;
  }

  /** A run of digits with no `0x` prefix is read whole. */
  lemma MagnitudeOfDigits(z: string, radix: Radix)
    requires |z| > 0 && AllDigits(z, Base(radix)) && !HasHexPrefix(z)
    ensures ParseMagnitude(z, radix) == Some(DigitsValue(z, Base(radix)))
  {
    DigitPrefixOfDigits(z, [], Base(radix));
    assert z + [] == z;
  }

  /** Leading whitespace never changes what `parseInt` reads. */
  lemma ParseIntSkipsWhiteSpace(w: string, s: string, radix: Radix)
    requires AllWhiteSpace(w)
    ensures ParseInt(w + s, radix) == ParseInt(s, radix)
  {
    TrimStartSkips(w, s);
  }

  lemma {:induction false} TrimStartSkips(w: string, s: string)
    requires AllWhiteSpace(w)
    ensures TrimStart(w + s) == TrimStart(s)
  {
    if |w| > 0 {
      assert (w + s)[1..] == w[1..] + s;
      assert AllWhiteSpace(w[1..]) by {
        forall i | 0 <= i < |w| - 1 ensures IsWhiteSpace(w[1..][i]) {
          assert w[1..][i] == w[i + 1];
        }
      }
      TrimStartSkips(w[1..], s);
      assert (w + s)[1..][LeadingWhiteSpace((w + s)[1..])..] == (w + s)[LeadingWhiteSpace(w + s)..];
    } else {
      assert w + s == s;
    }
  }

  /** Characters after the first non-digit never change what `parseInt`
      reads from a run of decimal digits, unless they turn a leading `0` into
      a `0x` prefix. */
  lemma DecimalDigitsThenRest(z: string, rest: string)
    requires |z| > 0 && AllDigits(z, 10)
    requires |rest| == 0 || !IsDigit(rest[0], 10)
    requires !HasHexPrefix(z + rest)
    ensures ParseInt(z + rest, Default) == Some(DigitsValue(z, 10))
  {
    var s := z + rest;
    assert s[0] == z[0];
    ParseIntUnsigned(s, Default);
    DigitPrefixOfDigits(z, rest, 10);
    assert ParseMagnitude(s, Default) == Some(DigitsValue(z, 10));
  }

  lemma {:induction false} DigitPrefixOfDigits(z: string, rest: string, radix: nat)
    requires AllDigits(z, radix)
    requires |rest| == 0 || !IsDigit(rest[0], radix)
    ensures DigitPrefix(z + rest, radix) == z
  {
    if |z| > 0 {
      assert (z + rest)[1..] == z[1..] + rest;
      DigitPrefixOfDigits(z[1..], rest, radix);
      assert [z[0]] + z[1..] == z;
    } else {
      assert z + rest == rest;
    }
  }

  // ---------------------------------------------------------------- number to text

  function DigitChar(d: nat): (c: char)
    requires d < 10
    ensures DigitValue(c) == d
  {
    ('0' as int + d) as char
  }

  /** The text a template literal gives a non-negative integer: its decimal
      digits, with no leading zero unless the number is 0. */
  function DecimalString(n: nat): (s: string)
    ensures |s| > 0 && AllDigits(s, 10)
    ensures s[0] == '0' ==> n == 0
  {
    if n < 10 then [DigitChar(n)] else DecimalString(n / 10) + [DigitChar(n % 10)]
  }

  /** The digits of `DecimalString(n)` denote `n`. */
  lemma {:induction false} DecimalStringValue(n: nat)
    ensures DigitsValue(DecimalString(n), 10) == n
  {
    var s := DecimalString(n);
    if n >= 10 {
      DecimalStringValue(n / 10);
      assert s[..|s| - 1] == DecimalString(n / 10);
    }
  }

  /** `parseInt` reads back exactly the number a template literal printed. */
  lemma DecimalStringRoundTrip(n: nat)
    ensures ParseInt(DecimalString(n), Default) == Some(n)
  {
    DecimalStringValue(n);
    DecimalDigitsThenRest(DecimalString(n), []);
    assert DecimalString(n) + [] == DecimalString(n);
  }

  // ---------------------------------------------------------------- substring

  function Clamp(i: int, len: nat): (c: nat)
    ensures c <= len
  {
    if i < 0 then 0 else if i > len then len else i
  }

  /** `String.prototype.substring(start, end)`: both indices are clamped to
      the string and the smaller one is taken as the start. */
  function Substring(s: string, start: int, end: int): (r: string)
    ensures |r| <= |s|
    ensures 0 <= start <= end <= |s| ==> r == s[start..end]
    ensures 0 <= end <= start <= |s| ==> r == s[end..start]
    ensures start <= end ==> |r| <= end - start
  {
    var a := Clamp(start, |s|);
    var b := Clamp(end, |s|);
    if a <= b then s[a..b] else s[b..a]
  }
}
