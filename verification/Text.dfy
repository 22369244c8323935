/** Number rendering and parsing shared by the dump, the reports and the configuration digest. */
module Text {
  import opened Common

  /** Rust's `char::is_whitespace` (the Unicode White_Space property). */
  predicate IsWhitespace(c: char) {
    var v := c as int;
    || 0x09 <= v <= 0x0D || v == 0x20 || v == 0x85 || v == 0xA0 || v == 0x1680
    || 0x2000 <= v <= 0x200A || v == 0x2028 || v == 0x2029 || v == 0x202F || v == 0x205F || v == 0x3000
  }

  /** `trim().is_empty()` */
  predicate IsBlank(s: string) {
    forall i :: 0 <= i < |s| ==> IsWhitespace(s[i])
  }

  const LOWER: set<char> :=
    {'a', 'b', 'c', 'd', 'e', 'f', 'g', 'h', 'i', 'j', 'k', 'l', 'm',
     'n', 'o', 'p', 'q', 'r', 's', 't', 'u', 'v', 'w', 'x', 'y', 'z'}
  const UPPER: set<char> :=
    {'A', 'B', 'C', 'D', 'E', 'F', 'G', 'H', 'I', 'J', 'K', 'L', 'M',
     'N', 'O', 'P', 'Q', 'R', 'S', 'T', 'U', 'V', 'W', 'X', 'Y', 'Z'}
  const DIGITS: set<char> := {'0', '1', '2', '3', '4', '5', '6', '7', '8', '9'}

  /** The character ranges of the source, written out. */
  lemma CharacterRanges(c: char)
    ensures 'a' <= c <= 'z' <==> c in LOWER
    ensures 'A' <= c <= 'Z' <==> c in UPPER
    ensures '0' <= c <= '9' <==> c in DIGITS
  {
  }

  predicate IsDigit(c: char) {
    '0' <= c <= '9'
  }

  predicate AllDigits(s: string) {
    forall i :: 0 <= i < |s| ==> IsDigit(s[i])
  }

  function DigitChar(d: int): (c: char)
    requires 0 <= d < 10
    ensures IsDigit(c) && DigitValue(c) == d
  {
    '0' + d as char
  }

  function DigitValue(c: char): (d: int)
    requires IsDigit(c)
    ensures 0 <= d < 10
  {
    (c - '0') as int
  }

  /** Canonical decimal rendering, no sign and no leading zeros. */
  function Decimal(n: nat): (s: string)
    ensures |s| > 0 && AllDigits(s)
  {
    if n < 10 then [DigitChar(n)] else Decimal(n / 10) + [DigitChar(n % 10)]
  }

  /** The value of a digit string, most significant digit first. */
  function DecimalValue(s: string): nat
    requires AllDigits(s)
  {
    if s == [] then 0 else DecimalValue(s[..|s| - 1]) * 10 + DigitValue(s[|s| - 1])
  }

  lemma {:induction false} DecimalRoundTrip(n: nat)
    ensures DecimalValue(Decimal(n)) == n
  {
    if n < 10 {
      assert Decimal(n)[..0] == [];
    } else {
      DecimalRoundTrip(n / 10);
      assert Decimal(n)[..|Decimal(n)| - 1] == Decimal(n / 10);
    }
  }

  /** No leading zero, except that zero itself is one digit. */
  lemma {:induction false} DecimalIsCanonical(n: nat)
    ensures Decimal(n)[0] == '0' ==> n == 0 && Decimal(n) == "0"
  {
    if n >= 10 {
      DecimalIsCanonical(n / 10);
      DecimalRoundTrip(n / 10);
    }
  }

  lemma DecimalInjective(m: nat, n: nat)
    requires Decimal(m) == Decimal(n)
    ensures m == n
  {
    DecimalRoundTrip(m);
    DecimalRoundTrip(n);
  }

  /** `{:0w}`: zero padding on the left to at least `width` characters. */
  function PadZeros(s: string, width: nat): (r: string)
    requires AllDigits(s)
    ensures AllDigits(r) && |r| == if |s| < width then width else |s|
    decreases width - |s|
  {
    if |s| >= width then s else PadZeros("0" + s, width)
  }

  lemma {:induction false} LeadingZero(s: string)
    requires AllDigits(s)
    ensures DecimalValue("0" + s) == DecimalValue(s)
  {
    if s == [] {
      assert ("0" + s)[..0] == [] && ("0" + s)[0] == '0';
      assert DigitValue('0') == 0;
    } else {
      assert ("0" + s)[..|s|] == "0" + s[..|s| - 1];
      LeadingZero(s[..|s| - 1]);
    }
  }

  lemma {:induction false} PadZerosValue(s: string, width: nat)
    requires AllDigits(s)
    ensures DecimalValue(PadZeros(s, width)) == DecimalValue(s)
    decreases width - |s|
  {
    if |s| < width {
      PadZerosValue("0" + s, width);
      LeadingZero(s);
    }
  }

  /** `0x{:04X}` of a 16-bit opcode. */
  function Hex4(v: uint16): (s: string)
    ensures |s| == 6 && s[..2] == "0x"
  {
    var d0, d1, d2, d3 := v / 0x1000, (v / 0x100) % 16, (v / 16) % 16, v % 16;
    "0x" + [HexDigit(d0), HexDigit(d1), HexDigit(d2), HexDigit(d3)]
  }

  function HexValue(c: char): (r: Option<int>)
    ensures r.Some? ==> 0 <= r.value < 16
  {
    if '0' <= c <= '9' then Some((c - '0') as int)
    else if 'A' <= c <= 'F' then Some((c - 'A') as int + 10)
    else if 'a' <= c <= 'f' then Some((c - 'a') as int + 10)
    else None
  }

  /** One upper-case hexadecimal digit. */
  function HexDigit(d: int): (c: char)
    requires 0 <= d < 16
    ensures HexValue(c) == Some(d)
  {
    if d < 10 then '0' + d as char else 'A' + (d - 10) as char
  }

  /** Digits are upper case, as `{:X}` prints them. */
  lemma HexDigitsAreUpper(d: int)
    requires 0 <= d < 16
    ensures '0' <= HexDigit(d) <= '9' || 'A' <= HexDigit(d) <= 'F'
  {
  }

  predicate AllHex(s: string) {
    forall i :: 0 <= i < |s| ==> HexValue(s[i]).Some?
  }

  /** The value of a hexadecimal digit string. */
  function HexNumber(s: string): nat
    requires AllHex(s)
  {
    if s == "" then 0 else 16 * HexNumber(s[..|s| - 1]) + HexValue(s[|s| - 1]).value
  }

  /** The four digits after the `0x` prefix spell the value. */
  lemma Hex4Digits(v: uint16)
    ensures var d := Hex4(v)[2..];
      && |d| == 4
      && HexValue(d[0]).Some? && HexValue(d[1]).Some? && HexValue(d[2]).Some? && HexValue(d[3]).Some?
      && v == HexValue(d[0]).value * 0x1000 + HexValue(d[1]).value * 0x100
             + HexValue(d[2]).value * 0x10 + HexValue(d[3]).value
  {
    hide HexDigit, HexValue;
    var d0, d1, d2, d3 := v / 0x1000, (v / 0x100) % 16, (v / 16) % 16, v % 16;
    assert Hex4(v)[2..] == [HexDigit(d0), HexDigit(d1), HexDigit(d2), HexDigit(d3)];
    NibblesOf(v);
  }

  lemma NibblesOf(v: uint16)
    ensures v == (v / 0x1000) * 0x1000 + ((v / 0x100) % 16) * 0x100 + ((v / 16) % 16) * 0x10 + v % 16
  {
    assert v / 0x100 == (v / 16) / 16 && v / 0x1000 == (v / 0x100) / 16;
  }

  /** Two texts that agree up to their first delimiter and beyond. */
  lemma SplitAtDelimiter(a: string, b: string, d: char, r: string, q: string)
    requires d !in a && d !in b && a + [d] + r == b + [d] + q
    ensures a == b && r == q
  {
    var s, t := a + [d] + r, b + [d] + q;
    assert s[|a|] == d && t[|b|] == d;
    assert forall i :: 0 <= i < |a| ==> s[i] != d;
    assert forall i :: 0 <= i < |b| ==> t[i] != d;
    assert a == s[..|a|] == t[..|b|] == b;
    assert r == s[|a| + 1..] == t[|b| + 1..] == q;
  }
}
