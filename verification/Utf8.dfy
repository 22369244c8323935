/** Strict UTF-8: text as the bytes the tools hash, read and write. */
module Utf8 {
  import opened Common

  function CharBytes(c: char): (b: seq<byte>)
    ensures 1 <= |b| <= 4
    ensures |b| == 1 <==> c as int < 0x80
  {
    var v := c as int;
    if v < 0x80 then [v]
    else if v < 0x800 then [0xC0 + v / 0x40, 0x80 + v % 0x40]
    else if v < 0x1_0000 then [0xE0 + v / 0x1000, 0x80 + (v / 0x40) % 0x40, 0x80 + v % 0x40]
    else [0xF0 + v / 0x4_0000, 0x80 + (v / 0x1000) % 0x40, 0x80 + (v / 0x40) % 0x40, 0x80 + v % 0x40]
  }

  function Encode(s: string): (b: seq<byte>)
    ensures |b| >= |s|
  {
    if s == "" then [] else CharBytes(s[0]) + Encode(s[1..])
  }

  predicate IsContinuation(b: byte) { 0x80 <= b < 0xC0 }

  /** Lead and continuation bytes as section 3 of RFC 3629 lays them out, in the shortest form. */
  lemma CharBytesAreUtf8(c: char)
    ensures var b, v := CharBytes(c), c as int;
      && (v < 0x80 ==> b == [v])
      && (0x80 <= v < 0x800 ==> |b| == 2 && 0xC2 <= b[0] < 0xE0 && IsContinuation(b[1]))
      && (0x800 <= v < 0x1_0000 ==> |b| == 3 && 0xE0 <= b[0] < 0xF0 && IsContinuation(b[1]) && IsContinuation(b[2]))
      && (0x1_0000 <= v ==>
            |b| == 4 && 0xF0 <= b[0] < 0xF5 && IsContinuation(b[1]) && IsContinuation(b[2]) && IsContinuation(b[3]))
  {
  }

  predicate IsAscii(s: string) {
    forall i :: 0 <= i < |s| ==> s[i] as int < 0x80
  }

  lemma CharDecodes(c: char, d: char, r: seq<byte>, q: seq<byte>)
    requires CharBytes(c) + r == CharBytes(d) + q
    ensures c == d && r == q
  {
    var a, b := CharBytes(c), CharBytes(d);
    assert (a + r)[0] == (b + q)[0];
    assert |a| == |b|;
    assert a == (a + r)[..|a|] == (b + q)[..|b|] == b;
    assert r == (a + r)[|a|..] == q;
    SameBytesSameChar(c, d);
  }

  /** The code point that a sequence of one to four UTF-8 bytes spells. */
  function CodePoint(b: seq<byte>): int
    requires 1 <= |b| <= 4
  {
    if |b| == 1 then b[0]
    else if |b| == 2 then (b[0] as int - 0xC0) * 0x40 + (b[1] as int - 0x80)
    else if |b| == 3 then (b[0] as int - 0xE0) * 0x1000 + (b[1] as int - 0x80) * 0x40 + (b[2] as int - 0x80)
    else
      (b[0] as int - 0xF0) * 0x4_0000 + (b[1] as int - 0x80) * 0x1000 + (b[2] as int - 0x80) * 0x40
      + (b[3] as int - 0x80)
  }

  lemma SixBitGroups(v: nat)
    ensures v == (v / 0x40) * 0x40 + v % 0x40
    ensures v / 0x1000 == (v / 0x40) / 0x40 && v / 0x4_0000 == (v / 0x1000) / 0x40
  {
  }

  lemma CodePointOfCharBytes(c: char)
    ensures CodePoint(CharBytes(c)) == c as int
  {
    var v := c as int;
    SixBitGroups(v);
    SixBitGroups(v / 0x40);
    SixBitGroups(v / 0x1000);
  }

  lemma SameBytesSameChar(c: char, d: char)
    requires CharBytes(c) == CharBytes(d)
    ensures c == d
  {
    hide CharBytes;
    CodePointOfCharBytes(c);
    CodePointOfCharBytes(d);
  }

  lemma {:induction false} EncodeInjective(s: string, t: string)
    requires Encode(s) == Encode(t)
    ensures s == t
  {
    if s != "" && t != "" {
      CharDecodes(s[0], t[0], Encode(s[1..]), Encode(t[1..]));
      EncodeInjective(s[1..], t[1..]);
      assert s == [s[0]] + s[1..] && t == [t[0]] + t[1..];
    }
  }

  lemma {:induction false} EncodeAppend(s: string, t: string)
    ensures Encode(s + t) == Encode(s) + Encode(t)
  {
    if s == "" {
      assert s + t == t;
      assert [] + Encode(t) == Encode(t);
    } else {
      hide *;
      EncodeAppend(s[1..], t);
      EncodeFirst(s);
      EncodeFirst(s + t);
      FirstAndRest(s, t);
      Associative(CharBytes(s[0]), Encode(s[1..]), Encode(t));
    }
  }

  lemma FirstAndRest(s: string, t: string)
    requires s != ""
    ensures (s + t)[0] == s[0] && (s + t)[1..] == s[1..] + t
  {
  }

  lemma Associative<T>(a: seq<T>, b: seq<T>, c: seq<T>)
    ensures a + (b + c) == a + b + c
  {
  }

  lemma EncodeFirst(s: string)
    requires s != ""
    ensures Encode(s) == CharBytes(s[0]) + Encode(s[1..])
  {
    hide CharBytes;
  }

  /** Byte length and character length agree exactly on ASCII text. */
  lemma {:induction false} AsciiLength(s: string)
    ensures |Encode(s)| == |s| <==> IsAscii(s)
  {
    if s != "" {
      AsciiLength(s[1..]);
      assert s == [s[0]] + s[1..];
      assert IsAscii(s) <==> s[0] as int < 0x80 && IsAscii(s[1..]);
    }
  }

  // ---------------------------------------------------------------------
  // Reading text back, as `read_to_string` does
  // ---------------------------------------------------------------------

  predicate IsScalar(v: int) {
    0 <= v < 0xD800 || 0xE000 <= v < 0x11_0000
  }

  /** The first `n` bytes are the encoding of one character. */
  predicate StartsWithChar(b: seq<byte>, n: nat)
    requires 1 <= n <= 4
  {
    n <= |b| && IsScalar(CodePoint(b[..n])) && CharBytes(CodePoint(b[..n]) as char) == b[..n]
  }

  /** Length of the encoded character at the front, 0 if the bytes are malformed. */
  function FirstLength(b: seq<byte>): (n: nat)
    ensures n <= 4 && (n > 0 ==> StartsWithChar(b, n))
    ensures n == 0 ==> forall k :: 1 <= k <= 4 ==> !StartsWithChar(b, k)
  {
    if StartsWithChar(b, 1) then 1
    else if StartsWithChar(b, 2) then 2
    else if StartsWithChar(b, 3) then 3
    else if StartsWithChar(b, 4) then 4
    else 0
  }

  function Decode(b: seq<byte>): Option<string>
    decreases |b|
  {
    if b == [] then Some("")
    else
      var n := FirstLength(b);
      if n == 0 then None
      else
        var tail := Decode(b[n..]);
        if tail.None? then None else Some([CodePoint(b[..n]) as char] + tail.value)
  }

  /** Only encodings are read. */
  lemma {:induction false} EncodeDecode(b: seq<byte>)
    requires Decode(b).Some?
    ensures Encode(Decode(b).value) == b
    decreases |b|
  {
    hide CharBytes, CodePoint;
    if b != [] {
      var n := FirstLength(b);
      EncodeDecode(b[n..]);
      var s := Decode(b).value;
      assert s[1..] == Decode(b[n..]).value;
      assert b == b[..n] + b[n..];
    }
  }

  lemma EncodeOneAscii(c: char)
    requires c as int < 0x80
    ensures Encode([c]) == [c as int]
  {
    assert [c][1..] == [];
  }

  lemma {:induction false} DecodeEncode(s: string)
    ensures Decode(Encode(s)) == Some(s)
  {
    hide CharBytes, CodePoint;
    if s != "" {
      var c, rest := s[0], Encode(s[1..]);
      var b := CharBytes(c) + rest;
      DecodeEncode(s[1..]);
      CodePointOfCharBytes(c);
      assert b[..|CharBytes(c)|] == CharBytes(c) && b[|CharBytes(c)|..] == rest;
      assert StartsWithChar(b, |CharBytes(c)|);
      forall n: nat | 1 <= n <= 4 && StartsWithChar(b, n)
        ensures n == |CharBytes(c)|
      {
        var d := CodePoint(b[..n]) as char;
        assert b == b[..n] + b[n..];
        CharDecodes(c, d, rest, b[n..]);
      }
      assert s == [c] + s[1..];
    }
  }
}
