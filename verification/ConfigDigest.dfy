/**
 * The module configuration digest: `config_digest` of compose.py and the
 * `compute_digest` of wow-module-api that it mirrors.
 */
module ConfigDigest {
  import opened Common
  import opened Text
  import opened Sorting
  import opened Utf8

  datatype Value = Bool(b: bool) | Integer(n: int) | Text(text: string)

  datatype Entry = Entry(key: string, value: Value)

  /** Which of the two implementations renders; they measure text differently. */
  datatype Side = Python | Rust

  predicate DistinctKeys(items: seq<Entry>) {
    forall i, j :: 0 <= i < j < |items| ==> items[i].key != items[j].key
  }

  predicate IsKeyChar(c: char) {
    'a' <= c <= 'z' || '0' <= c <= '9' || c == '_'
  }

  predicate IsKeyBody(k: string) {
    1 <= |k| <= 64 && 'a' <= k[0] <= 'z' && forall i :: 0 <= i < |k| ==> IsKeyChar(k[i])
  }

  /** `^[a-z][a-z0-9_]{0,63}$`, where Python's `$` also matches before a final newline. */
  predicate ValidKey(k: string) {
    IsKeyBody(k) || (k != "" && k[|k| - 1] == '\n' && IsKeyBody(k[..|k| - 1]))
  }

  lemma KeyChars(c: char)
    ensures IsKeyChar(c) <==> c in LOWER + DIGITS + {'_'}
  {
    CharacterRanges(c);
  }

  /** A lower-case letter, then at most 63 lower-case letters, digits and underscores. */
  lemma KeyBodyIsLetterAndRest(first: char, rest: string)
    ensures IsKeyBody([first] + rest) <==>
      first in LOWER && |rest| <= 63 && forall i :: 0 <= i < |rest| ==> rest[i] in LOWER + DIGITS + {'_'}
  {
    var k := [first] + rest;
    CharacterRanges(first);
    KeyChars(first);
    forall c: char { KeyChars(c); }
    hide IsKeyChar;
    assert forall i :: 0 <= i < |rest| ==> k[i + 1] == rest[i];
    assert forall i :: 1 <= i < |k| ==> k[i] == rest[i - 1];
  }

  predicate ValidKeys(items: seq<Entry>) {
    forall i :: 0 <= i < |items| ==> ValidKey(items[i].key)
  }

  // ---------------------------------------------------------------------
  // The text that is hashed
  // ---------------------------------------------------------------------

  function IntText(n: int): (s: string)
    ensures |s| > 0 && ';' !in s
  {
    if n < 0 then "-" + Decimal(-n) else Decimal(n)
  }

  /** `len(value)` in Python counts characters, `v.len()` in Rust counts bytes. */
  function TextLength(side: Side, text: string): nat {
    match side
    case Python => |text|
    case Rust => |Encode(text)|
  }

  function BoolText(b: bool): string {
    if b then "true" else "false"
  }

  function Rendered(side: Side, v: Value): string {
    match v
    case Bool(b) => "b:" + BoolText(b)
    case Integer(n) => "i:" + IntText(n)
    case Text(text) => "s:" + Decimal(TextLength(side, text)) + ":" + text
  }

  function RenderEntry(side: Side, e: Entry): string {
    e.key + "=" + Rendered(side, e.value) + ";"
  }

  function Render(side: Side, entries: seq<Entry>): string {
    if entries == [] then "" else RenderEntry(side, entries[0]) + Render(side, entries[1..])
  }

  lemma DigitTexts()
    ensures IntText(-7) == "-7" && Decimal(3) == "3"
  {
  }

  lemma AsciiText()
    ensures |Encode("x;y")| == 3
  {
    assert "x;y"[1..] == ";y" && ";y"[1..] == "y" && "y"[1..] == "";
  }

  /** One entry of each kind, as both implementations render it. */
  lemma RenderedEntries(side: Side)
    ensures RenderEntry(side, Entry("a", Integer(-7))) == "a=i:-7;"
    ensures RenderEntry(side, Entry("b", Bool(true))) == "b=b:true;" && RenderEntry(side, Entry("b", Bool(false))) == "b=b:false;"
    ensures RenderEntry(side, Entry("t", Text("x;y"))) == "t=s:3:x;y;"
  {
    DigitTexts();
    AsciiText();
    hide Decimal, IntText, Encode;
  }

  predicate EntryLess(a: Entry, b: Entry) {
    TextLess(a.key, b.key)
  }

  /** The bytes fed to the hash: entries by key, whatever order the mapping holds them in. */
  function PreHash(side: Side, items: seq<Entry>): seq<byte> {
    Encode(Render(side, Sort(EntryLess, items)))
  }

  // ---------------------------------------------------------------------
  // Unique decodability
  // ---------------------------------------------------------------------

  lemma EncodedPrefix(side: Side, v: string, w: string)
    requires v <= w && TextLength(side, v) == TextLength(side, w)
    ensures v == w
  {
    assert w == v + w[|v|..];
    EncodeAppend(v, w[|v|..]);
  }

  lemma DecimalHasNo(n: nat, c: char)
    requires !IsDigit(c)
    ensures c !in Decimal(n)
  {
  }

  lemma MinusSign(n: int)
    ensures IntText(n)[0] == '-' <==> n < 0
  {
    if n >= 0 {
      assert IsDigit(Decimal(n)[0]);
    }
  }

  lemma IntTextInjective(m: int, n: int)
    requires IntText(m) == IntText(n)
    ensures m == n
  {
    MinusSign(m);
    MinusSign(n);
    if m < 0 {
      assert IntText(m)[1..] == Decimal(-m) && IntText(n)[1..] == Decimal(-n);
      DecimalInjective(-m, -n);
    } else {
      DecimalInjective(m, n);
    }
  }

  /** The character after the tag letter decides the kind of a value; the rest is then read by length or up to `;`. */
  lemma SameTag(side: Side, v: Value, other: Side, w: Value, r: string, q: string)
    requires Rendered(side, v) + ";" + r == Rendered(other, w) + ";" + q
    ensures v.Bool? == w.Bool? && v.Integer? == w.Integer?
  {
    assert (Rendered(side, v) + ";" + r)[0] == Rendered(side, v)[0];
    assert (Rendered(other, w) + ";" + q)[0] == Rendered(other, w)[0];
  }

  lemma TextRendered(side: Side, text: string, r: string)
    ensures (Rendered(side, Text(text)) + ";" + r)[2..] == Decimal(TextLength(side, text)) + [':'] + (text + ";" + r)
  {
    var n := Decimal(TextLength(side, text));
    assert Rendered(side, Text(text)) + ";" + r == "s:" + (n + [':'] + (text + ";" + r));
  }

  /** Both sides state their own length, so equal texts mean equal stated lengths. */
  lemma TextLengthsAgree(side: Side, v: string, other: Side, w: string, r: string, q: string)
    requires Rendered(side, Text(v)) + ";" + r == Rendered(other, Text(w)) + ";" + q
    ensures TextLength(side, v) == TextLength(other, w) && v + ";" + r == w + ";" + q
  {
    var m, n := TextLength(side, v), TextLength(other, w);
    TextRendered(side, v, r);
    TextRendered(other, w, q);
    DecimalHasNo(m, ':');
    DecimalHasNo(n, ':');
    SplitAtDelimiter(Decimal(m), Decimal(n), ':', v + ";" + r, w + ";" + q);
    DecimalInjective(m, n);
  }

  lemma TextDecodes(side: Side, v: string, w: string, r: string, q: string)
    requires TextLength(side, v) == TextLength(side, w) && v + ";" + r == w + ";" + q
    ensures v == w && r == q
  {
    var s := v + ";" + r;
    assert s[..|v|] == v && s[..|w|] == w;
    if |v| <= |w| {
      assert v == w[..|v|];
      EncodedPrefix(side, v, w);
    } else {
      assert w == v[..|w|];
      EncodedPrefix(side, w, v);
    }
    assert r == s[|v| + 1..] == q;
  }

  lemma ValueDecodes(side: Side, v: Value, w: Value, r: string, q: string)
    requires Rendered(side, v) + ";" + r == Rendered(side, w) + ";" + q
    ensures v == w && r == q
  {
    SameTag(side, v, side, w, r, q);
    var s := Rendered(side, v) + ";" + r;
    match (v, w) {
      case (Text(a), Text(b)) =>
        TextLengthsAgree(side, a, side, b, r, q);
        TextDecodes(side, a, b, r, q);
      case (Bool(a), Bool(b)) =>
        SplitAtDelimiter(Rendered(side, v), Rendered(side, w), ';', r, q);
        assert Rendered(side, v)[2] == BoolText(a)[0] && Rendered(side, w)[2] == BoolText(b)[0];
      case (Integer(a), Integer(b)) =>
        SplitAtDelimiter(Rendered(side, v), Rendered(side, w), ';', r, q);
        assert Rendered(side, v)[2..] == IntText(a) && Rendered(side, w)[2..] == IntText(b);
        IntTextInjective(a, b);
      case _ => assert false;
    }
  }

  lemma ValidKeyHasNoDelimiter(k: string)
    requires ValidKey(k)
    ensures '=' !in k && k != ""
  {
    if !IsKeyBody(k) {
      assert k == k[..|k| - 1] + [k[|k| - 1]];
    }
  }

  lemma KeyDecodes(side: Side, e: Entry, other: Side, f: Entry, r: string, q: string)
    requires ValidKey(e.key) && ValidKey(f.key) && RenderEntry(side, e) + r == RenderEntry(other, f) + q
    ensures e.key == f.key && Rendered(side, e.value) + ";" + r == Rendered(other, f.value) + ";" + q
  {
    hide Rendered;
    ValidKeyHasNoDelimiter(e.key);
    ValidKeyHasNoDelimiter(f.key);
    var a, b := Rendered(side, e.value) + ";" + r, Rendered(other, f.value) + ";" + q;
    assert RenderEntry(side, e) + r == e.key + ['='] + a;
    assert RenderEntry(other, f) + q == f.key + ['='] + b;
    SplitAtDelimiter(e.key, f.key, '=', a, b);
  }

  /** The rendering of a list of entries can be read back in exactly one way. */
  lemma {:induction false} RenderDecodes(side: Side, a: seq<Entry>, b: seq<Entry>)
    requires ValidKeys(a) && ValidKeys(b) && Render(side, a) == Render(side, b)
    ensures a == b
  {
    hide RenderEntry;
    if a == [] || b == [] {
      if a != [] {
        RenderEntryNotEmpty(side, a[0]);
      }
      if b != [] {
        RenderEntryNotEmpty(side, b[0]);
      }
    } else {
      var r, q := Render(side, a[1..]), Render(side, b[1..]);
      KeyDecodes(side, a[0], side, b[0], r, q);
      ValueDecodes(side, a[0].value, b[0].value, r, q);
      RenderDecodes(side, a[1..], b[1..]);
      assert a == [a[0]] + a[1..] && b == [b[0]] + b[1..];
    }
  }

  lemma RenderEntryNotEmpty(side: Side, e: Entry)
    ensures RenderEntry(side, e) != ""
  {
  }

  lemma EntryLessIsOrder()
    ensures IsOrder(EntryLess)
  {
    hide TextLess;
    TextLessIsOrder();
    assert forall a: Entry, b: Entry :: EntryLess(a, b) == TextLess(a.key, b.key);
  }

  lemma DistinctKeysSeparate(items: seq<Entry>)
    requires DistinctKeys(items)
    ensures Separates(EntryLess, items)
  {
    hide TextLess;
    forall x, y | x in items && y in items && x != y
      ensures EntryLess(x, y) || EntryLess(y, x)
    {
      TextLessIsTotal(x.key, y.key);
    }
  }

  lemma SortKeepsValidKeys(items: seq<Entry>)
    requires ValidKeys(items)
    ensures ValidKeys(Sort(EntryLess, items))
  {
    var s := Sort(EntryLess, items);
    forall i | 0 <= i < |s|
      ensures ValidKey(s[i].key)
    {
      assert s[i] in multiset(s);
      assert s[i] in items;
    }
  }

  /** Two configurations hash the same bytes exactly when they are the same mapping, in any insertion order. */
  lemma PreHashIdentifiesConfig(side: Side, a: seq<Entry>, b: seq<Entry>)
    requires DistinctKeys(a) && DistinctKeys(b) && ValidKeys(a) && ValidKeys(b)
    ensures PreHash(side, a) == PreHash(side, b) <==> multiset(a) == multiset(b)
  {
    hide Render, Encode;
    EntryLessIsOrder();
    DistinctKeysSeparate(a);
    SortIsCanonical(EntryLess, a, b);
    if PreHash(side, a) == PreHash(side, b) {
      var x, y := Sort(EntryLess, a), Sort(EntryLess, b);
      EncodeInjective(Render(side, x), Render(side, y));
      SortKeepsValidKeys(a);
      SortKeepsValidKeys(b);
      RenderDecodes(side, x, y);
    }
  }

  // ---------------------------------------------------------------------
  // Where the two implementations disagree
  // ---------------------------------------------------------------------

  predicate AllAscii(items: seq<Entry>) {
    forall i :: 0 <= i < |items| && items[i].value.Text? ==> IsAscii(items[i].value.text)
  }

  lemma {:induction false} RenderingsAgree(entries: seq<Entry>)
    requires ValidKeys(entries)
    ensures Render(Python, entries) == Render(Rust, entries) <==> AllAscii(entries)
  {
    hide RenderEntry, Rendered;
    if entries != [] {
      var e, rest := entries[0], entries[1..];
      var r, q := Render(Python, rest), Render(Rust, rest);
      RenderingsAgree(rest);
      assert entries == [e] + rest;
      assert AllAscii(entries) <==> (e.value.Text? ==> IsAscii(e.value.text)) && AllAscii(rest);
      EntriesAgree(e, r, q);
    }
  }

  lemma EntriesAgree(e: Entry, r: string, q: string)
    requires ValidKey(e.key)
    ensures RenderEntry(Python, e) + r == RenderEntry(Rust, e) + q
      <==> (e.value.Text? ==> IsAscii(e.value.text)) && r == q
  {
    if RenderEntry(Python, e) + r == RenderEntry(Rust, e) + q {
      KeyDecodes(Python, e, Rust, e, r, q);
      if e.value.Text? {
        var text := e.value.text;
        TextLengthsAgree(Python, text, Rust, text, r, q);
        AsciiLength(text);
        TextDecodes(Python, text, text, r, q);
      } else {
        ValueDecodes(Python, e.value, e.value, r, q);
      }
    } else if e.value.Text? {
      AsciiLength(e.value.text);
    }
  }

  /** Mirrored exactly, as both sides promise, if and only if every text value is ASCII. */
  lemma SidesAgreeIffAscii(items: seq<Entry>)
    requires DistinctKeys(items) && ValidKeys(items)
    ensures PreHash(Python, items) == PreHash(Rust, items) <==> AllAscii(items)
  {
    hide Encode, Render;
    var s := Sort(EntryLess, items);
    SortKeepsValidKeys(items);
    RenderingsAgree(s);
    if PreHash(Python, items) == PreHash(Rust, items) {
      EncodeInjective(Render(Python, s), Render(Rust, s));
    }
    assert forall e :: e in s <==> e in multiset(s);
    assert forall e :: e in items <==> e in multiset(items);
    assert AllAscii(s) <==> (forall e :: e in s && e.value.Text? ==> IsAscii(e.value.text));
    assert AllAscii(items) <==> (forall e :: e in items && e.value.Text? ==> IsAscii(e.value.text));
  }

  // ---------------------------------------------------------------------
  // FNV-1a
  // ---------------------------------------------------------------------

  const FNV_OFFSET: uint64 := 0xCBF2_9CE4_8422_2325
  const FNV_PRIME: nat := 0x100_0000_01B3
  const TWO_64: nat := 0x1_0000_0000_0000_0000

  /** FNV_PRIME * FNV_INVERSE is 1 modulo 2^64. */
  const FNV_INVERSE: nat := 0xCE96_5057_AFF6_957B

  /** Exclusive or of the low `bits` bits. */
  function XorBits(a: nat, b: nat, bits: nat): (r: nat) {
    if bits == 0 then 0 else (a % 2 + b % 2) % 2 + 2 * XorBits(a / 2, b / 2, bits - 1)
  }

  lemma XorByteRange(a: nat, b: nat)
    ensures XorBits(a, b, 8) < 0x100
  {
    XorRange(a, b, 8);
    Pow2Of8();
  }

  lemma {:induction false} XorRange(a: nat, b: nat, bits: nat)
    ensures XorBits(a, b, bits) < Pow2(bits)
  {
    if bits > 0 {
      XorRange(a / 2, b / 2, bits - 1);
    }
  }

  lemma LowBit(n: nat)
    ensures n == 2 * (n / 2) + n % 2
  {
  }

  lemma LowBitDecides(p: nat, x: nat, q: nat, y: nat)
    requires p < 2 && q < 2 && p + 2 * x == q + 2 * y
    ensures p == q && x == y
  {
  }

  lemma BitSumDecides(a: nat, b: nat, c: nat, d: nat)
    requires a < 2 && b < 2 && c < 2 && d < 2 && (a + b) % 2 == (c + d) % 2
    ensures a == c <==> b == d
  {
  }

  /** Exclusive or can be undone on either side. */
  lemma {:induction false} XorDecides(a: nat, b: nat, c: nat, d: nat, bits: nat)
    requires XorBits(a, b, bits) == XorBits(c, d, bits)
    requires a < Pow2(bits) && b < Pow2(bits) && c < Pow2(bits) && d < Pow2(bits)
    ensures a == c ==> b == d
  {
    if bits > 0 && a == c {
      var x, y := XorBits(a / 2, b / 2, bits - 1), XorBits(c / 2, d / 2, bits - 1);
      LowBitDecides((a % 2 + b % 2) % 2, x, (c % 2 + d % 2) % 2, y);
      BitSumDecides(a % 2, b % 2, c % 2, d % 2);
      XorDecides(a / 2, b / 2, c / 2, d / 2, bits - 1);
      LowBit(b);
      LowBit(d);
    }
  }

  lemma {:induction false} XorCommutes(a: nat, b: nat, bits: nat)
    ensures XorBits(a, b, bits) == XorBits(b, a, bits)
  {
    if bits > 0 {
      XorCommutes(a / 2, b / 2, bits - 1);
    }
  }

  lemma XorInjective(a: nat, b: nat, c: nat, d: nat, bits: nat)
    requires XorBits(a, b, bits) == XorBits(c, d, bits)
    requires a < Pow2(bits) && b < Pow2(bits) && c < Pow2(bits) && d < Pow2(bits)
    ensures a == c <==> b == d
  {
    hide XorBits;
    XorDecides(a, b, c, d, bits);
    XorCommutes(a, b, bits);
    XorCommutes(c, d, bits);
    XorDecides(b, a, d, c, bits);
  }

  function XorLowByte(state: uint64, b: byte): (r: uint64)
    ensures r / 0x100 == state / 0x100 && r % 0x100 == XorBits(state % 0x100, b, 8)
  {
    XorByteRange(state % 0x100, b);
    state - state % 0x100 + XorBits(state % 0x100, b, 8)
  }

  function FnvStep(state: uint64, b: byte): uint64 {
    (XorLowByte(state, b) * FNV_PRIME) % TWO_64
  }

  function Fnv(state: uint64, bytes: seq<byte>): uint64
    decreases |bytes|
  {
    if bytes == [] then state else Fnv(FnvStep(state, bytes[0]), bytes[1..])
  }

  /** Multiplying by an odd constant modulo 2^64 loses nothing. */
  lemma MultiplyIsInjective(x: uint64, y: uint64)
    requires (x * FNV_PRIME) % TWO_64 == (y * FNV_PRIME) % TWO_64
    ensures x == y
  {
    var t := (FNV_PRIME * FNV_INVERSE - 1) / TWO_64;
    assert FNV_PRIME * FNV_INVERSE == 1 + t * TWO_64;
    var p, q := (x * FNV_PRIME) / TWO_64, (y * FNV_PRIME) / TWO_64;
    assert x * FNV_PRIME - y * FNV_PRIME == (p - q) * TWO_64;
    var k := (p - q) * FNV_INVERSE - t * (x - y);
    assert x - y == k * TWO_64;
  }

  lemma FnvStepInjective(s: uint64, b: byte, t: uint64, c: byte)
    requires FnvStep(s, b) == FnvStep(t, c)
    ensures s == t <==> b == c && s / 0x100 == t / 0x100
    ensures b == c ==> s == t
  {
    MultiplyIsInjective(XorLowByte(s, b), XorLowByte(t, c));
    Pow2Of8();
    XorInjective(s % 0x100, b, t % 0x100, c, 8);
  }

  lemma {:induction false} FnvKeepsStatesApart(s: uint64, t: uint64, bytes: seq<byte>)
    requires s != t
    ensures Fnv(s, bytes) != Fnv(t, bytes)
    decreases |bytes|
  {
    hide FnvStep;
    if bytes != [] {
      if FnvStep(s, bytes[0]) == FnvStep(t, bytes[0]) {
        FnvStepInjective(s, bytes[0], t, bytes[0]);
        assert false;
      }
      FnvKeepsStatesApart(FnvStep(s, bytes[0]), FnvStep(t, bytes[0]), bytes[1..]);
    }
  }

  lemma {:induction false} FnvAppend(s: uint64, a: seq<byte>, b: seq<byte>)
    ensures Fnv(s, a + b) == Fnv(Fnv(s, a), b)
    decreases |a|
  {
    hide FnvStep;
    if a == [] {
      assert a + b == b;
    } else {
      FnvAppend(FnvStep(s, a[0]), a[1..], b);
      assert (a + b)[1..] == a[1..] + b;
    }
  }

  lemma FnvOne(s: uint64, b: byte)
    ensures Fnv(s, [b]) == FnvStep(s, b)
  {
    hide FnvStep;
    assert [b][1..] == [];
  }

  lemma {:induction false} XorNothing(a: nat, bits: nat)
    requires a < Pow2(bits)
    ensures XorBits(a, 0, bits) == a
  {
    if bits > 0 {
      XorNothing(a / 2, bits - 1);
    }
  }

  /** The byte is mixed in before the multiplication, not after it. */
  lemma FnvMixesFirst(s: uint64, b: byte)
    ensures Fnv(s, [b]) == Fnv(XorLowByte(s, b), [0])
  {
    FnvOne(s, b);
    FnvOne(XorLowByte(s, b), 0);
    Pow2Of8();
    var mixed := XorLowByte(s, b);
    XorNothing(mixed % 0x100, 8);
  }

  lemma XorKnown()
    ensures XorBits(0x25, 0x61, 8) == 0x44
  {
    assert XorBits(0, 0, 1) == 0 && XorBits(0, 1, 2) == 1;
    assert XorBits(1, 3, 3) == 2;
    assert XorBits(2, 6, 4) == 4;
    assert XorBits(4, 12, 5) == 8;
    assert XorBits(9, 24, 6) == 17;
    assert XorBits(18, 48, 7) == 34;
  }

  lemma FnvStepKnown()
    ensures FnvStep(FNV_OFFSET, 0x61) == 0xAF63_DC4C_8601_EC8C
  {
    XorKnown();
    hide XorBits;
    assert FNV_OFFSET % 0x100 == 0x25;
    assert XorLowByte(FNV_OFFSET, 0x61) == 0xCBF2_9CE4_8422_2344;
    assert 0xCBF2_9CE4_8422_2344 * FNV_PRIME == 875948729822 * TWO_64 + 0xAF63_DC4C_8601_EC8C;
  }

  /** The published 64-bit FNV-1a values of the empty text and of "a". */
  lemma FnvKnownValues()
    ensures Fnv(FNV_OFFSET, []) == 0xCBF2_9CE4_8422_2325
    ensures Fnv(FNV_OFFSET, [0x61]) == 0xAF63_DC4C_8601_EC8C
  {
    FnvOne(FNV_OFFSET, 0x61);
    FnvStepKnown();
    hide FnvStep;
  }

  /** Changing any single byte of the input always changes the hash. */
  lemma FnvSeesEveryByte(a: seq<byte>, b: byte, c: byte, z: seq<byte>)
    requires b != c
    ensures Fnv(FNV_OFFSET, a + [b] + z) != Fnv(FNV_OFFSET, a + [c] + z)
  {
    hide FnvStep, Fnv;
    var s := Fnv(FNV_OFFSET, a);
    FnvOne(s, b);
    FnvOne(s, c);
    if FnvStep(s, b) == FnvStep(s, c) {
      FnvStepInjective(s, b, s, c);
      assert false;
    }
    FnvAppend(FNV_OFFSET, a, [b]);
    FnvAppend(FNV_OFFSET, a, [c]);
    FnvAppend(FNV_OFFSET, a + [b], z);
    FnvAppend(FNV_OFFSET, a + [c], z);
    FnvKeepsStatesApart(FnvStep(s, b), FnvStep(s, c), z);
  }

  function Digest(side: Side, items: seq<Entry>): uint64 {
    Fnv(FNV_OFFSET, PreHash(side, items))
  }

  /** One accented letter is enough: the two sides then record different digests. */
  lemma DigestsDiverge()
    ensures var items := [Entry("a", Text([0xE9 as char]))];
      DistinctKeys(items) && ValidKeys(items) && Digest(Python, items) != Digest(Rust, items)
  {
    hide Fnv;
    var accent := [0xE9 as char];
    var e := Entry("a", Text(accent));
    assert Sort(EntryLess, [e]) == [e];
    assert Encode(accent) == CharBytes(accent[0]) + Encode(accent[1..]);
    assert Decimal(1) == "1" && Decimal(2) == "2";
    var head, tail := "a=s:", ":" + accent + ";";
    assert RenderEntry(Python, e) == head + ("1" + tail);
    assert RenderEntry(Rust, e) == head + ("2" + tail);
    assert Render(Python, [e]) == head + ("1" + tail) && Render(Rust, [e]) == head + ("2" + tail);
    OneDigitApart(head, tail);
  }

  lemma OneDigitApart(head: string, tail: string)
    ensures Fnv(FNV_OFFSET, Encode(head + ("1" + tail))) != Fnv(FNV_OFFSET, Encode(head + ("2" + tail)))
  {
    hide Fnv, Encode;
    EncodeAppend(head, "1" + tail);
    EncodeAppend(head, "2" + tail);
    EncodeAppend("1", tail);
    EncodeAppend("2", tail);
    var a, z := Encode(head), Encode(tail);
    EncodeOneAscii('1');
    EncodeOneAscii('2');
    assert a + ([0x31] + z) == a + [0x31] + z && a + ([0x32] + z) == a + [0x32] + z;
    FnvSeesEveryByte(a, 0x31, 0x32, z);
  }

  // ---------------------------------------------------------------------
  // The two implementations
  // ---------------------------------------------------------------------

  method HashBytes(state: uint64, bytes: seq<byte>) returns (r: uint64)
    ensures r == Fnv(state, bytes)
  {
    r := state;
    for i := 0 to |bytes|
      invariant Fnv(r, bytes[i..]) == Fnv(state, bytes)
    {
      assert bytes[i..] == [bytes[i]] + bytes[i + 1..];
      r := XorLowByte(r, bytes[i]);
      r := (r * FNV_PRIME) % TWO_64;
    }
  }

  lemma RenderStep(side: Side, state: uint64, entries: seq<Entry>)
    requires entries != []
    ensures Fnv(state, Encode(Render(side, entries)))
         == Fnv(Fnv(state, Encode(RenderEntry(side, entries[0]))), Encode(Render(side, entries[1..])))
  {
    hide Fnv, Encode, RenderEntry;
    EncodeAppend(RenderEntry(side, entries[0]), Render(side, entries[1..]));
    FnvAppend(state, Encode(RenderEntry(side, entries[0])), Encode(Render(side, entries[1..])));
  }

  /** compose.py: renders each entry of the sorted items and hashes its UTF-8 bytes. */
  method ComposeDigest(config: seq<Entry>) returns (state: uint64)
    ensures state == Digest(Python, config)
  {
    hide Fnv, Encode, RenderEntry, Sort;
    var items := Sort(EntryLess, config);
    state := FNV_OFFSET;
    for k := 0 to |items|
      invariant Fnv(state, Encode(Render(Python, items[k..]))) == Digest(Python, config)
    {
      assert items[k..][0] == items[k] && items[k..][1..] == items[k + 1..];
      RenderStep(Python, state, items[k..]);
      var value := items[k].value;
      var rendered;
      if value.Bool? {
        rendered := "b:" + if value.b then "true" else "false";
      } else if value.Integer? {
        rendered := "i:" + IntText(value.n);
      } else {
        rendered := "s:" + Decimal(|value.text|) + ":" + value.text;
      }
      assert rendered == Rendered(Python, value);
      state := HashBytes(state, Encode(items[k].key + "=" + rendered + ";"));
      assert items[k].key + "=" + rendered + ";" == RenderEntry(Python, items[k]) by {
        EntryText(Python, items[k]);
      }
    }
    EmptyRendering(Python, state);
  }

  lemma EntryText(side: Side, e: Entry)
    ensures e.key + "=" + Rendered(side, e.value) + ";" == RenderEntry(side, e)
  {
  }

  lemma EmptyRendering(side: Side, state: uint64)
    ensures Fnv(state, Encode(Render(side, []))) == state
  {
  }

  lemma EntryBytes(state: uint64, e: Entry)
    ensures Fnv(state, Encode(RenderEntry(Rust, e)))
         == Fnv(state, Encode(e.key) + [0x3D] + Encode(Rendered(Rust, e.value)) + [0x3B])
  {
    hide Fnv, Rendered, Encode;
    var text := Rendered(Rust, e.value);
    EncodeOneAscii('=');
    EncodeOneAscii(';');
    EncodeAppend(e.key, "=");
    EncodeAppend(e.key + "=", text);
    EncodeAppend(e.key + "=" + text, ";");
  }

  /** config.rs: chains the byte slices of each entry of the ordered map. */
  method ComputeDigest(values: seq<Entry>) returns (state: uint64)
    ensures state == Digest(Rust, values)
  {
    hide Fnv, Encode, RenderEntry, Sort, Rendered;
    var entries := Sort(EntryLess, values);
    state := FNV_OFFSET;
    for k := 0 to |entries|
      invariant Fnv(state, Encode(Render(Rust, entries[k..]))) == Digest(Rust, values)
    {
      var e := entries[k];
      assert entries[k..][0] == e && entries[k..][1..] == entries[k + 1..];
      RenderStep(Rust, state, entries[k..]);
      EntryBytes(state, e);
      state := HashBytes(state, Encode(e.key) + [0x3D] + Encode(Rendered(Rust, e.value)) + [0x3B]);
    }
    EmptyRendering(Rust, state);
  }
}
