/**
 * The SMSG_ON_MONSTER_MOVE grammar that main.rs proves before it drops a movement
 * packet as ambient traffic.
 *
 * Every section of the packet has a canonical writer, a parser that returns the
 * unread rest, and two lemmas: the parser undoes the writer in front of any rest,
 * and whatever it accepts was written that way.
 */
module MonsterMove {
  import opened Common

  // ---------------------------------------------------------------------
  // Floats
  // ---------------------------------------------------------------------

  /** A u32 bit pattern is a finite f32 unless its eight exponent bits are all ones. */
  predicate IsFinite(bits: uint32) {
    (bits / 0x80_0000) % 0x100 != 0xFF
  }

  /** From sign, exponent and fraction: infinities and NaNs are the patterns with a full exponent. */
  lemma FiniteUnlessExponentFull(sign: nat, exponent: nat, fraction: nat)
    requires sign < 2 && exponent < 0x100 && fraction < 0x80_0000
    ensures IsFinite(sign * 0x8000_0000 + exponent * 0x80_0000 + fraction) <==> exponent != 0xFF
  {
    var bits := sign * 0x8000_0000 + exponent * 0x80_0000 + fraction;
    assert bits / 0x80_0000 == sign * 0x100 + exponent;
  }

  function ParseFloat(s: seq<byte>): Parsed<uint32> {
    var (v, rest) :- ParseU32(s);
    if IsFinite(v) then Some((v, rest)) else None
  }

  function WriteFloats(fs: seq<uint32>): seq<byte> {
    if fs == [] then [] else ToLe32(fs[0]) + WriteFloats(fs[1..])
  }

  predicate AllFinite(fs: seq<uint32>) {
    forall i :: 0 <= i < |fs| ==> IsFinite(fs[i])
  }

  function ParseFloats(n: nat, s: seq<byte>): Parsed<seq<uint32>>
    decreases n
  {
    if n == 0 then Some(([], s))
    else
      var (f, rest) :- ParseFloat(s);
      var (fs, tail) :- ParseFloats(n - 1, rest);
      Some(([f] + fs, tail))
  }

  lemma {:induction false} ParseFloatsWritten(fs: seq<uint32>, rest: seq<byte>)
    requires AllFinite(fs)
    ensures ParseFloats(|fs|, WriteFloats(fs) + rest) == Some((fs, rest))
  {
    hide ToLe32, FromLe32, ParseU32;
    if fs == [] {
      assert WriteFloats(fs) + rest == rest;
    } else {
      ParseU32Written(fs[0], WriteFloats(fs[1..]) + rest);
      assert WriteFloats(fs) + rest == ToLe32(fs[0]) + (WriteFloats(fs[1..]) + rest);
      ParseFloatsWritten(fs[1..], rest);
      assert [fs[0]] + fs[1..] == fs;
    }
  }

  lemma {:induction false} ParseFloatsReads(n: nat, s: seq<byte>)
    ensures var p := ParseFloats(n, s);
      p.Some? ==> |p.value.0| == n && AllFinite(p.value.0) && s == WriteFloats(p.value.0) + p.value.1
  {
    if n > 0 && ParseFloats(n, s).Some? {
      var (f, rest) := ParseFloat(s).value;
      ParseU32Reads(s);
      ParseFloatsReads(n - 1, rest);
      var (fs, tail) := ParseFloats(n - 1, rest).value;
      assert ([f] + fs)[1..] == fs;
      assert s == ToLe32(f) + (WriteFloats(fs) + tail);
    }
  }

  // ---------------------------------------------------------------------
  // Packed GUIDs
  // ---------------------------------------------------------------------

  /** A 128-bit GUID as its two little-endian 64-bit halves. */
  datatype Guid = Guid(low: seq<byte>, high: seq<byte>) {
    predicate Valid() { |low| == 8 && |high| == 8 }
  }

  /** Bit k says that byte k is present; only non-zero bytes are. */
  function MaskOf(half: seq<byte>): (m: nat)
    ensures m < Pow2(|half|)
  {
    if half == [] then 0 else (if half[0] != 0 then 1 else 0) + 2 * MaskOf(half[1..])
  }

  function Present(half: seq<byte>): seq<byte> {
    if half == [] then [] else (if half[0] != 0 then [half[0]] else []) + Present(half[1..])
  }

  /** `count_ones` of the low n bits. */
  function CountOnes(mask: nat, n: nat): (c: nat)
    ensures c <= n
  {
    if n == 0 then 0 else mask % 2 + CountOnes(mask / 2, n - 1)
  }

  /** Puts the payload bytes back under the set bits. */
  function Scatter(mask: nat, n: nat, payload: seq<byte>): seq<byte>
    requires |payload| == CountOnes(mask, n)
  {
    if n == 0 then []
    else if mask % 2 == 1 then [payload[0]] + Scatter(mask / 2, n - 1, payload[1..])
    else [0] + Scatter(mask / 2, n - 1, payload)
  }

  predicate NoZero(b: seq<byte>) {
    forall i :: 0 <= i < |b| ==> b[i] != 0
  }

  lemma {:induction false} ScatterPacked(half: seq<byte>)
    ensures NoZero(Present(half))
    ensures |Present(half)| == CountOnes(MaskOf(half), |half|)
    ensures Scatter(MaskOf(half), |half|, Present(half)) == half
  {
    if half != [] {
      var bit := if half[0] != 0 then 1 else 0;
      ScatterPacked(half[1..]);
      assert MaskOf(half) / 2 == MaskOf(half[1..]) && MaskOf(half) % 2 == bit;
      if bit == 1 {
        assert Present(half)[1..] == Present(half[1..]);
      } else {
        assert Present(half) == Present(half[1..]);
      }
      assert half == [half[0]] + half[1..];
    }
  }

  lemma {:induction false} PackedScatter(mask: nat, n: nat, payload: seq<byte>)
    requires |payload| == CountOnes(mask, n) && NoZero(payload) && mask < Pow2(n)
    ensures var half := Scatter(mask, n, payload); |half| == n && MaskOf(half) == mask && Present(half) == payload
  {
    if n > 0 {
      var tail := if mask % 2 == 1 then payload[1..] else payload;
      PackedScatter(mask / 2, n - 1, tail);
      var half := Scatter(mask, n, payload);
      assert half[1..] == Scatter(mask / 2, n - 1, tail);
    }
  }

  lemma MaskIsByte(half: seq<byte>)
    requires |half| == 8
    ensures MaskOf(half) < 0x100
  {
    Pow2Of8();
  }

  function WriteGuid(g: Guid): seq<byte>
    requires g.Valid()
  {
    MaskIsByte(g.low);
    MaskIsByte(g.high);
    [MaskOf(g.low), MaskOf(g.high)] + (Present(g.low) + Present(g.high))
  }

  function ParseGuid(s: seq<byte>): Parsed<Guid> {
    var (masks, rest) :- TakeBytes(2, s);
    var low, high := CountOnes(masks[0], 8), CountOnes(masks[1], 8);
    var (payload, tail) :- TakeBytes(low + high, rest);
    if NoZero(payload) then
      Some((Guid(Scatter(masks[0], 8, payload[..low]), Scatter(masks[1], 8, payload[low..])), tail))
    else None
  }

  lemma ParseGuidWritten(g: Guid, rest: seq<byte>)
    requires g.Valid()
    ensures ParseGuid(WriteGuid(g) + rest) == Some((g, rest))
  {
    ScatterPacked(g.low);
    ScatterPacked(g.high);
    MaskIsByte(g.low);
    MaskIsByte(g.high);
    var masks, payload := [MaskOf(g.low), MaskOf(g.high)], Present(g.low) + Present(g.high);
    assert WriteGuid(g) + rest == masks + (payload + rest);
    TakeBytesWritten(masks, payload + rest);
    TakeBytesWritten(payload, rest);
    assert payload[..|Present(g.low)|] == Present(g.low) && payload[|Present(g.low)|..] == Present(g.high);
  }

  lemma WriteScattered(lowMask: byte, highMask: byte, low: seq<byte>, high: seq<byte>)
    requires |low| == CountOnes(lowMask, 8) && |high| == CountOnes(highMask, 8) && NoZero(low) && NoZero(high)
    ensures var g := Guid(Scatter(lowMask, 8, low), Scatter(highMask, 8, high));
      g.Valid() && WriteGuid(g) == [lowMask, highMask] + (low + high)
  {
    Pow2Of8();
    PackedScatter(lowMask, 8, low);
    PackedScatter(highMask, 8, high);
  }

  lemma ParseGuidReads(s: seq<byte>)
    ensures var p := ParseGuid(s); p.Some? ==> p.value.0.Valid() && s == WriteGuid(p.value.0) + p.value.1
  {
    hide Scatter, CountOnes, WriteGuid;
    if ParseGuid(s).Some? {
      var (masks, rest) := TakeBytes(2, s).value;
      var low, high := CountOnes(masks[0], 8), CountOnes(masks[1], 8);
      var (payload, tail) := TakeBytes(low + high, rest).value;
      WriteScattered(masks[0], masks[1], payload[..low], payload[low..]);
      assert payload == payload[..low] + payload[low..];
      assert masks == [masks[0], masks[1]];
      assert s == masks + (payload + tail);
    }
  }

  /** The mover itself must be named: at least one mask bit is set. */
  predicate NonEmpty(g: Guid)
    requires g.Valid()
  {
    Present(g.low) + Present(g.high) != []
  }

  // ---------------------------------------------------------------------
  // Fixed prefix: mover, position, spline id, destination
  // ---------------------------------------------------------------------

  datatype Placement =
    Placement(mover: Guid, position: seq<uint32>, splineId: uint32, destination: seq<uint32>)
  {
    predicate Valid() {
      && mover.Valid() && NonEmpty(mover)
      && |position| == 3 && AllFinite(position)
      && |destination| == 3 && AllFinite(destination)
    }
  }

  function WritePlacement(h: Placement): seq<byte>
    requires h.Valid()
  {
    WriteGuid(h.mover) + (WriteFloats(h.position) + (ToLe32(h.splineId) + WriteFloats(h.destination)))
  }

  function ParsePlacement(s: seq<byte>): Parsed<Placement> {
    var (mover, s1) :- ParseGuid(s);
    if !NonEmptyParsed(s) then None
    else
      var (position, s2) :- ParseFloats(3, s1);
      var (splineId, s3) :- ParseU32(s2);
      var (destination, s4) :- ParseFloats(3, s3);
      Some((Placement(mover, position, splineId, destination), s4))
  }

  /** At least one of the two mask bytes is non-zero. */
  predicate NonEmptyParsed(s: seq<byte>) {
    |s| >= 2 && (s[0] != 0 || s[1] != 0)
  }

  lemma {:induction false} MaskZero(half: seq<byte>)
    ensures MaskOf(half) == 0 <==> Present(half) == []
  {
    if half != [] { MaskZero(half[1..]); }
  }

  lemma NonEmptyMasks(g: Guid, rest: seq<byte>)
    requires g.Valid()
    ensures NonEmptyParsed(WriteGuid(g) + rest) <==> NonEmpty(g)
  {
    MaskZero(g.low);
    MaskZero(g.high);
  }

  lemma ParsePlacementWritten(h: Placement, rest: seq<byte>)
    requires h.Valid()
    ensures ParsePlacement(WritePlacement(h) + rest) == Some((h, rest))
  {
    var r3 := WriteFloats(h.destination) + rest;
    var r2 := ToLe32(h.splineId) + r3;
    var r1 := WriteFloats(h.position) + r2;
    assert WritePlacement(h) + rest == WriteGuid(h.mover) + r1;
    ParseGuidWritten(h.mover, r1);
    NonEmptyMasks(h.mover, r1);
    ParseFloatsWritten(h.position, r2);
    ParseU32Written(h.splineId, r3);
    ParseFloatsWritten(h.destination, rest);
  }

  lemma ParsePlacementReads(s: seq<byte>)
    ensures var p := ParsePlacement(s); p.Some? ==> p.value.0.Valid() && s == WritePlacement(p.value.0) + p.value.1
  {
    hide ToLe32, FromLe32, ParseGuid, WriteGuid, ParseFloats, WriteFloats;
    if ParsePlacement(s).Some? {
      var (mover, s1) := ParseGuid(s).value;
      ParseGuidReads(s);
      NonEmptyMasks(mover, s1);
      var (position, s2) := ParseFloats(3, s1).value;
      ParseFloatsReads(3, s1);
      var (splineId, s3) := ParseU32(s2).value;
      ParseU32Reads(s2);
      var (destination, s4) := ParseFloats(3, s3).value;
      ParseFloatsReads(3, s3);
    }
  }

  // ---------------------------------------------------------------------
  // Fixed prefix: flag byte, spline data, transport
  // ---------------------------------------------------------------------

  /** `flags` holds CrzTeleport and the three StopDistanceTolerance bits, flushed to the high nibble. */
  datatype Transit = Transit(flags: byte, splineData: seq<byte>, transport: Guid, vehicleSeat: seq<byte>) {
    predicate Valid() {
      flags < 16 && |splineData| == 17 && transport.Valid() && |vehicleSeat| == 1
    }
  }

  function WriteTransit(t: Transit): seq<byte>
    requires t.Valid()
  {
    [t.flags as int * 16] + (t.splineData + (WriteGuid(t.transport) + t.vehicleSeat))
  }

  function ParseTransit(s: seq<byte>): Parsed<Transit> {
    var (bits, s1) :- TakeBytes(1, s);
    if bits[0] % 16 != 0 then None
    else
      var (splineData, s2) :- TakeBytes(17, s1);
      var (transport, s3) :- ParseGuid(s2);
      var (seat, s4) :- TakeBytes(1, s3);
      Some((Transit(bits[0] / 16, splineData, transport, seat), s4))
  }

  lemma ParseTransitWritten(t: Transit, rest: seq<byte>)
    requires t.Valid()
    ensures ParseTransit(WriteTransit(t) + rest) == Some((t, rest))
  {
    hide ToLe32, FromLe32, TakeBytes, ParseGuid, WriteGuid;
    var r3 := t.vehicleSeat + rest;
    var r2 := WriteGuid(t.transport) + r3;
    var r1 := t.splineData + r2;
    assert WriteTransit(t) + rest == [t.flags as int * 16] + r1;
    TakeBytesWritten([t.flags as int * 16], r1);
    TakeBytesWritten(t.splineData, r2);
    ParseGuidWritten(t.transport, r3);
    TakeBytesWritten(t.vehicleSeat, rest);
  }

  lemma ParseTransitReads(s: seq<byte>)
    ensures var p := ParseTransit(s); p.Some? ==> p.value.0.Valid() && s == WriteTransit(p.value.0) + p.value.1
  {
    hide ToLe32, FromLe32, ParseGuid, WriteGuid;
    if ParseTransit(s).Some? {
      var (bits, s1) := TakeBytes(1, s).value;
      TakeBytesReads(1, s);
      var (splineData, s2) := TakeBytes(17, s1).value;
      TakeBytesReads(17, s1);
      var (transport, s3) := ParseGuid(s2).value;
      ParseGuidReads(s2);
      TakeBytesReads(1, s3);
      assert bits == [bits[0] / 16 * 16];
    }
  }

  // ---------------------------------------------------------------------
  // The 40-bit header
  // ---------------------------------------------------------------------

  /** 2 / 16 / 1 / 1 / 16 / 1 / 1 / 1 / 1 bits, most significant first. */
  datatype SplineHeader = SplineHeader(
    face: nat, points: nat, vehicleExit: nat, interpolate: nat, deltas: nat,
    filter: nat, spell: nat, jump: nat, anim: nat)
  {
    predicate Valid() {
      && face < 4 && points < 0x1_0000 && vehicleExit < 2 && interpolate < 2 && deltas < 0x1_0000
      && filter < 2 && spell < 2 && jump < 2 && anim < 2
    }
  }

  /** The fold over the five bytes. */
  function HeaderValue(b: seq<byte>): (v: nat)
    requires |b| == 5
    ensures v < 0x100_0000_0000
  {
    (((b[0] as int * 0x100 + b[1] as int) * 0x100 + b[2] as int) * 0x100 + b[3] as int) * 0x100 + b[4] as int
  }

  function HeaderBytes(v: nat): (b: seq<byte>)
    requires v < 0x100_0000_0000
    ensures |b| == 5
  {
    [v / 0x1_0000_0000, (v / 0x100_0000) % 0x100, (v / 0x1_0000) % 0x100, (v / 0x100) % 0x100, v % 0x100]
  }

  lemma HeaderBytesRoundTrip(v: nat)
    requires v < 0x100_0000_0000
    ensures HeaderValue(HeaderBytes(v)) == v
  {
    assert v / 0x1_0000 == (v / 0x100) / 0x100;
    assert v / 0x100_0000 == (v / 0x1_0000) / 0x100;
    assert v / 0x1_0000_0000 == (v / 0x100_0000) / 0x100;
  }

  lemma HeaderBytesUnique(b: seq<byte>)
    requires |b| == 5
    ensures HeaderBytes(HeaderValue(b)) == b
  {
    var v := HeaderValue(b);
    var v1 := ((b[0] as int * 0x100 + b[1] as int) * 0x100 + b[2] as int) * 0x100 + b[3] as int;
    var v2 := (b[0] as int * 0x100 + b[1] as int) * 0x100 + b[2] as int;
    var v3 := b[0] as int * 0x100 + b[1] as int;
    assert v / 0x100 == v1;
    assert v / 0x1_0000 == v1 / 0x100 == v2;
    assert v / 0x100_0000 == v2 / 0x100 == v3;
    assert v / 0x1_0000_0000 == v3 / 0x100;
  }

  /** The shifts and masks of the source. */
  function DecodeHeader(v: nat): (h: SplineHeader)
    ensures h.Valid()
  {
    SplineHeader(
      (v / 0x40_0000_0000) % 4, (v / 0x40_0000) % 0x1_0000, (v / 0x20_0000) % 2, (v / 0x10_0000) % 2,
      (v / 0x10) % 0x1_0000, (v / 8) % 2, (v / 4) % 2, (v / 2) % 2, v % 2)
  }

  function EncodeHeader(h: SplineHeader): (v: nat)
    requires h.Valid()
    ensures v < 0x100_0000_0000
  {
    h.face * 0x40_0000_0000 + h.points * 0x40_0000 + h.vehicleExit * 0x20_0000 + h.interpolate * 0x10_0000
    + h.deltas * 0x10 + h.filter * 8 + h.spell * 4 + h.jump * 2 + h.anim
  }

  /** The number without its low `width` bits. */
  function Shifted(v: nat, width: nat): nat {
    if width == 0 then v else Shifted(v / 2, width - 1)
  }

  /** The low `width` bits. */
  function Masked(v: nat, width: nat): nat {
    if width == 0 then 0 else v % 2 + 2 * Masked(v / 2, width - 1)
  }

  /** Bit fields of these widths, most significant first, taken off the low end one by one. */
  function Unpacked(widths: seq<nat>, v: nat): (fields: seq<nat>)
    ensures |fields| == |widths|
  {
    if widths == [] then []
    else
      var last := widths[|widths| - 1];
      Unpacked(widths[..|widths| - 1], Shifted(v, last)) + [Masked(v, last)]
  }

  function BigEndian(b: seq<byte>): nat {
    if b == [] then 0 else 0x100 * BigEndian(b[..|b| - 1]) + b[|b| - 1] as int
  }

  lemma HeaderIsBigEndian(b: seq<byte>)
    requires |b| == 5
    ensures HeaderValue(b) == BigEndian(b)
  {
    assert b[..4][..3] == b[..3] && b[..3][..2] == b[..2] && b[..2][..1] == b[..1] && b[..1][..0] == [];
    assert BigEndian(b[..1]) == b[0] as int;
    assert BigEndian(b[..2]) == 0x100 * b[0] as int + b[1] as int;
    assert BigEndian(b[..3]) == 0x100 * BigEndian(b[..2]) + b[2] as int;
    assert BigEndian(b[..4]) == 0x100 * BigEndian(b[..3]) + b[3] as int;
  }

  lemma UnpackedOne(widths: seq<nat>, width: nat, v: nat)
    ensures Unpacked(widths + [width], v) == Unpacked(widths, Shifted(v, width)) + [Masked(v, width)]
  {
    hide Shifted, Masked;
    assert (widths + [width])[..|widths|] == widths;
  }

  /** Four bits at a time. */
  lemma FourBits(v: nat, width: nat)
    ensures Shifted(v, width + 4) == Shifted(v / 0x10, width)
    ensures Masked(v, width + 4) == v % 0x10 + 0x10 * Masked(v / 0x10, width)
  {
    var a, b, c := v / 2, v / 4, v / 8;
    assert a / 2 == b && b / 2 == c && c / 2 == v / 0x10;
    assert Shifted(v, width + 4) == Shifted(a, width + 3) == Shifted(b, width + 2) == Shifted(c, width + 1);
    assert Masked(c, width + 1) == c % 2 + 2 * Masked(v / 0x10, width);
    assert Masked(b, width + 2) == b % 2 + 2 * Masked(c, width + 1);
    assert Masked(a, width + 3) == a % 2 + 2 * Masked(b, width + 2);
  }

  lemma SixteenBits(v: nat)
    ensures Shifted(v, 16) == v / 0x1_0000 && Masked(v, 16) == v % 0x1_0000
  {
    EightBits(v, 8);
    EightBits(v / 0x100, 0);
    hide Shifted, Masked;
    assert v / 0x100 / 0x100 == v / 0x1_0000;
    NothingShifted(v / 0x1_0000);
  }

  lemma EightBits(v: nat, width: nat)
    ensures Shifted(v, width + 8) == Shifted(v / 0x100, width)
    ensures Masked(v, width + 8) == v % 0x100 + 0x100 * Masked(v / 0x100, width)
  {
    FourBits(v, width + 4);
    FourBits(v / 0x10, width);
    hide Shifted, Masked;
    assert v / 0x10 / 0x10 == v / 0x100;
  }

  lemma NothingShifted(v: nat)
    ensures Shifted(v, 0) == v && Masked(v, 0) == 0
    ensures Shifted(v, 1) == v / 2 && Masked(v, 1) == v % 2
    ensures Shifted(v, 2) == v / 4 && Masked(v, 2) == v % 4
  {
    assert Shifted(v / 2, 1) == v / 2 / 2 && Masked(v / 2, 1) == v / 2 % 2;
  }

  lemma OneBitField(widths: seq<nat>, v: nat)
    ensures Unpacked(widths + [1], v) == Unpacked(widths, v / 2) + [v % 2]
  {
    UnpackedOne(widths, 1, v);
    NothingShifted(v);
  }

  lemma SixteenBitField(widths: seq<nat>, v: nat)
    ensures Unpacked(widths + [16], v) == Unpacked(widths, v / 0x1_0000) + [v % 0x1_0000]
  {
    UnpackedOne(widths, 16, v);
    SixteenBits(v);
  }

  lemma TwoBitField(v: nat)
    ensures Unpacked([2], v) == [v % 4]
  {
    UnpackedOne([], 2, v);
    NothingShifted(v);
    NothingUnpacked(Shifted(v, 2));
    assert [] + [2] == [2];
  }

  /** The header fields in wire order: 2, 16, 1, 1, 16, 1, 1, 1 and 1 bits. */
  lemma HeaderLayout(v: nat)
    ensures var h := DecodeHeader(v);
      [h.face, h.points, h.vehicleExit, h.interpolate, h.deltas, h.filter, h.spell, h.jump, h.anim]
        == Unpacked([2] + [16] + [1] + [1] + [16] + [1] + [1] + [1] + [1], v)
  {
    hide Unpacked;
    HeaderShifts(v);
    var w2 := [2] + [16];
    var w4 := w2 + [1] + [1];
    var w5 := w4 + [16];
    OneBitField(w5 + [1] + [1] + [1], v);
    OneBitField(w5 + [1] + [1], v / 2);
    OneBitField(w5 + [1], v / 4);
    OneBitField(w5, v / 8);
    SixteenBitField(w4, v / 0x10);
    OneBitField(w2 + [1], v / 0x10_0000);
    OneBitField(w2, v / 0x20_0000);
    SixteenBitField([2], v / 0x40_0000);
    TwoBitField(v / 0x40_0000_0000);
  }

  lemma NothingUnpacked(v: nat)
    ensures Unpacked([], v) == []
  {
  }

  /** The shifted header as a chain of short divisions. */
  lemma HeaderShifts(v: nat)
    ensures v / 4 == (v / 2) / 2 && v / 8 == (v / 4) / 2 && v / 0x10 == (v / 8) / 2
    ensures v / 0x10_0000 == (v / 0x10) / 0x1_0000
    ensures v / 0x20_0000 == (v / 0x10_0000) / 2 && v / 0x40_0000 == (v / 0x20_0000) / 2
    ensures v / 0x40_0000_0000 == (v / 0x40_0000) / 0x1_0000
  {
  }

  lemma Split2(q: nat, r: nat)
    requires r < 2
    ensures (q * 2 + r) / 2 == q && (q * 2 + r) % 2 == r
  {
  }

  lemma Split64K(q: nat, r: nat)
    requires r < 0x1_0000
    ensures (q * 0x1_0000 + r) / 0x1_0000 == q && (q * 0x1_0000 + r) % 0x1_0000 == r
  {
  }

  lemma LowShifts(v: nat, q4: nat, filter: nat, spell: nat, jump: nat, anim: nat)
    requires filter < 2 && spell < 2 && jump < 2 && anim < 2
    requires v == q4 * 0x10 + filter * 8 + spell * 4 + jump * 2 + anim
    ensures v / 0x10 == q4 && (v / 8) % 2 == filter && (v / 4) % 2 == spell && (v / 2) % 2 == jump && v % 2 == anim
  {
    Split2(q4, filter);
    Split2(q4 * 2 + filter, spell);
    Split2((q4 * 2 + filter) * 2 + spell, jump);
    Split2(((q4 * 2 + filter) * 2 + spell) * 2 + jump, anim);
    HeaderShifts(v);
  }

  lemma HighShifts(v: nat, q4: nat, h: SplineHeader)
    requires h.Valid() && v / 0x10 == q4
    requires q4 == ((h.face * 0x1_0000 + h.points) * 4 + h.vehicleExit * 2 + h.interpolate) * 0x1_0000 + h.deltas
    ensures (v / 0x10) % 0x1_0000 == h.deltas
    ensures (v / 0x10_0000) % 2 == h.interpolate && (v / 0x20_0000) % 2 == h.vehicleExit
    ensures (v / 0x40_0000) % 0x1_0000 == h.points && (v / 0x40_0000_0000) % 4 == h.face
  {
    var q22 := h.face * 0x1_0000 + h.points;
    Split64K(q22 * 4 + h.vehicleExit * 2 + h.interpolate, h.deltas);
    Split2(q22 * 2 + h.vehicleExit, h.interpolate);
    Split2(q22, h.vehicleExit);
    Split64K(h.face, h.points);
    HeaderShifts(v);
  }

  lemma HeaderRoundTrip(h: SplineHeader)
    requires h.Valid()
    ensures DecodeHeader(EncodeHeader(h)) == h
  {
    var v := EncodeHeader(h);
    var q4 := ((h.face * 0x1_0000 + h.points) * 4 + h.vehicleExit * 2 + h.interpolate) * 0x1_0000 + h.deltas;
    LowShifts(v, q4, h.filter, h.spell, h.jump, h.anim);
    HighShifts(v, q4, h);
  }

  lemma LowBits(v: nat)
    ensures v == (v / 0x10) * 0x10 + ((v / 8) % 2) * 8 + ((v / 4) % 2) * 4 + ((v / 2) % 2) * 2 + v % 2
  {
    assert v / 4 == (v / 2) / 2;
    assert v / 8 == (v / 4) / 2;
    assert v / 0x10 == (v / 8) / 2;
  }

  lemma HighBits(w: nat)
    requires w < 0x10_0000_0000
    ensures w == (w / 0x4_0000_0000 % 4) * 0x4_0000_0000 + (w / 0x4_0000 % 0x1_0000) * 0x4_0000
      + (w / 0x2_0000 % 2) * 0x2_0000 + (w / 0x1_0000 % 2) * 0x1_0000 + w % 0x1_0000
  {
    var a := w / 0x1_0000;
    var b := a / 2;
    var c := b / 2;
    assert w / 0x2_0000 == b && w / 0x4_0000 == c && w / 0x4_0000_0000 == c / 0x1_0000;
    assert c < 0x4_0000;
  }

  lemma HeaderUnique(v: nat)
    requires v < 0x100_0000_0000
    ensures EncodeHeader(DecodeHeader(v)) == v
  {
    var w := v / 0x10;
    LowBits(v);
    HighBits(w);
    HeaderShifts(v);
    assert w / 0x1_0000 == v / 0x10_0000;
    assert w / 0x2_0000 == v / 0x20_0000;
    assert w / 0x4_0000 == v / 0x40_0000;
    assert w / 0x4_0000_0000 == v / 0x40_0000_0000;
  }

  function WriteHeader(h: SplineHeader): (b: seq<byte>)
    requires h.Valid()
    ensures |b| == 5
  {
    HeaderBytes(EncodeHeader(h))
  }

  function ParseHeader(s: seq<byte>): (p: Parsed<SplineHeader>)
    ensures p.Some? ==> p.value.0.Valid()
  {
    var (b, rest) :- TakeBytes(5, s);
    Some((DecodeHeader(HeaderValue(b)), rest))
  }

  lemma ParseHeaderWritten(h: SplineHeader, rest: seq<byte>)
    requires h.Valid()
    ensures ParseHeader(WriteHeader(h) + rest) == Some((h, rest))
  {
    TakeBytesWritten(WriteHeader(h), rest);
    HeaderBytesRoundTrip(EncodeHeader(h));
    HeaderRoundTrip(h);
  }

  lemma ParseHeaderReads(s: seq<byte>)
    ensures var p := ParseHeader(s); p.Some? ==> s == WriteHeader(p.value.0) + p.value.1
  {
    if |s| >= 5 {
      HeaderBytesUnique(s[..5]);
      HeaderUnique(HeaderValue(s[..5]));
      assert s == s[..5] + s[5..];
    }
  }

  // ---------------------------------------------------------------------
  // Filter section
  // ---------------------------------------------------------------------

  /** `keys` holds four bytes per filter key. */
  datatype SplineFilter = SplineFilter(
    baseSpeed: uint32, startOffset: seq<byte>, distanceToPrevious: uint32, addedToStart: seq<byte>,
    keys: seq<byte>, flags: byte)
  {
    predicate Valid() {
      && IsFinite(baseSpeed) && |startOffset| == 2 && IsFinite(distanceToPrevious) && |addedToStart| == 2
      && |keys| % 4 == 0 && |keys| / 4 < U32_SIZE && flags < 4
    }
  }

  function WriteFilter(f: SplineFilter): seq<byte>
    requires f.Valid()
  {
    ToLe32(|f.keys| / 4) + (ToLe32(f.baseSpeed) + (f.startOffset + (ToLe32(f.distanceToPrevious)
      + (f.addedToStart + (f.keys + [f.flags as int * 64])))))
  }

  function ParseFilter(s: seq<byte>): Parsed<SplineFilter> {
    var (count, s1) :- ParseU32(s);
    var (speed, s2) :- ParseFloat(s1);
    var (offset, s3) :- TakeBytes(2, s2);
    var (distance, s4) :- ParseFloat(s3);
    var (added, s5) :- TakeBytes(2, s4);
    var (keys, s6) :- TakeBytes(4 * count, s5);
    var (flags, s7) :- TakeBytes(1, s6);
    if flags[0] % 64 != 0 then None
    else Some((SplineFilter(speed, offset, distance, added, keys, flags[0] / 64), s7))
  }

  lemma FilterNested(f: SplineFilter, rest: seq<byte>)
    requires f.Valid()
    ensures WriteFilter(f) + rest ==
      ToLe32(|f.keys| / 4) + (ToLe32(f.baseSpeed) + (f.startOffset + (ToLe32(f.distanceToPrevious)
        + (f.addedToStart + (f.keys + ([f.flags as int * 64] + rest))))))
  {
  }

  lemma ParseFilterWritten(f: SplineFilter, rest: seq<byte>)
    requires f.Valid()
    ensures ParseFilter(WriteFilter(f) + rest) == Some((f, rest))
  {
    hide ToLe32, FromLe32, TakeBytes;
    var r6 := [f.flags as int * 64] + rest;
    var r5 := f.keys + r6;
    var r4 := f.addedToStart + r5;
    var r3 := ToLe32(f.distanceToPrevious) + r4;
    var r2 := f.startOffset + r3;
    var r1 := ToLe32(f.baseSpeed) + r2;
    FilterNested(f, rest);
    ParseU32Written(|f.keys| / 4, r1);
    ParseU32Written(f.baseSpeed, r2);
    TakeBytesWritten(f.startOffset, r3);
    ParseU32Written(f.distanceToPrevious, r4);
    TakeBytesWritten(f.addedToStart, r5);
    TakeBytesWritten(f.keys, r6);
    TakeBytesWritten([f.flags as int * 64], rest);
  }

  lemma ParseFilterReads(s: seq<byte>)
    ensures var p := ParseFilter(s); p.Some? ==> p.value.0.Valid() && s == WriteFilter(p.value.0) + p.value.1
  {
    if ParseFilter(s).Some? {
      var (count, s1) := ParseU32(s).value;
      ParseU32Reads(s);
      var (speed, s2) := ParseFloat(s1).value;
      ParseU32Reads(s1);
      var (offset, s3) := TakeBytes(2, s2).value;
      TakeBytesReads(2, s2);
      var (distance, s4) := ParseFloat(s3).value;
      ParseU32Reads(s3);
      var (added, s5) := TakeBytes(2, s4).value;
      TakeBytesReads(2, s4);
      var (keys, s6) := TakeBytes(4 * count, s5).value;
      TakeBytesReads(4 * count, s5);
      var (flags, s7) := TakeBytes(1, s6).value;
      TakeBytesReads(1, s6);
      assert flags == [flags[0] / 64 * 64];
      assert |keys| / 4 == count;
      FilterNested(ParseFilter(s).value.0, s7);
    }
  }

  // ---------------------------------------------------------------------
  // Facing
  // ---------------------------------------------------------------------

  datatype Face =
    | NoFace
    | Spot(position: seq<uint32>)
    | Target(angle: uint32, guid: Guid)
    | Angle(direction: uint32)
  {
    predicate Valid() {
      match this
      case NoFace => true
      case Spot(p) => |p| == 3 && AllFinite(p)
      case Target(a, g) => IsFinite(a) && g.Valid()
      case Angle(d) => IsFinite(d)
    }

    function Kind(): nat {
      match this
      case NoFace => 0
      case Spot(_) => 1
      case Target(_, _) => 2
      case Angle(_) => 3
    }
  }

  function WriteFace(f: Face): seq<byte>
    requires f.Valid()
  {
    match f
    case NoFace => []
    case Spot(p) => WriteFloats(p)
    case Target(a, g) => ToLe32(a) + WriteGuid(g)
    case Angle(d) => ToLe32(d)
  }

  function ParseFace(kind: nat, s: seq<byte>): Parsed<Face> {
    if kind == 0 then Some((NoFace, s))
    else if kind == 1 then
      var (p, rest) :- ParseFloats(3, s);
      Some((Spot(p), rest))
    else if kind == 2 then
      var (a, s1) :- ParseFloat(s);
      var (g, rest) :- ParseGuid(s1);
      Some((Target(a, g), rest))
    else if kind == 3 then
      var (d, rest) :- ParseFloat(s);
      Some((Angle(d), rest))
    else None
  }

  lemma ParseFaceWritten(f: Face, rest: seq<byte>)
    requires f.Valid()
    ensures ParseFace(f.Kind(), WriteFace(f) + rest) == Some((f, rest))
  {
    match f
    case NoFace => assert WriteFace(f) + rest == rest;
    case Spot(p) => ParseFloatsWritten(p, rest);
    case Target(a, g) =>
      assert WriteFace(f) + rest == ToLe32(a) + (WriteGuid(g) + rest);
      ParseU32Written(a, WriteGuid(g) + rest);
      ParseGuidWritten(g, rest);
    case Angle(d) => ParseU32Written(d, rest);
  }

  lemma ParseFaceReads(kind: nat, s: seq<byte>)
    ensures var p := ParseFace(kind, s);
      p.Some? ==> p.value.0.Valid() && p.value.0.Kind() == kind && s == WriteFace(p.value.0) + p.value.1
  {
    if ParseFace(kind, s).Some? {
      if kind == 1 {
        ParseFloatsReads(3, s);
      } else if kind == 2 {
        ParseU32Reads(s);
        var (a, s1) := ParseFloat(s).value;
        ParseGuidReads(s1);
        var (g, rest) := ParseGuid(s1).value;
        assert s == (ToLe32(a) + WriteGuid(g)) + rest;
      } else if kind == 3 {
        ParseU32Reads(s);
      }
    }
  }

  // ---------------------------------------------------------------------
  // Path: filter, facing, points, packed deltas
  // ---------------------------------------------------------------------

  /** `points` holds three floats per point, `deltas` four bytes per packed delta. */
  datatype Path = Path(filter: Option<SplineFilter>, face: Face, points: seq<uint32>, deltas: seq<byte>) {
    predicate Valid() {
      && (filter.Some? ==> filter.value.Valid()) && face.Valid()
      && AllFinite(points) && |points| % 3 == 0 && |points| / 3 < 0x1_0000
      && |deltas| % 4 == 0 && |deltas| / 4 < 0x1_0000
    }
  }

  function WriteOptionalFilter(f: Option<SplineFilter>): seq<byte>
    requires f.Some? ==> f.value.Valid()
  {
    if f.Some? then WriteFilter(f.value) else []
  }

  function ParseOptionalFilter(present: bool, s: seq<byte>): Parsed<Option<SplineFilter>> {
    if present then
      var (f, rest) :- ParseFilter(s);
      Some((Some(f), rest))
    else Some((None, s))
  }

  function WritePath(p: Path): seq<byte>
    requires p.Valid()
  {
    WriteOptionalFilter(p.filter) + (WriteFace(p.face) + (WriteFloats(p.points) + p.deltas))
  }

  function ParsePath(h: SplineHeader, s: seq<byte>): Parsed<Path>
    requires h.Valid()
  {
    var (filter, s1) :- ParseOptionalFilter(h.filter == 1, s);
    var (face, s2) :- ParseFace(h.face, s1);
    var (points, s3) :- ParseFloats(3 * h.points, s2);
    var (deltas, s4) :- TakeBytes(4 * h.deltas, s3);
    Some((Path(filter, face, points, deltas), s4))
  }

  /** The header announces this path. */
  predicate Announces(h: SplineHeader, p: Path)
    requires h.Valid()
  {
    && (h.filter == 1 <==> p.filter.Some?) && h.face == p.face.Kind()
    && |p.points| == 3 * h.points && |p.deltas| == 4 * h.deltas
  }

  lemma ParsePathWritten(h: SplineHeader, p: Path, rest: seq<byte>)
    requires h.Valid() && p.Valid() && Announces(h, p)
    ensures ParsePath(h, WritePath(p) + rest) == Some((p, rest))
  {
    hide ToLe32, FromLe32, TakeBytes, ParseGuid, WriteGuid, ParseFilter, WriteFilter, ParseFace, WriteFace, ParseFloats, WriteFloats;
    var r3 := p.deltas + rest;
    var r2 := WriteFloats(p.points) + r3;
    var r1 := WriteFace(p.face) + r2;
    assert WritePath(p) + rest == WriteOptionalFilter(p.filter) + r1;
    if p.filter.Some? {
      ParseFilterWritten(p.filter.value, r1);
    } else {
      assert WriteOptionalFilter(p.filter) + r1 == r1;
    }
    ParseFaceWritten(p.face, r2);
    ParseFloatsWritten(p.points, r3);
    TakeBytesWritten(p.deltas, rest);
  }

  lemma ParseOptionalFilterReads(present: bool, s: seq<byte>)
    ensures var p := ParseOptionalFilter(present, s);
      p.Some? ==>
        && (p.value.0.Some? <==> present) && (present ==> p.value.0.value.Valid())
        && s == WriteOptionalFilter(p.value.0) + p.value.1
  {
    hide ParseFilter, WriteFilter;
    if present {
      ParseFilterReads(s);
    } else {
      assert [] + s == s;
    }
  }

  lemma PathSections(filter: seq<byte>, face: seq<byte>, points: seq<byte>, deltas: seq<byte>, rest: seq<byte>)
    ensures filter + (face + (points + (deltas + rest))) == (filter + (face + (points + deltas))) + rest
  {
  }

  lemma ParsePathReads(h: SplineHeader, s: seq<byte>)
    requires h.Valid()
    ensures var q := ParsePath(h, s);
      q.Some? ==> q.value.0.Valid() && Announces(h, q.value.0) && s == WritePath(q.value.0) + q.value.1
  {
    hide ParseOptionalFilter, WriteOptionalFilter, ParseFace, WriteFace, ParseFloats, WriteFloats, TakeBytes;
    if ParsePath(h, s).Some? {
      var (filter, s1) := ParseOptionalFilter(h.filter == 1, s).value;
      ParseOptionalFilterReads(h.filter == 1, s);
      var (face, s2) := ParseFace(h.face, s1).value;
      ParseFaceReads(h.face, s1);
      var (points, s3) := ParseFloats(3 * h.points, s2).value;
      ParseFloatsReads(3 * h.points, s2);
      TakeBytesReads(4 * h.deltas, s3);
      var (deltas, s4) := TakeBytes(4 * h.deltas, s3).value;
      PathSections(WriteOptionalFilter(filter), WriteFace(face), WriteFloats(points), deltas, s4);
    }
  }

  // ---------------------------------------------------------------------
  // Extras: spell, jump and animation sections
  // ---------------------------------------------------------------------

  datatype SpellExtra = SpellExtra(target: Guid, data: seq<byte>, speed: uint32) {
    predicate Valid() { target.Valid() && |data| == 12 && IsFinite(speed) }
  }

  datatype JumpExtra = JumpExtra(gravity: uint32, data: seq<byte>) {
    predicate Valid() { IsFinite(gravity) && |data| == 8 }
  }

  datatype Extras = Extras(spell: Option<SpellExtra>, jump: Option<JumpExtra>, anim: Option<seq<byte>>) {
    predicate Valid() {
      && (spell.Some? ==> spell.value.Valid()) && (jump.Some? ==> jump.value.Valid())
      && (anim.Some? ==> |anim.value| == 13)
    }
  }

  function WriteSpell(e: Option<SpellExtra>): seq<byte>
    requires e.Some? ==> e.value.Valid()
  {
    if e.None? then [] else WriteGuid(e.value.target) + (e.value.data + ToLe32(e.value.speed))
  }

  function ParseSpell(present: bool, s: seq<byte>): Parsed<Option<SpellExtra>> {
    if !present then Some((None, s))
    else
      var (target, s1) :- ParseGuid(s);
      var (data, s2) :- TakeBytes(12, s1);
      var (speed, s3) :- ParseFloat(s2);
      Some((Some(SpellExtra(target, data, speed)), s3))
  }

  lemma ParseSpellWritten(e: Option<SpellExtra>, rest: seq<byte>)
    requires e.Some? ==> e.value.Valid()
    ensures ParseSpell(e.Some?, WriteSpell(e) + rest) == Some((e, rest))
  {
    if e.None? {
      assert WriteSpell(e) + rest == rest;
    } else {
      var r2 := ToLe32(e.value.speed) + rest;
      var r1 := e.value.data + r2;
      assert WriteSpell(e) + rest == WriteGuid(e.value.target) + r1;
      ParseGuidWritten(e.value.target, r1);
      TakeBytesWritten(e.value.data, r2);
      ParseU32Written(e.value.speed, rest);
    }
  }

  lemma ParseSpellReads(present: bool, s: seq<byte>)
    ensures var p := ParseSpell(present, s);
      p.Some? ==>
        && (p.value.0.Some? <==> present) && (present ==> p.value.0.value.Valid())
        && s == WriteSpell(p.value.0) + p.value.1
  {
    if present && ParseSpell(present, s).Some? {
      var (target, s1) := ParseGuid(s).value;
      ParseGuidReads(s);
      var (data, s2) := TakeBytes(12, s1).value;
      TakeBytesReads(12, s1);
      ParseU32Reads(s2);
    }
  }

  function WriteJump(e: Option<JumpExtra>): seq<byte>
    requires e.Some? ==> e.value.Valid()
  {
    if e.None? then [] else ToLe32(e.value.gravity) + e.value.data
  }

  function ParseJump(present: bool, s: seq<byte>): Parsed<Option<JumpExtra>> {
    if !present then Some((None, s))
    else
      var (gravity, s1) :- ParseFloat(s);
      var (data, s2) :- TakeBytes(8, s1);
      Some((Some(JumpExtra(gravity, data)), s2))
  }

  lemma ParseJumpWritten(e: Option<JumpExtra>, rest: seq<byte>)
    requires e.Some? ==> e.value.Valid()
    ensures ParseJump(e.Some?, WriteJump(e) + rest) == Some((e, rest))
  {
    if e.None? {
      assert WriteJump(e) + rest == rest;
    } else {
      var r1 := e.value.data + rest;
      assert WriteJump(e) + rest == ToLe32(e.value.gravity) + r1;
      ParseU32Written(e.value.gravity, r1);
      TakeBytesWritten(e.value.data, rest);
    }
  }

  lemma ParseJumpReads(present: bool, s: seq<byte>)
    ensures var p := ParseJump(present, s);
      p.Some? ==>
        && (p.value.0.Some? <==> present) && (present ==> p.value.0.value.Valid())
        && s == WriteJump(p.value.0) + p.value.1
  {
    if present && ParseJump(present, s).Some? {
      var (gravity, s1) := ParseFloat(s).value;
      ParseU32Reads(s);
      TakeBytesReads(8, s1);
    }
  }

  function WriteAnim(e: Option<seq<byte>>): seq<byte> {
    if e.None? then [] else e.value
  }

  function ParseAnim(present: bool, s: seq<byte>): Parsed<Option<seq<byte>>> {
    if !present then Some((None, s))
    else
      var (data, rest) :- TakeBytes(13, s);
      Some((Some(data), rest))
  }

  lemma ParseAnimWritten(e: Option<seq<byte>>, rest: seq<byte>)
    requires e.Some? ==> |e.value| == 13
    ensures ParseAnim(e.Some?, WriteAnim(e) + rest) == Some((e, rest))
  {
    if e.Some? {
      TakeBytesWritten(e.value, rest);
    } else {
      assert WriteAnim(e) + rest == rest;
    }
  }

  lemma ParseAnimReads(present: bool, s: seq<byte>)
    ensures var p := ParseAnim(present, s);
      p.Some? ==>
        && (p.value.0.Some? <==> present) && (present ==> |p.value.0.value| == 13)
        && s == WriteAnim(p.value.0) + p.value.1
  {
  }

  function WriteExtras(e: Extras): seq<byte>
    requires e.Valid()
  {
    WriteSpell(e.spell) + (WriteJump(e.jump) + WriteAnim(e.anim))
  }

  function ParseExtras(h: SplineHeader, s: seq<byte>): Parsed<Extras>
    requires h.Valid()
  {
    var (spell, s1) :- ParseSpell(h.spell == 1, s);
    var (jump, s2) :- ParseJump(h.jump == 1, s1);
    var (anim, s3) :- ParseAnim(h.anim == 1, s2);
    Some((Extras(spell, jump, anim), s3))
  }

  predicate AnnouncesExtras(h: SplineHeader, e: Extras)
    requires h.Valid()
  {
    (h.spell == 1 <==> e.spell.Some?) && (h.jump == 1 <==> e.jump.Some?) && (h.anim == 1 <==> e.anim.Some?)
  }

  lemma ParseExtrasWritten(h: SplineHeader, e: Extras, rest: seq<byte>)
    requires h.Valid() && e.Valid() && AnnouncesExtras(h, e)
    ensures ParseExtras(h, WriteExtras(e) + rest) == Some((e, rest))
  {
    hide WriteSpell, ParseSpell, WriteJump, ParseJump, ParseAnim, WriteAnim;
    var r2 := WriteAnim(e.anim) + rest;
    var r1 := WriteJump(e.jump) + r2;
    assert WriteExtras(e) + rest == WriteSpell(e.spell) + r1;
    ParseSpellWritten(e.spell, r1);
    ParseJumpWritten(e.jump, r2);
    ParseAnimWritten(e.anim, rest);
  }

  lemma ParseExtrasReads(h: SplineHeader, s: seq<byte>)
    requires h.Valid()
    ensures var p := ParseExtras(h, s);
      p.Some? ==> p.value.0.Valid() && AnnouncesExtras(h, p.value.0) && s == WriteExtras(p.value.0) + p.value.1
  {
    hide WriteSpell, ParseSpell, WriteJump, ParseJump, ParseAnim, WriteAnim;
    if ParseExtras(h, s).Some? {
      var (spell, s1) := ParseSpell(h.spell == 1, s).value;
      ParseSpellReads(h.spell == 1, s);
      var (jump, s2) := ParseJump(h.jump == 1, s1).value;
      ParseJumpReads(h.jump == 1, s1);
      var (anim, s3) := ParseAnim(h.anim == 1, s2).value;
      ParseAnimReads(h.anim == 1, s2);
      assert s == WriteSpell(spell) + (WriteJump(jump) + (WriteAnim(anim) + s3));
    }
  }

  // ---------------------------------------------------------------------
  // The whole packet
  // ---------------------------------------------------------------------

  datatype Move = Move(
    placement: Placement, transit: Transit, vehicleExit: nat, interpolate: nat, path: Path, extras: Extras)
  {
    predicate Valid() {
      && placement.Valid() && transit.Valid() && vehicleExit < 2 && interpolate < 2
      && path.Valid() && extras.Valid()
    }
  }

  function HeaderOf(m: Move): (h: SplineHeader)
    requires m.Valid()
    ensures h.Valid() && Announces(h, m.path) && AnnouncesExtras(h, m.extras)
  {
    SplineHeader(
      m.path.face.Kind(), |m.path.points| / 3, m.vehicleExit, m.interpolate, |m.path.deltas| / 4,
      Bit(m.path.filter.Some?), Bit(m.extras.spell.Some?), Bit(m.extras.jump.Some?), Bit(m.extras.anim.Some?))
  }

  function Bit(b: bool): nat {
    if b then 1 else 0
  }

  /** The canonical writer. */
  function WriteMove(m: Move): seq<byte>
    requires m.Valid()
  {
    WritePlacement(m.placement) + (WriteTransit(m.transit) + (WriteHeader(HeaderOf(m))
      + (WritePath(m.path) + WriteExtras(m.extras))))
  }

  function ParseMove(s: seq<byte>): Parsed<Move> {
    var (placement, s1) :- ParsePlacement(s);
    var (transit, s2) :- ParseTransit(s1);
    var (h, s3) :- ParseHeader(s2);
    var (path, s4) :- ParsePath(h, s3);
    var (extras, s5) :- ParseExtras(h, s4);
    Some((Move(placement, transit, h.vehicleExit, h.interpolate, path, extras), s5))
  }

  /** Parsing undoes writing, whatever follows the packet. */
  lemma ParseMoveWritten(m: Move, rest: seq<byte>)
    requires m.Valid()
    ensures ParseMove(WriteMove(m) + rest) == Some((m, rest))
  {
    hide ParsePlacement, WritePlacement, ParseTransit, WriteTransit, ParseHeader, WriteHeader, ParsePath, WritePath, ParseExtras, WriteExtras;
    var h := HeaderOf(m);
    var r4 := WriteExtras(m.extras) + rest;
    var r3 := WritePath(m.path) + r4;
    var r2 := WriteHeader(h) + r3;
    var r1 := WriteTransit(m.transit) + r2;
    assert WriteMove(m) + rest == WritePlacement(m.placement) + r1;
    ParsePlacementWritten(m.placement, r1);
    ParseTransitWritten(m.transit, r2);
    ParseHeaderWritten(h, r3);
    ParsePathWritten(h, m.path, r4);
    ParseExtrasWritten(h, m.extras, rest);
  }

  /** Whatever parses was written canonically. */
  lemma ParseMoveReads(s: seq<byte>)
    ensures var p := ParseMove(s); p.Some? ==> p.value.0.Valid() && s == WriteMove(p.value.0) + p.value.1
  {
    hide ParsePlacement, WritePlacement, ParseTransit, WriteTransit, ParseHeader, WriteHeader, ParsePath, WritePath, ParseExtras, WriteExtras;
    if ParseMove(s).Some? {
      var (placement, s1) := ParsePlacement(s).value;
      ParsePlacementReads(s);
      var (transit, s2) := ParseTransit(s1).value;
      ParseTransitReads(s1);
      var (h, s3) := ParseHeader(s2).value;
      ParseHeaderReads(s2);
      var (path, s4) := ParsePath(h, s3).value;
      ParsePathReads(h, s3);
      var (extras, s5) := ParseExtras(h, s4).value;
      ParseExtrasReads(h, s4);
      var m := ParseMove(s).value.0;
      assert HeaderOf(m) == h;
    }
  }

  // ---------------------------------------------------------------------
  // Size
  // ---------------------------------------------------------------------

  function GuidSize(g: Guid): nat {
    2 + |Present(g.low)| + |Present(g.high)|
  }

  function FaceSize(f: Face): nat {
    match f
    case NoFace => 0
    case Spot(_) => 12
    case Target(_, g) => 4 + GuidSize(g)
    case Angle(_) => 4
  }

  lemma {:induction false} FloatsSize(fs: seq<uint32>)
    ensures |WriteFloats(fs)| == 4 * |fs|
  {
    hide ToLe32;
    if fs != [] {
      FloatsSize(fs[1..]);
    }
  }

  lemma PlacementSize(h: Placement)
    requires h.Valid()
    ensures |WritePlacement(h)| == GuidSize(h.mover) + 12 + 4 + 12
  {
    hide ToLe32, WriteFloats, MaskOf, Present, NonEmpty;
    FloatsSize(h.position);
    FloatsSize(h.destination);
  }

  lemma TransitSize(t: Transit)
    requires t.Valid()
    ensures |WriteTransit(t)| == 1 + 17 + GuidSize(t.transport) + 1
  {
    hide MaskOf, Present;
  }

  lemma PathSize(p: Path)
    requires p.Valid()
    ensures |WritePath(p)| ==
      (if p.filter.Some? then 17 + |p.filter.value.keys| else 0) + FaceSize(p.face) + 4 * |p.points| + |p.deltas|
  {
    hide ToLe32, WriteFloats, MaskOf, Present, IsFinite;
    FloatsSize(p.points);
    if p.face.Spot? {
      FloatsSize(p.face.position);
    }
  }

  lemma ExtrasSize(e: Extras)
    requires e.Valid()
    ensures |WriteExtras(e)| ==
      (if e.spell.Some? then GuidSize(e.spell.value.target) + 12 + 4 else 0)
      + (if e.jump.Some? then 4 + 8 else 0) + (if e.anim.Some? then 13 else 0)
  {
    hide ToLe32, MaskOf, Present, IsFinite;
  }

  /** The size of a canonical body: 52 fixed bytes, two packed GUIDs, and what the header announces. */
  lemma MoveSize(m: Move)
    requires m.Valid()
    ensures |WriteMove(m)| == 52 + GuidSize(m.placement.mover) + GuidSize(m.transit.transport)
      + (if m.path.filter.Some? then 17 + |m.path.filter.value.keys| else 0) + FaceSize(m.path.face)
      + 4 * |m.path.points| + |m.path.deltas|
      + (if m.extras.spell.Some? then GuidSize(m.extras.spell.value.target) + 16 else 0)
      + (if m.extras.jump.Some? then 12 else 0) + (if m.extras.anim.Some? then 13 else 0)
  {
    hide WritePlacement, WriteTransit, WritePath, WriteExtras, GuidSize, FaceSize;
    PlacementSize(m.placement);
    TransitSize(m.transit);
    PathSize(m.path);
    ExtrasSize(m.extras);
  }

  /** The bodies the gate may drop: exactly the canonical encodings. */
  ghost predicate Canonical(body: seq<byte>) {
    exists m: Move :: m.Valid() && body == WriteMove(m)
  }

  lemma CanonicalIffParsesToTheEnd(body: seq<byte>)
    ensures Canonical(body) <==> ParseMove(body).Some? && ParseMove(body).value.1 == []
  {
    hide ParseMove, WriteMove;
    if Canonical(body) {
      var m: Move :| m.Valid() && body == WriteMove(m);
      ParseMoveWritten(m, []);
      assert body + [] == body;
    }
    ParseMoveReads(body);
  }

  /** A canonical body determines its message. */
  lemma WriteMoveInjective(m: Move, n: Move)
    requires m.Valid() && n.Valid() && WriteMove(m) == WriteMove(n)
    ensures m == n
  {
    hide ParseMove, WriteMove;
    ParseMoveWritten(m, []);
    ParseMoveWritten(n, []);
    assert WriteMove(m) + [] == WriteMove(m);
  }

  /** The accepted language is prefix-free. */
  lemma CanonicalBodiesArePrefixFree(body: seq<byte>, longer: seq<byte>)
    requires Canonical(body) && Canonical(longer) && body <= longer
    ensures body == longer
  {
    hide ParseMove, WriteMove;
    var m: Move :| m.Valid() && body == WriteMove(m);
    var n: Move :| n.Valid() && longer == WriteMove(n);
    var extra := longer[|body|..];
    ParseMoveWritten(m, extra);
    ParseMoveWritten(n, []);
    assert longer == WriteMove(m) + extra && longer == WriteMove(n) + [];
  }
}
