/** Reader and writer of the PKT 3.1 binary packet log (pkt.rs). */
module Pkt {
  import opened Common
  import opened CaptureModel

  datatype PktError =
    | UnexpectedEnd | BadSignature | UnsupportedVersion | UnknownDirection | LengthTooSmall | OpcodeTooLarge

  const SIGNATURE: seq<byte> := [0x50, 0x4B, 0x54]
  const FORMAT_VERSION_3_1: uint16 := 0x0301
  const DIR_CMSG: uint32 := 0x4753_4d43
  const DIR_SMSG: uint32 := 0x4753_4d53

  /** A value read from the front of the input, and the unread rest. */
  type Read<T> = Result<(T, seq<byte>), PktError>

  // ---------------------------------------------------------------------
  // The format, read from the front of the remaining bytes
  // ---------------------------------------------------------------------

  function OrUnexpectedEnd<T>(p: Parsed<T>): Read<T> {
    match p
    case None => Err(UnexpectedEnd)
    case Some(read) => Ok(read)
  }

  function Take(s: seq<byte>, n: nat): Read<seq<byte>> {
    OrUnexpectedEnd(TakeBytes(n, s))
  }

  function U32(s: seq<byte>): Read<uint32> {
    OrUnexpectedEnd(ParseU32(s))
  }

  function U16(s: seq<byte>): Read<uint16> {
    var (b, rest) :- Take(s, 2);
    Ok((FromLe16(b), rest))
  }

  function DirectionOf(raw: uint32): Option<Direction> {
    if raw == DIR_CMSG then Some(C2S) else if raw == DIR_SMSG then Some(S2C) else None
  }

  /** The file preamble; the rest is what follows the optional header data. */
  function FileHeader(s: seq<byte>): Result<seq<byte>, PktError> {
    var (signature, s1) :- Take(s, 3);
    if signature != SIGNATURE then Err(BadSignature)
    else
      var (version, s2) :- U16(s1);
      if version != FORMAT_VERSION_3_1 then Err(UnsupportedVersion)
      else
        // sniffer id, build, locale, session key and the two start times
        var (_, s3) :- Take(s2, 57);
        var (optional, s4) :- U32(s3);
        var (_, s5) :- Take(s4, optional);
        Ok(s5)
  }

  datatype RecordHeader = RecordHeader(direction: Direction, connectionId: uint32, optionalSize: uint32, length: uint32)

  function ReadRecordHeader(s: seq<byte>): Read<RecordHeader> {
    var (raw, s1) :- U32(s);
    if DirectionOf(raw).None? then Err(UnknownDirection)
    else
      var (connection, s2) :- U32(s1);
      var (_, s3) :- U32(s2);
      var (optional, s4) :- U32(s3);
      var (length, s5) :- U32(s4);
      Ok((RecordHeader(DirectionOf(raw).value, connection, optional, length), s5))
  }

  function ReadPayload(h: RecordHeader, s: seq<byte>): Read<CapturedPacket> {
    var (_, s1) :- Take(s, h.optionalSize);
    if h.length < 4 then Err(LengthTooSmall)
    else
      var (opcode, s2) :- U32(s1);
      if opcode >= 0x1_0000 then Err(OpcodeTooLarge)
      else
        var (body, s3) :- Take(s2, h.length - 4);
        Ok((CapturedPacket(h.direction, h.connectionId, opcode, body), s3))
  }

  function ReadRecord(s: seq<byte>): (r: Read<CapturedPacket>)
    ensures r.Ok? ==> |r.value.1| < |s|
  {
    var (h, s1) :- ReadRecordHeader(s);
    ReadPayload(h, s1)
  }

  function ReadRecords(s: seq<byte>): Result<seq<CapturedPacket>, PktError>
    decreases |s|
  {
    if s == [] then Ok([])
    else
      var (packet, rest) :- ReadRecord(s);
      var packets :- ReadRecords(rest);
      Ok([packet] + packets)
  }

  function ParsePkt(s: seq<byte>): Result<seq<CapturedPacket>, PktError> {
    var records :- FileHeader(s);
    ReadRecords(records)
  }

  // ---------------------------------------------------------------------
  // The cursor and the parser
  // ---------------------------------------------------------------------

  class Cursor {
    const buf: seq<byte>
    var pos: nat

    constructor (buf: seq<byte>)
      ensures this.buf == buf && pos == 0
    {
      this.buf := buf;
      pos := 0;
    }

    ghost predicate Valid()
      reads this
    {
      pos <= |buf|
    }

    /** What is left to read. */
    ghost function Rest(): seq<byte>
      reads this
      requires Valid()
    {
      buf[pos..]
    }

    function Remaining(): nat
      reads this
      requires Valid()
    {
      |buf| - pos
    }

    method TakeBytes(n: nat) returns (r: Result<seq<byte>, PktError>)
      requires Valid()
      modifies this
      ensures Valid()
      ensures var spec := Take(old(Rest()), n);
        if spec.Err? then r == Err(spec.error) && Rest() == old(Rest())
        else r == Ok(spec.value.0) && Rest() == spec.value.1
    {
      if Remaining() < n {
        return Err(UnexpectedEnd);
      }
      var slice := buf[pos..pos + n];
      assert buf[pos..][..n] == slice && buf[pos..][n..] == buf[pos + n..];
      pos := pos + n;
      return Ok(slice);
    }

    method ReadU16() returns (r: Result<uint16, PktError>)
      requires Valid()
      modifies this
      ensures Valid()
      ensures var spec := U16(old(Rest()));
        if spec.Err? then r == Err(spec.error) else r == Ok(spec.value.0) && Rest() == spec.value.1
    {
      var b :- TakeBytes(2);
      return Ok(FromLe16(b));
    }

    method ReadU32() returns (r: Result<uint32, PktError>)
      requires Valid()
      modifies this
      ensures Valid()
      ensures var spec := U32(old(Rest()));
        if spec.Err? then r == Err(spec.error) else r == Ok(spec.value.0) && Rest() == spec.value.1
    {
      var b :- TakeBytes(4);
      return Ok(FromLe32(b));
    }
  }

  method SkipFileHeader(cur: Cursor) returns (r: Result<(), PktError>)
    requires cur.Valid()
    modifies cur
    ensures cur.Valid()
    ensures var spec := FileHeader(old(cur.Rest()));
      if spec.Err? then r == Err(spec.error) else r == Ok(()) && cur.Rest() == spec.value
  {
    hide FromLe32, FromLe16, ParseU32, U16;
    var signature :- cur.TakeBytes(3);
    if signature != SIGNATURE {
      return Err(BadSignature);
    }
    var version :- cur.ReadU16();
    if version != FORMAT_VERSION_3_1 {
      return Err(UnsupportedVersion);
    }
    ghost var start := cur.Rest();
    var snifferId :- cur.TakeBytes(1);
    var build :- cur.TakeBytes(4);
    var locale :- cur.TakeBytes(4);
    var sessionKey :- cur.TakeBytes(40);
    var unixtime :- cur.TakeBytes(4);
    var ticks :- cur.TakeBytes(4);
    assert cur.Rest() == start[57..];
    var optional :- cur.ReadU32();
    var skipped :- cur.TakeBytes(optional);
    return Ok(());
  }

  method ReadPacket(cur: Cursor) returns (r: Result<CapturedPacket, PktError>)
    requires cur.Valid()
    modifies cur
    ensures cur.Valid()
    ensures var spec := ReadRecord(old(cur.Rest()));
      if spec.Err? then r == Err(spec.error) else r == Ok(spec.value.0) && cur.Rest() == spec.value.1
  {
    hide U32, Take;
    var raw :- cur.ReadU32();
    var direction: Direction;
    if raw == DIR_CMSG {
      direction := C2S;
    } else if raw == DIR_SMSG {
      direction := S2C;
    } else {
      return Err(UnknownDirection);
    }
    var connectionId :- cur.ReadU32();
    var arrivalTicks :- cur.ReadU32();
    var optionalSize :- cur.ReadU32();
    var length :- cur.ReadU32();
    var optional :- cur.TakeBytes(optionalSize);
    if length < 4 {
      return Err(LengthTooSmall);
    }
    var opcode :- cur.ReadU32();
    if opcode >= 0x1_0000 {
      return Err(OpcodeTooLarge);
    }
    var body :- cur.TakeBytes(length - 4);
    return Ok(CapturedPacket(direction, connectionId, opcode, body));
  }

  /** What is left to parse completes what has been parsed so far. */
  ghost predicate ParsedSoFar(bytes: seq<byte>, packets: seq<CapturedPacket>, rest: seq<byte>) {
    var all, tail := ParsePkt(bytes), ReadRecords(rest);
    if tail.Ok? then all.Ok? && all.value == packets + tail.value else all == tail
  }

  lemma ParsedOneMore(bytes: seq<byte>, packets: seq<CapturedPacket>, rest: seq<byte>)
    requires ParsedSoFar(bytes, packets, rest) && rest != []
    ensures var record := ReadRecord(rest);
      if record.Ok? then ParsedSoFar(bytes, packets + [record.value.0], record.value.1)
      else ParsePkt(bytes) == Err(record.error)
  {
    hide ReadRecord, ParsePkt;
  }

  lemma ParsedAll(bytes: seq<byte>, packets: seq<CapturedPacket>)
    requires ParsedSoFar(bytes, packets, [])
    ensures ParsePkt(bytes) == Ok(packets)
  {
    hide ParsePkt;
    assert packets + [] == packets;
  }

  method ParsePktBytes(bytes: seq<byte>) returns (r: Result<Capture, PktError>)
    ensures var spec := ParsePkt(bytes);
      if spec.Ok? then r == Ok(Capture("<pkt bytes>", spec.value)) else r == Err(spec.error)
  {
    hide FileHeader, ReadRecord;
    var cur := new Cursor(bytes);
    assert cur.Rest() == bytes;
    var header :- SkipFileHeader(cur);
    var packets: seq<CapturedPacket> := [];
    assert ParsedSoFar(bytes, packets, cur.Rest());
    while cur.Remaining() > 0
      invariant cur.Valid()
      invariant ParsedSoFar(bytes, packets, cur.Rest())
      decreases |cur.Rest()|
    {
      hide ParsedSoFar, ParsePkt, ReadRecords;
      ParsedOneMore(bytes, packets, cur.Rest());
      var packet :- ReadPacket(cur);
      packets := packets + [packet];
    }
    assert cur.Rest() == [];
    ParsedAll(bytes, packets);
    return Ok(Capture("<pkt bytes>", packets));
  }

  // ---------------------------------------------------------------------
  // Truncation
  // ---------------------------------------------------------------------

  /** The input without its last d bytes. */
  function Cut(s: seq<byte>, d: nat): seq<byte>
    requires d <= |s|
  {
    s[..|s| - d]
  }

  lemma TakeCut(s: seq<byte>, n: nat, d: nat)
    requires d <= |s|
    ensures var full, cut := Take(s, n), Take(Cut(s, d), n);
      full.Ok? ==>
        if d <= |full.value.1| then cut == Ok((full.value.0, Cut(full.value.1, d))) else cut.Err?
  {
    if n <= |s| - d {
      assert Cut(s, d)[..n] == s[..n];
      assert Cut(s, d)[n..] == Cut(s[n..], d);
    }
  }

  lemma U32Cut(s: seq<byte>, d: nat)
    requires d <= |s|
    ensures var full, cut := U32(s), U32(Cut(s, d));
      full.Ok? ==>
        if d <= |full.value.1| then cut == Ok((full.value.0, Cut(full.value.1, d))) else cut.Err?
  {
    TakeCut(s, 4, d);
  }

  lemma RestIsShorter(s: seq<byte>)
    ensures U32(s).Ok? ==> |U32(s).value.1| == |s| - 4
  {
  }

  lemma RecordHeaderCut(s: seq<byte>, d: nat)
    requires d <= |s|
    ensures var full, cut := ReadRecordHeader(s), ReadRecordHeader(Cut(s, d));
      full.Ok? ==>
        && |full.value.1| <= |s|
        && if d <= |full.value.1| then cut == Ok((full.value.0, Cut(full.value.1, d))) else cut.Err?
  {
    hide U32;
    hide Cut;
    if ReadRecordHeader(s).Ok? {
      var (_, s1) := U32(s).value;
      var (_, s2) := U32(s1).value;
      var (_, s3) := U32(s2).value;
      var (_, s4) := U32(s3).value;
      RestIsShorter(s);
      RestIsShorter(s1);
      RestIsShorter(s2);
      RestIsShorter(s3);
      RestIsShorter(s4);
      U32Cut(s, d);
      if d <= |s1| { U32Cut(s1, d); }
      if d <= |s2| { U32Cut(s2, d); }
      if d <= |s3| { U32Cut(s3, d); }
      if d <= |s4| { U32Cut(s4, d); }
    }
  }

  lemma PayloadCut(h: RecordHeader, s: seq<byte>, d: nat)
    requires d <= |s|
    ensures var full, cut := ReadPayload(h, s), ReadPayload(h, Cut(s, d));
      full.Ok? ==>
        && |full.value.1| <= |s|
        && if d <= |full.value.1| then cut == Ok((full.value.0, Cut(full.value.1, d))) else cut.Err?
  {
    hide Cut;
    hide FromLe32;
    if ReadPayload(h, s).Ok? {
      var (_, s1) := Take(s, h.optionalSize).value;
      var (_, s2) := U32(s1).value;
      TakeCut(s, h.optionalSize, d);
      if d <= |s1| { U32Cut(s1, d); }
      if d <= |s2| { TakeCut(s2, h.length - 4, d); }
    }
  }

  /** A complete record reads the same in a truncated log, unless the cut reaches into it. */
  lemma RecordCut(s: seq<byte>, d: nat)
    requires d <= |s|
    ensures var full, cut := ReadRecord(s), ReadRecord(Cut(s, d));
      full.Ok? ==>
        if d <= |full.value.1| then cut == Ok((full.value.0, Cut(full.value.1, d))) else cut.Err?
  {
    hide ReadPayload, ReadRecordHeader, Cut;
    RecordHeaderCut(s, d);
    if ReadRecordHeader(s).Ok? {
      var (h, s1) := ReadRecordHeader(s).value;
      if d <= |s1| { PayloadCut(h, s1, d); }
      if ReadPayload(h, s1).Ok? {
        PayloadCut(h, s1, 0);
      }
    }
  }

  /** Bytes taken by the first k records of an accepted log body. */
  function RecordOffset(s: seq<byte>, k: nat): nat
    requires ReadRecords(s).Ok? && k <= |ReadRecords(s).value|
    decreases k
  {
    if k == 0 then 0
    else
      var rest := ReadRecord(s).value.1;
      |s| - |rest| + RecordOffset(rest, k - 1)
  }

  ghost predicate AtRecordBoundary(s: seq<byte>, m: nat)
    requires ReadRecords(s).Ok?
  {
    exists k :: 0 <= k <= |ReadRecords(s).value| && m == RecordOffset(s, k)
  }

  lemma BoundaryWitness(s: seq<byte>, k: nat)
    requires ReadRecords(s).Ok? && k <= |ReadRecords(s).value|
    ensures AtRecordBoundary(s, RecordOffset(s, k))
  {
  }

  /** The log body cut to m bytes is accepted exactly at the record boundaries, with exactly the packets before it. */
  lemma {:induction false} RecordsTruncated(s: seq<byte>, m: nat)
    requires ReadRecords(s).Ok? && m <= |s|
    ensures ReadRecords(s[..m]).Ok? <==> AtRecordBoundary(s, m)
    ensures forall k :: 0 <= k <= |ReadRecords(s).value| && m == RecordOffset(s, k) ==>
      ReadRecords(s[..m]) == Ok(ReadRecords(s).value[..k])
    decreases |s|
  {
    hide ReadRecord;
    var packets := ReadRecords(s).value;
    var cut := s[..m];
    if m == 0 {
      assert cut == [] && ReadRecords(cut) == Ok([]);
      BoundaryWitness(s, 0);
      forall k | 0 < k <= |packets|
        ensures RecordOffset(s, k) > 0
      {
      }
    } else {
      var (packet, rest) := ReadRecord(s).value;
      var n := |s| - |rest|;
      RecordCut(s, |s| - m);
      assert cut == Cut(s, |s| - m);
      if m < n {
        forall k | 0 < k <= |packets|
          ensures RecordOffset(s, k) >= n
        {
        }
      } else {
        RecordsTruncated(rest, m - n);
        assert Cut(rest, |s| - m) == rest[..m - n];
        forall k | 0 < k <= |packets|
          ensures RecordOffset(s, k) == n + RecordOffset(rest, k - 1)
          ensures packets[..k] == [packet] + ReadRecords(rest).value[..k - 1]
        {
        }
        if AtRecordBoundary(rest, m - n) {
          var k :| 0 <= k <= |ReadRecords(rest).value| && m - n == RecordOffset(rest, k);
          BoundaryWitness(s, k + 1);
        }
      }
    }
  }

  lemma HeaderTruncated(s: seq<byte>, m: nat)
    requires FileHeader(s).Ok? && m <= |s|
    ensures |FileHeader(s).value| <= |s|
    ensures var n := |s| - |FileHeader(s).value|;
      if m < n then FileHeader(s[..m]).Err? else FileHeader(s[..m]) == Ok(FileHeader(s).value[..m - n])
  {
    hide FromLe32;
    hide FromLe16;
    var d := |s| - m;
    assert s[..m] == Cut(s, d);
    var (_, s1) := Take(s, 3).value;
    var (_, s2) := Take(s1, 2).value;
    var (_, s3) := Take(s2, 57).value;
    var (optional, s4) := U32(s3).value;
    var (_, s5) := Take(s4, optional).value;
    TakeCut(s, 3, d);
    if d <= |s1| { TakeCut(s1, 2, d); }
    if d <= |s2| { TakeCut(s2, 57, d); }
    if d <= |s3| { U32Cut(s3, d); }
    if d <= |s4| { TakeCut(s4, optional, d); }
    if d <= |s5| { assert Cut(s5, d) == s5[..m - (|s| - |s5|)]; }
  }

  /** End of the file header, then the end of the k-th record. */
  function Boundary(s: seq<byte>, k: nat): nat
    requires ParsePkt(s).Ok? && k <= |ParsePkt(s).value|
  {
    var records := FileHeader(s).value;
    HeaderTruncated(s, 0);
    |s| - |records| + RecordOffset(records, k)
  }

  /**
   * Truncating an accepted log: it is still accepted exactly when the cut is at a
   * record boundary behind the file header, and then it holds the packets before it.
   */
  lemma LogTruncated(s: seq<byte>, m: nat)
    requires ParsePkt(s).Ok? && m <= |s|
    ensures ParsePkt(s[..m]).Ok? <==> exists k :: 0 <= k <= |ParsePkt(s).value| && m == Boundary(s, k)
    ensures forall k :: 0 <= k <= |ParsePkt(s).value| && m == Boundary(s, k) ==>
      ParsePkt(s[..m]) == Ok(ParsePkt(s).value[..k])
  {
    hide FileHeader;
    hide ReadRecords;
    hide RecordOffset;
    HeaderTruncated(s, m);
    var records := FileHeader(s).value;
    var n := |s| - |records|;
    if m >= n {
      RecordsTruncated(records, m - n);
      forall k | 0 <= k <= |ParsePkt(s).value|
        ensures m == Boundary(s, k) <==> m - n == RecordOffset(records, k)
      {
      }
      if ReadRecords(records[..m - n]).Ok? {
        var k :| 0 <= k <= |ReadRecords(records).value| && m - n == RecordOffset(records, k);
        assert m == Boundary(s, k);
      }
    } else {
      forall k | 0 <= k <= |ParsePkt(s).value|
        ensures m < Boundary(s, k)
      {
      }
    }
  }

  // ---------------------------------------------------------------------
  // Writing
  // ---------------------------------------------------------------------

  function DirectionRaw(d: Direction): (raw: uint32)
    ensures DirectionOf(raw) == Some(d)
  {
    if d.C2S? then DIR_CMSG else DIR_SMSG
  }

  /** Signature, version, 'T', build 49741, "enUS", session key, two times, no optional data. */
  function LogHeader(): seq<byte> {
    SIGNATURE + (ToLe16(FORMAT_VERSION_3_1)
      + (([0x54] + ToLe32(49741) + [0x65, 0x6E, 0x55, 0x53] + Zeros(40) + ToLe32(0) + ToLe32(0)) + ToLe32(0)))
  }

  /** `body.len() as u32 + 4`, in the wrapping arithmetic of a release build. */
  function LengthField(body: seq<byte>): uint32 {
    (|body| % U32_SIZE + 4) % U32_SIZE
  }

  function RecordPrefix(index: nat, p: CapturedPacket): seq<byte> {
    ToLe32(DirectionRaw(p.direction)) + (ToLe32(p.connectionId) + (ToLe32(index % U32_SIZE)
      + (ToLe32(20) + ToLe32(LengthField(p.body)))))
  }

  function RecordPayload(p: CapturedPacket): seq<byte> {
    Zeros(20) + (ToLe32(p.opcode) + p.body)
  }

  function RecordBytes(index: nat, p: CapturedPacket): seq<byte> {
    RecordPrefix(index, p) + RecordPayload(p)
  }

  /** The direction words spell their names in the file. */
  lemma DirectionWords()
    ensures ToLe32(DIR_CMSG) == [0x43, 0x4D, 0x53, 0x47] && ToLe32(DIR_SMSG) == [0x53, 0x4D, 0x53, 0x47]
  {
  }

  lemma FieldAt(before: seq<byte>, field: seq<byte>, after: seq<byte>)
    ensures (before + (field + after))[|before|..|before| + |field|] == field
  {
  }

  lemma FieldIn(before: seq<byte>, v: uint32, after: seq<byte>, r: seq<byte>)
    requires r == before + (ToLe32(v) + after)
    ensures |r| >= |before| + 4 && FromLe32(r[|before|..|before| + 4]) == v
  {
    hide ToLe32, FromLe32;
    FieldAt(before, ToLe32(v), after);
    Le32RoundTrip(v);
  }

  lemma WordFirst(v: uint32, after: seq<byte>)
    ensures (ToLe32(v) + after)[..4] == ToLe32(v) && (ToLe32(v) + after)[4..] == after
    ensures FromLe32((ToLe32(v) + after)[..4]) == v
  {
    hide ToLe32, FromLe32;
    Le32RoundTrip(v);
  }

  /** The prefix of a record at its fixed offsets. */
  lemma PrefixLayout(index: nat, p: CapturedPacket)
    ensures var r := RecordPrefix(index, p);
      && |r| == 20
      && r[..4] == (if p.direction.C2S? then [0x43, 0x4D, 0x53, 0x47] else [0x53, 0x4D, 0x53, 0x47])
      && FromLe32(r[4..8]) == p.connectionId && FromLe32(r[8..12]) == index % U32_SIZE
      && FromLe32(r[12..16]) == 20 && FromLe32(r[16..20]) == (|p.body| + 4) % U32_SIZE
  {
    DirectionWords();
    hide ToLe32, FromLe32;
    var e := ToLe32(LengthField(p.body));
    var d := ToLe32(20) + e;
    var c := ToLe32(index % U32_SIZE) + d;
    var b := ToLe32(p.connectionId) + c;
    var r := ToLe32(DirectionRaw(p.direction)) + b;
    assert e + [] == e;
    WordFirst(DirectionRaw(p.direction), b);
    WordFirst(p.connectionId, c);
    WordFirst(index % U32_SIZE, d);
    WordFirst(20, e);
    Le32RoundTrip(LengthField(p.body));
    assert r[4..8] == b[..4] && r[8..12] == c[..4] && r[12..16] == d[..4] && r[16..20] == e;
  }

  /** Behind it: twenty zero bytes, the opcode and the body. */
  lemma RecordLayout(index: nat, p: CapturedPacket)
    ensures var r := RecordBytes(index, p);
      && r[..20] == RecordPrefix(index, p) && |r| == 44 + |p.body|
      && r[20..40] == Zeros(20) && FromLe32(r[40..44]) == p.opcode && r[44..] == p.body
  {
    PrefixLayout(index, p);
    hide ToLe32, FromLe32, RecordPrefix;
    var tail := ToLe32(p.opcode) + p.body;
    var r := RecordPrefix(index, p) + (Zeros(20) + tail);
    WordFirst(p.opcode, p.body);
    assert r[40..] == tail && r[40..44] == tail[..4] && r[44..] == tail[4..];
  }

  function RecordsBytes(index: nat, ps: seq<CapturedPacket>): seq<byte>
    decreases |ps|
  {
    if ps == [] then [] else RecordBytes(index, ps[0]) + RecordsBytes(index + 1, ps[1..])
  }

  lemma RecordAppended(before: seq<byte>, index: nat, p: CapturedPacket)
    ensures before + ToLe32(DirectionRaw(p.direction)) + ToLe32(p.connectionId) + ToLe32(index % U32_SIZE) + ToLe32(20)
              + ToLe32(LengthField(p.body)) + Zeros(20) + ToLe32(p.opcode) + p.body
         == before + RecordBytes(index, p)
  {
    hide ToLe32, LengthField, DirectionRaw;
    FiveAppended(before, ToLe32(DirectionRaw(p.direction)), ToLe32(p.connectionId), ToLe32(index % U32_SIZE),
                 ToLe32(20), ToLe32(LengthField(p.body)));
    ThreeAppended(before + RecordPrefix(index, p), Zeros(20), ToLe32(p.opcode), p.body);
    assert before + RecordPrefix(index, p) + RecordPayload(p) == before + RecordBytes(index, p);
  }

  lemma FiveAppended<T>(o: seq<T>, a: seq<T>, b: seq<T>, c: seq<T>, d: seq<T>, e: seq<T>)
    ensures o + a + b + c + d + e == o + (a + (b + (c + (d + e))))
  {
    ThreeAppended(o + a + b, c, d, e);
    assert o + a + b + (c + (d + e)) == o + (a + (b + (c + (d + e))));
  }

  lemma ThreeAppended<T>(o: seq<T>, a: seq<T>, b: seq<T>, c: seq<T>)
    ensures o + a + b + c == o + (a + (b + c))
  {
  }

  /** The log so far, completed by the records still to write. */
  ghost predicate WrittenSoFar(ps: seq<CapturedPacket>, index: nat, out: seq<byte>) {
    index <= |ps| && out + RecordsBytes(index, ps[index..]) == LogHeader() + RecordsBytes(0, ps)
  }

  lemma WrittenOneMore(ps: seq<CapturedPacket>, index: nat, out: seq<byte>)
    requires index < |ps| && WrittenSoFar(ps, index, out)
    ensures WrittenSoFar(ps, index + 1, out + RecordBytes(index, ps[index]))
  {
    hide LogHeader, RecordBytes;
    assert ps[index..][1..] == ps[index + 1..];
    var rest := RecordsBytes(index + 1, ps[index + 1..]);
    assert out + RecordBytes(index, ps[index]) + rest == out + (RecordBytes(index, ps[index]) + rest);
  }

  method WritePktBytes(capture: Capture) returns (out: seq<byte>)
    ensures out == LogHeader() + RecordsBytes(0, capture.packets)
  {
    hide ToLe32, LogHeader;
    out := LogHeader();
    assert capture.packets[0..] == capture.packets;
    for index := 0 to |capture.packets|
      invariant WrittenSoFar(capture.packets, index, out)
    {
      hide WrittenSoFar, RecordBytes;
      var pkt := capture.packets[index];
      WrittenOneMore(capture.packets, index, out);
      RecordAppended(out, index, pkt);
      out := out + ToLe32(if pkt.direction.C2S? then DIR_CMSG else DIR_SMSG);
      out := out + ToLe32(pkt.connectionId);
      out := out + ToLe32(index % U32_SIZE);
      out := out + ToLe32(20);
      out := out + ToLe32((|pkt.body| % U32_SIZE + 4) % U32_SIZE);
      out := out + Zeros(20);
      out := out + ToLe32(pkt.opcode);
      out := out + pkt.body;
    }
    assert out + [] == out;
  }

  // ---------------------------------------------------------------------
  // Round trip
  // ---------------------------------------------------------------------

  lemma TakeWritten(b: seq<byte>, rest: seq<byte>)
    ensures Take(b + rest, |b|) == Ok((b, rest))
  {
    assert (b + rest)[..|b|] == b && (b + rest)[|b|..] == rest;
  }

  lemma U32Written(v: uint32, rest: seq<byte>)
    ensures U32(ToLe32(v) + rest) == Ok((v, rest))
  {
    TakeWritten(ToLe32(v), rest);
    Le32RoundTrip(v);
  }

  lemma PrefixWritten(index: nat, p: CapturedPacket, rest: seq<byte>)
    ensures ReadRecordHeader(RecordPrefix(index, p) + rest)
         == Ok((RecordHeader(p.direction, p.connectionId, 20, LengthField(p.body)), rest))
  {
    hide U32, ToLe32, LengthField;
    var r4 := ToLe32(LengthField(p.body)) + rest;
    var r3 := ToLe32(20) + r4;
    var r2 := ToLe32(index % U32_SIZE) + r3;
    var r1 := ToLe32(p.connectionId) + r2;
    assert RecordPrefix(index, p) + rest == ToLe32(DirectionRaw(p.direction)) + r1;
    U32Written(DirectionRaw(p.direction), r1);
    U32Written(p.connectionId, r2);
    U32Written(index % U32_SIZE, r3);
    U32Written(20, r4);
    U32Written(LengthField(p.body), rest);
  }

  /** What the parser makes of one written record: it trusts the length field. */
  lemma RecordWritten(index: nat, p: CapturedPacket, rest: seq<byte>)
    ensures var n := LengthField(p.body); var tail := p.body + rest;
      ReadRecord(RecordBytes(index, p) + rest) ==
        if n < 4 then Err(LengthTooSmall)
        else if |tail| < n - 4 then Err(UnexpectedEnd)
        else Ok((p.(body := tail[..n - 4]), tail[n - 4..]))
  {
    hide U32, ToLe32, ReadRecordHeader, RecordPrefix, LengthField;
    var tail := p.body + rest;
    var r1 := ToLe32(p.opcode) + tail;
    assert RecordBytes(index, p) + rest == RecordPrefix(index, p) + (RecordPayload(p) + rest);
    PrefixWritten(index, p, RecordPayload(p) + rest);
    assert RecordPayload(p) + rest == Zeros(20) + r1;
    TakeWritten(Zeros(20), r1);
    U32Written(p.opcode, tail);
  }

  predicate Fits(p: CapturedPacket) {
    |p.body| + 4 < U32_SIZE
  }

  lemma LengthFieldExact(body: seq<byte>)
    ensures LengthField(body) == |body| + 4 <==> |body| + 4 < U32_SIZE
    ensures LengthField(body) <= |body| + 4
  {
  }

  lemma {:induction false} RecordsRoundTrip(index: nat, ps: seq<CapturedPacket>)
    ensures ReadRecords(RecordsBytes(index, ps)) == Ok(ps) <==> forall p :: p in ps ==> Fits(p)
    decreases |ps|
  {
    hide ReadRecord, RecordBytes;
    if ps != [] {
      var p, rest := ps[0], RecordsBytes(index + 1, ps[1..]);
      RecordsRoundTrip(index + 1, ps[1..]);
      RecordWritten(index, p, rest);
      LengthFieldExact(p.body);
      RecordNotEmpty(index, p);
      assert ps == [p] + ps[1..];
      if Fits(p) {
        var n := LengthField(p.body);
        assert (p.body + rest)[..n - 4] == p.body && (p.body + rest)[n - 4..] == rest;
        var tail := ReadRecords(rest);
        if tail.Ok? && [p] + tail.value == ps {
          assert ([p] + tail.value)[1..] == tail.value;
        }
      } else {
        var r := ReadRecord(RecordBytes(index, p) + rest);
        if r.Ok? {
          assert |r.value.0.body| < |p.body|;
          var tail := ReadRecords(r.value.1);
          if tail.Ok? {
            assert ([r.value.0] + tail.value)[0] != ps[0];
          }
        }
        assert p in ps;
      }
    }
  }

  lemma RecordNotEmpty(index: nat, p: CapturedPacket)
    ensures |RecordBytes(index, p)| > 0
  {
  }

  lemma HeaderWritten(rest: seq<byte>)
    ensures FileHeader(LogHeader() + rest) == Ok(rest)
  {
    hide ToLe32, FromLe32;
    var skipped := [0x54] + ToLe32(49741) + [0x65, 0x6E, 0x55, 0x53] + Zeros(40) + ToLe32(0) + ToLe32(0);
    var r2 := skipped + (ToLe32(0) + rest);
    var r1 := ToLe16(FORMAT_VERSION_3_1) + r2;
    assert LogHeader() + rest == SIGNATURE + r1;
    TakeWritten(SIGNATURE, r1);
    TakeWritten(ToLe16(FORMAT_VERSION_3_1), r2);
    TakeWritten(skipped, ToLe32(0) + rest);
    U32Written(0, rest);
    TakeWritten([], rest);
    assert [] + rest == rest;
  }

  /** Writing then parsing gives the packets back exactly when every length fits its 32-bit field. */
  lemma PktRoundTrip(capture: Capture)
    ensures ParsePkt(LogHeader() + RecordsBytes(0, capture.packets)) == Ok(capture.packets) <==>
      forall p :: p in capture.packets ==> Fits(p)
  {
    HeaderWritten(RecordsBytes(0, capture.packets));
    RecordsRoundTrip(0, capture.packets);
  }
}
