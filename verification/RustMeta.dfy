/** The `.meta` sidecar of one dumped packet (rustdump.rs). */
module RustMeta {
  import opened Common
  import opened CaptureModel
  import opened Text
  import opened Utf8

  datatype DumpError =
    | NotText | MalformedLine | UnknownField | NonCanonicalValue | RepeatedField | MissingField
    | BadDirection | BadAddress | BadNumber | UnsupportedConnection | LengthTooSmall | BadOpcode | UnsafeName
    | StemDisagrees
    | UnexpectedFile | BadStem | InvalidRaceReport | NoMetaFiles | UnpairedFiles
    | SequenceOverflow | NonContiguousSequence | LengthMismatch | OpcodeMismatch

  /** What lies outside the dump: address syntax, the opcode names, and the race-bot report check. */
  datatype Env = Env(
    validAddress: string -> bool, opcodeName: (Direction, uint16) -> string, reportValid: bool)

  datatype Meta = Meta(
    direction: Direction, connectionId: uint32, seqNo: uint64, len: nat, opcode: uint16)

  const META_KEYS: seq<string> :=
    ["direction", "connection_id", "addr", "seq", "counter", "opcode", "name", "len"]

  // ---------------------------------------------------------------------
  // Lines and fields
  // ---------------------------------------------------------------------

  /** Index of the first `c`, or the length. */
  function IndexOf(s: string, c: char): (i: nat)
    ensures i <= |s| && (i < |s| ==> s[i] == c)
    ensures forall k :: 0 <= k < i ==> s[k] != c
  {
    if s == "" || s[0] == c then 0 else 1 + IndexOf(s[1..], c)
  }

  /** `str::lines`: `\n` or `\r\n` ends a line, and the last line need not be ended. */
  function Lines(s: string): seq<string>
    decreases |s|
  {
    if s == "" then []
    else
      var i := IndexOf(s, '\n');
      if i == |s| then [s]
      else
        var line := s[..i];
        [if line != "" && line[|line| - 1] == '\r' then line[..|line| - 1] else line] + Lines(s[i + 1..])
  }

  /** What a line end leaves of the line before it. */
  function WithoutReturn(line: string): string {
    if line != "" && line[|line| - 1] == '\r' then line[..|line| - 1] else line
  }

  /** Text is read line by line; the last line needs no end and keeps a final carriage return. */
  lemma LinesByEnding(line: string, rest: string)
    requires '\n' !in line
    ensures Lines("") == []
    ensures line != "" ==> Lines(line) == [line]
    ensures Lines(line + "\n" + rest) == [WithoutReturn(line)] + Lines(rest)
  {
    var s := line + "\n" + rest;
    FirstAt(line, '\n', |line|);
    assert s[|line|] == '\n' && forall k :: 0 <= k < |line| ==> s[k] == line[k];
    FirstAt(s, '\n', |line|);
    assert s[..|line|] == line && s[|line| + 1..] == rest;
  }

  lemma FirstAt(s: string, c: char, i: nat)
    requires i <= |s| && (i < |s| ==> s[i] == c) && forall k :: 0 <= k < i ==> s[k] != c
    ensures IndexOf(s, c) == i
  {
    hide IndexOf;
  }

  /** Starts or ends with whitespace, or is empty. */
  predicate IsUntidy(value: string) {
    value == "" || IsWhitespace(value[0]) || IsWhitespace(value[|value| - 1])
  }

  type Fields = map<string, string>

  /** The fields after reading the remaining lines. */
  function ParseFields(lines: seq<string>, fields: Fields): Result<Fields, DumpError> {
    if lines == [] then Ok(fields)
    else
      var line := lines[0];
      var at := IndexOf(line, '=');
      if at == |line| then Err(MalformedLine)
      else
        var key, value := line[..at], line[at + 1..];
        if key !in META_KEYS then Err(UnknownField)
        else if IsUntidy(value) then Err(NonCanonicalValue)
        else if key in fields then Err(RepeatedField)
        else ParseFields(lines[1..], fields[key := value])
  }

  method ReadFields(text: string) returns (r: Result<Fields, DumpError>)
    ensures r == ParseFields(Lines(text), map[])
  {
    hide IsUntidy;
    var lines := Lines(text);
    var fields: Fields := map[];
    var i := 0;
    while i < |lines|
      invariant 0 <= i <= |lines|
      invariant ParseFields(lines[i..], fields) == ParseFields(lines, map[])
    {
      var line := lines[i];
      assert lines[i..][0] == line && lines[i..][1..] == lines[i + 1..];
      var at := IndexOf(line, '=');
      if at == |line| {
        return Err(MalformedLine);
      }
      var key, value := line[..at], line[at + 1..];
      if key !in META_KEYS {
        return Err(UnknownField);
      }
      if IsUntidy(value) {
        return Err(NonCanonicalValue);
      }
      if key in fields {
        return Err(RepeatedField);
      }
      fields := fields[key := value];
      i := i + 1;
    }
    return Ok(fields);
  }

  // ---------------------------------------------------------------------
  // Numbers
  // ---------------------------------------------------------------------

  /** `str::parse` of an unsigned type: one optional plus sign, then decimal digits in range. */
  function ParseUnsigned(s: string, limit: nat): (r: Option<nat>)
    ensures r.Some? ==> r.value < limit
  {
    var digits := if s != "" && s[0] == '+' then s[1..] else s;
    if digits == "" || !AllDigits(digits) || DecimalValue(digits) >= limit then None else Some(DecimalValue(digits))
  }

  /** `u16::from_str_radix(_, 16)` */
  function ParseHex16(s: string): (r: Option<uint16>) {
    var digits := if s != "" && s[0] == '+' then s[1..] else s;
    if digits == "" || !AllHex(digits) || HexNumber(digits) >= 0x1_0000 then None else Some(HexNumber(digits))
  }

  lemma ParseDecimal(n: nat, limit: nat)
    requires n < limit
    ensures ParseUnsigned(Decimal(n), limit) == Some(n)
  {
    assert IsDigit(Decimal(n)[0]);
    DecimalRoundTrip(n);
  }

  lemma ParseHex4(v: uint16)
    ensures ParseHex16(Hex4(v)[2..]) == Some(v)
  {
    hide Hex4, HexValue;
    Hex4Digits(v);
    var d := Hex4(v)[2..];
    HexNumberPrefix(d, 0);
    HexNumberPrefix(d, 1);
    HexNumberPrefix(d, 2);
    HexNumberPrefix(d, 3);
    assert d[..4] == d;
    PlusIsNotHex(d[0]);
  }

  lemma HexNumberPrefix(d: string, k: nat)
    requires AllHex(d) && k < |d|
    ensures HexNumber(d[..k + 1]) == 16 * HexNumber(d[..k]) + HexValue(d[k]).value
    ensures k == 0 ==> HexNumber(d[..k]) == 0
  {
    assert d[..k + 1][..k] == d[..k];
  }

  lemma PlusIsNotHex(c: char)
    requires HexValue(c).Some?
    ensures c != '+'
  {
  }

  // ---------------------------------------------------------------------
  // The sidecar
  // ---------------------------------------------------------------------

  function TagDirection(tag: string): Option<Direction> {
    if tag == "c2s" || tag == "c2s-unencrypted" then Some(C2S)
    else if tag == "s2c" || tag == "s2c-unencrypted" then Some(S2C)
    else None
  }

  function Tag(direction: Direction): string {
    match direction
    case C2S => "c2s"
    case S2C => "s2c"
  }

  predicate IsNameChar(c: char) {
    'a' <= c <= 'z' || 'A' <= c <= 'Z' || '0' <= c <= '9' || c == '_'
  }

  lemma NameChars(c: char)
    ensures IsNameChar(c) <==> c in LOWER + UPPER + DIGITS + {'_'}
  {
    CharacterRanges(c);
  }

  predicate IsSafeName(name: string) {
    forall i :: 0 <= i < |name| ==> IsNameChar(name[i])
  }

  function Stem(tag: string, seqNo: nat, counter: nat, opcode: uint16, name: string, len: nat): string {
    "rust-" + tag + "-" + PadZeros(Decimal(seqNo), 8) + "-counter" + Decimal(counter) + "-" + Hex4(opcode)
    + "-" + name + "-len" + Decimal(len)
  }

  predicate HasAllKeys(fields: Fields) {
    && "direction" in fields && "connection_id" in fields && "addr" in fields && "seq" in fields
    && "counter" in fields && "opcode" in fields && "name" in fields && "len" in fields
  }

  function OpcodeOf(text: string): Option<uint16> {
    if |text| < 2 || text[..2] != "0x" then None
    else
      var parsed := ParseHex16(text[2..]);
      if parsed.None? || text != Hex4(parsed.value) then None else parsed
  }

  function Number(text: string, limit: nat): (r: Result<nat, DumpError>)
    ensures r.Ok? ==> r.value < limit
  {
    var n := ParseUnsigned(text, limit);
    if n.None? then Err(BadNumber) else Ok(n.value)
  }

  /** The checks on the eight fields, in the source's order. */
  function MetaOfFields(env: Env, fields: Fields, stem: string): Result<Meta, DumpError>
    requires HasAllKeys(fields)
  {
    var tag := fields["direction"];
    var direction := TagDirection(tag);
    if direction.None? then Err(BadDirection)
    else if !env.validAddress(fields["addr"]) then Err(BadAddress)
    else
      var connectionId :- Number(fields["connection_id"], U32_SIZE);
      if connectionId > 1 then Err(UnsupportedConnection)
      else
        var seqNo :- Number(fields["seq"], USIZE_SIZE);
        var counter :- Number(fields["counter"], USIZE_SIZE);
        var len :- Number(fields["len"], USIZE_SIZE);
        if len < 2 then Err(LengthTooSmall)
        else
          var opcode := OpcodeOf(fields["opcode"]);
          if opcode.None? then Err(BadOpcode)
          else if !IsSafeName(fields["name"]) then Err(UnsafeName)
          else if stem != Stem(tag, seqNo, counter, opcode.value, fields["name"], len) then Err(StemDisagrees)
          else Ok(Meta(direction.value, connectionId, seqNo, len, opcode.value))
  }

  function MetaOf(env: Env, data: seq<byte>, stem: string): Result<Meta, DumpError> {
    var text := Decode(data);
    if text.None? then Err(NotText)
    else
      var fields :- ParseFields(Lines(text.value), map[]);
      if !HasAllKeys(fields) then Err(MissingField) else MetaOfFields(env, fields, stem)
  }

  // ---------------------------------------------------------------------
  // Writing a sidecar and reading it back
  // ---------------------------------------------------------------------

  datatype Field = Field(key: string, value: string)

  function FieldLine(f: Field): string {
    f.key + "=" + f.value
  }

  /** `key=value\n` for each field. */
  function TextOf(fields: seq<Field>): string {
    if fields == [] then "" else FieldLine(fields[0]) + "\n" + TextOf(fields[1..])
  }

  function AsMap(fields: seq<Field>, base: Fields): Fields {
    if fields == [] then base else AsMap(fields[1..], base[fields[0].key := fields[0].value])
  }

  /** Known keys, none of them twice or already present, with values that neither start nor end in whitespace. */
  predicate TidyFields(fields: seq<Field>, base: Fields) {
    && (forall i :: 0 <= i < |fields| ==>
          fields[i].key in META_KEYS && !IsUntidy(fields[i].value) && fields[i].key !in base)
    && (forall i, j :: 0 <= i < j < |fields| ==> fields[i].key != fields[j].key)
  }

  predicate OneLineEach(fields: seq<Field>) {
    forall i :: 0 <= i < |fields| ==> '\n' !in fields[i].value
  }

  function FieldLines(fields: seq<Field>): seq<string> {
    if fields == [] then [] else [FieldLine(fields[0])] + FieldLines(fields[1..])
  }

  lemma IndexOfAt(s: string, c: char, rest: string)
    requires c !in s
    ensures IndexOf(s + [c] + rest, c) == |s|
  {
    var t := s + [c] + rest;
    assert t[|s|] == c;
    assert forall k :: 0 <= k < |s| ==> t[k] == s[k];
  }

  lemma KeysHaveNoDelimiter(key: string)
    requires key in META_KEYS
    ensures '=' !in key && '\n' !in key
  {
  }

  lemma LinesOfField(f: Field, rest: string)
    requires f.key in META_KEYS && !IsUntidy(f.value) && '\n' !in f.value
    ensures Lines(FieldLine(f) + "\n" + rest) == [FieldLine(f)] + Lines(rest)
  {
    hide IsWhitespace;
    var line := FieldLine(f);
    var s := line + ['\n'] + rest;
    KeysHaveNoDelimiter(f.key);
    IndexOfAt(line, '\n', rest);
    CarriageReturnIsWhitespace();
    assert line[|line| - 1] == f.value[|f.value| - 1];
    assert s[..|line|] == line && s[|line| + 1..] == rest;
  }

  lemma CarriageReturnIsWhitespace()
    ensures IsWhitespace('\r')
  {
  }

  lemma {:induction false} LinesOfText(fields: seq<Field>, base: Fields)
    requires TidyFields(fields, base) && OneLineEach(fields)
    ensures Lines(TextOf(fields)) == FieldLines(fields)
  {
    hide Lines, IsUntidy, FieldLine;
    if fields == [] {
      NoLines();
    } else {
      LinesOfField(fields[0], TextOf(fields[1..]));
      TailIsTidy(fields, base);
      LinesOfText(fields[1..], base[fields[0].key := fields[0].value]);
    }
  }

  lemma NoLines()
    ensures Lines("") == []
  {
  }

  lemma TailIsTidy(fields: seq<Field>, base: Fields)
    requires fields != [] && TidyFields(fields, base)
    ensures TidyFields(fields[1..], base[fields[0].key := fields[0].value])
    ensures fields[0].key in META_KEYS && !IsUntidy(fields[0].value) && fields[0].key !in base
    ensures OneLineEach(fields) ==> OneLineEach(fields[1..])
  {
    hide IsUntidy;
  }

  /** The two parts of a field's line, around its first equals sign. */
  lemma SplitField(f: Field)
    requires f.key in META_KEYS
    ensures var line, at := FieldLine(f), IndexOf(FieldLine(f), '=');
      at == |f.key| < |line| && line[..at] == f.key && line[at + 1..] == f.value
  {
    var line := FieldLine(f);
    KeysHaveNoDelimiter(f.key);
    assert line == f.key + ['='] + f.value;
    IndexOfAt(f.key, '=', f.value);
  }

  /** Lines that spell tidy fields are read as those fields. */
  lemma {:induction false} FieldsRead(fields: seq<Field>, base: Fields)
    requires TidyFields(fields, base)
    ensures ParseFields(FieldLines(fields), base) == Ok(AsMap(fields, base))
    decreases |fields|
  {
    hide IsUntidy, FieldLine;
    if fields != [] {
      var f := fields[0];
      var lines := FieldLines(fields);
      assert lines[0] == FieldLine(f) && lines[1..] == FieldLines(fields[1..]);
      SplitField(f);
      TailIsTidy(fields, base);
      FieldsRead(fields[1..], base[f.key := f.value]);
    }
  }

  /** Written fields are read back. */
  lemma FieldsReadBack(fields: seq<Field>, base: Fields)
    requires TidyFields(fields, base) && OneLineEach(fields)
    ensures ParseFields(Lines(TextOf(fields)), base) == Ok(AsMap(fields, base))
  {
    hide TidyFields, OneLineEach;
    LinesOfText(fields, base);
    FieldsRead(fields, base);
  }

  lemma {:induction false} AsMapKeeps(fields: seq<Field>, base: Fields, key: string)
    requires forall i :: 0 <= i < |fields| ==> fields[i].key != key
    ensures key in base ==> key in AsMap(fields, base) && AsMap(fields, base)[key] == base[key]
  {
    if fields != [] {
      AsMapKeeps(fields[1..], base[fields[0].key := fields[0].value], key);
    }
  }

  lemma {:induction false} AsMapLookup(fields: seq<Field>, base: Fields, i: nat)
    requires i < |fields| && forall a, b :: 0 <= a < b < |fields| ==> fields[a].key != fields[b].key
    ensures fields[i].key in AsMap(fields, base) && AsMap(fields, base)[fields[i].key] == fields[i].value
  {
    var f := fields[0];
    if i == 0 {
      AsMapKeeps(fields[1..], base[f.key := f.value], f.key);
    } else {
      AsMapLookup(fields[1..], base[f.key := f.value], i - 1);
    }
  }

  /** The sidecar of packet number `n`, whose file holds `len` bytes. */
  function MetaFields(packet: CapturedPacket, name: string, n: nat, len: nat): seq<Field> {
    [Field("direction", Tag(packet.direction)), Field("connection_id", Decimal(packet.connectionId)),
     Field("addr", "127.0.0.1:0"), Field("seq", Decimal(n)), Field("counter", Decimal(n)),
     Field("opcode", Hex4(packet.opcode)), Field("name", name), Field("len", Decimal(len))]
  }

  function MetaText(packet: CapturedPacket, name: string, n: nat, len: nat): string {
    TextOf(MetaFields(packet, name, n, len))
  }

  lemma KeyLine(key: string, opening: string, value: string, rest: string)
    requires key + "=" == opening
    ensures FieldLine(Field(key, value)) + "\n" + rest == opening + value + "\n" + rest
  {
  }

  /** One more line of the sidecar, in front of the lines already spelled out. */
  lemma LineSpelled(fields: seq<Field>, i: nat, opening: string, rest: string)
    requires i < |fields| && fields[i].key + "=" == opening && TextOf(fields[i + 1..]) == rest
    ensures TextOf(fields[i..]) == opening + fields[i].value + "\n" + rest
  {
    hide FieldLine, TextOf;
    TextOfRest(fields, i);
    KeyLine(fields[i].key, opening, fields[i].value, rest);
  }

  lemma Openings()
    ensures "direction" + "=" == "direction=" && "connection_id" + "=" == "connection_id=" && "addr" + "=" == "addr="
    ensures "seq" + "=" == "seq=" && "counter" + "=" == "counter=" && "opcode" + "=" == "opcode="
    ensures "name" + "=" == "name=" && "len" + "=" == "len="
  {
  }

  lemma NoMoreLines(fields: seq<Field>)
    ensures TextOf(fields[|fields|..]) == ""
  {
  }

  /** The sidecar as the source formats it. */
  lemma SidecarFormat(packet: CapturedPacket, name: string, n: nat, len: nat)
    ensures MetaText(packet, name, n, len)
      == "direction=" + Tag(packet.direction) + "\n" + ("connection_id=" + Decimal(packet.connectionId) + "\n"
         + ("addr=" + "127.0.0.1:0" + "\n" + ("seq=" + Decimal(n) + "\n" + ("counter=" + Decimal(n) + "\n"
         + ("opcode=" + Hex4(packet.opcode) + "\n" + ("name=" + name + "\n" + ("len=" + Decimal(len) + "\n" + "")))))))
  {
    var f := MetaFields(packet, name, n, len);
    FieldsListed(packet, name, n, len);
    Openings();
    NoMoreLines(f);
    WholeSuffix(f);
    hide Tag, Decimal, Hex4, TextOf, FieldLine, MetaFields;
    var t7 := "len=" + Decimal(len) + "\n" + "";
    var t6 := "name=" + name + "\n" + t7;
    var t5 := "opcode=" + Hex4(packet.opcode) + "\n" + t6;
    var t4 := "counter=" + Decimal(n) + "\n" + t5;
    var t3 := "seq=" + Decimal(n) + "\n" + t4;
    var t2 := "addr=" + "127.0.0.1:0" + "\n" + t3;
    var t1 := "connection_id=" + Decimal(packet.connectionId) + "\n" + t2;
    LineSpelled(f, 7, "len=", "");
    LineSpelled(f, 6, "name=", t7);
    LineSpelled(f, 5, "opcode=", t6);
    LineSpelled(f, 4, "counter=", t5);
    LineSpelled(f, 3, "seq=", t4);
    LineSpelled(f, 2, "addr=", t3);
    LineSpelled(f, 1, "connection_id=", t2);
    LineSpelled(f, 0, "direction=", t1);
  }

  lemma WholeSuffix(fields: seq<Field>)
    ensures fields[0..] == fields
  {
  }

  lemma FieldsListed(packet: CapturedPacket, name: string, n: nat, len: nat)
    ensures var f := MetaFields(packet, name, n, len);
      && |f| == 8
      && f[0] == Field("direction", Tag(packet.direction)) && f[1] == Field("connection_id", Decimal(packet.connectionId))
      && f[2] == Field("addr", "127.0.0.1:0") && f[3] == Field("seq", Decimal(n)) && f[4] == Field("counter", Decimal(n))
      && f[5] == Field("opcode", Hex4(packet.opcode)) && f[6] == Field("name", name) && f[7] == Field("len", Decimal(len))
  {
    hide Tag, Decimal, Hex4;
  }

  lemma TextOfRest(fields: seq<Field>, i: nat)
    requires i < |fields|
    ensures TextOf(fields[i..]) == FieldLine(fields[i]) + "\n" + TextOf(fields[i + 1..])
  {
    assert fields[i..][1..] == fields[i + 1..];
  }

  lemma DecimalIsTidy(n: nat)
    ensures !IsUntidy(Decimal(n)) && '\n' !in Decimal(n)
  {
    var s := Decimal(n);
    assert IsDigit(s[0]) && IsDigit(s[|s| - 1]);
  }

  lemma HexIsTidy(v: uint16)
    ensures !IsUntidy(Hex4(v)) && '\n' !in Hex4(v)
  {
    hide Hex4, HexValue;
    Hex4Digits(v);
    var s := Hex4(v);
    assert s[2..][0] == s[2] && s[2..][1] == s[3] && s[2..][2] == s[4] && s[2..][3] == s[5];
    assert s[..2][0] == s[0] && s[..2][1] == s[1];
    HexIsNotSpace(s[2]);
    HexIsNotSpace(s[3]);
    HexIsNotSpace(s[4]);
    HexIsNotSpace(s[5]);
  }

  lemma HexIsNotSpace(c: char)
    requires HexValue(c).Some?
    ensures !IsWhitespace(c) && c != '\n'
  {
  }

  lemma NameIsTidy(name: string)
    requires name != "" && IsSafeName(name)
    ensures !IsUntidy(name) && '\n' !in name
  {
    assert IsNameChar(name[0]) && IsNameChar(name[|name| - 1]);
  }

  lemma MetaFieldsAreTidy(packet: CapturedPacket, name: string, n: nat, len: nat)
    requires name != "" && IsSafeName(name)
    ensures TidyFields(MetaFields(packet, name, n, len), map[]) && OneLineEach(MetaFields(packet, name, n, len))
  {
    hide IsWhitespace, IsUntidy, Hex4, Decimal;
    var fields := MetaFields(packet, name, n, len);
    DecimalIsTidy(packet.connectionId);
    DecimalIsTidy(n);
    DecimalIsTidy(len);
    HexIsTidy(packet.opcode);
    NameIsTidy(name);
    LiteralsAreTidy(packet.direction);
    forall i | 0 <= i < |fields|
      ensures fields[i].key in META_KEYS && !IsUntidy(fields[i].value) && '\n' !in fields[i].value
    {
      assert fields[i].key == META_KEYS[i];
    }
    forall i, j | 0 <= i < j < |fields|
      ensures fields[i].key != fields[j].key
    {
      assert fields[i].key == META_KEYS[i] && fields[j].key == META_KEYS[j];
      KeysAreDistinct(i, j);
    }
  }

  lemma KeysAreDistinct(i: nat, j: nat)
    requires i < j < 8
    ensures META_KEYS[i] != META_KEYS[j]
  {
    var k := META_KEYS;
    assert |k[0]| == 9 && |k[1]| == 13 && |k[2]| == 4 && |k[3]| == 3 && |k[4]| == 7 && |k[5]| == 6 && |k[6]| == 4 && |k[7]| == 3;
    assert k[2][0] == 'a' && k[6][0] == 'n' && k[3][0] == 's' && k[7][0] == 'l';
  }

  lemma LiteralsAreTidy(direction: Direction)
    ensures !IsUntidy(Tag(direction)) && '\n' !in Tag(direction)
    ensures !IsUntidy("127.0.0.1:0") && '\n' !in "127.0.0.1:0"
  {
  }

  /** The eight values of a written sidecar, by key. */
  lemma WrittenFields(packet: CapturedPacket, name: string, n: nat, len: nat)
    ensures var m := AsMap(MetaFields(packet, name, n, len), map[]);
      && HasAllKeys(m)
      && m["direction"] == Tag(packet.direction) && m["connection_id"] == Decimal(packet.connectionId)
      && m["addr"] == "127.0.0.1:0" && m["seq"] == Decimal(n) && m["counter"] == Decimal(n)
      && m["opcode"] == Hex4(packet.opcode) && m["name"] == name && m["len"] == Decimal(len)
  {
    hide AsMap;
    var fields := MetaFields(packet, name, n, len);
    forall i, j | 0 <= i < j < |fields|
      ensures fields[i].key != fields[j].key
    {
      assert fields[i].key == META_KEYS[i] && fields[j].key == META_KEYS[j];
      KeysAreDistinct(i, j);
    }
    AsMapLookup(fields, map[], 0);
    AsMapLookup(fields, map[], 1);
    AsMapLookup(fields, map[], 2);
    AsMapLookup(fields, map[], 3);
    AsMapLookup(fields, map[], 4);
    AsMapLookup(fields, map[], 5);
    AsMapLookup(fields, map[], 6);
    AsMapLookup(fields, map[], 7);
  }

  function WrittenStem(packet: CapturedPacket, name: string, n: nat, len: nat): string {
    Stem(Tag(packet.direction), n, n, packet.opcode, name, len)
  }

  lemma WrittenOpcode(v: uint16)
    ensures OpcodeOf(Hex4(v)) == Some(v)
  {
    ParseHex4(v);
  }

  /** A written sidecar is read back exactly when its connection id is one the world server uses. */
  lemma MetaReadsBack(env: Env, packet: CapturedPacket, name: string, n: nat, len: nat)
    requires env.validAddress("127.0.0.1:0") && name != "" && IsSafeName(name)
    requires n < USIZE_SIZE && 2 <= len < USIZE_SIZE
    ensures MetaOf(env, Encode(MetaText(packet, name, n, len)), WrittenStem(packet, name, n, len))
      == if packet.connectionId > 1 then Err(UnsupportedConnection)
         else Ok(Meta(packet.direction, packet.connectionId, n, len, packet.opcode))
  {
    hide ParseFields, Lines, Decode, Encode, AsMap, Hex4, Decimal, OpcodeOf, ParseUnsigned, HasAllKeys;
    DecodeEncode(MetaText(packet, name, n, len));
    MetaFieldsAreTidy(packet, name, n, len);
    FieldsReadBack(MetaFields(packet, name, n, len), map[]);
    WrittenFields(packet, name, n, len);
    ParseDecimal(packet.connectionId, U32_SIZE);
    ParseDecimal(n, USIZE_SIZE);
    ParseDecimal(len, USIZE_SIZE);
    WrittenOpcode(packet.opcode);
    TagReadsBack(packet.direction);
  }

  lemma TagReadsBack(direction: Direction)
    ensures TagDirection(Tag(direction)) == Some(direction)
  {
  }
}
