/** What accepting a `.meta` sidecar means, independently of how it is read. */
module RustSidecar {
  import opened Common
  import opened CaptureModel
  import opened Text
  import opened Utf8
  import opened RustMeta

  // ---------------------------------------------------------------------
  // What a sidecar says
  // ---------------------------------------------------------------------

  /** The eight values describe this packet, and with the counter spell the file stem. */
  predicate Describes(env: Env, fields: Fields, stem: string, meta: Meta, counter: nat)
    requires HasAllKeys(fields)
  {
    && TagDirection(fields["direction"]) == Some(meta.direction)
    && env.validAddress(fields["addr"])
    && ParseUnsigned(fields["connection_id"], U32_SIZE) == Some(meta.connectionId) && meta.connectionId <= 1
    && ParseUnsigned(fields["seq"], USIZE_SIZE) == Some(meta.seqNo)
    && ParseUnsigned(fields["counter"], USIZE_SIZE) == Some(counter)
    && ParseUnsigned(fields["len"], USIZE_SIZE) == Some(meta.len) && meta.len >= 2
    && fields["opcode"] == Hex4(meta.opcode)
    && IsSafeName(fields["name"])
    && stem == Stem(fields["direction"], meta.seqNo, counter, meta.opcode, fields["name"], meta.len)
  }

  /** The lines are those of these fields: each key once, in some order, none missing. */
  ghost predicate Spells(text: string, fields: seq<Field>) {
    Lines(text) == FieldLines(fields) && TidyFields(fields, map[]) && HasAllKeys(AsMap(fields, map[]))
  }

  /** The bytes are UTF-8 text whose eight fields describe `meta` under this stem. */
  ghost predicate IsSidecar(env: Env, data: seq<byte>, stem: string, meta: Meta) {
    exists text, fields, counter ::
      data == Encode(text) && Spells(text, fields) && Describes(env, AsMap(fields, map[]), stem, meta, counter)
  }

  // ---------------------------------------------------------------------
  // Reading decides exactly that
  // ---------------------------------------------------------------------

  /** The fields behind lines that were read without an error. */
  lemma {:induction false} FieldsFound(lines: seq<string>, base: Fields) returns (fields: seq<Field>)
    requires ParseFields(lines, base).Ok?
    ensures lines == FieldLines(fields) && TidyFields(fields, base)
    ensures ParseFields(lines, base).value == AsMap(fields, base)
    decreases |lines|
  {
    hide IsUntidy, TidyFields, IndexOf;
    if lines == [] {
      NoFieldsAreTidy(base);
      return [];
    }
    var line := lines[0];
    var at := IndexOf(line, '=');
    var f := Field(line[..at], line[at + 1..]);
    var rest := FieldsFound(lines[1..], base[f.key := f.value]);
    LineOfField(line, at);
    FirstIsTidy(f, rest, base);
    fields := [f] + rest;
    assert fields[1..] == rest;
  }

  lemma LineOfField(line: string, at: nat)
    requires at < |line| && line[at] == '='
    ensures FieldLine(Field(line[..at], line[at + 1..])) == line
  {
  }

  lemma NoFieldsAreTidy(base: Fields)
    ensures TidyFields([], base)
  {
  }

  lemma FirstIsTidy(f: Field, rest: seq<Field>, base: Fields)
    requires f.key in META_KEYS && !IsUntidy(f.value) && f.key !in base && TidyFields(rest, base[f.key := f.value])
    ensures TidyFields([f] + rest, base)
  {
    hide IsUntidy;
    var fields := [f] + rest;
    assert forall i :: 1 <= i < |fields| ==> fields[i] == rest[i - 1];
  }

  /** An opcode text is accepted exactly when it is the canonical rendering. */
  lemma OpcodeIff(text: string, opcode: uint16)
    ensures OpcodeOf(text) == Some(opcode) <==> text == Hex4(opcode)
  {
    hide Hex4, ParseHex16;
    WrittenOpcode(opcode);
  }

  lemma FieldsDescribe(env: Env, fields: Fields, stem: string, meta: Meta)
    requires HasAllKeys(fields)
    ensures MetaOfFields(env, fields, stem) == Ok(meta) <==> exists counter :: Describes(env, fields, stem, meta, counter)
  {
    hide ParseUnsigned, OpcodeOf, Hex4, Stem, TagDirection, IsSafeName;
    OpcodeIff(fields["opcode"], meta.opcode);
    var counter := ParseUnsigned(fields["counter"], USIZE_SIZE);
    if MetaOfFields(env, fields, stem) == Ok(meta) {
      assert Describes(env, fields, stem, meta, counter.value);
    }
    if counter.Some? {
      assert forall other :: Describes(env, fields, stem, meta, other) ==> other == counter.value;
    }
  }

  /** A sidecar is accepted as `meta` exactly when that is what it says. */
  lemma MetaIffSidecar(env: Env, data: seq<byte>, stem: string)
    ensures forall meta :: MetaOf(env, data, stem) == Ok(meta) <==> IsSidecar(env, data, stem, meta)
  {
    hide MetaOf, IsSidecar;
    forall meta
      ensures MetaOf(env, data, stem) == Ok(meta) <==> IsSidecar(env, data, stem, meta)
    {
      if MetaOf(env, data, stem) == Ok(meta) {
        AcceptedIsSidecar(env, data, stem, meta);
      }
      if IsSidecar(env, data, stem, meta) {
        SidecarIsAccepted(env, data, stem, meta);
      }
    }
  }

  lemma AcceptedIsSidecar(env: Env, data: seq<byte>, stem: string, meta: Meta)
    requires MetaOf(env, data, stem) == Ok(meta)
    ensures IsSidecar(env, data, stem, meta)
  {
    hide Decode, Encode, Lines, ParseFields, HasAllKeys, MetaOfFields, Describes, AsMap, FieldLines, TidyFields;
    var text := Decode(data).value;
    EncodeDecode(data);
    var fields := FieldsFound(Lines(text), map[]);
    var values := AsMap(fields, map[]);
    FieldsDescribe(env, values, stem, meta);
    var counter :| Describes(env, values, stem, meta, counter);
    assert Spells(text, fields);
  }

  lemma SidecarIsAccepted(env: Env, data: seq<byte>, stem: string, meta: Meta)
    requires IsSidecar(env, data, stem, meta)
    ensures MetaOf(env, data, stem) == Ok(meta)
  {
    hide Decode, Encode, Lines, ParseFields, HasAllKeys, MetaOfFields, Describes, AsMap, FieldLines, TidyFields;
    var text, fields, counter :|
      data == Encode(text) && Spells(text, fields) && Describes(env, AsMap(fields, map[]), stem, meta, counter);
    DecodeEncode(text);
    FieldsRead(fields, map[]);
    FieldsDescribe(env, AsMap(fields, map[]), stem, meta);
  }

  /** `parse_meta`: accepts exactly the sidecars of this stem, as what they say. */
  method ParseMeta(env: Env, data: seq<byte>, stem: string) returns (r: Result<Meta, DumpError>)
    ensures r == MetaOf(env, data, stem)
    ensures forall meta :: r == Ok(meta) <==> IsSidecar(env, data, stem, meta)
  {
    hide MetaOfFields, HasAllKeys, ParseFields, IsSidecar;
    MetaIffSidecar(env, data, stem);
    var text := Decode(data);
    if text.None? {
      return Err(NotText);
    }
    var fields :- ReadFields(text.value);
    if !HasAllKeys(fields) {
      return Err(MissingField);
    }
    return MetaOfFields(env, fields, stem);
  }

  // ---------------------------------------------------------------------
  // The stem alone fixes the packet's place and shape
  // ---------------------------------------------------------------------

  /** What follows the direction tag, segment by segment. */
  function StemTail(seqNo: nat, counter: nat, opcode: uint16, name: string, len: nat): string {
    PadZeros(Decimal(seqNo), 8) + ['-']
    + (("counter" + Decimal(counter)) + ['-'] + (Hex4(opcode) + ['-'] + (name + ['-'] + ("len" + Decimal(len)))))
  }

  lemma StemIsTail(tag: string, seqNo: nat, counter: nat, opcode: uint16, name: string, len: nat)
    ensures Stem(tag, seqNo, counter, opcode, name, len)
      == "rust-" + tag + "-" + StemTail(seqNo, counter, opcode, name, len)
  {
    hide PadZeros, Decimal, Hex4;
    assert "-counter" == ['-'] + "counter" && "-len" == ['-'] + "len";
  }

  lemma SegmentsHaveNoDash(n: nat, opcode: uint16, name: string)
    requires IsSafeName(name)
    ensures '-' !in PadZeros(Decimal(n), 8) && '-' !in "counter" + Decimal(n) && '-' !in Hex4(opcode) && '-' !in name
  {
    HexHasNoDash(opcode);
  }

  lemma HexHasNoDash(v: uint16)
    ensures '-' !in Hex4(v)
  {
    hide HexDigit;
    var d0, d1, d2, d3 := v / 0x1000, (v / 0x100) % 16, (v / 16) % 16, v % 16;
    DigitIsNoDash(d0);
    DigitIsNoDash(d1);
    DigitIsNoDash(d2);
    DigitIsNoDash(d3);
  }

  lemma DigitIsNoDash(d: int)
    requires 0 <= d < 16
    ensures HexDigit(d) != '-'
  {
  }

  lemma TailDetermines(n: nat, a: nat, v: uint16, name: string, len: nat, m: nat, b: nat, w: uint16, other: string, size: nat)
    requires IsSafeName(name) && IsSafeName(other)
    requires StemTail(n, a, v, name, len) == StemTail(m, b, w, other, size)
    ensures n == m && v == w && len == size
  {
    hide PadZeros, Decimal, Hex4, IsSafeName;
    SegmentsHaveNoDash(n, v, name);
    SegmentsHaveNoDash(m, w, other);
    SegmentsHaveNoDash(a, v, name);
    SegmentsHaveNoDash(b, w, other);
    var y, z := name + ['-'] + ("len" + Decimal(len)), other + ['-'] + ("len" + Decimal(size));
    var s, t := Hex4(v) + ['-'] + y, Hex4(w) + ['-'] + z;
    SplitAtDelimiter(PadZeros(Decimal(n), 8), PadZeros(Decimal(m), 8), '-',
                     ("counter" + Decimal(a)) + ['-'] + s, ("counter" + Decimal(b)) + ['-'] + t);
    SplitAtDelimiter("counter" + Decimal(a), "counter" + Decimal(b), '-', s, t);
    SplitAtDelimiter(Hex4(v), Hex4(w), '-', y, z);
    SplitAtDelimiter(name, other, '-', "len" + Decimal(len), "len" + Decimal(size));
    assert ("len" + Decimal(len))[3..] == Decimal(len) && ("len" + Decimal(size))[3..] == Decimal(size);
    DecimalInjective(len, size);
    HexDetermines(v, w);
    PadZerosValue(Decimal(n), 8);
    PadZerosValue(Decimal(m), 8);
    DecimalRoundTrip(n);
    DecimalRoundTrip(m);
  }

  lemma HexDetermines(v: uint16, w: uint16)
    requires Hex4(v) == Hex4(w)
    ensures v == w
  {
    hide Hex4, ParseHex16;
    WrittenOpcode(v);
    WrittenOpcode(w);
  }

  /** Two tags followed by digits: equal texts have equal tags. */
  lemma TagsAgree(tag: string, other: string, a: string, b: string)
    requires TagDirection(tag).Some? && TagDirection(other).Some? && a != "" && b != "" && IsDigit(a[0]) && IsDigit(b[0])
    requires "rust-" + tag + "-" + a == "rust-" + other + "-" + b
    ensures tag == other && a == b
  {
    var s, t := "rust-" + tag + "-" + a, "rust-" + other + "-" + b;
    assert s[6 + |tag|] == a[0] && t[6 + |other|] == b[0];
    assert forall i :: 0 <= i < |tag| ==> s[5 + i] == tag[i];
    assert forall i :: 0 <= i < |other| ==> t[5 + i] == other[i];
    assert |tag| == |other|;
    assert s[5..5 + |tag|] == tag && t[5..5 + |other|] == other;
    assert s[6 + |tag|..] == a && t[6 + |other|..] == b;
  }

  /** Sidecars accepted under one stem agree on direction, sequence number, length and opcode. */
  lemma StemDetermines(env: Env, data: seq<byte>, other: seq<byte>, stem: string, a: Meta, b: Meta)
    requires IsSidecar(env, data, stem, a) && IsSidecar(env, other, stem, b)
    ensures a.direction == b.direction && a.seqNo == b.seqNo && a.len == b.len && a.opcode == b.opcode
  {
    hide StemTail, Spells, Encode, TagDirection, IsSafeName, Stem, ParseUnsigned;
    var f, i := DescribedBy(env, data, stem, a);
    var g, j := DescribedBy(env, other, stem, b);
    StemIsTail(f["direction"], a.seqNo, i, a.opcode, f["name"], a.len);
    StemIsTail(g["direction"], b.seqNo, j, b.opcode, g["name"], b.len);
    TailStartsWithDigit(a.seqNo, i, a.opcode, f["name"], a.len);
    TailStartsWithDigit(b.seqNo, j, b.opcode, g["name"], b.len);
    TagsAgree(f["direction"], g["direction"],
              StemTail(a.seqNo, i, a.opcode, f["name"], a.len), StemTail(b.seqNo, j, b.opcode, g["name"], b.len));
    TailDetermines(a.seqNo, i, a.opcode, f["name"], a.len, b.seqNo, j, b.opcode, g["name"], b.len);
  }

  lemma DescribedBy(env: Env, data: seq<byte>, stem: string, meta: Meta) returns (fields: Fields, counter: nat)
    requires IsSidecar(env, data, stem, meta)
    ensures HasAllKeys(fields) && Describes(env, fields, stem, meta, counter)
  {
    var text, list, n :|
      data == Encode(text) && Spells(text, list) && Describes(env, AsMap(list, map[]), stem, meta, n);
    fields, counter := AsMap(list, map[]), n;
  }

  lemma TailStartsWithDigit(seqNo: nat, counter: nat, opcode: uint16, name: string, len: nat)
    ensures var tail := StemTail(seqNo, counter, opcode, name, len); tail != "" && IsDigit(tail[0])
  {
    hide PadZeros, Decimal, Hex4;
    assert IsDigit(PadZeros(Decimal(seqNo), 8)[0]);
  }
}
