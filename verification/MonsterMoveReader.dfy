/**
 * The cursor-driven reader of main.rs that accepts or rejects a movement body.
 * It builds no message; it only advances through the body, and it is proved to
 * accept exactly the canonical encodings of the grammar.
 */
module MonsterMoveReader {
  import opened Common
  import opened MonsterMove

  /** A read succeeded exactly when the grammar's parser does, and stopped where it stops. */
  ghost predicate Follows<T>(ok: bool, next: nat, body: seq<byte>, p: Parsed<T>) {
    ok == p.Some? && (ok ==> next <= |body| && body[next..] == p.value.1)
  }

  method MonsterTake(body: seq<byte>, cursor: nat, len: nat) returns (r: Option<seq<byte>>, next: nat)
    requires cursor <= |body| <= ISIZE_MAX
    ensures Follows(r.Some?, next, body, TakeBytes(len, body[cursor..]))
    ensures r.Some? ==> r.value == TakeBytes(len, body[cursor..]).value.0
  {
    var end := cursor + len;
    if end >= USIZE_SIZE || end > |body| {
      return None, cursor;
    }
    assert body[cursor..][..len] == body[cursor..end] && body[cursor..][len..] == body[end..];
    return Some(body[cursor..end]), end;
  }

  method MonsterReadU32(body: seq<byte>, cursor: nat) returns (r: Option<uint32>, next: nat)
    requires cursor <= |body| <= ISIZE_MAX
    ensures Follows(r.Some?, next, body, ParseU32(body[cursor..]))
    ensures r.Some? ==> r.value == ParseU32(body[cursor..]).value.0
  {
    var bytes;
    bytes, next := MonsterTake(body, cursor, 4);
    if bytes.None? {
      return None, next;
    }
    return Some(FromLe32(bytes.value)), next;
  }

  method MonsterReadF32(body: seq<byte>, cursor: nat) returns (ok: bool, next: nat)
    requires cursor <= |body| <= ISIZE_MAX
    ensures Follows(ok, next, body, ParseFloat(body[cursor..]))
  {
    var bits;
    bits, next := MonsterReadU32(body, cursor);
    ok := bits.Some? && IsFinite(bits.value);
  }

  /** The repeated f32 reads of the source, as one loop. */
  method MonsterReadFloats(body: seq<byte>, cursor: nat, count: nat) returns (ok: bool, next: nat)
    requires cursor <= |body| <= ISIZE_MAX
    ensures Follows(ok, next, body, ParseFloats(count, body[cursor..]))
  {
    ok, next := true, cursor;
    var i := 0;
    while i < count
      invariant 0 <= i <= count && next <= |body|
      invariant ParseFloats(count, body[cursor..]).Some? <==> ParseFloats(count - i, body[next..]).Some?
      invariant ParseFloats(count, body[cursor..]).Some? ==>
        ParseFloats(count, body[cursor..]).value.1 == ParseFloats(count - i, body[next..]).value.1
    {
      ok, next := MonsterReadF32(body, next);
      if !ok {
        return;
      }
      i := i + 1;
    }
    ok := true;
  }

  /** `Some(nonEmpty)` for a canonical packed GUID. */
  method MonsterReadPackedGuid(body: seq<byte>, cursor: nat) returns (r: Option<bool>, next: nat)
    requires cursor <= |body| <= ISIZE_MAX
    ensures Follows(r.Some?, next, body, ParseGuid(body[cursor..]))
    ensures r.Some? ==> r.value == NonEmptyParsed(body[cursor..])
  {
    var lowMask, highMask, encoded;
    lowMask, next := MonsterTake(body, cursor, 1);
    if lowMask.None? {
      return None, next;
    }
    highMask, next := MonsterTake(body, next, 1);
    if highMask.None? {
      return None, next;
    }
    assert body[cursor..][..2] == [lowMask.value[0], highMask.value[0]];
    assert body[next..] == body[cursor..][2..];
    var encodedLen := CountOnes(lowMask.value[0], 8) + CountOnes(highMask.value[0], 8);
    encoded, next := MonsterTake(body, next, encodedLen);
    if encoded.None? || exists k :: 0 <= k < |encoded.value| && encoded.value[k] == 0 {
      return None, next;
    }
    return Some(lowMask.value[0] != 0 || highMask.value[0] != 0), next;
  }

  method ReadPlacement(body: seq<byte>) returns (ok: bool, next: nat)
    requires |body| <= ISIZE_MAX
    ensures Follows(ok, next, body, ParsePlacement(body))
  {
    hide ParseGuid, ParseFloats, ParseU32;
    var guid, id;
    assert body[0..] == body;
    guid, next := MonsterReadPackedGuid(body, 0);
    if guid != Some(true) {
      return false, next;
    }
    ok, next := MonsterReadFloats(body, next, 3);
    if !ok {
      return;
    }
    id, next := MonsterReadU32(body, next);
    if id.None? {
      return false, next;
    }
    ok, next := MonsterReadFloats(body, next, 3);
  }

  method ReadTransit(body: seq<byte>, cursor: nat) returns (ok: bool, next: nat)
    requires cursor <= |body| <= ISIZE_MAX
    ensures Follows(ok, next, body, ParseTransit(body[cursor..]))
  {
    hide ParseGuid;
    var bits, data, guid, seat;
    bits, next := MonsterTake(body, cursor, 1);
    if bits.None? {
      return false, next;
    }
    if bits.value[0] % 16 != 0 {
      return false, next;
    }
    data, next := MonsterTake(body, next, 17);
    if data.None? {
      return false, next;
    }
    guid, next := MonsterReadPackedGuid(body, next);
    if guid.None? {
      return false, next;
    }
    seat, next := MonsterTake(body, next, 1);
    ok := seat.Some?;
  }

  function SaturatingMul(x: nat, y: nat): nat {
    if x * y < USIZE_SIZE then x * y else USIZE_SIZE - 1
  }

  method ReadFilter(body: seq<byte>, cursor: nat) returns (ok: bool, next: nat)
    requires cursor <= |body| <= ISIZE_MAX
    ensures Follows(ok, next, body, ParseFilter(body[cursor..]))
  {
    hide ParseU32, ParseFloat;
    var count, offset, added, keys, flags;
    count, next := MonsterReadU32(body, cursor);
    if count.None? {
      return false, next;
    }
    ok, next := MonsterReadF32(body, next);
    if !ok {
      return;
    }
    offset, next := MonsterTake(body, next, 2);
    if offset.None? {
      return false, next;
    }
    ok, next := MonsterReadF32(body, next);
    if !ok {
      return;
    }
    added, next := MonsterTake(body, next, 2);
    if added.None? {
      return false, next;
    }
    keys, next := MonsterTake(body, next, SaturatingMul(count.value, 4));
    if keys.None? {
      return false, next;
    }
    flags, next := MonsterTake(body, next, 1);
    ok := flags.Some? && flags.value[0] % 64 == 0;
  }

  method ReadFace(body: seq<byte>, cursor: nat, face: nat) returns (ok: bool, next: nat)
    requires cursor <= |body| <= ISIZE_MAX
    ensures Follows(ok, next, body, ParseFace(face, body[cursor..]))
  {
    hide ParseFloat, ParseFloats, ParseGuid;
    next := cursor;
    if face == 0 {
      ok := true;
    } else if face == 1 {
      ok, next := MonsterReadFloats(body, next, 3);
    } else if face == 2 {
      ok, next := MonsterReadF32(body, next);
      if ok {
        var guid;
        guid, next := MonsterReadPackedGuid(body, next);
        ok := guid.Some?;
      }
    } else if face == 3 {
      ok, next := MonsterReadF32(body, next);
    } else {
      ok := false;
    }
  }

  method ReadPath(body: seq<byte>, cursor: nat, h: SplineHeader) returns (ok: bool, next: nat)
    requires cursor <= |body| <= ISIZE_MAX && h.Valid()
    ensures Follows(ok, next, body, ParsePath(h, body[cursor..]))
  {
    hide ParseFilter, ParseFace, ParseFloats;
    next := cursor;
    if h.filter != 0 {
      ok, next := ReadFilter(body, next);
      if !ok {
        return;
      }
    }
    ok, next := ReadFace(body, next, h.face);
    if !ok {
      return;
    }
    ok, next := MonsterReadFloats(body, next, SaturatingMul(h.points, 3));
    if !ok {
      return;
    }
    var deltas;
    deltas, next := MonsterTake(body, next, SaturatingMul(h.deltas, 4));
    ok := deltas.Some?;
  }

  method ReadSpell(body: seq<byte>, cursor: nat, present: bool) returns (ok: bool, next: nat)
    requires cursor <= |body| <= ISIZE_MAX
    ensures Follows(ok, next, body, ParseSpell(present, body[cursor..]))
  {
    hide ParseFloat, ParseGuid;
    ok, next := true, cursor;
    if present {
      var guid, data;
      guid, next := MonsterReadPackedGuid(body, next);
      if guid.None? {
        return false, next;
      }
      data, next := MonsterTake(body, next, 12);
      if data.None? {
        return false, next;
      }
      ok, next := MonsterReadF32(body, next);
    }
  }

  method ReadExtras(body: seq<byte>, cursor: nat, h: SplineHeader) returns (ok: bool, next: nat)
    requires cursor <= |body| <= ISIZE_MAX && h.Valid()
    ensures Follows(ok, next, body, ParseExtras(h, body[cursor..]))
  {
    hide ParseSpell, ParseFloat;
    var data;
    ok, next := ReadSpell(body, cursor, h.spell != 0);
    if !ok {
      return;
    }
    if h.jump != 0 {
      ok, next := MonsterReadF32(body, next);
      if !ok {
        return;
      }
      data, next := MonsterTake(body, next, 8);
      if data.None? {
        return false, next;
      }
    }
    if h.anim != 0 {
      data, next := MonsterTake(body, next, 13);
      if data.None? {
        return false, next;
      }
    }
    ok := true;
  }

  /** Accepts exactly the canonical movement bodies. */
  method ValidMonsterMoveBody(body: seq<byte>) returns (ok: bool)
    requires |body| <= ISIZE_MAX
    ensures ok <==> Canonical(body)
  {
    hide ParsePlacement, ParseTransit, ParsePath, ParseExtras;
    CanonicalIffParsesToTheEnd(body);
    var cursor;
    ok, cursor := ReadPlacement(body);
    if !ok {
      return;
    }
    ok, cursor := ReadTransit(body, cursor);
    if !ok {
      return;
    }
    var bits;
    bits, cursor := MonsterTake(body, cursor, 5);
    if bits.None? {
      return false;
    }
    var h := DecodeHeader(HeaderValue(bits.value));
    ok, cursor := ReadPath(body, cursor, h);
    if !ok {
      return;
    }
    ok, cursor := ReadExtras(body, cursor, h);
    if !ok {
      return;
    }
    ok := cursor == |body|;
  }
}
