/**
 * The hand-written lexer of hotspot_metrics.py that blanks Rust comments and
 * literals without moving any byte, and its delimiter matcher.
 */
module RustMask {
  import opened Common
  import opened RustLexemes

  /** Every byte but the line ends becomes a space. */
  function BlankByte(b: byte): byte {
    if b == LF || b == CR then b else SPACE
  }

  /** Blanking keeps line feeds and carriage returns, and turns every other byte into a space. */
  lemma BlankKeepsLineEndsOnly(b: byte)
    ensures BlankByte(b) == b <==> b == 0x0A || b == 0x0D || b == 0x20
    ensures BlankByte(b) != b ==> BlankByte(b) == 0x20
  {
  }

  function Blank(s: seq<byte>): (r: seq<byte>)
    ensures |r| == |s| && forall i :: 0 <= i < |r| ==> r[i] == BlankByte(s[i])
  {
    seq(|s|, i requires 0 <= i < |s| => BlankByte(s[i]))
  }

  /** The masked text from the cursor on. */
  function Masked(s: seq<byte>, cursor: nat): (r: seq<byte>)
    requires cursor <= |s|
    ensures |r| == |s| - cursor
    decreases |s| - cursor
  {
    if cursor == |s| then []
    else
      var end := RegionEnd(s, cursor);
      if end.Some? then Blank(s[cursor..end.value]) + Masked(s, end.value)
      else [s[cursor]] + Masked(s, cursor + 1)
  }

  // ---------------------------------------------------------------------
  // The lexer
  // ---------------------------------------------------------------------

  /** `masked[start:end] = masked[start:end].translate(...)` */
  method BlankRustNoncode(masked: array<byte>, start: nat, end: nat)
    requires start <= end <= masked.Length
    modifies masked
    ensures masked[..] == old(masked[..start]) + Blank(old(masked[start..end])) + old(masked[end..])
  {
    var i := start;
    while i < end
      invariant start <= i <= end
      invariant forall k :: 0 <= k < start || i <= k < masked.Length ==> masked[k] == old(masked[k])
      invariant forall k :: start <= k < i ==> masked[k] == BlankByte(old(masked[k]))
    {
      masked[i] := BlankByte(masked[i]);
      i := i + 1;
    }
  }

  /** The prefix loop: the first of `br`, `cr`, `r` found at `start` gives the length. */
  method RawPrefixLength(source: seq<byte>, start: nat) returns (prefixLength: nat)
    ensures prefixLength == RawPrefix(source, start)
  {
    prefixLength := 0;
    var prefixes: seq<seq<byte>> := [[LOWER_B, LOWER_R], [LOWER_C, LOWER_R], [LOWER_R]];
    var p := 0;
    while p < 3
      invariant 0 <= p <= 3 && prefixLength == 0
      invariant p >= 1 ==> !StartsWith(source, [LOWER_B, LOWER_R], start)
      invariant p >= 2 ==> !StartsWith(source, [LOWER_C, LOWER_R], start)
      invariant p >= 3 ==> !StartsWith(source, [LOWER_R], start)
    {
      hide StartsWith;
      if StartsWith(source, prefixes[p], start) {
        prefixLength := |prefixes[p]|;
        return;
      }
      p := p + 1;
    }
  }

  /** Finds the end of the raw string that starts here: the first matching terminator, or the end of the text. */
  method RustRawStringEnd(source: seq<byte>, start: nat) returns (r: Option<nat>)
    requires start < |source|
    ensures r == RawStringEnd(source, start)
    ensures forall end: nat :: r == Some(end) <==> IsRawString(source, start, end)
  {
    hide StartsWith, Find, IsRawString;
    RawStringIff(source, start);
    if start > 0 && IsIdentifierByte(source[start - 1]) {
      return None;
    }
    var prefixLength := RawPrefixLength(source, start);
    if prefixLength == 0 {
      return None;
    }
    var cursor := start + prefixLength;
    while cursor < |source| && source[cursor] == HASH
      invariant start + prefixLength <= cursor <= |source|
      invariant SkipHashes(source, cursor) == SkipHashes(source, start + prefixLength)
    {
      cursor := cursor + 1;
    }
    assert cursor == SkipHashes(source, start + prefixLength);
    var hashes := source[start + prefixLength..cursor];
    if cursor >= |source| || source[cursor] != QUOTE {
      return None;
    }
    var terminator := [QUOTE] + hashes;
    var closing := Find(source, terminator, cursor + 1);
    r := if closing.None? then Some(|source|) else Some(closing.value + |terminator|);
  }

  /** Finds the end of the character literal that starts here; a lifetime or a lone apostrophe has none. */
  method RustCharLiteralEnd(source: seq<byte>, start: nat) returns (r: Option<nat>)
    requires start < |source|
    ensures r == CharLiteralEnd(source, start)
    ensures forall end: nat :: r == Some(end) <==> start < end <= |source| && IsCharTail(source[start + 1..end])
  {
    hide IsCharTail;
    CharLiteralIff(source, start);
    var cursor := start + 1;
    if cursor >= |source| || source[cursor] == LF || source[cursor] == CR {
      return None;
    }
    if source[cursor] == BACKSLASH {
      cursor := cursor + 1;
      if cursor >= |source| {
        return None;
      }
      if source[cursor] == LOWER_X {
        cursor := cursor + 3;
      } else if source[cursor] == LOWER_U && cursor + 1 < |source| {
        if source[cursor + 1] != OPEN_BRACE {
          return None;
        }
        var closing := Find(source, [CLOSE_BRACE], cursor + 2);
        if closing.None? {
          return None;
        }
        cursor := closing.value + 1;
      } else {
        cursor := cursor + 1;
      }
    } else {
      var first := source[cursor];
      if first < 0x80 {
        cursor := cursor + 1;
      } else if 0xC0 <= first < 0xE0 {
        cursor := cursor + 2;
      } else if 0xE0 <= first < 0xF0 {
        cursor := cursor + 3;
      } else if 0xF0 <= first < 0xF8 {
        cursor := cursor + 4;
      } else {
        return None;
      }
    }
    if cursor < |source| && source[cursor] == APOSTROPHE {
      return Some(cursor + 1);
    }
    return None;
  }

  method SkipBlockComment(original: seq<byte>, start: nat) returns (end: nat)
    requires start + 2 <= |original|
    ensures end == BlockCommentEnd(original, start + 2, 1)
  {
    hide StartsWith;
    var depth := 1;
    end := start + 2;
    while end < |original| && depth != 0
      invariant 0 <= end <= |original| && depth >= 0
      invariant BlockCommentEnd(original, end, depth) == BlockCommentEnd(original, start + 2, 1)
      decreases |original| - end
    {
      if StartsWith(original, [SLASH, STAR], end) {
        depth := depth + 1;
        end := end + 2;
      } else if StartsWith(original, [STAR, SLASH], end) {
        depth := depth - 1;
        end := end + 2;
      } else {
        end := end + 1;
      }
    }
  }

  method SkipString(original: seq<byte>, start: nat) returns (end: nat)
    requires start < |original|
    ensures end == StringEnd(original, start + 1)
  {
    end := start + 1;
    while end < |original|
      invariant start + 1 <= end <= |original|
      invariant StringEnd(original, end) == StringEnd(original, start + 1)
    {
      if original[end] == BACKSLASH {
        end := if end + 2 <= |original| then end + 2 else |original|;
      } else if original[end] == QUOTE {
        end := end + 1;
        return;
      } else {
        end := end + 1;
      }
    }
  }

  /** The region test of one iteration of the main loop. */
  method NextRegion(original: seq<byte>, cursor: nat) returns (end: Option<nat>)
    requires cursor < |original|
    ensures end == RegionEnd(original, cursor)
  {
    if StartsWith(original, [SLASH, SLASH], cursor) {
      var newline := Find(original, [LF], cursor + 2);
      return Some(if newline.None? then |original| else newline.value);
    }
    if StartsWith(original, [SLASH, STAR], cursor) {
      var e := SkipBlockComment(original, cursor);
      return Some(e);
    }
    if original[cursor] in {LOWER_B, LOWER_C, LOWER_R} {
      var rawEnd := RustRawStringEnd(original, cursor);
      if rawEnd.Some? {
        return rawEnd;
      }
    }
    if original[cursor] == QUOTE {
      var e := SkipString(original, cursor);
      return Some(e);
    }
    if original[cursor] == APOSTROPHE {
      end := RustCharLiteralEnd(original, cursor);
      return;
    }
    return None;
  }

  /** The text beyond the cursor is still the original: taking `n` more bytes of it. */
  lemma TakeOriginal(s: seq<byte>, cursor: nat, end: nat, done: seq<byte>)
    requires cursor <= end <= |s| && |done| == cursor
    ensures var text := done + s[cursor..];
      && |text| == |s| && text[..cursor] == done && text[cursor..end] == s[cursor..end] && text[end..] == s[end..]
      && text == (done + s[cursor..end]) + s[end..]
  {
    var text := done + s[cursor..];
    assert forall i :: cursor <= i < |s| ==> text[i] == s[i];
  }

  /** What one iteration appends to the finished text. */
  function MaskedRegion(s: seq<byte>, cursor: nat): (r: seq<byte>)
    requires cursor < |s|
    ensures |r| > 0 && cursor + |r| <= |s|
  {
    var end := RegionEnd(s, cursor);
    if end.Some? then Blank(s[cursor..end.value]) else [s[cursor]]
  }

  lemma MaskedUnfolds(s: seq<byte>, cursor: nat)
    requires cursor < |s|
    ensures Masked(s, cursor) == MaskedRegion(s, cursor) + Masked(s, cursor + |MaskedRegion(s, cursor)|)
  {
    hide RegionEnd, Blank, Masked;
    if RegionEnd(s, cursor).Some? {
      MaskedAtRegion(s, cursor);
    } else {
      MaskedAtCode(s, cursor);
    }
  }

  lemma MaskedAtRegion(s: seq<byte>, cursor: nat)
    requires cursor < |s| && RegionEnd(s, cursor).Some?
    ensures var end := RegionEnd(s, cursor).value;
      && Masked(s, cursor) == Blank(s[cursor..end]) + Masked(s, end)
      && |Blank(s[cursor..end])| == end - cursor
  {
    hide RegionEnd, Blank;
  }

  lemma MaskedAtCode(s: seq<byte>, cursor: nat)
    requires cursor < |s| && RegionEnd(s, cursor).None?
    ensures Masked(s, cursor) == [s[cursor]] + Masked(s, cursor + 1)
  {
    hide RegionEnd, Blank;
  }

  /** One iteration: blank the region at the cursor, if one starts there, and move past it. */
  method MaskStep(original: seq<byte>, masked: array<byte>, cursor: nat, ghost done: seq<byte>) returns (next: nat)
    requires |done| == cursor < |original| == masked.Length
    requires masked[..] == done + original[cursor..]
    modifies masked
    ensures next == cursor + |MaskedRegion(original, cursor)|
    ensures masked[..] == (done + MaskedRegion(original, cursor)) + original[next..]
  {
    hide RegionEnd, Blank, Masked;
    var end := NextRegion(original, cursor);
    if end.Some? {
      next := end.value;
      TakeOriginal(original, cursor, next, done);
      BlankRustNoncode(masked, cursor, next);
    } else {
      next := cursor + 1;
      TakeOriginal(original, cursor, next, done);
      assert original[cursor..next] == [original[cursor]];
    }
  }

  method CopyOf(original: seq<byte>) returns (masked: array<byte>)
    ensures fresh(masked) && masked[..] == original
  {
    masked := new byte[|original|](i requires 0 <= i < |original| => original[i]);
  }

  method MaskRustNoncode(original: seq<byte>) returns (r: seq<byte>)
    ensures r == Masked(original, 0)
  {
    hide *;
    var masked := CopyOf(original);
    var cursor := 0;
    ghost var done: seq<byte> := [];
    assert original[0..] == original;
    while cursor < |original|
      invariant 0 <= cursor <= |original| && |done| == cursor
      invariant masked.Length == |original| && masked[..] == done + original[cursor..]
      invariant done + Masked(original, cursor) == Masked(original, 0)
    {
      ghost var region := MaskedRegion(original, cursor);
      MaskedUnfolds(original, cursor);
      cursor := MaskStep(original, masked, cursor, done);
      assert (done + region) + Masked(original, cursor) == done + (region + Masked(original, cursor));
      done := done + region;
    }
    r := masked[..];
  }

  // ---------------------------------------------------------------------
  // What the masked text guarantees
  // ---------------------------------------------------------------------

  /** Nothing moves: a byte is kept, or it is blanked and was not a line end. */
  predicate KeepsOffsets(s: seq<byte>, cursor: nat, m: seq<byte>) {
    cursor + |m| == |s| && forall i :: 0 <= i < |m| ==> m[i] == s[cursor + i] || m[i] == BlankByte(s[cursor + i])
  }

  lemma KeepsOffsetsAppend(s: seq<byte>, cursor: nat, next: nat, region: seq<byte>, tail: seq<byte>)
    requires cursor <= next <= |s| && |region| == next - cursor
    requires forall i :: 0 <= i < |region| ==> region[i] == s[cursor + i] || region[i] == BlankByte(s[cursor + i])
    requires KeepsOffsets(s, next, tail)
    ensures KeepsOffsets(s, cursor, region + tail)
  {
    hide BlankByte;
    var m := region + tail;
    forall i | 0 <= i < |m|
      ensures m[i] == s[cursor + i] || m[i] == BlankByte(s[cursor + i])
    {
      if i >= |region| {
        var j := i - |region|;
        assert m[i] == tail[j] && s[cursor + i] == s[next + j];
      }
    }
  }

  lemma {:induction false} MaskKeepsOffsets(s: seq<byte>, cursor: nat)
    requires cursor <= |s|
    ensures KeepsOffsets(s, cursor, Masked(s, cursor))
    decreases |s| - cursor
  {
    hide RegionEnd, BlankByte, Masked;
    if cursor < |s| {
      var region := MaskedRegion(s, cursor);
      var next := cursor + |region|;
      MaskedUnfolds(s, cursor);
      MaskKeepsOffsets(s, next);
      KeepsOffsetsAppend(s, cursor, next, region, Masked(s, next));
    }
  }

  /** Length, line structure and offsets survive, and every change is to a space. */
  lemma MaskPreservesLayout(s: seq<byte>)
    ensures |Masked(s, 0)| == |s|
    ensures forall i :: 0 <= i < |s| ==> Masked(s, 0)[i] == s[i] || Masked(s, 0)[i] == SPACE
    ensures forall i :: 0 <= i < |s| ==>
      (Masked(s, 0)[i] == LF <==> s[i] == LF) && (Masked(s, 0)[i] == CR <==> s[i] == CR)
  {
    hide Masked;
    MaskKeepsOffsets(s, 0);
  }

  /** A double quote, or the two bytes that open a comment. */
  predicate OpensRegion(m: seq<byte>, i: nat)
    requires i < |m|
  {
    m[i] == QUOTE || (m[i] == SLASH && i + 1 < |m| && (m[i + 1] == SLASH || m[i + 1] == STAR))
  }

  predicate NothingOpens(m: seq<byte>) {
    forall i :: 0 <= i < |m| ==> !OpensRegion(m, i)
  }

  lemma NothingOpensInBlank(s: seq<byte>, tail: seq<byte>)
    requires NothingOpens(tail)
    ensures NothingOpens(Blank(s) + tail)
  {
    var m := Blank(s) + tail;
    forall i | 0 <= i < |m|
      ensures !OpensRegion(m, i)
    {
      if i >= |s| {
        assert !OpensRegion(tail, i - |s|);
      }
    }
  }

  lemma NothingOpensInCode(b: byte, tail: seq<byte>)
    requires NothingOpens(tail) && b != QUOTE
    requires b == SLASH && tail != [] ==> tail[0] != SLASH && tail[0] != STAR
    ensures NothingOpens([b] + tail)
  {
    var m := [b] + tail;
    forall i | 0 <= i < |m|
      ensures !OpensRegion(m, i)
    {
      if i >= 1 {
        assert !OpensRegion(tail, i - 1);
      }
    }
  }

  /** A slash outside every region is not followed by a slash or a star. */
  lemma CodeSlash(s: seq<byte>, cursor: nat)
    requires cursor + 1 < |s| && s[cursor] == SLASH && RegionEnd(s, cursor).None?
    ensures s[cursor + 1] != SLASH && s[cursor + 1] != STAR
  {
    assert s[cursor..cursor + 2] == [s[cursor], s[cursor + 1]];
  }

  lemma {:induction false} NothingOpensInMasked(s: seq<byte>, cursor: nat)
    requires cursor <= |s|
    ensures NothingOpens(Masked(s, cursor))
    decreases |s| - cursor
  {
    hide Find, StringEnd, CharLiteralEnd, RawStringEnd, BlockCommentEnd, LineCommentEnd, NothingOpens;
    if cursor == |s| {
      NothingOpensInEmpty(Masked(s, cursor));
    } else if RegionEnd(s, cursor).Some? {
      var end := RegionEnd(s, cursor).value;
      NothingOpensInMasked(s, end);
      NothingOpensInBlank(s[cursor..end], Masked(s, end));
    } else {
      NothingOpensInMasked(s, cursor + 1);
      if s[cursor] == SLASH && cursor + 1 < |s| {
        CodeSlash(s, cursor);
        MaskKeepsOffsets(s, cursor + 1);
        assert KeepsOffsets(s, cursor + 1, Masked(s, cursor + 1));
      }
      NothingOpensInCode(s[cursor], Masked(s, cursor + 1));
    }
  }

  lemma NothingOpensInEmpty(m: seq<byte>)
    requires m == []
    ensures NothingOpens(m)
  {
  }

  /** The masked text contains no double quote, no `//` and no comment opener. */
  lemma MaskRemovesLexicalTraps(s: seq<byte>)
    ensures QUOTE !in Masked(s, 0)
    ensures forall i :: 0 <= i <= |s| ==> !StartsWith(Masked(s, 0), [SLASH, SLASH], i)
    ensures forall i :: 0 <= i <= |s| ==> !StartsWith(Masked(s, 0), [SLASH, STAR], i)
  {
    hide Masked;
    var m := Masked(s, 0);
    NothingOpensInMasked(s, 0);
    forall i | 0 <= i < |m|
      ensures m[i] != QUOTE
    {
      assert !OpensRegion(m, i);
    }
    forall i | 0 <= i <= |m|
      ensures !StartsWith(m, [SLASH, SLASH], i) && !StartsWith(m, [SLASH, STAR], i)
    {
      if i + 2 <= |m| {
        assert m[i..i + 2] == [m[i], m[i + 1]];
        assert !OpensRegion(m, i);
      }
    }
  }

  // ---------------------------------------------------------------------
  // Delimiters
  // ---------------------------------------------------------------------

  /** Openings minus closings in s[start..end]. */
  function Balance(s: seq<byte>, opening: byte, closing: byte, start: nat, end: nat): int
    requires start <= end <= |s|
    decreases end - start
  {
    if start == end then 0
    else
      Balance(s, opening, closing, start, end - 1)
      + (if s[end - 1] == opening then 1 else if s[end - 1] == closing then -1 else 0)
  }

  /** Position k is a closing delimiter at which the balance returns to zero. */
  predicate ClosesAt(s: seq<byte>, opening: byte, closing: byte, start: nat, k: nat)
    requires start <= k < |s|
  {
    s[k] == closing && s[k] != opening && Balance(s, opening, closing, start, k + 1) == 0
  }

  /** The first position at which the delimiters opened since `start` are all closed. */
  method MatchingRustDelimiter(s: seq<byte>, start: nat, opening: byte, closing: byte) returns (r: Option<nat>)
    requires start <= |s|
    ensures r.Some? ==> start <= r.value < |s| && ClosesAt(s, opening, closing, start, r.value)
    ensures forall k :: start <= k < |s| && (r.Some? ==> k < r.value) ==> !ClosesAt(s, opening, closing, start, k)
  {
    var depth := 0;
    for cursor := start to |s|
      invariant depth == Balance(s, opening, closing, start, cursor)
      invariant forall k :: start <= k < cursor ==> !ClosesAt(s, opening, closing, start, k)
    {
      if s[cursor] == opening {
        depth := depth + 1;
      } else if s[cursor] == closing {
        depth := depth - 1;
        if depth == 0 {
          return Some(cursor);
        }
      }
    }
    return None;
  }

  /** A matched pair encloses a balanced text that never dips below its opening. */
  lemma {:induction false} MatchedTextStaysOpen(s: seq<byte>, opening: byte, closing: byte, start: nat, end: nat, k: nat)
    requires opening != closing && start < k <= end < |s| && s[start] == opening
    requires forall j :: start <= j < end ==> !ClosesAt(s, opening, closing, start, j)
    ensures Balance(s, opening, closing, start, k) >= 1
    decreases k
  {
    if k == start + 1 {
      assert Balance(s, opening, closing, start, start) == 0;
    } else {
      MatchedTextStaysOpen(s, opening, closing, start, end, k - 1);
      assert !ClosesAt(s, opening, closing, start, k - 1);
    }
  }
}
