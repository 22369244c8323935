/**
 * Where the lexer of hotspot_metrics.py finds comments and literals: each region's
 * end as the source computes it, and what a raw string and a character literal are.
 */
module RustLexemes {
  import opened Common

  const LF: byte := 0x0A
  const CR: byte := 0x0D
  const SPACE: byte := 0x20
  const QUOTE: byte := 0x22
  const HASH: byte := 0x23
  const APOSTROPHE: byte := 0x27
  const STAR: byte := 0x2A
  const SLASH: byte := 0x2F
  const BACKSLASH: byte := 0x5C
  const LOWER_B: byte := 0x62
  const LOWER_C: byte := 0x63
  const LOWER_R: byte := 0x72
  const LOWER_U: byte := 0x75
  const LOWER_X: byte := 0x78
  const OPEN_BRACE: byte := 0x7B
  const CLOSE_BRACE: byte := 0x7D

  predicate IsIdentifierByte(b: byte) {
    0x61 <= b <= 0x7A || 0x41 <= b <= 0x5A || 0x30 <= b <= 0x39 || b == 0x5F
  }

  /** The identifier bytes, written out. */
  lemma IdentifierBytes(b: byte)
    ensures IsIdentifierByte(b) <==> b in {
      0x30, 0x31, 0x32, 0x33, 0x34, 0x35, 0x36, 0x37, 0x38, 0x39, 0x5F,
      0x41, 0x42, 0x43, 0x44, 0x45, 0x46, 0x47, 0x48, 0x49, 0x4A, 0x4B, 0x4C, 0x4D,
      0x4E, 0x4F, 0x50, 0x51, 0x52, 0x53, 0x54, 0x55, 0x56, 0x57, 0x58, 0x59, 0x5A,
      0x61, 0x62, 0x63, 0x64, 0x65, 0x66, 0x67, 0x68, 0x69, 0x6A, 0x6B, 0x6C, 0x6D,
      0x6E, 0x6F, 0x70, 0x71, 0x72, 0x73, 0x74, 0x75, 0x76, 0x77, 0x78, 0x79, 0x7A}
  {
  }

  // ---------------------------------------------------------------------
  // Python's startswith and find
  // ---------------------------------------------------------------------

  predicate StartsWith(s: seq<byte>, prefix: seq<byte>, at: nat): (r: bool)
    ensures r ==> at + |prefix| <= |s|
  {
    at + |prefix| <= |s| && s[at..at + |prefix|] == prefix
  }

  /** First position at or after `from` where `needle` occurs. */
  function Find(s: seq<byte>, needle: seq<byte>, from: nat): (r: Option<nat>)
    ensures r.Some? ==> from <= r.value && StartsWith(s, needle, r.value)
    ensures forall k :: from <= k && (r.Some? ==> k < r.value) ==> !StartsWith(s, needle, k)
    decreases |s| - from
  {
    if from + |needle| > |s| then None
    else if StartsWith(s, needle, from) then Some(from)
    else Find(s, needle, from + 1)
  }

  // ---------------------------------------------------------------------
  // Where each kind of non-code region ends
  // ---------------------------------------------------------------------

  function LineCommentEnd(s: seq<byte>, start: nat): nat {
    var newline := Find(s, [LF], start + 2);
    if newline.Some? then newline.value else |s|
  }

  /** Comments nest; an unterminated one runs to the end. */
  function BlockCommentEnd(s: seq<byte>, end: nat, depth: nat): (r: nat)
    requires end <= |s|
    ensures end <= r <= |s|
    decreases |s| - end
  {
    if end == |s| || depth == 0 then end
    else if StartsWith(s, [SLASH, STAR], end) then BlockCommentEnd(s, end + 2, depth + 1)
    else if StartsWith(s, [STAR, SLASH], end) then BlockCommentEnd(s, end + 2, depth - 1)
    else BlockCommentEnd(s, end + 1, depth)
  }

  /** Length of the raw-string prefix at `start`, 0 if there is none. */
  function RawPrefix(s: seq<byte>, start: nat): (n: nat)
    ensures start + n <= |s| || n == 0
  {
    if StartsWith(s, [LOWER_B, LOWER_R], start) || StartsWith(s, [LOWER_C, LOWER_R], start) then 2
    else if StartsWith(s, [LOWER_R], start) then 1
    else 0
  }

  /** First position at or after `cursor` that is not a hash. */
  function SkipHashes(s: seq<byte>, cursor: nat): (r: nat)
    requires cursor <= |s|
    ensures cursor <= r <= |s|
    ensures forall k :: cursor <= k < r ==> s[k] == HASH
    ensures r < |s| ==> s[r] != HASH
    decreases |s| - cursor
  {
    if cursor < |s| && s[cursor] == HASH then SkipHashes(s, cursor + 1) else cursor
  }

  function RawStringEnd(s: seq<byte>, start: nat): (r: Option<nat>)
    requires start < |s|
    ensures r.Some? ==> start < r.value <= |s|
  {
    var prefix := RawPrefix(s, start);
    if (start > 0 && IsIdentifierByte(s[start - 1])) || prefix == 0 then None
    else
      var cursor := SkipHashes(s, start + prefix);
      if cursor == |s| || s[cursor] != QUOTE then None
      else
        var terminator := [QUOTE] + s[start + prefix..cursor];
        var closing := Find(s, terminator, cursor + 1);
        if closing.None? then Some(|s|) else Some(closing.value + |terminator|)
  }

  function StringEnd(s: seq<byte>, end: nat): (r: nat)
    requires end <= |s|
    ensures end <= r <= |s|
    decreases |s| - end
  {
    if end == |s| then end
    else if s[end] == BACKSLASH then StringEnd(s, if end + 2 <= |s| then end + 2 else |s|)
    else if s[end] == QUOTE then end + 1
    else StringEnd(s, end + 1)
  }

  /** Where the content of a character literal ends, by escape kind or UTF-8 lead byte. */
  function CharContentEnd(s: seq<byte>, start: nat): Option<nat>
    requires start < |s|
  {
    var c := start + 1;
    if c >= |s| || s[c] == LF || s[c] == CR then None
    else if s[c] == BACKSLASH then
      if c + 1 >= |s| then None
      else if s[c + 1] == LOWER_X then Some(c + 4)
      else if s[c + 1] == LOWER_U && c + 2 < |s| then
        if s[c + 2] != OPEN_BRACE then None
        else
          var closing := Find(s, [CLOSE_BRACE], c + 3);
          if closing.None? then None else Some(closing.value + 1)
      else Some(c + 2)
    else if s[c] < 0x80 then Some(c + 1)
    else if 0xC0 <= s[c] < 0xE0 then Some(c + 2)
    else if 0xE0 <= s[c] < 0xF0 then Some(c + 3)
    else if 0xF0 <= s[c] < 0xF8 then Some(c + 4)
    else None
  }

  function CharLiteralEnd(s: seq<byte>, start: nat): (r: Option<nat>)
    requires start < |s|
    ensures r.Some? ==> start < r.value <= |s|
  {
    var end := CharContentEnd(s, start);
    if end.Some? && end.value < |s| && s[end.value] == APOSTROPHE then Some(end.value + 1) else None
  }

  /** The end of the comment or literal that starts at the cursor, if one does. */
  function RegionEnd(s: seq<byte>, cursor: nat): (r: Option<nat>)
    requires cursor < |s|
    ensures r.Some? ==> cursor < r.value <= |s|
  {
    if StartsWith(s, [SLASH, SLASH], cursor) then Some(LineCommentEnd(s, cursor))
    else if StartsWith(s, [SLASH, STAR], cursor) then Some(BlockCommentEnd(s, cursor + 2, 1))
    else if s[cursor] in {LOWER_B, LOWER_C, LOWER_R} && RawStringEnd(s, cursor).Some? then RawStringEnd(s, cursor)
    else if s[cursor] == QUOTE then Some(StringEnd(s, cursor + 1))
    else if s[cursor] == APOSTROPHE then CharLiteralEnd(s, cursor)
    else None
  }

  // ---------------------------------------------------------------------
  // What a character literal is
  // ---------------------------------------------------------------------

  /** What may stand between the apostrophes, as far as the lexer looks. */
  datatype CharContent =
    | Ascii(b: byte)
    | Multibyte(lead: byte, rest: seq<byte>)
    | Escape(kind: byte)
    | HexEscape(high: byte, low: byte)
    | UnicodeEscape(digits: seq<byte>)
  {
    predicate Valid() {
      match this
      case Ascii(b) => b < 0x80 && b != LF && b != CR && b != BACKSLASH
      case Multibyte(lead, rest) => 0xC0 <= lead < 0xF8 && |rest| == Continuations(lead)
      case Escape(kind) => kind != LOWER_X && kind != LOWER_U
      case HexEscape(_, _) => true
      case UnicodeEscape(digits) => CLOSE_BRACE !in digits
    }

    function Bytes(): (r: seq<byte>) {
      match this
      case Ascii(b) => [b]
      case Multibyte(lead, rest) => [lead] + rest
      case Escape(kind) => [BACKSLASH, kind]
      case HexEscape(high, low) => [BACKSLASH, LOWER_X, high, low]
      case UnicodeEscape(digits) => [BACKSLASH, LOWER_U, OPEN_BRACE] + digits + [CLOSE_BRACE]
    }
  }

  /** Continuation bytes announced by a UTF-8 lead byte. */
  function Continuations(lead: byte): nat {
    if lead < 0xE0 then 1 else if lead < 0xF0 then 2 else 3
  }

  /** A valid content and the closing apostrophe. */
  ghost predicate IsCharTail(t: seq<byte>) {
    exists content: CharContent :: content.Valid() && t == content.Bytes() + [APOSTROPHE]
  }

  /** The first occurrence of a byte. */
  lemma FindByte(s: seq<byte>, b: byte, from: nat, at: nat)
    requires from <= at < |s| && s[at] == b && forall k :: from <= k < at ==> s[k] != b
    ensures Find(s, [b], from) == Some(at)
  {
    assert s[at..at + 1] == [b];
    assert StartsWith(s, [b], at);
    forall k | from <= k < at
      ensures !StartsWith(s, [b], k)
    {
      assert s[k..k + 1] == [s[k]];
    }
  }

  lemma NoSuchByte(s: seq<byte>, b: byte, from: nat)
    requires forall k :: from <= k < |s| ==> s[k] != b
    ensures Find(s, [b], from).None?
  {
    if Find(s, [b], from).Some? {
      FoundByte(s, b, from);
      assert false;
    }
  }

  lemma FoundByte(s: seq<byte>, b: byte, from: nat)
    requires Find(s, [b], from).Some?
    ensures var at := Find(s, [b], from).value;
      from <= at < |s| && s[at] == b && forall k :: from <= k < at ==> s[k] != b
  {
    var at := Find(s, [b], from).value;
    assert s[at..at + 1] == [b];
    forall k | from <= k < at
      ensures s[k] != b
    {
      assert !StartsWith(s, [b], k);
      assert s[k..k + 1] == [s[k]];
    }
  }

  lemma UnicodeContent(s: seq<byte>, c: nat)
    requires c + 3 <= |s| && s[c..c + 3] == [BACKSLASH, LOWER_U, OPEN_BRACE] && Find(s, [CLOSE_BRACE], c + 3).Some?
    ensures var at := Find(s, [CLOSE_BRACE], c + 3).value;
      c + 3 <= at < |s| && UnicodeEscape(s[c + 3..at]).Valid() && s[c..at + 1] == UnicodeEscape(s[c + 3..at]).Bytes()
  {
    hide Find;
    FoundByte(s, CLOSE_BRACE, c + 3);
    var at := Find(s, [CLOSE_BRACE], c + 3).value;
    assert s[c..at + 1] == s[c..c + 3] + s[c + 3..at] + [s[at]];
  }

  lemma EscapeContent(s: seq<byte>, start: nat) returns (content: CharContent)
    requires start + 1 < |s| && s[start + 1] == BACKSLASH
    requires CharContentEnd(s, start).Some? && CharContentEnd(s, start).value < |s|
    ensures content.Valid() && s[start + 1..CharContentEnd(s, start).value] == content.Bytes()
  {
    hide Find, StartsWith;
    var c, end := start + 1, CharContentEnd(s, start).value;
    if s[c + 1] == LOWER_X {
      content := HexEscape(s[c + 2], s[c + 3]);
      assert s[c..c + 4] == [s[c], s[c + 1], s[c + 2], s[c + 3]];
    } else if s[c + 1] == LOWER_U {
      assert s[c..c + 3] == [s[c], s[c + 1], s[c + 2]];
      UnicodeContent(s, c);
      content := UnicodeEscape(s[c + 3..end - 1]);
    } else {
      content := Escape(s[c + 1]);
      assert s[c..c + 2] == [s[c], s[c + 1]];
    }
  }

  lemma PlainContent(s: seq<byte>, start: nat) returns (content: CharContent)
    requires start + 1 < |s| && s[start + 1] != BACKSLASH
    requires CharContentEnd(s, start).Some? && CharContentEnd(s, start).value < |s|
    ensures content.Valid() && s[start + 1..CharContentEnd(s, start).value] == content.Bytes()
  {
    hide Find, StartsWith;
    var c, end := start + 1, CharContentEnd(s, start).value;
    assert s[c..end] == [s[c]] + s[c + 1..end];
    content := if s[c] < 0x80 then Ascii(s[c]) else Multibyte(s[c], s[c + 1..end]);
  }

  /** The content the lexer passed over to find an end. */
  lemma ContentFound(s: seq<byte>, start: nat) returns (content: CharContent)
    requires start < |s| && CharContentEnd(s, start).Some? && CharContentEnd(s, start).value < |s|
    ensures content.Valid() && s[start + 1..CharContentEnd(s, start).value] == content.Bytes()
  {
    ContentEndsLater(s, start);
    hide CharContentEnd;
    if s[start + 1] == BACKSLASH {
      content := EscapeContent(s, start);
    } else {
      content := PlainContent(s, start);
    }
  }

  lemma SliceAt(s: seq<byte>, from: nat, end: nat, t: seq<byte>, k: nat)
    requires from <= end <= |s| && s[from..end] == t && k < |t|
    ensures from + k < |s| && s[from + k] == t[k]
  {
    assert s[from..end][k] == s[from + k];
  }

  lemma UnicodeLeadsToEnd(s: seq<byte>, start: nat, end: nat, digits: seq<byte>)
    requires start + 1 <= end < |s| && CLOSE_BRACE !in digits && s[start + 1..end] == UnicodeEscape(digits).Bytes()
    ensures CharContentEnd(s, start) == Some(end)
  {
    hide Find;
    var c, bytes := start + 1, UnicodeEscape(digits).Bytes();
    assert |s[c..end]| == |bytes| == |digits| + 4;
    SliceAt(s, c, end, bytes, 0);
    SliceAt(s, c, end, bytes, 1);
    SliceAt(s, c, end, bytes, 2);
    SliceAt(s, c, end, bytes, |digits| + 3);
    forall k | c + 3 <= k < end - 1
      ensures s[k] != CLOSE_BRACE
    {
      SliceAt(s, c, end, bytes, k - c);
      assert bytes[k - c] == digits[k - c - 3];
    }
    FindByte(s, CLOSE_BRACE, c + 3, end - 1);
  }

  /** Any valid content in place leads the lexer behind it. */
  lemma ContentLeadsToEnd(s: seq<byte>, start: nat, end: nat, content: CharContent)
    requires start + 1 <= end < |s| && content.Valid() && s[start + 1..end] == content.Bytes()
    ensures CharContentEnd(s, start) == Some(end)
  {
    hide Find, StartsWith;
    if content.UnicodeEscape? {
      hide CharContentEnd;
      UnicodeLeadsToEnd(s, start, end, content.digits);
    } else {
      var bytes := content.Bytes();
      assert |s[start + 1..end]| == |bytes|;
      SliceAt(s, start + 1, end, bytes, 0);
      if content.Escape? || content.HexEscape? {
        SliceAt(s, start + 1, end, bytes, 1);
      }
    }
  }

  /** The end the lexer reports is that of the one character literal standing there, or there is none. */
  lemma CharLiteralIff(s: seq<byte>, start: nat)
    requires start < |s|
    ensures forall end: nat ::
      CharLiteralEnd(s, start) == Some(end) <==> start < end <= |s| && IsCharTail(s[start + 1..end])
  {
    forall end: nat
      ensures CharLiteralEnd(s, start) == Some(end) <==> start < end <= |s| && IsCharTail(s[start + 1..end])
    {
      if CharLiteralEnd(s, start) == Some(end) {
        LiteralHasTail(s, start);
      }
      if start < end <= |s| && IsCharTail(s[start + 1..end]) {
        TailEndsLiteral(s, start, end);
      }
    }
  }

  lemma LiteralHasTail(s: seq<byte>, start: nat)
    requires start < |s| && CharLiteralEnd(s, start).Some?
    ensures IsCharTail(s[start + 1..CharLiteralEnd(s, start).value])
  {
    hide CharContentEnd;
    var end := CharContentEnd(s, start).value;
    var content := ContentFound(s, start);
    ContentEndsLater(s, start);
    assert s[start + 1..end + 1] == s[start + 1..end] + [s[end]];
  }

  lemma ContentEndsLater(s: seq<byte>, start: nat)
    requires start < |s| && CharContentEnd(s, start).Some?
    ensures CharContentEnd(s, start).value > start + 1
  {
  }

  lemma SplitLast(s: seq<byte>, from: nat, end: nat, init: seq<byte>, last: byte)
    requires from <= end <= |s| && s[from..end] == init + [last]
    ensures from < end && s[from..end - 1] == init && s[end - 1] == last
  {
    var t := s[from..end];
    assert t[|t| - 1] == last && t[..|t| - 1] == init;
  }

  lemma TailEndsLiteral(s: seq<byte>, start: nat, end: nat)
    requires start < end <= |s| && IsCharTail(s[start + 1..end])
    ensures CharLiteralEnd(s, start) == Some(end)
  {
    hide CharContentEnd;
    var t := s[start + 1..end];
    var content: CharContent :| content.Valid() && t == content.Bytes() + [APOSTROPHE];
    SplitLast(s, start + 1, end, content.Bytes(), APOSTROPHE);
    ContentLeadsToEnd(s, start, end - 1, content);
  }

  // ---------------------------------------------------------------------
  // What a raw string is
  // ---------------------------------------------------------------------

  const RAW_PREFIXES: set<seq<byte>> := {[LOWER_B, LOWER_R], [LOWER_C, LOWER_R], [LOWER_R]}

  function Hashes(n: nat): (h: seq<byte>)
    ensures |h| == n && forall k :: 0 <= k < n ==> h[k] == HASH
  {
    seq(n, _ => HASH)
  }

  function RawOpener(prefix: seq<byte>, n: nat): (r: seq<byte>)
    ensures |r| == |prefix| + n + 1
  {
    prefix + Hashes(n) + [QUOTE]
  }

  function RawTerminator(n: nat): (r: seq<byte>)
    ensures |r| == n + 1
  {
    [QUOTE] + Hashes(n)
  }

  /** A raw string with `n` hashes opens at `start`, not in the middle of an identifier. */
  predicate OpensRaw(s: seq<byte>, start: nat, prefix: seq<byte>, n: nat) {
    prefix in RAW_PREFIXES && StartsWith(s, RawOpener(prefix, n), start)
    && (start > 0 && start <= |s| ==> !IsIdentifierByte(s[start - 1]))
  }

  /** The first terminator at or after `from` ends at `end`; without one the text ends there. */
  ghost predicate ClosesRaw(s: seq<byte>, from: nat, n: nat, end: nat) {
    (exists k :: from <= k && IsFirstTerminator(s, from, n, k) && end == k + |RawTerminator(n)|)
    || ((forall k :: from <= k ==> !StartsWith(s, RawTerminator(n), k)) && end == |s|)
  }

  predicate IsFirstTerminator(s: seq<byte>, from: nat, n: nat, k: nat) {
    StartsWith(s, RawTerminator(n), k) && forall j :: from <= j < k ==> !StartsWith(s, RawTerminator(n), j)
  }

  ghost predicate IsRawString(s: seq<byte>, start: nat, end: nat) {
    exists prefix, n: nat :: OpensRaw(s, start, prefix, n) && ClosesRaw(s, start + |RawOpener(prefix, n)|, n, end)
  }

  /** Searching for the terminator decides how a raw string closes. */
  lemma ClosesRawIff(s: seq<byte>, from: nat, n: nat, end: nat)
    ensures var found := Find(s, RawTerminator(n), from);
      ClosesRaw(s, from, n, end) <==> end == if found.None? then |s| else found.value + |RawTerminator(n)|
  {
    hide StartsWith, RawTerminator;
    var found := Find(s, RawTerminator(n), from);
    if found.Some? {
      assert IsFirstTerminator(s, from, n, found.value);
      assert forall k :: from <= k && IsFirstTerminator(s, from, n, k) ==> k == found.value;
    }
  }

  /** The three parts of an opener, as slices of the text. */
  lemma OpenerParts(s: seq<byte>, start: nat, prefix: seq<byte>, n: nat)
    requires start + |prefix| + n < |s|
    ensures var p := start + |prefix|;
      StartsWith(s, RawOpener(prefix, n), start) <==>
        s[start..p] == prefix && s[p..p + n] == Hashes(n) && s[p + n] == QUOTE
  {
    hide Hashes;
    var p := start + |prefix|;
    SplitThree(s, start, p, p + n);
    EqualThree(s[start..p], s[p..p + n], s[p + n], prefix, Hashes(n), QUOTE);
  }

  lemma SplitThree(s: seq<byte>, i: nat, j: nat, k: nat)
    requires i <= j <= k < |s|
    ensures s[i..k + 1] == s[i..j] + s[j..k] + [s[k]]
  {
  }

  lemma EqualThree(a: seq<byte>, b: seq<byte>, x: byte, c: seq<byte>, d: seq<byte>, y: byte)
    requires |a| == |c| && |b| == |d|
    ensures a + b + [x] == c + d + [y] <==> a == c && b == d && x == y
  {
    var s, t := a + b + [x], c + d + [y];
    assert s[..|a|] == a && s[|a|..|a| + |b|] == b && s[|a| + |b|] == x;
    assert t[..|c|] == c && t[|c|..|c| + |d|] == d && t[|c| + |d|] == y;
  }

  /** The opener read by the lexer, prefix first and then every hash. */
  lemma OpenerFound(s: seq<byte>, start: nat)
    requires start < |s| && RawPrefix(s, start) > 0 && !(start > 0 && IsIdentifierByte(s[start - 1]))
    requires var cursor := SkipHashes(s, start + RawPrefix(s, start)); cursor < |s| && s[cursor] == QUOTE
    ensures var p := RawPrefix(s, start); var cursor := SkipHashes(s, start + p);
      && OpensRaw(s, start, s[start..start + p], cursor - (start + p))
      && s[start + p..cursor] == Hashes(cursor - (start + p))
  {
    hide SkipHashes, Hashes, RawPrefix, RawOpener, StartsWith, IsIdentifierByte;
    var p := RawPrefix(s, start);
    var cursor := SkipHashes(s, start + p);
    var n := cursor - (start + p);
    PrefixFound(s, start);
    assert s[start + p..cursor] == Hashes(n);
    OpenerParts(s, start, s[start..start + p], n);
  }

  lemma PrefixFound(s: seq<byte>, start: nat)
    requires RawPrefix(s, start) > 0
    ensures start + RawPrefix(s, start) <= |s| && s[start..start + RawPrefix(s, start)] in RAW_PREFIXES
  {
  }

  lemma PrefixRead(s: seq<byte>, start: nat, prefix: seq<byte>)
    requires prefix in RAW_PREFIXES && start + |prefix| <= |s| && s[start..start + |prefix|] == prefix
    ensures RawPrefix(s, start) == |prefix| > 0
  {
    SliceAt(s, start, start + |prefix|, prefix, 0);
    if start + 2 <= |s| {
      assert s[start..start + 2][0] == s[start];
    }
  }

  lemma {:induction false} HashesSkipped(s: seq<byte>, from: nat, to: nat)
    requires from <= to < |s| && s[to] != HASH && forall k :: from <= k < to ==> s[k] == HASH
    ensures SkipHashes(s, from) == to
    decreases |s| - from
  {
    if from < to {
      HashesSkipped(s, from + 1, to);
    }
  }

  /** Any opener in place is the one the lexer reads. */
  lemma OpenerRead(s: seq<byte>, start: nat, prefix: seq<byte>, n: nat)
    requires OpensRaw(s, start, prefix, n)
    ensures start < |s| && RawPrefix(s, start) == |prefix| > 0 && !(start > 0 && IsIdentifierByte(s[start - 1]))
    ensures var cursor := start + |prefix| + n;
      && cursor < |s| && s[cursor] == QUOTE && SkipHashes(s, start + |prefix|) == cursor
      && s[start + |prefix|..cursor] == Hashes(n)
  {
    hide RawPrefix, SkipHashes, StartsWith, IsIdentifierByte;
    var p := start + |prefix|;
    OpenerParts(s, start, prefix, n);
    PrefixRead(s, start, prefix);
    forall k | p <= k < p + n
      ensures s[k] == HASH
    {
      SliceAt(s, p, p + n, Hashes(n), k - p);
    }
    HashesSkipped(s, p, p + n);
  }

  /** The end the lexer reports is that of the one raw string standing there, or there is none. */
  lemma RawStringIff(s: seq<byte>, start: nat)
    requires start < |s|
    ensures forall end: nat :: RawStringEnd(s, start) == Some(end) <==> IsRawString(s, start, end)
  {
    hide RawPrefix, SkipHashes, OpensRaw, ClosesRaw, Find, StartsWith;
    forall end: nat
      ensures RawStringEnd(s, start) == Some(end) <==> IsRawString(s, start, end)
    {
      if RawStringEnd(s, start) == Some(end) {
        RawStringFound(s, start, end);
      }
      if IsRawString(s, start, end) {
        var prefix, n: nat :| OpensRaw(s, start, prefix, n) && ClosesRaw(s, start + |RawOpener(prefix, n)|, n, end);
        OpenerRead(s, start, prefix, n);
        ClosesRawIff(s, start + |RawOpener(prefix, n)|, n, end);
      }
    }
  }

  lemma RawStringFound(s: seq<byte>, start: nat, end: nat)
    requires start < |s| && RawStringEnd(s, start) == Some(end)
    ensures IsRawString(s, start, end)
  {
    hide RawPrefix, SkipHashes, OpensRaw, ClosesRaw, Find, StartsWith;
    var p := RawPrefix(s, start);
    var cursor := SkipHashes(s, start + p);
    var n := cursor - (start + p);
    OpenerFound(s, start);
    ClosesRawIff(s, cursor + 1, n, end);
    assert start + |RawOpener(s[start..start + p], n)| == cursor + 1;
  }
}
