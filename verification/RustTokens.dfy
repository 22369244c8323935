/**
 * What the masking lexer keeps: a file written as code bytes, comments and literals
 * is masked token by token, code unchanged and everything else blanked.
 */
module RustTokens {
  import opened Common
  import opened RustLexemes
  import opened RustMask

  // ---------------------------------------------------------------------
  // Tokens and their text
  // ---------------------------------------------------------------------

  /** The inside of a block comment, up to and including its closing marker. */
  datatype Comment = Close | Plain(b: byte, rest: Comment) | Nested(inner: Comment, rest: Comment)

  datatype Piece = Char(b: byte) | Escaped(b: byte)

  datatype Token =
    | Code(b: byte)
    | LineComment(text: seq<byte>)
    | BlockComment(body: Comment)
    | StringLiteral(pieces: seq<Piece>)
    | RawString(prefix: seq<byte>, hashes: nat, content: seq<byte>)
    | CharLiteral(inner: CharContent)
    | UnclosedComment(text: seq<byte>)
    | UnclosedString(text: seq<byte>)
    | UnclosedRaw(prefix: seq<byte>, hashes: nat, text: seq<byte>)

  function CommentBytes(c: Comment): (r: seq<byte>)
    ensures |r| >= 2
  {
    match c
    case Close => [STAR, SLASH]
    case Plain(b, rest) => [b] + CommentBytes(rest)
    case Nested(inner, rest) => [SLASH, STAR] + (CommentBytes(inner) + CommentBytes(rest))
  }

  function PieceBytes(p: Piece): seq<byte> {
    match p
    case Char(b) => [b]
    case Escaped(b) => [BACKSLASH, b]
  }

  /** The pieces and the closing quote. */
  function PiecesBytes(pieces: seq<Piece>): (r: seq<byte>)
    ensures |r| > 0
  {
    if pieces == [] then [QUOTE] else PieceBytes(pieces[0]) + PiecesBytes(pieces[1..])
  }

  function TokenBytes(t: Token): (r: seq<byte>)
    ensures |r| > 0
  {
    match t
    case Code(b) => [b]
    case LineComment(text) => [SLASH, SLASH] + text
    case BlockComment(body) => [SLASH, STAR] + CommentBytes(body)
    case StringLiteral(pieces) => [QUOTE] + PiecesBytes(pieces)
    case RawString(prefix, hashes, content) => RawOpener(prefix, hashes) + (content + RawTerminator(hashes))
    case CharLiteral(inner) => [APOSTROPHE] + (inner.Bytes() + [APOSTROPHE])
    case UnclosedComment(text) => [SLASH, STAR] + text
    case UnclosedString(text) => [QUOTE] + text
    case UnclosedRaw(prefix, hashes, text) => RawOpener(prefix, hashes) + text
  }

  function Render(tokens: seq<Token>): seq<byte> {
    if tokens == [] then [] else TokenBytes(tokens[0]) + Render(tokens[1..])
  }

  /** Code survives; every other token keeps only its line ends. */
  function MaskToken(t: Token): seq<byte> {
    if t.Code? then [t.b] else Blank(TokenBytes(t))
  }

  function MaskTokens(tokens: seq<Token>): seq<byte> {
    if tokens == [] then [] else MaskToken(tokens[0]) + MaskTokens(tokens[1..])
  }

  // ---------------------------------------------------------------------
  // Which token lists a text really consists of
  // ---------------------------------------------------------------------

  /** No plain byte of the comment joins the next one into a marker. */
  predicate CommentOk(c: Comment) {
    match c
    case Close => true
    case Plain(b, rest) =>
      var next := CommentBytes(rest)[0];
      !(b == SLASH && next == STAR) && !(b == STAR && next == SLASH) && CommentOk(rest)
    case Nested(inner, rest) => CommentOk(inner) && CommentOk(rest)
  }

  predicate PiecesOk(pieces: seq<Piece>) {
    forall i :: 0 <= i < |pieces| && pieces[i].Char? ==> pieces[i].b != QUOTE && pieces[i].b != BACKSLASH
  }

  predicate EndsInIdentifier(before: seq<byte>) {
    before != [] && IsIdentifierByte(before[|before| - 1])
  }

  /** The byte does not begin a comment or a literal together with what follows; a lifetime's apostrophe qualifies. */
  ghost predicate IsCode(before: seq<byte>, b: byte, after: seq<byte>) {
    && b != QUOTE
    && (b == SLASH && after != [] ==> after[0] != SLASH && after[0] != STAR)
    && (b == APOSTROPHE ==> forall end :: 0 <= end <= |after| ==> !IsCharTail(after[..end]))
    && (!EndsInIdentifier(before) ==>
          forall prefix, n: nat :: prefix in RAW_PREFIXES ==> !(RawOpener(prefix, n) <= [b] + after))
  }

  /** Some block comment, already open, closes in this text. */
  ghost predicate ClosesComment(text: seq<byte>) {
    exists c :: CommentOk(c) && CommentBytes(c) <= text
  }

  /** Some string, already open, closes in this text. */
  ghost predicate ClosesString(text: seq<byte>) {
    exists pieces :: PiecesOk(pieces) && PiecesBytes(pieces) <= text
  }

  /** No terminator begins before the last `tail` bytes. */
  predicate NoTerminator(text: seq<byte>, n: nat, tail: nat) {
    forall k :: 0 <= k < |text| - tail ==> !StartsWith(text, RawTerminator(n), k)
  }

  /** The token stands between these texts and is read as itself. */
  ghost predicate Fits(before: seq<byte>, t: Token, after: seq<byte>) {
    match t
    case Code(b) => IsCode(before, b, after)
    case LineComment(text) => LF !in text && (after != [] ==> after[0] == LF)
    case BlockComment(body) => CommentOk(body)
    case StringLiteral(pieces) => PiecesOk(pieces)
    case RawString(prefix, hashes, content) =>
      && prefix in RAW_PREFIXES && !EndsInIdentifier(before)
      && NoTerminator(content + RawTerminator(hashes), hashes, hashes + 1)
    case CharLiteral(inner) => inner.Valid()
    case UnclosedComment(text) => after == [] && !ClosesComment(text)
    case UnclosedString(text) => after == [] && !ClosesString(text)
    case UnclosedRaw(prefix, hashes, text) =>
      prefix in RAW_PREFIXES && !EndsInIdentifier(before) && after == [] && NoTerminator(text, hashes, 0)
  }

  ghost predicate WellFormed(before: seq<byte>, tokens: seq<Token>)
    decreases |tokens|
  {
    tokens != [] ==>
      Fits(before, tokens[0], Render(tokens[1..])) && WellFormed(before + TokenBytes(tokens[0]), tokens[1..])
  }

  // ---------------------------------------------------------------------
  // Looking at a text behind a prefix
  // ---------------------------------------------------------------------

  lemma StartsWithBehind(before: seq<byte>, s: seq<byte>, prefix: seq<byte>, k: nat)
    ensures StartsWith(before + s, prefix, |before| + k) <==> StartsWith(s, prefix, k)
  {
    if k + |prefix| <= |s| {
      assert (before + s)[|before| + k..|before| + k + |prefix|] == s[k..k + |prefix|];
    }
  }

  lemma StartsWithTwo(s: seq<byte>, a: byte, b: byte, k: nat)
    ensures StartsWith(s, [a, b], k) <==> k + 2 <= |s| && s[k] == a && s[k + 1] == b
  {
    if k + 2 <= |s| {
      assert s[k..k + 2] == [s[k], s[k + 1]];
    }
  }

  /** A comment takes the scan from its opening to just behind it, one level up. */
  lemma {:induction false} CommentSkipped(before: seq<byte>, c: Comment, after: seq<byte>, depth: nat)
    requires CommentOk(c) && depth > 0
    ensures var s := before + (CommentBytes(c) + after);
      BlockCommentEnd(s, |before|, depth) == BlockCommentEnd(s, |before| + |CommentBytes(c)|, depth - 1)
    decreases c
  {
    hide StartsWith, CommentOk, BlockCommentEnd, CommentBytes;
    CommentUnfolds(c);
    match c {
      case Close =>
        CloseStep(before, after, depth);
      case Plain(b, rest) =>
        PlainOk(b, rest);
        var more := CommentBytes(rest) + after;
        assert CommentBytes(c) + after == [b] + more;
        assert before + ([b] + more) == (before + [b]) + more;
        PlainStep(before, b, more, depth);
        CommentSkipped(before + [b], rest, after, depth);
      case Nested(inner, rest) =>
        NestedOk(inner, rest);
        var open, more := before + [SLASH, STAR], CommentBytes(rest) + after;
        assert CommentBytes(c) + after == [SLASH, STAR] + (CommentBytes(inner) + more);
        assert before + ([SLASH, STAR] + (CommentBytes(inner) + more)) == open + (CommentBytes(inner) + more);
        OpenStep(before, CommentBytes(inner) + more, depth);
        CommentSkipped(open, inner, more, depth + 1);
        assert open + (CommentBytes(inner) + more) == (open + CommentBytes(inner)) + more;
        CommentSkipped(open + CommentBytes(inner), rest, after, depth);
    }
  }

  lemma CommentUnfolds(c: Comment)
    ensures c.Close? ==> CommentBytes(c) == [STAR, SLASH]
    ensures c.Plain? ==> CommentBytes(c) == [c.b] + CommentBytes(c.rest)
    ensures c.Nested? ==> CommentBytes(c) == [SLASH, STAR] + (CommentBytes(c.inner) + CommentBytes(c.rest))
  {
  }

  lemma CloseStep(before: seq<byte>, after: seq<byte>, depth: nat)
    requires depth > 0
    ensures var s := before + ([STAR, SLASH] + after);
      BlockCommentEnd(s, |before|, depth) == BlockCommentEnd(s, |before| + 2, depth - 1)
  {
    hide StartsWith;
    var s, at := before + ([STAR, SLASH] + after), |before|;
    StartsWithTwo(s, SLASH, STAR, at);
    StartsWithTwo(s, STAR, SLASH, at);
    assert s[at] == STAR && s[at + 1] == SLASH;
  }

  lemma OpenStep(before: seq<byte>, more: seq<byte>, depth: nat)
    requires depth > 0
    ensures var s := before + ([SLASH, STAR] + more);
      BlockCommentEnd(s, |before|, depth) == BlockCommentEnd(s, |before| + 2, depth + 1)
  {
    hide StartsWith;
    var s, at := before + ([SLASH, STAR] + more), |before|;
    StartsWithTwo(s, SLASH, STAR, at);
    assert s[at] == SLASH && s[at + 1] == STAR;
  }

  lemma PlainStep(before: seq<byte>, b: byte, more: seq<byte>, depth: nat)
    requires depth > 0 && more != [] && !(b == SLASH && more[0] == STAR) && !(b == STAR && more[0] == SLASH)
    ensures var s := before + ([b] + more);
      BlockCommentEnd(s, |before|, depth) == BlockCommentEnd(s, |before| + 1, depth)
  {
    hide StartsWith;
    var s, at := before + ([b] + more), |before|;
    StartsWithTwo(s, SLASH, STAR, at);
    StartsWithTwo(s, STAR, SLASH, at);
    assert s[at] == b && s[at + 1] == more[0];
  }

  lemma PlainOk(b: byte, rest: Comment)
    requires CommentOk(Plain(b, rest))
    ensures CommentOk(rest)
    ensures !(b == SLASH && CommentBytes(rest)[0] == STAR) && !(b == STAR && CommentBytes(rest)[0] == SLASH)
  {
  }

  lemma NestedOk(inner: Comment, rest: Comment)
    requires CommentOk(Nested(inner, rest))
    ensures CommentOk(inner) && CommentOk(rest)
  {
  }

  /** The pieces of a string take the scan just behind the closing quote. */
  lemma {:induction false} PiecesSkipped(before: seq<byte>, pieces: seq<Piece>, after: seq<byte>)
    requires PiecesOk(pieces)
    ensures var s := before + (PiecesBytes(pieces) + after);
      StringEnd(s, |before|) == |before| + |PiecesBytes(pieces)|
    decreases |pieces|
  {
    var s := before + (PiecesBytes(pieces) + after);
    if pieces == [] {
      assert s[|before|] == QUOTE;
    } else {
      var p, rest := PieceBytes(pieces[0]), PiecesBytes(pieces[1..]);
      assert s == (before + p) + (rest + after);
      assert s[|before|] == p[0];
      PiecesSkipped(before + p, pieces[1..], after);
    }
  }

  // ---------------------------------------------------------------------
  // Each token is one region, or one byte of code
  // ---------------------------------------------------------------------

  lemma CodeIsNoRegion(before: seq<byte>, b: byte, after: seq<byte>)
    requires IsCode(before, b, after)
    ensures RegionEnd(before + ([b] + after), |before|).None?
  {
    hide StartsWith, IsCharTail, RawStringEnd, CharLiteralEnd, BlockCommentEnd, StringEnd;
    var s, at := before + ([b] + after), |before|;
    assert s[at] == b;
    StartsWithTwo(s, SLASH, SLASH, at);
    StartsWithTwo(s, SLASH, STAR, at);
    assert at + 2 <= |s| ==> s[at + 1] == after[0];
    if b == APOSTROPHE {
      NoLiteral(before, b, after);
    }
    NoRawString(before, b, after);
  }

  lemma NoLiteral(before: seq<byte>, b: byte, after: seq<byte>)
    requires forall end :: 0 <= end <= |after| ==> !IsCharTail(after[..end])
    ensures CharLiteralEnd(before + ([b] + after), |before|).None?
  {
    hide IsCharTail, CharLiteralEnd;
    var s, at := before + ([b] + after), |before|;
    CharLiteralIff(s, at);
    var end := CharLiteralEnd(s, at);
    if end.Some? {
      TailIsAfter(before, b, after, end.value);
      assert false;
    }
  }

  lemma TailIsAfter(before: seq<byte>, b: byte, after: seq<byte>, end: nat)
    requires forall n :: 0 <= n <= |after| ==> !IsCharTail(after[..n])
    requires |before| < end <= |before| + 1 + |after|
    ensures !IsCharTail((before + ([b] + after))[|before| + 1..end])
  {
    hide IsCharTail;
    assert (before + ([b] + after))[|before| + 1..end] == after[..end - |before| - 1];
  }

  lemma NoRawString(before: seq<byte>, b: byte, after: seq<byte>)
    requires !EndsInIdentifier(before) ==>
      forall prefix, n: nat :: prefix in RAW_PREFIXES ==> !(RawOpener(prefix, n) <= [b] + after)
    ensures RawStringEnd(before + ([b] + after), |before|).None?
  {
    hide RawStringEnd, StartsWith, RawOpener, IsIdentifierByte, ClosesRaw;
    var s, at := before + ([b] + after), |before|;
    RawStringIff(s, at);
    forall prefix, n: nat
      ensures !OpensRaw(s, at, prefix, n)
    {
      StartsWithBehind(before, [b] + after, RawOpener(prefix, n), 0);
      PrefixAtStart([b] + after, RawOpener(prefix, n));
      assert at > 0 ==> s[at - 1] == before[|before| - 1];
    }
  }

  lemma PrefixAtStart(s: seq<byte>, prefix: seq<byte>)
    ensures StartsWith(s, prefix, 0) <==> prefix <= s
  {
  }

  lemma LineCommentRegion(before: seq<byte>, text: seq<byte>, after: seq<byte>)
    requires LF !in text && (after != [] ==> after[0] == LF)
    ensures var s := before + ([SLASH, SLASH] + text + after);
      RegionEnd(s, |before|) == Some(|before| + 2 + |text|)
  {
    hide StartsWith, Find;
    var s, at := before + ([SLASH, SLASH] + text + after), |before|;
    StartsWithTwo(s, SLASH, SLASH, at);
    assert s[at] == SLASH && s[at + 1] == SLASH;
    assert forall k :: at + 2 <= k < at + 2 + |text| ==> s[k] == text[k - at - 2];
    if after != [] {
      assert s[at + 2 + |text|] == LF;
      FindByte(s, LF, at + 2, at + 2 + |text|);
    } else {
      NoSuchByte(s, LF, at + 2);
    }
  }

  lemma BlockCommentRegion(before: seq<byte>, body: Comment, after: seq<byte>)
    requires CommentOk(body)
    ensures var s := before + ([SLASH, STAR] + CommentBytes(body) + after);
      RegionEnd(s, |before|) == Some(|before| + 2 + |CommentBytes(body)|)
  {
    hide StartsWith, CommentOk;
    var s, at := before + ([SLASH, STAR] + CommentBytes(body) + after), |before|;
    StartsWithTwo(s, SLASH, SLASH, at);
    StartsWithTwo(s, SLASH, STAR, at);
    assert s[at] == SLASH && s[at + 1] == STAR;
    assert s == (before + [SLASH, STAR]) + (CommentBytes(body) + after);
    CommentSkipped(before + [SLASH, STAR], body, after, 1);
  }

  lemma StringRegion(before: seq<byte>, pieces: seq<Piece>, after: seq<byte>)
    requires PiecesOk(pieces)
    ensures var s := before + ([QUOTE] + PiecesBytes(pieces) + after);
      RegionEnd(s, |before|) == Some(|before| + 1 + |PiecesBytes(pieces)|)
  {
    hide StartsWith, StringEnd, PiecesOk;
    var s, at := before + ([QUOTE] + PiecesBytes(pieces) + after), |before|;
    assert s[at] == QUOTE;
    StartsWithTwo(s, SLASH, SLASH, at);
    StartsWithTwo(s, SLASH, STAR, at);
    assert s == (before + [QUOTE]) + (PiecesBytes(pieces) + after);
    PiecesSkipped(before + [QUOTE], pieces, after);
  }

  lemma BehindOne(before: seq<byte>, x: byte, t: seq<byte>, after: seq<byte>)
    ensures var s := before + ([x] + t + after); s[|before| + 1..|before| + 1 + |t|] == t
  {
  }

  lemma CharRegion(before: seq<byte>, inner: CharContent, after: seq<byte>)
    requires inner.Valid()
    ensures var t := inner.Bytes() + [APOSTROPHE]; var s := before + ([APOSTROPHE] + t + after);
      RegionEnd(s, |before|) == Some(|before| + 1 + |t|)
  {
    hide StartsWith, CharLiteralEnd;
    var t := inner.Bytes() + [APOSTROPHE];
    var s, at := before + ([APOSTROPHE] + t + after), |before|;
    assert s[at] == APOSTROPHE;
    StartsWithTwo(s, SLASH, SLASH, at);
    StartsWithTwo(s, SLASH, STAR, at);
    BehindOne(before, APOSTROPHE, t, after);
    assert IsCharTail(t);
    CharLiteralIff(s, at);
  }

  lemma RawStringRegion(before: seq<byte>, prefix: seq<byte>, hashes: nat, content: seq<byte>, after: seq<byte>)
    requires Fits(before, RawString(prefix, hashes, content), after)
    ensures var t := RawOpener(prefix, hashes) + (content + RawTerminator(hashes));
      RegionEnd(before + (t + after), |before|) == Some(|before| + |t|)
  {
    hide StartsWith, RawStringEnd, RawOpener, RawTerminator;
    var opener, terminator := RawOpener(prefix, hashes), RawTerminator(hashes);
    var t := opener + (content + terminator);
    var s, at := before + (t + after), |before|;
    RawOpensHere(before, prefix, hashes, content + terminator + after);
    assert s == before + (opener + (content + terminator + after));
    RawClosesHere(before + opener, hashes, content, after);
    assert s == (before + opener) + (content + terminator + after);
    RawStringIff(s, at);
    assert IsRawString(s, at, at + |t|);
    RawIsNoComment(s, at, prefix, hashes);
  }

  lemma RawOpensHere(before: seq<byte>, prefix: seq<byte>, n: nat, after: seq<byte>)
    requires prefix in RAW_PREFIXES && !EndsInIdentifier(before)
    ensures OpensRaw(before + (RawOpener(prefix, n) + after), |before|, prefix, n)
  {
    hide RawOpener, IsIdentifierByte;
    var opener := RawOpener(prefix, n);
    StartsWithBehind(before, opener + after, opener, 0);
    PrefixAtStart(opener + after, opener);
  }

  lemma RawClosesHere(before: seq<byte>, n: nat, content: seq<byte>, after: seq<byte>)
    requires NoTerminator(content + RawTerminator(n), n, n + 1)
    ensures var terminator := RawTerminator(n);
      ClosesRaw(before + (content + terminator + after), |before|, n, |before| + |content| + |terminator|)
  {
    hide RawTerminator;
    var terminator := RawTerminator(n);
    var s, at := before + (content + terminator + after), |before|;
    var k := at + |content|;
    StartsWithBehind(before, content + terminator + after, terminator, |content|);
    StartsWithBehind(content, terminator + after, terminator, 0);
    assert content + terminator + after == content + (terminator + after);
    PrefixAtStart(terminator + after, terminator);
    forall j | at <= j < k
      ensures !StartsWith(s, terminator, j)
    {
      StartsWithBehind(before, content + terminator + after, terminator, j - at);
      StartsWithinFront(content + terminator, after, terminator, j - at);
    }
    assert IsFirstTerminator(s, at, n, k);
  }

  lemma StartsWithinFront(s: seq<byte>, after: seq<byte>, prefix: seq<byte>, k: nat)
    requires k + |prefix| <= |s|
    ensures StartsWith(s + after, prefix, k) <==> StartsWith(s, prefix, k)
  {
    assert (s + after)[k..k + |prefix|] == s[k..k + |prefix|];
  }

  /** A raw string starts with one of three letters, so no earlier test of the lexer applies. */
  lemma RawIsNoComment(s: seq<byte>, at: nat, prefix: seq<byte>, n: nat)
    requires OpensRaw(s, at, prefix, n) && RawStringEnd(s, at).Some?
    ensures at < |s| && RegionEnd(s, at) == RawStringEnd(s, at)
  {
    hide StartsWith, RawStringEnd, StringEnd, BlockCommentEnd, CharLiteralEnd;
    OpenerRead(s, at, prefix, n);
    PrefixLetter(s, at);
    StartsWithTwo(s, SLASH, SLASH, at);
    StartsWithTwo(s, SLASH, STAR, at);
  }

  lemma PrefixLetter(s: seq<byte>, at: nat)
    requires at < |s| && RawPrefix(s, at) > 0
    ensures s[at] in {LOWER_B, LOWER_C, LOWER_R}
  {
    assert at + 2 <= |s| ==> s[at..at + 2][0] == s[at];
    assert s[at..at + 1][0] == s[at];
  }

  // ---------------------------------------------------------------------
  // Regions nothing closes run to the end of the text
  // ---------------------------------------------------------------------

  function CommentsBytes(cs: seq<Comment>): seq<byte> {
    if cs == [] then [] else CommentBytes(cs[0]) + CommentsBytes(cs[1..])
  }

  ghost predicate CommentsOk(cs: seq<Comment>) {
    forall i :: 0 <= i < |cs| ==> CommentOk(cs[i])
  }

  lemma NoComments()
    ensures CommentsBytes([]) == []
  {
  }

  lemma ConsComment(c: Comment, rest: seq<Comment>)
    ensures CommentsBytes([c] + rest) == CommentBytes(c) + CommentsBytes(rest)
    ensures CommentsOk([c] + rest) <==> CommentOk(c) && CommentsOk(rest)
  {
    hide CommentBytes, CommentOk;
    var cs := [c] + rest;
    assert cs[1..] == rest;
    assert forall i :: 1 <= i < |cs| ==> cs[i] == rest[i - 1];
  }

  lemma FourJoined(o: seq<byte>, a: seq<byte>, b: seq<byte>, c: seq<byte>)
    ensures o + (a + b) + c == o + (a + (b + c))
  {
  }

  lemma ReadNested(x: Comment, y: Comment, rest: seq<Comment>)
    requires CommentsOk([x] + ([y] + rest))
    ensures CommentsOk([Nested(x, y)] + rest)
    ensures CommentsBytes([Nested(x, y)] + rest) == [SLASH, STAR] + CommentsBytes([x] + ([y] + rest))
  {
    hide CommentBytes, CommentsBytes, CommentsOk;
    ConsComment(x, [y] + rest);
    ConsComment(y, rest);
    ConsComment(Nested(x, y), rest);
    CommentUnfolds(Nested(x, y));
    FourJoined([SLASH, STAR], CommentBytes(x), CommentBytes(y), CommentsBytes(rest));
  }

  lemma ReadClose(rest: seq<Comment>)
    requires CommentsOk(rest)
    ensures CommentsOk([Close] + rest) && CommentsBytes([Close] + rest) == [STAR, SLASH] + CommentsBytes(rest)
  {
    hide CommentBytes, CommentsBytes, CommentsOk;
    ConsComment(Close, rest);
    CommentUnfolds(Close);
  }

  /** A plain byte is one as long as it makes no marker with the byte behind it. */
  lemma ReadPlain(b: byte, c: Comment, rest: seq<Comment>)
    requires CommentsOk([c] + rest)
    requires var next := CommentsBytes([c] + rest);
      next != [] ==> !(b == SLASH && next[0] == STAR) && !(b == STAR && next[0] == SLASH)
    ensures CommentsOk([Plain(b, c)] + rest)
    ensures CommentsBytes([Plain(b, c)] + rest) == [b] + CommentsBytes([c] + rest)
  {
    hide CommentBytes, CommentsBytes, CommentsOk;
    ConsComment(c, rest);
    ConsComment(Plain(b, c), rest);
    CommentUnfolds(Plain(b, c));
    assert CommentsBytes([c] + rest)[0] == CommentBytes(c)[0];
    FourJoined([b], CommentBytes(c), [], CommentsBytes(rest));
    assert CommentBytes(c) + [] == CommentBytes(c);
  }

  lemma SplitHead(cs: seq<Comment>)
    ensures |cs| >= 1 ==> cs == [cs[0]] + cs[1..]
    ensures |cs| >= 2 ==> cs == [cs[0]] + ([cs[1]] + cs[2..])
  {
  }

  lemma SplitTwo(s: seq<byte>, at: nat, end: nat)
    requires at + 2 <= end <= |s|
    ensures s[at..end] == [s[at], s[at + 1]] + s[at + 2..end]
  {
  }

  lemma SplitOne(s: seq<byte>, at: nat, end: nat)
    requires at < end <= |s|
    ensures s[at..end] == [s[at]] + s[at + 1..end]
    ensures at + 1 < end ==> s[at + 1..end][0] == s[at + 1]
  {
  }

  /** A scan that stops before the end of the text has closed every level it had open. */
  lemma {:induction false} CommentsRead(s: seq<byte>, at: nat, depth: nat) returns (cs: seq<Comment>)
    requires at <= |s| && BlockCommentEnd(s, at, depth) < |s|
    ensures |cs| == depth && CommentsOk(cs) && s[at..BlockCommentEnd(s, at, depth)] == CommentsBytes(cs)
    decreases |s| - at
  {
    hide StartsWith, CommentsBytes, CommentsOk;
    var end := BlockCommentEnd(s, at, depth);
    StartsWithTwo(s, SLASH, STAR, at);
    StartsWithTwo(s, STAR, SLASH, at);
    if depth == 0 {
      cs := [];
      NoComments();
      NoneIsOk();
    } else if StartsWith(s, [SLASH, STAR], at) {
      var rest := CommentsRead(s, at + 2, depth + 1);
      SplitHead(rest);
      ReadNested(rest[0], rest[1], rest[2..]);
      SplitTwo(s, at, end);
      cs := [Nested(rest[0], rest[1])] + rest[2..];
    } else if StartsWith(s, [STAR, SLASH], at) {
      var rest := CommentsRead(s, at + 2, depth - 1);
      ReadClose(rest);
      SplitTwo(s, at, end);
      cs := [Close] + rest;
    } else {
      var rest := CommentsRead(s, at + 1, depth);
      SplitHead(rest);
      SplitOne(s, at, end);
      ReadPlain(s[at], rest[0], rest[1..]);
      cs := [Plain(s[at], rest[0])] + rest[1..];
    }
  }

  lemma NoneIsOk()
    ensures CommentsOk([])
  {
  }

  /** The same for a string: stopping before the end means a closing quote. */
  lemma {:induction false} PiecesRead(s: seq<byte>, at: nat) returns (pieces: seq<Piece>)
    requires at <= |s| && StringEnd(s, at) < |s|
    ensures PiecesOk(pieces) && s[at..StringEnd(s, at)] == PiecesBytes(pieces)
    decreases |s| - at
  {
    var end := StringEnd(s, at);
    if s[at] == QUOTE {
      return [];
    } else if s[at] == BACKSLASH {
      var rest := PiecesRead(s, at + 2);
      pieces := [Escaped(s[at + 1])] + rest;
      assert pieces[1..] == rest;
      SplitTwo(s, at, end);
    } else {
      var rest := PiecesRead(s, at + 1);
      pieces := [Char(s[at])] + rest;
      assert pieces[1..] == rest;
      assert s[at..end] == [s[at]] + s[at + 1..end];
    }
  }

  lemma PrefixOfRest(before: seq<byte>, opener: seq<byte>, text: seq<byte>, end: nat)
    requires |before| + |opener| <= end <= |before| + |opener| + |text|
    ensures (before + (opener + text))[|before| + |opener|..end] <= text
  {
    assert (before + (opener + text))[|before| + |opener|..end] == text[..end - |before| - |opener|];
  }

  lemma CommentStops(before: seq<byte>, text: seq<byte>)
    requires var s := before + ([SLASH, STAR] + text); BlockCommentEnd(s, |before| + 2, 1) < |s|
    ensures ClosesComment(text)
  {
    hide BlockCommentEnd, CommentBytes, CommentOk;
    var s, at := before + ([SLASH, STAR] + text), |before| + 2;
    var cs := CommentsRead(s, at, 1);
    OneComment(cs);
    PrefixOfRest(before, [SLASH, STAR], text, BlockCommentEnd(s, at, 1));
    assert CommentOk(cs[0]) && CommentBytes(cs[0]) <= text;
  }

  lemma UnclosedCommentRegion(before: seq<byte>, text: seq<byte>)
    requires !ClosesComment(text)
    ensures var s := before + ([SLASH, STAR] + text); RegionEnd(s, |before|) == Some(|s|)
  {
    hide StartsWith, ClosesComment, BlockCommentEnd;
    var s, at := before + ([SLASH, STAR] + text), |before|;
    StartsWithTwo(s, SLASH, SLASH, at);
    StartsWithTwo(s, SLASH, STAR, at);
    assert s[at] == SLASH && s[at + 1] == STAR;
    if BlockCommentEnd(s, at + 2, 1) < |s| {
      CommentStops(before, text);
      assert false;
    }
  }

  lemma OneComment(cs: seq<Comment>)
    requires |cs| == 1
    ensures CommentsBytes(cs) == CommentBytes(cs[0])
  {
    hide CommentBytes;
    NoComments();
    assert cs[1..] == [];
    assert CommentBytes(cs[0]) + [] == CommentBytes(cs[0]);
  }

  lemma StringStops(before: seq<byte>, text: seq<byte>)
    requires var s := before + ([QUOTE] + text); StringEnd(s, |before| + 1) < |s|
    ensures ClosesString(text)
  {
    hide StringEnd, PiecesOk, PiecesBytes;
    var s, at := before + ([QUOTE] + text), |before| + 1;
    var pieces := PiecesRead(s, at);
    PrefixOfRest(before, [QUOTE], text, StringEnd(s, at));
    assert PiecesOk(pieces) && PiecesBytes(pieces) <= text;
  }

  lemma UnclosedStringRegion(before: seq<byte>, text: seq<byte>)
    requires !ClosesString(text)
    ensures var s := before + ([QUOTE] + text); RegionEnd(s, |before|) == Some(|s|)
  {
    hide StartsWith, StringEnd, ClosesString;
    var s, at := before + ([QUOTE] + text), |before|;
    assert s[at] == QUOTE;
    StartsWithTwo(s, SLASH, SLASH, at);
    StartsWithTwo(s, SLASH, STAR, at);
    if StringEnd(s, at + 1) < |s| {
      StringStops(before, text);
      assert false;
    }
  }

  lemma UnclosedRawRegion(before: seq<byte>, prefix: seq<byte>, hashes: nat, text: seq<byte>)
    requires prefix in RAW_PREFIXES && !EndsInIdentifier(before) && NoTerminator(text, hashes, 0)
    ensures var s := before + (RawOpener(prefix, hashes) + text); RegionEnd(s, |before|) == Some(|s|)
  {
    hide StartsWith, RawStringEnd, RawOpener, RawTerminator;
    var opener := RawOpener(prefix, hashes);
    var s, at := before + (opener + text), |before|;
    RawOpensHere(before, prefix, hashes, text);
    assert s == (before + opener) + text;
    forall k | at + |opener| <= k
      ensures !StartsWith(s, RawTerminator(hashes), k)
    {
      StartsWithBehind(before + opener, text, RawTerminator(hashes), k - at - |opener|);
      StartsInside(text, RawTerminator(hashes), k - at - |opener|);
    }
    RawStringIff(s, at);
    assert IsRawString(s, at, |s|);
    RawIsNoComment(s, at, prefix, hashes);
  }

  lemma StartsInside(s: seq<byte>, prefix: seq<byte>, k: nat)
    requires prefix != []
    ensures StartsWith(s, prefix, k) ==> k < |s|
  {
  }

  lemma TokenRegion(before: seq<byte>, t: Token, after: seq<byte>)
    requires Fits(before, t, after)
    ensures var s := before + (TokenBytes(t) + after);
      RegionEnd(s, |before|) == if t.Code? then None else Some(|before| + |TokenBytes(t)|)
  {
    hide RegionEnd, IsCode, CommentOk, PiecesOk;
    match t {
      case Code(b) => CodeIsNoRegion(before, b, after);
      case LineComment(text) => LineCommentRegion(before, text, after);
      case BlockComment(body) => BlockCommentRegion(before, body, after);
      case StringLiteral(pieces) => StringRegion(before, pieces, after);
      case RawString(prefix, hashes, content) => RawStringRegion(before, prefix, hashes, content, after);
      case CharLiteral(inner) => CharRegion(before, inner, after);
      case UnclosedComment(text) =>
        UnclosedCommentRegion(before, text);
        assert TokenBytes(t) + after == TokenBytes(t);
      case UnclosedString(text) =>
        UnclosedStringRegion(before, text);
        assert TokenBytes(t) + after == TokenBytes(t);
      case UnclosedRaw(prefix, hashes, text) =>
        UnclosedRawRegion(before, prefix, hashes, text);
        assert TokenBytes(t) + after == TokenBytes(t);
    }
  }

  /** The lexer turns the token at `at` into its masked form and goes on behind it. */
  lemma RegionMasked(s: seq<byte>, at: nat, t: Token)
    requires at + |TokenBytes(t)| <= |s| && s[at..at + |TokenBytes(t)|] == TokenBytes(t) && s[at] == TokenBytes(t)[0]
    requires RegionEnd(s, at) == if t.Code? then None else Some(at + |TokenBytes(t)|)
    ensures Masked(s, at) == MaskToken(t) + Masked(s, at + |TokenBytes(t)|)
  {
    hide RegionEnd, TokenBytes, Masked;
    CodeByte(t);
    MaskedUnfolds(s, at);
  }

  lemma MiddleOf(before: seq<byte>, bytes: seq<byte>, rest: seq<byte>)
    requires bytes != []
    ensures var s := before + (bytes + rest);
      s[|before|..|before| + |bytes|] == bytes && s[|before|] == bytes[0]
  {
  }

  /** Masking a text token by token: every code byte survives, every other token is blanked. */
  lemma {:induction false} MaskKeepsExactlyCode(before: seq<byte>, tokens: seq<Token>)
    requires WellFormed(before, tokens)
    ensures Masked(before + Render(tokens), |before|) == MaskTokens(tokens)
    decreases |tokens|
  {
    hide Fits, TokenBytes, MaskToken, Masked, RegionEnd;
    if tokens != [] {
      var t, bytes, rest := tokens[0], TokenBytes(tokens[0]), Render(tokens[1..]);
      TokenRegion(before, t, rest);
      MiddleOf(before, bytes, rest);
      RegionMasked(before + (bytes + rest), |before|, t);
      assert before + (bytes + rest) == (before + bytes) + rest;
      MaskKeepsExactlyCode(before + bytes, tokens[1..]);
    } else {
      assert before + Render(tokens) == before;
    }
  }

  lemma CodeByte(t: Token)
    ensures t.Code? ==> TokenBytes(t) == [t.b]
  {
  }

  /** The whole file: masking its rendering keeps the code tokens and blanks exactly the others. */
  lemma MaskedFileKeepsExactlyCode(tokens: seq<Token>)
    requires WellFormed([], tokens)
    ensures Masked(Render(tokens), 0) == MaskTokens(tokens)
  {
    MaskKeepsExactlyCode([], tokens);
    assert [] + Render(tokens) == Render(tokens);
  }
}
