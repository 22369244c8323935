/** Every source text is one list of tokens, so what masking keeps is settled for all of them. */
module RustSource {
  import opened Common
  import opened RustLexemes
  import opened RustMask
  import opened RustTokens

  // ---------------------------------------------------------------------
  // The first token of a text, by what it starts with
  // ---------------------------------------------------------------------

  /** The token starts the text and leaves the rest to what follows. */
  ghost predicate IsFirst(before: seq<byte>, s: seq<byte>, t: Token, rest: seq<byte>) {
    s == TokenBytes(t) + rest && Fits(before, t, rest)
  }

  lemma FirstLineComment(before: seq<byte>, s: seq<byte>) returns (t: Token, rest: seq<byte>)
    requires StartsWith(s, [SLASH, SLASH], 0)
    ensures IsFirst(before, s, t, rest)
  {
    hide Find, StartsWith;
    StartsWithTwo(s, SLASH, SLASH, 0);
    var newline := Find(s, [LF], 2);
    var end := if newline.Some? then newline.value else |s|;
    t, rest := LineComment(s[2..end]), s[end..];
    forall k | 2 <= k < end
      ensures s[k] != LF
    {
      StartsWithOne(s, LF, k);
    }
    if newline.Some? {
      StartsWithOne(s, LF, end);
    }
    SplitAt(s, 2, end);
    assert s[..2] == [SLASH, SLASH];
  }

  lemma StartsWithOne(s: seq<byte>, b: byte, k: nat)
    ensures StartsWith(s, [b], k) <==> k < |s| && s[k] == b
  {
    if k < |s| {
      assert s[k..k + 1] == [s[k]];
    }
  }

  lemma SplitAt(s: seq<byte>, i: nat, j: nat)
    requires i <= j <= |s|
    ensures s == s[..i] + s[i..j] + s[j..]
  {
  }

  lemma Front(s: seq<byte>, prefix: seq<byte>)
    requires prefix <= s
    ensures s == prefix + s[|prefix|..]
  {
  }

  lemma FirstBlockComment(before: seq<byte>, s: seq<byte>) returns (t: Token, rest: seq<byte>)
    requires StartsWith(s, [SLASH, STAR], 0)
    ensures IsFirst(before, s, t, rest)
  {
    hide CommentOk, CommentBytes, StartsWith;
    PrefixAtStart(s, [SLASH, STAR]);
    Front(s, [SLASH, STAR]);
    var text := s[2..];
    if ClosesComment(text) {
      var c :| CommentOk(c) && CommentBytes(c) <= text;
      t, rest := BlockComment(c), text[|CommentBytes(c)|..];
      Front(text, CommentBytes(c));
      Joined([SLASH, STAR], CommentBytes(c), rest);
    } else {
      t, rest := UnclosedComment(text), [];
      assert s + [] == s;
    }
  }

  lemma Joined(a: seq<byte>, b: seq<byte>, c: seq<byte>)
    ensures a + (b + c) == a + b + c
  {
  }

  lemma FirstString(before: seq<byte>, s: seq<byte>) returns (t: Token, rest: seq<byte>)
    requires s != [] && s[0] == QUOTE
    ensures IsFirst(before, s, t, rest)
  {
    hide PiecesOk, PiecesBytes;
    assert s == [QUOTE] + s[1..];
    var text := s[1..];
    if ClosesString(text) {
      var pieces :| PiecesOk(pieces) && PiecesBytes(pieces) <= text;
      t, rest := StringLiteral(pieces), text[|PiecesBytes(pieces)|..];
      Front(text, PiecesBytes(pieces));
      Joined([QUOTE], PiecesBytes(pieces), rest);
    } else {
      t, rest := UnclosedString(text), [];
      assert s + [] == s;
    }
  }

  lemma FirstRawString(before: seq<byte>, s: seq<byte>, prefix: seq<byte>, n: nat) returns (t: Token, rest: seq<byte>)
    requires prefix in RAW_PREFIXES && !EndsInIdentifier(before) && RawOpener(prefix, n) <= s
    ensures IsFirst(before, s, t, rest)
  {
    hide RawOpener, RawTerminator, StartsWith, Find, EndsInIdentifier;
    var opener, terminator := RawOpener(prefix, n), RawTerminator(n);
    Front(s, opener);
    var text := s[|opener|..];
    var closing := Find(text, terminator, 0);
    if closing.Some? {
      var content := text[..closing.value];
      t, rest := RawString(prefix, n, content), text[closing.value + |terminator|..];
      AtTerminator(text, terminator, closing.value);
      forall k | 0 <= k < |content|
        ensures !StartsWith(content + terminator, terminator, k)
      {
        StartsWithinFront(content + terminator, rest, terminator, k);
      }
      Joined(opener, content + terminator, rest);
    } else {
      t, rest := UnclosedRaw(prefix, n, text), [];
      assert s + [] == s;
    }
  }

  lemma AtTerminator(text: seq<byte>, terminator: seq<byte>, k: nat)
    requires StartsWith(text, terminator, k)
    ensures text == text[..k] + terminator + text[k + |terminator|..]
  {
    SplitAt(text, k, k + |terminator|);
  }

  lemma FirstCharLiteral(before: seq<byte>, s: seq<byte>, end: nat) returns (t: Token, rest: seq<byte>)
    requires s != [] && s[0] == APOSTROPHE && end <= |s| - 1 && IsCharTail(s[1..][..end])
    ensures IsFirst(before, s, t, rest)
  {
    var content: CharContent :| content.Valid() && s[1..][..end] == content.Bytes() + [APOSTROPHE];
    t, rest := CharLiteral(content), s[1 + end..];
    assert s == [APOSTROPHE] + s[1..][..end] + rest;
  }

  lemma FirstCode(before: seq<byte>, s: seq<byte>)
    requires s != [] && s[0] != QUOTE
    requires !StartsWith(s, [SLASH, SLASH], 0) && !StartsWith(s, [SLASH, STAR], 0)
    requires s[0] == APOSTROPHE ==> forall end :: 0 <= end <= |s| - 1 ==> !IsCharTail(s[1..][..end])
    requires !EndsInIdentifier(before) ==> forall prefix, n: nat :: prefix in RAW_PREFIXES ==> !(RawOpener(prefix, n) <= s)
    ensures IsFirst(before, s, Code(s[0]), s[1..])
  {
    hide StartsWith, RawOpener, IsCharTail, EndsInIdentifier;
    StartsWithTwo(s, SLASH, SLASH, 0);
    StartsWithTwo(s, SLASH, STAR, 0);
    assert [s[0]] + s[1..] == s;
    assert |s| >= 2 ==> s[1..][0] == s[1];
  }

  lemma FirstToken(before: seq<byte>, s: seq<byte>) returns (t: Token, rest: seq<byte>)
    requires s != []
    ensures IsFirst(before, s, t, rest)
  {
    hide IsFirst, StartsWith, RawOpener, IsCharTail, EndsInIdentifier;
    if StartsWith(s, [SLASH, SLASH], 0) {
      t, rest := FirstLineComment(before, s);
    } else if StartsWith(s, [SLASH, STAR], 0) {
      t, rest := FirstBlockComment(before, s);
    } else if s[0] == QUOTE {
      t, rest := FirstString(before, s);
    } else if prefix, n: nat :| prefix in RAW_PREFIXES && !EndsInIdentifier(before) && RawOpener(prefix, n) <= s {
      t, rest := FirstRawString(before, s, prefix, n);
    } else if end :| s[0] == APOSTROPHE && 0 <= end <= |s| - 1 && IsCharTail(s[1..][..end]) {
      t, rest := FirstCharLiteral(before, s, end);
    } else {
      FirstCode(before, s);
      t, rest := Code(s[0]), s[1..];
    }
  }

  // ---------------------------------------------------------------------
  // The whole text
  // ---------------------------------------------------------------------

  lemma {:induction false} TextIsTokens(before: seq<byte>, s: seq<byte>) returns (tokens: seq<Token>)
    ensures Render(tokens) == s && WellFormed(before, tokens)
    decreases |s|
  {
    hide TokenBytes, Fits;
    if s == [] {
      return [];
    }
    var t, rest := FirstToken(before, s);
    var more := TextIsTokens(before + TokenBytes(t), rest);
    tokens := [t] + more;
    assert tokens[1..] == more;
  }

  /** Any file whatever: masking keeps its code bytes and blanks exactly its comments and literals. */
  lemma EveryFileKeepsExactlyCode(source: seq<byte>)
    ensures exists tokens :: Render(tokens) == source && WellFormed([], tokens)
    ensures forall tokens :: Render(tokens) == source && WellFormed([], tokens) ==> Masked(source, 0) == MaskTokens(tokens)
  {
    hide Render, WellFormed, Masked, MaskTokens;
    var some := TextIsTokens([], source);
    forall tokens | Render(tokens) == source && WellFormed([], tokens)
      ensures Masked(source, 0) == MaskTokens(tokens)
    {
      MaskedFileKeepsExactlyCode(tokens);
    }
  }
}
