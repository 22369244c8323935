/** Extents of top-level `#[cfg(test)]` items and the line partition of hotspot_metrics.py. */
module Hotspots {
  import opened Common
  import opened RustLexemes
  import opened RustMask

  const TAB: byte := 0x09
  const OPEN_ROUND: byte := 0x28
  const CLOSE_ROUND: byte := 0x29
  const MINUS: byte := 0x2D
  const SEMICOLON: byte := 0x3B
  const LESS: byte := 0x3C
  const GREATER: byte := 0x3E
  const OPEN_SQUARE: byte := 0x5B
  const CLOSE_SQUARE: byte := 0x5D

  const RUST_WHITESPACE: set<byte> := {0x20, 0x09, 0x0D, 0x0A}

  predicate IsRustWhitespace(b: byte) {
    b == SPACE || b == TAB || b == CR || b == LF
  }

  /** First position at or after `cursor` that is not whitespace. */
  function SkipRustWhitespace(s: seq<byte>, cursor: nat): (r: nat)
    requires cursor <= |s|
    ensures cursor <= r <= |s| && (r < |s| ==> s[r] !in RUST_WHITESPACE)
    ensures forall k :: cursor <= k < r ==> s[k] in RUST_WHITESPACE
    decreases |s| - cursor
  {
    if cursor < |s| && IsRustWhitespace(s[cursor]) then SkipRustWhitespace(s, cursor + 1) else cursor
  }

  datatype ItemKind = BodyOrSemicolon | SemicolonOnly

  /**
   * The two recognisers the scan consults: whether an attribute's text is exactly
   * `cfg(test)`, and, after the attribute, the item's kind and where to look for
   * its end (`None` for an item it does not support).
   */
  datatype Recognisers = Recognisers(
    isCfgTest: seq<byte> -> bool, itemKind: (seq<byte>, nat) -> Option<(ItemKind, nat)>)

  /** Item kinds are found inside the text, after the attribute. */
  ghost predicate Sound(rec: Recognisers) {
    forall s, at: nat :: at <= |s| && rec.itemKind(s, at).Some? ==> at <= rec.itemKind(s, at).value.1 <= |s|
  }

  // ---------------------------------------------------------------------
  // Where an item ends
  // ---------------------------------------------------------------------

  datatype Depths = Depths(round: int, square: int, curly: int, angle: nat)

  const FLAT: Depths := Depths(0, 0, 0, 0)

  /** Depths after the byte at `k`; an arrow's `>` closes nothing. */
  function Step(s: seq<byte>, k: nat, kind: ItemKind, d: Depths): Depths
    requires k < |s|
  {
    var b := s[k];
    if b == OPEN_ROUND then d.(round := d.round + 1)
    else if b == CLOSE_ROUND then d.(round := d.round - 1)
    else if b == OPEN_SQUARE then d.(square := d.square + 1)
    else if b == CLOSE_SQUARE then d.(square := d.square - 1)
    else if kind.BodyOrSemicolon? && b == LESS && d.round == 0 && d.square == 0 then d.(angle := d.angle + 1)
    else if kind.BodyOrSemicolon? && b == GREATER && d.angle > 0 && (k == 0 || s[k - 1] != MINUS) then
      d.(angle := d.angle - 1)
    else if b == OPEN_BRACE then d.(curly := d.curly + 1)
    else if b == CLOSE_BRACE then d.(curly := d.curly - 1)
    else d
  }

  /** Depths at `k`, counted from `start`. */
  function DepthsAt(s: seq<byte>, start: nat, kind: ItemKind, k: nat): Depths
    requires start <= k <= |s|
    decreases k - start
  {
    if k == start then FLAT else Step(s, k - 1, kind, DepthsAt(s, start, kind, k - 1))
  }

  /** Where this byte occurs from `start` up to `k`. */
  ghost function Occurrences(s: seq<byte>, start: nat, k: nat, b: byte): set<nat>
    requires k <= |s|
  {
    set i: nat | start <= i < k && s[i] == b
  }

  lemma OneMoreOccurrence(s: seq<byte>, start: nat, k: nat, b: byte)
    requires start <= k < |s|
    ensures |Occurrences(s, start, k + 1, b)| == |Occurrences(s, start, k, b)| + if s[k] == b then 1 else 0
  {
    var before, after := Occurrences(s, start, k, b), Occurrences(s, start, k + 1, b);
    if s[k] == b {
      assert after == before + {k};
    } else {
      assert after == before;
    }
  }

  /** Bracket depths are opening minus closing brackets; angle depth never exceeds the `<` seen, and is for bodies only. */
  lemma {:induction false} DepthsAreBalances(s: seq<byte>, start: nat, kind: ItemKind, k: nat)
    requires start <= k <= |s|
    ensures var d := DepthsAt(s, start, kind, k);
      && d.round == |Occurrences(s, start, k, OPEN_ROUND)| - |Occurrences(s, start, k, CLOSE_ROUND)|
      && d.square == |Occurrences(s, start, k, OPEN_SQUARE)| - |Occurrences(s, start, k, CLOSE_SQUARE)|
      && d.curly == |Occurrences(s, start, k, OPEN_BRACE)| - |Occurrences(s, start, k, CLOSE_BRACE)|
      && d.angle <= |Occurrences(s, start, k, LESS)| && (kind.SemicolonOnly? ==> d.angle == 0)
    decreases k - start
  {
    if k == start {
      assert forall b: byte :: Occurrences(s, start, k, b) == {};
    } else {
      DepthsAreBalances(s, start, kind, k - 1);
      hide Occurrences;
      OneMoreOccurrence(s, start, k - 1, OPEN_ROUND);
      OneMoreOccurrence(s, start, k - 1, CLOSE_ROUND);
      OneMoreOccurrence(s, start, k - 1, OPEN_SQUARE);
      OneMoreOccurrence(s, start, k - 1, CLOSE_SQUARE);
      OneMoreOccurrence(s, start, k - 1, OPEN_BRACE);
      OneMoreOccurrence(s, start, k - 1, CLOSE_BRACE);
      OneMoreOccurrence(s, start, k - 1, LESS);
    }
  }

  predicate OpensBody(s: seq<byte>, start: nat, kind: ItemKind, k: nat)
    requires start <= k < |s|
  {
    kind.BodyOrSemicolon? && s[k] == OPEN_BRACE && DepthsAt(s, start, kind, k) == FLAT
  }

  predicate EndsStatement(s: seq<byte>, start: nat, kind: ItemKind, k: nat)
    requires start <= k < |s|
  {
    s[k] == SEMICOLON && DepthsAt(s, start, kind, k) == FLAT
  }

  /** No byte before `k` ends the item. */
  predicate RunsTo(s: seq<byte>, start: nat, kind: ItemKind, k: nat)
    requires start <= k <= |s|
  {
    forall j :: start <= j < k ==> !OpensBody(s, start, kind, j) && !EndsStatement(s, start, kind, j)
  }

  /** The first `{` or `;` outside every bracket decides; a body runs to its matching brace. */
  ghost predicate ItemEndsAt(s: seq<byte>, start: nat, kind: ItemKind, end: nat)
    requires start <= |s|
  {
    exists k :: start <= k < |s| && RunsTo(s, start, kind, k)
      && ((EndsStatement(s, start, kind, k) && end == k + 1)
          || (OpensBody(s, start, kind, k) && k < end <= |s| && IsFirstClose(s, k, end - 1)))
  }

  predicate IsFirstClose(s: seq<byte>, open: nat, k: nat)
    requires open <= k < |s|
  {
    && ClosesAt(s, OPEN_BRACE, CLOSE_BRACE, open, k)
    && forall j :: open <= j < k ==> !ClosesAt(s, OPEN_BRACE, CLOSE_BRACE, open, j)
  }

  method CfgTestItemEnd(s: seq<byte>, start: nat, kind: ItemKind) returns (r: Option<nat>)
    requires start <= |s|
    ensures r.Some? ==> start < r.value <= |s| && ItemEndsAt(s, start, kind, r.value)
    ensures r.None? ==> forall end :: !ItemEndsAt(s, start, kind, end)
  {
    hide ClosesAt;
    var round, square, curly := 0, 0, 0;
    var angle: nat := 0;
    var cursor := start;
    while cursor < |s|
      invariant start <= cursor <= |s|
      invariant Depths(round, square, curly, angle) == DepthsAt(s, start, kind, cursor)
      invariant RunsTo(s, start, kind, cursor)
    {
      hide DepthsAt, OpensBody, EndsStatement, RunsTo, ItemEndsAt;
      EndHere(s, start, kind, cursor);
      DepthsStep(s, start, kind, cursor);
      var b := s[cursor];
      if b == OPEN_ROUND {
        round := round + 1;
      } else if b == CLOSE_ROUND {
        round := round - 1;
      } else if b == OPEN_SQUARE {
        square := square + 1;
      } else if b == CLOSE_SQUARE {
        square := square - 1;
      } else if kind.BodyOrSemicolon? && b == LESS && round == 0 && square == 0 {
        angle := angle + 1;
      } else if kind.BodyOrSemicolon? && b == GREATER && angle > 0 && (cursor == 0 || s[cursor - 1] != MINUS) {
        angle := angle - 1;
      } else if b == OPEN_BRACE {
        if kind.BodyOrSemicolon? && round == 0 && square == 0 && curly == 0 && angle == 0 {
          var closing := MatchingRustDelimiter(s, cursor, OPEN_BRACE, CLOSE_BRACE);
          if closing.None? {
            UnterminatedBody(s, start, kind, cursor);
            return None;
          }
          BodyCloses(s, start, kind, cursor, closing.value);
          return Some(closing.value + 1);
        }
        curly := curly + 1;
      } else if b == CLOSE_BRACE {
        curly := curly - 1;
      } else if b == SEMICOLON && round == 0 && square == 0 && curly == 0 && angle == 0 {
        return Some(cursor + 1);
      }
      cursor := cursor + 1;
    }
    hide OpensBody, EndsStatement;
    return None;
  }

  lemma DepthsStep(s: seq<byte>, start: nat, kind: ItemKind, k: nat)
    requires start <= k < |s|
    ensures DepthsAt(s, start, kind, k + 1) == Step(s, k, kind, DepthsAt(s, start, kind, k))
  {
    hide Step;
  }

  /** What the byte at `k` decides, by the depths before it. */
  lemma EndHere(s: seq<byte>, start: nat, kind: ItemKind, k: nat)
    requires start <= k < |s| && RunsTo(s, start, kind, k)
    ensures var flat := DepthsAt(s, start, kind, k) == FLAT;
      && (OpensBody(s, start, kind, k) <==> kind.BodyOrSemicolon? && s[k] == OPEN_BRACE && flat)
      && (s[k] == SEMICOLON && flat ==> ItemEndsAt(s, start, kind, k + 1))
      && (RunsTo(s, start, kind, k + 1) <==> !(flat && (s[k] == SEMICOLON || (kind.BodyOrSemicolon? && s[k] == OPEN_BRACE))))
  {
    hide DepthsAt, IsFirstClose;
    assert EndsStatement(s, start, kind, k) <==> s[k] == SEMICOLON && DepthsAt(s, start, kind, k) == FLAT;
  }

  lemma BodyCloses(s: seq<byte>, start: nat, kind: ItemKind, k: nat, closing: nat)
    requires start <= k < |s| && RunsTo(s, start, kind, k) && OpensBody(s, start, kind, k)
    requires k <= closing < |s| && IsFirstClose(s, k, closing)
    ensures ItemEndsAt(s, start, kind, closing + 1)
  {
    hide RunsTo, OpensBody, EndsStatement, IsFirstClose;
  }

  lemma UnterminatedBody(s: seq<byte>, start: nat, kind: ItemKind, k: nat)
    requires start <= k < |s| && OpensBody(s, start, kind, k)
    requires RunsTo(s, start, kind, k)
    requires forall j :: k <= j < |s| ==> !ClosesAt(s, OPEN_BRACE, CLOSE_BRACE, k, j)
    ensures forall end :: !ItemEndsAt(s, start, kind, end)
  {
  }

  /** An item has one end. */
  lemma ItemEndIsUnique(s: seq<byte>, start: nat, kind: ItemKind, a: nat, b: nat)
    requires start <= |s| && ItemEndsAt(s, start, kind, a) && ItemEndsAt(s, start, kind, b)
    ensures a == b
  {
    hide ClosesAt, DepthsAt;
    var k :| start <= k < |s|
      && RunsTo(s, start, kind, k)
      && ((EndsStatement(s, start, kind, k) && a == k + 1)
          || (OpensBody(s, start, kind, k) && k < a <= |s| && IsFirstClose(s, k, a - 1)));
    var m :| start <= m < |s|
      && RunsTo(s, start, kind, m)
      && ((EndsStatement(s, start, kind, m) && b == m + 1)
          || (OpensBody(s, start, kind, m) && m < b <= |s| && IsFirstClose(s, m, b - 1)));
    assert k == m;
    assert s[k] == SEMICOLON || s[k] == OPEN_BRACE;
  }

  // ---------------------------------------------------------------------
  // The spans of a file
  // ---------------------------------------------------------------------

  datatype Span = Span(start: nat, end: nat)

  /** The closing bracket of the attribute that starts with `#` at `p`, if it is one. */
  ghost predicate AttributeCloses(s: seq<byte>, p: nat, closing: nat)
    requires p < |s|
  {
    var bracket := SkipRustWhitespace(s, p + 1);
    && s[p] == HASH && bracket < |s| && s[bracket] == OPEN_SQUARE
    && bracket <= closing < |s| && ClosesAt(s, OPEN_SQUARE, CLOSE_SQUARE, bracket, closing)
    && forall j :: bracket <= j < closing ==> !ClosesAt(s, OPEN_SQUARE, CLOSE_SQUARE, bracket, j)
  }

  predicate AtTopLevel(s: seq<byte>, p: nat)
    requires p <= |s|
  {
    Balance(s, OPEN_BRACE, CLOSE_BRACE, 0, p) == 0
  }

  /** A top-level exact `#[cfg(test)]` at `p`. */
  ghost predicate IsTestAttribute(rec: Recognisers, s: seq<byte>, p: nat)
    requires p < |s|
  {
    && AtTopLevel(s, p)
    && exists closing: nat :: AttributeCloses(s, p, closing)
         && rec.isCfgTest(s[SkipRustWhitespace(s, p + 1) + 1..closing])
  }

  /** The item of a test attribute: from the `#` to the end of the item behind the attribute. */
  ghost predicate IsTestSpan(rec: Recognisers, s: seq<byte>, span: Span)
  {
    && span.start < span.end <= |s| && IsTestAttribute(rec, s, span.start)
    && exists closing: nat :: AttributeCloses(s, span.start, closing)
         && rec.itemKind(s, closing + 1).Some?
         && var (kind, search) := rec.itemKind(s, closing + 1).value;
            span.start < search <= |s| && ItemEndsAt(s, search, kind, span.end)
  }

  /** The attribute that starts at `p` is never closed. */
  ghost predicate NeverCloses(s: seq<byte>, p: nat)
    requires p < |s|
  {
    var bracket := SkipRustWhitespace(s, p + 1);
    && bracket < |s| && s[bracket] == OPEN_SQUARE
    && forall j :: bracket <= j < |s| ==> !ClosesAt(s, OPEN_SQUARE, CLOSE_SQUARE, bracket, j)
  }

  /** Behind the attribute closed at `closing` stands no supported item that ends. */
  ghost predicate HasNoItem(rec: Recognisers, s: seq<byte>, closing: nat)
    requires closing < |s|
  {
    var found := rec.itemKind(s, closing + 1);
    found.Some? ==>
      var (kind, search) := found.value;
      search <= |s| && forall end :: !ItemEndsAt(s, search, kind, end)
  }

  /** The three errors of the scan, at the top-level `#` at `p`. */
  ghost predicate ScanFailsAt(rec: Recognisers, s: seq<byte>, p: nat)
    requires p < |s|
  {
    && s[p] == HASH && AtTopLevel(s, p)
    && (|| NeverCloses(s, p)
        || exists closing: nat :: AttributeCloses(s, p, closing)
             && rec.isCfgTest(s[SkipRustWhitespace(s, p + 1) + 1..closing]) && HasNoItem(rec, s, closing))
  }

  /** An attribute closes in one place, so its failure is that of its one closing bracket. */
  lemma FailureAtClosing(rec: Recognisers, s: seq<byte>, p: nat, closing: nat)
    requires p < |s| && AtTopLevel(s, p) && AttributeCloses(s, p, closing)
    ensures ScanFailsAt(rec, s, p) <==>
      rec.isCfgTest(s[SkipRustWhitespace(s, p + 1) + 1..closing]) && HasNoItem(rec, s, closing)
  {
    hide ClosesAt, AtTopLevel, SkipRustWhitespace, HasNoItem;
    assert forall other: nat :: AttributeCloses(s, p, other) ==> other == closing;
  }

  /** The span that starts at `p`; outer `None` is an error, inner `None` no test item. */
  method SpanAt(rec: Recognisers, s: seq<byte>, p: nat) returns (r: Option<Option<Span>>)
    requires Sound(rec) && p < |s| && s[p] == HASH && AtTopLevel(s, p)
    ensures r.None? <==> ScanFailsAt(rec, s, p)
    ensures r.Some? ==> (r.value.Some? <==> IsTestAttribute(rec, s, p))
    ensures r.Some? && r.value.Some? ==> r.value.value.start == p && IsTestSpan(rec, s, r.value.value)
  {
    hide ClosesAt, ItemEndsAt, AtTopLevel, SkipRustWhitespace, ScanFailsAt;
    var bracket := SkipRustWhitespace(s, p + 1);
    if bracket < |s| && s[bracket] == OPEN_SQUARE {
      var closing := MatchingRustDelimiter(s, bracket, OPEN_SQUARE, CLOSE_SQUARE);
      if closing.None? {
        UnclosedFails(rec, s, p);
        return None;
      }
      assert AttributeCloses(s, p, closing.value);
      FailureAtClosing(rec, s, p, closing.value);
      if rec.isCfgTest(s[bracket + 1..closing.value]) {
        var found := rec.itemKind(s, closing.value + 1);
        if found.None? {
          return None;
        }
        var (kind, search) := found.value;
        var end := CfgTestItemEnd(s, search, kind);
        if end.None? {
          return None;
        }
        return Some(Some(Span(p, end.value)));
      }
      assert forall other: nat :: AttributeCloses(s, p, other) ==> other == closing.value;
    } else {
      NoAttributeNoFailure(rec, s, p);
    }
    return Some(None);
  }

  lemma UnclosedFails(rec: Recognisers, s: seq<byte>, p: nat)
    requires p < |s| && s[p] == HASH && AtTopLevel(s, p) && NeverCloses(s, p)
    ensures ScanFailsAt(rec, s, p)
  {
  }

  lemma NoAttributeNoFailure(rec: Recognisers, s: seq<byte>, p: nat)
    requires p < |s|
    requires var bracket := SkipRustWhitespace(s, p + 1); bracket == |s| || s[bracket] != OPEN_SQUARE
    ensures !ScanFailsAt(rec, s, p)
  {
  }

  /** The spans are those of the top-level test attributes, all of them, in order; fails exactly at an error. */
  method TopLevelCfgTestItemSpans(rec: Recognisers, s: seq<byte>) returns (r: Option<seq<Span>>)
    requires Sound(rec)
    ensures r.None? <==> exists p :: 0 <= p < |s| && ScanFailsAt(rec, s, p)
    ensures r.Some? ==> forall i :: 0 <= i < |r.value| ==> IsTestSpan(rec, s, r.value[i])
    ensures r.Some? ==> forall i, j :: 0 <= i < j < |r.value| ==> r.value[i].start < r.value[j].start
    ensures r.Some? ==> forall p :: 0 <= p < |s| && IsTestAttribute(rec, s, p) ==> StartsSpan(r.value, p)
  {
    hide IsTestSpan, AttributeCloses, Sound, NeverCloses, HasNoItem;
    var spans: seq<Span> := [];
    var depth := 0;
    var cursor := 0;
    while cursor < |s|
      invariant 0 <= cursor <= |s| && depth == Balance(s, OPEN_BRACE, CLOSE_BRACE, 0, cursor)
      invariant forall i :: 0 <= i < |spans| ==> IsTestSpan(rec, s, spans[i]) && spans[i].start < cursor
      invariant forall i, j :: 0 <= i < j < |spans| ==> spans[i].start < spans[j].start
      invariant forall p :: 0 <= p < cursor && IsTestAttribute(rec, s, p) ==> StartsSpan(spans, p)
      invariant forall p :: 0 <= p < cursor ==> !ScanFailsAt(rec, s, p)
    {
      var b := s[cursor];
      NotAnAttribute(rec, s, cursor);
      if b == OPEN_BRACE {
        depth := depth + 1;
      } else if b == CLOSE_BRACE {
        depth := depth - 1;
      } else if b == HASH && depth == 0 {
        var span := SpanAt(rec, s, cursor);
        if span.None? {
          return None;
        }
        if span.value.Some? {
          StartsSnoc(spans, span.value.value);
          spans := spans + [span.value.value];
        }
      }
      cursor := cursor + 1;
    }
    return Some(spans);
  }

  predicate StartsSpan(spans: seq<Span>, p: nat) {
    exists i :: 0 <= i < |spans| && spans[i].start == p
  }

  lemma StartsSnoc(spans: seq<Span>, span: Span)
    ensures StartsSpan(spans + [span], span.start)
    ensures forall p :: StartsSpan(spans, p) ==> StartsSpan(spans + [span], p)
  {
    var r := spans + [span];
    assert r[|spans|] == span;
    forall p | StartsSpan(spans, p)
      ensures StartsSpan(r, p)
    {
      var i :| 0 <= i < |spans| && spans[i].start == p;
      assert r[i].start == p;
    }
  }

  lemma NotAnAttribute(rec: Recognisers, s: seq<byte>, p: nat)
    requires p < |s|
    ensures IsTestAttribute(rec, s, p) ==> s[p] == HASH && AtTopLevel(s, p)
  {
  }

  // ---------------------------------------------------------------------
  // Physical lines
  // ---------------------------------------------------------------------

  /** `encoded.count(b"\n", 0, p)`: the line that byte `p` is on. */
  function LineOf(s: seq<byte>, p: nat): nat
    requires p <= |s|
  {
    if p == 0 then 0 else LineOf(s, p - 1) + (if s[p - 1] == LF then 1 else 0)
  }

  /** `len(source.splitlines())` of a text whose only line ends are line feeds. */
  function LineCount(s: seq<byte>): nat {
    LineOf(s, |s|) + (if s != [] && s[|s| - 1] != LF then 1 else 0)
  }

  lemma {:induction false} LinesAreMonotone(s: seq<byte>, p: nat, q: nat)
    requires p <= q <= |s|
    ensures LineOf(s, p) <= LineOf(s, q)
    decreases q
  {
    if p < q {
      LinesAreMonotone(s, p, q - 1);
    }
  }

  /** Every byte is on a physical line. */
  lemma LineExists(s: seq<byte>, p: nat)
    requires p < |s|
    ensures LineOf(s, p) < LineCount(s)
  {
    LinesAreMonotone(s, p, |s| - 1);
  }

  /** ... and every line counted has a byte. */
  lemma LineIsInhabited(s: seq<byte>, line: nat) returns (p: nat)
    requires line < LineCount(s)
    ensures p < |s| && LineOf(s, p) == line
  {
    assert s != [] && LineOf(s, 0) == 0 && LineOf(s, |s| - 1) == LineCount(s) - 1;
    p := LineIsReached(s, 0, |s| - 1, line);
  }

  /** Lines are met one after the other: no line between two bytes is skipped. */
  lemma {:induction false} LineIsReached(s: seq<byte>, p: nat, q: nat, line: nat) returns (at: nat)
    requires p <= q < |s| && LineOf(s, p) <= line <= LineOf(s, q)
    ensures p <= at <= q && LineOf(s, at) == line
    decreases q
  {
    if line == LineOf(s, q) {
      at := q;
    } else {
      at := LineIsReached(s, p, q - 1, line);
    }
  }

  /** Some byte of the span is on this line. */
  ghost predicate SpanTouches(s: seq<byte>, span: Span, line: nat) {
    exists p :: span.start <= p < span.end <= |s| && LineOf(s, p) == line
  }

  /** Some byte of a test item is on this line. */
  ghost predicate Touched(s: seq<byte>, spans: seq<Span>, line: nat) {
    exists i :: 0 <= i < |spans| && SpanTouches(s, spans[i], line)
  }

  predicate InText(spans: seq<Span>, s: seq<byte>) {
    forall i :: 0 <= i < |spans| ==> spans[i].start < spans[i].end <= |s|
  }

  function LineRange(first: nat, last: nat): (r: set<nat>)
    ensures forall line :: line in r <==> first <= line <= last
    decreases last + 1 - first
  {
    if first > last then {} else {first} + LineRange(first + 1, last)
  }

  /** The lines touched by the spans, collected as ranges from first to last line. */
  method TestLineIndexes(s: seq<byte>, spans: seq<Span>) returns (lines: set<nat>)
    requires InText(spans, s)
    ensures forall line :: line in lines <==> Touched(s, spans, line)
  {
    lines := {};
    for i := 0 to |spans|
      invariant forall line :: line in lines <==> Touched(s, spans[..i], line)
    {
      var first := LineOf(s, spans[i].start);
      var last := LineOf(s, if spans[i].end - 1 > spans[i].start then spans[i].end - 1 else spans[i].start);
      var range := LineRange(first, last);
      TouchedSnoc(s, spans, i, range);
      lines := lines + range;
    }
    assert spans[..|spans|] == spans;
  }

  /** A span touches the lines from its first byte's to its last byte's, all of them. */
  lemma SpanLines(s: seq<byte>, span: Span, line: nat)
    requires span.start < span.end <= |s|
    ensures SpanTouches(s, span, line) <==> LineOf(s, span.start) <= line <= LineOf(s, span.end - 1)
  {
    hide LineOf;
    if SpanTouches(s, span, line) {
      var p :| span.start <= p < span.end <= |s| && LineOf(s, p) == line;
      LinesAreMonotone(s, span.start, p);
      LinesAreMonotone(s, p, span.end - 1);
    }
    if LineOf(s, span.start) <= line <= LineOf(s, span.end - 1) {
      var p := LineIsReached(s, span.start, span.end - 1, line);
    }
  }

  lemma TouchedSnoc(s: seq<byte>, spans: seq<Span>, i: nat, range: set<nat>)
    requires InText(spans, s) && i < |spans|
    requires forall line :: line in range <==> LineOf(s, spans[i].start) <= line <= LineOf(s, spans[i].end - 1)
    ensures forall line :: Touched(s, spans[..i + 1], line) <==> Touched(s, spans[..i], line) || line in range
  {
    hide LineOf, Touched, SpanTouches;
    forall line
      ensures Touched(s, spans[..i + 1], line) <==> Touched(s, spans[..i], line) || line in range
    {
      SpanLines(s, spans[i], line);
      TouchedOneMore(s, spans, i, line);
    }
  }

  lemma TouchedOneMore(s: seq<byte>, spans: seq<Span>, i: nat, line: nat)
    requires i < |spans|
    ensures Touched(s, spans[..i + 1], line) <==> Touched(s, spans[..i], line) || SpanTouches(s, spans[i], line)
  {
    hide SpanTouches;
    var before, more := spans[..i], spans[..i + 1];
    if Touched(s, more, line) {
      var k :| 0 <= k < |more| && SpanTouches(s, more[k], line);
      assert k < i ==> before[k] == more[k];
    }
    if Touched(s, before, line) {
      var k :| 0 <= k < |before| && SpanTouches(s, before[k], line);
      assert before[k] == more[k];
    }
    assert more[i] == spans[i];
  }

  lemma LinesBelow(lines: set<nat>, n: nat)
    requires forall line :: line in lines ==> line < n
    ensures |lines| <= n
  {
    LineRangeSize(0, n);
    SubsetSize(lines, if n == 0 then {} else LineRange(0, n - 1));
  }

  lemma {:induction false} LineRangeSize(first: nat, n: nat)
    ensures n > 0 ==> |LineRange(first, first + n - 1)| == n
    decreases n
  {
    if n > 1 {
      LineRangeSize(first + 1, n - 1);
    } else if n == 1 {
      assert LineRange(first, first) == {first};
    }
  }

  /** A line of the source that holds some byte of a top-level test item of the masked text. */
  ghost predicate IsTestLine(rec: Recognisers, source: seq<byte>, line: nat) {
    exists span :: IsTestSpan(rec, Masked(source, 0), span) && SpanTouches(source, span, line)
  }

  lemma SpanIsUnique(rec: Recognisers, s: seq<byte>, a: Span, b: Span)
    requires IsTestSpan(rec, s, a) && IsTestSpan(rec, s, b) && a.start == b.start
    ensures a == b
  {
    hide ItemEndsAt, ClosesAt, SkipRustWhitespace, IsTestAttribute;
    var x: nat :| AttributeCloses(s, a.start, x) && rec.itemKind(s, x + 1).Some?
      && var (kind, search) := rec.itemKind(s, x + 1).value;
         a.start < search <= |s| && ItemEndsAt(s, search, kind, a.end);
    var y: nat :| AttributeCloses(s, b.start, y) && rec.itemKind(s, y + 1).Some?
      && var (kind, search) := rec.itemKind(s, y + 1).value;
         b.start < search <= |s| && ItemEndsAt(s, search, kind, b.end);
    assert x == y;
    var (kind, search) := rec.itemKind(s, x + 1).value;
    ItemEndIsUnique(s, search, kind, a.end, b.end);
  }

  /** The collected spans touch exactly the test lines. */
  lemma TouchedLinesAreTestLines(rec: Recognisers, source: seq<byte>, spans: seq<Span>, line: nat)
    requires forall i :: 0 <= i < |spans| ==> IsTestSpan(rec, Masked(source, 0), spans[i])
    requires forall p :: 0 <= p < |source| && IsTestAttribute(rec, Masked(source, 0), p) ==> StartsSpan(spans, p)
    ensures Touched(source, spans, line) <==> IsTestLine(rec, source, line)
  {
    hide IsTestSpan, SpanTouches, Masked, IsTestAttribute;
    if IsTestLine(rec, source, line) {
      var span :| IsTestSpan(rec, Masked(source, 0), span) && SpanTouches(source, span, line);
      SpanStarts(rec, Masked(source, 0), span);
      assert StartsSpan(spans, span.start);
      var i :| 0 <= i < |spans| && spans[i].start == span.start;
      SpanIsUnique(rec, Masked(source, 0), spans[i], span);
    }
  }

  lemma SpanStarts(rec: Recognisers, s: seq<byte>, span: Span)
    requires IsTestSpan(rec, s, span)
    ensures span.start < span.end <= |s| && IsTestAttribute(rec, s, span.start)
  {
  }

  /** Total, production and test lines: a partition of the physical lines. */
  method HotspotLineCounts(rec: Recognisers, source: seq<byte>, entirelyTest: bool)
    returns (r: Option<(nat, nat, nat)>, lines: set<nat>)
    requires Sound(rec)
    ensures r.None? <==>
      !entirelyTest && exists p :: 0 <= p < |source| && ScanFailsAt(rec, Masked(source, 0), p)
    ensures r.Some? ==> r.value.0 == LineCount(source) == r.value.1 + r.value.2
    ensures r.Some? && entirelyTest ==> r.value.1 == 0
    ensures r.Some? && !entirelyTest ==> r.value.2 == |lines| && forall line :: line in lines ==> line < LineCount(source)
    ensures r.Some? && !entirelyTest ==> forall line :: line in lines <==> IsTestLine(rec, source, line)
  {
    hide IsTestSpan, LineOf, IsTestAttribute, LineCount, IsTestLine, Masked, Touched, ScanFailsAt;
    if entirelyTest {
      return Some((LineCount(source), 0, LineCount(source))), {};
    }
    var masked := MaskRustNoncode(source);
    var spans := TopLevelCfgTestItemSpans(rec, masked);
    if spans.None? {
      return None, {};
    }
    SpansAreInText(rec, masked, spans.value, source);
    lines := TestLineIndexes(source, spans.value);
    forall line: nat
      ensures line in lines <==> IsTestLine(rec, source, line)
      ensures line in lines ==> line < LineCount(source)
    {
      TouchedLinesAreTestLines(rec, source, spans.value, line);
      TouchedLinesExist(source, spans.value, line);
    }
    LinesBelow(lines, LineCount(source));
    return Some((LineCount(source), LineCount(source) - |lines|, |lines|)), lines;
  }

  lemma TouchedLinesExist(source: seq<byte>, spans: seq<Span>, line: nat)
    ensures Touched(source, spans, line) ==> line < LineCount(source)
  {
    hide LineOf, LineCount;
    if Touched(source, spans, line) {
      var i :| 0 <= i < |spans| && SpanTouches(source, spans[i], line);
      var p :| spans[i].start <= p < spans[i].end <= |source| && LineOf(source, p) == line;
      LineExists(source, p);
    }
  }

  lemma SpansAreInText(rec: Recognisers, s: seq<byte>, spans: seq<Span>, source: seq<byte>)
    requires |source| == |s| && forall i :: 0 <= i < |spans| ==> IsTestSpan(rec, s, spans[i])
    ensures InText(spans, source)
  {
  }

  /** Masking moves no line: spans found in the masked text name the same lines of the source. */
  lemma {:induction false} MaskKeepsLines(s: seq<byte>, p: nat)
    requires p <= |s|
    ensures |Masked(s, 0)| == |s| && LineOf(Masked(s, 0), p) == LineOf(s, p)
  {
    hide Masked;
    MaskPreservesLayout(s);
    if p > 0 {
      MaskKeepsLines(s, p - 1);
    }
  }
}
