/** Action windows and ambient filtering of main.rs. */
module Selection {
  import opened Common
  import opened CaptureModel

  /** The command-line options the selection reads. */
  datatype Opts = Opts(
    positional: Option<string>, fromOpcode: Option<PacketBoundary>, untilOpcode: Option<PacketBoundary>,
    ignoredOpcodes: seq<PacketBoundary>)

  const TIME_SYNC_REQUEST := PacketBoundary(Some(S2C), 0x2DD2)
  const TIME_SYNC_RESPONSE := PacketBoundary(Some(C2S), 0x3A3D)
  const MONSTER_MOVE := PacketBoundary(Some(S2C), 0x2DD4)
  const COMBAT_VALUES := PacketBoundary(Some(S2C), 0x27CB)
  const DETOUR_FLOW := "detour-chase-around-obstacle"

  predicate IsApproved(ignored: PacketBoundary, positional: Option<string>) {
    || ignored == TIME_SYNC_REQUEST || ignored == TIME_SYNC_RESPONSE || ignored == MONSTER_MOVE
    || (positional == Some(DETOUR_FLOW) && ignored == COMBAT_VALUES)
  }

  predicate BoundariesOverlap(left: PacketBoundary, right: PacketBoundary) {
    left.opcode == right.opcode
    && (left.direction.None? || right.direction.None? || left.direction == right.direction)
  }

  /** Two boundaries overlap exactly when some packet is selected by both. */
  lemma OverlapMeansCommonPacket(left: PacketBoundary, right: PacketBoundary)
    ensures BoundariesOverlap(left, right) <==> exists p: CapturedPacket :: left.Matches(p) && right.Matches(p)
  {
    if BoundariesOverlap(left, right) {
      var direction := if left.direction.Some? then left.direction.value else if right.direction.Some? then right.direction.value else S2C;
      var p := CapturedPacket(direction, 0, left.opcode, []);
      assert left.Matches(p) && right.Matches(p);
    }
  }

  datatype IgnoreError =
    | UnpairedTimeSync
    | RemovesBoundary(ignored: PacketBoundary)
    | NotApproved(ignored: PacketBoundary)
    | Duplicated(ignored: PacketBoundary)

  predicate OverlapsWindow(ignored: PacketBoundary, opts: Opts) {
    || (opts.fromOpcode.Some? && BoundariesOverlap(opts.fromOpcode.value, ignored))
    || (opts.untilOpcode.Some? && BoundariesOverlap(opts.untilOpcode.value, ignored))
  }

  predicate EntryOk(opts: Opts, i: nat)
    requires i < |opts.ignoredOpcodes|
  {
    !OverlapsWindow(opts.ignoredOpcodes[i], opts) && IsApproved(opts.ignoredOpcodes[i], opts.positional)
  }

  /** This entry alone is refused, and why; overlapping a boundary is noticed first. */
  predicate EntryFault(opts: Opts, i: nat, e: IgnoreError)
    requires i < |opts.ignoredOpcodes|
  {
    var ignored := opts.ignoredOpcodes[i];
    || (e == RemovesBoundary(ignored) && OverlapsWindow(ignored, opts))
    || (e == NotApproved(ignored) && !OverlapsWindow(ignored, opts) && !IsApproved(ignored, opts.positional))
  }

  /** Entries k to i - 1 are fine and entry i is refused. */
  predicate IsFirstFault(opts: Opts, k: nat, i: nat, e: IgnoreError)
    requires k <= i < |opts.ignoredOpcodes|
  {
    EntryFault(opts, i, e) && forall j :: k <= j < i ==> EntryOk(opts, j)
  }

  /** Entry i is the first that repeats an earlier one. */
  predicate IsFirstRepetition(ignored: seq<PacketBoundary>, k: nat, i: nat)
    requires k <= i < |ignored|
  {
    ignored[i] in ignored[..i] && forall j :: k <= j < i ==> ignored[j] !in ignored[..j]
  }

  function FirstBadIgnore(opts: Opts, k: nat): (r: Option<IgnoreError>)
    requires k <= |opts.ignoredOpcodes|
    ensures r.None? <==>
      forall i :: k <= i < |opts.ignoredOpcodes| ==>
        !OverlapsWindow(opts.ignoredOpcodes[i], opts) && IsApproved(opts.ignoredOpcodes[i], opts.positional)
    ensures r.Some? ==> exists i :: k <= i < |opts.ignoredOpcodes| && IsFirstFault(opts, k, i, r.value)
    decreases |opts.ignoredOpcodes| - k
  {
    if k == |opts.ignoredOpcodes| then None
    else
      var ignored := opts.ignoredOpcodes[k];
      if OverlapsWindow(ignored, opts) then
        assert IsFirstFault(opts, k, k, RemovesBoundary(ignored));
        Some(RemovesBoundary(ignored))
      else if !IsApproved(ignored, opts.positional) then
        assert IsFirstFault(opts, k, k, NotApproved(ignored));
        Some(NotApproved(ignored))
      else
        var later := FirstBadIgnore(opts, k + 1);
        assert later.Some? ==> exists i :: k <= i < |opts.ignoredOpcodes| && IsFirstFault(opts, k, i, later.value) by {
          if later.Some? {
            var i :| k + 1 <= i < |opts.ignoredOpcodes| && IsFirstFault(opts, k + 1, i, later.value);
            assert IsFirstFault(opts, k, i, later.value);
          }
        }
        later
  }

  function FirstDuplicate(ignored: seq<PacketBoundary>, k: nat): (r: Option<IgnoreError>)
    requires k <= |ignored|
    ensures r.None? <==> forall i :: k <= i < |ignored| ==> ignored[i] !in ignored[..i]
    ensures r.Some? ==> exists i :: k <= i < |ignored| && r.value == Duplicated(ignored[i]) && IsFirstRepetition(ignored, k, i)
    decreases |ignored| - k
  {
    if k == |ignored| then None
    else if ignored[k] in ignored[..k] then Some(Duplicated(ignored[k]))
    else FirstDuplicate(ignored, k + 1)
  }

  /** What the checks of `validate_ignored_opcodes` amount to. */
  predicate IgnoresValid(opts: Opts) {
    && (TIME_SYNC_REQUEST in opts.ignoredOpcodes <==> TIME_SYNC_RESPONSE in opts.ignoredOpcodes)
    && (forall b :: b in opts.ignoredOpcodes ==> !OverlapsWindow(b, opts) && IsApproved(b, opts.positional))
    && (forall i :: 0 <= i < |opts.ignoredOpcodes| ==> opts.ignoredOpcodes[i] !in opts.ignoredOpcodes[..i])
  }

  predicate TimeSyncPaired(opts: Opts) {
    TIME_SYNC_REQUEST in opts.ignoredOpcodes <==> TIME_SYNC_RESPONSE in opts.ignoredOpcodes
  }

  /** What a refused list is told: its first fault, pairing before entries before repetitions. */
  predicate IgnoreFault(opts: Opts, e: IgnoreError) {
    var ignored := opts.ignoredOpcodes;
    match e
    case UnpairedTimeSync => !TimeSyncPaired(opts)
    case Duplicated(b) =>
      && TimeSyncPaired(opts) && (forall j :: 0 <= j < |ignored| ==> EntryOk(opts, j))
      && exists i :: 0 <= i < |ignored| && ignored[i] == b && IsFirstRepetition(ignored, 0, i)
    case _ => TimeSyncPaired(opts) && exists i :: 0 <= i < |ignored| && IsFirstFault(opts, 0, i, e)
  }

  function ValidateIgnoredOpcodes(opts: Opts): (r: Result<(), IgnoreError>)
    ensures r.Ok? <==> IgnoresValid(opts)
    ensures r.Err? ==> IgnoreFault(opts, r.error)
  {
    if (TIME_SYNC_REQUEST in opts.ignoredOpcodes) != (TIME_SYNC_RESPONSE in opts.ignoredOpcodes) then
      Err(UnpairedTimeSync)
    else
      var bad := FirstBadIgnore(opts, 0);
      var duplicate := FirstDuplicate(opts.ignoredOpcodes, 0);
      if bad.Some? then Err(bad.value)
      else if duplicate.Some? then Err(duplicate.value)
      else Ok(())
  }

  /** Without boundaries every reviewed ignore is accepted, the combat values in their own flow only. */
  lemma ReviewedIgnoresAreAccepted(flow: Option<string>)
    ensures IgnoresValid(Opts(flow, None, None, [TIME_SYNC_REQUEST, TIME_SYNC_RESPONSE, MONSTER_MOVE]))
    ensures IgnoresValid(Opts(flow, None, None, [COMBAT_VALUES])) <==> flow == Some(DETOUR_FLOW)
  {
    var ignored := [TIME_SYNC_REQUEST, TIME_SYNC_RESPONSE, MONSTER_MOVE];
    assert ignored[..0] == [] && ignored[..1] == [TIME_SYNC_REQUEST] && ignored[..2] == [TIME_SYNC_REQUEST, TIME_SYNC_RESPONSE];
    assert COMBAT_VALUES in [COMBAT_VALUES];
  }

  function ApplyCaptureBoundaries(capture: Capture, opts: Opts): Result<Capture, WindowError> {
    if opts.fromOpcode.Some? && opts.untilOpcode.None? then Err(FromWithoutUntil)
    else if opts.fromOpcode.Some? then SlicedBetween(capture, opts.fromOpcode.value, opts.untilOpcode.value)
    else if opts.untilOpcode.Some? then TruncatedAfterFirstBoundary(capture, opts.untilOpcode.value)
    else Ok(capture)
  }

  predicate IsIgnored(packet: CapturedPacket, ignored: seq<PacketBoundary>) {
    exists b :: b in ignored && b.Matches(packet)
  }

  /** The packets that survive the filter. */
  function Kept(packets: seq<CapturedPacket>, ignored: seq<PacketBoundary>): seq<CapturedPacket> {
    if packets == [] then []
    else (if IsIgnored(packets[0], ignored) then [] else [packets[0]]) + Kept(packets[1..], ignored)
  }

  /** What is kept of the first k packets, with what will be kept of the others, is everything kept. */
  ghost predicate KeptSoFar(packets: seq<CapturedPacket>, k: nat, kept: seq<CapturedPacket>, ignored: seq<PacketBoundary>) {
    k <= |packets| && kept + Kept(packets[k..], ignored) == Kept(packets, ignored)
  }

  lemma KeptOneMore(packets: seq<CapturedPacket>, k: nat, kept: seq<CapturedPacket>, ignored: seq<PacketBoundary>)
    requires k < |packets| && KeptSoFar(packets, k, kept, ignored)
    ensures KeptSoFar(packets, k + 1, if IsIgnored(packets[k], ignored) then kept else kept + [packets[k]], ignored)
  {
    hide IsIgnored;
    KeptStep(packets, k, ignored);
    hide Kept;
    var rest := Kept(packets[k + 1..], ignored);
    assert kept + ([packets[k]] + rest) == kept + [packets[k]] + rest;
    assert [] + rest == rest;
  }

  lemma KeptStep(packets: seq<CapturedPacket>, k: nat, ignored: seq<PacketBoundary>)
    requires k < |packets|
    ensures Kept(packets[k..], ignored)
         == (if IsIgnored(packets[k], ignored) then [] else [packets[k]]) + Kept(packets[k + 1..], ignored)
  {
    hide IsIgnored;
    assert packets[k..][1..] == packets[k + 1..];
  }

  method ApplyIgnoredOpcodes(capture: Capture, opts: Opts) returns (filtered: Capture)
    ensures filtered == Capture(capture.source, Kept(capture.packets, opts.ignoredOpcodes))
  {
    hide IsIgnored;
    var kept: seq<CapturedPacket> := [];
    assert capture.packets[0..] == capture.packets;
    for k := 0 to |capture.packets|
      invariant KeptSoFar(capture.packets, k, kept, opts.ignoredOpcodes)
    {
      hide KeptSoFar, Kept;
      var packet := capture.packets[k];
      KeptOneMore(capture.packets, k, kept, opts.ignoredOpcodes);
      if !IsIgnored(packet, opts.ignoredOpcodes) {
        kept := kept + [packet];
      }
    }
    assert kept + [] == kept;
    filtered := Capture(capture.source, kept);
  }

  // ---------------------------------------------------------------------
  // Filtering commutes with cutting the window
  // ---------------------------------------------------------------------

  lemma {:induction false} KeptConcat(a: seq<CapturedPacket>, b: seq<CapturedPacket>, ignored: seq<PacketBoundary>)
    ensures Kept(a + b, ignored) == Kept(a, ignored) + Kept(b, ignored)
  {
    if a == [] {
      assert a + b == b;
    } else {
      assert (a + b)[1..] == a[1..] + b;
      KeptConcat(a[1..], b, ignored);
    }
  }

  /** No packet the boundary selects is ignored. */
  predicate Spares(boundary: PacketBoundary, ignored: seq<PacketBoundary>) {
    forall b :: b in ignored ==> !BoundariesOverlap(boundary, b)
  }

  lemma SparedPacket(boundary: PacketBoundary, ignored: seq<PacketBoundary>, packet: CapturedPacket)
    requires Spares(boundary, ignored) && boundary.Matches(packet)
    ensures !IsIgnored(packet, ignored)
  {
  }

  lemma KeptAround(packets: seq<CapturedPacket>, k: nat, ignored: seq<PacketBoundary>)
    requires k < |packets| && !IsIgnored(packets[k], ignored)
    ensures Kept(packets[k..], ignored) == [packets[k]] + Kept(packets[k + 1..], ignored)
    ensures Kept(packets[..k + 1], ignored) == Kept(packets[..k], ignored) + [packets[k]]
    ensures Kept(packets, ignored) == Kept(packets[..k], ignored) + Kept(packets[k..], ignored)
  {
    var x := [packets[k]];
    assert packets == packets[..k] + packets[k..];
    KeptConcat(packets[..k], packets[k..], ignored);
    assert packets[k..][1..] == packets[k + 1..];
    assert packets[..k + 1] == packets[..k] + x;
    KeptConcat(packets[..k], x, ignored);
    assert Kept(x, ignored) == x + Kept(x[1..], ignored);
  }

  /** The filter keeps the position of a spared boundary, and both parts around it. */
  lemma PositionAfterFilter(packets: seq<CapturedPacket>, boundary: PacketBoundary, ignored: seq<PacketBoundary>)
    requires Spares(boundary, ignored)
    ensures var p, q := Position(packets, boundary), Position(Kept(packets, ignored), boundary);
      && (p.Some? <==> q.Some?)
      && (p.Some? ==>
            && Kept(packets, ignored)[q.value..] == Kept(packets[p.value..], ignored)
            && Kept(packets, ignored)[..q.value + 1] == Kept(packets[..p.value + 1], ignored))
  {
    hide Position;
    hide Kept;
    var p := Position(packets, boundary);
    var kept := Kept(packets, ignored);
    if p.None? {
      KeptHasNoIgnored(packets, ignored);
      forall i | 0 <= i < |kept|
        ensures !boundary.Matches(kept[i])
      {
        assert kept[i] in packets;
      }
    } else {
      var k := p.value;
      SparedPacket(boundary, ignored, packets[k]);
      KeptAround(packets, k, ignored);
      KeptHasNoIgnored(packets[..k], ignored);
      var before := Kept(packets[..k], ignored);
      forall i | 0 <= i < |before|
        ensures !boundary.Matches(kept[i])
      {
        assert kept[i] == before[i] && before[i] in packets[..k];
      }
      PositionUnique(kept, boundary, |before|);
      assert kept[|before|..] == Kept(packets[k..], ignored);
      assert kept[..|before| + 1] == before + [packets[k]];
    }
  }

  function Filtered(capture: Capture, opts: Opts): Capture {
    Capture(capture.source, Kept(capture.packets, opts.ignoredOpcodes))
  }

  function FilteredResult(r: Result<Capture, WindowError>, opts: Opts): Result<Capture, WindowError> {
    if r.Ok? then Ok(Filtered(r.value, opts)) else r
  }

  /** The packets `SlicedBetween` keeps, given where the boundaries were found. */
  lemma SliceParts(packets: seq<CapturedPacket>, from: PacketBoundary, until: PacketBoundary, source: string)
    ensures var r := SlicedBetween(Capture(source, packets), from, until);
      var start := Position(packets, from);
      if start.None? then r == Err(MissingStartBoundary(from))
      else
        var rest := packets[start.value..];
        var end := Position(rest, until);
        if end.None? then r == Err(MissingEndBoundary(until))
        else r == Ok(Capture(source, rest[..end.value + 1]))
  {
    hide Position;
    var start := Position(packets, from);
    if start.Some? && Position(packets[start.value..], until).Some? {
      SliceOfSuffix(packets, start.value, Position(packets[start.value..], until).value + 1);
    }
  }

  lemma FilterCommutesWithSlice(capture: Capture, opts: Opts, from: PacketBoundary, until: PacketBoundary)
    requires Spares(from, opts.ignoredOpcodes) && Spares(until, opts.ignoredOpcodes)
    ensures SlicedBetween(Filtered(capture, opts), from, until) == FilteredResult(SlicedBetween(capture, from, until), opts)
  {
    hide Position, Kept, SlicedBetween;
    var packets, ignored := capture.packets, opts.ignoredOpcodes;
    SliceParts(packets, from, until, capture.source);
    SliceParts(Kept(packets, ignored), from, until, capture.source);
    PositionAfterFilter(packets, from, ignored);
    var start := Position(packets, from);
    if start.Some? {
      PositionAfterFilter(packets[start.value..], until, ignored);
    }
  }

  lemma FilterCommutesWithTruncation(capture: Capture, opts: Opts, until: PacketBoundary)
    requires Spares(until, opts.ignoredOpcodes)
    ensures TruncatedAfterFirstBoundary(Filtered(capture, opts), until)
         == FilteredResult(TruncatedAfterFirstBoundary(capture, until), opts)
  {
    hide Position;
    hide Kept;
    PositionAfterFilter(capture.packets, until, opts.ignoredOpcodes);
  }

  /** Dropping ambient packets before or after cutting the window gives the same outcome. */
  lemma FilterCommutesWithWindow(capture: Capture, opts: Opts)
    requires IgnoresValid(opts)
    ensures ApplyCaptureBoundaries(Filtered(capture, opts), opts)
         == FilteredResult(ApplyCaptureBoundaries(capture, opts), opts)
  {
    hide SlicedBetween, TruncatedAfterFirstBoundary, Kept;
    if opts.untilOpcode.Some? {
      if opts.fromOpcode.Some? {
        FilterCommutesWithSlice(capture, opts, opts.fromOpcode.value, opts.untilOpcode.value);
      } else {
        FilterCommutesWithTruncation(capture, opts, opts.untilOpcode.value);
      }
    }
  }

  lemma SliceOfSuffix<T>(s: seq<T>, i: nat, n: nat)
    requires i <= |s| && n <= |s| - i
    ensures s[i..i + n] == s[i..][..n]
  {
  }

  // ---------------------------------------------------------------------
  // Windows
  // ---------------------------------------------------------------------

  /** The first `from` stands at `start`, and the first `until` at or after it at `end`. */
  predicate IsWindow(packets: seq<CapturedPacket>, from: PacketBoundary, until: PacketBoundary, start: nat, end: nat) {
    && start <= end < |packets|
    && from.Matches(packets[start]) && (forall i :: 0 <= i < start ==> !from.Matches(packets[i]))
    && until.Matches(packets[end]) && (forall i :: start <= i < end ==> !until.Matches(packets[i]))
  }

  lemma WindowIsSliced(capture: Capture, from: PacketBoundary, until: PacketBoundary, start: nat, end: nat)
    requires IsWindow(capture.packets, from, until, start, end)
    ensures SlicedBetween(capture, from, until) == Ok(Capture(capture.source, capture.packets[start..end + 1]))
  {
    hide Position;
    var ps := capture.packets;
    PositionUnique(ps, from, start);
    assert forall i :: start <= i <= end ==> ps[start..][i - start] == ps[i];
    PositionUnique(ps[start..], until, end - start);
  }

  lemma SlicedHasWindow(capture: Capture, from: PacketBoundary, until: PacketBoundary)
    requires SlicedBetween(capture, from, until).Ok?
    ensures exists start: nat, end: nat :: IsWindow(capture.packets, from, until, start, end)
  {
    hide Position;
    var ps := capture.packets;
    var start := Position(ps, from).value;
    var end := start + Position(ps[start..], until).value;
    assert forall i :: start <= i <= end ==> ps[start..][i - start] == ps[i];
    assert IsWindow(ps, from, until, start, end);
  }

  /** The cut from `from` to `until` keeps exactly the packets between them, and names the boundary it misses. */
  lemma SliceIsWindow(capture: Capture, from: PacketBoundary, until: PacketBoundary)
    ensures var w, ps := SlicedBetween(capture, from, until), capture.packets;
      && (w.Ok? <==> exists start: nat, end: nat :: IsWindow(ps, from, until, start, end))
      && (forall start: nat, end: nat :: IsWindow(ps, from, until, start, end) ==> w == Ok(Capture(capture.source, ps[start..end + 1])))
      && (w == Err(MissingStartBoundary(from)) <==> forall p :: p in ps ==> !from.Matches(p))
      && (w.Err? ==> w.error == MissingStartBoundary(from) || w.error == MissingEndBoundary(until))
  {
    StartIsMissing(capture, from, until);
    hide SlicedBetween;
    if SlicedBetween(capture, from, until).Ok? {
      SlicedHasWindow(capture, from, until);
    }
    forall start: nat, end: nat | IsWindow(capture.packets, from, until, start, end)
      ensures SlicedBetween(capture, from, until) == Ok(Capture(capture.source, capture.packets[start..end + 1]))
    {
      WindowIsSliced(capture, from, until, start, end);
    }
  }

  lemma StartIsMissing(capture: Capture, from: PacketBoundary, until: PacketBoundary)
    ensures var w := SlicedBetween(capture, from, until);
      && (w == Err(MissingStartBoundary(from)) <==> forall p :: p in capture.packets ==> !from.Matches(p))
      && (w.Err? ==> w.error == MissingStartBoundary(from) || w.error == MissingEndBoundary(until))
  {
    hide Position;
    var start := Position(capture.packets, from);
    if start.Some? {
      assert capture.packets[start.value] in capture.packets;
    }
  }

  /** A cut without a start keeps everything up to and including the first `until`. */
  lemma TruncationIsPrefix(capture: Capture, until: PacketBoundary)
    ensures var w, ps := TruncatedAfterFirstBoundary(capture, until), capture.packets;
      && (w.Ok? <==> exists p :: p in ps && until.Matches(p))
      && (w.Err? ==> w.error == MissingEndBoundary(until))
      && (w.Ok? ==>
            var kept := w.value.packets;
            && w.value.source == capture.source && kept != [] && kept <= ps
            && until.Matches(kept[|kept| - 1]) && forall i :: 0 <= i < |kept| - 1 ==> !until.Matches(kept[i]))
  {
  }

  /** What each combination of boundary options cuts out of a capture, and when it fails. */
  lemma WindowIsExact(capture: Capture, opts: Opts)
    ensures var w, ps, from, until := ApplyCaptureBoundaries(capture, opts), capture.packets, opts.fromOpcode, opts.untilOpcode;
      if until.None? then w == if from.Some? then Err(FromWithoutUntil) else Ok(capture)
      else if from.None? then
        && (w.Ok? <==> exists p :: p in ps && until.value.Matches(p))
        && (w.Ok? ==>
              var kept := w.value.packets;
              && w.value.source == capture.source && kept != [] && kept <= ps
              && until.value.Matches(kept[|kept| - 1]) && forall i :: 0 <= i < |kept| - 1 ==> !until.value.Matches(kept[i]))
        && (w.Err? ==> w.error == MissingEndBoundary(until.value))
      else
        && (w.Ok? <==> exists start: nat, end: nat :: IsWindow(ps, from.value, until.value, start, end))
        && (forall start: nat, end: nat :: IsWindow(ps, from.value, until.value, start, end) ==>
              w == Ok(Capture(capture.source, ps[start..end + 1])))
        && (w == Err(MissingStartBoundary(from.value)) <==> forall p :: p in ps ==> !from.value.Matches(p))
        && (w.Err? ==> w.error == MissingStartBoundary(from.value) || w.error == MissingEndBoundary(until.value))
  {
    hide IsWindow, SlicedBetween, TruncatedAfterFirstBoundary;
    if opts.untilOpcode.Some? {
      TruncationIsPrefix(capture, opts.untilOpcode.value);
      if opts.fromOpcode.Some? {
        SliceIsWindow(capture, opts.fromOpcode.value, opts.untilOpcode.value);
      }
    }
  }

  lemma SliceIsIdempotent(capture: Capture, from: PacketBoundary, until: PacketBoundary)
    ensures var w := SlicedBetween(capture, from, until); w.Ok? ==> SlicedBetween(w.value, from, until) == w
  {
    hide Position;
    if SlicedBetween(capture, from, until).Ok? {
      var packets := capture.packets;
      var start := Position(packets, from).value;
      var end := Position(packets[start..], until).value;
      var cut := packets[start..start + end + 1];
      assert forall i :: 0 <= i <= end ==> cut[i] == packets[start..][i];
      PositionUnique(cut, from, 0);
      PositionUnique(cut, until, end);
      assert cut[0..] == cut && cut[0..end + 1] == cut;
    }
  }

  lemma TruncationIsIdempotent(capture: Capture, until: PacketBoundary)
    ensures var w := TruncatedAfterFirstBoundary(capture, until);
      w.Ok? ==> TruncatedAfterFirstBoundary(w.value, until) == w
  {
    hide Position;
    if TruncatedAfterFirstBoundary(capture, until).Ok? {
      var end := Position(capture.packets, until).value;
      var cut := capture.packets[..end + 1];
      assert forall i :: 0 <= i <= end ==> cut[i] == capture.packets[i];
      PositionUnique(cut, until, end);
      assert cut[..end + 1] == cut;
    }
  }

  /** Cutting an already cut window changes nothing. */
  lemma WindowIsIdempotent(capture: Capture, opts: Opts)
    ensures var w := ApplyCaptureBoundaries(capture, opts);
      w.Ok? ==> ApplyCaptureBoundaries(w.value, opts) == w
  {
    hide SlicedBetween, TruncatedAfterFirstBoundary;
    if opts.untilOpcode.Some? {
      if opts.fromOpcode.Some? {
        SliceIsIdempotent(capture, opts.fromOpcode.value, opts.untilOpcode.value);
      } else {
        TruncationIsIdempotent(capture, opts.untilOpcode.value);
      }
    }
  }

  /** The boundary packets are the first and the last of the cut window. */
  lemma WindowEndsAtBoundaries(capture: Capture, opts: Opts)
    ensures var w := ApplyCaptureBoundaries(capture, opts);
      w.Ok? ==>
        && (opts.fromOpcode.Some? ==> w.value.packets != [] && opts.fromOpcode.value.Matches(w.value.packets[0]))
        && (opts.untilOpcode.Some? ==>
              && w.value.packets != []
              && opts.untilOpcode.value.Matches(w.value.packets[|w.value.packets| - 1])
              && forall i :: 0 <= i < |w.value.packets| - 1 ==> !opts.untilOpcode.value.Matches(w.value.packets[i]))
  {
    var w := ApplyCaptureBoundaries(capture, opts);
    if w.Ok? && opts.untilOpcode.Some? {
      var packets, cut := capture.packets, w.value.packets;
      if opts.fromOpcode.Some? {
        var start := Position(packets, opts.fromOpcode.value).value;
        assert forall i :: 0 <= i < |cut| ==> cut[i] == packets[start..][i];
      }
    }
  }

  // ---------------------------------------------------------------------
  // The whole selection of one capture
  // ---------------------------------------------------------------------

  lemma {:induction false} KeptHasNoIgnored(packets: seq<CapturedPacket>, ignored: seq<PacketBoundary>)
    ensures forall p :: p in Kept(packets, ignored) ==> !IsIgnored(p, ignored) && p in packets
  {
    if packets != [] { KeptHasNoIgnored(packets[1..], ignored); }
  }

  lemma {:induction false} KeptOfUnignored(packets: seq<CapturedPacket>, ignored: seq<PacketBoundary>)
    requires forall p :: p in packets ==> !IsIgnored(p, ignored)
    ensures Kept(packets, ignored) == packets
  {
    if packets != [] {
      assert packets[0] in packets;
      KeptOfUnignored(packets[1..], ignored);
    }
  }

  /** Window and filter applied to an already selected capture give it back. */
  lemma SelectedIsFixed(capture: Capture, opts: Opts)
    requires IgnoresValid(opts)
    ensures var w := ApplyCaptureBoundaries(capture, opts);
      w.Ok? ==>
        var s := Filtered(w.value, opts);
        && ApplyCaptureBoundaries(s, opts) == Ok(s)
        && Filtered(s, opts) == s
  {
    var w := ApplyCaptureBoundaries(capture, opts);
    if w.Ok? {
      WindowIsIdempotent(capture, opts);
      FilterCommutesWithWindow(w.value, opts);
      KeptHasNoIgnored(w.value.packets, opts.ignoredOpcodes);
      KeptOfUnignored(Kept(w.value.packets, opts.ignoredOpcodes), opts.ignoredOpcodes);
    }
  }

  /** The action boundaries survive the filter as first and last packet. */
  lemma SelectedEndsAtBoundaries(capture: Capture, opts: Opts)
    requires IgnoresValid(opts) && ApplyCaptureBoundaries(capture, opts).Ok?
    ensures var s := Filtered(ApplyCaptureBoundaries(capture, opts).value, opts).packets;
      && (opts.fromOpcode.Some? ==> s != [] && opts.fromOpcode.value.Matches(s[0]))
      && (opts.untilOpcode.Some? ==> s != [] && opts.untilOpcode.value.Matches(s[|s| - 1]))
  {
    SelectedIsFixed(capture, opts);
    WindowEndsAtBoundaries(Filtered(ApplyCaptureBoundaries(capture, opts).value, opts), opts);
  }
}
