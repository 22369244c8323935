/** The diff report of diff.rs: body comparison, tallies, signatures and the baseline delta. */
module Diff {
  import opened Common
  import opened CaptureModel
  import opened Align
  import Text

  /** Verdict of a reviewed semantic comparator; `detail` stands for the decoded sides. */
  datatype SemanticBodyDiff = SemanticBodyDiff(comparator: string, detail: string, identical: bool)

  /** The opcode tables and the reviewed comparators, which are not part of this model. */
  datatype Reviewed = Reviewed(
    opcodeName: (Direction, uint16) -> string,
    compareBodies: (Direction, uint16, seq<byte>, seq<byte>) -> Option<SemanticBodyDiff>)

  datatype OpKind = KindMatch | MissingInRust | ExtraInRust

  datatype ConnectionDiff = ConnectionDiff(cppConnectionId: uint32, rustConnectionId: uint32) {
    predicate IsIdentical() { cppConnectionId == rustConnectionId }
  }

  datatype BodyDiff =
    BodyDiff(cppLen: nat, rustLen: nat, firstDiffOffset: Option<nat>, semantic: Option<SemanticBodyDiff>)
  {
    predicate IsIdentical() {
      if semantic.Some? then semantic.value.identical else firstDiffOffset.None?
    }
  }

  datatype AlignedOp = AlignedOp(
    kind: OpKind, direction: Direction, opcode: uint16, name: string,
    cppIndex: Option<nat>, rustIndex: Option<nat>,
    body: Option<BodyDiff>, connection: Option<ConnectionDiff>)

  datatype DiffCounts = DiffCounts(
    matched: nat, bodyMismatches: nat, connectionMismatches: nat, missingInRust: nat, extraInRust: nat)

  datatype DiffReport = DiffReport(
    cppSource: string, rustSource: string, directions: seq<Direction>, ops: seq<AlignedOp>, counts: DiffCounts)
  {
    predicate IsClean() {
      && counts.bodyMismatches == 0
      && counts.connectionMismatches == 0
      && counts.missingInRust == 0
      && counts.extraInRust == 0
    }
  }

  // ---------------------------------------------------------------------
  // Bodies
  // ---------------------------------------------------------------------

  /** What "the bodies are identical" is meant to say. */
  predicate BodiesIdentical(env: Reviewed, dir: Direction, opcode: uint16, cpp: seq<byte>, rust: seq<byte>) {
    var verdict := env.compareBodies(dir, opcode, cpp, rust);
    if verdict.Some? then verdict.value.identical else cpp == rust
  }

  /** The first offset at which two byte strings part, counting the end of the shorter one. */
  ghost predicate FirstDifference(cpp: seq<byte>, rust: seq<byte>, offset: Option<nat>) {
    match offset
    case None => cpp == rust
    case Some(k) =>
      && k <= |cpp| && k <= |rust| && cpp[..k] == rust[..k] && cpp != rust
      && (k < |cpp| && k < |rust| ==> cpp[k] != rust[k])
  }

  lemma FirstDifferenceUnique(cpp: seq<byte>, rust: seq<byte>, o: Option<nat>, p: Option<nat>)
    requires FirstDifference(cpp, rust, o) && FirstDifference(cpp, rust, p)
    ensures o == p
  {
    assert cpp[..|cpp|] == cpp && rust[..|rust|] == rust;
    if o.Some? && p.Some? {
      assert forall i :: 0 <= i < o.value ==> cpp[..o.value][i] == rust[..o.value][i];
      assert forall i :: 0 <= i < p.value ==> cpp[..p.value][i] == rust[..p.value][i];
    }
  }

  function FirstDiff(cpp: seq<byte>, rust: seq<byte>, i: nat): Option<nat>
    requires i <= |cpp| && i <= |rust|
    decreases |cpp| - i
  {
    if i == |cpp| || i == |rust| then if |cpp| != |rust| then Some(i) else None
    else if cpp[i] != rust[i] then Some(i)
    else FirstDiff(cpp, rust, i + 1)
  }

  lemma {:induction false} FirstDiffIsFirst(cpp: seq<byte>, rust: seq<byte>, i: nat)
    requires i <= |cpp| && i <= |rust| && cpp[..i] == rust[..i]
    ensures forall offset :: FirstDifference(cpp, rust, offset) <==> offset == FirstDiff(cpp, rust, i)
    decreases |cpp| - i
  {
    FirstDiffIsADifference(cpp, rust, i);
    forall offset | FirstDifference(cpp, rust, offset)
      ensures offset == FirstDiff(cpp, rust, i)
    {
      FirstDifferenceUnique(cpp, rust, offset, FirstDiff(cpp, rust, i));
    }
  }

  lemma {:induction false} FirstDiffIsADifference(cpp: seq<byte>, rust: seq<byte>, i: nat)
    requires i <= |cpp| && i <= |rust| && cpp[..i] == rust[..i]
    ensures FirstDifference(cpp, rust, FirstDiff(cpp, rust, i))
    decreases |cpp| - i
  {
    if i == |cpp| || i == |rust| {
      assert cpp[..|cpp|] == cpp && rust[..|rust|] == rust;
    } else if cpp[i] == rust[i] {
      assert cpp[..i + 1] == cpp[..i] + [cpp[i]] && rust[..i + 1] == rust[..i] + [rust[i]];
      FirstDiffIsADifference(cpp, rust, i + 1);
    }
  }

  function BodyDiffOf(env: Reviewed, dir: Direction, opcode: uint16, cpp: seq<byte>, rust: seq<byte>): BodyDiff {
    var semantic := env.compareBodies(dir, opcode, cpp, rust);
    BodyDiff(|cpp|, |rust|, if semantic.Some? then None else FirstDiff(cpp, rust, 0), semantic)
  }

  lemma BodyDiffIsIdentical(env: Reviewed, dir: Direction, opcode: uint16, cpp: seq<byte>, rust: seq<byte>)
    ensures BodyDiffOf(env, dir, opcode, cpp, rust).IsIdentical() <==> BodiesIdentical(env, dir, opcode, cpp, rust)
  {
    FirstDiffIsADifference(cpp, rust, 0);
  }

  method ComputeBodyDiff(env: Reviewed, dir: Direction, opcode: uint16, cpp: seq<byte>, rust: seq<byte>)
    returns (diff: BodyDiff)
    ensures diff == BodyDiffOf(env, dir, opcode, cpp, rust)
    ensures diff.semantic.None? ==> FirstDifference(cpp, rust, diff.firstDiffOffset)
  {
    FirstDiffIsFirst(cpp, rust, 0);
    var firstDiff: Option<nat> := None;
    var min := if |cpp| < |rust| then |cpp| else |rust|;
    var i := 0;
    while i < min && firstDiff.None?
      invariant 0 <= i <= min
      invariant firstDiff.None? ==> FirstDiff(cpp, rust, i) == FirstDiff(cpp, rust, 0)
      invariant firstDiff.Some? ==> firstDiff == FirstDiff(cpp, rust, 0)
      decreases min - i, firstDiff.None?
    {
      if cpp[i] != rust[i] {
        firstDiff := Some(i);
      } else {
        i := i + 1;
      }
    }
    if firstDiff.None? && |cpp| != |rust| {
      firstDiff := Some(min);
    }
    var semantic := env.compareBodies(dir, opcode, cpp, rust);
    if semantic.Some? {
      firstDiff := None;
    }
    diff := BodyDiff(|cpp|, |rust|, firstDiff, semantic);
  }

  // ---------------------------------------------------------------------
  // The report as a function of the two captures
  // ---------------------------------------------------------------------

  function Opcodes(packets: seq<CapturedPacket>): (r: seq<uint16>)
    ensures |r| == |packets| && forall i :: 0 <= i < |r| ==> r[i] == packets[i].opcode
  {
    seq(|packets|, i requires 0 <= i < |packets| => packets[i].opcode)
  }

  function OpOf(env: Reviewed, dir: Direction, cpp: seq<CapturedPacket>, rust: seq<CapturedPacket>, step: Step): AlignedOp
    requires StepInBounds(step, Opcodes(cpp), Opcodes(rust))
  {
    match step
    case Match(i, j) =>
      AlignedOp(
        KindMatch, dir, cpp[i].opcode, env.opcodeName(cpp[i].direction, cpp[i].opcode), Some(i), Some(j),
        Some(BodyDiffOf(env, dir, cpp[i].opcode, cpp[i].body, rust[j].body)),
        Some(ConnectionDiff(cpp[i].connectionId, rust[j].connectionId)))
    case Del(i) =>
      AlignedOp(
        MissingInRust, dir, cpp[i].opcode, env.opcodeName(cpp[i].direction, cpp[i].opcode), Some(i), None, None, None)
    case Ins(j) =>
      AlignedOp(
        ExtraInRust, dir, rust[j].opcode, env.opcodeName(rust[j].direction, rust[j].opcode), None, Some(j), None, None)
  }

  function StepsOf(cpp: seq<CapturedPacket>, rust: seq<CapturedPacket>): (steps: seq<Step>)
    ensures forall k :: 0 <= k < |steps| ==> StepInBounds(steps[k], Opcodes(cpp), Opcodes(rust))
  {
    ScriptIsEditScript(Opcodes(cpp), Opcodes(rust), 0, 0);
    EditScriptInBounds(Script(Opcodes(cpp), Opcodes(rust), 0, 0), Opcodes(cpp), Opcodes(rust), 0, 0);
    Script(Opcodes(cpp), Opcodes(rust), 0, 0)
  }

  /** The aligned walk of one direction. */
  function DirectionOps(env: Reviewed, cpp: Capture, rust: Capture, dir: Direction): (ops: seq<AlignedOp>) {
    var a, b := ByDirection(cpp.packets, dir), ByDirection(rust.packets, dir);
    var steps := StepsOf(a, b);
    seq(|steps|, k requires 0 <= k < |steps| => OpOf(env, dir, a, b, steps[k]))
  }

  function ReportOps(env: Reviewed, cpp: Capture, rust: Capture, directions: seq<Direction>): seq<AlignedOp> {
    if directions == [] then []
    else
      ReportOps(env, cpp, rust, directions[..|directions| - 1])
      + DirectionOps(env, cpp, rust, directions[|directions| - 1])
  }

  function BodyDiffers(op: AlignedOp): bool {
    op.body.Some? && !op.body.value.IsIdentical()
  }

  function RouteDiffers(op: AlignedOp): bool {
    op.connection.Some? && !op.connection.value.IsIdentical()
  }

  function CountOp(c: DiffCounts, op: AlignedOp): DiffCounts {
    match op.kind
    case MissingInRust => c.(missingInRust := c.missingInRust + 1)
    case ExtraInRust => c.(extraInRust := c.extraInRust + 1)
    case KindMatch =>
      DiffCounts(
        c.matched + (if BodyDiffers(op) || RouteDiffers(op) then 0 else 1),
        c.bodyMismatches + (if BodyDiffers(op) then 1 else 0),
        c.connectionMismatches + (if RouteDiffers(op) then 1 else 0),
        c.missingInRust, c.extraInRust)
  }

  function Tally(ops: seq<AlignedOp>): DiffCounts {
    if ops == [] then DiffCounts(0, 0, 0, 0, 0)
    else CountOp(Tally(ops[..|ops| - 1]), ops[|ops| - 1])
  }

  predicate IsMissing(op: AlignedOp) { op.kind.MissingInRust? }

  predicate IsExtra(op: AlignedOp) { op.kind.ExtraInRust? }

  predicate IsPaired(op: AlignedOp) { op.kind.KindMatch? }

  predicate IsBodyMismatch(op: AlignedOp) { op.kind.KindMatch? && BodyDiffers(op) }

  predicate IsRouteMismatch(op: AlignedOp) { op.kind.KindMatch? && RouteDiffers(op) }

  predicate IsMatched(op: AlignedOp) { op.kind.KindMatch? && !BodyDiffers(op) && !RouteDiffers(op) }

  /** Each counter is the number of operations of its kind. */
  ghost predicate Counts(ops: seq<AlignedOp>, c: DiffCounts) {
    && c.matched == |Where(ops, IsMatched)|
    && c.bodyMismatches == |Where(ops, IsBodyMismatch)|
    && c.connectionMismatches == |Where(ops, IsRouteMismatch)|
    && c.missingInRust == |Where(ops, IsMissing)|
    && c.extraInRust == |Where(ops, IsExtra)|
  }

  lemma {:induction false} TallyCounts(ops: seq<AlignedOp>)
    ensures Counts(ops, Tally(ops))
  {
    if ops != [] {
      var init, last := ops[..|ops| - 1], ops[|ops| - 1];
      TallyCounts(init);
      assert ops == init + [last];
      hide Where, BodyDiffers, RouteDiffers;
      WhereSnoc(init, IsMatched, last);
      WhereSnoc(init, IsBodyMismatch, last);
      WhereSnoc(init, IsRouteMismatch, last);
      WhereSnoc(init, IsMissing, last);
      WhereSnoc(init, IsExtra, last);
    }
  }

  /** The body of the alignment loop: one step becomes one op and updates the tallies. */
  method RecordStep(
      env: Reviewed, dir: Direction, cpp: seq<CapturedPacket>, rust: seq<CapturedPacket>, step: Step, before: DiffCounts)
    returns (op: AlignedOp, counts: DiffCounts)
    requires StepInBounds(step, Opcodes(cpp), Opcodes(rust))
    ensures op == OpOf(env, dir, cpp, rust, step)
    ensures counts == CountOp(before, op)
  {
    counts := before;
    match step {
      case Match(i, j) =>
        var body := ComputeBodyDiff(env, dir, cpp[i].opcode, cpp[i].body, rust[j].body);
        var connection := ConnectionDiff(cpp[i].connectionId, rust[j].connectionId);
        if !body.IsIdentical() {
          counts := counts.(bodyMismatches := counts.bodyMismatches + 1);
        }
        if !connection.IsIdentical() {
          counts := counts.(connectionMismatches := counts.connectionMismatches + 1);
        }
        if body.IsIdentical() && connection.IsIdentical() {
          counts := counts.(matched := counts.matched + 1);
        }
        op := AlignedOp(
          KindMatch, dir, cpp[i].opcode, env.opcodeName(cpp[i].direction, cpp[i].opcode), Some(i), Some(j),
          Some(body), Some(connection));
      case Del(i) =>
        counts := counts.(missingInRust := counts.missingInRust + 1);
        op := AlignedOp(
          MissingInRust, dir, cpp[i].opcode, env.opcodeName(cpp[i].direction, cpp[i].opcode), Some(i), None, None, None);
      case Ins(j) =>
        counts := counts.(extraInRust := counts.extraInRust + 1);
        op := AlignedOp(
          ExtraInRust, dir, rust[j].opcode, env.opcodeName(rust[j].direction, rust[j].opcode), None, Some(j), None, None);
    }
  }

  lemma TallyAppend(ops: seq<AlignedOp>, op: AlignedOp)
    ensures Tally(ops + [op]) == CountOp(Tally(ops), op)
  {
    assert (ops + [op])[..|ops|] == ops;
  }

  lemma TakeOneMore<T>(s: seq<T>, k: nat)
    requires k < |s|
    ensures s[..k + 1] == s[..k] + [s[k]]
  {
  }

  lemma OpAt(env: Reviewed, cpp: Capture, rust: Capture, dir: Direction, k: nat)
    requires k < |DirectionOps(env, cpp, rust, dir)|
    ensures var a, b := ByDirection(cpp.packets, dir), ByDirection(rust.packets, dir);
      && |StepsOf(a, b)| == |DirectionOps(env, cpp, rust, dir)|
      && DirectionOps(env, cpp, rust, dir)[k] == OpOf(env, dir, a, b, StepsOf(a, b)[k])
  {
    hide StepsOf, OpOf, ByDirection;
  }

  lemma AppendNext<T>(before: seq<T>, s: seq<T>, k: nat)
    requires k < |s|
    ensures before + s[..k] + [s[k]] == before + s[..k + 1]
  {
  }

  method CompareDirection(
      env: Reviewed, cpp: Capture, rust: Capture, dir: Direction, opsBefore: seq<AlignedOp>, countsBefore: DiffCounts)
    returns (ops: seq<AlignedOp>, counts: DiffCounts)
    requires |cpp.packets| < U32_SIZE || |rust.packets| < U32_SIZE
    requires countsBefore == Tally(opsBefore)
    ensures ops == opsBefore + DirectionOps(env, cpp, rust, dir)
    ensures counts == Tally(ops)
  {
    ops, counts := opsBefore, countsBefore;
    var cppPkts, rustPkts := ByDirection(cpp.packets, dir), ByDirection(rust.packets, dir);
    DirectionIsShorter(cpp.packets, dir);
    DirectionIsShorter(rust.packets, dir);
    var steps := AlignStreams(Opcodes(cppPkts), Opcodes(rustPkts));
    ghost var all := DirectionOps(env, cpp, rust, dir);
    assert steps == StepsOf(cppPkts, rustPkts) && |all| == |steps|;
    for k := 0 to |steps|
      invariant ops == opsBefore + all[..k]
      invariant counts == Tally(ops)
    {
      hide DirectionOps, OpOf, StepsOf, Tally, CountOp, ByDirection;
      var op;
      op, counts := RecordStep(env, dir, cppPkts, rustPkts, steps[k], counts);
      OpAt(env, cpp, rust, dir, k);
      TallyAppend(ops, op);
      AppendNext(opsBefore, all, k);
      ops := ops + [op];
    }
    assert all[..|steps|] == all;
  }

  method ComputeReport(env: Reviewed, cpp: Capture, rust: Capture, directions: seq<Direction>)
    returns (report: DiffReport)
    requires |cpp.packets| < U32_SIZE || |rust.packets| < U32_SIZE
    ensures report.cppSource == cpp.source && report.rustSource == rust.source && report.directions == directions
    ensures report.ops == ReportOps(env, cpp, rust, directions)
    ensures report.counts == Tally(report.ops) && Counts(report.ops, report.counts)
  {
    var ops: seq<AlignedOp> := [];
    var counts := DiffCounts(0, 0, 0, 0, 0);
    for d := 0 to |directions|
      invariant ops == ReportOps(env, cpp, rust, directions[..d])
      invariant counts == Tally(ops)
    {
      ops, counts := CompareDirection(env, cpp, rust, directions[d], ops, counts);
      assert directions[..d + 1][..d] == directions[..d];
    }
    assert directions[..|directions|] == directions;
    TallyCounts(ops);
    report := DiffReport(cpp.source, rust.source, directions, ops, counts);
  }

  lemma {:induction false} DirectionIsShorter(packets: seq<CapturedPacket>, dir: Direction)
    ensures |ByDirection(packets, dir)| <= |packets|
  {
    if packets != [] { DirectionIsShorter(packets[1..], dir); }
  }

  lemma {:induction false} ByDirectionKeepsDirection(packets: seq<CapturedPacket>, dir: Direction)
    ensures forall p :: p in ByDirection(packets, dir) ==> p.direction == dir
  {
    if packets != [] { ByDirectionKeepsDirection(packets[1..], dir); }
  }

  // ---------------------------------------------------------------------
  // A clean report means pointwise equality of every compared stream
  // ---------------------------------------------------------------------

  predicate PacketsAgree(env: Reviewed, dir: Direction, a: CapturedPacket, b: CapturedPacket) {
    && a.opcode == b.opcode
    && a.connectionId == b.connectionId
    && BodiesIdentical(env, dir, a.opcode, a.body, b.body)
  }

  predicate StreamsAgree(env: Reviewed, dir: Direction, a: seq<CapturedPacket>, b: seq<CapturedPacket>) {
    |a| == |b| && forall i :: 0 <= i < |a| ==> PacketsAgree(env, dir, a[i], b[i])
  }

  predicate OpClean(op: AlignedOp) {
    op.kind.KindMatch? && !BodyDiffers(op) && !RouteDiffers(op)
  }

  predicate CountsClean(c: DiffCounts) {
    c.bodyMismatches == 0 && c.connectionMismatches == 0 && c.missingInRust == 0 && c.extraInRust == 0
  }

  lemma {:induction false} TallyClean(ops: seq<AlignedOp>)
    ensures CountsClean(Tally(ops)) <==> forall op :: op in ops ==> OpClean(op)
  {
    if ops != [] {
      var init, last := ops[..|ops| - 1], ops[|ops| - 1];
      TallyClean(init);
      assert ops == init + [last];
      assert CountsClean(Tally(ops)) <==> CountsClean(Tally(init)) && OpClean(last);
    }
  }

  /** Streams with equal opcodes are aligned packet by packet. */
  lemma AlignedClean(env: Reviewed, cpp: Capture, rust: Capture, dir: Direction)
    requires var a, b := ByDirection(cpp.packets, dir), ByDirection(rust.packets, dir); Opcodes(a) == Opcodes(b)
    ensures var a, b := ByDirection(cpp.packets, dir), ByDirection(rust.packets, dir);
      var ops := DirectionOps(env, cpp, rust, dir);
      && |a| == |b| == |ops|
      && forall k :: 0 <= k < |ops| ==> (OpClean(ops[k]) <==> PacketsAgree(env, dir, a[k], b[k]))
  {
    var a, b := ByDirection(cpp.packets, dir), ByDirection(rust.packets, dir);
    var ops := DirectionOps(env, cpp, rust, dir);
    hide Script, ByDirection;
    ScriptIsAllMatches(Opcodes(a), Opcodes(b), 0, 0);
    assert Opcodes(a)[0..] == Opcodes(a) && Opcodes(b)[0..] == Opcodes(b);
    forall k | 0 <= k < |ops|
      ensures OpClean(ops[k]) <==> PacketsAgree(env, dir, a[k], b[k])
    {
      assert ops[k] == OpOf(env, dir, a, b, Match(k, k));
      assert Opcodes(a)[k] == Opcodes(b)[k];
      BodyDiffIsIdentical(env, dir, a[k].opcode, a[k].body, b[k].body);
    }
  }

  lemma MisalignedIsUnclean(env: Reviewed, cpp: Capture, rust: Capture, dir: Direction)
    requires Opcodes(ByDirection(cpp.packets, dir)) != Opcodes(ByDirection(rust.packets, dir))
    ensures !AllClean(DirectionOps(env, cpp, rust, dir))
  {
    var a, b := ByDirection(cpp.packets, dir), ByDirection(rust.packets, dir);
    var steps, ops := StepsOf(a, b), DirectionOps(env, cpp, rust, dir);
    hide Script, ByDirection;
    ScriptIsAllMatches(Opcodes(a), Opcodes(b), 0, 0);
    assert Opcodes(a)[0..] == Opcodes(a) && Opcodes(b)[0..] == Opcodes(b);
    var k :| 0 <= k < |steps| && !steps[k].Match?;
    assert ops[k] in ops && !OpClean(ops[k]);
  }

  lemma AgreeingOpcodes(env: Reviewed, dir: Direction, a: seq<CapturedPacket>, b: seq<CapturedPacket>)
    requires StreamsAgree(env, dir, a, b)
    ensures Opcodes(a) == Opcodes(b)
  {
    hide BodiesIdentical;
  }

  lemma DirectionClean(env: Reviewed, cpp: Capture, rust: Capture, dir: Direction)
    ensures AllClean(DirectionOps(env, cpp, rust, dir))
       <==> StreamsAgree(env, dir, ByDirection(cpp.packets, dir), ByDirection(rust.packets, dir))
  {
    hide Opcodes, ByDirection, DirectionOps, OpClean, PacketsAgree;
    var a, b := ByDirection(cpp.packets, dir), ByDirection(rust.packets, dir);
    var ops := DirectionOps(env, cpp, rust, dir);
    if Opcodes(a) == Opcodes(b) {
      AlignedClean(env, cpp, rust, dir);
      assert forall k :: 0 <= k < |ops| ==> ops[k] in ops;
    } else {
      MisalignedIsUnclean(env, cpp, rust, dir);
      if StreamsAgree(env, dir, a, b) {
        AgreeingOpcodes(env, dir, a, b);
        assert false;
      }
    }
  }

  predicate AllClean(ops: seq<AlignedOp>) {
    forall op :: op in ops ==> OpClean(op)
  }

  lemma AllCleanConcat(a: seq<AlignedOp>, b: seq<AlignedOp>)
    ensures AllClean(a + b) <==> AllClean(a) && AllClean(b)
  {
    hide OpClean;
    assert forall op :: op in a + b <==> op in a || op in b;
  }

  lemma {:induction false} ReportOpsClean(env: Reviewed, cpp: Capture, rust: Capture, directions: seq<Direction>)
    ensures AllClean(ReportOps(env, cpp, rust, directions)) <==>
      forall d :: d in directions ==>
        StreamsAgree(env, d, ByDirection(cpp.packets, d), ByDirection(rust.packets, d))
  {
    hide DirectionOps, OpClean, StreamsAgree;
    if directions != [] {
      var init, last := directions[..|directions| - 1], directions[|directions| - 1];
      ReportOpsClean(env, cpp, rust, init);
      DirectionClean(env, cpp, rust, last);
      AllCleanConcat(ReportOps(env, cpp, rust, init), DirectionOps(env, cpp, rust, last));
      assert forall d :: d in directions <==> d in init || d == last;
    }
  }

  /** The report is clean exactly when every compared direction agrees packet by packet. */
  lemma CleanIffStreamsAgree(env: Reviewed, cpp: Capture, rust: Capture, directions: seq<Direction>)
    ensures CountsClean(Tally(ReportOps(env, cpp, rust, directions))) <==>
      forall d :: d in directions ==>
        StreamsAgree(env, d, ByDirection(cpp.packets, d), ByDirection(rust.packets, d))
  {
    TallyClean(ReportOps(env, cpp, rust, directions));
    ReportOpsClean(env, cpp, rust, directions);
  }

  lemma {:induction false} CleanOpsMatched(ops: seq<AlignedOp>)
    requires AllClean(ops)
    ensures Tally(ops).matched == |ops|
  {
    if ops != [] {
      var last := ops[|ops| - 1];
      assert last in ops && OpClean(last);
      assert ops == ops[..|ops| - 1] + [last];
      CleanOpsMatched(ops[..|ops| - 1]);
    }
  }

  /** Packets of the listed directions, direction by direction. */
  function StreamTotal(packets: seq<CapturedPacket>, directions: seq<Direction>): nat {
    if directions == [] then 0
    else StreamTotal(packets, directions[..|directions| - 1]) + |ByDirection(packets, directions[|directions| - 1])|
  }

  lemma CleanDirectionSize(env: Reviewed, cpp: Capture, rust: Capture, dir: Direction)
    requires AllClean(DirectionOps(env, cpp, rust, dir))
    ensures |DirectionOps(env, cpp, rust, dir)| == |ByDirection(cpp.packets, dir)|
  {
    var a, b := Opcodes(ByDirection(cpp.packets, dir)), Opcodes(ByDirection(rust.packets, dir));
    DirectionClean(env, cpp, rust, dir);
    ScriptIsAllMatches(a, b, 0, 0);
    assert a == b;
  }

  /** A clean report matches every golden packet of the compared directions. */
  lemma {:induction false} CleanReportSize(env: Reviewed, cpp: Capture, rust: Capture, directions: seq<Direction>)
    requires AllClean(ReportOps(env, cpp, rust, directions))
    ensures |ReportOps(env, cpp, rust, directions)| == StreamTotal(cpp.packets, directions)
  {
    hide DirectionOps;
    if directions != [] {
      var init, last := directions[..|directions| - 1], directions[|directions| - 1];
      var before, ops := ReportOps(env, cpp, rust, init), DirectionOps(env, cpp, rust, last);
      AllCleanConcat(before, ops);
      CleanReportSize(env, cpp, rust, init);
      CleanDirectionSize(env, cpp, rust, last);
    }
  }

  // ---------------------------------------------------------------------
  // Signatures
  // ---------------------------------------------------------------------

  datatype DivergenceKind = SigMissing | SigExtra | SigBody | SigConnection

  /** Position-independent divergence record kept in the committed baseline. */
  datatype DivergenceSignature = DivergenceSignature(
    kind: DivergenceKind, direction: Direction, opcode: string, name: string,
    cppBodyLen: Option<nat>, rustBodyLen: Option<nat>, firstDiffOffset: Option<nat>,
    semanticMismatch: Option<SemanticBodyDiff>,
    cppConnectionId: Option<uint32>, rustConnectionId: Option<uint32>)

  function BareSignature(kind: DivergenceKind, op: AlignedOp): DivergenceSignature {
    DivergenceSignature(kind, op.direction, Text.Hex4(op.opcode), op.name, None, None, None, None, None, None)
  }

  function RouteSignature(op: AlignedOp): DivergenceSignature
    requires op.connection.Some?
  {
    BareSignature(SigConnection, op).(
      cppConnectionId := Some(op.connection.value.cppConnectionId),
      rustConnectionId := Some(op.connection.value.rustConnectionId))
  }

  /** A semantic verdict replaces the raw lengths and offset. */
  function BodySignature(op: AlignedOp): DivergenceSignature
    requires op.body.Some?
  {
    var body := op.body.value;
    if body.semantic.Some? then BareSignature(SigBody, op).(semanticMismatch := body.semantic)
    else
      BareSignature(SigBody, op).(
        cppBodyLen := Some(body.cppLen), rustBodyLen := Some(body.rustLen), firstDiffOffset := body.firstDiffOffset)
  }

  function OpSignatures(op: AlignedOp): seq<DivergenceSignature> {
    match op.kind
    case MissingInRust => [BareSignature(SigMissing, op)]
    case ExtraInRust => [BareSignature(SigExtra, op)]
    case KindMatch =>
      (if RouteDiffers(op) then [RouteSignature(op)] else [])
      + (if BodyDiffers(op) then [BodySignature(op)] else [])
  }

  function Signatures(ops: seq<AlignedOp>): seq<DivergenceSignature> {
    if ops == [] then [] else Signatures(ops[..|ops| - 1]) + OpSignatures(ops[|ops| - 1])
  }

  method PushSignatures(before: seq<DivergenceSignature>, op: AlignedOp) returns (sigs: seq<DivergenceSignature>)
    ensures sigs == before + OpSignatures(op)
  {
    sigs := before;
    match op.kind {
      case MissingInRust => sigs := sigs + [BareSignature(SigMissing, op)];
      case ExtraInRust => sigs := sigs + [BareSignature(SigExtra, op)];
      case KindMatch =>
        if op.connection.Some? && !op.connection.value.IsIdentical() {
          sigs := sigs + [RouteSignature(op)];
        }
        if op.body.Some? && !op.body.value.IsIdentical() {
          sigs := sigs + [BodySignature(op)];
        }
    }
  }

  method CollectSignatures(report: DiffReport) returns (sigs: seq<DivergenceSignature>)
    ensures sigs == Signatures(report.ops)
  {
    sigs := [];
    for k := 0 to |report.ops|
      invariant sigs == Signatures(report.ops[..k])
    {
      sigs := PushSignatures(sigs, report.ops[k]);
      assert report.ops[..k + 1][..k] == report.ops[..k];
    }
    assert report.ops[..|report.ops|] == report.ops;
  }

  /** One signature per counted divergence. */
  lemma {:induction false} SignatureCount(ops: seq<AlignedOp>)
    ensures var c := Tally(ops);
      |Signatures(ops)| == c.missingInRust + c.extraInRust + c.bodyMismatches + c.connectionMismatches
  {
    if ops != [] {
      SignatureCount(ops[..|ops| - 1]);
      assert |OpSignatures(ops[|ops| - 1])| <= 2;
    }
  }

  // ---------------------------------------------------------------------
  // Baseline delta
  // ---------------------------------------------------------------------

  datatype BaselineDelta = BaselineDelta(added: seq<DivergenceSignature>, fixed: seq<DivergenceSignature>) {
    predicate Matches() { added == [] && fixed == [] }
  }

  function IndexOf(sigs: seq<DivergenceSignature>, sig: DivergenceSignature): (r: Option<nat>)
    ensures r.None? ==> sig !in sigs
    ensures r.Some? ==> r.value < |sigs| && sigs[r.value] == sig
  {
    if sigs == [] then None
    else if sigs[0] == sig then Some(0)
    else
      var tail := IndexOf(sigs[1..], sig);
      if tail.Some? then Some(tail.value + 1) else None
  }

  /** Every actual signature cancels one equal baseline entry. */
  method ComputeBaselineDelta(actual: seq<DivergenceSignature>, expected: seq<DivergenceSignature>)
    returns (delta: BaselineDelta)
    ensures multiset(delta.added) == multiset(actual) - multiset(expected)
    ensures multiset(delta.fixed) == multiset(expected) - multiset(actual)
    ensures delta.Matches() <==> multiset(actual) == multiset(expected)
  {
    hide Cancelled, IndexOf;
    var remaining, added := expected, [];
    NothingCancelled(actual, expected);
    for k := 0 to |actual|
      invariant Cancelled(added, remaining, actual[..k], expected)
    {
      var sig := actual[k];
      TakeOneMore(actual, k);
      var pos := IndexOf(remaining, sig);
      if pos.Some? {
        CancelHit(added, remaining, actual[..k], expected, pos.value);
        remaining := remaining[..pos.value] + remaining[pos.value + 1..];
      } else {
        CancelMiss(added, remaining, actual[..k], expected, sig);
        added := added + [sig];
      }
    }
    assert actual[..|actual|] == actual;
    delta := BaselineDelta(added, remaining);
    DeltaMatches(added, remaining, actual, expected);
  }

  ghost predicate Cancelled<T(!new)>(added: seq<T>, remaining: seq<T>, actual: seq<T>, expected: seq<T>) {
    && multiset(added) == multiset(actual) - multiset(expected)
    && multiset(remaining) == multiset(expected) - multiset(actual)
  }

  lemma NothingCancelled<T(!new)>(actual: seq<T>, expected: seq<T>)
    ensures Cancelled([], expected, actual[..0], expected)
  {
    assert multiset(actual[..0]) == multiset{};
  }

  /** An actual entry cancels one equal expected entry that is still open. */
  lemma CancelHit<T(!new)>(added: seq<T>, remaining: seq<T>, actual: seq<T>, expected: seq<T>, k: nat)
    requires Cancelled(added, remaining, actual, expected)
    requires k < |remaining|
    ensures Cancelled(added, remaining[..k] + remaining[k + 1..], actual + [remaining[k]], expected)
  {
    var a, e, x := multiset(actual), multiset(expected), remaining[k];
    assert remaining == remaining[..k] + [x] + remaining[k + 1..];
    assert multiset(remaining)[x] > 0 && multiset(remaining)[x] == (e - a)[x];
    assert a + multiset{x} - e == a - e;
    assert e - (a + multiset{x}) == e - a - multiset{x};
  }

  /** An actual entry with no open counterpart is surplus. */
  lemma CancelMiss<T(!new)>(added: seq<T>, remaining: seq<T>, actual: seq<T>, expected: seq<T>, x: T)
    requires Cancelled(added, remaining, actual, expected)
    requires x !in remaining
    ensures Cancelled(added + [x], remaining, actual + [x], expected)
  {
    var a, e := multiset(actual), multiset(expected);
    assert multiset(remaining)[x] == 0 && multiset(remaining)[x] == (e - a)[x];
    assert a + multiset{x} - e == a - e + multiset{x};
    assert e - (a + multiset{x}) == e - a;
  }

  lemma DeltaMatches<T(!new)>(added: seq<T>, remaining: seq<T>, actual: seq<T>, expected: seq<T>)
    requires Cancelled(added, remaining, actual, expected)
    ensures multiset(added) == multiset(actual) - multiset(expected)
    ensures multiset(remaining) == multiset(expected) - multiset(actual)
    ensures added == [] && remaining == [] <==> multiset(actual) == multiset(expected)
  {
    var a, e := multiset(actual), multiset(expected);
    assert |multiset(added)| == |added| && |multiset(remaining)| == |remaining|;
    if added == [] && remaining == [] {
      forall x: T
        ensures a[x] == e[x]
      {
        assert (a - e)[x] == 0 && (e - a)[x] == 0;
      }
    }
  }

  /** Matching the empty baseline is the same as a clean report. */
  lemma EmptyBaselineIffClean(env: Reviewed, cpp: Capture, rust: Capture, directions: seq<Direction>)
    ensures var ops := ReportOps(env, cpp, rust, directions);
      multiset(Signatures(ops)) == multiset{} <==> CountsClean(Tally(ops))
  {
    var ops := ReportOps(env, cpp, rust, directions);
    SignatureCount(ops);
    assert |multiset(Signatures(ops))| == |Signatures(ops)|;
  }
}
