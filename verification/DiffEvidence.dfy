/** What the operations and signatures of a report say about the packets of the two captures. */
module DiffEvidence {
  import opened Common
  import opened CaptureModel
  import opened Align
  import opened Diff
  import Text

  // ---------------------------------------------------------------------
  // Operations
  // ---------------------------------------------------------------------

  function NameOf(env: Reviewed, p: CapturedPacket): string {
    env.opcodeName(p.direction, p.opcode)
  }

  /** The operation tells the truth about the packets it names in the two streams. */
  ghost predicate Describes(env: Reviewed, dir: Direction, a: seq<CapturedPacket>, b: seq<CapturedPacket>, op: AlignedOp) {
    && op.direction == dir
    && (op.cppIndex.Some? ==> op.cppIndex.value < |a| && op.opcode == a[op.cppIndex.value].opcode)
    && (op.rustIndex.Some? ==> op.rustIndex.value < |b| && op.opcode == b[op.rustIndex.value].opcode)
    && (op.cppIndex.Some? ==> op.name == NameOf(env, a[op.cppIndex.value]))
    && (op.cppIndex.None? && op.rustIndex.Some? ==> op.name == NameOf(env, b[op.rustIndex.value]))
    && (op.kind.KindMatch? <==> op.cppIndex.Some? && op.rustIndex.Some?)
    && (op.kind.MissingInRust? <==> op.cppIndex.Some? && op.rustIndex.None?)
    && (op.kind.ExtraInRust? <==> op.cppIndex.None? && op.rustIndex.Some?)
    && (op.body.Some? <==> op.kind.KindMatch?) && (op.connection.Some? <==> op.kind.KindMatch?)
    && (op.kind.KindMatch? ==> DescribesPair(env, dir, a[op.cppIndex.value], b[op.rustIndex.value], op))
  }

  ghost predicate DescribesPair(env: Reviewed, dir: Direction, x: CapturedPacket, y: CapturedPacket, op: AlignedOp)
    requires op.body.Some? && op.connection.Some?
  {
    var body := op.body.value;
    && op.connection.value.cppConnectionId == x.connectionId && op.connection.value.rustConnectionId == y.connectionId
    && (BodyDiffers(op) <==> !BodiesIdentical(env, dir, x.opcode, x.body, y.body))
    && (RouteDiffers(op) <==> x.connectionId != y.connectionId)
    && body.cppLen == |x.body| && body.rustLen == |y.body|
    && body.semantic == env.compareBodies(dir, x.opcode, x.body, y.body)
    && (body.semantic.None? ==> FirstDifference(x.body, y.body, body.firstDiffOffset))
  }

  lemma StepDescribes(env: Reviewed, dir: Direction, a: seq<CapturedPacket>, b: seq<CapturedPacket>, step: Step)
    requires StepInBounds(step, Opcodes(a), Opcodes(b))
    ensures Describes(env, dir, a, b, OpOf(env, dir, a, b, step))
  {
    hide FirstDifference, BodiesIdentical, FirstDiff;
    if step.Match? {
      var x, y := a[step.cpp], b[step.rust];
      BodyDiffIsIdentical(env, dir, x.opcode, x.body, y.body);
      FirstDiffIsADifference(x.body, y.body, 0);
    }
  }

  /** The golden packets the operations name, in order. */
  function CppPlaces(ops: seq<AlignedOp>): seq<nat> {
    if ops == [] then []
    else (if ops[0].cppIndex.Some? then [ops[0].cppIndex.value] else []) + CppPlaces(ops[1..])
  }

  /** The Rust packets the operations name, in order. */
  function RustPlaces(ops: seq<AlignedOp>): seq<nat> {
    if ops == [] then []
    else (if ops[0].rustIndex.Some? then [ops[0].rustIndex.value] else []) + RustPlaces(ops[1..])
  }

  function OpsOf(env: Reviewed, dir: Direction, a: seq<CapturedPacket>, b: seq<CapturedPacket>, steps: seq<Step>): (ops: seq<AlignedOp>)
    requires forall k :: 0 <= k < |steps| ==> StepInBounds(steps[k], Opcodes(a), Opcodes(b))
    ensures |ops| == |steps|
  {
    seq(|steps|, k requires 0 <= k < |steps| => OpOf(env, dir, a, b, steps[k]))
  }

  lemma {:induction false} PlacesFollowSteps(
      env: Reviewed, dir: Direction, a: seq<CapturedPacket>, b: seq<CapturedPacket>, steps: seq<Step>)
    requires forall k :: 0 <= k < |steps| ==> StepInBounds(steps[k], Opcodes(a), Opcodes(b))
    ensures CppPlaces(OpsOf(env, dir, a, b, steps)) == CppIndices(steps)
    ensures RustPlaces(OpsOf(env, dir, a, b, steps)) == RustIndices(steps)
    decreases |steps|
  {
    if steps != [] {
      PlacesFollowSteps(env, dir, a, b, steps[1..]);
      hide BodyDiffOf;
      assert OpsOf(env, dir, a, b, steps)[1..] == OpsOf(env, dir, a, b, steps[1..]);
    }
  }

  /**
   * Every operation of one direction describes the packets it names, and together
   * they name every packet of both streams exactly once, in order.
   */
  lemma OperationsCoverBothStreams(env: Reviewed, cpp: Capture, rust: Capture, dir: Direction)
    ensures var a, b := ByDirection(cpp.packets, dir), ByDirection(rust.packets, dir);
      var ops := DirectionOps(env, cpp, rust, dir);
      && (forall op :: op in ops ==> Describes(env, dir, a, b, op))
      && CppPlaces(ops) == Range(0, |a|) && RustPlaces(ops) == Range(0, |b|)
  {
    var a, b := ByDirection(cpp.packets, dir), ByDirection(rust.packets, dir);
    var steps, ops := StepsOf(a, b), DirectionOps(env, cpp, rust, dir);
    hide Describes, OpOf;
    forall k | 0 <= k < |ops|
      ensures Describes(env, dir, a, b, ops[k])
    {
      StepDescribes(env, dir, a, b, steps[k]);
    }
    assert ops == OpsOf(env, dir, a, b, steps);
    PlacesFollowSteps(env, dir, a, b, steps);
    ScriptIsEditScript(Opcodes(a), Opcodes(b), 0, 0);
    EditScriptVisitsEveryPacketOnce(steps, Opcodes(a), Opcodes(b), 0, 0);
  }

  lemma WhereCons<T>(x: T, s: seq<T>, p: T -> bool)
    ensures |Where([x] + s, p)| == |Where(s, p)| + if p(x) then 1 else 0
    decreases |s|
  {
    if s == [] {
      assert [x] + s == [] + [x];
      WhereSnoc([], p, x);
    } else {
      var init, last := s[..|s| - 1], s[|s| - 1];
      WhereCons(x, init, p);
      assert s == init + [last] && [x] + s == ([x] + init) + [last];
      WhereSnoc(init, p, last);
      WhereSnoc([x] + init, p, last);
    }
  }

  /** An operation names a golden packet unless it is extra, and a Rust packet unless it is missing. */
  predicate NamesByKind(op: AlignedOp) {
    (op.cppIndex.Some? <==> !op.kind.ExtraInRust?) && (op.rustIndex.Some? <==> !op.kind.MissingInRust?)
  }

  lemma {:induction false} PlacesByKind(ops: seq<AlignedOp>)
    requires forall op :: op in ops ==> NamesByKind(op)
    ensures |CppPlaces(ops)| == |Where(ops, IsPaired)| + |Where(ops, IsMissing)|
    ensures |RustPlaces(ops)| == |Where(ops, IsPaired)| + |Where(ops, IsExtra)|
  {
    if ops == [] {
      assert Where(ops, IsPaired) == {} && Where(ops, IsMissing) == {} && Where(ops, IsExtra) == {};
    } else {
      var op, rest := ops[0], ops[1..];
      assert op in ops && NamesByKind(op);
      PlacesByKind(rest);
      assert ops == [op] + rest;
      WhereCons(op, rest, IsPaired);
      WhereCons(op, rest, IsMissing);
      WhereCons(op, rest, IsExtra);
    }
  }

  /** Conservation: paired and missing operations are the golden packets, paired and extra ones the Rust packets. */
  lemma PacketsAreConserved(env: Reviewed, cpp: Capture, rust: Capture, dir: Direction)
    ensures var ops := DirectionOps(env, cpp, rust, dir);
      && |Where(ops, IsPaired)| + |Where(ops, IsMissing)| == |ByDirection(cpp.packets, dir)|
      && |Where(ops, IsPaired)| + |Where(ops, IsExtra)| == |ByDirection(rust.packets, dir)|
  {
    hide DirectionOps, DescribesPair, Where;
    OperationsCoverBothStreams(env, cpp, rust, dir);
    PlacesByKind(DirectionOps(env, cpp, rust, dir));
  }

  // ---------------------------------------------------------------------
  // Signatures
  // ---------------------------------------------------------------------

  /** The signature records a divergence between the two streams, with the right values on each side. */
  ghost predicate Records(
      env: Reviewed, dir: Direction, a: seq<CapturedPacket>, b: seq<CapturedPacket>, sig: DivergenceSignature)
  {
    && sig.direction == dir
    && match sig.kind
       case SigMissing => exists i :: 0 <= i < |a| && Labels(env, a[i], sig) && IsBare(sig)
       case SigExtra => exists j :: 0 <= j < |b| && Labels(env, b[j], sig) && IsBare(sig)
       case SigConnection => exists i, j :: 0 <= i < |a| && 0 <= j < |b| && RecordsRoutes(env, a[i], b[j], sig)
       case SigBody => exists i, j :: 0 <= i < |a| && 0 <= j < |b| && RecordsBodies(env, dir, a[i], b[j], sig)
  }

  predicate Labels(env: Reviewed, p: CapturedPacket, sig: DivergenceSignature) {
    sig.opcode == Text.Hex4(p.opcode) && sig.name == NameOf(env, p)
  }

  predicate IsBare(sig: DivergenceSignature) {
    && sig.cppBodyLen.None? && sig.rustBodyLen.None? && sig.firstDiffOffset.None? && sig.semanticMismatch.None?
    && sig.cppConnectionId.None? && sig.rustConnectionId.None?
  }

  predicate RecordsRoutes(env: Reviewed, x: CapturedPacket, y: CapturedPacket, sig: DivergenceSignature) {
    && Labels(env, x, sig) && x.opcode == y.opcode
    && x.connectionId != y.connectionId
    && sig.cppConnectionId == Some(x.connectionId) && sig.rustConnectionId == Some(y.connectionId)
  }

  /** A reviewed verdict replaces lengths and offset, which otherwise are those of the two bodies. */
  ghost predicate RecordsBodies(env: Reviewed, dir: Direction, x: CapturedPacket, y: CapturedPacket, sig: DivergenceSignature) {
    && Labels(env, x, sig) && x.opcode == y.opcode
    && !BodiesIdentical(env, dir, x.opcode, x.body, y.body)
    && sig.semanticMismatch == env.compareBodies(dir, x.opcode, x.body, y.body)
    && if sig.semanticMismatch.Some? then
         sig.cppBodyLen.None? && sig.rustBodyLen.None? && sig.firstDiffOffset.None?
       else
         && sig.cppBodyLen == Some(|x.body|) && sig.rustBodyLen == Some(|y.body|)
         && FirstDifference(x.body, y.body, sig.firstDiffOffset)
  }

  lemma OpSignaturesRecord(
      env: Reviewed, dir: Direction, a: seq<CapturedPacket>, b: seq<CapturedPacket>, op: AlignedOp)
    requires Describes(env, dir, a, b, op)
    ensures forall sig :: sig in OpSignatures(op) ==> Records(env, dir, a, b, sig)
  {
    hide FirstDifference, BodiesIdentical;
    if op.kind.KindMatch? {
      var x, y := a[op.cppIndex.value], b[op.rustIndex.value];
      assert RouteDiffers(op) ==> RecordsRoutes(env, x, y, RouteSignature(op));
      assert BodyDiffers(op) ==> RecordsBodies(env, dir, x, y, BodySignature(op));
    }
  }

  lemma {:induction false} SignaturesOfOps(
      env: Reviewed, dir: Direction, a: seq<CapturedPacket>, b: seq<CapturedPacket>, ops: seq<AlignedOp>)
    requires forall op :: op in ops ==> Describes(env, dir, a, b, op)
    ensures forall sig :: sig in Signatures(ops) ==> Records(env, dir, a, b, sig)
  {
    hide Describes, Records, OpSignatures;
    if ops != [] {
      SignaturesOfOps(env, dir, a, b, ops[..|ops| - 1]);
      OpSignaturesRecord(env, dir, a, b, ops[|ops| - 1]);
    }
  }

  /** Every signature of one direction's operations records a real divergence of its two streams. */
  lemma SignaturesRecordDivergences(env: Reviewed, cpp: Capture, rust: Capture, dir: Direction)
    ensures forall sig :: sig in Signatures(DirectionOps(env, cpp, rust, dir)) ==>
      Records(env, dir, ByDirection(cpp.packets, dir), ByDirection(rust.packets, dir), sig)
  {
    hide Describes, Records, DirectionOps, Signatures;
    OperationsCoverBothStreams(env, cpp, rust, dir);
    SignaturesOfOps(
      env, dir, ByDirection(cpp.packets, dir), ByDirection(rust.packets, dir), DirectionOps(env, cpp, rust, dir));
  }
}
