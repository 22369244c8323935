/**
 * The milestone gate: the required-flow contract of flow.rs and the decision of
 * `verify-required` in main.rs.
 */
module Gate {
  import opened Common
  import opened CaptureModel
  import opened Diff
  import Text

  datatype RequirementStatus = AwaitingRealCaptures | Ready

  datatype SemanticContract = LootSingleItemClaimV1 | ChaseAroundObstacleV1 | CreatureSpellCastingV1

  datatype CaptureSide = CppSide | RustSide

  datatype RequiredPacket =
    RequiredPacket(direction: Direction, connectionId: uint32, opcode: uint16, anchorLabel: string)
  {
    predicate Matches(packet: CapturedPacket) {
      direction == packet.direction && connectionId == packet.connectionId && opcode == packet.opcode
    }
  }

  datatype ImportBoundary = ImportBoundary(direction: Direction, opcode: uint16)

  datatype ImportSelection =
    ImportSelection(fromOpcode: ImportBoundary, untilOpcode: ImportBoundary, ignoredOpcodes: seq<ImportBoundary>)

  datatype Requirement = Requirement(
    issue: string, status: RequirementStatus, description: string, blockedReason: Option<string>,
    directions: seq<Direction>, selection: ImportSelection, exactlyOnce: bool,
    contract: SemanticContract, requiredOrder: seq<RequiredPacket>)

  datatype RequirementError =
    | EmptyIssue | EmptyDescription | NoDirections | ZeroSelectionOpcode | SelectionOutsideDirections
    | DuplicateIgnore | DuplicateDirections | TooFewPackets | CardinalityDisabled
    | ZeroRequiredOpcode | UnlabeledPacket | UncomparedDirection
    | AwaitingWithoutReason | ReadyButBlocked

  // ---------------------------------------------------------------------
  // Loading a contract
  // ---------------------------------------------------------------------

  predicate SelectionWellFormed(selection: ImportSelection, directions: seq<Direction>) {
    && selection.fromOpcode.opcode != 0 && selection.untilOpcode.opcode != 0
    && selection.fromOpcode.direction in directions && selection.untilOpcode.direction in directions
    && (forall b :: b in selection.ignoredOpcodes ==> b.opcode != 0 && b.direction in directions)
    && Distinct(selection.ignoredOpcodes)
  }

  predicate PacketWellFormed(packet: RequiredPacket, directions: seq<Direction>) {
    packet.opcode != 0 && !Text.IsBlank(packet.anchorLabel) && packet.direction in directions
  }

  /** The contracts a reviewer may commit. */
  predicate WellFormed(c: Requirement) {
    && !Text.IsBlank(c.issue) && !Text.IsBlank(c.description)
    && c.directions != [] && Distinct(c.directions)
    && SelectionWellFormed(c.selection, c.directions)
    && |c.requiredOrder| >= 2 && c.exactlyOnce
    && (forall p :: p in c.requiredOrder ==> PacketWellFormed(p, c.directions))
    && match c.status
       case AwaitingRealCaptures => c.blockedReason.Some? && !Text.IsBlank(c.blockedReason.value)
       case Ready => c.blockedReason.None?
  }

  /** The rule behind each refusal. */
  predicate Violates(c: Requirement, e: RequirementError) {
    match e
    case EmptyIssue => Text.IsBlank(c.issue)
    case EmptyDescription => Text.IsBlank(c.description)
    case NoDirections => c.directions == []
    case ZeroSelectionOpcode =>
      || c.selection.fromOpcode.opcode == 0 || c.selection.untilOpcode.opcode == 0
      || exists b :: b in c.selection.ignoredOpcodes && b.opcode == 0
    case SelectionOutsideDirections =>
      || c.selection.fromOpcode.direction !in c.directions || c.selection.untilOpcode.direction !in c.directions
      || exists b :: b in c.selection.ignoredOpcodes && b.direction !in c.directions
    case DuplicateIgnore => !Distinct(c.selection.ignoredOpcodes)
    case DuplicateDirections => !Distinct(c.directions)
    case TooFewPackets => |c.requiredOrder| < 2
    case CardinalityDisabled => !c.exactlyOnce
    case ZeroRequiredOpcode => exists p :: p in c.requiredOrder && PacketFault(p, c.directions, e)
    case UnlabeledPacket => exists p :: p in c.requiredOrder && PacketFault(p, c.directions, e)
    case UncomparedDirection => exists p :: p in c.requiredOrder && PacketFault(p, c.directions, e)
    case AwaitingWithoutReason =>
      c.status.AwaitingRealCaptures? && (c.blockedReason.None? || Text.IsBlank(c.blockedReason.value))
    case ReadyButBlocked => c.status.Ready? && c.blockedReason.Some?
  }

  /** What is wrong with this packet in particular; its own faults have an order too. */
  predicate PacketFault(p: RequiredPacket, directions: seq<Direction>, e: RequirementError) {
    match e
    case ZeroRequiredOpcode => p.opcode == 0
    case UnlabeledPacket => p.opcode != 0 && Text.IsBlank(p.anchorLabel)
    case UncomparedDirection => p.opcode != 0 && !Text.IsBlank(p.anchorLabel) && p.direction !in directions
    case _ => false
  }

  /** The order in which the rules are applied; the packets are checked one by one. */
  function Rank(e: RequirementError): nat {
    match e
    case EmptyIssue => 0
    case EmptyDescription => 1
    case NoDirections => 2
    case ZeroSelectionOpcode => 3
    case SelectionOutsideDirections => 4
    case DuplicateIgnore => 5
    case DuplicateDirections => 6
    case TooFewPackets => 7
    case CardinalityDisabled => 8
    case ZeroRequiredOpcode | UnlabeledPacket | UncomparedDirection => 9
    case AwaitingWithoutReason | ReadyButBlocked => 10
  }

  /** The contract breaks this rule and none that is applied before it. */
  ghost predicate IsFirstViolation(c: Requirement, e: RequirementError) {
    Violates(c, e) && NoneBefore(c, Rank(e))
  }

  ghost predicate NoneBefore(c: Requirement, n: nat) {
    forall e :: Rank(e) < n ==> !Violates(c, e)
  }

  /** A rule with a rank of its own, once checked, is behind us. */
  lemma RuleHolds(c: Requirement, e: RequirementError)
    requires NoneBefore(c, Rank(e)) && Rank(e) < 9 && !Violates(c, e)
    ensures NoneBefore(c, Rank(e) + 1)
  {
    hide Violates;
  }

  /** A contract a reviewer may commit breaks no rule. */
  lemma WellFormedBreaksNoRule(c: Requirement, e: RequirementError)
    requires WellFormed(c)
    ensures !Violates(c, e)
  {
    hide Distinct;
    match e {
      case ZeroRequiredOpcode => PacketsHaveNoFault(c, e);
      case UnlabeledPacket => PacketsHaveNoFault(c, e);
      case UncomparedDirection => PacketsHaveNoFault(c, e);
      case _ =>
    }
  }

  lemma PacketsHaveNoFault(c: Requirement, e: RequirementError)
    requires forall p :: p in c.requiredOrder ==> PacketWellFormed(p, c.directions)
    ensures forall p :: p in c.requiredOrder ==> !PacketFault(p, c.directions, e)
  {
    forall p | p in c.requiredOrder
      ensures !PacketFault(p, c.directions, e)
    {
      assert PacketWellFormed(p, c.directions);
    }
  }

  method HasDuplicateIgnore(ignored: seq<ImportBoundary>) returns (duplicate: bool)
    ensures duplicate <==> !Distinct(ignored)
  {
    var uniqueIgnores: seq<ImportBoundary> := [];
    for k := 0 to |ignored|
      invariant uniqueIgnores == ignored[..k] && Distinct(ignored[..k])
    {
      if ignored[k] in uniqueIgnores {
        var i :| 0 <= i < k && ignored[..k][i] == ignored[k];
        assert ignored[i] == ignored[k];
        return true;
      }
      uniqueIgnores := uniqueIgnores + [ignored[k]];
    }
    assert ignored[..|ignored|] == ignored;
    return false;
  }

  method CheckRequiredPackets(order: seq<RequiredPacket>, directions: seq<Direction>)
    returns (error: Option<RequirementError>)
    ensures error.None? <==> forall p :: p in order ==> PacketWellFormed(p, directions)
    ensures error.Some? ==> Rank(error.value) == 9 && exists p :: p in order && PacketFault(p, directions, error.value)
  {
    for k := 0 to |order|
      invariant forall p :: p in order[..k] ==> PacketWellFormed(p, directions)
    {
      var packet := order[k];
      assert packet in order;
      if packet.opcode == 0 {
        return Some(ZeroRequiredOpcode);
      }
      if Text.IsBlank(packet.anchorLabel) {
        return Some(UnlabeledPacket);
      }
      if packet.direction !in directions {
        return Some(UncomparedDirection);
      }
      assert order[..k + 1] == order[..k] + [packet];
    }
    assert order[..|order|] == order;
    return None;
  }

  method CheckSelection(config: Requirement) returns (error: Option<RequirementError>)
    requires NoneBefore(config, 3)
    ensures error.None? ==> NoneBefore(config, 6) && SelectionWellFormed(config.selection, config.directions)
    ensures error.Some? ==> IsFirstViolation(config, error.value)
  {
    hide NoneBefore, Distinct;
    var selection := config.selection;
    if selection.fromOpcode.opcode == 0 || selection.untilOpcode.opcode == 0
       || exists b :: b in selection.ignoredOpcodes && b.opcode == 0 {
      return Some(ZeroSelectionOpcode);
    }
    RuleHolds(config, ZeroSelectionOpcode);
    if selection.fromOpcode.direction !in config.directions || selection.untilOpcode.direction !in config.directions
       || exists b :: b in selection.ignoredOpcodes && b.direction !in config.directions {
      return Some(SelectionOutsideDirections);
    }
    RuleHolds(config, SelectionOutsideDirections);
    var duplicate := HasDuplicateIgnore(selection.ignoredOpcodes);
    if duplicate {
      return Some(DuplicateIgnore);
    }
    RuleHolds(config, DuplicateIgnore);
    return None;
  }

  /** The structural rules of `load_requirement_from`, in the order the source applies them. */
  method LoadRequirement(config: Requirement) returns (r: Result<Requirement, RequirementError>)
    ensures r.Ok? <==> WellFormed(config)
    ensures r.Ok? ==> r.value == config
    ensures r.Err? ==> IsFirstViolation(config, r.error)
  {
    NothingChecked(config);
    hide NoneBefore, Distinct, PacketWellFormed, PacketFault, SelectionWellFormed;
    if WellFormed(config) {
      forall e
        ensures !Violates(config, e)
      {
        WellFormedBreaksNoRule(config, e);
      }
    }
    if Text.IsBlank(config.issue) {
      return Err(EmptyIssue);
    }
    RuleHolds(config, EmptyIssue);
    if Text.IsBlank(config.description) {
      return Err(EmptyDescription);
    }
    RuleHolds(config, EmptyDescription);
    if config.directions == [] {
      return Err(NoDirections);
    }
    RuleHolds(config, NoDirections);
    var selectionError := CheckSelection(config);
    if selectionError.Some? {
      return Err(selectionError.value);
    }
    TwoDirections(config.directions);
    if |config.directions| > 2 || exists k :: 0 <= k < |config.directions| && config.directions[k] in config.directions[..k] {
      return Err(DuplicateDirections);
    }
    RuleHolds(config, DuplicateDirections);
    if |config.requiredOrder| < 2 {
      return Err(TooFewPackets);
    }
    RuleHolds(config, TooFewPackets);
    if !config.exactlyOnce {
      return Err(CardinalityDisabled);
    }
    RuleHolds(config, CardinalityDisabled);
    var error := CheckRequiredPackets(config.requiredOrder, config.directions);
    if error.Some? {
      return Err(error.value);
    }
    PacketsChecked(config);
    match config.status {
      case AwaitingRealCaptures =>
        if config.blockedReason.None? || Text.IsBlank(config.blockedReason.value) {
          return Err(AwaitingWithoutReason);
        }
      case Ready =>
        if config.blockedReason.Some? {
          return Err(ReadyButBlocked);
        }
    }
    return Ok(config);
  }

  lemma PacketsChecked(c: Requirement)
    requires NoneBefore(c, 9) && forall p :: p in c.requiredOrder ==> PacketWellFormed(p, c.directions)
    ensures NoneBefore(c, 10)
  {
    forall e | Rank(e) == 9
      ensures !Violates(c, e)
    {
      PacketsHaveNoFault(c, e);
    }
    hide Violates;
  }

  lemma NothingChecked(c: Requirement)
    ensures NoneBefore(c, 0)
  {
  }

  /** Three or more directions cannot be pairwise distinct. */
  lemma TwoDirections(directions: seq<Direction>)
    ensures |directions| > 2 ==> !Distinct(directions)
    ensures (exists k :: 0 <= k < |directions| && directions[k] in directions[..k]) <==> !Distinct(directions)
  {
    if !Distinct(directions) {
      var i, j :| 0 <= i < j < |directions| && directions[i] == directions[j];
      assert directions[..j][i] == directions[j];
    }
    if |directions| > 2 {
      assert directions[0] == directions[1] || directions[0] == directions[2] || directions[1] == directions[2];
    }
    if k :| 0 <= k < |directions| && directions[k] in directions[..k] {
      var i :| 0 <= i < k && directions[..k][i] == directions[k];
      assert directions[i] == directions[k];
    }
  }

  // ---------------------------------------------------------------------
  // Exact topology
  // ---------------------------------------------------------------------

  datatype ShapeError =
    | ExactnessDisabled | NoPacketContract | EmptyCapture | WrongFirst | WrongLast | WrongLength | WrongPacket(index: nat)

  /** The capture is packet for packet the required sequence. */
  predicate HasShape(order: seq<RequiredPacket>, packets: seq<CapturedPacket>) {
    |packets| == |order| && forall i :: 0 <= i < |order| ==> order[i].Matches(packets[i])
  }

  /** What a rejected capture is told: its first fault, boundaries before length before order. */
  predicate ShapeFault(requirement: Requirement, packets: seq<CapturedPacket>, e: ShapeError) {
    var order := requirement.requiredOrder;
    match e
    case ExactnessDisabled => !requirement.exactlyOnce
    case NoPacketContract => requirement.exactlyOnce && order == []
    case EmptyCapture => requirement.exactlyOnce && order != [] && packets == []
    case WrongFirst => requirement.exactlyOnce && order != [] && packets != [] && !order[0].Matches(packets[0])
    case WrongLast => BoundariesCompared(requirement, packets) && !order[|order| - 1].Matches(packets[|packets| - 1])
    case WrongLength => BoundariesMatch(requirement, packets) && |packets| != |order|
    case WrongPacket(index) =>
      && BoundariesMatch(requirement, packets) && |packets| == |order|
      && index < |order| && !order[index].Matches(packets[index])
      && forall i :: 0 <= i < index ==> order[i].Matches(packets[i])
  }

  predicate BoundariesCompared(requirement: Requirement, packets: seq<CapturedPacket>) {
    && requirement.exactlyOnce && requirement.requiredOrder != [] && packets != []
    && requirement.requiredOrder[0].Matches(packets[0])
  }

  predicate BoundariesMatch(requirement: Requirement, packets: seq<CapturedPacket>) {
    BoundariesCompared(requirement, packets)
    && requirement.requiredOrder[|requirement.requiredOrder| - 1].Matches(packets[|packets| - 1])
  }

  method ValidateCaptureShape(requirement: Requirement, capture: Capture) returns (r: Result<(), ShapeError>)
    ensures r.Ok? <==>
      requirement.exactlyOnce && requirement.requiredOrder != [] && HasShape(requirement.requiredOrder, capture.packets)
    ensures r.Err? ==> ShapeFault(requirement, capture.packets, r.error)
  {
    var order, packets := requirement.requiredOrder, capture.packets;
    if !requirement.exactlyOnce {
      return Err(ExactnessDisabled);
    }
    if order == [] {
      return Err(NoPacketContract);
    }
    if packets == [] {
      return Err(EmptyCapture);
    }
    if !order[0].Matches(packets[0]) {
      return Err(WrongFirst);
    }
    if !order[|order| - 1].Matches(packets[|packets| - 1]) {
      return Err(WrongLast);
    }
    if |packets| != |order| {
      return Err(WrongLength);
    }
    for index := 0 to |order|
      invariant forall i :: 0 <= i < index ==> order[i].Matches(packets[i])
    {
      if !order[index].Matches(packets[index]) {
        return Err(WrongPacket(index));
      }
    }
    return Ok(());
  }

  // ---------------------------------------------------------------------
  // From per-direction streams to the whole capture
  // ---------------------------------------------------------------------

  /** Same length, same direction, route and opcode everywhere, identical bodies everywhere. */
  predicate CapturesAgree(env: Reviewed, a: seq<CapturedPacket>, b: seq<CapturedPacket>) {
    |a| == |b| &&
    forall i :: 0 <= i < |a| ==> a[i].direction == b[i].direction && PacketsAgree(env, a[i].direction, a[i], b[i])
  }

  predicate SameDirections(a: seq<CapturedPacket>, b: seq<CapturedPacket>) {
    |a| == |b| && forall i :: 0 <= i < |a| ==> a[i].direction == b[i].direction
  }

  predicate AgreeOn(env: Reviewed, dir: Direction, a: seq<CapturedPacket>, b: seq<CapturedPacket>)
    requires |a| == |b|
  {
    forall i :: 0 <= i < |a| && a[i].direction == dir ==> PacketsAgree(env, dir, a[i], b[i])
  }

  /** With the directions aligned, agreement of one stream is agreement at its global positions. */
  lemma {:induction false} StreamAgreementIsPositional(
      env: Reviewed, dir: Direction, a: seq<CapturedPacket>, b: seq<CapturedPacket>)
    requires SameDirections(a, b)
    ensures StreamsAgree(env, dir, ByDirection(a, dir), ByDirection(b, dir)) <==> AgreeOn(env, dir, a, b)
  {
    if a != [] {
      StreamAgreementIsPositional(env, dir, a[1..], b[1..]);
      AgreeOnHead(env, dir, a, b);
      if a[0].direction == dir {
        StreamsAgreeHead(env, dir, a[0], b[0], ByDirection(a[1..], dir), ByDirection(b[1..], dir));
      } else {
        assert ByDirection(a, dir) == ByDirection(a[1..], dir) && ByDirection(b, dir) == ByDirection(b[1..], dir);
      }
    }
  }

  lemma AgreeOnHead(env: Reviewed, dir: Direction, a: seq<CapturedPacket>, b: seq<CapturedPacket>)
    requires |a| == |b| > 0
    ensures AgreeOn(env, dir, a, b) <==>
      (a[0].direction == dir ==> PacketsAgree(env, dir, a[0], b[0])) && AgreeOn(env, dir, a[1..], b[1..])
  {
    assert forall i :: 0 < i < |a| ==> a[i] == a[1..][i - 1] && b[i] == b[1..][i - 1];
  }

  lemma StreamsAgreeHead(
      env: Reviewed, dir: Direction, x: CapturedPacket, y: CapturedPacket, a: seq<CapturedPacket>, b: seq<CapturedPacket>)
    ensures StreamsAgree(env, dir, [x] + a, [y] + b) <==> PacketsAgree(env, dir, x, y) && StreamsAgree(env, dir, a, b)
  {
    var s, t := [x] + a, [y] + b;
    assert s[0] == x && t[0] == y;
    assert forall i :: 0 <= i < |a| ==> s[i + 1] == a[i];
    assert forall i :: 0 <= i < |b| ==> t[i + 1] == b[i];
  }

  /**
   * For two captures of the same exact topology, per-direction agreement over the
   * contract's directions is agreement of the two whole captures.
   */
  lemma CleanStreamsMeanEqualCaptures(env: Reviewed, requirement: Requirement, cpp: Capture, rust: Capture)
    requires WellFormed(requirement)
    requires HasShape(requirement.requiredOrder, cpp.packets) && HasShape(requirement.requiredOrder, rust.packets)
    ensures CapturesAgree(env, cpp.packets, rust.packets) <==>
      forall d :: d in requirement.directions ==>
        StreamsAgree(env, d, ByDirection(cpp.packets, d), ByDirection(rust.packets, d))
  {
    var a, b, order := cpp.packets, rust.packets, requirement.requiredOrder;
    assert forall i :: 0 <= i < |order| ==> order[i].Matches(a[i]) && order[i].Matches(b[i]);
    assert SameDirections(a, b);
    forall d | d in requirement.directions
      ensures StreamsAgree(env, d, ByDirection(a, d), ByDirection(b, d)) <==> AgreeOn(env, d, a, b)
    {
      StreamAgreementIsPositional(env, d, a, b);
    }
    forall i | 0 <= i < |a|
      ensures a[i].direction in requirement.directions
    {
      assert order[i] in order && PacketWellFormed(order[i], requirement.directions);
      assert order[i].Matches(a[i]);
    }
  }

  // ---------------------------------------------------------------------
  // The decision
  // ---------------------------------------------------------------------

  datatype GateVerdict =
    | Blocked
    | BadRequirement(requirement: RequirementError)
    | DirectionsDiffer
    | LineageRejected
    | ShapeRejected(side: CaptureSide, shape: ShapeError)
    | SemanticsRejected(semanticsSide: CaptureSide)
    | PinnedDivergences(count: nat)
    | Divergent
    | Clean(matched: nat)

  /** The contract is ready and its reviewed artifacts are the ones installed. */
  predicate Installed(config: Requirement, pinnedDirections: seq<Direction>, lineageAccepts: bool) {
    WellFormed(config) && config.status == Ready && pinnedDirections == config.directions && lineageAccepts
  }

  /** One capture has the exact topology and the reviewed payload semantics. */
  predicate SideAccepted(
      config: Requirement, semanticsAccept: (SemanticContract, CaptureSide, Capture) -> bool, side: CaptureSide, capture: Capture)
  {
    HasShape(config.requiredOrder, capture.packets) && semanticsAccept(config.contract, side, capture)
  }

  predicate EvidenceAccepted(
      config: Requirement, pinnedDirections: seq<Direction>, lineageAccepts: bool,
      semanticsAccept: (SemanticContract, CaptureSide, Capture) -> bool, cpp: Capture, rust: Capture)
  {
    && Installed(config, pinnedDirections, lineageAccepts)
    && SideAccepted(config, semanticsAccept, CppSide, cpp) && SideAccepted(config, semanticsAccept, RustSide, rust)
  }

  /**
   * `verify-required`. The lineage verdict and the reviewed semantic contracts come
   * from modules outside this model, so they are inputs.
   */
  method VerifyRequired(
      env: Reviewed, config: Requirement, pinnedDirections: seq<Direction>, lineageAccepts: bool,
      semanticsAccept: (SemanticContract, CaptureSide, Capture) -> bool,
      cpp: Capture, rust: Capture, expected: seq<DivergenceSignature>)
    returns (verdict: GateVerdict)
    requires |cpp.packets| < U32_SIZE || |rust.packets| < U32_SIZE
    ensures verdict.BadRequirement? <==> !WellFormed(config)
    ensures verdict.BadRequirement? ==> IsFirstViolation(config, verdict.requirement)
    ensures verdict.Blocked? <==> WellFormed(config) && config.status != Ready
    ensures verdict.DirectionsDiffer? <==> WellFormed(config) && config.status == Ready && pinnedDirections != config.directions
    ensures verdict.LineageRejected? <==>
      WellFormed(config) && config.status == Ready && pinnedDirections == config.directions && !lineageAccepts
    ensures verdict.ShapeRejected? || verdict.SemanticsRejected? <==>
      Installed(config, pinnedDirections, lineageAccepts)
      && !(SideAccepted(config, semanticsAccept, CppSide, cpp) && SideAccepted(config, semanticsAccept, RustSide, rust))
    ensures verdict.ShapeRejected? ==>
      ShapeFault(config, if verdict.side.CppSide? then cpp.packets else rust.packets, verdict.shape)
    ensures verdict.ShapeRejected? && verdict.side.RustSide? ==> SideAccepted(config, semanticsAccept, CppSide, cpp)
    ensures verdict.SemanticsRejected? ==>
      var side := verdict.semanticsSide; var capture := if side.CppSide? then cpp else rust;
      && HasShape(config.requiredOrder, capture.packets) && !semanticsAccept(config.contract, side, capture)
      && (side.RustSide? ==> SideAccepted(config, semanticsAccept, CppSide, cpp))
    ensures forall n :: verdict == PinnedDivergences(n) <==>
      EvidenceAccepted(config, pinnedDirections, lineageAccepts, semanticsAccept, cpp, rust)
      && expected != [] && n == |expected|
    ensures verdict.Divergent? <==>
      EvidenceAccepted(config, pinnedDirections, lineageAccepts, semanticsAccept, cpp, rust)
      && expected == [] && !CapturesAgree(env, cpp.packets, rust.packets)
    ensures forall n :: verdict == Clean(n) <==>
      EvidenceAccepted(config, pinnedDirections, lineageAccepts, semanticsAccept, cpp, rust)
      && expected == [] && CapturesAgree(env, cpp.packets, rust.packets) && n == |config.requiredOrder|
  {
    hide ShapeFault, IsFirstViolation, HasShape, CapturesAgree;
    var loaded := LoadRequirement(config);
    if loaded.Err? {
      return BadRequirement(loaded.error);
    }
    if config.status != Ready {
      return Blocked;
    }
    if pinnedDirections != config.directions {
      return DirectionsDiffer;
    }
    if !lineageAccepts {
      return LineageRejected;
    }
    var cppShape := ValidateCaptureShape(config, cpp);
    if cppShape.Err? {
      return ShapeRejected(CppSide, cppShape.error);
    }
    if !semanticsAccept(config.contract, CppSide, cpp) {
      return SemanticsRejected(CppSide);
    }
    var rustShape := ValidateCaptureShape(config, rust);
    if rustShape.Err? {
      return ShapeRejected(RustSide, rustShape.error);
    }
    if !semanticsAccept(config.contract, RustSide, rust) {
      return SemanticsRejected(RustSide);
    }
    if expected != [] {
      return PinnedDivergences(|expected|);
    }
    var report := ComputeReport(env, cpp, rust, config.directions);
    CleanIffStreamsAgree(env, cpp, rust, config.directions);
    CleanStreamsMeanEqualCaptures(env, config, cpp, rust);
    if !report.IsClean() {
      return Divergent;
    }
    CleanMatchesAll(env, config, cpp, rust);
    return Clean(report.counts.matched);
  }

  lemma {:induction false} StreamTotalHead(packets: seq<CapturedPacket>, directions: seq<Direction>)
    requires packets != [] && Distinct(directions)
    ensures StreamTotal(packets, directions)
      == StreamTotal(packets[1..], directions) + if packets[0].direction in directions then 1 else 0
  {
    if directions != [] {
      var init, last := directions[..|directions| - 1], directions[|directions| - 1];
      StreamTotalHead(packets, init);
      assert directions == init + [last];
      assert last !in init;
    }
  }

  /** Distinct directions that cover every packet count each packet once. */
  lemma {:induction false} StreamTotalIsAll(packets: seq<CapturedPacket>, directions: seq<Direction>)
    requires Distinct(directions) && forall p :: p in packets ==> p.direction in directions
    ensures StreamTotal(packets, directions) == |packets|
  {
    if packets == [] {
      NoPacketsNoTotal(directions);
    } else {
      StreamTotalHead(packets, directions);
      StreamTotalIsAll(packets[1..], directions);
    }
  }

  lemma {:induction false} NoPacketsNoTotal(directions: seq<Direction>)
    ensures StreamTotal([], directions) == 0
  {
    if directions != [] {
      NoPacketsNoTotal(directions[..|directions| - 1]);
    }
  }

  /** A clean report over the contract's directions matched each required packet. */
  lemma CleanMatchesAll(env: Reviewed, config: Requirement, cpp: Capture, rust: Capture)
    requires WellFormed(config) && HasShape(config.requiredOrder, cpp.packets)
    requires CountsClean(Tally(ReportOps(env, cpp, rust, config.directions)))
    ensures Tally(ReportOps(env, cpp, rust, config.directions)).matched == |config.requiredOrder|
  {
    hide ReportOps, Tally;
    var ops := ReportOps(env, cpp, rust, config.directions);
    TallyClean(ops);
    CleanOpsMatched(ops);
    CleanReportSize(env, cpp, rust, config.directions);
    forall i | 0 <= i < |cpp.packets|
      ensures cpp.packets[i].direction in config.directions
    {
      assert config.requiredOrder[i] in config.requiredOrder;
      assert config.requiredOrder[i].Matches(cpp.packets[i]);
    }
    StreamTotalIsAll(cpp.packets, config.directions);
  }

  lemma ByDirectionSingle(x: CapturedPacket, dir: Direction)
    ensures ByDirection([x], dir) == if x.direction == dir then [x] else []
  {
    assert ByDirection([x][1..], dir) == [];
  }

  lemma StreamsOfPair(x: CapturedPacket, y: CapturedPacket)
    requires x.direction != y.direction
    ensures ByDirection([x, y], x.direction) == [x] && ByDirection([x, y], y.direction) == [y]
  {
    ByDirectionSingle(y, x.direction);
    ByDirectionSingle(y, y.direction);
    assert [x, y][1..] == [y];
  }

  /**
   * Without any contract, a clean diff over both directions means equal captures
   * exactly when the captures interleave their directions in the same way.
   */
  lemma CleanDiffMeansEqualIff(env: Reviewed, cpp: Capture, rust: Capture, directions: seq<Direction>)
    requires C2S in directions && S2C in directions
    requires CountsClean(Tally(ReportOps(env, cpp, rust, directions)))
    ensures CapturesAgree(env, cpp.packets, rust.packets) <==> SameDirections(cpp.packets, rust.packets)
  {
    CleanIffStreamsAgree(env, cpp, rust, directions);
    if SameDirections(cpp.packets, rust.packets) {
      StreamAgreementIsPositional(env, C2S, cpp.packets, rust.packets);
      StreamAgreementIsPositional(env, S2C, cpp.packets, rust.packets);
    }
  }

  /** Two captures that interleave their directions differently, yet diff clean: the shape check is needed. */
  lemma CleanDiffAloneAllowsReordering(env: Reviewed, out: CapturedPacket, back: CapturedPacket)
    requires out.direction == C2S && back.direction == S2C
    requires BodiesIdentical(env, C2S, out.opcode, out.body, out.body)
    requires BodiesIdentical(env, S2C, back.opcode, back.body, back.body)
    ensures CountsClean(Tally(ReportOps(env, Capture("a", [out, back]), Capture("b", [back, out]), [S2C, C2S])))
    ensures !CapturesAgree(env, [out, back], [back, out])
  {
    StreamsOfPair(out, back);
    StreamsOfPair(back, out);
    assert StreamsAgree(env, C2S, [out], [out]) && StreamsAgree(env, S2C, [back], [back]);
    CleanIffStreamsAgree(env, Capture("a", [out, back]), Capture("b", [back, out]), [S2C, C2S]);
    assert [out, back][0].direction != [back, out][0].direction;
  }
}
