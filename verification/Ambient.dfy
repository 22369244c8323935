/**
 * The ambient-traffic evidence of main.rs: before packets are dropped, time-sync
 * requests and responses must pair up and every movement body must be canonical.
 */
module Ambient {
  import opened Common
  import opened CaptureModel
  import opened Selection
  import MonsterMove
  import MonsterMoveReader

  predicate IsRequest(p: CapturedPacket) { p.direction == S2C && p.opcode == 0x2DD2 }

  predicate IsResponse(p: CapturedPacket) { p.direction == C2S && p.opcode == 0x3A3D }

  predicate IsMovement(p: CapturedPacket) { p.direction == S2C && p.opcode == 0x2DD4 }

  predicate IsCombatValues(p: CapturedPacket) { p.direction == S2C && p.opcode == 0x27CB }

  /** The leading little-endian sequence number. */
  function Sequence(p: CapturedPacket): uint32 {
    if |p.body| >= 4 then FromLe32(p.body[..4]) else 0
  }

  /** The sequence number of a packet long enough to hold one: its first four bytes, least significant first. */
  lemma SequenceLeads(p: CapturedPacket, rest: seq<byte>, sequence: seq<byte>)
    requires |sequence| == 4 && p.body == sequence + rest
    ensures Sequence(p) == FromLe(sequence)
  {
    assert p.body[..4] == sequence;
    FixedWidthsAreLittleEndian(sequence);
  }

  predicate ShapedRequest(p: CapturedPacket) { IsRequest(p) && p.connectionId == 1 && |p.body| == 4 }

  predicate ShapedResponse(p: CapturedPacket) { IsResponse(p) && p.connectionId == 1 && |p.body| == 8 }

  // ---------------------------------------------------------------------
  // What the evidence must show
  // ---------------------------------------------------------------------

  /** One of the first n packets is a well-shaped request with this sequence. */
  ghost predicate RequestedIn(ps: seq<CapturedPacket>, n: nat, sequence: uint32)
    requires n <= |ps|
  {
    exists i :: 0 <= i < n && ShapedRequest(ps[i]) && Sequence(ps[i]) == sequence
  }

  ghost predicate RespondedIn(ps: seq<CapturedPacket>, n: nat, sequence: uint32)
    requires n <= |ps|
  {
    exists i :: 0 <= i < n && ShapedResponse(ps[i]) && Sequence(ps[i]) == sequence
  }

  /** A request opens a new sequence; a response closes one that an earlier request opened. */
  ghost predicate Legitimate(ps: seq<CapturedPacket>, k: nat)
    requires k < |ps|
  {
    && (IsRequest(ps[k]) ==> ShapedRequest(ps[k]) && !RequestedIn(ps, k, Sequence(ps[k])))
    && (IsResponse(ps[k]) ==>
          && ShapedResponse(ps[k]) && RequestedIn(ps, k, Sequence(ps[k])) && !RespondedIn(ps, k, Sequence(ps[k])))
  }

  ghost predicate TimeSyncOk(ps: seq<CapturedPacket>, n: nat)
    requires n <= |ps|
  {
    forall k :: 0 <= k < n ==> Legitimate(ps, k)
  }

  /** ... and every request is answered. */
  ghost predicate TimeSyncComplete(ps: seq<CapturedPacket>) {
    TimeSyncOk(ps, |ps|) && forall i :: 0 <= i < |ps| && IsRequest(ps[i]) ==> RespondedIn(ps, |ps|, Sequence(ps[i]))
  }

  ghost predicate MovementOk(ps: seq<CapturedPacket>, n: nat)
    requires n <= |ps|
  {
    forall i :: 0 <= i < n && IsMovement(ps[i]) ==> ps[i].connectionId == 1 && MonsterMove.Canonical(ps[i].body)
  }

  predicate IgnoresTime(opts: Opts) { TIME_SYNC_REQUEST in opts.ignoredOpcodes }

  predicate IgnoresMovement(opts: Opts) { MONSTER_MOVE in opts.ignoredOpcodes }

  /** The evidence `validate_ambient_ignore_evidence` demands. */
  ghost predicate EvidenceOk(ps: seq<CapturedPacket>, opts: Opts) {
    && (IgnoresTime(opts) ==> TimeSyncComplete(ps))
    && (IgnoresMovement(opts) ==> MovementOk(ps, |ps|))
  }

  datatype AmbientIgnoreCounts = AmbientIgnoreCounts(timeSyncRequest: nat, timeSyncResponse: nat, monsterMove: nat)

  function CountRequests(ps: seq<CapturedPacket>): nat {
    if ps == [] then 0 else CountRequests(ps[..|ps| - 1]) + if IsRequest(ps[|ps| - 1]) then 1 else 0
  }

  function CountResponses(ps: seq<CapturedPacket>): nat {
    if ps == [] then 0 else CountResponses(ps[..|ps| - 1]) + if IsResponse(ps[|ps| - 1]) then 1 else 0
  }

  function CountMovements(ps: seq<CapturedPacket>): nat {
    if ps == [] then 0 else CountMovements(ps[..|ps| - 1]) + if IsMovement(ps[|ps| - 1]) then 1 else 0
  }

  function CountCombatValues(ps: seq<CapturedPacket>): nat {
    if ps == [] then 0 else CountCombatValues(ps[..|ps| - 1]) + if IsCombatValues(ps[|ps| - 1]) then 1 else 0
  }

  function EvidenceCounts(ps: seq<CapturedPacket>, opts: Opts): AmbientIgnoreCounts {
    AmbientIgnoreCounts(
      if IgnoresTime(opts) then CountRequests(ps) else 0,
      if IgnoresTime(opts) then CountResponses(ps) else 0,
      if IgnoresMovement(opts) then CountMovements(ps) else 0)
  }

  // ---------------------------------------------------------------------
  // The two maps of the scan
  // ---------------------------------------------------------------------

  type PendingMap = map<(uint32, uint32), nat>

  /** `completed` holds the answered sequences of the first n packets, `pending` the open ones. */
  ghost predicate ScanState(ps: seq<CapturedPacket>, n: nat, pending: PendingMap, completed: PendingMap)
    requires n <= |ps|
  {
    && TimeSyncOk(ps, n)
    && (forall key :: key in pending <==> key.0 == 1 && RequestedIn(ps, n, key.1) && !RespondedIn(ps, n, key.1))
    && (forall key :: key in completed <==> key.0 == 1 && RespondedIn(ps, n, key.1))
    && (forall key :: key in pending ==> Opened(ps, n, pending[key], key.1))
  }

  /** The request with this sequence stands at `i`. */
  predicate Opened(ps: seq<CapturedPacket>, n: nat, i: nat, sequence: uint32)
    requires n <= |ps|
  {
    i < n && ShapedRequest(ps[i]) && Sequence(ps[i]) == sequence
  }

  lemma OneMorePacket(ps: seq<CapturedPacket>, n: nat, sequence: uint32)
    requires n < |ps|
    ensures RequestedIn(ps, n + 1, sequence) <==>
      RequestedIn(ps, n, sequence) || (ShapedRequest(ps[n]) && Sequence(ps[n]) == sequence)
    ensures RespondedIn(ps, n + 1, sequence) <==>
      RespondedIn(ps, n, sequence) || (ShapedResponse(ps[n]) && Sequence(ps[n]) == sequence)
  {
    hide Sequence;
  }

  lemma ScanOther(ps: seq<CapturedPacket>, n: nat, pending: PendingMap, completed: PendingMap)
    requires n < |ps| && ScanState(ps, n, pending, completed)
    requires !IsRequest(ps[n]) && !IsResponse(ps[n])
    ensures ScanState(ps, n + 1, pending, completed)
  {
    hide Sequence, RequestedIn, RespondedIn;
    forall sequence: uint32 { OneMorePacket(ps, n, sequence); }
  }

  lemma AnsweredWasRequested(ps: seq<CapturedPacket>, n: nat, sequence: uint32)
    requires n <= |ps| && TimeSyncOk(ps, n) && RespondedIn(ps, n, sequence)
    ensures RequestedIn(ps, n, sequence)
  {
    var j :| 0 <= j < n && ShapedResponse(ps[j]) && Sequence(ps[j]) == sequence;
    assert Legitimate(ps, j);
  }

  /** A request is fresh exactly when neither map knows its sequence. */
  lemma ScanRequest(ps: seq<CapturedPacket>, n: nat, pending: PendingMap, completed: PendingMap)
    requires n < |ps| && ScanState(ps, n, pending, completed) && ShapedRequest(ps[n])
    ensures var key := (1, Sequence(ps[n]));
      if key in pending || key in completed then !TimeSyncOk(ps, n + 1) && RequestedIn(ps, n, key.1)
      else ScanState(ps, n + 1, pending[key := n], completed)
  {
    var key := (1, Sequence(ps[n]));
    if RespondedIn(ps, n, key.1) {
      AnsweredWasRequested(ps, n, key.1);
    }
    hide Sequence, RequestedIn, RespondedIn;
    if key in pending || key in completed {
      assert !Legitimate(ps, n);
    } else {
      assert Legitimate(ps, n);
      forall sequence: uint32 { OneMorePacket(ps, n, sequence); }
    }
  }

  /** A response is legitimate exactly when its request is pending. */
  lemma ScanResponse(ps: seq<CapturedPacket>, n: nat, pending: PendingMap, completed: PendingMap)
    requires n < |ps| && ScanState(ps, n, pending, completed) && ShapedResponse(ps[n])
    ensures var key := (1, Sequence(ps[n]));
      if key !in pending then !TimeSyncOk(ps, n + 1)
      else ScanState(ps, n + 1, pending - {key}, completed[key := pending[key]])
  {
    hide Sequence, RequestedIn, RespondedIn;
    var key := (1, Sequence(ps[n]));
    if key !in pending {
      assert !Legitimate(ps, n);
    } else {
      assert Legitimate(ps, n);
      forall sequence: uint32 { OneMorePacket(ps, n, sequence); }
    }
  }

  /** At the end of the scan, everything is answered exactly when nothing is pending. */
  lemma ScanEnd(ps: seq<CapturedPacket>, pending: PendingMap, completed: PendingMap)
    requires ScanState(ps, |ps|, pending, completed)
    ensures TimeSyncComplete(ps) <==> pending == map[]
  {
    hide Sequence;
    forall i | 0 <= i < |ps| && IsRequest(ps[i])
      ensures ShapedRequest(ps[i]) && RequestedIn(ps, |ps|, Sequence(ps[i]))
    {
      assert Legitimate(ps, i);
    }
    if pending == map[] {
      forall i | 0 <= i < |ps| && IsRequest(ps[i])
        ensures RespondedIn(ps, |ps|, Sequence(ps[i]))
      {
        assert (1, Sequence(ps[i])) !in pending;
      }
    } else {
      var key :| key in pending;
      var i :| 0 <= i < |ps| && ShapedRequest(ps[i]) && Sequence(ps[i]) == key.1;
      assert IsRequest(ps[i]) && !RespondedIn(ps, |ps|, Sequence(ps[i]));
    }
  }

  // ---------------------------------------------------------------------
  // The scan
  // ---------------------------------------------------------------------

  datatype EvidenceError =
    | RequestRoute(index: nat) | RequestLength(index: nat) | DuplicateRequest(index: nat)
    | ResponseRoute(index: nat) | ResponseLength(index: nat) | OrphanResponse(index: nat)
    | MovementRoute(index: nat) | MovementBody(index: nat)
    | Unanswered(index: nat)

  predicate IsMovementError(e: EvidenceError) { e.MovementRoute? || e.MovementBody? }

  /** What is wrong with the packet at `i`, given that the packets before it are legitimate. */
  ghost predicate PacketFault(ps: seq<CapturedPacket>, i: nat, e: EvidenceError)
    requires i < |ps|
  {
    var p := ps[i];
    match e
    case RequestRoute(k) => k == i && IsRequest(p) && p.connectionId != 1
    case RequestLength(k) => k == i && IsRequest(p) && p.connectionId == 1 && |p.body| != 4
    case DuplicateRequest(k) => k == i && ShapedRequest(p) && RequestedIn(ps, i, Sequence(p))
    case ResponseRoute(k) => k == i && IsResponse(p) && p.connectionId != 1
    case ResponseLength(k) => k == i && IsResponse(p) && p.connectionId == 1 && |p.body| != 8
    case OrphanResponse(k) =>
      k == i && ShapedResponse(p) && (!RequestedIn(ps, i, Sequence(p)) || RespondedIn(ps, i, Sequence(p)))
    case MovementRoute(k) => k == i && IsMovement(p) && p.connectionId != 1
    case MovementBody(k) => k == i && IsMovement(p) && p.connectionId == 1 && !MonsterMove.Canonical(p.body)
    case Unanswered(_) => false
  }

  /** The first n packets are legitimate as far as they are looked at. */
  ghost predicate EvidenceUpTo(ps: seq<CapturedPacket>, opts: Opts, n: nat)
    requires n <= |ps|
  {
    (IgnoresTime(opts) ==> TimeSyncOk(ps, n)) && (IgnoresMovement(opts) ==> MovementOk(ps, n))
  }

  /** The first unanswered request by sequence number, the order of the pending map. */
  ghost predicate FirstUnanswered(ps: seq<CapturedPacket>, i: nat) {
    && i < |ps| && IsRequest(ps[i]) && !RespondedIn(ps, |ps|, Sequence(ps[i]))
    && forall k :: 0 <= k < |ps| && IsRequest(ps[k]) && !RespondedIn(ps, |ps|, Sequence(ps[k])) ==>
         Sequence(ps[i]) <= Sequence(ps[k])
  }

  /** What refused evidence is told: the first faulty packet, or the lowest unanswered sequence. */
  ghost predicate EvidenceFault(ps: seq<CapturedPacket>, opts: Opts, e: EvidenceError) {
    match e
    case Unanswered(i) => IgnoresTime(opts) && EvidenceUpTo(ps, opts, |ps|) && FirstUnanswered(ps, i)
    case _ =>
      && (if IsMovementError(e) then IgnoresMovement(opts) else IgnoresTime(opts))
      && exists i :: 0 <= i < |ps| && EvidenceUpTo(ps, opts, i) && PacketFault(ps, i, e)
  }

  /** One match arm of the scan, for time-sync traffic. */
  method ScanTimeSync(ps: seq<CapturedPacket>, index: nat, pending: PendingMap, completed: PendingMap)
    returns (error: Option<EvidenceError>, nextPending: PendingMap, nextCompleted: PendingMap)
    requires index < |ps| && ScanState(ps, index, pending, completed)
    ensures error.None? ==> ScanState(ps, index + 1, nextPending, nextCompleted)
    ensures error.Some? ==> !TimeSyncOk(ps, index + 1)
    ensures error.Some? ==> PacketFault(ps, index, error.value) && !IsMovementError(error.value)
  {
    error, nextPending, nextCompleted := None, pending, completed;
    assert TimeSyncOk(ps, index + 1) ==> Legitimate(ps, index);
    var packet := ps[index];
    if IsRequest(packet) {
      if packet.connectionId != 1 {
        return Some(RequestRoute(index)), pending, completed;
      }
      if |packet.body| != 4 {
        return Some(RequestLength(index)), pending, completed;
      }
      var key := (packet.connectionId, Sequence(packet));
      ScanRequest(ps, index, pending, completed);
      if key in pending || key in completed {
        return Some(DuplicateRequest(index)), pending, completed;
      }
      nextPending := pending[key := index];
    } else if IsResponse(packet) {
      if packet.connectionId != 1 {
        return Some(ResponseRoute(index)), pending, completed;
      }
      if |packet.body| != 8 {
        return Some(ResponseLength(index)), pending, completed;
      }
      var key := (packet.connectionId, Sequence(packet));
      ScanResponse(ps, index, pending, completed);
      if key !in pending {
        return Some(OrphanResponse(index)), pending, completed;
      }
      nextCompleted := completed[key := pending[key]];
      nextPending := pending - {key};
    } else {
      ScanOther(ps, index, pending, completed);
    }
  }

  lemma CountsAppend(ps: seq<CapturedPacket>, k: nat)
    requires k < |ps|
    ensures CountRequests(ps[..k + 1]) == CountRequests(ps[..k]) + if IsRequest(ps[k]) then 1 else 0
    ensures CountResponses(ps[..k + 1]) == CountResponses(ps[..k]) + if IsResponse(ps[k]) then 1 else 0
    ensures CountMovements(ps[..k + 1]) == CountMovements(ps[..k]) + if IsMovement(ps[k]) then 1 else 0
    ensures CountCombatValues(ps[..k + 1]) == CountCombatValues(ps[..k]) + if IsCombatValues(ps[k]) then 1 else 0
  {
    assert ps[..k + 1][..k] == ps[..k];
  }

  /** The tallies of one packet. */
  function Counted(c: AmbientIgnoreCounts, packet: CapturedPacket, opts: Opts): AmbientIgnoreCounts {
    AmbientIgnoreCounts(
      c.timeSyncRequest + (if IgnoresTime(opts) && IsRequest(packet) then 1 else 0),
      c.timeSyncResponse + (if IgnoresTime(opts) && IsResponse(packet) then 1 else 0),
      c.monsterMove + (if IgnoresMovement(opts) && IsMovement(packet) then 1 else 0))
  }

  /** The movement arm of the scan. */
  method ScanMovement(packet: CapturedPacket, index: nat) returns (error: Option<EvidenceError>)
    requires |packet.body| <= ISIZE_MAX
    ensures error.None? <==> packet.connectionId == 1 && MonsterMove.Canonical(packet.body)
    ensures error.Some? ==>
      error.value == if packet.connectionId != 1 then MovementRoute(index) else MovementBody(index)
  {
    if packet.connectionId != 1 {
      return Some(MovementRoute(index));
    }
    var valid := MonsterMoveReader.ValidMonsterMoveBody(packet.body);
    return if valid then None else Some(MovementBody(index));
  }

  /** Sound and complete: succeeds exactly on the evidence demanded, with the exact counts. */
  method ValidateAmbientIgnoreEvidence(capture: Capture, opts: Opts) returns (r: Result<AmbientIgnoreCounts, EvidenceError>)
    requires forall p :: p in capture.packets ==> |p.body| <= ISIZE_MAX
    ensures r.Ok? <==> EvidenceOk(capture.packets, opts)
    ensures r.Ok? ==> r.value == EvidenceCounts(capture.packets, opts) && Tallies(capture.packets, opts, r.value)
    ensures r.Err? ==> EvidenceFault(capture.packets, opts, r.error)
  {
    hide ScanState, TimeSyncComplete, TimeSyncOk, MovementOk, MonsterMove.Canonical, Tallies, FirstUnanswered, PacketFault;
    hide EvidenceFault, EvidenceUpTo, EvidenceOk;
    var ps := capture.packets;
    var ignoresTime := TIME_SYNC_REQUEST in opts.ignoredOpcodes;
    var ignoresMovement := MONSTER_MOVE in opts.ignoredOpcodes;
    var counts := AmbientIgnoreCounts(0, 0, 0);
    var pending: PendingMap, completed: PendingMap := map[], map[];
    ScanStart(ps);
    NothingToFault(ps, opts);
    for index := 0 to |ps|
      invariant ignoresTime ==> ScanState(ps, index, pending, completed)
      invariant !ignoresTime ==> pending == map[]
      invariant EvidenceUpTo(ps, opts, index)
      invariant counts == EvidenceCounts(ps[..index], opts)
    {
      var packet := ps[index];
      assert packet in ps;
      if ignoresTime {
        var error;
        error, pending, completed := ScanTimeSync(ps, index, pending, completed);
        if error.Some? {
          FaultFound(ps, opts, index, error.value);
          return Err(error.value);
        }
        ScanIsLegitimate(ps, index + 1, pending, completed);
      }
      if ignoresMovement && IsMovement(packet) {
        var error := ScanMovement(packet, index);
        if error.Some? {
          MovementFault(ps, index, error.value);
          FaultFound(ps, opts, index, error.value);
          return Err(error.value);
        }
      }
      UpToOneMore(ps, opts, index);
      CountsAppend(ps, index);
      counts := Counted(counts, packet, opts);
    }
    assert ps[..|ps|] == ps;
    if ignoresTime {
      ScanEnd(ps, pending, completed);
    }
    EvidenceIsComplete(ps, opts);
    if pending != map[] {
      LeastKeyExists(pending.Keys);
      var key :| key in pending && forall other :: other in pending ==> !Below(other, key);
      LeastIsFirstUnanswered(ps, pending, completed, key);
      UnansweredFound(ps, opts, pending[key]);
      return Err(Unanswered(pending[key]));
    }
    TalliesAreCounts(ps, opts);
    return Ok(counts);
  }

  lemma ScanIsLegitimate(ps: seq<CapturedPacket>, n: nat, pending: PendingMap, completed: PendingMap)
    requires n <= |ps| && ScanState(ps, n, pending, completed)
    ensures TimeSyncOk(ps, n)
  {
  }

  lemma NothingToFault(ps: seq<CapturedPacket>, opts: Opts)
    ensures EvidenceUpTo(ps, opts, 0) && EvidenceCounts(ps[..0], opts) == AmbientIgnoreCounts(0, 0, 0)
  {
  }

  lemma UpToOneMore(ps: seq<CapturedPacket>, opts: Opts, k: nat)
    requires k < |ps| && EvidenceUpTo(ps, opts, k)
    requires IgnoresTime(opts) ==> TimeSyncOk(ps, k + 1)
    requires IgnoresMovement(opts) && IsMovement(ps[k]) ==> ps[k].connectionId == 1 && MonsterMove.Canonical(ps[k].body)
    ensures EvidenceUpTo(ps, opts, k + 1)
  {
    hide MonsterMove.Canonical;
  }

  /** A faulty packet refutes the evidence. */
  lemma FaultFound(ps: seq<CapturedPacket>, opts: Opts, i: nat, e: EvidenceError)
    requires i < |ps| && EvidenceUpTo(ps, opts, i) && PacketFault(ps, i, e)
    requires if IsMovementError(e) then IgnoresMovement(opts) else IgnoresTime(opts)
    ensures EvidenceFault(ps, opts, e) && !EvidenceOk(ps, opts)
  {
    hide MonsterMove.Canonical, RequestedIn, RespondedIn, Sequence;
    if !IsMovementError(e) {
      assert !Legitimate(ps, i);
    }
  }

  lemma UnansweredFound(ps: seq<CapturedPacket>, opts: Opts, i: nat)
    requires IgnoresTime(opts) && EvidenceUpTo(ps, opts, |ps|) && FirstUnanswered(ps, i)
    ensures EvidenceFault(ps, opts, Unanswered(i)) && !EvidenceOk(ps, opts)
  {
    hide MonsterMove.Canonical, Sequence;
  }

  lemma EvidenceIsComplete(ps: seq<CapturedPacket>, opts: Opts)
    requires EvidenceUpTo(ps, opts, |ps|)
    ensures (IgnoresTime(opts) ==> TimeSyncComplete(ps)) <==> EvidenceOk(ps, opts)
  {
    hide MonsterMove.Canonical, TimeSyncComplete;
  }

  lemma MovementFault(ps: seq<CapturedPacket>, i: nat, e: EvidenceError)
    requires i < |ps| && IsMovement(ps[i]) && !(ps[i].connectionId == 1 && MonsterMove.Canonical(ps[i].body))
    requires e == if ps[i].connectionId != 1 then MovementRoute(i) else MovementBody(i)
    ensures PacketFault(ps, i, e)
  {
  }

  /** The order of the pending map's keys. */
  predicate Below(a: (uint32, uint32), b: (uint32, uint32)) {
    a.0 < b.0 || (a.0 == b.0 && a.1 < b.1)
  }

  lemma {:induction false} LeastKeyExists(keys: set<(uint32, uint32)>)
    requires keys != {}
    ensures exists key :: key in keys && forall other :: other in keys ==> !Below(other, key)
    decreases keys
  {
    var some :| some in keys;
    if keys == {some} {
      assert forall other :: other in keys ==> !Below(other, some);
    } else {
      LeastKeyExists(keys - {some});
      var key :| key in keys - {some} && forall other :: other in keys - {some} ==> !Below(other, key);
      var least := if Below(some, key) then some else key;
      forall other | other in keys
        ensures !Below(other, least)
      {
        assert other == some || other in keys - {some};
      }
    }
  }

  lemma LeastIsFirstUnanswered(ps: seq<CapturedPacket>, pending: PendingMap, completed: PendingMap, key: (uint32, uint32))
    requires ScanState(ps, |ps|, pending, completed) && key in pending
    requires forall other :: other in pending ==> !Below(other, key)
    ensures FirstUnanswered(ps, pending[key])
  {
    hide Sequence;
    var i := pending[key];
    assert Opened(ps, |ps|, i, key.1);
    forall k | 0 <= k < |ps| && IsRequest(ps[k]) && !RespondedIn(ps, |ps|, Sequence(ps[k]))
      ensures Sequence(ps[i]) <= Sequence(ps[k])
    {
      assert Legitimate(ps, k);
      assert RequestedIn(ps, |ps|, Sequence(ps[k]));
      assert (1, Sequence(ps[k])) in pending;
    }
  }

  /** The counts are the numbers of packets of each kind, where that kind is ignored. */
  ghost predicate Tallies(ps: seq<CapturedPacket>, opts: Opts, c: AmbientIgnoreCounts) {
    && c.timeSyncRequest == (if IgnoresTime(opts) then |Where(ps, IsRequest)| else 0)
    && c.timeSyncResponse == (if IgnoresTime(opts) then |Where(ps, IsResponse)| else 0)
    && c.monsterMove == (if IgnoresMovement(opts) then |Where(ps, IsMovement)| else 0)
  }

  lemma {:induction false} CountsAreCardinalities(ps: seq<CapturedPacket>)
    ensures CountRequests(ps) == |Where(ps, IsRequest)| && CountResponses(ps) == |Where(ps, IsResponse)|
    ensures CountMovements(ps) == |Where(ps, IsMovement)|
  {
    if ps == [] {
      assert Where(ps, IsRequest) == {} && Where(ps, IsResponse) == {} && Where(ps, IsMovement) == {};
    } else {
      var init, last := ps[..|ps| - 1], ps[|ps| - 1];
      CountsAreCardinalities(init);
      assert ps == init + [last];
      hide Where;
      WhereSnoc(init, IsRequest, last);
      WhereSnoc(init, IsResponse, last);
      WhereSnoc(init, IsMovement, last);
    }
  }

  lemma TalliesAreCounts(ps: seq<CapturedPacket>, opts: Opts)
    ensures Tallies(ps, opts, EvidenceCounts(ps, opts))
  {
    hide Where;
    CountsAreCardinalities(ps);
  }

  lemma ScanStart(ps: seq<CapturedPacket>)
    ensures ScanState(ps, 0, map[], map[])
  {
  }

  // ---------------------------------------------------------------------
  // Consequences
  // ---------------------------------------------------------------------

  ghost function Requested(ps: seq<CapturedPacket>, n: nat): set<uint32>
    requires n <= |ps|
  {
    set i | 0 <= i < n && ShapedRequest(ps[i]) :: Sequence(ps[i])
  }

  ghost function Responded(ps: seq<CapturedPacket>, n: nat): set<uint32>
    requires n <= |ps|
  {
    set i | 0 <= i < n && ShapedResponse(ps[i]) :: Sequence(ps[i])
  }

  lemma RequestedGrows(ps: seq<CapturedPacket>, k: nat)
    requires k < |ps| && Legitimate(ps, k)
    ensures |Requested(ps, k + 1)| == |Requested(ps, k)| + if IsRequest(ps[k]) then 1 else 0
  {
    hide Sequence;
    if IsRequest(ps[k]) {
      assert Sequence(ps[k]) !in Requested(ps, k);
      assert Requested(ps, k + 1) == Requested(ps, k) + {Sequence(ps[k])};
    } else {
      assert Requested(ps, k + 1) == Requested(ps, k);
    }
  }

  lemma RespondedGrows(ps: seq<CapturedPacket>, k: nat)
    requires k < |ps| && Legitimate(ps, k)
    ensures |Responded(ps, k + 1)| == |Responded(ps, k)| + if IsResponse(ps[k]) then 1 else 0
  {
    hide Sequence;
    if IsResponse(ps[k]) {
      assert Sequence(ps[k]) !in Responded(ps, k);
      assert Responded(ps, k + 1) == Responded(ps, k) + {Sequence(ps[k])};
    } else {
      assert Responded(ps, k + 1) == Responded(ps, k);
    }
  }

  lemma NothingYet(ps: seq<CapturedPacket>)
    ensures Requested(ps, 0) == {} == Responded(ps, 0)
    ensures CountRequests(ps[..0]) == 0 == CountResponses(ps[..0])
  {
  }

  lemma {:induction false} CountIsCardinality(ps: seq<CapturedPacket>, n: nat)
    requires n <= |ps| && TimeSyncOk(ps, n)
    ensures CountRequests(ps[..n]) == |Requested(ps, n)|
    ensures CountResponses(ps[..n]) == |Responded(ps, n)|
  {
    hide Sequence, Requested, Responded, CountRequests, CountResponses;
    if n > 0 {
      CountIsCardinality(ps, n - 1);
      CountsAppend(ps, n - 1);
      assert Legitimate(ps, n - 1);
      RequestedGrows(ps, n - 1);
      RespondedGrows(ps, n - 1);
    } else {
      NothingYet(ps);
    }
  }

  /** The response at `j` answers the request at `i`. */
  predicate Answers(ps: seq<CapturedPacket>, i: nat, j: nat)
    requires i < |ps| && j < |ps|
  {
    i < j && IsRequest(ps[i]) && IsResponse(ps[j]) && Sequence(ps[i]) == Sequence(ps[j])
  }

  /** Well-shaped packets; distinct sequences on each side; every request answered later, every response earlier requested. */
  ghost predicate Bijection(ps: seq<CapturedPacket>) {
    && (forall i :: 0 <= i < |ps| && IsRequest(ps[i]) ==> ShapedRequest(ps[i]))
    && (forall j :: 0 <= j < |ps| && IsResponse(ps[j]) ==> ShapedResponse(ps[j]))
    && (forall i, j :: 0 <= i < j < |ps| && IsRequest(ps[i]) && IsRequest(ps[j]) ==> Sequence(ps[i]) != Sequence(ps[j]))
    && (forall i, j :: 0 <= i < j < |ps| && IsResponse(ps[i]) && IsResponse(ps[j]) ==> Sequence(ps[i]) != Sequence(ps[j]))
    && (forall i :: 0 <= i < |ps| && IsRequest(ps[i]) ==> exists j :: 0 <= j < |ps| && Answers(ps, i, j))
    && (forall j :: 0 <= j < |ps| && IsResponse(ps[j]) ==> exists i :: 0 <= i < |ps| && Answers(ps, i, j))
  }

  lemma BijectionIsComplete(ps: seq<CapturedPacket>)
    requires Bijection(ps)
    ensures TimeSyncComplete(ps)
  {
    hide Sequence;
    forall k | 0 <= k < |ps|
      ensures Legitimate(ps, k)
    {
      if IsResponse(ps[k]) {
        var i :| 0 <= i < |ps| && Answers(ps, i, k);
        assert RequestedIn(ps, k, Sequence(ps[k]));
      }
    }
    forall i | 0 <= i < |ps| && IsRequest(ps[i])
      ensures RespondedIn(ps, |ps|, Sequence(ps[i]))
    {
      var j :| 0 <= j < |ps| && Answers(ps, i, j);
    }
  }

  lemma CompleteIsBijection(ps: seq<CapturedPacket>)
    requires TimeSyncComplete(ps)
    ensures Bijection(ps)
  {
    hide Sequence;
    forall k | 0 <= k < |ps|
      ensures IsRequest(ps[k]) ==> ShapedRequest(ps[k]) && !RequestedIn(ps, k, Sequence(ps[k]))
      ensures IsResponse(ps[k]) ==>
        ShapedResponse(ps[k]) && RequestedIn(ps, k, Sequence(ps[k])) && !RespondedIn(ps, k, Sequence(ps[k]))
    {
      assert Legitimate(ps, k);
    }
    forall i, j | 0 <= i < |ps| && 0 <= j < |ps| && IsRequest(ps[i]) && IsResponse(ps[j]) && Sequence(ps[i]) == Sequence(ps[j])
      ensures i < j
    {
      var k :| 0 <= k < j && ShapedRequest(ps[k]) && Sequence(ps[k]) == Sequence(ps[j]);
      assert !(k < i);
    }
    forall i | 0 <= i < |ps| && IsRequest(ps[i])
      ensures exists j :: 0 <= j < |ps| && Answers(ps, i, j)
    {
      assert RespondedIn(ps, |ps|, Sequence(ps[i]));
      var j :| 0 <= j < |ps| && ShapedResponse(ps[j]) && Sequence(ps[j]) == Sequence(ps[i]);
      assert Answers(ps, i, j);
    }
    forall j | 0 <= j < |ps| && IsResponse(ps[j])
      ensures exists i :: 0 <= i < |ps| && Answers(ps, i, j)
    {
      assert RequestedIn(ps, j, Sequence(ps[j]));
      var i :| 0 <= i < j && ShapedRequest(ps[i]) && Sequence(ps[i]) == Sequence(ps[j]);
      assert Answers(ps, i, j);
    }
  }

  lemma SameSequences(ps: seq<CapturedPacket>)
    requires TimeSyncComplete(ps)
    ensures Requested(ps, |ps|) == Responded(ps, |ps|)
  {
    hide Sequence;
    forall x | x in Requested(ps, |ps|)
      ensures x in Responded(ps, |ps|)
    {
      assert RespondedIn(ps, |ps|, x);
    }
    forall x | x in Responded(ps, |ps|)
      ensures x in Requested(ps, |ps|)
    {
      var j :| 0 <= j < |ps| && ShapedResponse(ps[j]) && Sequence(ps[j]) == x;
      assert Legitimate(ps, j);
      assert RequestedIn(ps, j, x);
    }
  }

  /**
   * The scan's conditions are complete exactly when answering is a bijection from
   * requests to later responses; then both kinds are equally many.
   */
  lemma AcceptedTimeSyncIsABijection(ps: seq<CapturedPacket>)
    ensures TimeSyncComplete(ps) <==> Bijection(ps)
    ensures TimeSyncComplete(ps) ==> CountRequests(ps) == CountResponses(ps)
  {
    if TimeSyncComplete(ps) {
      CompleteIsBijection(ps);
      CountIsCardinality(ps, |ps|);
      assert ps[..|ps|] == ps;
      SameSequences(ps);
    }
    if Bijection(ps) {
      BijectionIsComplete(ps);
    }
  }

  // ---------------------------------------------------------------------
  // Selecting a pair of captures
  // ---------------------------------------------------------------------

  datatype SelectionError =
    | BadIgnore(ignore: IgnoreError) | BadWindow(window: WindowError) | BadEvidence(evidence: EvidenceError)
    | AsymmetricEvidence(cpp: AmbientIgnoreCounts, rust: AmbientIgnoreCounts)

  /** Everything one capture must pass before its packets are dropped. */
  ghost predicate Selectable(capture: Capture, opts: Opts) {
    && IgnoresValid(opts)
    && ApplyCaptureBoundaries(capture, opts).Ok?
    && EvidenceOk(ApplyCaptureBoundaries(capture, opts).value.packets, opts)
  }

  ghost function Selected(capture: Capture, opts: Opts): Capture
    requires Selectable(capture, opts)
  {
    Filtered(ApplyCaptureBoundaries(capture, opts).value, opts)
  }

  ghost function WindowCounts(capture: Capture, opts: Opts): AmbientIgnoreCounts
    requires Selectable(capture, opts)
  {
    EvidenceCounts(ApplyCaptureBoundaries(capture, opts).value.packets, opts)
  }

  /** What a refused pair is told, in the order options, windows, evidence, balance, golden capture first. */
  ghost predicate SelectionFault(cpp: Capture, rust: Capture, opts: Opts, e: SelectionError) {
    var c, r := ApplyCaptureBoundaries(cpp, opts), ApplyCaptureBoundaries(rust, opts);
    match e
    case BadIgnore(ignore) => IgnoreFault(opts, ignore)
    case BadWindow(window) => IgnoresValid(opts) && (if c.Err? then c.error == window else r == Err(window))
    case BadEvidence(evidence) =>
      && IgnoresValid(opts) && c.Ok? && r.Ok?
      && if EvidenceOk(c.value.packets, opts) then EvidenceFault(r.value.packets, opts, evidence)
         else EvidenceFault(c.value.packets, opts, evidence)
    case AsymmetricEvidence(left, right) =>
      && Selectable(cpp, opts) && Selectable(rust, opts) && left != right
      && Tallies(c.value.packets, opts, left) && Tallies(r.value.packets, opts, right)
  }

  method ApplyCapturePairSelection(cpp: Capture, rust: Capture, opts: Opts)
    returns (r: Result<(Capture, Capture), SelectionError>)
    requires forall p :: p in cpp.packets + rust.packets ==> |p.body| <= ISIZE_MAX
    ensures r.Ok? <==>
      Selectable(cpp, opts) && Selectable(rust, opts) && WindowCounts(cpp, opts) == WindowCounts(rust, opts)
    ensures r.Ok? ==> r.value == (Selected(cpp, opts), Selected(rust, opts))
    ensures r.Err? ==> SelectionFault(cpp, rust, opts, r.error)
  {
    hide EvidenceOk, EvidenceFault, IgnoresValid, IgnoreFault, ApplyCaptureBoundaries, Tallies, EvidenceCounts;
    var valid := ValidateIgnoredOpcodes(opts);
    if valid.Err? {
      return Err(BadIgnore(valid.error));
    }
    var cppWindow := ApplyCaptureBoundaries(cpp, opts);
    if cppWindow.Err? {
      return Err(BadWindow(cppWindow.error));
    }
    var rustWindow := ApplyCaptureBoundaries(rust, opts);
    if rustWindow.Err? {
      return Err(BadWindow(rustWindow.error));
    }
    WindowPacketsComeFromCapture(cpp, opts);
    WindowPacketsComeFromCapture(rust, opts);
    var cppCounts := ValidateAmbientIgnoreEvidence(cppWindow.value, opts);
    if cppCounts.Err? {
      return Err(BadEvidence(cppCounts.error));
    }
    var rustCounts := ValidateAmbientIgnoreEvidence(rustWindow.value, opts);
    if rustCounts.Err? {
      return Err(BadEvidence(rustCounts.error));
    }
    if cppCounts.value != rustCounts.value {
      return Err(AsymmetricEvidence(cppCounts.value, rustCounts.value));
    }
    var cppSelected := ApplyIgnoredOpcodes(cppWindow.value, opts);
    var rustSelected := ApplyIgnoredOpcodes(rustWindow.value, opts);
    return Ok((cppSelected, rustSelected));
  }

  lemma WindowPacketsComeFromCapture(capture: Capture, opts: Opts)
    ensures var w := ApplyCaptureBoundaries(capture, opts);
      w.Ok? ==> forall p :: p in w.value.packets ==> p in capture.packets
  {
  }

  /** Selecting an already selected capture succeeds and changes nothing. */
  lemma SelectionIsIdempotent(capture: Capture, opts: Opts)
    requires Selectable(capture, opts)
    ensures Selectable(Selected(capture, opts), opts)
    ensures Selected(Selected(capture, opts), opts) == Selected(capture, opts)
  {
    SelectedIsFixed(capture, opts);
    var ps := Selected(capture, opts).packets;
    KeptHasNoIgnored(ApplyCaptureBoundaries(capture, opts).value.packets, opts.ignoredOpcodes);
    forall i | 0 <= i < |ps|
      ensures IgnoresTime(opts) ==> !IsRequest(ps[i]) && !IsResponse(ps[i])
      ensures IgnoresMovement(opts) ==> !IsMovement(ps[i])
    {
      assert ps[i] in ps;
      assert !IsIgnored(ps[i], opts.ignoredOpcodes);
      assert IsRequest(ps[i]) ==> TIME_SYNC_REQUEST.Matches(ps[i]);
      assert IsResponse(ps[i]) ==> TIME_SYNC_RESPONSE.Matches(ps[i]);
      assert IsMovement(ps[i]) ==> MONSTER_MOVE.Matches(ps[i]);
    }
  }

  predicate IgnoresCombat(opts: Opts) { COMBAT_VALUES in opts.ignoredOpcodes }

  /** With reviewed ignores, the dropped packets are the counted ones plus the uncounted combat values. */
  lemma {:induction false} DroppedCount(ps: seq<CapturedPacket>, opts: Opts)
    requires IgnoresValid(opts)
    ensures var c := EvidenceCounts(ps, opts);
      |ps| - |Kept(ps, opts.ignoredOpcodes)| ==
        c.timeSyncRequest + c.timeSyncResponse + c.monsterMove + if IgnoresCombat(opts) then CountCombatValues(ps) else 0
  {
    if ps != [] {
      var init, last := ps[..|ps| - 1], ps[|ps| - 1];
      assert ps == init + [last];
      DroppedCount(init, opts);
      KeptConcat(init, [last], opts.ignoredOpcodes);
      assert Kept([last], opts.ignoredOpcodes) == if IsIgnored(last, opts.ignoredOpcodes) then [] else [last] by {
        assert Kept([last][1..], opts.ignoredOpcodes) == [];
      }
      IgnoredKinds(last, opts);
    }
  }

  lemma IgnoredKinds(p: CapturedPacket, opts: Opts)
    requires IgnoresValid(opts)
    ensures IsIgnored(p, opts.ignoredOpcodes) <==>
      || (IgnoresTime(opts) && (IsRequest(p) || IsResponse(p)))
      || (IgnoresMovement(opts) && IsMovement(p))
      || (IgnoresCombat(opts) && IsCombatValues(p))
  {
    assert IsRequest(p) <==> TIME_SYNC_REQUEST.Matches(p);
    assert IsResponse(p) <==> TIME_SYNC_RESPONSE.Matches(p);
    assert IsMovement(p) <==> MONSTER_MOVE.Matches(p);
    assert IsCombatValues(p) <==> COMBAT_VALUES.Matches(p);
  }

  /**
   * An accepted pair loses the same number of packets on both sides if and only if
   * the flow's combat-value packets, which carry no evidence, happen to balance.
   */
  lemma DeletionIsSymmetricIff(cpp: Capture, rust: Capture, opts: Opts)
    requires Selectable(cpp, opts) && Selectable(rust, opts) && WindowCounts(cpp, opts) == WindowCounts(rust, opts)
    ensures var c, r := ApplyCaptureBoundaries(cpp, opts).value, ApplyCaptureBoundaries(rust, opts).value;
      |c.packets| - |Selected(cpp, opts).packets| == |r.packets| - |Selected(rust, opts).packets| <==>
        !IgnoresCombat(opts) || CountCombatValues(c.packets) == CountCombatValues(r.packets)
  {
    DroppedCount(ApplyCaptureBoundaries(cpp, opts).value.packets, opts);
    DroppedCount(ApplyCaptureBoundaries(rust, opts).value.packets, opts);
  }

  /** The detour flow accepts a pair of which only one side loses a packet. */
  lemma DeletionMayBeAsymmetric()
    ensures var opts := Opts(Some(DETOUR_FLOW), None, None, [COMBAT_VALUES]);
      var cpp, rust := Capture("cpp", [CapturedPacket(S2C, 1, 0x27CB, [])]), Capture("rust", []);
      && Selectable(cpp, opts) && Selectable(rust, opts) && WindowCounts(cpp, opts) == WindowCounts(rust, opts)
      && Selected(cpp, opts).packets == [] == Selected(rust, opts).packets
      && |cpp.packets| != |rust.packets|
  {
    var packet := CapturedPacket(S2C, 1, 0x27CB, []);
    assert COMBAT_VALUES.Matches(packet);
    assert Kept([packet], [COMBAT_VALUES]) == Kept([packet][1..], [COMBAT_VALUES]);
    assert CountCombatValues([packet][..0]) == 0;
  }
}
