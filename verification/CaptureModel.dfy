/** The normalized capture stream of model.rs: packets, boundaries and action windows. */
module CaptureModel {
  import opened Common

  datatype Direction = C2S | S2C

  /** One packet; `body` excludes the two opcode bytes. */
  datatype CapturedPacket =
    CapturedPacket(direction: Direction, connectionId: uint32, opcode: uint16, body: seq<byte>)

  datatype Capture = Capture(source: string, packets: seq<CapturedPacket>)

  datatype PacketBoundary = PacketBoundary(direction: Option<Direction>, opcode: uint16) {
    predicate Matches(packet: CapturedPacket) {
      packet.opcode == opcode && (direction.None? || packet.direction == direction.value)
    }
  }

  datatype WindowError =
    | MissingStartBoundary(start: PacketBoundary)
    | MissingEndBoundary(end: PacketBoundary)
    | FromWithoutUntil

  /** Packets of one direction, in capture order. */
  function ByDirection(packets: seq<CapturedPacket>, dir: Direction): seq<CapturedPacket> {
    if packets == [] then []
    else (if packets[0].direction == dir then [packets[0]] else []) + ByDirection(packets[1..], dir)
  }

  /** `places` are the positions of one direction's packets: all of them, in capture order. */
  ghost predicate ArePlaces(packets: seq<CapturedPacket>, dir: Direction, places: seq<nat>) {
    && (forall k :: 0 <= k < |places| ==> places[k] < |packets|)
    && (forall k, l :: 0 <= k < l < |places| ==> places[k] < places[l])
    && (forall i :: 0 <= i < |packets| ==> (packets[i].direction == dir <==> i in places))
  }

  /** `picked` are the packets at these positions. */
  predicate Picks(packets: seq<CapturedPacket>, places: seq<nat>, picked: seq<CapturedPacket>) {
    && |picked| == |places|
    && forall k :: 0 <= k < |places| ==> places[k] < |packets| && picked[k] == packets[places[k]]
  }

  function Shifted(places: seq<nat>): (r: seq<nat>)
    ensures |r| == |places| && forall k :: 0 <= k < |r| ==> r[k] == places[k] + 1
  {
    seq(|places|, k requires 0 <= k < |places| => places[k] + 1)
  }

  lemma ShiftedHas(places: seq<nat>, i: nat)
    ensures i + 1 in Shifted(places) <==> i in places
    ensures 0 !in Shifted(places)
  {
    if i in places {
      var k :| 0 <= k < |places| && places[k] == i;
      assert Shifted(places)[k] == i + 1;
    }
  }

  lemma PlacesOfRest(packets: seq<CapturedPacket>, dir: Direction, rest: seq<nat>)
    requires packets != [] && ArePlaces(packets[1..], dir, rest)
    ensures ArePlaces(packets, dir, (if packets[0].direction == dir then [0] else []) + Shifted(rest))
  {
    var places := (if packets[0].direction == dir then [0] else []) + Shifted(rest);
    forall i | 0 <= i < |packets|
      ensures packets[i].direction == dir <==> i in places
    {
      if i == 0 {
        ShiftedHas(rest, 0);
      } else {
        ShiftedHas(rest, i - 1);
        assert packets[i] == packets[1..][i - 1];
      }
    }
  }

  lemma PicksFromRest(packets: seq<CapturedPacket>, rest: seq<nat>, picked: seq<CapturedPacket>)
    requires packets != [] && Picks(packets[1..], rest, picked)
    ensures Picks(packets, Shifted(rest), picked)
  {
  }

  lemma PicksFirst(packets: seq<CapturedPacket>, places: seq<nat>, picked: seq<CapturedPacket>)
    requires packets != [] && Picks(packets, places, picked)
    ensures Picks(packets, [0] + places, [packets[0]] + picked)
  {
  }

  /** One direction's packets are those of the capture with that direction, in capture order. */
  lemma {:induction false} ByDirectionKeepsOrder(packets: seq<CapturedPacket>, dir: Direction) returns (places: seq<nat>)
    ensures ArePlaces(packets, dir, places) && Picks(packets, places, ByDirection(packets, dir))
  {
    if packets == [] {
      places := [];
    } else {
      hide ArePlaces, Picks, Shifted;
      var rest := ByDirectionKeepsOrder(packets[1..], dir);
      PlacesOfRest(packets, dir, rest);
      PicksFromRest(packets, rest, ByDirection(packets[1..], dir));
      places := Shifted(rest);
      if packets[0].direction == dir {
        PicksFirst(packets, places, ByDirection(packets[1..], dir));
        places := [0] + places;
      } else {
        NothingInFront(places, ByDirection(packets[1..], dir));
      }
    }
  }

  lemma NothingInFront(places: seq<nat>, picked: seq<CapturedPacket>)
    ensures [] + places == places && [] + picked == picked
  {
  }

  /** Index of the first packet the boundary selects. */
  function Position(packets: seq<CapturedPacket>, boundary: PacketBoundary): (r: Option<nat>)
    ensures r.Some? ==> r.value < |packets| && boundary.Matches(packets[r.value])
    ensures forall i :: 0 <= i < |packets| && (r.Some? ==> i < r.value) ==> !boundary.Matches(packets[i])
  {
    if packets == [] then None
    else if boundary.Matches(packets[0]) then Some(0)
    else
      var tail := Position(packets[1..], boundary);
      assert forall i :: 0 < i < |packets| ==> packets[i] == packets[1..][i - 1];
      if tail.Some? then Some(tail.value + 1) else None
  }

  lemma PositionUnique(packets: seq<CapturedPacket>, boundary: PacketBoundary, k: nat)
    requires k < |packets| && boundary.Matches(packets[k])
    requires forall i :: 0 <= i < k ==> !boundary.Matches(packets[i])
    ensures Position(packets, boundary) == Some(k)
  {
  }

  /** From the first `from` through the first `until` at or after it, inclusive. */
  function SlicedBetween(capture: Capture, from: PacketBoundary, until: PacketBoundary): Result<Capture, WindowError> {
    var start := Position(capture.packets, from);
    if start.None? then Err(MissingStartBoundary(from))
    else
      var relative := Position(capture.packets[start.value..], until);
      if relative.None? then Err(MissingEndBoundary(until))
      else
        Ok(Capture(capture.source, capture.packets[start.value..start.value + relative.value + 1]))
  }

  /** Through the first packet the boundary selects, inclusive. */
  function TruncatedAfterFirstBoundary(capture: Capture, boundary: PacketBoundary): Result<Capture, WindowError> {
    var end := Position(capture.packets, boundary);
    if end.None? then Err(MissingEndBoundary(boundary))
    else Ok(Capture(capture.source, capture.packets[..end.value + 1]))
  }
}
