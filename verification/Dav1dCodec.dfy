/** The AV1 wrapper: input dav1d has not taken yet, held so that a packet accepted is a packet
    decoded, whatever dav1d takes at a time. */
module Dav1dCodec {
  import opened Delivery

  /** What `dav1d_send_data` may do: take some of what it is offered, and say so, ask to be
      drained first, or fail. */
  datatype Sent = Sent(taken: nat, says: Said)
  datatype Said = Fine | Again | Broken

  /** What `dav1d_get_picture` may do. */
  datatype Drawn = Picture(id: nat) | NotYet | Undecodable

  datatype Result = Accepted | Busy | NoMemory | Invalid | Frame(id: nat) | NothingYet | BadFrame | Flushed

  datatype Call =
    | Decode(packet: Option<Bytes>, first: Sent, room: bool, second: Sent)
    | NextFrame(send: Sent, draw: Drawn)
    | Flush(send: Sent)

  // ------------------------------------------------------------------
  // One offer of the pending input
  // ------------------------------------------------------------------

  /** What dav1d takes of it. */
  function Taken(pending: Bytes, send: Sent): Bytes {
    if send.taken >= |pending| then pending else pending[..send.taken]
  }

  /** What is left behind it. */
  function Left(pending: Bytes, send: Sent): Bytes {
    if send.says.Broken? || send.taken >= |pending| then [] else pending[send.taken..]
  }

  /** Whether input is given up: dav1d fails with some of it not taken. */
  predicate Drops(pending: Bytes, send: Sent) {
    send.says.Broken? && send.taken < |pending|
  }

  /** What dav1d takes is the front, as much as it says; what it leaves is the rest, or nothing once
      it fails. */
  lemma TakenAndLeft(pending: Bytes, send: Sent)
    ensures Taken(pending, send) <= pending
    ensures |Taken(pending, send)| == if send.taken < |pending| then send.taken else |pending|
    ensures send.says.Broken? ==> Left(pending, send) == []
    ensures !Drops(pending, send) ==> Taken(pending, send) + Left(pending, send) == pending
    ensures Drops(pending, send) ==> |Taken(pending, send)| + |Left(pending, send)| < |pending|
  {
  }

  // ------------------------------------------------------------------
  // A run, from the calls and the input pending before them
  // ------------------------------------------------------------------

  predicate Refused(call: Call)
    requires call.Decode?
  {
    call.packet.None? || call.packet.value == []
  }

  /** Whether a packet offered finds nothing in front of it, and memory. */
  predicate Admits(pending: Bytes, call: Call)
    requires call.Decode?
  {
    !Refused(call) && Left(pending, call.first) == [] && call.room
  }

  /** What a call leaves pending. */
  function PendingAfter(pending: Bytes, call: Call): Bytes {
    match call
    case Decode(packet, first, _, second) =>
      if Refused(call) then pending
      else if Admits(pending, call) then Left(packet.value, second)
      else Left(pending, first)
    case NextFrame(send, _) => Left(pending, send)
    case Flush(send) => Left(pending, send)
  }

  /** Whether some send of a call fails with input left. */
  predicate CallDrops(pending: Bytes, call: Call) {
    match call
    case Decode(packet, first, _, second) =>
      !Refused(call) && (Drops(pending, first) || (Admits(pending, call) && Drops(packet.value, second)))
    case NextFrame(send, _) => Drops(pending, send)
    case Flush(send) => Drops(pending, send)
  }

  /** No send of a run fails with input left. */
  predicate Lossless(pending: Bytes, calls: seq<Call>)
    decreases |calls|
  {
    calls == [] ||
    (!CallDrops(pending, calls[0]) && Lossless(PendingAfter(pending, calls[0]), calls[1..]))
  }

  predicate Works(send: Sent) {
    send.says.Fine? || send.says.Again?
  }

  /** While dav1d only takes input, or asks to be drained, nothing is lost, however little it takes
      at a time. */
  lemma {:induction false} WorkingLosesNothing(pending: Bytes, calls: seq<Call>)
    requires forall i :: 0 <= i < |calls| ==>
      match calls[i]
      case Decode(_, first, _, second) => Works(first) && Works(second)
      case NextFrame(send, _) => Works(send)
      case Flush(send) => Works(send)
    ensures Lossless(pending, calls)
    decreases |calls|
  {
    if calls != [] {
      assert forall i :: 0 <= i < |calls| - 1 ==> calls[1..][i] == calls[i + 1];
      WorkingLosesNothing(PendingAfter(pending, calls[0]), calls[1..]);
    }
  }

  /** What a run leaves pending. */
  function PendingOver(pending: Bytes, calls: seq<Call>): Bytes
    decreases |calls|
  {
    if calls == [] then pending else PendingOver(PendingAfter(pending, calls[0]), calls[1..])
  }

  /** A host told to take pictures first does not wait for ever: asking for them, or flushing,
      offers what is pending again, so it is gone after as many calls as it has bytes, if dav1d
      takes a byte of each offer; and then the next packet finds nothing in front of it. */
  lemma {:induction false} DrainsAway(pending: Bytes, calls: seq<Call>)
    requires |calls| >= |pending|
    requires forall i :: 0 <= i < |calls| ==> !calls[i].Decode? && calls[i].send.taken > 0
    ensures PendingOver(pending, calls) == []
    decreases |calls|
  {
    if calls != [] {
      assert forall i :: 0 <= i < |calls| - 1 ==> calls[1..][i] == calls[i + 1];
      DrainsAway(PendingAfter(pending, calls[0]), calls[1..]);
    }
  }

  /** An accepted packet is offered before the call returns: of one that dav1d takes whole, nothing
      is pending; of one it takes in part, the rest, if it does not fail. */
  lemma AcceptedIsOffered(pending: Bytes, call: Call)
    requires call.Decode? && Answer(pending, call) == Accepted
    ensures var packet, taken := call.packet.value, call.second.taken;
            (taken >= |packet| ==> PendingAfter(pending, call) == []) &&
            (taken < |packet| && Works(call.second) ==>
               packet == packet[..taken] + PendingAfter(pending, call) && PendingAfter(pending, call) != [])
  {
  }

  /** What each call should answer. */
  function Answer(pending: Bytes, call: Call): Result {
    match call
    case Decode(_, first, room, _) =>
      if Refused(call) then Invalid
      else if Left(pending, first) != [] then Busy
      else if !room then NoMemory
      else Accepted
    case NextFrame(_, draw) =>
      (match draw
       case Picture(id) => Frame(id)
       case NotYet => NothingYet
       case Undecodable => BadFrame)
    case Flush(_) => Flushed
  }

  /** What each answer tells a host: that the packet is accepted, and none of the input before it is
      left; that some of it is, so that it must take pictures first; that there is no memory, and
      nothing but that; that dav1d has a picture, wants input, or cannot decode. */
  lemma AnswerMeans(pending: Bytes, call: Call)
    ensures call.Decode? && call.packet.Some? && |call.packet.value| > 0 ==>
              var leaves := !call.first.says.Broken? && call.first.taken < |pending|;
              (Answer(pending, call) == Busy <==> leaves) &&
              (Answer(pending, call) == NoMemory <==> !leaves && !call.room) &&
              (Answer(pending, call) == Accepted <==> !leaves && call.room)
    ensures call.Decode? ==> (Answer(pending, call) == Invalid <==> call.packet.None? || |call.packet.value| == 0)
    ensures call.NextFrame? ==>
              (Answer(pending, call) == NothingYet <==> call.draw.NotYet?) &&
              (Answer(pending, call) == BadFrame <==> call.draw.Undecodable?) &&
              forall id :: Answer(pending, call) == Frame(id) <==> call.draw == Picture(id)
  {
  }

  function Answers(pending: Bytes, calls: seq<Call>): (r: seq<Result>)
    ensures |r| == |calls|
    decreases |calls|
  {
    if calls == [] then []
    else [Answer(pending, calls[0])] + Answers(PendingAfter(pending, calls[0]), calls[1..])
  }

  /** The packets a host was told are accepted. */
  function AcceptedBytes(calls: seq<Call>, results: seq<Result>): Bytes
    requires |calls| == |results|
    decreases |calls|
  {
    if calls == [] then []
    else AcceptedOf(calls[0], results[0]) + AcceptedBytes(calls[1..], results[1..])
  }

  function AcceptedOf(call: Call, result: Result): Bytes {
    if result.Accepted? && call.Decode? && call.packet.Some? then call.packet.value else []
  }

  /** The pictures a host was handed. */
  function Pictures(results: seq<Result>): seq<nat> {
    if results == [] then []
    else PictureOf(results[0]) + Pictures(results[1..])
  }

  function PictureOf(result: Result): seq<nat> {
    if result.Frame? then [result.id] else []
  }

  lemma OneMoreCall(first: Result, more: seq<Result>, calls: seq<Call>)
    requires |calls| == 1 + |more|
    ensures AcceptedBytes(calls, [first] + more) == AcceptedOf(calls[0], first) + AcceptedBytes(calls[1..], more)
    ensures Pictures([first] + more) == PictureOf(first) + Pictures(more)
  {
    assert ([first] + more)[1..] == more;
  }

  /** A packet of three bytes, of which dav1d takes one and fails: the host is told it is
      accepted, and two are gone. */
  lemma AcceptedAndLost()
    ensures var calls := [Decode(Some([1, 2, 3]), Sent(0, Fine), true, Sent(1, Broken))];
            Answers([], calls) == [Accepted] && !Lossless([], calls)
  {
    var call := Decode(Some([1, 2, 3]), Sent(0, Fine), true, Sent(1, Broken));
    assert Admits([], call) && CallDrops([], call);
    assert Answers([], [call]) == [Answer([], call)] + Answers(PendingAfter([], call), []);
  }

  // ------------------------------------------------------------------
  // The code
  // ------------------------------------------------------------------

  class Codec {
    const config: Bytes
    var pending: Bytes
    var picture: Option<nat>

    /** Since the last reset: every byte accepted, and every byte dav1d has taken. */
    ghost var accepted: Bytes
    ghost var given: Bytes
    /** Every picture taken from dav1d, and every one given back. */
    ghost var drawn: seq<nat>
    ghost var released: seq<nat>

    ghost predicate Valid()
      reads this
    {
      |given| + |pending| <= |accepted| &&
      (|given| + |pending| == |accepted| ==> Whole()) &&
      drawn == released + (if picture.Some? then [picture.value] else [])
    }

    /** What dav1d was given and what is pending are what was accepted, in order and once. */
    ghost predicate Whole()
      reads this
    {
      given + pending == accepted
    }

    /** Opens with the configuration OBUs already accepted, as far as dav1d would take them. */
    constructor (config: Bytes, send: Sent)
      ensures Valid() && this.config == config && accepted == config
      ensures pending == Left(config, send) && given == Taken(config, send)
      ensures Whole() <==> !Drops(config, send)
      ensures drawn == [] && picture.None?
    {
      this.config := config;
      pending, picture := config, None;
      accepted, given, drawn, released := config, [], [], [];
      new;
      assert [] + pending == accepted;
      Push(send);
      assert [] + Taken(config, send) == Taken(config, send);
    }

    /** Whatever is pending, pushed as far as dav1d will take it; dropped if it fails. */
    method Push(send: Sent)
      requires Valid()
      modifies this`pending, this`given
      ensures Valid()
      ensures pending == Left(old(pending), send) && given == old(given) + Taken(old(pending), send)
      ensures Whole() <==> old(Whole()) && !Drops(old(pending), send)
    {
      TakenAndLeft(pending, send);
      Regroup(given, Taken(pending, send), Left(pending, send));
      if pending == [] {
        assert given + [] == given;
        return;
      }
      var n := if send.taken <= |pending| then send.taken else |pending|;
      given := given + pending[..n];
      pending := pending[n..];
      if send.says.Broken? {
        pending := [];
      }
      assert given == old(given) + Taken(old(pending), send);
    }

    method Release()
      requires Valid()
      modifies this`picture, this`released
      ensures Valid() && picture.None? && released == drawn
    {
      if picture.Some? {
        released := released + [picture.value];
        picture := None;
      }
    }

    /** Copies bytes into the pending input, if there is memory for them. */
    method Take(bytes: Bytes, room: bool) returns (ok: bool)
      requires Valid() && pending == []
      modifies this`pending, this`accepted
      ensures Valid() && ok == room && Whole() == old(Whole())
      ensures ok ==> pending == bytes && accepted == old(accepted) + bytes
      ensures !ok ==> pending == [] && accepted == old(accepted)
    {
      if !room {
        return false;
      }
      assert given + [] == given;
      pending := bytes;
      accepted := accepted + bytes;
      ok := true;
    }

    /** `codec_decode`: accepted whole or not at all, and only behind everything before it. */
    method DecodePacket(packet: Option<Bytes>, first: Sent, room: bool, second: Sent)
        returns (result: Result)
      requires Valid()
      modifies this`pending, this`given, this`accepted
      ensures Valid()
      ensures var call := Decode(packet, first, room, second);
              result == Answer(old(pending), call) && pending == PendingAfter(old(pending), call) &&
              accepted == old(accepted) + AcceptedOf(call, result) &&
              (Whole() <==> old(Whole()) && !CallDrops(old(pending), call))
    {
      assert accepted + [] == accepted;
      if packet.None? || packet.value == [] {
        return Invalid;
      }
      Push(first);
      if pending != [] {
        return Busy;
      }
      var ok := Take(packet.value, room);
      if !ok {
        return NoMemory;
      }
      Push(second);
      result := Accepted;
    }

    /** `codec_next_frame`: the last picture back, then whatever dav1d has. */
    method NextPicture(send: Sent, draw: Drawn) returns (result: Result)
      requires Valid()
      modifies this
      ensures Valid() && accepted == old(accepted) && released == old(drawn)
      ensures pending == Left(old(pending), send)
      ensures Whole() <==> old(Whole()) && !Drops(old(pending), send)
      ensures result == Answer(old(pending), NextFrame(send, draw))
      ensures picture == if result.Frame? then Some(result.id) else None
      ensures drawn == old(drawn) + PictureOf(result)
    {
      Release();
      Push(send);
      assert drawn + [] == drawn;
      if draw.NotYet? {
        return NothingYet;
      }
      if draw.Undecodable? {
        return BadFrame;
      }
      picture := Some(draw.id);
      drawn := drawn + [draw.id];
      result := Frame(draw.id);
    }

    method FlushInput(send: Sent)
      requires Valid()
      modifies this`pending, this`given
      ensures Valid() && pending == Left(old(pending), send)
      ensures Whole() <==> old(Whole()) && !Drops(old(pending), send)
    {
      Push(send);
    }

    /** `codec_reset`: nothing pending survives, and the configuration goes back in front. */
    method Reset(room: bool, send: Sent) returns (result: Result)
      requires Valid()
      modifies this
      ensures Valid() && picture.None? && released == drawn == old(drawn)
      ensures result == if config != [] && !room then NoMemory else Accepted
      ensures result.Accepted? ==> accepted == config && pending == Left(config, send)
      ensures result.NoMemory? ==> accepted == [] && pending == []
      ensures Whole() <==> result.NoMemory? || !Drops(config, send)
    {
      Release();
      pending, accepted, given := [], [], [];
      if config != [] {
        var ok := Take(config, room);
        if !ok {
          return NoMemory;
        }
        Push(send);
      }
      result := Accepted;
    }

    method One(call: Call) returns (result: Result)
      requires Valid()
      modifies this
      ensures Valid() && result == Answer(old(pending), call) && pending == PendingAfter(old(pending), call)
      ensures accepted == old(accepted) + AcceptedOf(call, result)
      ensures drawn == old(drawn) + PictureOf(result)
      ensures Whole() <==> old(Whole()) && !CallDrops(old(pending), call)
    {
      assert accepted + [] == accepted && drawn + [] == drawn;
      match call
      case Decode(packet, first, room, second) =>
        result := DecodePacket(packet, first, room, second);
      case NextFrame(send, draw) =>
        result := NextPicture(send, draw);
      case Flush(send) =>
        FlushInput(send);
        result := Flushed;
    }

    /** Any run of calls, whatever dav1d does: the packets the host was told are accepted are,
        and dav1d has them or they are pending, in order and once, if and only if no send fails
        with input left; and the pictures handed out are those dav1d made, in order. */
    method Drive(calls: seq<Call>) returns (results: seq<Result>)
      requires Valid()
      modifies this
      ensures Valid() && results == Answers(old(pending), calls)
      ensures pending == PendingOver(old(pending), calls)
      ensures accepted == old(accepted) + AcceptedBytes(calls, results)
      ensures drawn == old(drawn) + Pictures(results)
      ensures Whole() <==> old(Whole()) && Lossless(old(pending), calls)
      decreases |calls|
    {
      if calls == [] {
        assert accepted + [] == accepted && drawn + [] == drawn;
        return [];
      }
      hide Answer, PendingAfter, CallDrops, AcceptedOf, PictureOf;
      var first := One(calls[0]);
      var more := Drive(calls[1..]);
      OneMoreCall(first, more, calls);
      Regroup(old(accepted), AcceptedOf(calls[0], first), AcceptedBytes(calls[1..], more));
      Regroup(old(drawn), PictureOf(first), Pictures(more));
      results := [first] + more;
    }
  }
}
