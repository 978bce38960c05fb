/** What every demuxer promises a host through `read_packet`: packets in order, and a
    buffer that is too small costs nothing. */
module Delivery {

  type byte = x: int | 0 <= x < 256

  type Bytes = seq<byte>

  datatype Option<+T> = None | Some(value: T)

  /** The destination a host offers: no buffer at all, or room for `size` bytes. */
  datatype Buffer = Null | Room(size: nat)

  datatype Packet = Packet(stream: nat, bytes: Bytes, frame: nat, timed: bool, sync: bool)

  datatype Reply = Ok(packet: Packet) | TooSmall(needed: nat) | End | ErrFormat | ErrInvalid

  /** What a demuxer does with a packet of no bytes: hand it over, refuse it as malformed
      and step past it, or fail to notice that it is holding one back. */
  datatype Empties = Delivered | Refused | Forgotten

  predicate Fits(buffer: Buffer, n: nat) {
    buffer.Room? && n <= buffer.size
  }

  /** One `read_packet`: the reply, and what is still to come. */
  function Serve(queue: seq<Packet>, buffer: Buffer, empties: Empties): (Reply, seq<Packet>) {
    if queue == [] then (End, [])
    else
      var n := |queue[0].bytes|;
      if n == 0 && empties.Refused? then (ErrFormat, queue[1..])
      else if Fits(buffer, n) then (Ok(queue[0]), queue[1..])
      else if n == 0 && empties.Forgotten? then (TooSmall(0), queue[1..])
      else (TooSmall(n), queue)
  }

  /** A run: one call for each buffer of a schedule. */
  function Serves(queue: seq<Packet>, buffers: seq<Buffer>, empties: Empties): (r: seq<Reply>)
    ensures |r| == |buffers|
  {
    if buffers == [] then []
    else
      var (reply, rest) := Serve(queue, buffers[0], empties);
      [reply] + Serves(rest, buffers[1..], empties)
  }

  /** What is left after a run. */
  function Remaining(queue: seq<Packet>, buffers: seq<Buffer>, empties: Empties): seq<Packet> {
    if buffers == [] then queue
    else Remaining(Serve(queue, buffers[0], empties).1, buffers[1..], empties)
  }

  /** The packets of the `MP_OK` replies, in order. */
  function Oks(replies: seq<Reply>): seq<Packet> {
    if replies == [] then []
    else (if replies[0].Ok? then [replies[0].packet] else []) + Oks(replies[1..])
  }

  /** What a host that always has room is handed. */
  function Deliverable(queue: seq<Packet>, empties: Empties): seq<Packet> {
    if queue == [] then []
    else (if |queue[0].bytes| == 0 && empties.Refused? then [] else [queue[0]]) +
         Deliverable(queue[1..], empties)
  }

  ghost predicate NoEmpty(queue: seq<Packet>) {
    forall p :: p in queue ==> p.bytes != []
  }

  /** Whether nothing can be lost whatever the buffers are. */
  ghost predicate Safe(queue: seq<Packet>, empties: Empties) {
    empties.Forgotten? ==> NoEmpty(queue)
  }

  /** One call hands over the first deliverable packet or none. */
  lemma OneServed(queue: seq<Packet>, buffer: Buffer, empties: Empties)
    requires Safe(queue, empties)
    ensures var (reply, rest) := Serve(queue, buffer, empties);
            Safe(rest, empties) &&
            Deliverable(queue, empties) ==
            (if reply.Ok? then [reply.packet] else []) + Deliverable(rest, empties)
  {
  }

  /** Under any schedule of buffers, what was handed over and what is still to come make up
      exactly what an unlimited buffer would have been handed. */
  lemma {:induction false} NothingLost(queue: seq<Packet>, buffers: seq<Buffer>, empties: Empties)
    requires Safe(queue, empties)
    ensures Oks(Serves(queue, buffers, empties)) +
            Deliverable(Remaining(queue, buffers, empties), empties) == Deliverable(queue, empties)
  {
    if buffers == [] {
      assert [] + Deliverable(queue, empties) == Deliverable(queue, empties);
    } else {
      hide Serve, Serves, Remaining, Deliverable, Oks, Safe;
      var (reply, rest) := Serve(queue, buffers[0], empties);
      OneServed(queue, buffers[0], empties);
      RunStep(queue, buffers, empties);
      NothingLost(rest, buffers[1..], empties);
      Regroup(if reply.Ok? then [reply.packet] else [], Oks(Serves(rest, buffers[1..], empties)),
              Deliverable(Remaining(rest, buffers[1..], empties), empties));
    }
  }

  lemma RunStep(queue: seq<Packet>, buffers: seq<Buffer>, empties: Empties)
    requires buffers != []
    ensures var (reply, rest) := Serve(queue, buffers[0], empties);
            Oks(Serves(queue, buffers, empties)) ==
            (if reply.Ok? then [reply.packet] else []) + Oks(Serves(rest, buffers[1..], empties)) &&
            Remaining(queue, buffers, empties) == Remaining(rest, buffers[1..], empties)
  {
    var (reply, rest) := Serve(queue, buffers[0], empties);
    assert Serves(queue, buffers, empties)[1..] == Serves(rest, buffers[1..], empties);
  }

  lemma Regroup<T>(a: seq<T>, b: seq<T>, c: seq<T>)
    ensures a + (b + c) == a + b + c
  {
  }

  /** A packet goes to a buffer as large as it, or larger, and to no other; where it does not it is
      still the next. Only a packet of no bytes may fare otherwise: refused, or forgotten. */
  lemma ServedWhereItFits(queue: seq<Packet>, buffer: Buffer, empties: Empties)
    requires queue != []
    ensures var (reply, rest) := Serve(queue, buffer, empties);
            var n := |queue[0].bytes|;
            if n == 0 && empties.Refused? then reply == ErrFormat && rest == queue[1..]
            else if buffer.Room? && buffer.size >= n then reply == Ok(queue[0]) && rest == queue[1..]
            else reply == TooSmall(n) && (rest == queue || (n == 0 && empties.Forgotten? && rest == queue[1..]))
  {
  }

  /** `MP_TOO_SMALL` states the size of the packet the next call hands back, to a buffer of
      that size. */
  lemma {:induction false} NextCallFits(queue: seq<Packet>, buffers: seq<Buffer>, empties: Empties,
                                        i: nat)
    requires Safe(queue, empties)
    requires i + 1 < |buffers|
    requires Serves(queue, buffers, empties)[i].TooSmall?
    requires buffers[i + 1].Room? && buffers[i + 1].size >= Serves(queue, buffers, empties)[i].needed
    ensures var replies := Serves(queue, buffers, empties);
            replies[i + 1].Ok? && |replies[i + 1].packet.bytes| == replies[i].needed
  {
    var (reply, rest) := Serve(queue, buffers[0], empties);
    if i == 0 {
      assert Serves(rest, buffers[1..], empties)[0] == Serve(rest, buffers[1], empties).0;
    } else {
      NextCallFits(rest, buffers[1..], empties, i - 1);
    }
  }

  /** A run that reached the end delivered everything. */
  ghost predicate Complete(queue: seq<Packet>, empties: Empties) {
    forall buffers: seq<Buffer> ::
      Remaining(queue, buffers, empties) == [] ==>
      Oks(Serves(queue, buffers, empties)) == Deliverable(queue, empties)
  }

  /** A demuxer that can forget an empty packet is complete exactly when there is none. */
  lemma CompleteIffSafe(queue: seq<Packet>, empties: Empties)
    ensures Complete(queue, empties) <==> Safe(queue, empties)
  {
    if Safe(queue, empties) {
      forall buffers: seq<Buffer> | Remaining(queue, buffers, empties) == []
        ensures Oks(Serves(queue, buffers, empties)) == Deliverable(queue, empties)
      {
        NothingLost(queue, buffers, empties);
      }
    } else {
      var buffers := Losing(queue);
      LosingLoses(queue);
      assert Remaining(queue, buffers, Forgotten) == [];
    }
  }

  /** The schedule that loses every empty packet: no buffer for those, room for the rest. */
  function Losing(queue: seq<Packet>): (r: seq<Buffer>)
    ensures |r| == |queue|
  {
    if queue == [] then []
    else [if queue[0].bytes == [] then Null else Room(|queue[0].bytes|)] + Losing(queue[1..])
  }

  lemma {:induction false} LosingLoses(queue: seq<Packet>)
    ensures Remaining(queue, Losing(queue), Forgotten) == []
    ensures |Deliverable(queue, Forgotten)| == |queue|
    ensures |Oks(Serves(queue, Losing(queue), Forgotten))| <= |queue|
    ensures !NoEmpty(queue) ==> |Oks(Serves(queue, Losing(queue), Forgotten))| < |queue|
  {
    if queue != [] {
      var buffers := Losing(queue);
      LosingLoses(queue[1..]);
      assert buffers[1..] == Losing(queue[1..]);
      var (reply, rest) := Serve(queue, buffers[0], Forgotten);
      assert Serves(queue, buffers, Forgotten)[1..] == Serves(queue[1..], buffers[1..], Forgotten);
      if NoEmpty(queue[1..]) && !NoEmpty(queue) {
        assert queue[0].bytes == [] by {
          var p :| p in queue && p.bytes == [];
          assert p in queue[1..] || p == queue[0];
        }
      }
    }
  }
}
