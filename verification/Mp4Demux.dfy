/** The MP4 demuxer: samples in storage order from every selected track, one held back when
    the host's buffer is too small, and a seek that places every track. */
module Mp4Demux {
  import opened Delivery
  import opened Mp4Seek

  /** A sample where the file stores it: which of its track's it is. */
  datatype Stored = Stored(track: nat, number: nat, bytes: Bytes, sync: bool)

  /** A track as the module keeps it, with the reach worked out on the first seek. */
  class Stream {
    const track: Track
    var compositionReach: nat
    var reachKnown: bool

    ghost predicate Valid()
      reads this
    {
      track.Valid() && (reachKnown ==> compositionReach == Reach(track))
    }

    constructor (track: Track)
      requires track.Valid()
      ensures Valid() && this.track == track
    {
      this.track := track;
      compositionReach, reachKnown := 0, false;
    }

    method CompositionReach() returns (reach: nat)
      requires Valid()
      modifies this
      ensures Valid() && reach == Reach(track)
    {
      if reachKnown {
        return compositionReach;
      }
      reachKnown, compositionReach := true, 0;
      if track.offsets.None? {
        NoOffsets(track, |track.deltas|);
        return 0;
      }
      var largest: nat := 0;
      var i: nat := 0;
      while i < |track.deltas|
        invariant i <= |track.deltas| && largest == LargestOffset(track, i)
        invariant reachKnown && compositionReach == 0
      {
        if i >= |track.offsets.value| {
          break;
        }
        if track.offsets.value[i] > largest {
          largest := track.offsets.value[i];
        }
        i := i + 1;
      }
      NoMoreOffsets(track, i, |track.deltas|);
      if track.duration != 0 && largest >= track.duration {
        return 0;
      }
      compositionReach := largest;
      reach := largest;
    }

    method SampleFor(frame: nat, rate: nat) returns (index: nat)
      requires Valid()
      modifies this
      ensures Valid() && index == Mp4Seek.SampleFor(track, frame, rate)
    {
      var here := Restated(frame, rate, track.timescale);
      var reach := CompositionReach();
      var target := if here > reach then here - reach else 0;
      var found := IndexFor(track.deltas, target);
      if found.None? {
        return 0;
      }
      index := track.syncs[found.value];
    }
  }

  lemma {:induction false} NoOffsets(track: Track, n: nat)
    requires track.offsets.None?
    ensures LargestOffset(track, n) == 0
  {
    if n > 0 {
      NoOffsets(track, n - 1);
    }
  }

  lemma {:induction false} NoMoreOffsets(track: Track, i: nat, n: nat)
    requires i <= n && forall k :: i <= k < n ==> track.Offset(k) == 0
    ensures LargestOffset(track, n) == LargestOffset(track, i)
  {
    if i < n {
      NoMoreOffsets(track, i, n - 1);
    }
  }

  /** Where each selected track starts. */
  type Places = map<nat, nat>

  /** What a reader with those tracks enabled and placed has to hand out: storage order. */
  function Readable(storage: seq<Stored>, places: Places): seq<Stored> {
    if storage == [] then []
    else
      var s := storage[0];
      (if s.track in places && s.number >= places[s.track] then [s] else []) +
      Readable(storage[1..], places)
  }

  lemma {:induction false} ReadableHas(storage: seq<Stored>, places: Places, s: Stored)
    ensures s in Readable(storage, places) <==>
            s in storage && s.track in places && s.number >= places[s.track]
  {
    if storage != [] {
      ReadableHas(storage[1..], places, s);
    }
  }

  /** The reader keeps the order of storage and hands each sample out once. */
  lemma {:induction false} ReadableInOrder(a: seq<Stored>, b: seq<Stored>, places: Places)
    ensures Readable(a + b, places) == Readable(a, places) + Readable(b, places)
    ensures |Readable(a, places)| <= |a|
    decreases |a|
  {
    if a == [] {
      assert a + b == b && [] + Readable(b, places) == Readable(b, places);
    } else {
      assert (a + b)[0] == a[0] && (a + b)[1..] == a[1..] + b;
      ReadableInOrder(a[1..], b, places);
      var s := a[0];
      Regroup(if s.track in places && s.number >= places[s.track] then [s] else [],
              Readable(a[1..], places), Readable(b, places));
    }
  }

  class Demux {
    const streams: seq<Stream>
    const storage: seq<Stored>

    var selected: seq<nat>
    /** `AP4_LinearReader`: what it has still to hand out, once there is one. */
    var reader: Option<seq<Stored>>
    var atEnd: bool
    var havePending: bool
    var pendingStream: nat
    var pendingFrame: nat
    var pendingSync: bool
    var sampleData: Bytes

    ghost predicate Valid()
      reads this, streams
    {
      (forall i :: 0 <= i < |streams| ==> streams[i].Valid()) &&
      (forall i :: 0 <= i < |storage| ==> Belongs(storage[i])) &&
      (forall i :: 0 <= i < |selected| ==> selected[i] < |streams|) &&
      (reader.Some? ==> forall s :: s in reader.value ==> Belongs(s))
    }

    predicate Belongs(s: Stored) {
      s.track < |streams| && s.number < |streams[s.track].track.deltas|
    }

    /** A sample as the host gets it: its presentation time is its position. */
    function PacketOf(s: Stored): Packet
      requires Belongs(s)
    {
      Packet(s.track, s.bytes, streams[s.track].track.Cts(s.number), true, s.sync)
    }

    /** That position counts from the sample's decode time, its `ctts` entry on; and the packet is
        of its track, with its bytes. */
    lemma PacketPresents(s: Stored)
      requires Belongs(s)
      ensures var p, track := PacketOf(s), streams[s.track].track;
              p.stream == s.track && p.bytes == s.bytes && p.sync == s.sync && p.timed &&
              p.frame - Dts(track.deltas, s.number) ==
              if track.offsets.Some? && s.number < |track.offsets.value| then track.offsets.value[s.number] else 0
    {
    }

    /** A sample is due by a seek exactly when the position its packet states is at or after the
        target, each in its own timescale. */
    lemma DuePresents(s: Stored, stream: nat, frame: nat)
      requires Belongs(s) && stream < |streams|
      ensures Due(s, stream, frame) <==>
              PacketOf(s).frame * streams[stream].track.timescale >= frame * streams[s.track].track.timescale
    {
    }

    function Packets(samples: seq<Stored>): seq<Packet>
      requires forall s :: s in samples ==> Belongs(s)
    {
      if samples == [] then [] else [PacketOf(samples[0])] + Packets(samples[1..])
    }

    /** Every packet still to be handed over. */
    function Upcoming(): seq<Packet>
      reads this, streams
      requires Valid() && reader.Some?
    {
      (if havePending then [Packet(pendingStream, sampleData, pendingFrame, true, pendingSync)] else []) +
      (if atEnd then [] else Packets(reader.value))
    }

    constructor (streams: seq<Stream>, storage: seq<Stored>)
      requires forall i :: 0 <= i < |streams| ==> streams[i].Valid()
      requires forall i :: 0 <= i < |storage| ==>
        storage[i].track < |streams| && storage[i].number < |streams[storage[i].track].track.deltas|
      ensures Valid() && this.streams == streams && this.storage == storage && reader.None?
    {
      this.streams, this.storage := streams, storage;
      selected, reader := [], None;
      atEnd, havePending := false, false;
      pendingStream, pendingFrame, pendingSync, sampleData := 0, 0, true, [];
    }

    /** The tracks a reader is to be placed on, and where. */
    ghost predicate Placing(places: Places)
      reads this
    {
      forall t :: t in places <==> t in selected
    }

    /** A reader that has handed nothing out since it was placed. */
    predicate Fresh(places: Places)
      reads this
    {
      reader == Some(Readable(storage, places)) && !atEnd && !havePending
    }

    /** `restart`: a new reader over the selected tracks, each put where it was asked to be. */
    method Restart(places: Places) returns (ok: bool)
      requires Valid() && Placing(places)
      modifies this
      ensures Valid() && selected == old(selected)
      ensures ok <==> selected != []
      ensures ok ==> Fresh(places) && Upcoming() == Packets(reader.value)
    {
      reader, atEnd, havePending := None, false, false;
      if selected == [] {
        return false;
      }
      reader := Some(Readable(storage, places));
      forall s | s in reader.value ensures Belongs(s) {
        ReadableHas(storage, places, s);
      }
      ok := true;
    }

    method SelectStreams(indices: seq<nat>) returns (ok: bool)
      requires Valid()
      modifies this
      ensures Valid()
      ensures ok <==> indices != [] && (forall i :: 0 <= i < |indices| ==> indices[i] < |streams|) &&
                      forall i, k :: 0 <= i < k < |indices| ==> indices[i] != indices[k]
      ensures !ok ==> selected == old(selected) && reader == old(reader)
      ensures ok ==> selected == indices && Fresh(map t | t in indices :: 0)
    {
      if indices == [] {
        return false;
      }
      var chosen: seq<nat> := [];
      for i := 0 to |indices|
        invariant chosen == indices[..i]
        invariant forall k :: 0 <= k < i ==> indices[k] < |streams|
        invariant forall k, m :: 0 <= k < m < i ==> indices[k] != indices[m]
      {
        if indices[i] >= |streams| || indices[i] in chosen {
          return false;
        }
        chosen := chosen + [indices[i]];
      }
      selected := chosen;
      ok := Restart(map t | t in indices :: 0);
    }

    /** The next sample in storage order, or the one held back. */
    method ReadPacket(buffer: Buffer) returns (reply: Reply)
      requires Valid()
      modifies this
      ensures Valid() && reader.Some? == old(reader.Some?) && selected == old(selected)
      ensures reader.None? ==> reply.ErrInvalid? && unchanged(this)
      ensures reader.Some? ==> (reply, Upcoming()) == Serve(old(Upcoming()), buffer, Delivered)
    {
      if reader.None? {
        return ErrInvalid;
      }
      if !havePending {
        if atEnd {
          return End;
        }
        if reader.value == [] {
          atEnd := true;
          return End;
        }
        ReadNextSample();
      }
      reply := HandOver(buffer);
    }

    /** The sample held: to the host, or kept for the next call. */
    method HandOver(buffer: Buffer) returns (reply: Reply)
      requires Valid() && reader.Some? && havePending
      modifies this`havePending
      ensures Valid()
      ensures (reply, Upcoming()) == Serve(old(Upcoming()), buffer, Delivered)
    {
      var packet := Packet(pendingStream, sampleData, pendingFrame, true, pendingSync);
      ghost var after := if atEnd then [] else Packets(reader.value);
      assert Upcoming() == [packet] + after && Upcoming()[1..] == after;
      hide Packets;
      if !Fits(buffer, |sampleData|) {
        return TooSmall(|sampleData|);
      }
      havePending := false;
      assert Upcoming() == after;
      reply := Ok(packet);
    }

    /** The reader's next sample, held. */
    method ReadNextSample()
      requires Valid() && !havePending && !atEnd && reader.Some? && reader.value != []
      modifies this
      ensures Valid() && havePending && reader.Some? && selected == old(selected)
      ensures Upcoming() == old(Upcoming())
    {
      var sample := reader.value[0];
      assert sample in reader.value;
      reader := Some(reader.value[1..]);
      sampleData := sample.bytes;
      pendingStream := sample.track;
      pendingFrame := streams[sample.track].track.Cts(sample.number);
      pendingSync := sample.sync;
      havePending := true;
    }

    /** A host's run: one read for each buffer. */
    method ReadAll(buffers: seq<Buffer>) returns (replies: seq<Reply>)
      requires Valid() && reader.Some?
      modifies this
      ensures Valid() && reader.Some?
      ensures replies == Serves(old(Upcoming()), buffers, Delivered)
      ensures Upcoming() == Remaining(old(Upcoming()), buffers, Delivered)
      decreases |buffers|
    {
      if buffers == [] {
        return [];
      }
      var first := ReadPacket(buffers[0]);
      var others := ReadAll(buffers[1..]);
      replies := [first] + others;
    }

    /** A track no seek of which can skip a sample that is due. */
    ghost predicate Steady(t: nat)
      requires t < |streams| && streams[t].track.Valid()
    {
      streams[t].track.timescale == 0 || Covered(streams[t].track)
    }

    /** A sample presented at or after `frame` of the named stream. */
    predicate Due(s: Stored, stream: nat, frame: nat)
      requires Belongs(s) && stream < |streams|
    {
      Wanted(streams[s.track].track, s.number, frame, streams[stream].track.timescale)
    }

    /** `demux_seek`: every selected track at its own nearest point, and nothing due skipped. */
    method Seek(stream: nat, frame: nat) returns (ok: bool)
      requires Valid()
      modifies this, streams
      ensures Valid() && selected == old(selected)
      ensures ok <==> stream < |streams| && selected != []
      ensures ok ==> exists places :: Placing(places) && Fresh(places) && Upcoming() == Packets(reader.value) &&
                       forall t :: t in places ==>
                         places[t] == Mp4Seek.SampleFor(streams[t].track, frame, streams[stream].track.timescale)
      ensures ok && streams[stream].track.timescale > 0 ==>
                forall s | s in storage && s.track in selected && Steady(s.track) ::
                  Due(s, stream, frame) ==> PacketOf(s) in Upcoming()
    {
      if stream >= |streams| || selected == [] {
        return false;
      }
      var rate := streams[stream].track.timescale;
      var places: Places := map[];
      for i := 0 to |selected|
        invariant Valid() && selected == old(selected)
        invariant forall t :: t in places <==> t in selected[..i]
        invariant forall t :: t in places ==>
          t < |streams| && places[t] == Mp4Seek.SampleFor(streams[t].track, frame, rate)
      {
        var index := streams[selected[i]].SampleFor(frame, rate);
        places := places[selected[i] := index];
      }
      ok := Restart(places);
      if rate > 0 {
        forall s | s in storage && s.track in selected && Steady(s.track) &&
                   Due(s, stream, frame)
          ensures PacketOf(s) in Upcoming()
        {
          PlacedNotLate(streams[s.track].track, frame, rate, s.number);
          ReadableHas(storage, places, s);
          PacketIn(Readable(storage, places), s);
        }
      }
    }

    lemma {:induction false} PacketIn(samples: seq<Stored>, s: Stored)
      requires s in samples && forall x :: x in samples ==> Belongs(x)
      ensures PacketOf(s) in Packets(samples)
    {
      if s != samples[0] {
        PacketIn(samples[1..], s);
      }
    }
  }
}
