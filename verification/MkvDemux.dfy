/** The Matroska demuxer: a cursor over libebml's elements, the places it parks one already
    read, and the block it is handing out. */
module MkvDemux {
  import opened Arith
  import opened Delivery
  import opened MkvTime
  import opened MkvWalk

  datatype SeekResult = Moved | Invalid | Unsupported

  /** Where the clusters are: what cues may point at. */
  ghost function Clusters(elems: seq<Elem>): set<nat> {
    set i | 0 <= i < |elems| && elems[i].kind.Cluster? :: elems[i].pos
  }

  /** Setting the file position: the element that starts there. */
  function ElementAt(elems: seq<Elem>, at: nat): (i: nat)
    ensures i <= |elems| && (i < |elems| ==> elems[i].pos == at)
    ensures i == |elems| ==> forall k :: 0 <= k < |elems| ==> elems[k].pos != at
  {
    if elems == [] || elems[0].pos == at then 0 else 1 + ElementAt(elems[1..], at)
  }

  datatype Turned = Stopped | Nothing | Found

  lemma FirstOf(packet: Packet, laces: seq<Packet>, walk: seq<Packet>)
    ensures var queue := [packet] + laces + walk;
            queue != [] && queue[0] == packet && queue[1..] == laces + walk
  {
  }

  /** The target of a seek, and what a cue at or before it says of the frame asked for. */
  lemma InNanoseconds(frame: nat, rate: nat)
    requires rate > 0
    ensures rate == SECOND && frame < WORD ==> TargetNs(frame, rate) == frame
    ensures rate < 0x1_0000_0000 && frame * SECOND / rate < WORD ==>
              TargetNs(frame, rate) == frame * SECOND / rate &&
              forall ns: nat :: ns <= TargetNs(frame, rate) ==>
                ns * rate <= frame * SECOND && (frame < WORD ==> FramesOf(ns, rate) <= frame)
  {
    if rate == SECOND && frame < WORD {
      Quotient(frame * SECOND, SECOND, frame);
      TargetNsExact(frame, SECOND);
    }
    if rate < 0x1_0000_0000 && frame * SECOND / rate < WORD {
      TargetNsExact(frame, rate);
      forall ns: nat | ns <= TargetNs(frame, rate)
        ensures ns * rate <= frame * SECOND && (frame < WORD ==> FramesOf(ns, rate) <= frame)
      {
        Divided(frame * SECOND, rate);
        MulAtMost(ns, frame * SECOND / rate, rate);
        if frame < WORD {
          CueNeverLate(ns, frame, rate);
        }
      }
    }
  }

  class Demux {
    const elems: seq<Elem>
    const file: File
    const cues: seq<Cue>
    const firstCluster: nat

    /** The streams being read, of that file. */
    var choice: Choice
    var reading: nat

    /** libebml: the elements whose header has not been read; and whether the stream stands in
        the data of the last one that was, which must then be read or skipped next. */
    var next: nat
    ghost var inside: bool

    var cluster: Option<Elem>
    var clusterTs: nat
    var clusterTimed: bool
    var pending: Option<Elem>
    var pendingChild: Option<Elem>
    var clusterEnded: bool
    var block: Option<Block>
    var nextLace: nat
    var ended: bool

    /** What the search for blocks has still to look at, and where it stands. */
    ghost var todo: seq<Elem>
    ghost var mode: Mode

    ghost predicate Valid()
      reads this
    {
      next <= |elems| && choice.file == file && firstCluster <= |elems| && (!ended ==> Walking())
    }

    predicate IsParked()
      reads this`pending, this`pendingChild
    {
      pending.Some? || pendingChild.Some?
    }

    /** An element read ahead is parked in exactly one place, it is the next one to look at,
        and the stream stands in it. */
    ghost predicate Parked()
      reads this`next, this`inside, this`pending, this`pendingChild, this`todo
    {
      next <= |elems| && inside == IsParked() &&
      if pending.Some? then next > 0 && pendingChild.None? && pending.value == elems[next - 1] && todo == elems[next - 1..]
      else if pendingChild.Some? then next > 0 && pendingChild.value == elems[next - 1] && todo == elems[next - 1..]
      else todo == elems[next..]
    }

    /** Where the search stands, in the cluster's own terms; a block in hand keeps its
        cluster, ended or not. */
    ghost predicate Walking()
      reads this
    {
      Parked() &&
      (clusterEnded ==> cluster.Some? && pending.Some? && IsTop(pending.value)) &&
      (cluster.Some? ==> cluster.value.kind.Cluster?) &&
      (cluster.Some? && !clusterEnded ==> pending.None?) &&
      (cluster.None? || clusterEnded ==> pendingChild.None?) &&
      (block.Some? ==> cluster.Some? && clusterTimed) &&
      mode == if cluster.None? || clusterEnded then Between
              else In(cluster.value.kind.end, if clusterTimed then Some(clusterTs) else None)
    }

    /** Every packet still to be handed over. */
    ghost function Upcoming(): seq<Packet>
      reads this
    {
      if ended then []
      else if block.None? then Walk(choice, todo, mode, 0)
      else choice.Laces(reading, clusterTs, block.value, nextLace) + Walk(choice, todo, mode, 0)
    }

    /** Opening, with some streams chosen: from the first cluster on. */
    constructor (elems: seq<Elem>, choice: Choice, cues: seq<Cue>, firstCluster: nat)
      requires choice.selected != [] && firstCluster <= |elems|
      ensures Valid() && this.elems == elems && this.choice == choice && this.cues == cues
      ensures file == choice.file && this.firstCluster == firstCluster
      ensures Upcoming() == Walk(choice, elems[firstCluster..], Between, 0)
    {
      hide Look, Walk;
      this.elems, this.choice, this.cues := elems, choice, cues;
      this.file, this.firstCluster := choice.file, firstCluster;
      reading := choice.selected[0];
      next, inside := firstCluster, false;
      cluster, clusterTs, clusterTimed := None, 0, false;
      pending, pendingChild, clusterEnded := None, None, false;
      block, nextLace, ended := None, 0, false;
      todo, mode := elems[firstCluster..], Between;
    }

    /** `demux_select_streams`: other streams, from the first cluster on; refused where the list is
        empty, or names a stream there is not, or one twice. */
    method SelectStreams(indices: seq<nat>) returns (ok: bool)
      requires Valid()
      modifies this
      ensures Valid()
      ensures ok <==> indices != [] && (forall i :: 0 <= i < |indices| ==> indices[i] < |file.tracks|) &&
                      forall i, k :: 0 <= i < k < |indices| ==> indices[i] != indices[k]
      ensures !ok ==> choice == old(choice) && Upcoming() == old(Upcoming())
      ensures ok ==> choice == Choice(file, indices) && Upcoming() == Walk(choice, elems[firstCluster..], Between, 0)
    {
      hide Look, Walk;
      if indices == [] {
        return false;
      }
      var chosen: seq<nat> := [];
      for i := 0 to |indices|
        invariant chosen == indices[..i] && Valid() && choice == old(choice) && Upcoming() == old(Upcoming())
        invariant forall k :: 0 <= k < i ==> indices[k] < |file.tracks|
        invariant forall k, m :: 0 <= k < m < i ==> indices[k] != indices[m]
      {
        if indices[i] >= |file.tracks| || indices[i] in chosen {
          return false;
        }
        chosen := chosen + [indices[i]];
      }
      choice := Choice(file, chosen);
      reading := chosen[0];
      RestartAt(firstCluster);
      ok := true;
    }

    /** `FindNextElement`: the next header. It is only ever asked for where one starts. */
    method FindNext() returns (el: Option<Elem>)
      requires !inside && next <= |elems|
      modifies this`next, this`inside
      ensures old(next) == |elems| ==> el.None? && next == old(next) && !inside
      ensures old(next) < |elems| ==> el == Some(elems[old(next)]) && next == old(next) + 1 && inside
    {
      if next == |elems| {
        return None;
      }
      el := Some(elems[next]);
      next := next + 1;
      inside := true;
    }

    /** `SkipData`, and reading to the end of an element: the stream is behind it. */
    method Pass()
      requires inside
      modifies this`inside
      ensures !inside
    {
      inside := false;
    }

    /** `restart_at`: back to a cluster, with nothing parked and nothing in hand. */
    method RestartAt(at: nat)
      requires at <= |elems| && choice.file == file && firstCluster <= |elems|
      modifies this
      ensures Valid() && choice == old(choice)
      ensures Upcoming() == Walk(choice, elems[at..], Between, 0)
    {
      hide Look, Walk;
      block, cluster, pending, pendingChild := None, None, None, None;
      clusterEnded, nextLace, ended := false, 0, false;
      next, inside := at, false;
      todo, mode := elems[at..], Between;
    }

    /** What a search for the next block must not touch. */
    ghost predicate Searching()
      reads this
    {
      Valid() && !ended && block.None?
    }

    /** The next cluster at level 1, past everything else. */
    method NextCluster() returns (found: bool)
      requires Searching() && cluster.None?
      modifies this
      ensures Searching() && choice == old(choice)
      ensures found == (ToCluster(old(todo)) != [])
      ensures found ==> cluster.Some? && !clusterEnded && todo == ToCluster(old(todo))[1..]
      ensures found ==> mode == In(ToCluster(old(todo))[0].kind.end, None)
    {
      hide Look, Walk;
      var el := pending;
      if pending.Some? {
        pending := None;
      } else {
        el := FindNext();
      }
      while el.Some? && !el.value.kind.Cluster?
        invariant choice == old(choice) && choice.file == file && firstCluster <= |elems|
        invariant next <= |elems| && !ended && cluster.None? && block.None? && !clusterEnded
        invariant pending.None? && pendingChild.None? && inside == el.Some?
        invariant if el.Some? then next > 0 && todo == elems[next - 1..] && el.value == todo[0]
                  else todo == [] && next == |elems|
        invariant ToCluster(todo) == ToCluster(old(todo))
        invariant mode == Between
        decreases |todo|
      {
        Pass();
        todo := todo[1..];
        el := FindNext();
      }
      if el.None? {
        return false;
      }
      Enter(el.value);
      found := true;
    }

    /** Into a cluster: no time yet, and its children come next. */
    method Enter(el: Elem)
      requires 0 < next <= |elems| && !ended && block.None? && !clusterEnded && inside
      requires choice.file == file && firstCluster <= |elems|
      requires pending.None? && pendingChild.None? && todo == elems[next - 1..]
      requires el == todo[0] && el.kind.Cluster?
      modifies this
      ensures Searching() && cluster == Some(el) && !clusterEnded && choice == old(choice)
      ensures todo == old(todo)[1..] && mode == In(el.kind.end, None)
    {
      hide Walk;
      cluster := Some(el);
      Pass();
      clusterTs := 0;
      clusterTimed := false;
      todo, mode := todo[1..], In(el.kind.end, None);
    }

    /** The next child of the cluster: one read ahead, or the next header. */
    method NextChild() returns (child: Option<Elem>)
      requires Searching() && cluster.Some? && !clusterEnded
      modifies this`next, this`inside, this`pendingChild
      ensures next <= |elems| && pendingChild.None? && inside == child.Some?
      ensures child.None? ==> todo == []
      ensures child.Some? ==> next > 0 && todo == elems[next - 1..] && child.value == todo[0]
    {
      if pendingChild.Some? {
        child := pendingChild;
        pendingChild := None;
      } else {
        child := FindNext();
      }
    }

    /** Reading a block whole, and parking what that ran into. */
    method ReadBlock(overruns: bool)
      requires next <= |elems| && inside && cluster.Some? && !clusterEnded
      requires pending.None? && pendingChild.None? && todo == elems[next..]
      modifies this`next, this`inside, this`pending, this`pendingChild, this`clusterEnded
      ensures Parked()
      ensures clusterEnded == pending.Some? && (clusterEnded ==> IsTop(pending.value))
      ensures clusterEnded == (overruns && todo != [] && IsTop(todo[0]))
      ensures clusterEnded ==> pendingChild.None?
    {
      Pass();
      if overruns {
        var above := FindNext();
        if above.Some? {
          if IsTop(above.value) {
            pending := above;
            clusterEnded := true;
          } else {
            pendingChild := above;
          }
        }
      }
    }

    /** One turn of the search, inside a cluster: the next child, whatever it is. */
    method TakeChild() returns (turn: Turned)
      requires Searching() && cluster.Some? && !clusterEnded
      modifies this
      ensures next <= |elems| && choice == old(choice)
      ensures match Look(choice, old(todo), old(mode))
              case Stop => turn.Stopped?
              case Quiet(counted, rest, mode') =>
                counted && turn.Nothing? && Searching() && todo == rest && mode == mode'
              case Yield(track, ts, found, rest, mode') =>
                turn.Found? && Valid() && !ended && todo == rest && mode == mode' &&
                reading == track && clusterTs == ts && block == Some(found) && nextLace == 0
    {
      hide Choice.TrackOf, Walk, AfterBlock;
      var child := NextChild();
      if child.None? {
        cluster := None;
        return Stopped;
      }
      var e := child.value;
      turn := Nothing;
      if EndsCluster(e, cluster.value.kind.end) {
        EndCluster(e);
        return;
      }
      todo := todo[1..];
      if e.kind.Blocks? {
        if !e.kind.fits {
          cluster := None;
          return Stopped;
        }
        turn := TakeBlock(e.kind.block, e.kind.overruns);
      } else if e.kind.Stamp? {
        if !e.kind.fits {
          cluster := None;
          return Stopped;
        }
        TakeStamp(e.kind.ts);
      } else {
        PassOver();
      }
    }

    /** In the data of a child of the cluster, with nothing parked and the rest still to look at. */
    ghost predicate InChild()
      reads this
    {
      next <= |elems| && inside && !ended && todo == elems[next..] &&
      choice.file == file && firstCluster <= |elems| &&
      cluster.Some? && cluster.value.kind.Cluster? && !clusterEnded &&
      pending.None? && pendingChild.None? && block.None? &&
      mode == In(cluster.value.kind.end, if clusterTimed then Some(clusterTs) else None)
    }

    /** Out of the cluster, with what ended it parked. */
    method EndCluster(e: Elem)
      requires 0 < next <= |elems| && inside && !ended && block.None? && !clusterEnded
      requires pending.None? && pendingChild.None? && todo == elems[next - 1..] && e == todo[0]
      requires choice.file == file && firstCluster <= |elems|
      modifies this`cluster, this`pending, this`mode
      ensures Searching() && mode == Between
    {
      cluster := None;
      pending := Some(e);
      mode := Between;
    }

    /** The cluster's timestamp. */
    method TakeStamp(ts: nat)
      requires InChild()
      modifies this`inside, this`clusterTs, this`clusterTimed, this`mode
      ensures Searching() && mode == old(mode).(ts := Some(ts))
    {
      Pass();
      clusterTs := ts;
      clusterTimed := true;
      mode := mode.(ts := Some(clusterTs));
    }

    method PassOver()
      requires InChild()
      modifies this`inside
      ensures Searching()
    {
      Pass();
    }

    /** A block of the cluster: read, and kept if it is one to hand out. */
    method TakeBlock(found: Option<Block>, overruns: bool) returns (turn: Turned)
      requires InChild()
      modifies this`inside, this`next, this`pending, this`pendingChild, this`clusterEnded, this`mode,
               this`reading, this`block, this`nextLace
      ensures Valid() && !ended
      ensures mode == AfterBlock(todo, overruns, old(mode))
      ensures var track := choice.TrackOf(found);
              if track.Some? && old(mode).ts.Some? then
                turn.Found? && reading == track.value && clusterTs == old(mode).ts.value &&
                block == found && nextLace == 0
              else turn.Nothing? && block.None?
    {
      ReadBlock(overruns);
      mode := AfterBlock(todo, overruns, mode);
      var from := choice.TrackOf(found);
      turn := Nothing;
      if from.Some? && clusterTimed {
        reading, block, nextLace := from.value, found, 0;
        turn := Found;
      }
    }

    /** Into a cluster, if the search is not in one; out of one that has ended first. */
    method IntoCluster(ghost guard: nat) returns (found: bool)
      requires Searching() && guard < GUARD
      modifies this
      ensures Searching() && choice == old(choice)
      ensures found ==> cluster.Some? && !clusterEnded && |todo| <= old(|todo|)
      ensures found ==> Walk(choice, todo, mode, guard) == Walk(choice, old(todo), old(mode), guard)
      ensures !found ==> Walk(choice, old(todo), old(mode), guard) == []
    {
      hide Look, Walk;
      if clusterEnded {
        clusterEnded := false;
        cluster := None;
        pendingChild := None;
      }
      if cluster.None? {
        WalkFromCluster(choice, todo, guard);
        found := NextCluster();
        return;
      }
      found := true;
    }

    /** The next block of any selected track, in the order the file stores them. */
    method NextBlock() returns (got: bool)
      requires Searching()
      modifies this
      ensures next <= |elems| && choice == old(choice)
      ensures got ==> Valid() && !ended && block.Some? && nextLace == 0 && |todo| < old(|todo|)
      ensures got ==> old(Upcoming()) == Upcoming()
      ensures !got ==> old(Upcoming()) == []
    {
      hide Look, Walk, Choice.Laces, Walking, Parked;
      ghost var all := Upcoming();
      var guard: nat := 0;
      while guard < GUARD
        invariant Searching() && guard <= GUARD && choice == old(choice)
        invariant Walk(choice, todo, mode, guard) == all && |todo| <= old(|todo|)
        decreases GUARD - guard
      {
        var found := IntoCluster(guard);
        if !found {
          return false;
        }
        WalkStep(choice, todo, mode, guard);
        var turn := TakeChild();
        match turn
        case Stopped => return false;
        case Found => return true;
        case Nothing =>
        guard := guard + 1;
      }
      OutOfTurns(choice, todo, mode);
      got := false;
    }

    /** The lace in hand: to the host, or left where it is. */
    method HandOver(buffer: Buffer) returns (reply: Reply)
      requires Valid() && !ended && block.Some? && nextLace < |block.value.laces|
      modifies this`nextLace
      ensures Valid()
      ensures (reply, Upcoming()) == Serve(old(Upcoming()), buffer, Refused)
    {
      hide Look, Walk, Choice.Position;
      var lace := block.value.laces[nextLace];
      var frame := if nextLace == 0 then choice.Position(reading, clusterTs, block.value.offset) else 0;
      var packet := Packet(reading, lace, frame, nextLace == 0, false);
      LaceStep(choice, reading, clusterTs, block.value, nextLace);
      hide Choice.Laces;
      ghost var laces, walk := choice.Laces(reading, clusterTs, block.value, nextLace + 1), Walk(choice, todo, mode, 0);
      FirstOf(packet, laces, walk);
      if |lace| == 0 {
        nextLace := nextLace + 1;
        return ErrFormat;
      }
      if !Fits(buffer, |lace|) {
        return TooSmall(|lace|);
      }
      nextLace := nextLace + 1;
      reply := Ok(packet);
    }

    /** The block handed out, given up. */
    method DropBlock()
      requires Valid() && !ended && (block.Some? ==> nextLace >= |block.value.laces|)
      modifies this`block
      ensures Valid() && block.None? && Upcoming() == old(Upcoming())
    {
      hide Look, Walk, Choice.Laces;
      if block.Some? {
        NoLaceLeft(choice, reading, clusterTs, block.value, nextLace);
        assert [] + Walk(choice, todo, mode, 0) == Walk(choice, todo, mode, 0);
      }
      block := None;
    }

    /** `demux_read_packet`: one lace at a time. */
    method ReadPacket(buffer: Buffer) returns (reply: Reply)
      requires Valid()
      modifies this
      ensures Valid() && choice == old(choice)
      ensures (reply, Upcoming()) == Serve(old(Upcoming()), buffer, Refused)
    {
      hide Look, Walk, Choice.Laces, Walking, Parked;
      if ended {
        return End;
      }
      while block.None? || nextLace >= |block.value.laces|
        invariant Valid() && !ended && choice == old(choice)
        invariant Upcoming() == old(Upcoming())
        decreases |todo|
      {
        DropBlock();
        var got := NextBlock();
        if !got {
          ended := true;
          return End;
        }
      }
      reply := HandOver(buffer);
    }

    /** `demux_seek`: to the cluster of the latest cue at or before the target. */
    method Seek(stream: nat, frame: nat) returns (result: SeekResult, ghost cue: Cue, ghost i: nat)
      requires Valid() && Ready(cues, Clusters(elems))
      requires forall i, k :: 0 <= i < k < |elems| ==> elems[i].pos < elems[k].pos
      modifies this
      ensures Valid() && choice == old(choice)
      ensures result.Invalid? <==> stream >= |file.tracks|
      ensures !result.Moved? ==> Upcoming() == old(Upcoming())
      ensures result.Unsupported? <==>
                stream < |file.tracks| && !file.At(stream).video && file.At(stream).rate == 0
      ensures result.Moved? ==> cue in cues && i < |elems| && elems[i].kind.Cluster? && elems[i].pos == cue.at &&
                                Upcoming() == Walk(choice, elems[i..], Between, 0)
      ensures var rate := if file.At(stream).video then SECOND else file.At(stream).rate;
              result.Moved? ==>
                cue.ns <= TargetNs(frame, rate) && forall c :: c in cues && c.ns <= TargetNs(frame, rate) ==> c.ns <= cue.ns
      ensures result.Moved? && file.At(stream).video && frame < WORD ==>
                cue.ns <= frame && forall c :: c in cues && c.ns <= frame ==> c.ns <= cue.ns
      ensures var rate := file.At(stream).rate;
              result.Moved? && !file.At(stream).video && rate < 0x1_0000_0000 && frame * SECOND / rate < WORD ==>
                cue.ns * rate <= frame * SECOND && (frame < WORD ==> FramesOf(cue.ns, rate) <= frame) &&
                forall c :: c in cues && c.ns <= frame * SECOND / rate ==> c.ns <= cue.ns
    {
      cue, i := cues[0], 0;
      if stream >= |file.tracks| {
        return Invalid, cue, i;
      }
      var rate := if file.At(stream).video then SECOND else file.At(stream).rate;
      if rate == 0 {
        return Unsupported, cue, i;
      }
      InNanoseconds(frame, rate);
      var best := ChooseCue(cues, TargetNs(frame, rate));
      var at := ElementAt(elems, best.at);
      assert best.at in Clusters(elems);
      RestartAt(at);
      result, cue, i := Moved, best, at;
    }

    /** A host's run: one read for each buffer. */
    method ReadAll(buffers: seq<Buffer>) returns (replies: seq<Reply>)
      requires Valid()
      modifies this
      ensures Valid() && choice == old(choice)
      ensures replies == Serves(old(Upcoming()), buffers, Refused)
      ensures Upcoming() == Remaining(old(Upcoming()), buffers, Refused)
      decreases |buffers|
    {
      if buffers == [] {
        return [];
      }
      var first := ReadPacket(buffers[0]);
      var others := ReadAll(buffers[1..]);
      replies := [first] + others;
    }
  }
}
