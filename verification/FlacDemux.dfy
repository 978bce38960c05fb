/** The FLAC demuxer: libFLAC says where frames begin and end, and this keeps count of samples
    and of places to seek to. */
module FlacDemux {
  import opened Delivery

  /** A frame as libFLAC finds it. */
  datatype Frame = Frame(bytes: Bytes, blocksize: nat)

  datatype Point = Point(sample: nat, at: nat)

  const STRIDE: nat := 32
  const PLACEHOLDER: nat := 0xFFFF_FFFF_FFFF_FFFF

  /** The first sample of frame `k`: the block sizes of the frames before it. */
  function Start(frames: seq<Frame>, k: nat): nat
    requires k <= |frames|
  {
    if k == 0 then 0 else Start(frames, k - 1) + frames[k - 1].blocksize
  }

  /** Where frame `k` begins, from the first. */
  function Offset(frames: seq<Frame>, k: nat): nat
    requires k <= |frames|
  {
    if k == 0 then 0 else Offset(frames, k - 1) + |frames[k - 1].bytes|
  }

  predicate Framed(frames: seq<Frame>) {
    forall i :: 0 <= i < |frames| ==> 0 < |frames[i].bytes| <= 0xFFFF_FFFF
  }

  lemma {:induction false} OffsetGrows(frames: seq<Frame>, i: nat, k: nat)
    requires Framed(frames) && i < k <= |frames|
    ensures Offset(frames, i) < Offset(frames, k)
  {
    if i < k - 1 {
      OffsetGrows(frames, i, k - 1);
    }
  }

  lemma {:induction false} StartGrows(frames: seq<Frame>, i: nat, k: nat)
    requires i <= k <= |frames|
    ensures Start(frames, i) <= Start(frames, k)
  {
    if i < k {
      StartGrows(frames, i, k - 1);
    }
  }

  function Joined(frames: seq<Frame>, k: nat): Bytes
    requires k <= |frames|
  {
    if k == 0 then [] else Joined(frames, k - 1) + frames[k - 1].bytes
  }

  /** Frames lie end to end, and each starts where the samples of the one before it end. */
  lemma {:induction false} EndToEnd(frames: seq<Frame>, k: nat)
    requires k <= |frames|
    ensures Offset(frames, k) == |Joined(frames, k)|
    ensures Start(frames, 0) == 0
    ensures k < |frames| ==> Start(frames, k + 1) - Start(frames, k) == frames[k].blocksize
  {
    if k > 0 {
      EndToEnd(frames, k - 1);
    }
  }

  /** A byte offset is the beginning of at most one frame. */
  lemma OnePlace(frames: seq<Frame>, i: nat, k: nat)
    requires Framed(frames) && i <= |frames| && k <= |frames|
    requires Offset(frames, i) == Offset(frames, k)
    ensures i == k
  {
    if i < k {
      OffsetGrows(frames, i, k);
    } else if k < i {
      OffsetGrows(frames, k, i);
    }
  }

  /** A point that tells the truth: the first sample of some frame, and where it begins. */
  ghost predicate True(frames: seq<Frame>, audioAt: nat, p: Point) {
    exists k :: 0 <= k <= |frames| && p == Point(Start(frames, k), audioAt + Offset(frames, k))
  }

  /** A packet that is one of the file's frames, at its true first sample. */
  ghost predicate IsFrame(frames: seq<Frame>, p: Packet) {
    exists k :: 0 <= k < |frames| && p == Packet(0, frames[k].bytes, Start(frames, k), true, true)
  }

  /** The packets from frame `k` on, counted up from `position`. */
  function Packets(frames: seq<Frame>, k: nat, position: nat): seq<Packet>
    requires k <= |frames|
    decreases |frames| - k
  {
    if k == |frames| then []
    else
      [Packet(0, frames[k].bytes, position, true, true)] +
      Packets(frames, k + 1, position + frames[k].blocksize)
  }

  /** Counting up gives every packet its true first sample. */
  lemma {:induction false} PacketsAreTrue(frames: seq<Frame>, k: nat, i: nat)
    requires k + i < |frames|
    ensures var all := Packets(frames, k, Start(frames, k));
            |all| == |frames| - k &&
            all[i] == Packet(0, frames[k + i].bytes, Start(frames, k + i), true, true)
    decreases |frames| - k
  {
    if k + 1 < |frames| {
      assert Start(frames, k + 1) == Start(frames, k) + frames[k].blocksize;
      PacketsAreTrue(frames, k + 1, if i > 0 then i - 1 else 0);
    } else {
      assert Packets(frames, k + 1, Start(frames, k + 1)) == [];
    }
  }

  // ------------------------------------------------------------------
  // The index on the way past
  // ------------------------------------------------------------------

  /** `remember`: what a frame leaves of the index and of the count since its last point. */
  function Noted(index: seq<Point>, since: nat, p: Point): (seq<Point>, nat)
    requires index != []
  {
    if since < STRIDE then (index, since + 1)
    else (if p.sample > index[|index| - 1].sample then index + [p] else index, 0)
  }

  /** Nothing recorded is ever lost: a frame adds its own point at the end, when the count since
      the last is used up and the point is past the end of the index, and nothing otherwise. */
  lemma NotedGrows(index: seq<Point>, since: nat, p: Point)
    requires index != []
    ensures index <= Noted(index, since, p).0 <= index + [p]
    ensures |Noted(index, since, p).0| > |index| <==> since >= STRIDE && p.sample > index[|index| - 1].sample
    ensures Noted(index, since, p).1 == if since >= STRIDE then 0 else since + 1
  {
  }

  /** A read of each of `points` in turn. */
  function NotedAll(index: seq<Point>, since: nat, points: seq<Point>): (seq<Point>, nat)
    requires index != []
    decreases |points|
  {
    if points == [] then (index, since)
    else
      var (more, now) := Noted(index, since, points[0]);
      NotedAll(more, now, points[1..])
  }

  /** Every 33rd of `points`, the first of them at `skip`. */
  function EveryStride(points: seq<Point>, skip: nat): (r: seq<Point>)
    decreases |points|
  {
    if skip >= |points| then [] else [points[skip]] + EveryStride(points[skip + 1..], STRIDE)
  }

  lemma {:induction false} EveryStrideAt(points: seq<Point>, skip: nat, j: nat)
    requires skip + 33 * j < |points|
    ensures j < |EveryStride(points, skip)|
    ensures EveryStride(points, skip)[j] == points[skip + 33 * j]
    decreases |points|
  {
    if j > 0 {
      EveryStrideAt(points[skip + 1..], STRIDE, j - 1);
    }
  }

  /** Past the end of the index, frames read in order leave it one point in every 33. */
  lemma {:induction false} OneInThirtyThree(index: seq<Point>, since: nat, points: seq<Point>)
    requires index != [] && since <= STRIDE
    requires forall i :: 0 <= i < |points| ==> index[|index| - 1].sample < points[i].sample
    requires forall i, k :: 0 <= i < k < |points| ==> points[i].sample < points[k].sample
    ensures NotedAll(index, since, points).0 == index + EveryStride(points, STRIDE - since)
    decreases |points|
  {
    if points != [] {
      var (more, now) := Noted(index, since, points[0]);
      OneInThirtyThree(more, now, points[1..]);
      if since == STRIDE {
        assert points[0 + 1..] == points[1..];
      } else if STRIDE - since < |points| {
        assert points[1..][STRIDE - since - 1 + 1..] == points[STRIDE - since + 1..];
      }
    }
  }

  datatype Call = Read(buffer: Buffer) | SeekTo(frame: nat)

  // ------------------------------------------------------------------
  // A run, from the frame libFLAC stands at and the index
  // ------------------------------------------------------------------

  /** The greatest point at or before a target; of equals, the last. */
  function Best(index: seq<Point>, frame: nat): (p: Point)
    requires index != [] && index[0].sample == 0
    ensures p in index && p.sample <= frame
    ensures forall i :: 0 <= i < |index| && index[i].sample <= frame ==> index[i].sample <= p.sample
    decreases |index|
  {
    if |index| == 1 then index[0]
    else
      var last, before := index[|index| - 1], Best(index[..|index| - 1], frame);
      assert forall i :: 0 <= i < |index| - 1 ==> index[i] == index[..|index| - 1][i];
      if last.sample <= frame && last.sample >= before.sample then last else before
  }

  /** The points of a seek table, placeholders aside, made absolute. */
  function Absolute(table: seq<Point>, audioAt: nat): seq<Point> {
    if table == [] then []
    else
      var last := table[|table| - 1];
      Absolute(table[..|table| - 1], audioAt) +
      if last.sample == PLACEHOLDER then [] else [Point(last.sample, last.at + audioAt)]
  }

  /** Every point of the table is kept, in the table's order, and nothing else is. */
  lemma {:induction false} AbsoluteKeeps(table: seq<Point>, audioAt: nat, more: seq<Point>)
    ensures Absolute(table + more, audioAt) == Absolute(table, audioAt) + Absolute(more, audioAt)
    ensures forall p: Point :: Absolute([p], audioAt) ==
              if p.sample == PLACEHOLDER then [] else [Point(p.sample, p.at + audioAt)]
    decreases |more|
  {
    forall p: Point
      ensures Absolute([p], audioAt) ==
              if p.sample == PLACEHOLDER then [] else [Point(p.sample, p.at + audioAt)]
    {
      assert [p][..0] == [];
    }
    if more == [] {
      assert table + more == table;
    } else {
      var n, last := |more| - 1, more[|more| - 1];
      assert (table + more)[..|table| + n] == table + more[..n];
      AbsoluteKeeps(table, audioAt, more[..n]);
      Regroup(Absolute(table, audioAt), Absolute(more[..n], audioAt),
              if last.sample == PLACEHOLDER then [] else [Point(last.sample, last.at + audioAt)]);
    }
  }

  /** The frame a true point is the beginning of. */
  ghost function FrameOf(frames: seq<Frame>, audioAt: nat, p: Point): (k: nat)
    requires True(frames, audioAt, p)
    ensures k <= |frames| && p == Point(Start(frames, k), audioAt + Offset(frames, k))
  {
    var k: nat :| k <= |frames| && p == Point(Start(frames, k), audioAt + Offset(frames, k));
    k
  }

  datatype File = File(frames: seq<Frame>, audioAt: nat) {
    function PointOf(k: nat): Point
      requires k <= |frames|
    {
      Point(Start(frames, k), audioAt + Offset(frames, k))
    }

    function PacketOf(k: nat): Packet
      requires k < |frames|
    {
      Packet(0, frames[k].bytes, Start(frames, k), true, true)
    }

    ghost predicate Indexed(st: State) {
      st.at <= |frames| && st.index != [] && st.index[0].sample == 0 && st.since <= STRIDE &&
      forall i :: 0 <= i < |st.index| ==> True(frames, audioAt, st.index[i])
    }

    /** One call: what it answers, and where it leaves the reader. */
    ghost function One(st: State, call: Call): (r: (Answer, State))
      requires Indexed(st)
      ensures Indexed(r.1)
    {
      match call
      case SeekTo(frame) =>
        var best := Best(st.index, frame);
        (Sought, State(FrameOf(frames, audioAt, best), st.index, 0))
      case Read(buffer) =>
        if st.at == |frames| then (Replied(End), st)
        else if !Fits(buffer, |frames[st.at].bytes|) then (Replied(TooSmall(|frames[st.at].bytes|)), st)
        else
          assert True(frames, audioAt, PointOf(st.at));
          var (index, since) := Noted(st.index, st.since, PointOf(st.at));
          (Replied(Ok(PacketOf(st.at))), State(st.at + 1, index, since))
    }

    ghost function Answers(st: State, calls: seq<Call>): (r: seq<Answer>)
      requires Indexed(st)
      ensures |r| == |calls|
      decreases |calls|
    {
      if calls == [] then [] else [One(st, calls[0]).0] + Answers(One(st, calls[0]).1, calls[1..])
    }

    ghost function After(st: State, calls: seq<Call>): (r: State)
      requires Indexed(st)
      ensures Indexed(r)
      decreases |calls|
    {
      if calls == [] then st else After(One(st, calls[0]).1, calls[1..])
    }

    /** The index only grows, over every run of reads and seeks. */
    lemma {:induction false} IndexGrows(st: State, calls: seq<Call>)
      requires Indexed(st)
      ensures st.index <= After(st, calls).index
      decreases |calls|
    {
      if calls != [] {
        if st.at < |frames| {
          NotedGrows(st.index, st.since, PointOf(st.at));
        }
        IndexGrows(One(st, calls[0]).1, calls[1..]);
      }
    }

    /** A seek moves the reader to the greatest indexed sample at or before its target, and a read
        from there goes on frame by frame; a read that does not fit moves nothing. */
    lemma CallMoves(st: State, call: Call)
      requires Indexed(st)
      ensures var (answer, after) := One(st, call);
              match call
              case SeekTo(frame) =>
                after.index == st.index && after.since == 0 && answer.Sought? &&
                Start(frames, after.at) <= frame && PointOf(after.at) in st.index &&
                forall p :: p in st.index && p.sample <= frame ==> p.sample <= Start(frames, after.at)
              case Read(buffer) =>
                (st.at == |frames| ==> answer == Replied(End) && after == st) &&
                (st.at < |frames| && buffer.Room? && buffer.size >= |frames[st.at].bytes| ==>
                   answer == Replied(Ok(PacketOf(st.at))) && after.at == st.at + 1) &&
                (st.at < |frames| && (buffer.Null? || buffer.size < |frames[st.at].bytes|) ==>
                   answer == Replied(TooSmall(|frames[st.at].bytes|)) && after == st)
    {
      if call.SeekTo? {
        var best := Best(st.index, call.frame);
        forall p | p in st.index && p.sample <= call.frame ensures p.sample <= best.sample {
          var i :| 0 <= i < |st.index| && st.index[i] == p;
        }
      }
    }

    /** Position truth over every run: each packet handed over is one of the file's, at the sum of
        the block sizes of the frames before it. */
    lemma {:induction false} AnswersAreTrue(st: State, calls: seq<Call>, i: nat)
      requires Indexed(st) && i < |calls|
      ensures match Answers(st, calls)[i]
              case Replied(Ok(p)) => IsFrame(frames, p)
              case _ => true
      decreases |calls|
    {
      if i > 0 {
        AnswersAreTrue(One(st, calls[0]).1, calls[1..], i - 1);
      } else if st.at < |frames| {
        assert IsFrame(frames, PacketOf(st.at));
      }
    }
  }

  datatype Answer = Replied(reply: Reply) | Sought

  datatype State = State(at: nat, index: seq<Point>, since: nat)

  class Demux {
    const frames: seq<Frame>
    const audioAt: nat
    const fileBytes: nat

    /** libFLAC: the byte it has decoded up to, and the frame that begins there. */
    var offset: nat
    ghost var current: nat

    var position: nat
    var index: seq<Point>
    var sincePoint: nat

    ghost predicate Valid()
      reads this
    {
      Framed(frames) && audioAt + Offset(frames, |frames|) <= fileBytes &&
      current <= |frames| && offset == audioAt + Offset(frames, current) &&
      position == Start(frames, current) &&
      index != [] && index[0].sample == 0 &&
      (forall i :: 0 <= i < |index| ==> True(frames, audioAt, index[i])) &&
      sincePoint <= STRIDE
    }

    /** Every packet still to be handed over. */
    ghost function Upcoming(): seq<Packet>
      reads this
      requires Valid()
    {
      Packets(frames, current, position)
    }

    /** Opens on a file whose seek table, placeholders aside, tells the truth. */
    constructor (frames: seq<Frame>, audioAt: nat, fileBytes: nat, table: seq<Point>)
      requires Framed(frames) && audioAt + Offset(frames, |frames|) <= fileBytes
      requires forall i :: 0 <= i < |table| && table[i].sample != PLACEHOLDER ==>
        True(frames, 0, table[i])
      ensures Valid() && this.frames == frames && this.audioAt == audioAt
      ensures Upcoming() == Packets(frames, 0, 0) && sincePoint == 0
      ensures var points := Absolute(table, audioAt);
              index == if points == [] || points[0].sample != 0 then [Point(0, audioAt)] + points else points
    {
      this.frames, this.audioAt, this.fileBytes := frames, audioAt, fileBytes;
      offset, current, position, sincePoint := audioAt, 0, 0, 0;
      var points: seq<Point> := [];
      for i := 0 to |table|
        invariant forall j :: 0 <= j < |points| ==> True(frames, audioAt, points[j])
        invariant points == Absolute(table[..i], audioAt)
      {
        assert table[..i + 1][..i] == table[..i];
        if table[i].sample != PLACEHOLDER {
          ghost var k :| 0 <= k <= |frames| && table[i] == Point(Start(frames, k), 0 + Offset(frames, k));
          assert True(frames, audioAt, Point(table[i].sample, table[i].at + audioAt));
          points := points + [Point(table[i].sample, table[i].at + audioAt)];
        }
      }
      assert table[..|table|] == table;
      if points == [] || points[0].sample != 0 {
        assert Point(0, audioAt) == Point(Start(frames, 0), audioAt + Offset(frames, 0));
        points := [Point(0, audioAt)] + points;
      }
      index := points;
    }

    /** `restart_at`: libFLAC put back where a frame begins. */
    method RestartAt(at: nat, ghost k: nat)
      requires k <= |frames| && at == audioAt + Offset(frames, k)
      modifies this`offset, this`current
      ensures offset == at && current == k
    {
      offset, current := at, k;
    }

    /** `skip_single_frame`: one frame on, unless there is none. */
    method SkipFrame(ghost k: nat) returns (ok: bool)
      requires Framed(frames) && k <= |frames| && current == k && offset == audioAt + Offset(frames, k)
      modifies this`offset, this`current
      ensures ok <==> k < |frames|
      ensures ok ==> current == k + 1 && offset == audioAt + Offset(frames, k + 1)
      ensures !ok ==> current == k && offset == old(offset)
    {
      var n := FrameAt(offset, k);
      ok := n < |frames|;
      if ok {
        offset, current := offset + |frames[n].bytes|, k + 1;
      }
    }

    /** The frame libFLAC finds at an offset. */
    method FrameAt(at: nat, ghost k: nat) returns (n: nat)
      requires Framed(frames) && k <= |frames| && at == audioAt + Offset(frames, k)
      ensures n == k
    {
      n := 0;
      var here := audioAt;
      while here != at
        invariant n <= k && here == audioAt + Offset(frames, n)
        decreases k - n
      {
        here := here + |frames[n].bytes|;
        n := n + 1;
      }
      OnePlace(frames, n, k);
    }

    method Remember(sample: nat, at: nat)
      requires index != [] && index[0].sample == 0 && sincePoint <= STRIDE
      requires True(frames, audioAt, Point(sample, at))
      requires forall i :: 0 <= i < |index| ==> True(frames, audioAt, index[i])
      modifies this`index, this`sincePoint
      ensures index != [] && index[0].sample == 0 && sincePoint <= STRIDE
      ensures forall i :: 0 <= i < |index| ==> True(frames, audioAt, index[i])
      ensures (index, sincePoint) == Noted(old(index), old(sincePoint), Point(sample, at))
      ensures old(index) <= index
    {
      if sincePoint < STRIDE {
        sincePoint := sincePoint + 1;
        return;
      }
      sincePoint := 0;
      if sample > index[|index| - 1].sample {
        index := index + [Point(sample, at)];
      }
    }

    /** The next frame, or libFLAC put back in front of it. */
    method ReadPacket(buffer: Buffer) returns (reply: Reply)
      requires Valid()
      modifies this
      ensures Valid()
      ensures (reply, Upcoming()) == Serve(old(Upcoming()), buffer, Delivered)
      ensures (index, sincePoint) == if reply.Ok? then Noted(old(index), old(sincePoint), Point(old(position), old(offset)))
                                     else (old(index), old(sincePoint))
      ensures (Replied(reply), Now()) == File(frames, audioAt).One(old(Now()), Read(buffer))
    {
      ghost var queue, k := Upcoming(), current;
      var start := offset;
      if start >= fileBytes {
        if current < |frames| {
          OffsetGrows(frames, current, |frames|);
        }
        return End;
      }
      var skipped := SkipFrame(current);
      if !skipped {
        return End;
      }
      var length := offset - start;
      assert length == |frames[k].bytes|;
      if !Fits(buffer, length) {
        RestartAt(start, k);
        return TooSmall(length);
      }
      var n := FrameAt(start, k);
      var packet := Packet(0, frames[n].bytes, position, true, true);
      assert queue[1..] == Packets(frames, k + 1, position + frames[k].blocksize);
      assert Point(position, start) == Point(Start(frames, k), audioAt + Offset(frames, k));
      Remember(position, start);
      position := position + frames[n].blocksize;
      reply := Ok(packet);
    }

    /** To the greatest indexed sample at or before the target. */
    method Seek(frame: nat) returns (ghost best: Point)
      requires Valid()
      modifies this
      ensures Valid() && index == old(index)
      ensures (Sought, Now()) == File(frames, audioAt).One(old(Now()), SeekTo(frame))
      ensures best in index && best.sample <= frame
      ensures forall i :: 0 <= i < |index| && index[i].sample <= frame ==> index[i].sample <= best.sample
      ensures position == best.sample && offset == best.at && sincePoint == 0
      ensures Upcoming() == Packets(frames, current, Start(frames, current))
    {
      var found := index[0];
      for i := 0 to |index|
        invariant found == if i == 0 then index[0] else Best(index[..i], frame)
      {
        assert index[..i + 1][..i] == index[..i];
        if index[i].sample <= frame && index[i].sample >= found.sample {
          found := index[i];
        }
      }
      assert index[..|index|] == index;
      ghost var k := FrameOf(frames, audioAt, found);
      assert found == Point(Start(frames, k), audioAt + Offset(frames, k));
      RestartAt(found.at, k);
      position := found.sample;
      sincePoint := 0;
      best := found;
    }

    /** The reader between two calls. */
    ghost function Now(): State
      reads this
    {
      State(current, index, sincePoint)
    }

    /** Any run of reads, reads that do not fit, and seeks: every call answers what the frame the
        reader stands at and its index say, and the reader never loses count. */
    method Drive(calls: seq<Call>) returns (answers: seq<Answer>)
      requires Valid()
      modifies this
      ensures Valid() && old(index) <= index
      ensures answers == File(frames, audioAt).Answers(old(Now()), calls)
      ensures Now() == File(frames, audioAt).After(old(Now()), calls)
      decreases |calls|
    {
      File(frames, audioAt).IndexGrows(Now(), calls);
      if calls == [] {
        return [];
      }
      match calls[0] {
        case Read(buffer) =>
          var reply := ReadPacket(buffer);
          answers := [Replied(reply)];
        case SeekTo(frame) =>
          var best := Seek(frame);
          answers := [Sought];
      }
      var more := Drive(calls[1..]);
      answers := answers + more;
    }

    /** A host's run: one read for each buffer. */
    method ReadAll(buffers: seq<Buffer>) returns (replies: seq<Reply>)
      requires Valid()
      modifies this
      ensures Valid()
      ensures replies == Serves(old(Upcoming()), buffers, Delivered)
      ensures Upcoming() == Remaining(old(Upcoming()), buffers, Delivered)
      decreases |buffers|
    {
      if buffers == [] {
        return [];
      }
      var first := ReadPacket(buffers[0]);
      var others := ReadAll(buffers[1..]);
      replies := [first] + others;
    }
  }
}
