/** The two demuxers that decode for themselves: bytes arrive in whatever pieces the pipeline
    makes, and leave as whole frames. */
module Rechunk {
  import opened Delivery
  import opened Arith

  datatype Result = Frames(bytes: nat) | TooSmallFor(needed: nat) | AtEnd | Failed

  /** The whole frames at the front of a stream. */
  function WholeFrames(s: Bytes, frame: nat): (r: Bytes)
    requires frame > 0
    ensures |r| <= |s| && r == s[..|r|]
  {
    assert |s| % frame <= |s| by { Divided(|s|, frame); }
    s[..|s| - |s| % frame]
  }

  function Least(a: nat, b: nat): nat {
    if a < b then a else b
  }

  /** How many of `room` bytes make whole frames: `n -= n % frame`. */
  function Usable(room: nat, frame: nat): (n: nat)
    requires frame > 0
    ensures n <= room
  {
    Divided(room, frame);
    room - room % frame
  }

  /** One `read_frames` of `left`: what the host gets, and what is left. A host is never given
      part of a frame, and what is short of one at the end is dropped. */
  function Deal(left: Bytes, frame: nat, room: nat): (Bytes, Bytes)
    requires frame > 0
  {
    var want := Usable(room, frame);
    if |left| >= want then (left[..want], left[want..]) else (WholeFrames(left, frame), [])
  }

  function ResultOf(left: Bytes, frame: nat, room: nat): Result
    requires frame > 0
  {
    if Usable(room, frame) == 0 then TooSmallFor(frame)
    else
      var got := Deal(left, frame, room).0;
      if got == [] then AtEnd else Frames(|got|)
  }

  /** Everything a host is given over a run of reads. */
  function Run(left: Bytes, frame: nat, rooms: seq<nat>): Bytes
    requires frame > 0
    decreases |rooms|
  {
    if rooms == [] then []
    else
      var (got, rest) := Deal(left, frame, rooms[0]);
      got + Run(rest, frame, rooms[1..])
  }

  function LeftAfter(left: Bytes, frame: nat, rooms: seq<nat>): Bytes
    requires frame > 0
    decreases |rooms|
  {
    if rooms == [] then left else LeftAfter(Deal(left, frame, rooms[0]).1, frame, rooms[1..])
  }

  lemma SameOver(n: nat, m: nat, frame: nat)
    requires frame > 0 && n <= m && n % frame == 0
    ensures (m - n) % frame == m % frame
  {
    Divided(n, frame);
    Divided(m, frame);
    var a, b := n / frame, m / frame;
    if b < a {
      MulAtMost(b + 1, a, frame);
      Distribute(b, 1, frame);
    }
    Distribute(b - a, a, frame);
    Quotient(m - n, frame, b - a);
    Divided(m - n, frame);
  }

  lemma UsableIsWhole(room: nat, frame: nat)
    requires frame > 0
    ensures Usable(room, frame) % frame == 0
  {
    Divided(room, frame);
    Quotient(room - room % frame, frame, room / frame);
    Divided(room - room % frame, frame);
  }

  lemma SplitAt(s: Bytes, k: nat, n: nat)
    requires k + n <= |s|
    ensures s[..k] + s[k..][..n] == s[..k + n]
  {
  }

  lemma DealKeeps(left: Bytes, frame: nat, room: nat)
    requires frame > 0
    ensures var (got, rest) := Deal(left, frame, room);
            got + WholeFrames(rest, frame) == WholeFrames(left, frame)
    ensures Usable(room, frame) > 0 && Deal(left, frame, room).0 == [] ==> WholeFrames(left, frame) == []
  {
    var want := Usable(room, frame);
    UsableIsWhole(room, frame);
    if |left| >= want {
      SameOver(want, |left|, frame);
      SplitAt(left, want, Usable(|left| - want, frame));
    } else {
      assert 0 % frame == 0 by { Quotient(0, frame, 0); Divided(0, frame); }
      assert WholeFrames([], frame) == [];
    }
  }

  /** The whole frames of anything are all but less than one frame of it; so are the bytes of a
      buffer that a read fills, if the stream has them. A read that has no room for a frame says so,
      one that finds none is at the end, and any other states how much it gives. */
  lemma ReadFillsRoom(left: Bytes, frame: nat, room: nat)
    requires frame > 0
    ensures Usable(room, frame) % frame == 0 && room - Usable(room, frame) < frame
    ensures |WholeFrames(left, frame)| % frame == 0 && |left| - |WholeFrames(left, frame)| < frame
    ensures |Deal(left, frame, room).0| == Least(Usable(room, frame), |WholeFrames(left, frame)|)
    ensures ResultOf(left, frame, room) ==
            if room < frame then TooSmallFor(frame)
            else if |left| < frame then AtEnd
            else Frames(|Deal(left, frame, room).0|)
  {
    UsableIsWhole(room, frame);
    UsableIsWhole(|left|, frame);
    Divided(room, frame);
    Divided(|left|, frame);
    NotLonger(room, frame);
    NotLonger(|left|, frame);
    if |left| >= Usable(room, frame) {
      DealKeeps(left, frame, room);
    } else {
      UsableMonotone(|left|, Usable(room, frame), frame);
    }
  }

  /** Less than a frame holds none, and a frame or more holds one. */
  lemma NotLonger(n: nat, frame: nat)
    requires frame > 0
    ensures Usable(n, frame) == 0 <==> n < frame
  {
    Divided(n, frame);
    if n < frame {
      Quotient(n, frame, 0);
    }
  }

  lemma UsableMonotone(n: nat, m: nat, frame: nat)
    requires frame > 0 && n <= m
    ensures Usable(n, frame) <= m
  {
  }

  /** Whatever the buffers are, what has been given and the whole frames still to come are the
      whole frames of the stream. */
  lemma {:induction false} NoFrameLost(left: Bytes, frame: nat, rooms: seq<nat>)
    requires frame > 0
    ensures Run(left, frame, rooms) + WholeFrames(LeftAfter(left, frame, rooms), frame) == WholeFrames(left, frame)
    decreases |rooms|
  {
    if rooms == [] {
      assert [] + WholeFrames(left, frame) == WholeFrames(left, frame);
    } else {
      hide Deal, WholeFrames;
      var (got, rest) := Deal(left, frame, rooms[0]);
      DealKeeps(left, frame, rooms[0]);
      NoFrameLost(rest, frame, rooms[1..]);
      Regroup(got, Run(rest, frame, rooms[1..]), WholeFrames(LeftAfter(rest, frame, rooms[1..]), frame));
    }
  }

  /** Once a buffer of at least a frame has met the end, every later one does. */
  lemma EndIsForEver(left: Bytes, frame: nat, room: nat, later: nat)
    requires frame > 0 && Usable(later, frame) > 0
    requires ResultOf(left, frame, room).AtEnd?
    ensures ResultOf(Deal(left, frame, room).1, frame, later).AtEnd?
    ensures WholeFrames(left, frame) == []
  {
    DealKeeps(left, frame, room);
    UsableIsWhole(room, frame);
    assert Deal(left, frame, room).1 == [];
    assert 0 % frame == 0 by { Quotient(0, frame, 0); Divided(0, frame); }
  }

  // ------------------------------------------------------------------
  // Media Foundation: samples
  // ------------------------------------------------------------------

  /** What `ReadSample` does: hands over a sample, possibly empty; reports a gap; or stops --
      the end, an error, or a change of type. */
  datatype Sample = Data(bytes: Bytes) | Gap | Stop

  function Source(script: seq<Sample>): Bytes {
    if script == [] || script[0].Stop? then []
    else (if script[0].Data? then script[0].bytes else []) + Source(script[1..])
  }

  /** A stream is what its samples hold, one after another: a gap is no bytes of it, and neither is
      anything from where it stops. */
  lemma {:induction false} SourceJoins(a: seq<Sample>, b: seq<Sample>)
    ensures Source(a + b) == Source(a) + if exists i :: 0 <= i < |a| && a[i].Stop? then [] else Source(b)
    ensures Source([Gap]) == [] == Source([Stop]) && forall bytes :: Source([Data(bytes)]) == bytes
    decreases |a|
  {
    OneSample();
    if a == [] {
      assert a + b == b && [] + Source(b) == Source(b);
    } else {
      assert (a + b)[0] == a[0] && (a + b)[1..] == a[1..] + b;
      SourceJoins(a[1..], b);
      if a[0].Stop? {
        assert exists i :: 0 <= i < |a| && a[i].Stop?;
      } else {
        if i :| 0 <= i < |a[1..]| && a[1..][i].Stop? {
          assert a[i + 1].Stop?;
        } else {
          assert forall i :: 0 < i < |a| ==> a[i] == a[1..][i - 1];
        }
        Regroup(if a[0].Data? then a[0].bytes else [], Source(a[1..]),
                if exists i :: 0 <= i < |a| && a[i].Stop? then [] else Source(b));
      }
    }
  }

  lemma OneSample()
    ensures Source([Gap]) == [] == Source([Stop]) && forall bytes :: Source([Data(bytes)]) == bytes
  {
    assert [Gap][1..] == [] && Source([]) == [];
    forall bytes ensures Source([Data(bytes)]) == bytes {
      assert [Data(bytes)][1..] == [] && bytes + [] == bytes;
    }
  }

  class MfReader {
    const frameBytes: nat
    var script: seq<Sample>
    var pending: Bytes
    var pendingOffset: nat
    var ended: bool

    ghost predicate Valid()
      reads this
    {
      frameBytes > 0 && pendingOffset <= |pending|
    }

    /** Every byte not handed over yet. */
    function Left(): Bytes
      reads this
      requires pendingOffset <= |pending|
    {
      pending[pendingOffset..] + if ended then [] else Source(script)
    }

    constructor (frameBytes: nat, script: seq<Sample>)
      requires frameBytes > 0
      ensures Valid() && Left() == Source(script) && this.frameBytes == frameBytes
    {
      this.frameBytes, this.script := frameBytes, script;
      pending, pendingOffset, ended := [], 0, false;
    }

    /** The next sample that holds anything, into `pending`. */
    method Refill() returns (more: bool)
      requires Valid() && pendingOffset == |pending|
      modifies this
      ensures Valid() && Left() == old(Left())
      ensures more ==> pendingOffset < |pending|
      ensures !more ==> Left() == []
    {
      if ended {
        return false;
      }
      while true
        invariant Valid() && !ended && pendingOffset == |pending| && Left() == old(Left())
        decreases |script|
      {
        if script == [] || script[0].Stop? {
          ended := true;
          return false;
        }
        var sample := script[0];
        script := script[1..];
        if sample.Data? {
          assert sample.bytes[0..] == sample.bytes;
          pending, pendingOffset := sample.bytes, 0;
          if |sample.bytes| != 0 {
            return true;
          }
        }
      }
    }

    /** `demux_read_frames`, into the host's buffer. */
    method ReadFrames(dst: array?<byte>) returns (result: Result)
      requires Valid()
      modifies this, dst
      ensures Valid()
      ensures var room := if dst == null then 0 else dst.Length;
              result == ResultOf(old(Left()), frameBytes, room) &&
              (result.TooSmallFor? ==> Left() == old(Left())) &&
              (!result.TooSmallFor? ==> Left() == Deal(old(Left()), frameBytes, room).1)
      ensures result.Frames? ==>
                result.bytes <= dst.Length && dst[..result.bytes] == Deal(old(Left()), frameBytes, dst.Length).0
    {
      hide Deal, WholeFrames, Usable;
      NoRoom(frameBytes);
      var want := if dst == null then 0 else Usable(dst.Length, frameBytes);
      if want == 0 {
        return TooSmallFor(frameBytes);
      }
      ghost var all := Left();
      ShortRead(all, frameBytes, dst.Length);
      var written := Fill(dst, want);
      ghost var got := dst[..written];
      written := Usable(written, frameBytes);
      assert dst[..written] == got[..written];
      result := if written == 0 then AtEnd else Frames(written);
    }

    /** A host's run: one read for each buffer. */
    method ReadAll(rooms: seq<nat>) returns (all: Bytes)
      requires Valid()
      modifies this
      ensures Valid()
      ensures all == Run(old(Left()), frameBytes, rooms) && Left() == LeftAfter(old(Left()), frameBytes, rooms)
      decreases |rooms|
    {
      if rooms == [] {
        return [];
      }
      hide Deal, WholeFrames, Usable;
      var dst := new byte[rooms[0]];
      DealtFrames(Left(), frameBytes, rooms[0]);
      var result := ReadFrames(dst);
      var got := if result.Frames? then dst[..result.bytes] else [];
      var more := ReadAll(rooms[1..]);
      all := got + more;
    }

    method Fill(dst: array<byte>, want: nat) returns (written: nat)
      requires Valid() && want <= dst.Length
      modifies this, dst
      ensures Valid() && written == Least(want, |old(Left())|)
      ensures dst[..written] == old(Left())[..written] && Left() == old(Left())[written..]
    {
      ghost var all := Left();
      written := 0;
      assert all[0..] == all;
      while written < want
        invariant Valid() && written <= want && written <= |all|
        invariant dst[..written] == all[..written] && Left() == all[written..]
        decreases want - written
      {
        if pendingOffset >= |pending| {
          var more := Refill();
          if !more {
            break;
          }
        }
        written := CopySome(dst, written, want, all);
      }
    }

    /** One copy out of `pending`. */
    method CopySome(dst: array<byte>, from: nat, want: nat, ghost all: Bytes) returns (written: nat)
      requires Valid() && from < want <= dst.Length && from <= |all| && pendingOffset < |pending|
      requires dst[..from] == all[..from] && Left() == all[from..]
      modifies this`pendingOffset, dst
      ensures Valid() && from < written <= want && written <= |all|
      ensures dst[..written] == all[..written] && Left() == all[written..]
    {
      hide Source;
      var available := |pending| - pendingOffset;
      var take := if available < want - from then available else want - from;
      ghost var tail, rest := pending[pendingOffset..], if ended then [] else Source(script);
      ghost var front := dst[..from];
      CopiedOn(all, from, tail, rest, take);
      Later(pending, pendingOffset, take);
      CopyOut(dst, from, pending, pendingOffset, take);
      assert front == all[..from];
      written := from + take;
      pendingOffset := pendingOffset + take;
    }
  }

  /** `memcpy`. */
  method CopyOut(dst: array<byte>, at: nat, src: Bytes, from: nat, n: nat)
    requires at + n <= dst.Length && from + n <= |src|
    modifies dst
    ensures dst[..at + n] == old(dst[..at]) + src[from..][..n]
  {
    forall i | 0 <= i < n {
      dst[at + i] := src[from + i];
    }
  }

  lemma Later(s: Bytes, at: nat, n: nat)
    requires at + n <= |s|
    ensures s[at..][n..] == s[at + n..]
  {
  }

  /** What is copied from the front of what is left. */
  lemma CopiedOn(all: Bytes, from: nat, tail: Bytes, rest: Bytes, take: nat)
    requires from <= |all| && all[from..] == tail + rest && take <= |tail|
    ensures from + take <= |all| && all[..from + take] == all[..from] + tail[..take]
    ensures all[from + take..] == tail[take..] + rest
  {
    CutFront(tail, rest, take);
    Later(all, from, take);
    SplitAt(all, from, take);
  }

  /** A host is dealt something exactly when it is told how much. */
  lemma DealtFrames(left: Bytes, frame: nat, room: nat)
    requires frame > 0
    ensures var (got, rest) := Deal(left, frame, room);
            match ResultOf(left, frame, room)
            case Frames(n) => n == |got| > 0
            case TooSmallFor(_) => got == [] && rest == left
            case AtEnd => got == []
            case Failed => false
  {
  }

  lemma NoRoom(frame: nat)
    requires frame > 0
    ensures Usable(0, frame) == 0
  {
    Divided(0, frame);
  }

  /** Cutting what a short read gave to whole frames is what a host is dealt. */
  lemma ShortRead(all: Bytes, frame: nat, room: nat)
    requires frame > 0 && Usable(room, frame) > 0
    ensures var got := Least(Usable(room, frame), |all|);
            var whole := Usable(got, frame);
            Deal(all, frame, room) == (all[..got][..whole], all[got..]) &&
            ResultOf(all, frame, room) == if whole == 0 then AtEnd else Frames(whole)
  {
    UsableIsWhole(room, frame);
    var got := Least(Usable(room, frame), |all|);
    var whole := Usable(got, frame);
    assert all[..got][..whole] == all[..whole];
    if |all| < Usable(room, frame) {
      assert all[|all|..] == [];
    }
  }

  // ------------------------------------------------------------------
  // FFmpeg: a pipe
  // ------------------------------------------------------------------

  /** The most one `ReadFile` asks for. */
  const ASK: nat := 0x10_0000

  function Flat(chunks: seq<Bytes>): Bytes {
    if chunks == [] then [] else chunks[0] + Flat(chunks[1..])
  }

  /** What is left of a chunk goes back in front. */
  function Back(chunk: Bytes, chunks: seq<Bytes>): seq<Bytes> {
    if chunk == [] then chunks else [chunk] + chunks
  }

  /** `Child::read` on what the child writes, write by write: a read of nothing ends it. */
  function PipeRead(chunks: seq<Bytes>, n: nat): (r: (Bytes, seq<Bytes>))
    ensures |r.0| <= n
    decreases n
  {
    if n == 0 || chunks == [] then ([], chunks)
    else if chunks[0] == [] then ([], chunks[1..])
    else
      var k := Least(Least(n, ASK), |chunks[0]|);
      var (more, rest) := PipeRead(Back(chunks[0][k..], chunks[1..]), n - k);
      (chunks[0][..k] + more, rest)
  }

  lemma PipeDone(chunks: seq<Bytes>)
    ensures PipeRead(chunks, 0) == ([], chunks)
  {
  }

  lemma PipeStep(chunks: seq<Bytes>, n: nat)
    requires n > 0
    ensures chunks == [] ==> PipeRead(chunks, n) == ([], chunks)
    ensures chunks != [] && chunks[0] == [] ==>
              PipeRead(chunks, n) == ([], Back(chunks[0][0..], chunks[1..]))
    ensures chunks != [] && chunks[0] != [] ==>
              var k := Least(Least(n, ASK), |chunks[0]|);
              var (more, rest) := PipeRead(Back(chunks[0][k..], chunks[1..]), n - k);
              PipeRead(chunks, n) == (chunks[0][..k] + more, rest)
  {
  }

  /** What the child writes before it writes nothing at all: on a message pipe that write is
      delivered, and reads as the end does. */
  function BeforeEmpty(chunks: seq<Bytes>): Bytes {
    if chunks == [] || chunks[0] == [] then [] else chunks[0] + BeforeEmpty(chunks[1..])
  }

  lemma {:induction false} BeforeEmptyIsFront(chunks: seq<Bytes>)
    ensures BeforeEmpty(chunks) <= Flat(chunks)
  {
    if chunks != [] && chunks[0] != [] {
      BeforeEmptyIsFront(chunks[1..]);
    }
  }

  lemma BackLeaves(chunks: seq<Bytes>, k: nat)
    requires chunks != [] && chunks[0] != [] && k <= |chunks[0]|
    ensures var back := Back(chunks[0][k..], chunks[1..]);
            k <= |BeforeEmpty(chunks)| && k <= |Flat(chunks)| &&
            Flat(back) == Flat(chunks)[k..] && BeforeEmpty(back) == BeforeEmpty(chunks)[k..]
    ensures BeforeEmpty(chunks)[..k] == chunks[0][..k]
  {
    var first, more := chunks[0], chunks[1..];
    OneChunk(chunks);
    BackInFront(first[k..], more);
    hide Flat, BeforeEmpty, Back;
    CutFront(first, Flat(more), k);
    CutFront(first, BeforeEmpty(more), k);
  }

  lemma OneChunk(chunks: seq<Bytes>)
    requires chunks != [] && chunks[0] != []
    ensures Flat(chunks) == chunks[0] + Flat(chunks[1..])
    ensures BeforeEmpty(chunks) == chunks[0] + BeforeEmpty(chunks[1..])
  {
  }

  lemma BackInFront(chunk: Bytes, more: seq<Bytes>)
    ensures Flat(Back(chunk, more)) == chunk + Flat(more)
    ensures BeforeEmpty(Back(chunk, more)) == chunk + BeforeEmpty(more)
  {
    if chunk == [] {
      assert chunk + Flat(more) == Flat(more) && chunk + BeforeEmpty(more) == BeforeEmpty(more);
    } else {
      assert Back(chunk, more)[1..] == more;
    }
  }

  lemma CutFront(front: Bytes, rest: Bytes, k: nat)
    requires k <= |front|
    ensures (front + rest)[k..] == front[k..] + rest && (front + rest)[..k] == front[..k]
  {
  }

  /** What a read of `n` got and left, when `front` comes before the first empty write. */
  predicate Gets(all: Bytes, front: Bytes, n: nat, got: Bytes, allLeft: Bytes, frontLeft: Bytes) {
    var k := Least(n, |front|);
    k <= |all| && got == front[..k] && allLeft == all[k..] &&
    (n <= |front| ==> frontLeft == front[n..])
  }

  /** A read of `k` bytes and one of the rest of `n` are a read of `n`. */
  lemma TwoReads(all: Bytes, front: Bytes, k: nat, n: nat, more: Bytes, allLeft: Bytes, frontLeft: Bytes)
    requires k <= n && k <= |front| && k <= |all|
    requires Gets(all[k..], front[k..], n - k, more, allLeft, frontLeft)
    ensures Gets(all, front, n, front[..k] + more, allLeft, frontLeft)
  {
  }

  /** However the bytes come, a read gets all it asked for, up to the end or the first empty
      write. */
  lemma {:induction false} PipeReadGets(chunks: seq<Bytes>, n: nat)
    ensures var (got, rest) := PipeRead(chunks, n);
            Gets(Flat(chunks), BeforeEmpty(chunks), n, got, Flat(rest), BeforeEmpty(rest))
    decreases n
  {
    hide Flat, BeforeEmpty, Back, PipeRead, Gets;
    if n == 0 || chunks == [] || chunks[0] == [] {
      ReadsNothing(chunks, n);
    } else {
      var k, back := PipeSome(chunks, n);
      PipeReadGets(back, n - k);
      var (more, rest) := PipeRead(back, n - k);
      TwoReads(Flat(chunks), BeforeEmpty(chunks), k, n, more, Flat(rest), BeforeEmpty(rest));
    }
  }

  /** One short read of a chunk, and what is left to read of. */
  lemma PipeSome(chunks: seq<Bytes>, n: nat) returns (k: nat, back: seq<Bytes>)
    requires n > 0 && chunks != [] && chunks[0] != []
    ensures 0 < k <= n && k <= |BeforeEmpty(chunks)| && k <= |Flat(chunks)|
    ensures Flat(back) == Flat(chunks)[k..] && BeforeEmpty(back) == BeforeEmpty(chunks)[k..]
    ensures var (more, rest) := PipeRead(back, n - k);
            PipeRead(chunks, n) == (BeforeEmpty(chunks)[..k] + more, rest)
  {
    hide Flat, BeforeEmpty, Back, PipeRead;
    PipeStep(chunks, n);
    k := Least(Least(n, ASK), |chunks[0]|);
    back := Back(chunks[0][k..], chunks[1..]);
    BackLeaves(chunks, k);
  }

  lemma ReadsNothing(chunks: seq<Bytes>, n: nat)
    requires n == 0 || chunks == [] || chunks[0] == []
    ensures var (got, rest) := PipeRead(chunks, n);
            Gets(Flat(chunks), BeforeEmpty(chunks), n, got, Flat(rest), BeforeEmpty(rest))
  {
  }

  /** Everything a host is given by a running child: a read of less than a frame ends it. */
  function PipeRun(chunks: seq<Bytes>, frame: nat, rooms: seq<nat>): Bytes
    requires frame > 0
    decreases |rooms|
  {
    if rooms == [] then []
    else
      var want := Usable(rooms[0], frame);
      if want == 0 then PipeRun(chunks, frame, rooms[1..])
      else
        var (read, rest) := PipeRead(chunks, want);
        var n := Usable(|read|, frame);
        if n == 0 then [] else read[..n] + PipeRun(rest, frame, rooms[1..])
  }

  /** No whole frame ends behind an empty write. */
  predicate Unbroken(chunks: seq<Bytes>, frame: nat)
    requires frame > 0
  {
    |WholeFrames(Flat(chunks), frame)| <= |BeforeEmpty(chunks)|
  }

  lemma {:induction false} TooShortForAny(chunks: seq<Bytes>, frame: nat, rooms: seq<nat>)
    requires frame > 0 && |Flat(chunks)| < frame
    ensures PipeRun(chunks, frame, rooms) == []
    decreases |rooms|
  {
    if rooms != [] {
      var want := Usable(rooms[0], frame);
      PipeReadGets(chunks, want);
      BeforeEmptyIsFront(chunks);
      UsableBelow(|PipeRead(chunks, want).0|, frame);
      if want == 0 {
        TooShortForAny(chunks, frame, rooms[1..]);
      }
    }
  }

  lemma UsableBelow(n: nat, frame: nat)
    requires 0 <= n < frame
    ensures Usable(n, frame) == 0
  {
    Quotient(n, frame, 0);
    Divided(n, frame);
  }

  lemma {:induction false} NothingFromNothing(frame: nat, rooms: seq<nat>)
    requires frame > 0
    ensures Run([], frame, rooms) == []
    decreases |rooms|
  {
    if rooms != [] {
      Divided(0, frame);
      NothingFromNothing(frame, rooms[1..]);
    }
  }

  /** The whole frames below `n` bytes are those of any `n` between them and the next. */
  lemma UsableBetween(whole: nat, n: nat, all: nat, frame: nat)
    requires frame > 0 && whole == Usable(all, frame) && whole <= n <= all
    ensures Usable(n, frame) == whole && all - whole < frame
  {
    UsableIsWhole(all, frame);
    Divided(all, frame);
    SameOver(whole, n, frame);
    Quotient(n - whole, frame, 0);
    Divided(n - whole, frame);
  }

  /** A host of an unbroken pipe gets what it would from the bytes laid end to end. */
  lemma {:induction false} UnbrokenKeeps(chunks: seq<Bytes>, frame: nat, rooms: seq<nat>)
    requires frame > 0 && Unbroken(chunks, frame)
    ensures PipeRun(chunks, frame, rooms) == Run(Flat(chunks), frame, rooms)
    decreases |rooms|
  {
    hide Flat, BeforeEmpty, PipeRead, WholeFrames, Run, PipeRun, Deal, Usable;
    var all, front := Flat(chunks), BeforeEmpty(chunks);
    if rooms == [] {
      NoRooms(chunks, all, frame);
    } else {
      var want := Usable(rooms[0], frame);
      var rest := PipeRead(chunks, want).1;
      BeforeEmptyIsFront(chunks);
      PipeReadGets(chunks, want);
      FirstRoom(chunks, all, frame, rooms);
      if want == 0 {
        NothingDealt(all, frame, rooms[0]);
        UnbrokenKeeps(chunks, frame, rooms[1..]);
      } else if want <= |front| {
        FullRead(all, front, frame, rooms[0]);
        UnbrokenKeeps(rest, frame, rooms[1..]);
      } else {
        LastRead(all, front, frame, rooms[0]);
        NothingFromNothing(frame, rooms[1..]);
        TooShortForAny(rest, frame, rooms[1..]);
      }
    }
  }

  lemma NoRooms(chunks: seq<Bytes>, all: Bytes, frame: nat)
    requires frame > 0
    ensures PipeRun(chunks, frame, []) == [] == Run(all, frame, [])
  {
  }

  lemma NothingDealt(all: Bytes, frame: nat, room: nat)
    requires frame > 0 && Usable(room, frame) == 0
    ensures Deal(all, frame, room) == ([], all)
    ensures forall more: Bytes :: [] + more == more
  {
  }

  /** The first read of a run, on both sides. */
  lemma FirstRoom(chunks: seq<Bytes>, all: Bytes, frame: nat, rooms: seq<nat>)
    requires frame > 0 && rooms != []
    ensures var (got, left) := Deal(all, frame, rooms[0]);
            Run(all, frame, rooms) == got + Run(left, frame, rooms[1..])
    ensures var want := Usable(rooms[0], frame);
            var (read, rest) := PipeRead(chunks, want);
            var n := Usable(|read|, frame);
            PipeRun(chunks, frame, rooms) ==
            if want == 0 then PipeRun(chunks, frame, rooms[1..])
            else if n == 0 then [] else read[..n] + PipeRun(rest, frame, rooms[1..])
  {
  }

  /** A read that gets all it asked for is dealt. */
  lemma FullRead(all: Bytes, front: Bytes, frame: nat, room: nat)
    requires frame > 0 && front <= all && 0 < Usable(room, frame) <= |front|
    requires |WholeFrames(all, frame)| <= |front|
    ensures var want := Usable(room, frame);
            Usable(want, frame) == want && front[..want][..want] == all[..want] &&
            Deal(all, frame, room) == (all[..want], all[want..]) &&
            |WholeFrames(all[want..], frame)| <= |front[want..]|
  {
    hide WholeFrames;
    var want := Usable(room, frame);
    UsableIsWhole(room, frame);
    UsableOfWhole(want, frame);
    DealKeeps(all, frame, room);
    assert front[..want] == all[..want] && all[..want][..want] == all[..want];
  }

  /** One that does not gets every whole frame there is, and leaves less than one. */
  lemma LastRead(all: Bytes, front: Bytes, frame: nat, room: nat)
    requires frame > 0 && front <= all && |front| < Usable(room, frame)
    requires |WholeFrames(all, frame)| <= |front|
    ensures var whole := Usable(|front|, frame);
            Deal(all, frame, room) == (front[..|front|][..whole], []) &&
            (whole == 0 ==> WholeFrames(all, frame) == []) && |all| - |front| < frame
  {
    var whole := |WholeFrames(all, frame)|;
    UsableIsWhole(room, frame);
    UsableBetween(whole, |front|, |all|, frame);
    if |all| >= Usable(room, frame) {
      DealKeeps(all, frame, room);
      assert false;
    }
    assert front[..|front|] == front && front[..whole] == all[..whole];
  }

  lemma UsableOfWhole(n: nat, frame: nat)
    requires frame > 0 && n % frame == 0
    ensures Usable(n, frame) == n
  {
  }

  /** Re-chunking a pipe keeps the stream, whatever the writes and the buffers, exactly when
      no whole frame ends behind an empty write. */
  lemma PipeKeepsExactly(chunks: seq<Bytes>, frame: nat)
    requires frame > 0
    ensures (forall rooms: seq<nat> :: PipeRun(chunks, frame, rooms) == Run(Flat(chunks), frame, rooms)) <==>
            Unbroken(chunks, frame)
  {
    if Unbroken(chunks, frame) {
      forall rooms: seq<nat> ensures PipeRun(chunks, frame, rooms) == Run(Flat(chunks), frame, rooms) {
        UnbrokenKeeps(chunks, frame, rooms);
      }
    } else {
      BrokenLoses(chunks, frame);
    }
  }

  lemma BrokenLoses(chunks: seq<Bytes>, frame: nat)
    requires frame > 0 && !Unbroken(chunks, frame)
    ensures var rooms := [|WholeFrames(Flat(chunks), frame)|];
            |PipeRun(chunks, frame, rooms)| < |Run(Flat(chunks), frame, rooms)|
  {
    var all := Flat(chunks);
    var whole := |WholeFrames(all, frame)|;
    UsableIsWhole(|all|, frame);
    UsableOfWhole(whole, frame);
    PipeReadGets(chunks, whole);
    var rooms := [whole];
    assert rooms[1..] == [];
    assert Run(all, frame, rooms) == all[..whole] + [];
    assert |PipeRun(chunks, frame, rooms)| <= |PipeRead(chunks, whole).0|;
  }

  class FfmpegReader {
    const frameBytes: nat

    /** The child: whether one was ever started, whether its pipe is open, and what it will
        write. */
    var started: bool
    var running: bool
    var chunks: seq<Bytes>

    var ended: bool
    var position: nat

    ghost predicate Valid()
      reads this
    {
      frameBytes > 0
    }

    constructor (frameBytes: nat)
      requires frameBytes > 0
      ensures Valid() && this.frameBytes == frameBytes && !started && !running && !ended && position == 0
    {
      this.frameBytes := frameBytes;
      started, running, chunks := false, false, [];
      ended, position := false, 0;
    }

    /** `start_at`, which is also the seek: a new child from `frame` on, or none. */
    method StartAt(frame: nat, child: Option<seq<Bytes>>) returns (ok: bool)
      modifies this
      ensures started && !ended && position == frame && ok == running == child.Some?
      ensures chunks == if child.Some? then child.value else []
    {
      position := frame;
      ended := false;
      started := true;
      running := child.Some?;
      chunks := if child.Some? then child.value else [];
      ok := running;
    }

    /** One `ReadFile`. */
    method ReadFile(want: nat) returns (got: Bytes)
      requires want > 0
      modifies this`chunks
      ensures old(chunks) == [] ==> got == [] && chunks == []
      ensures old(chunks) != [] ==>
                var k := Least(want, |old(chunks)[0]|);
                got == old(chunks)[0][..k] && chunks == Back(old(chunks)[0][k..], old(chunks)[1..])
    {
      if chunks == [] {
        return [];
      }
      var chunk := chunks[0];
      var k := Least(want, |chunk|);
      got := chunk[..k];
      chunks := Back(chunk[k..], chunks[1..]);
    }

    /** `Child::read`: until `n` bytes are there or the child closes its end. */
    method Read(dst: array<byte>, n: nat) returns (total: nat)
      requires n <= dst.Length
      modifies this`chunks, dst
      ensures total <= n && dst[..total] == PipeRead(old(chunks), n).0
      ensures chunks == PipeRead(old(chunks), n).1
    {
      hide PipeRead, Back;
      ghost var (all, rest) := PipeRead(chunks, n);
      total := 0;
      PipeDone(chunks);
      while total < n
        invariant total <= n
        invariant PipeRead(chunks, n - total).1 == rest
        invariant dst[..total] + PipeRead(chunks, n - total).0 == all
        decreases n - total
      {
        var want := Least(n - total, ASK);
        ghost var before, front := chunks, dst[..total];
        PipeStep(before, n - total);
        var got := ReadFile(want);
        if |got| == 0 {
          return;
        }
        forall i | 0 <= i < |got| {
          dst[total + i] := got[i];
        }
        assert dst[..total + |got|] == front + got;
        Regroup(front, got, PipeRead(chunks, n - total - |got|).0);
        total := total + |got|;
      }
      PipeDone(chunks);
    }

    /** `demux_read_frames`: a first read starts the child. */
    method ReadFrames(dst: array?<byte>, child: Option<seq<Bytes>>) returns (result: Result)
      requires Valid()
      modifies this, dst
      ensures Valid() && started
      ensures !old(started) && child.None? ==> result == Failed && !running && position == 0
      ensures old(started) || child.Some? ==>
                var (open, from, at) := if old(started) then (old(running) && !old(ended), old(chunks), old(position))
                                        else (true, child.value, 0);
                Served(result, dst, open, from, at)
    {
      if !started {
        var ok := StartAt(0, child);
        if !ok {
          return Failed;
        }
      }
      result := ReadStarted(dst);
    }

    /** What a read of a child comes to: whole frames of what its pipe gives, counted up, and the
        end remembered. */
    ghost predicate Served(result: Result, dst: array?<byte>, open: bool, from: seq<Bytes>, at: nat)
      reads this, dst
    {
      Valid() &&
      var want := Usable(if dst == null then 0 else dst.Length, frameBytes);
      var (read, rest) := PipeRead(from, want);
      var n := Usable(|read|, frameBytes);
      if !open then result == AtEnd && chunks == from && position == at
      else if want == 0 then result == TooSmallFor(frameBytes) && chunks == from && position == at && running && !ended
      else
        running && chunks == rest && ended == (n == 0) && position == at + n / frameBytes &&
        result == (if n == 0 then AtEnd else Frames(n)) &&
        (n > 0 ==> dst != null && n <= dst.Length && dst[..n] == read[..n])
    }

    method ReadStarted(dst: array?<byte>) returns (result: Result)
      requires Valid()
      modifies this, dst
      ensures Served(result, dst, old(running) && !old(ended), old(chunks), old(position))
      ensures started == old(started) && running == old(running) && (old(ended) ==> ended)
    {
      hide PipeRead, Usable;
      NoRoom(frameBytes);
      if !running || ended {
        return AtEnd;
      }
      var want := if dst == null then 0 else Usable(dst.Length, frameBytes);
      if want == 0 {
        return TooSmallFor(frameBytes);
      }
      var got := Read(dst, want);
      ghost var read := dst[..got];
      got := Usable(got, frameBytes);
      assert dst[..got] == read[..got];
      if got == 0 {
        ended := true;
        Quotient(0, frameBytes, 0);
        return AtEnd;
      }
      position := position + got / frameBytes;
      result := Frames(got);
    }

    /** A host's run over a child: one read for each buffer. */
    method ReadAll(rooms: seq<nat>) returns (all: Bytes)
      requires Valid()
      modifies this
      ensures Valid() && started == old(started) && running == old(running) && (old(ended) ==> ended)
      ensures all == if old(running) && !old(ended) then PipeRun(old(chunks), frameBytes, rooms) else []
      decreases |rooms|
    {
      if rooms == [] {
        return [];
      }
      hide PipeRead, Usable;
      NoRoom(frameBytes);
      var dst := new byte[rooms[0]];
      var result := ReadStarted(dst);
      var got := if result.Frames? then dst[..result.bytes] else [];
      var more := ReadAll(rooms[1..]);
      all := got + more;
    }
  }
}
