/** MP4 seeking: a target in one track's ticks, placed in every selected track by decode time,
    with nothing presented at or after it left behind. */
module Mp4Seek {
  import opened Delivery
  import opened Arith

  /** A track's sample table, one entry a sample: how long each lasts (`stts`), how far its
      presentation is ahead of its decoding (`ctts`, which may be missing or short), and the
      sync sample Bento4 answers with when asked for one at or before each (`stss`). */
  datatype Track = Track(timescale: nat, duration: nat, deltas: seq<nat>,
                         offsets: Option<seq<nat>>, syncs: seq<nat>)
  {
    /** What ISO/IEC 14496-12 asks of the tables: sections 8.6.1.2 and 8.6.2. */
    predicate Valid() {
      |syncs| == |deltas| &&
      (forall i :: 0 <= i < |deltas| ==> deltas[i] > 0) &&
      (forall i :: 0 <= i < |syncs| ==> syncs[i] <= i)
    }

    function Offset(i: nat): nat {
      if offsets.Some? && i < |offsets.value| && i < |deltas| then offsets.value[i] else 0
    }

    function Cts(i: nat): nat
      requires i < |deltas|
    {
      Dts(deltas, i) + Offset(i)
    }
  }

  function Dts(deltas: seq<nat>, i: nat): nat
    requires i <= |deltas|
  {
    if i == 0 then 0 else deltas[0] + Dts(deltas[1..], i - 1)
  }

  /** Bento4's lookup: the sample whose decode interval holds `ts`, if any does. */
  function IndexFor(deltas: seq<nat>, ts: nat): (r: Option<nat>)
    ensures r.Some? ==> r.value < |deltas|
  {
    if deltas == [] then None
    else if ts < deltas[0] then Some(0)
    else
      match IndexFor(deltas[1..], ts - deltas[0])
      case None => None
      case Some(i) => Some(i + 1)
  }

  lemma {:induction false} IndexForHolds(deltas: seq<nat>, ts: nat)
    ensures match IndexFor(deltas, ts)
            case None => Dts(deltas, |deltas|) <= ts
            case Some(i) => Dts(deltas, i) <= ts < Dts(deltas, i + 1)
  {
    if deltas != [] && ts >= deltas[0] {
      IndexForHolds(deltas[1..], ts - deltas[0]);
    }
  }

  lemma {:induction false} DtsGrows(deltas: seq<nat>, i: nat, j: nat)
    requires i < j <= |deltas| && forall k :: 0 <= k < |deltas| ==> deltas[k] > 0
    ensures Dts(deltas, i) < Dts(deltas, j)
  {
    if i > 0 {
      DtsGrows(deltas[1..], i - 1, j - 1);
    }
  }

  // ------------------------------------------------------------------
  // Restating a time
  // ------------------------------------------------------------------

  /** `restated`: `frame` counted in `to` ticks instead of `from` ticks, in 64 bits. */
  function Restated(frame: nat, from: nat, to: nat): nat {
    if from == 0 || to == 0 then 0
    else if from == to then frame
    else if frame != 0 && frame > (WORD - 1) / to then U64(Mul(frame / from, to))
    else Div(U64(Mul(frame, to)), from)
  }

  /** Multiplying first is only done where the product fits. */
  lemma ProductFits(frame: nat, to: nat)
    requires to > 0 && frame <= (WORD - 1) / to
    ensures frame * to < WORD
  {
    MulAtMost(frame, (WORD - 1) / to, to);
    Divided(WORD - 1, to);
  }

  /** Never above the exact ratio: `restated * from <= frame * to`, wrap or not. */
  lemma RestatedNeverAbove(frame: nat, from: nat, to: nat)
    ensures Restated(frame, from, to) * from <= frame * to
  {
    if from == 0 || to == 0 || from == to {
      assert frame * to >= 0;
    } else if frame != 0 && frame > (WORD - 1) / to {
      SecondsNotAbove(frame, from, to);
    } else {
      ProductFits(frame, to);
      Divided(frame * to, from);
    }
  }

  lemma SecondsNotAbove(frame: nat, from: nat, to: nat)
    requires from > 0
    ensures U64(Mul(frame / from, to)) * from <= frame * to
  {
    var q := frame / from;
    MulAtMost(U64(q * to), q * to, from);
    Divided(frame, from);
    MulAtMost(q * from, frame, to);
    assert q * to * from == q * from * to;
  }

  /** And where the exact ratio fits 64 bits, less than one second below it: exact while the
      product fits, short of the remainder past that. */
  lemma RestatedBarelyBelow(frame: nat, from: nat, to: nat)
    requires from > 0 && to > 0 && frame < WORD && frame * to / from < WORD
    ensures frame * to < (Restated(frame, from, to) + to) * from
    ensures frame * to < WORD ==> Restated(frame, from, to) == frame * to / from
  {
    if from == to {
      Distribute(frame, to, to);
      assert to * to > 0;
      ExactRatio(frame, from);
    } else if frame != 0 && frame > (WORD - 1) / to {
      ProductTooBig(frame, to);
      SecondsOnly(frame, from, to);
    } else {
      ProductFits(frame, to);
      RatioBarelyBelow(frame * to, from, to);
    }
  }

  lemma RatioBarelyBelow(product: nat, from: nat, to: nat)
    requires from > 0 && to > 0
    ensures product < (product / from + to) * from
  {
    Divided(product, from);
    Distribute(product / from, to, from);
    MulAtMost(1, to, from);
  }

  lemma ExactRatio(frame: nat, from: nat)
    requires from > 0
    ensures frame * from / from == frame
  {
    Quotient(frame * from, from, frame);
  }

  lemma ProductTooBig(frame: nat, to: nat)
    requires to > 0 && frame > (WORD - 1) / to
    ensures frame * to >= WORD
  {
    var q := (WORD - 1) / to;
    Divided(WORD - 1, to);
    MulAtMost(q + 1, frame, to);
    Distribute(q, 1, to);
  }

  lemma SecondsOnly(frame: nat, from: nat, to: nat)
    requires from > 0 && to > 0 && frame * to / from < WORD
    ensures U64(frame / from * to) == frame / from * to
    ensures frame * to < (frame / from * to + to) * from
  {
    var q, r := frame / from, frame % from;
    Divided(frame, from);
    Distribute(q * from, r, to);
    assert q * from * to == q * to * from;
    MulBelow(r, from, to);
    Distribute(q * to, to, from);
    assert from * to == to * from;
    Divided(frame * to, from);
    var exact := frame * to / from;
    if q * to >= WORD {
      Distribute(exact, 1, from);
      MulAtMost(exact + 1, q * to, from);
    }
  }

  // ------------------------------------------------------------------
  // Reordering
  // ------------------------------------------------------------------

  /** The largest composition offset of the first `n` samples. */
  function LargestOffset(track: Track, n: nat): (r: nat)
    ensures forall i :: 0 <= i < n ==> track.Offset(i) <= r
    ensures r == 0 || exists i :: 0 <= i < n && track.Offset(i) == r
  {
    if n == 0 then 0
    else
      var r := LargestOffset(track, n - 1);
      if track.Offset(n - 1) > r then track.Offset(n - 1) else r
  }

  /** An offset as long as the track cannot be one, and counts as none. */
  function Reach(track: Track): nat {
    var r := LargestOffset(track, |track.deltas|);
    if track.duration != 0 && r >= track.duration then 0 else r
  }

  /** What a reach is: the largest offset of the track, if that is shorter than the track, and
      nothing if it is not. */
  lemma ReachIs(track: Track)
    ensures Plausible(track) ==>
              (forall i :: 0 <= i < |track.deltas| ==> track.Offset(i) <= Reach(track)) &&
              (Reach(track) > 0 ==> exists i :: 0 <= i < |track.deltas| && track.Offset(i) == Reach(track))
    ensures !Plausible(track) ==> Reach(track) == 0
    ensures Plausible(track) <==>
              track.duration == 0 || forall i :: 0 <= i < |track.deltas| ==> track.Offset(i) < track.duration
  {
    var largest := LargestOffset(track, |track.deltas|);
    if largest > 0 {
      var i :| 0 <= i < |track.deltas| && track.Offset(i) == largest;
    }
  }

  /** Decode times are what `stts` adds up to, and a sample is presented its own `ctts` entry, if
      it has one, after it is decoded. */
  lemma Times(track: Track, i: nat)
    requires i < |track.deltas|
    ensures Dts(track.deltas, 0) == 0 && Dts(track.deltas, i + 1) - Dts(track.deltas, i) == track.deltas[i]
    ensures track.Cts(i) - Dts(track.deltas, i) ==
            if track.offsets.Some? && i < |track.offsets.value| then track.offsets.value[i] else 0
  {
    DtsStep(track.deltas, i);
  }

  lemma {:induction false} DtsStep(deltas: seq<nat>, i: nat)
    requires i < |deltas|
    ensures Dts(deltas, i + 1) == Dts(deltas, i) + deltas[i]
  {
    if i > 0 {
      DtsStep(deltas[1..], i - 1);
    }
  }

  ghost predicate Plausible(track: Track) {
    track.duration == 0 || LargestOffset(track, |track.deltas|) < track.duration
  }

  /** `sample_for`: where a track starts for a target of `frame` ticks of `rate`. */
  function SampleFor(track: Track, frame: nat, rate: nat): (r: nat)
    requires track.Valid()
    ensures r == 0 || r < |track.deltas|
  {
    var here := Restated(frame, rate, track.timescale);
    var target := if here > Reach(track) then here - Reach(track) else 0;
    match IndexFor(track.deltas, target)
    case None => 0
    case Some(i) => track.syncs[i]
  }

  /** Whether sample `i` is presented at or after `frame` ticks of `rate`. */
  predicate Wanted(track: Track, i: nat, frame: nat, rate: nat)
    requires i < |track.deltas|
  {
    track.Cts(i) * rate >= frame * track.timescale
  }

  /** No sample in front of the sync sample of sample `j` is presented as late as `j` is
      decoded, with the reach on top. */
  ghost predicate Covered(track: Track)
    requires track.Valid()
  {
    forall i, j :: 0 <= j < |track.deltas| && 0 <= i < track.syncs[j] ==>
      track.Cts(i) < Dts(track.deltas, j) + Reach(track)
  }

  ghost predicate NeverSkips(track: Track)
    requires track.Valid()
  {
    forall frame: nat, rate: nat, i: nat ::
      rate > 0 && i < |track.deltas| && Wanted(track, i, frame, rate) ==> SampleFor(track, frame, rate) <= i
  }

  /** No seek puts a track past a sample presented at or after its target, if and only if its
      tables are covered; a track with no timescale always starts at the beginning. */
  lemma NeverSkipsExactly(track: Track)
    requires track.Valid()
    ensures NeverSkips(track) <==> track.timescale == 0 || Covered(track)
  {
    if track.timescale == 0 || Covered(track) {
      forall frame: nat, rate: nat, i: nat
        | rate > 0 && i < |track.deltas| && Wanted(track, i, frame, rate)
        ensures SampleFor(track, frame, rate) <= i
      {
        PlacedNotLate(track, frame, rate, i);
      }
    } else {
      var i, j :| 0 <= j < |track.deltas| && 0 <= i < track.syncs[j] &&
                  track.Cts(i) >= Dts(track.deltas, j) + Reach(track);
      SkipsPast(track, i, j);
    }
  }

  /** No sample presented at or after the target lies before the place a track is put. */
  lemma PlacedNotLate(track: Track, frame: nat, rate: nat, i: nat)
    requires track.Valid() && rate > 0 && i < |track.deltas|
    requires track.timescale == 0 || Covered(track)
    requires Wanted(track, i, frame, rate)
    ensures SampleFor(track, frame, rate) <= i
  {
    hide LargestOffset, Reach;
    var here := Restated(frame, rate, track.timescale);
    WantedIsHere(track, frame, rate, i);
    var reach := Reach(track);
    var target := if here > reach then here - reach else 0;
    IndexForHolds(track.deltas, target);
  }

  lemma WantedIsHere(track: Track, frame: nat, rate: nat, i: nat)
    requires rate > 0 && i < |track.deltas| && Wanted(track, i, frame, rate)
    ensures track.Cts(i) >= Restated(frame, rate, track.timescale)
  {
    hide Restated;
    var here := Restated(frame, rate, track.timescale);
    RestatedNeverAbove(frame, rate, track.timescale);
    if track.Cts(i) < here {
      MulBelow(track.Cts(i), here, rate);
    }
  }

  /** And no earlier than it must: it is put at the sync sample of a sample that is decoded, or
      still being, at the target less the reach; at the beginning where nothing is. */
  lemma PlacedNotEarly(track: Track, frame: nat, rate: nat)
    requires track.Valid()
    ensures var at, from := SampleFor(track, frame, rate), Restated(frame, rate, track.timescale) - Reach(track);
            if from >= Dts(track.deltas, |track.deltas|) then at == 0
            else exists j :: 0 <= j < |track.deltas| && at == track.syncs[j] && from < Dts(track.deltas, j + 1) &&
                             (Dts(track.deltas, j) <= from || (from < 0 && j == 0))
  {
    var here, reach := Restated(frame, rate, track.timescale), Reach(track);
    var target := if here > reach then here - reach else 0;
    IndexForHolds(track.deltas, target);
    match IndexFor(track.deltas, target)
    case None =>
    case Some(j) =>
      if |track.deltas| > 0 {
        EndsLast(track.deltas, j + 1);
        if j > 0 {
          DtsGrows(track.deltas, 0, j);
        }
      }
  }

  lemma EndsLast(deltas: seq<nat>, i: nat)
    requires i <= |deltas| && forall k :: 0 <= k < |deltas| ==> deltas[k] > 0
    ensures Dts(deltas, i) <= Dts(deltas, |deltas|)
  {
    if i < |deltas| {
      DtsGrows(deltas, i, |deltas|);
    }
  }

  /** And otherwise some seek does: to the instant sample `j` is decoded, with the reach on top. */
  lemma SkipsPast(track: Track, i: nat, j: nat)
    requires track.Valid() && track.timescale > 0 && j < |track.deltas| && i < track.syncs[j]
    requires track.Cts(i) >= Dts(track.deltas, j) + Reach(track)
    ensures var frame := Dts(track.deltas, j) + Reach(track);
            Wanted(track, i, frame, track.timescale) && SampleFor(track, frame, track.timescale) > i
  {
    hide LargestOffset, Reach;
    var frame := Dts(track.deltas, j) + Reach(track);
    MulAtMost(frame, track.Cts(i), track.timescale);
    DtsGrows(track.deltas, 0, j);
    IndexForAt(track.deltas, j);
  }

  lemma {:induction false} IndexForAt(deltas: seq<nat>, j: nat)
    requires j < |deltas| && deltas[j] > 0
    ensures IndexFor(deltas, Dts(deltas, j)) == Some(j)
  {
    if j > 0 {
      IndexForAt(deltas[1..], j - 1);
    }
  }

  /** Any track whose largest offset is shorter than the track is covered. */
  lemma PlausibleIsCovered(track: Track)
    requires track.Valid() && Plausible(track)
    ensures Covered(track)
  {
    forall i, j | 0 <= j < |track.deltas| && 0 <= i < track.syncs[j]
      ensures track.Cts(i) < Dts(track.deltas, j) + Reach(track)
    {
      DtsGrows(track.deltas, i, j);
    }
  }

  /** Where the stated offset is as long as the track, the guarantee is gone: the first of two
      samples is shown second, and a seek to the instant between them starts after it. */
  lemma ZeroedReachSkips()
    ensures var track := Track(1, 2, [1, 1], Some([2, 0]), [0, 1]);
            track.Valid() && !Plausible(track) && !Covered(track) &&
            Wanted(track, 0, 1, 1) && SampleFor(track, 1, 1) == 1
  {
    var track := Track(1, 2, [1, 1], Some([2, 0]), [0, 1]);
    assert LargestOffset(track, 0) == 0;
    assert LargestOffset(track, 1) == 2;
    assert LargestOffset(track, 2) == 2;
    assert Dts(track.deltas, 1) == 1 && track.Cts(0) == 2 && Reach(track) == 0;
    assert track.syncs[1] == 1;
    assert track.deltas[1..] == [1];
    assert IndexFor([1], 0) == Some(0);
    assert IndexFor(track.deltas, 1) == Some(1);
  }
}
