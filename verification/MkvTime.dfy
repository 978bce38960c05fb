/** Matroska's clock: nanoseconds and frames, in 64 bits, and the cue a seek goes to. */
module MkvTime {
  import opened Arith

  const SECOND: nat := 1000000000
  /** `to_frames`: nanoseconds to frames, rounded half up, whole seconds first. */
  function ToFrames(ns: nat, rate: nat): nat {
    U64(U64(ns / SECOND * rate) + U64(U64(ns % SECOND * rate) + 500000000) / SECOND)
  }

  /** `frames_of`: the same rounded down; no rate, no frames. */
  function FramesOf(ns: nat, rate: nat): nat {
    if rate == 0 then 0
    else U64(U64(ns / SECOND * rate) + U64(ns % SECOND * rate) / SECOND)
  }

  /** The nanoseconds a seek to `frame` looks for. */
  function TargetNs(frame: nat, rate: nat): nat
    requires rate > 0
  {
    U64(U64(frame / rate * SECOND) + U64(frame % rate * SECOND) / rate)
  }

  /** The remainder product never wraps, at any 32-bit rate. */
  lemma RemainderFits(ns: nat, rate: nat)
    requires rate < 0x1_0000_0000
    ensures ns % SECOND * rate + 500000000 < WORD
  {
    if rate > 0 {
      MulBelow(ns % SECOND, SECOND, rate);
    }
  }

  lemma SplitProduct(ns: nat, rate: nat)
    ensures ns * rate == SECOND * (ns / SECOND * rate) + ns % SECOND * rate
  {
    var q, r := ns / SECOND, ns % SECOND;
    assert ns == q * SECOND + r;
    Distribute(q * SECOND, r, rate);
    assert q * SECOND * rate == SECOND * (q * rate);
  }

  /** The split form is the exact floor of the full product whenever that fits 64 bits. */
  lemma FramesOfExact(ns: nat, rate: nat)
    requires rate < 0x1_0000_0000 && ns * rate / SECOND < WORD
    ensures FramesOf(ns, rate) == ns * rate / SECOND
  {
    RemainderFits(ns, rate);
    SplitProduct(ns, rate);
    SumFits(ns / SECOND * rate, ns % SECOND * rate, SECOND, ns * rate / SECOND);
  }

  /** And the rounded one is the exact nearest, halves up. */
  lemma ToFramesExact(ns: nat, rate: nat)
    requires rate < 0x1_0000_0000 && (ns * rate + 500000000) / SECOND < WORD
    ensures ToFrames(ns, rate) == (ns * rate + 500000000) / SECOND
  {
    RemainderFits(ns, rate);
    SplitProduct(ns, rate);
    var part := ns % SECOND * rate;
    assert U64(part) == part;
    SumFits(ns / SECOND * rate, part + 500000000, SECOND, (ns * rate + 500000000) / SECOND);
    assert U64(part + 500000000) == part + 500000000;
  }

  lemma SplitTarget(frame: nat, rate: nat)
    requires rate > 0
    ensures frame / rate * SECOND + frame % rate * SECOND / rate == frame * SECOND / rate
  {
    var q, r := frame / rate, frame % rate;
    var t := r * SECOND / rate;
    Divided(frame, rate);
    Divided(r * SECOND, rate);
    var whole := q * SECOND;
    assert whole * rate == SECOND * (q * rate);
    assert frame * SECOND == whole * rate + r * SECOND;
    Distribute(whole, t, rate);
    Quotient(frame * SECOND, rate, whole + t);
  }

  lemma TargetNsExact(frame: nat, rate: nat)
    requires 0 < rate < 0x1_0000_0000 && frame * SECOND / rate < WORD
    ensures TargetNs(frame, rate) == frame * SECOND / rate
  {
    SplitTarget(frame, rate);
    Divided(frame, rate);
    TargetParts(frame / rate, frame % rate, rate, frame * SECOND / rate);
  }

  lemma TargetParts(whole: nat, left: nat, rate: nat, exact: nat)
    requires rate > 0 && left < 0x1_0000_0000 && whole * SECOND + left * SECOND / rate == exact < WORD
    ensures U64(U64(whole * SECOND) + U64(left * SECOND) / rate) == exact
  {
    var part := left * SECOND;
    assert part < WORD;
    SumFits(whole * SECOND, part, rate, exact);
  }

  /** What a muxer writes for `n` frames: the nanoseconds, truncated. */
  function MuxedNs(n: nat, rate: nat): nat
    requires rate > 0
  {
    n * SECOND / rate
  }

  /** `to_frames` gives back the count the muxer started with exactly when truncation threw
      away no more than half a nanosecond-second of frames. */
  lemma ToFramesUndoesMuxing(n: nat, rate: nat)
    requires 0 < rate < 0x1_0000_0000 && n < WORD
    ensures ToFrames(MuxedNs(n, rate), rate) == n <==> n * SECOND % rate <= 500000000
  {
    var ns, lost := MuxedNs(n, rate), n * SECOND % rate;
    Divided(n * SECOND, rate);
    assert ns * rate + lost == n * SECOND;
    assert (ns * rate + 500000000) / SECOND <= n;
    ToFramesExact(ns, rate);
  }

  /** Which every rate up to 5 * 10^8 guarantees. */
  lemma ToFramesAtRealRates(n: nat, rate: nat)
    requires 0 < rate <= 500000000 && n < WORD
    ensures ToFrames(MuxedNs(n, rate), rate) == n
  {
    ToFramesUndoesMuxing(n, rate);
    Divided(n * SECOND, rate);
  }

  /** Past that it need not: one frame at 1.1 * 10^9 a second is nought nanoseconds. */
  lemma ToFramesLosesAtHighRates()
    ensures MuxedNs(1, 1100000000) == 0 && ToFrames(0, 1100000000) == 0
  {
  }

  // ------------------------------------------------------------------
  // Cues
  // ------------------------------------------------------------------

  datatype Cue = Cue(ns: nat, at: nat)

  /** A seek index: never empty, starting at zero, every point the start of a cluster. */
  ghost predicate Ready(cues: seq<Cue>, clusters: set<nat>) {
    cues != [] && cues[0].ns == 0 && forall i :: 0 <= i < |cues| ==> cues[i].at in clusters
  }

  function Insert(cue: Cue, cues: seq<Cue>): seq<Cue> {
    if cues == [] then [cue]
    else if cue.ns <= cues[0].ns then [cue] + cues
    else [cues[0]] + Insert(cue, cues[1..])
  }

  /** A stable sort by time: of cues at one time, the one the file has first stays first. */
  function Sorted(cues: seq<Cue>): seq<Cue> {
    if cues == [] then [] else Insert(cues[0], Sorted(cues[1..]))
  }

  predicate Ordered(cues: seq<Cue>) {
    |cues| <= 1 || (cues[0].ns <= cues[1].ns && Ordered(cues[1..]))
  }

  lemma {:induction false} InsertOrdered(cue: Cue, cues: seq<Cue>)
    requires Ordered(cues)
    ensures Ordered(Insert(cue, cues))
  {
    if cues != [] && cue.ns > cues[0].ns {
      InsertOrdered(cue, cues[1..]);
    }
  }

  lemma {:induction false} InsertHolds(cue: Cue, cues: seq<Cue>)
    ensures multiset(Insert(cue, cues)) == multiset(cues) + multiset{cue}
  {
    if cues != [] && cue.ns > cues[0].ns {
      assert cues == [cues[0]] + cues[1..];
      InsertHolds(cue, cues[1..]);
    }
  }

  lemma {:induction false} SortedIsSorted(cues: seq<Cue>)
    ensures Ordered(Sorted(cues)) && multiset(Sorted(cues)) == multiset(cues)
  {
    if cues != [] {
      assert cues == [cues[0]] + cues[1..];
      SortedIsSorted(cues[1..]);
      InsertOrdered(cues[0], Sorted(cues[1..]));
      InsertHolds(cues[0], Sorted(cues[1..]));
    }
  }

  lemma SortedMembers(cues: seq<Cue>)
    ensures Ordered(Sorted(cues))
    ensures forall cue :: cue in Sorted(cues) <==> cue in cues
  {
    SortedIsSorted(cues);
    forall cue ensures cue in Sorted(cues) <==> cue in cues {
      assert cue in Sorted(cues) <==> cue in multiset(Sorted(cues));
      assert cue in cues <==> cue in multiset(cues);
    }
  }

  /** The file's cues, with their positions made absolute. */
  function Absolute(cues: seq<Cue>, segmentData: nat): (r: seq<Cue>)
    ensures |r| == |cues| && forall i :: 0 <= i < |r| ==> r[i] == Cue(cues[i].ns, cues[i].at + segmentData)
  {
    seq(|cues|, i requires 0 <= i < |cues| => Cue(cues[i].ns, cues[i].at + segmentData))
  }

  /** The end of `read_head`: positions made absolute, sorted, and a point at the start of the
      audio where the file wrote none. */
  method FinishCues(cues: seq<Cue>, segmentData: nat, firstCluster: nat, ghost clusters: set<nat>)
      returns (r: seq<Cue>)
    requires firstCluster in clusters
    requires forall i :: 0 <= i < |cues| ==> cues[i].at + segmentData in clusters
    ensures Ready(r, clusters) && Ordered(r)
    ensures r == Added(cues, firstCluster) + Sorted(Absolute(cues, segmentData))
    ensures multiset(r) == multiset(Absolute(cues, segmentData)) + multiset(Added(cues, firstCluster))
  {
    hide Sorted, Ordered, Added;
    r := [];
    for i := 0 to |cues|
      invariant |r| == i
      invariant forall j :: 0 <= j < i ==> r[j] == Cue(cues[j].ns, cues[j].at + segmentData)
    {
      r := r + [Cue(cues[i].ns, cues[i].at + segmentData)];
    }
    assert r == Absolute(cues, segmentData);
    Finished(cues, segmentData, firstCluster, clusters);
    r := Sorted(r);
    if r == [] || r[0].ns != 0 {
      r := [Cue(0, firstCluster)] + r;
    }
  }

  /** What sorting and the point in front come to. */
  lemma Finished(cues: seq<Cue>, segmentData: nat, firstCluster: nat, clusters: set<nat>)
    requires firstCluster in clusters
    requires forall i :: 0 <= i < |cues| ==> cues[i].at + segmentData in clusters
    ensures var sorted := Sorted(Absolute(cues, segmentData));
            var r := if sorted == [] || sorted[0].ns != 0 then [Cue(0, firstCluster)] + sorted else sorted;
            Ready(r, clusters) && Ordered(r) && r == Added(cues, firstCluster) + sorted &&
            multiset(r) == multiset(Absolute(cues, segmentData)) + multiset(Added(cues, firstCluster))
  {
    SortedIsSorted(Absolute(cues, segmentData));
    FirstIsZero(cues, segmentData);
    SortedInClusters(cues, segmentData, clusters);
    hide Sorted, Absolute, Ordered;
    assert [] + Sorted(Absolute(cues, segmentData)) == Sorted(Absolute(cues, segmentData));
    InFront(Cue(0, firstCluster), Sorted(Absolute(cues, segmentData)));
  }

  lemma SortedInClusters(cues: seq<Cue>, segmentData: nat, clusters: set<nat>)
    requires forall i :: 0 <= i < |cues| ==> cues[i].at + segmentData in clusters
    ensures var sorted := Sorted(Absolute(cues, segmentData));
            forall i :: 0 <= i < |sorted| ==> sorted[i].at in clusters
  {
    hide Sorted, Ordered;
    var absolute := Absolute(cues, segmentData);
    SortedMembers(absolute);
    var sorted := Sorted(absolute);
    forall i | 0 <= i < |sorted| ensures sorted[i].at in clusters {
      assert sorted[i] in absolute;
    }
  }

  lemma InFront(cue: Cue, cues: seq<Cue>)
    ensures multiset([cue] + cues) == multiset(cues) + multiset([cue])
    ensures Ordered(cues) && (cues != [] ==> cue.ns <= cues[0].ns) ==> Ordered([cue] + cues)
  {
    assert ([cue] + cues)[1..] == cues;
  }

  /** The point put in front, where no cue of the file is at zero. */
  function Added(cues: seq<Cue>, firstCluster: nat): seq<Cue> {
    if exists i :: 0 <= i < |cues| && cues[i].ns == 0 then [] else [Cue(0, firstCluster)]
  }

  lemma FirstIsZero(cues: seq<Cue>, segmentData: nat)
    ensures var r := Sorted(Absolute(cues, segmentData));
            (r != [] && r[0].ns == 0) <==> exists i :: 0 <= i < |cues| && cues[i].ns == 0
  {
    var absolute := Absolute(cues, segmentData);
    SortedMembers(absolute);
    var r := Sorted(absolute);
    if r != [] && r[0].ns == 0 {
      assert r[0] in absolute;
    }
    if i :| 0 <= i < |cues| && cues[i].ns == 0 {
      assert absolute[i] in r;
      FirstIsLeast(r, absolute[i]);
    }
  }

  lemma {:induction false} FirstIsLeast(cues: seq<Cue>, cue: Cue)
    requires Ordered(cues) && cue in cues
    ensures cues[0].ns <= cue.ns
  {
    if cue != cues[0] {
      FirstIsLeast(cues[1..], cue);
    }
  }

  /** The cue a seek goes to: the latest at or before the target. */
  method ChooseCue(cues: seq<Cue>, targetNs: nat) returns (best: Cue)
    requires cues != [] && cues[0].ns == 0
    ensures best in cues && best.ns <= targetNs
    ensures forall i :: 0 <= i < |cues| && cues[i].ns <= targetNs ==> cues[i].ns <= best.ns
  {
    best := cues[0];
    for i := 0 to |cues|
      invariant best in cues && best.ns <= targetNs
      invariant forall j :: 0 <= j < i && cues[j].ns <= targetNs ==> cues[j].ns <= best.ns
    {
      if cues[i].ns <= targetNs && cues[i].ns >= best.ns {
        best := cues[i];
      }
    }
  }

  /** A cue at or before the target never starts after the frame asked for. */
  lemma CueNeverLate(cueNs: nat, frame: nat, rate: nat)
    requires 0 < rate < 0x1_0000_0000 && frame * SECOND / rate < WORD && frame < WORD
    requires cueNs <= TargetNs(frame, rate)
    ensures FramesOf(cueNs, rate) <= frame
  {
    TargetNsExact(frame, rate);
    Divided(frame * SECOND, rate);
    MulAtMost(cueNs, frame * SECOND / rate, rate);
    assert cueNs * rate <= frame * SECOND;
    FramesOfExact(cueNs, rate);
  }
}
