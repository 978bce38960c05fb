/** The Matroska walk: which packets a file holds, and the two ways of saying so -- the
    reader's, element by element, and the file's own structure. */
module MkvWalk {
  import opened Arith
  import opened Delivery
  import opened Patience
  import opened MkvTime

  /** A block: the track it names, its offset from its cluster, and its laced frames. */
  datatype Block = Block(track: nat, offset: int, laces: seq<Bytes>)

  /** An element as libebml finds it. A cluster states where it ends or does not; a
      BlockGroup may hold no block, or state more than it holds (`overruns`), and then reading
      it whole takes the header of whatever follows; an element the file ends inside does not
      fit. */
  datatype Kind =
    | Cluster(end: Option<nat>)
    | Top
    | Stamp(ts: nat, fits: bool)
    | Blocks(block: Option<Block>, fits: bool, overruns: bool)
    | Other

  datatype Elem = Elem(pos: nat, kind: Kind)

  datatype Track = Track(number: nat, video: bool, rate: nat)

  datatype File = File(tracks: seq<Track>, scale: nat) {
    function At(i: nat): (t: Track)
      ensures i < |tracks| ==> t == tracks[i]
    {
      if i < |tracks| then tracks[i] else Track(0, false, 0)
    }
  }

  /** How many elements one `next_block` looks at before giving up. */
  const GUARD: nat := 0x100_0000

  /** An element of the segment, which cannot be inside a cluster. */
  predicate IsTop(e: Elem) {
    e.kind.Cluster? || e.kind.Top?
  }

  /** Whether `e` is past the end of a cluster. */
  predicate EndsCluster(e: Elem, end: Option<nat>) {
    IsTop(e) || (end.Some? && e.pos >= end.value)
  }

  /** What a host chose to read. */
  datatype Choice = Choice(file: File, selected: seq<nat>) {
    /** `selected_by_number`: the first selected track of that number. */
    function SelectedBy(number: nat): (r: Option<nat>)
      ensures r.Some? ==> r.value in selected && file.At(r.value).number == number
      ensures r.None? ==> forall i :: i in selected ==> file.At(i).number != number
      decreases |selected|
    {
      if selected == [] then None
      else if file.At(selected[0]).number == number then Some(selected[0])
      else
        assert forall i :: i in selected ==> i == selected[0] || i in selected[1..];
        Choice(file, selected[1..]).SelectedBy(number)
    }

    /** Whether some stream being read is of that number. */
    ghost predicate Reads(number: nat) {
      exists i :: i in selected && file.At(i).number == number
    }

    /** The track a block belongs to, if it is being read. */
    function TrackOf(block: Option<Block>): (r: Option<nat>)
      ensures r.Some? ==> block.Some? && r.value in selected && file.At(r.value).number == block.value.track
      ensures r.Some? <==> block.Some? && Reads(block.value.track)
    {
      if block.None? then None else SelectedBy(block.value.track)
    }

    /** Where a block's first frame is, in its track's own units. */
    function Position(track: nat, ts: nat, offset: int): nat {
      var ns := U64((ts + offset) * file.scale);
      if file.At(track).video then ns else FramesOf(ns, file.At(track).rate)
    }

    /** The packets of a block from its `i`th lace on: only the first lace has a position. */
    function Laces(track: nat, ts: nat, block: Block, i: nat): seq<Packet>
      decreases |block.laces| - i
    {
      if i >= |block.laces| then []
      else
        [Packet(track, block.laces[i], if i == 0 then Position(track, ts, block.offset) else 0,
                i == 0, false)] +
        Laces(track, ts, block, i + 1)
    }
  }

  /** Between clusters, or in one: where it ends, and the timestamp it has stated. */
  datatype Mode = Between | In(end: Option<nat>, ts: Option<nat>)

  /** What happens at the next element of a walk: nothing further, a silent step (counted as
      a turn or not), or a block handed over. */
  datatype Step =
    | Stop
    | Quiet(turn: bool, rest: seq<Elem>, mode: Mode)
    | Yield(track: nat, ts: nat, block: Block, rest: seq<Elem>, mode: Mode)

  function AfterBlock(rest: seq<Elem>, overruns: bool, mode: Mode): Mode {
    if overruns && rest != [] && IsTop(rest[0]) then Between else mode
  }

  function Look(c: Choice, rest: seq<Elem>, mode: Mode): (s: Step)
    ensures s.Quiet? ==> |s.rest| < |rest| || (s.rest == rest && mode.In? && s.mode.Between?)
    ensures s.Yield? ==> |s.rest| < |rest|
    ensures s.Quiet? && mode.In? ==> s.turn
  {
    if rest == [] then Stop
    else
      var e := rest[0];
      if mode.Between? then
        Quiet(false, rest[1..], if e.kind.Cluster? then In(e.kind.end, None) else Between)
      else if EndsCluster(e, mode.end) then Quiet(true, rest, Between)
      else if e.kind.Stamp? then
        if e.kind.fits then Quiet(true, rest[1..], mode.(ts := Some(e.kind.ts))) else Stop
      else if e.kind.Blocks? then
        if !e.kind.fits then Stop
        else
          var block := e.kind.block;
          var next := AfterBlock(rest[1..], e.kind.overruns, mode);
          var track := c.TrackOf(block);
          if track.Some? && mode.ts.Some?
          then Yield(track.value, mode.ts.value, block.value, rest[1..], next)
          else Quiet(true, rest[1..], next)
      else Quiet(true, rest[1..], mode)
  }

  /** Every packet the reader hands over, having spent `idle` turns of the current search. */
  function Walk(c: Choice, rest: seq<Elem>, mode: Mode, idle: nat): seq<Packet>
    decreases |rest|, if mode.In? then 1 else 0
  {
    if idle >= GUARD then []
    else
      match Look(c, rest, mode)
      case Stop => []
      case Quiet(turn, more, next) => Walk(c, more, next, if turn then idle + 1 else idle)
      case Yield(track, ts, block, more, next) =>
        c.Laces(track, ts, block, 0) + Walk(c, more, next, 0)
  }

  /** One step of a walk that has turns left. */
  lemma WalkStep(c: Choice, rest: seq<Elem>, mode: Mode, idle: nat)
    requires idle < GUARD
    ensures match Look(c, rest, mode)
            case Stop => Walk(c, rest, mode, idle) == []
            case Quiet(turn, more, next) =>
              Walk(c, rest, mode, idle) == Walk(c, more, next, if turn then idle + 1 else idle)
            case Yield(track, ts, block, more, next) =>
              Walk(c, rest, mode, idle) == c.Laces(track, ts, block, 0) + Walk(c, more, next, 0)
  {
  }

  lemma LaceStep(c: Choice, track: nat, ts: nat, block: Block, i: nat)
    requires i < |block.laces|
    ensures c.Laces(track, ts, block, i) ==
            [Packet(track, block.laces[i], if i == 0 then c.Position(track, ts, block.offset) else 0, i == 0, false)] +
            c.Laces(track, ts, block, i + 1)
  {
  }

  lemma NoLaceLeft(c: Choice, track: nat, ts: nat, block: Block, i: nat)
    requires i >= |block.laces|
    ensures c.Laces(track, ts, block, i) == []
  {
  }

  lemma OutOfTurns(c: Choice, rest: seq<Elem>, mode: Mode)
    ensures Walk(c, rest, mode, GUARD) == []
  {
  }

  /** From the next cluster on. */
  function ToCluster(rest: seq<Elem>): (r: seq<Elem>)
    ensures |r| <= |rest| && (r != [] ==> r[0].kind.Cluster?)
  {
    if rest == [] || rest[0].kind.Cluster? then rest else ToCluster(rest[1..])
  }

  /** Between clusters nothing counts as a turn. */
  lemma {:induction false} WalkFromCluster(c: Choice, rest: seq<Elem>, idle: nat)
    requires idle < GUARD
    ensures var r := ToCluster(rest);
            Walk(c, rest, Between, idle) ==
            if r == [] then [] else Walk(c, r[1..], In(r[0].kind.end, None), idle)
  {
    if rest != [] && !rest[0].kind.Cluster? {
      WalkFromCluster(c, rest[1..], idle);
    }
  }

  /** The same with endless patience. */
  function Listing(c: Choice, rest: seq<Elem>, mode: Mode): seq<Packet>
    decreases |rest|, if mode.In? then 1 else 0
  {
    match Look(c, rest, mode)
    case Stop => []
    case Quiet(_, more, next) => Listing(c, more, next)
    case Yield(track, ts, block, more, next) =>
      c.Laces(track, ts, block, 0) + Listing(c, more, next)
  }

  /** The turns a walk takes: blocks handed over, and turns that find none. */
  function Turns(c: Choice, rest: seq<Elem>, mode: Mode): (r: seq<Turn>)
    ensures |r| <= 2 * |rest| + if mode.In? then 1 else 0
    decreases |rest|, if mode.In? then 1 else 0
  {
    match Look(c, rest, mode)
    case Stop => []
    case Quiet(turn, more, next) => (if turn then [Idle] else []) + Turns(c, more, next)
    case Yield(_, _, block, more, next) => [Finds(|block.laces|)] + Turns(c, more, next)
  }

  /** One step, on both sides. */
  lemma ListingStep(c: Choice, rest: seq<Elem>, mode: Mode)
    ensures match Look(c, rest, mode)
            case Stop => Listing(c, rest, mode) == [] && Turns(c, rest, mode) == []
            case Quiet(turn, more, next) =>
              Listing(c, rest, mode) == Listing(c, more, next) &&
              Turns(c, rest, mode) == (if turn then [Idle] else []) + Turns(c, more, next)
            case Yield(track, ts, block, more, next) =>
              Listing(c, rest, mode) == c.Laces(track, ts, block, 0) + Listing(c, more, next) &&
              Turns(c, rest, mode) == [Finds(|block.laces|)] + Turns(c, more, next)
  {
  }

  lemma {:induction false} LacesCount(c: Choice, track: nat, ts: nat, block: Block, i: nat)
    requires i <= |block.laces|
    ensures |c.Laces(track, ts, block, i)| == |block.laces| - i
    decreases |block.laces| - i
  {
    if i < |block.laces| {
      LacesCount(c, track, ts, block, i + 1);
    }
  }

  lemma {:induction false} CountsListing(c: Choice, rest: seq<Elem>, mode: Mode)
    ensures Count(Turns(c, rest, mode)) == |Listing(c, rest, mode)|
    decreases |rest|, if mode.In? then 1 else 0
  {
    hide Look, Listing, Turns, Choice.Laces;
    ListingStep(c, rest, mode);
    match Look(c, rest, mode)
    case Stop =>
    case Quiet(turn, more, next) =>
      CountsListing(c, more, next);
      CountFirst(Idle, Turns(c, more, next));
      NoTurn(Turns(c, more, next));
    case Yield(track, ts, block, more, next) =>
      CountsListing(c, more, next);
      LacesCount(c, track, ts, block, 0);
      CountFirst(Finds(|block.laces|), Turns(c, more, next));
  }

  lemma CountFirst(turn: Turn, more: seq<Turn>)
    ensures Count([turn] + more) == (if turn.Finds? then turn.count else 0) + Count(more)
    ensures forall idle: nat, guard: nat :: idle < guard ==>
              Patient([turn] + more, idle, guard) == Patient(more, if turn.Finds? then 0 else idle + 1, guard)
  {
    assert ([turn] + more)[1..] == more;
  }

  /** The reader hands over a prefix of the listing, and all of it exactly when no frame lies
      behind `GUARD` turns that find no block. */
  lemma {:induction false} WalkIsListing(c: Choice, rest: seq<Elem>, mode: Mode, idle: nat)
    ensures Walk(c, rest, mode, idle) <= Listing(c, rest, mode)
    ensures Walk(c, rest, mode, idle) == Listing(c, rest, mode)
            <==> Patient(Turns(c, rest, mode), idle, GUARD)
    decreases |rest|, if mode.In? then 1 else 0
  {
    hide Look, Listing, Turns, Choice.Laces;
    if idle >= GUARD {
      GivenUp(c, rest, mode, idle);
      CountsListing(c, rest, mode);
    } else {
      hide Walk;
      ListingStep(c, rest, mode);
      WalkStep(c, rest, mode, idle);
      match Look(c, rest, mode)
      case Stop =>
      case Quiet(turn, more, next) =>
        WalkIsListing(c, more, next, if turn then idle + 1 else idle);
        CountFirst(Idle, Turns(c, more, next));
        NoTurn(Turns(c, more, next));
      case Yield(track, ts, block, more, next) =>
        WalkIsListing(c, more, next, 0);
        CountFirst(Finds(|block.laces|), Turns(c, more, next));
        SameTail(c.Laces(track, ts, block, 0), Walk(c, more, next, 0), Listing(c, more, next));
    }
  }

  lemma GivenUp(c: Choice, rest: seq<Elem>, mode: Mode, idle: nat)
    requires idle >= GUARD
    ensures Walk(c, rest, mode, idle) == []
  {
  }

  lemma SameTail<T>(a: seq<T>, b: seq<T>, c: seq<T>)
    ensures a + b == a + c <==> b == c
    ensures a + b <= a + c <==> b <= c
  {
    assert (a + b)[|a|..] == b && (a + c)[|a|..] == c;
    if a + b <= a + c {
      assert (a + c)[..|a + b|][|a|..] == c[..|b|];
    }
  }

  /** A file of fewer than 2^23 elements is always walked to the end. */
  lemma SmallFile(c: Choice, rest: seq<Elem>, mode: Mode)
    requires 2 * |rest| < GUARD
    ensures Walk(c, rest, mode, 0) == Listing(c, rest, mode)
  {
    FewTurns(Turns(c, rest, mode), 0, GUARD);
    WalkIsListing(c, rest, mode, 0);
  }

  // ------------------------------------------------------------------
  // The file's own structure
  // ------------------------------------------------------------------

  /** A segment as a muxer writes it: clusters, of stated size or not, and between them elements
      of the segment's own or ones that may stand anywhere, as a Void may. */
  datatype Part = Aside(global: bool) | ACluster(known: bool, children: seq<Kind>)

  predicate IsChild(kind: Kind) {
    match kind
    case Stamp(_, fits) => fits
    case Blocks(_, fits, _) => fits
    case Other => true
    case _ => false
  }

  predicate WellFormed(parts: seq<Part>) {
    forall i, k :: 0 <= i < |parts| && parts[i].ACluster? && 0 <= k < |parts[i].children| ==>
      IsChild(parts[i].children[k])
  }

  /** The elements of a cluster, one position each. */
  function Placed(children: seq<Kind>, at: nat): seq<Elem> {
    if children == [] then [] else [Elem(at, children[0])] + Placed(children[1..], at + 1)
  }

  /** The segment as the flat list of elements libebml meets. */
  function Layout(parts: seq<Part>, at: nat): seq<Elem> {
    if parts == [] then []
    else
      match parts[0]
      case Aside(global) => [Elem(at, if global then Other else Top)] + Layout(parts[1..], at + 1)
      case ACluster(known, children) =>
        var end := at + 1 + |children|;
        [Elem(at, Cluster(if known then Some(end) else None))] + Placed(children, at + 1) +
        Layout(parts[1..], end)
  }

  /** The packets of one element of a cluster: those of a block of a selected track, behind
      a timestamp. */
  function ChildPackets(c: Choice, child: Kind, ts: Option<nat>): seq<Packet>
  {
    if child.Blocks? && c.TrackOf(child.block).Some? && ts.Some? then
      c.Laces(c.TrackOf(child.block).value, ts.value, child.block.value, 0)
    else []
  }

  function StampAfter(child: Kind, ts: Option<nat>): Option<nat> {
    if child.Stamp? then Some(child.ts) else ts
  }

  /** The packets of a cluster, each against the last timestamp before it. */
  function ClusterPackets(c: Choice, children: seq<Kind>, ts: Option<nat>): seq<Packet>
  {
    if children == [] then []
    else ChildPackets(c, children[0], ts) + ClusterPackets(c, children[1..], StampAfter(children[0], ts))
  }

  function FilePackets(c: Choice, parts: seq<Part>): seq<Packet>
  {
    if parts == [] then []
    else (if parts[0].ACluster? then ClusterPackets(c, parts[0].children, None) else []) +
         FilePackets(c, parts[1..])
  }

  // What the packets of a cluster are, without the functions above

  /** The timestamp last stated among `children`, or else `ts`. */
  ghost predicate Stamped(children: seq<Kind>, ts: Option<nat>, last: Option<nat>) {
    if exists j :: 0 <= j < |children| && children[j].Stamp? then
      exists j :: 0 <= j < |children| && children[j].Stamp? && last == Some(children[j].ts) &&
                  forall k :: j < k < |children| ==> !children[k].Stamp?
    else last == ts
  }

  function LastStamp(children: seq<Kind>, ts: Option<nat>): Option<nat> {
    if children == [] then ts else LastStamp(children[1..], StampAfter(children[0], ts))
  }

  lemma {:induction false} LastStampIs(children: seq<Kind>, ts: Option<nat>)
    ensures Stamped(children, ts, LastStamp(children, ts))
    decreases |children|
  {
    if children != [] {
      var rest := children[1..];
      var now := StampAfter(children[0], ts);
      LastStampIs(rest, now);
      if j :| 0 <= j < |rest| && rest[j].Stamp? {
        var last :| 0 <= last < |rest| && rest[last].Stamp? && LastStamp(children, ts) == Some(rest[last].ts) &&
                    forall k :: last < k < |rest| ==> !rest[k].Stamp?;
        assert children[last + 1] == rest[last];
        forall k | last + 1 < k < |children| ensures !children[k].Stamp? {
          assert children[k] == rest[k - 1];
        }
      } else {
        forall k | 0 < k < |children| ensures !children[k].Stamp? {
          assert children[k] == rest[k - 1];
        }
        if children[0].Stamp? {
          assert LastStamp(children, ts) == Some(children[0].ts);
        }
      }
    }
  }

  /** The packets of a cluster are those of its elements in order, each against the timestamp last
      stated in front of it. */
  lemma {:induction false} ClusterInOrder(c: Choice, children: seq<Kind>, k: nat, ts: Option<nat>)
      returns (last: Option<nat>)
    requires k <= |children|
    ensures Stamped(children[..k], ts, last)
    ensures ClusterPackets(c, children, ts) == ClusterPackets(c, children[..k], ts) + ClusterPackets(c, children[k..], last)
  {
    last := LastStamp(children[..k], ts);
    LastStampIs(children[..k], ts);
    ClusterSplits(c, children[..k], children[k..], ts);
    assert children[..k] + children[k..] == children;
  }

  lemma {:induction false} ClusterSplits(c: Choice, a: seq<Kind>, b: seq<Kind>, ts: Option<nat>)
    ensures ClusterPackets(c, a + b, ts) == ClusterPackets(c, a, ts) + ClusterPackets(c, b, LastStamp(a, ts))
    decreases |a|
  {
    hide ChildPackets, StampAfter;
    if a == [] {
      assert a + b == b && [] + ClusterPackets(c, b, ts) == ClusterPackets(c, b, ts);
    } else {
      assert (a + b)[0] == a[0] && (a + b)[1..] == a[1..] + b;
      var now := StampAfter(a[0], ts);
      ClusterSplits(c, a[1..], b, now);
      Regroup(ChildPackets(c, a[0], ts), ClusterPackets(c, a[1..], now), ClusterPackets(c, b, LastStamp(a, ts)));
    }
  }

  /** Those of one element: of a block of a number being read, behind a timestamp, every frame in
      order, of a selected stream of that number, only the first with a position; and of anything
      else none. */
  lemma ElementPackets(c: Choice, child: Kind, ts: Option<nat>)
    ensures var r := ClusterPackets(c, [child], ts);
            if child.Blocks? && child.block.Some? && ts.Some? && c.Reads(child.block.value.track) then
              |r| == |child.block.value.laces| &&
              forall l :: 0 <= l < |r| ==>
                r[l].bytes == child.block.value.laces[l] &&
                r[l].stream in c.selected && c.file.At(r[l].stream).number == child.block.value.track &&
                (r[l].timed <==> l == 0) &&
                (l == 0 ==> r[l].frame == c.Position(r[l].stream, ts.value, child.block.value.offset))
            else r == []
  {
    assert [child][1..] == [] && ClusterPackets(c, [], StampAfter(child, ts)) == [];
    var r := ClusterPackets(c, [child], ts);
    assert r == ChildPackets(c, child, ts);
    if child.Blocks? && child.block.Some? && ts.Some? && c.Reads(child.block.value.track) {
      var track := c.TrackOf(child.block).value;
      forall l | 0 <= l < |child.block.value.laces|
        ensures |r| == |child.block.value.laces| && r[l] == LaceOf(c, track, ts.value, child.block.value, l)
      {
        LacesAre(c, track, ts.value, child.block.value, 0, l);
      }
      LacesCount(c, track, ts.value, child.block.value, 0);
    }
  }

  function LaceOf(c: Choice, track: nat, ts: nat, block: Block, l: nat): Packet
    requires l < |block.laces|
  {
    Packet(track, block.laces[l], if l == 0 then c.Position(track, ts, block.offset) else 0, l == 0, false)
  }

  lemma {:induction false} LacesAre(c: Choice, track: nat, ts: nat, block: Block, i: nat, l: nat)
    requires i <= l < |block.laces|
    ensures |c.Laces(track, ts, block, i)| == |block.laces| - i
    ensures c.Laces(track, ts, block, i)[l - i] == LaceOf(c, track, ts, block, l)
    decreases |block.laces| - i
  {
    LacesCount(c, track, ts, block, i);
    if i < l {
      LacesAre(c, track, ts, block, i + 1, l);
    }
  }

  /** The packets of a file are those of its clusters, in order; each cluster's are its own, with no
      timestamp to begin with, so that a block in front of it is no packet. */
  lemma {:induction false} FileInOrder(c: Choice, a: seq<Part>, b: seq<Part>)
    ensures FilePackets(c, a + b) == FilePackets(c, a) + FilePackets(c, b)
    ensures forall global :: FilePackets(c, [Aside(global)]) == []
    ensures forall known, children :: FilePackets(c, [ACluster(known, children)]) == ClusterPackets(c, children, None)
    decreases |a|
  {
    OnePart(c);
    if a == [] {
      assert a + b == b && [] + FilePackets(c, b) == FilePackets(c, b);
    } else {
      assert (a + b)[0] == a[0] && (a + b)[1..] == a[1..] + b;
      FileInOrder(c, a[1..], b);
      Regroup(if a[0].ACluster? then ClusterPackets(c, a[0].children, None) else [],
              FilePackets(c, a[1..]), FilePackets(c, b));
    }
  }

  lemma OnePart(c: Choice)
    ensures forall global :: FilePackets(c, [Aside(global)]) == []
    ensures forall known, children :: FilePackets(c, [ACluster(known, children)]) == ClusterPackets(c, children, None)
  {
    assert FilePackets(c, []) == [];
    forall global ensures FilePackets(c, [Aside(global)]) == [] {
      assert [Aside(global)][1..] == [];
    }
    forall known, children
      ensures FilePackets(c, [ACluster(known, children)]) == ClusterPackets(c, children, None)
    {
      assert [ACluster(known, children)][1..] == [];
      assert ClusterPackets(c, children, None) + [] == ClusterPackets(c, children, None);
    }
  }

  /** A position in a stream's own units: nanoseconds of a video track, and of an audio track the
      frames that have begun by then. */
  lemma PositionExact(c: Choice, track: nat, ts: nat, offset: int)
    requires 0 <= (ts + offset) * c.file.scale < WORD
    requires !c.file.At(track).video ==>
      c.file.At(track).rate < 0x1_0000_0000 && (ts + offset) * c.file.scale * c.file.At(track).rate / SECOND < WORD
    ensures var ns := (ts + offset) * c.file.scale;
            c.Position(track, ts, offset) ==
            if c.file.At(track).video then ns else ns * c.file.At(track).rate / SECOND
  {
    if !c.file.At(track).video {
      FramesOfExact((ts + offset) * c.file.scale, c.file.At(track).rate);
    }
  }

  /** Nothing at or behind the end a cluster states is looked at as part of it. */
  lemma StatedEndEnds(c: Choice, rest: seq<Elem>, end: nat, ts: Option<nat>)
    requires rest != [] && rest[0].pos >= end
    ensures Listing(c, rest, In(Some(end), ts)) == Listing(c, rest, Between)
  {
  }

  /** A file cut short inside an element of a cluster is read no further. */
  lemma CutShort(c: Choice, rest: seq<Elem>, end: Option<nat>, ts: Option<nat>)
    requires rest != [] && (end.Some? ==> rest[0].pos < end.value)
    requires match rest[0].kind
             case Stamp(_, fits) => !fits
             case Blocks(_, fits, _) => !fits
             case _ => false
    ensures Listing(c, rest, In(end, ts)) == []
  {
  }

  /** A cluster is walked child by child and then left, whether it states its size or not,
      and whether its last block group runs into what follows or not. */
  lemma {:induction false} ClusterWalk(c: Choice, children: seq<Kind>, at: nat, end: Option<nat>,
                                       ts: Option<nat>, tail: seq<Elem>)
    requires forall k :: 0 <= k < |children| ==> IsChild(children[k])
    requires end.Some? ==> end.value == at + |children|
    requires LeadsOut(tail)
    ensures Listing(c, Placed(children, at) + tail, In(end, ts)) ==
            ClusterPackets(c, children, ts) + Listing(c, tail, Between)
    decreases |children|
  {
    if children == [] {
      assert Placed(children, at) + tail == tail;
      LeaveCluster(c, tail, end, ts);
    } else {
      PlacedStep(children, at, tail);
      var rest, kids := Placed(children, at) + tail, children[1..];
      var more, after := Placed(kids, at + 1) + tail, StampAfter(children[0], ts);
      assert forall k :: 0 <= k < |kids| ==> IsChild(kids[k]);
      ClusterWalk(c, kids, at + 1, end, after, tail);
      ChildStep(c, rest, end, ts);
      LeavesLate(c, kids, at + 1, end, after, tail, children[0].Blocks? && children[0].overruns);
      Regroup(ChildPackets(c, children[0], ts), ClusterPackets(c, kids, after),
              Listing(c, tail, Between));
    }
  }

  lemma PlacedStep(children: seq<Kind>, at: nat, tail: seq<Elem>)
    requires children != []
    ensures var rest := Placed(children, at) + tail;
            rest != [] && rest[0] == Elem(at, children[0]) &&
            rest[1..] == Placed(children[1..], at + 1) + tail
  {
  }

  /** Nothing of a cluster is in front of the next element of the segment. */
  predicate LeadsOut(tail: seq<Elem>) {
    tail == [] || IsTop(tail[0]) || (tail[0].kind.Other? && LeadsOut(tail[1..]))
  }

  /** A cluster is left where its end is stated or, when it is not, at the next element of the
      segment: the same packets follow. */
  lemma {:induction false} LeaveCluster(c: Choice, tail: seq<Elem>, end: Option<nat>, ts: Option<nat>)
    requires LeadsOut(tail)
    ensures Listing(c, tail, In(end, ts)) == Listing(c, tail, Between)
    decreases |tail|
  {
    hide Listing;
    ListingStep(c, tail, In(end, ts));
    ListingStep(c, tail, Between);
    if tail != [] && !EndsCluster(tail[0], end) {
      LeaveCluster(c, tail[1..], end, ts);
    }
  }

  lemma ChildStep(c: Choice, rest: seq<Elem>, end: Option<nat>, ts: Option<nat>)
    requires rest != [] && IsChild(rest[0].kind) && !EndsCluster(rest[0], end)
    ensures var child := rest[0].kind;
            var inside := In(end, StampAfter(child, ts));
            var next := AfterBlock(rest[1..], child.Blocks? && child.overruns, inside);
            Listing(c, rest, In(end, ts)) == ChildPackets(c, child, ts) + Listing(c, rest[1..], next)
  {
  }

  /** Leaving a cluster because a block group ran into the next one is leaving it all the same. */
  lemma LeavesLate(c: Choice, kids: seq<Kind>, at: nat, end: Option<nat>, ts: Option<nat>,
                   tail: seq<Elem>, overruns: bool)
    requires forall k :: 0 <= k < |kids| ==> IsChild(kids[k])
    requires LeadsOut(tail)
    ensures var rest := Placed(kids, at) + tail;
            Listing(c, rest, AfterBlock(rest, overruns, In(end, ts))) == Listing(c, rest, In(end, ts))
  {
    var rest := Placed(kids, at) + tail;
    if kids != [] {
      assert rest[0] == Elem(at, kids[0]);
    } else {
      assert rest == tail;
      LeaveCluster(c, tail, end, ts);
    }
  }

  lemma {:induction false} LayoutLeadsOut(parts: seq<Part>, at: nat)
    ensures LeadsOut(Layout(parts, at))
    decreases |parts|
  {
    if parts != [] && parts[0].Aside? && parts[0].global {
      LayoutLeadsOut(parts[1..], at + 1);
      assert Layout(parts, at)[1..] == Layout(parts[1..], at + 1);
    }
  }

  /** Exactly once: the walk of a well-formed segment lists every lace of every block of the
      selected tracks in timestamped clusters, in storage order, once each. */
  lemma {:induction false} WalkIsFile(c: Choice, parts: seq<Part>, at: nat)
    requires WellFormed(parts)
    ensures Listing(c, Layout(parts, at), Between) == FilePackets(c, parts)
  {
    if parts != [] {
      var rest := Layout(parts, at);
      match parts[0]
      case Aside(_) =>
        assert rest[1..] == Layout(parts[1..], at + 1);
        WalkIsFile(c, parts[1..], at + 1);
      case ACluster(known, children) =>
        var end := at + 1 + |children|;
        var tail := Layout(parts[1..], end);
        assert rest[1..] == Placed(children, at + 1) + tail;
        LayoutLeadsOut(parts[1..], end);
        ClusterWalk(c, children, at + 1, if known then Some(end) else None, None, tail);
        WalkIsFile(c, parts[1..], end);
    }
  }

  /** What a host can read of a well-formed segment is all of it, exactly when no frame lies
      behind `GUARD` turns that find no block. */
  lemma ReadsTheFile(c: Choice, parts: seq<Part>, at: nat)
    requires WellFormed(parts)
    ensures Walk(c, Layout(parts, at), Between, 0) == FilePackets(c, parts)
            <==> Patient(Turns(c, Layout(parts, at), Between), 0, GUARD)
  {
    WalkIsFile(c, parts, at);
    WalkIsListing(c, Layout(parts, at), Between, 0);
  }

  function Others(n: nat): (r: seq<Kind>)
    ensures |r| == n && forall i :: 0 <= i < n ==> r[i] == Other
  {
    if n == 0 then [] else [Other] + Others(n - 1)
  }

  lemma OtherTurn(c: Choice, kinds: seq<Kind>, at: nat, ts: Option<nat>)
    requires kinds != [] && kinds[0] == Other
    ensures Turns(c, Placed(kinds, at), In(None, ts)) ==
            [Idle] + Turns(c, Placed(kinds[1..], at + 1), In(None, ts))
  {
    var rest := Placed(kinds, at);
    assert rest[0] == Elem(at, Other) && rest[1..] == Placed(kinds[1..], at + 1);
    hide Turns, Listing, Placed;
    ListingStep(c, rest, In(None, ts));
  }

  lemma {:induction false} OthersTurns(c: Choice, n: nat, last: Kind, at: nat, ts: Option<nat>)
    ensures Turns(c, Placed(Others(n) + [last], at), In(None, ts)) ==
            Idles(n) + Turns(c, Placed([last], at + n), In(None, ts))
    decreases n
  {
    hide Turns, Placed, Others, Idles;
    OthersFirst(n, last);
    if n == 0 {
      NoTurn(Turns(c, Placed([last], at), In(None, ts)));
    } else {
      OthersTurns(c, n - 1, last, at + 1, ts);
      OtherTurn(c, Others(n) + [last], at, ts);
      Regroup([Idle], Idles(n - 1), Turns(c, Placed([last], at + n), In(None, ts)));
    }
  }

  lemma OthersFirst(n: nat, last: Kind)
    ensures n == 0 ==> Others(n) + [last] == [last] && Idles(n) == []
    ensures n > 0 ==> (Others(n) + [last])[0] == Other && (Others(n) + [last])[1..] == Others(n - 1) + [last]
    ensures n > 0 ==> Idles(n) == [Idle] + Idles(n - 1)
  {
  }

  /** A cluster with 2^24 other elements between its timestamp and its only block. */
  function StalledSegment(): seq<Part> {
    [ACluster(false, [Stamp(0, true)] + (Others(GUARD) + [OneBlock()]))]
  }

  function OneBlock(): Kind {
    Blocks(Some(Block(1, 0, [[7]])), true, false)
  }

  function OneTrack(): Choice {
    Choice(File([Track(1, false, 48000)], 1000000), [0])
  }

  /** Its packet is not handed over. */
  lemma StalledSegmentIsLost()
    ensures WellFormed(StalledSegment())
    ensures Walk(OneTrack(), Layout(StalledSegment(), 0), Between, 0) != FilePackets(OneTrack(), StalledSegment())
  {
    hide Others, Layout, Walk, FilePackets, Patient, WellFormed, Turns, Placed;
    var c, kinds := OneTrack(), Others(GUARD) + [OneBlock()];
    StalledSegmentIsOne();
    ReadsTheFile(c, StalledSegment(), 0);
    StampedTurns(c, kinds);
    OthersTurns(c, GUARD, OneBlock(), 2, Some(0));
    LastBlock(c, 2 + GUARD);
    var last := Turns(c, Placed([OneBlock()], 2 + GUARD), In(None, Some(0)));
    CountFirst(Idle, Idles(GUARD) + last);
    LateBlock(last);
  }

  lemma StalledSegmentIsOne()
    ensures WellFormed(StalledSegment())
  {
    var kinds := Others(GUARD) + [OneBlock()];
    var children := [Stamp(0, true)] + kinds;
    forall k | 0 <= k < |children| ensures IsChild(children[k]) {
      assert k > 0 ==> children[k] == kinds[k - 1];
    }
  }

  /** One cluster of unknown size that starts with a timestamp. */
  lemma StampedTurns(c: Choice, kinds: seq<Kind>)
    ensures var parts := [ACluster(false, [Stamp(0, true)] + kinds)];
            Turns(c, Layout(parts, 0), Between) == [Idle] + Turns(c, Placed(kinds, 2), In(None, Some(0)))
  {
    var children := [Stamp(0, true)] + kinds;
    var parts := [ACluster(false, children)];
    assert children[0] == Stamp(0, true) && children[1..] == kinds && parts[1..] == [];
    var rest, inside := Layout(parts, 0), Placed(children, 1);
    assert rest == [Elem(0, Cluster(None))] + inside && rest[1..] == inside;
    assert inside[0] == Elem(1, Stamp(0, true)) && inside[1..] == Placed(kinds, 2);
    hide Turns, Listing, Placed, Layout;
    ListingStep(c, rest, Between);
    ListingStep(c, inside, In(None, None));
    NoTurn(Turns(c, inside, In(None, None)));
  }

  lemma NoTurn(turns: seq<Turn>)
    ensures [] + turns == turns
  {
  }

  lemma LastBlock(c: Choice, at: nat)
    requires c == OneTrack()
    ensures Count(Turns(c, Placed([OneBlock()], at), In(None, Some(0)))) == 1
  {
    var rest := [Elem(at, OneBlock())];
    assert rest[1..] == [] && Placed([OneBlock()], at) == rest;
    assert c.TrackOf(OneBlock().block) == Some(0);
    ListingStep(c, rest, In(None, Some(0)));
    ListingStep(c, [], In(None, Some(0)));
    CountFirst(Finds(1), []);
  }

  /** `GUARD` idle turns behind one already taken. */
  lemma LateBlock(last: seq<Turn>)
    requires Count(last) > 0
    ensures !Patient(Idles(GUARD) + last, 1, GUARD)
  {
    CountConcat([Idle], last);
    assert Idles(GUARD) + last == Idles(GUARD - 1) + ([Idle] + last) by {
      IdlesBack(GUARD);
      assert Idles(GUARD - 1) + [Idle] + last == Idles(GUARD - 1) + ([Idle] + last);
    }
    TooManyTurns(GUARD - 1, [Idle] + last, 1, GUARD);
  }

  lemma {:induction false} IdlesBack(n: nat)
    requires n > 0
    ensures Idles(n) == Idles(n - 1) + [Idle]
    decreases n
  {
    if n > 1 {
      IdlesBack(n - 1);
    }
  }

  // ------------------------------------------------------------------
  // Seeking
  // ------------------------------------------------------------------

  /** The walk over the elements before `i` has not met the end of a file cut short. */
  predicate NotCut(rest: seq<Elem>, i: nat)
    requires i <= |rest|
  {
    forall k :: 0 <= k < i ==>
      (rest[k].kind.Stamp? ==> rest[k].kind.fits) && (rest[k].kind.Blocks? ==> rest[k].kind.fits)
  }

  /** Starting over at a cluster resumes the very walk that would have got there: the whole
      listing is that of the elements in front of the cluster and then what follows the seek. */
  lemma {:induction false} SeekResumes(c: Choice, rest: seq<Elem>, mode: Mode, i: nat)
    requires i < |rest| && rest[i].kind.Cluster? && NotCut(rest, i)
    ensures Listing(c, rest, mode) == Listing(c, rest[..i], mode) + Listing(c, rest[i..], Between)
    decreases |rest|, if mode.In? then 1 else 0
  {
    hide Listing, Look;
    if i == 0 {
      AtCluster(c, rest, mode);
    } else {
      ListingStep(c, rest, mode);
      ListingStep(c, rest[..i], mode);
      LookInFront(c, rest, mode, i);
      TailOf(rest, i);
      var front := Look(c, rest[..i], mode);
      NothingListed(c, front.mode);
      if Look(c, rest, mode).Quiet? {
        var Quiet(turn, more, next) := Look(c, rest, mode);
        NothingListed(c, next);
        SeekResumes(c, more, next, if more == rest then i else i - 1);
      } else {
        var Yield(track, ts, block, more, next) := Look(c, rest, mode);
        NothingListed(c, next);
        SeekResumes(c, more, next, i - 1);
        Regroup(c.Laces(track, ts, block, 0), Listing(c, more[..i - 1], next), Listing(c, rest[i..], Between));
      }
    }
  }

  lemma AtCluster(c: Choice, rest: seq<Elem>, mode: Mode)
    requires rest != [] && rest[0].kind.Cluster?
    ensures Listing(c, rest, mode) == Listing(c, rest[..0], mode) + Listing(c, rest[0..], Between)
  {
    NothingListed(c, mode);
    assert rest[..0] == [] && rest[0..] == rest;
    if mode.In? {
      LeaveCluster(c, rest, mode.end, mode.ts);
    }
    assert [] + Listing(c, rest, Between) == Listing(c, rest, Between);
  }

  lemma NothingListed(c: Choice, mode: Mode)
    ensures Listing(c, [], mode) == []
  {
  }

  /** The elements in front of a cluster are met as they are in the whole. */
  lemma LookInFront(c: Choice, rest: seq<Elem>, mode: Mode, i: nat)
    requires 0 < i < |rest| && NotCut(rest, i)
    ensures match Look(c, rest, mode)
            case Stop => false
            case Quiet(turn, more, next) =>
              var front := Look(c, rest[..i], mode);
              front.Quiet? && (more == rest || more == rest[1..]) &&
              front.rest == (if more == rest then rest[..i] else more[..i - 1]) &&
              (front.mode == next || front.rest == [])
            case Yield(track, ts, block, more, next) =>
              var front := Look(c, rest[..i], mode);
              front.Yield? && front.track == track && front.ts == ts && front.block == block &&
              more == rest[1..] && front.rest == more[..i - 1] && (front.mode == next || front.rest == [])
  {
    hide Choice.TrackOf;
    assert rest[..i][1..] == rest[1..][..i - 1] && rest[..i][0] == rest[0];
    assert i > 1 ==> rest[..i][1..][0] == rest[1..][0];
  }

  /** A seek skips nothing: where no packet of a stream in front of the cluster is at or after
      the target, every one that is follows the seek, and in the same place behind it. */
  lemma SeekSkipsNothing(c: Choice, elems: seq<Elem>, i: nat, stream: nat, frame: nat)
    requires i < |elems| && elems[i].kind.Cluster? && NotCut(elems, i)
    requires forall p :: p in Listing(c, elems[..i], Between) ==> !Due(p, stream, frame)
    ensures var whole, front, after :=
              Listing(c, elems, Between), |Listing(c, elems[..i], Between)|, Listing(c, elems[i..], Between);
            |whole| == front + |after| &&
            forall k :: 0 <= k < |whole| && Due(whole[k], stream, frame) ==>
              k >= front && whole[k] == after[k - front]
  {
    SeekResumes(c, elems, Between, i);
  }

  /** A packet of a stream that states a position at or after `frame`. */
  predicate Due(p: Packet, stream: nat, frame: nat) {
    p.stream == stream && p.timed && p.frame >= frame
  }

  lemma TailOf(rest: seq<Elem>, i: nat)
    requires 0 < i < |rest|
    ensures rest[1..][i - 1..] == rest[i..] && rest[1..][i - 1] == rest[i]
    ensures rest[1..][..i - 1] == rest[..i][1..]
    ensures NotCut(rest, i) ==> NotCut(rest[1..], i - 1)
  {
  }
}
