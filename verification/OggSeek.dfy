/** Where opening and seeking leave the Ogg reader. */
module OggSeek {
  import opened Delivery
  import opened OggPages

  /** How many pages one seek reads before giving up. */
  const SEEK_GUARD: nat := 1000000

  datatype Outcome = Landed | PastEnd | Exhausted

  /** `while (packetout == 1)`: packets are read out up to the first hole, which goes too. */
  function DropPackets(queue: seq<Item>): seq<Item> {
    if queue == [] then []
    else if queue[0].Whole? then DropPackets(queue[1..])
    else queue[1..]
  }

  /** The same for at most `wanted` header packets: how many were read, and what is left. */
  function TakeHeaders(queue: seq<Item>, wanted: nat): (r: (nat, seq<Item>))
    ensures r.0 <= wanted
  {
    if wanted == 0 || queue == [] then (0, queue)
    else if queue[0].Hole? then (0, queue[1..])
    else
      var (n, rest) := TakeHeaders(queue[1..], wanted - 1);
      (n + 1, rest)
  }

  /** How many packets a queue has in front of its first hole. */
  function Front(queue: seq<Item>): (n: nat)
    ensures n <= |queue| && (forall i :: 0 <= i < n ==> queue[i].Whole?) && (n < |queue| ==> queue[n].Hole?)
  {
    if queue == [] || queue[0].Hole? then 0 else 1 + Front(queue[1..])
  }

  function Behind(queue: seq<Item>, n: nat): seq<Item> {
    if n >= |queue| then [] else queue[n..]
  }

  /** Reading packets out, all or a number of them, ends at the first hole, which goes with them;
      what is behind it stays. */
  lemma {:induction false} ReadsOut(queue: seq<Item>, wanted: nat)
    ensures DropPackets(queue) == Behind(queue, Front(queue) + 1)
    ensures TakeHeaders(queue, wanted) ==
            if Front(queue) >= wanted then (wanted, Behind(queue, wanted))
            else (Front(queue), Behind(queue, Front(queue) + 1))
    decreases |queue|
  {
    hide DropPackets, TakeHeaders, Front, Behind;
    ReadsFirst(queue, wanted);
    if queue != [] {
      BehindFirst(queue, Front(queue) + 1);
      BehindFirst(queue, wanted);
      BehindFirst(queue, 1);
      if queue[0].Whole? {
        ReadsOut(queue[1..], if wanted == 0 then 0 else wanted - 1);
      }
    }
  }

  /** What is first in a queue, read out. */
  lemma ReadsFirst(queue: seq<Item>, wanted: nat)
    ensures queue == [] ==> Front(queue) == 0 && DropPackets(queue) == [] && forall n :: Behind(queue, n) == []
    ensures wanted == 0 || queue == [] ==> TakeHeaders(queue, wanted) == (0, queue)
    ensures queue != [] && queue[0].Hole? ==> Front(queue) == 0 && DropPackets(queue) == queue[1..]
    ensures queue != [] && queue[0].Hole? && wanted > 0 ==> TakeHeaders(queue, wanted) == (0, queue[1..])
    ensures queue != [] && queue[0].Whole? ==>
              Front(queue) == Front(queue[1..]) + 1 && DropPackets(queue) == DropPackets(queue[1..])
    ensures queue != [] && queue[0].Whole? && wanted > 0 ==>
              var (n, rest) := TakeHeaders(queue[1..], wanted - 1);
              TakeHeaders(queue, wanted) == (n + 1, rest)
  {
  }

  lemma BehindFirst(queue: seq<Item>, n: nat)
    requires queue != []
    ensures n > 0 ==> Behind(queue, n) == Behind(queue[1..], n - 1)
    ensures Behind(queue, 0) == queue && Behind(queue, 1) == queue[1..]
  {
  }

  /** The loop of `demux_seek`, with `missing` header packets still to throw away. */
  function SeekLoop(c: Cursor, serial: int, missing: nat, target: nat, guard: nat): (Outcome, Cursor)
    decreases |c.rest|
  {
    if guard >= SEEK_GUARD then (Exhausted, c)
    else
      match NextPage(c, serial)
      case None => (PastEnd, c.(rest := []))
      case Some(next) =>
        if missing > 0 then
          var (n, left) := TakeHeaders(next.queue, missing);
          SeekLoop(next.(queue := left, first := true), serial, missing - n, target, guard + 1)
        else if next.end > target then (Landed, next)
        else SeekLoop(next.(queue := DropPackets(next.queue)), serial, 0, target, guard + 1)
  }

  // ------------------------------------------------------------------
  // Where a seek should land
  // ------------------------------------------------------------------

  /** The granule the first `k` pages run up to. */
  function RunningEnd(pages: seq<Page>, end: nat, k: nat): nat
    requires k <= |pages|
  {
    if k == 0 then end else RunningEnd(pages[1..], Advance(pages[0], end), k - 1)
  }

  /** The first pages hold exactly `n` header packets, which have no duration and end their
      page: section 3 of RFC 7845. */
  predicate CleanHeaders(pages: seq<Page>, n: nat) {
    n == 0 ||
    (pages != [] && pages[0].granule <= 0 && |pages[0].items| <= n && HoleFree(pages[0].items) &&
     CleanHeaders(pages[1..], n - |pages[0].items|))
  }

  function HeaderPages(pages: seq<Page>, n: nat): (h: nat)
    requires CleanHeaders(pages, n)
    ensures h <= |pages|
  {
    if n == 0 then 0 else 1 + HeaderPages(pages[1..], n - |pages[0].items|)
  }

  /** Pages `h` to `k` all end at or before the target. */
  ghost predicate AllBefore(pages: seq<Page>, end: nat, h: nat, k: nat, target: nat)
    requires h <= k <= |pages|
  {
    forall i :: h < i <= k ==> RunningEnd(pages, end, i) <= target
  }

  /** What reading out each of `pages` in turn leaves in the queue: whatever lies behind a
      hole. */
  function Leftover(pages: seq<Page>, queue: seq<Item>): seq<Item> {
    if pages == [] then queue else Leftover(pages[1..], DropPackets(queue + pages[0].items))
  }

  /** The pages of the file from a reader's point of view: of its own stream, from a cursor. */
  function Ahead(c: Cursor, serial: int): seq<Page> {
    Mine(c.rest, serial)
  }

  lemma {:induction false} RunningEndStep(pages: seq<Page>, end: nat, i: nat)
    requires 0 < i <= |pages|
    ensures RunningEnd(pages, end, i) == RunningEnd(pages[1..], Advance(pages[0], end), i - 1)
  {
  }

  /** What it means for a scan of `pages` to stop at page `k`. */
  ghost predicate StopsAt(pages: seq<Page>, end: nat, queue: seq<Item>, serial: int, target: nat,
                          budget: nat, outcome: Outcome, at: Cursor, k: nat)
  {
    k <= |pages| && AllBefore(pages, end, 0, k, target) &&
    match outcome
    case Landed =>
      k < |pages| && at.first && at.start == RunningEnd(pages, end, k) &&
      at.end == RunningEnd(pages, end, k + 1) && at.end > target &&
      at.queue == Leftover(pages[..k], queue) + pages[k].items &&
      Ahead(at, serial) == pages[k + 1..]
    case PastEnd => k == |pages|
    case Exhausted => k == budget
  }

  lemma StopsLater(pages: seq<Page>, end: nat, queue: seq<Item>, serial: int, target: nat,
                   budget: nat, outcome: Outcome, at: Cursor, k: nat)
    requires pages != [] && budget > 0 && Advance(pages[0], end) <= target
    requires StopsAt(pages[1..], Advance(pages[0], end), DropPackets(queue + pages[0].items), serial,
                     target, budget - 1, outcome, at, k)
    ensures StopsAt(pages, end, queue, serial, target, budget, outcome, at, k + 1)
  {
    var after := Advance(pages[0], end);
    forall i | 0 < i <= k + 1 ensures RunningEnd(pages, end, i) <= target {
      RunningEndStep(pages, end, i);
      assert i > 1 ==> RunningEnd(pages[1..], after, i - 1) <= target;
    }
    assert pages[..k + 1][1..] == pages[1..][..k];
    assert pages[1..][k..] == pages[k + 1..];
    if outcome.Landed? {
      assert pages[1..][k + 1..] == pages[k + 2..];
      RunningEndStep(pages, end, k + 1);
      RunningEndStep(pages, end, k + 2);
    }
  }

  /** The scan past the headers: it stops at the first page that ends after the target. */
  lemma {:induction false} ScanLands(c: Cursor, serial: int, target: nat, guard: nat)
      returns (k: nat)
    requires guard <= SEEK_GUARD
    ensures var (outcome, at) := SeekLoop(c, serial, 0, target, guard);
            StopsAt(Ahead(c, serial), c.end, c.queue, serial, target, SEEK_GUARD - guard, outcome, at, k)
    decreases |c.rest|
  {
    hide StopsAt, NextPage, Mine, DropPackets, SeekLoop;
    NextPageIsMine(c, serial);
    var found := NextPage(c, serial);
    if guard >= SEEK_GUARD || found.None? || found.value.end > target {
      StopsAtOnce(c, serial, target, guard);
      k := 0;
    } else {
      var after := found.value.(queue := DropPackets(found.value.queue));
      SeekOn(c, serial, target, guard);
      k := ScanLands(after, serial, target, guard + 1);
      var (outcome, at) := SeekLoop(after, serial, 0, target, guard + 1);
      StopsLater(Ahead(c, serial), c.end, c.queue, serial, target, SEEK_GUARD - guard, outcome, at, k);
      k := k + 1;
    }
  }

  lemma StopsAtOnce(c: Cursor, serial: int, target: nat, guard: nat)
    requires guard <= SEEK_GUARD
    requires guard == SEEK_GUARD || NextPage(c, serial).None? || NextPage(c, serial).value.end > target
    ensures var (outcome, at) := SeekLoop(c, serial, 0, target, guard);
            StopsAt(Ahead(c, serial), c.end, c.queue, serial, target, SEEK_GUARD - guard, outcome, at, 0)
  {
    NextPageIsMine(c, serial);
    var pages := Ahead(c, serial);
    assert pages[..0] == [];
    if guard < SEEK_GUARD && pages != [] {
      EndsAtStart(pages[1..], Advance(pages[0], c.end));
    }
  }

  lemma SeekOn(c: Cursor, serial: int, target: nat, guard: nat)
    requires guard < SEEK_GUARD && NextPage(c, serial).Some? && NextPage(c, serial).value.end <= target
    ensures var next := NextPage(c, serial).value;
            SeekLoop(c, serial, 0, target, guard) ==
            SeekLoop(next.(queue := DropPackets(next.queue)), serial, 0, target, guard + 1)
  {
  }

  lemma {:induction false} TakesWholePage(queue: seq<Item>, wanted: nat)
    requires HoleFree(queue) && |queue| <= wanted
    ensures TakeHeaders(queue, wanted) == (|queue|, [])
  {
    if queue != [] {
      TakesWholePage(queue[1..], wanted - 1);
    }
  }

  /** The header pages are read and thrown away, and leave the reader where the audio
      starts. */
  lemma {:induction false} HeadersSkipped(c: Cursor, serial: int, n: nat, target: nat, guard: nat)
      returns (after: Cursor)
    requires CleanHeaders(Ahead(c, serial), n) && c.queue == [] && c.end == 0
    requires guard + HeaderPages(Ahead(c, serial), n) <= SEEK_GUARD
    ensures var h := HeaderPages(Ahead(c, serial), n);
            SeekLoop(c, serial, n, target, guard) == SeekLoop(after, serial, 0, target, guard + h) &&
            after.queue == [] && after.end == 0 && Ahead(after, serial) == Ahead(c, serial)[h..] &&
            RunningEnd(Ahead(c, serial), 0, h) == 0
    decreases |c.rest|
  {
    hide SeekLoop, NextPage, Mine, TakeHeaders, CleanHeaders, HeaderPages, HoleFree, RunningEnd;
    after := c;
    var pages := Ahead(c, serial);
    if n == 0 {
      NoHeaders(c, serial, guard);
      EndsAtStart(pages, 0);
    } else {
      HeaderStep(pages, n);
      NextPageIsMine(c, serial);
      var next := NextPage(c, serial).value;
      NothingQueued(c.queue, pages[0].items);
      TakesWholePage(next.queue, n);
      SeekHeaders(c, serial, n, target, guard);
      after := HeadersSkipped(next.(queue := [], first := true), serial, n - |next.queue|, target,
                              guard + 1);
      var h := HeaderPages(pages, n);
      RunningEndStep(pages, 0, h);
      assert pages[1..][h - 1..] == pages[h..];
    }
  }

  lemma EndsAtStart(pages: seq<Page>, end: nat)
    ensures RunningEnd(pages, end, 0) == end
  {
  }

  lemma SeekHeaders(c: Cursor, serial: int, missing: nat, target: nat, guard: nat)
    requires missing > 0 && guard < SEEK_GUARD && NextPage(c, serial).Some?
    ensures var next := NextPage(c, serial).value;
            var (n, left) := TakeHeaders(next.queue, missing);
            SeekLoop(c, serial, missing, target, guard) ==
            SeekLoop(next.(queue := left, first := true), serial, missing - n, target, guard + 1)
  {
  }

  // ------------------------------------------------------------------
  // Opening: the header packets behind the identification header
  // ------------------------------------------------------------------

  /** The loop of `demux_open`: up to `wanted` packets, each with its bytes kept. Here a hole
      sends it for another page. */
  function OpenLoop(c: Cursor, serial: int, wanted: nat, guard: nat): (seq<Bytes>, Cursor)
    decreases |c.rest|, |c.queue|
  {
    if guard >= GUARD || wanted == 0 then ([], c)
    else if c.queue != [] && c.queue[0].Whole? then
      var (headers, after) := OpenLoop(c.(queue := c.queue[1..]), serial, wanted - 1, guard + 1);
      ([c.queue[0].bytes] + headers, after)
    else
      var holeGone := if c.queue == [] then c else c.(queue := c.queue[1..]);
      match NextPage(holeGone, serial)
      case None => ([], holeGone.(rest := []))
      case Some(next) => OpenLoop(next, serial, wanted, guard + 1)
  }

  /** On any file, opening takes the first packets there are, in order, holes passed over; and it
      takes fewer than are wanted only once the file is read to its end, unless its turns run out. */
  lemma {:induction false} OpenTakesFirst(c: Cursor, serial: int, wanted: nat, guard: nat)
    ensures var (headers, after) := OpenLoop(c, serial, wanted, guard);
            |headers| <= wanted && headers <= Finished(c.queue + Items(Ahead(c, serial))) &&
            (|headers| == wanted || Ahead(after, serial) == [] || guard + |TurnsFrom(c, serial)| > GUARD)
    decreases |c.rest|, |c.queue|
  {
    hide OpenLoop, NextPage, Finished, Items, Turns, ItemTurns, Mine;
    OpenTurn(c, serial, wanted, guard);
    if guard < GUARD && wanted > 0 {
      var first := if c.queue == [] then c else c.(queue := c.queue[1..]);
      QueueFirst(c, serial);
      if c.queue != [] && c.queue[0].Whole? {
        OpenTakesFirst(first, serial, wanted - 1, guard + 1);
      } else {
        PageFirst(first, serial);
        if NextPage(first, serial).Some? {
          OpenTakesFirst(NextPage(first, serial).value, serial, wanted, guard + 1);
        }
      }
    } else {
      AtLeastOne(c, serial);
    }
  }

  lemma OpenTurn(c: Cursor, serial: int, wanted: nat, guard: nat)
    ensures OpenLoop(c, serial, wanted, guard) ==
            if guard >= GUARD || wanted == 0 then ([], c)
            else if c.queue != [] && c.queue[0].Whole? then
              var (headers, after) := OpenLoop(c.(queue := c.queue[1..]), serial, wanted - 1, guard + 1);
              ([c.queue[0].bytes] + headers, after)
            else
              var first := if c.queue == [] then c else c.(queue := c.queue[1..]);
              match NextPage(first, serial)
              case None => ([], first.(rest := []))
              case Some(next) => OpenLoop(next, serial, wanted, guard + 1)
  {
  }

  lemma QueueFirst(c: Cursor, serial: int)
    ensures c.queue != [] ==>
              var first := c.(queue := c.queue[1..]);
              |TurnsFrom(c, serial)| == 1 + |TurnsFrom(first, serial)| &&
              Finished(c.queue + Items(Ahead(c, serial))) ==
              (if c.queue[0].Whole? then [c.queue[0].bytes] else []) + Finished(first.queue + Items(Ahead(first, serial)))
  {
    if c.queue != [] {
      var all := c.queue + Items(Ahead(c, serial));
      assert all[0] == c.queue[0] && all[1..] == c.queue[1..] + Items(Ahead(c, serial));
    }
  }

  lemma PageFirst(c: Cursor, serial: int)
    ensures match NextPage(c, serial)
            case None => Mine([], serial) == []
            case Some(next) =>
              |TurnsFrom(c, serial)| == 1 + |TurnsFrom(next, serial)| &&
              c.queue + Items(Ahead(c, serial)) == next.queue + Items(Ahead(next, serial))
  {
    NextPageIsMine(c, serial);
    if NextPage(c, serial).Some? {
      Regroup(c.queue, Ahead(c, serial)[0].items, Items(Ahead(c, serial)[1..]));
    }
  }

  lemma AtLeastOne(c: Cursor, serial: int)
    ensures |TurnsFrom(c, serial)| == 0 ==> Ahead(c, serial) == []
  {
  }

  lemma {:induction false} OpenReadsPage(c: Cursor, serial: int, wanted: nat, guard: nat)
    requires HoleFree(c.queue) && |c.queue| <= wanted && guard + |c.queue| <= GUARD
    ensures var (headers, after) := OpenLoop(c, serial, wanted, guard);
            var (more, same) := OpenLoop(c.(queue := []), serial, wanted - |c.queue|, guard + |c.queue|);
            after == same && headers == Finished(c.queue) + more
    decreases |c.queue|
  {
    if c.queue != [] {
      OpenReadsPage(c.(queue := c.queue[1..]), serial, wanted - 1, guard + 1);
    } else {
      assert c == c.(queue := []);
    }
  }

  /** Opening reads exactly the header pages, keeps exactly the header packets, and leaves the
      reader where the audio starts. */
  lemma {:induction false} OpenKeepsHeaders(c: Cursor, serial: int, n: nat, guard: nat)
    requires CleanHeaders(Ahead(c, serial), n) && c.queue == [] && c.end == 0
    requires guard + n + HeaderPages(Ahead(c, serial), n) <= GUARD
    ensures var (headers, after) := OpenLoop(c, serial, n, guard);
            var h := HeaderPages(Ahead(c, serial), n);
            after.queue == [] && after.end == 0 && Ahead(after, serial) == Ahead(c, serial)[h..] &&
            headers == Finished(Items(Ahead(c, serial)[..h]))
    decreases |c.rest|
  {
    hide OpenLoop, NextPage, Mine, Finished, Items, CleanHeaders, HeaderPages, HoleFree;
    var pages := Ahead(c, serial);
    if n == 0 {
      NoHeaders(c, serial, guard);
    } else {
      HeaderStep(pages, n);
      NextPageIsMine(c, serial);
      var next := NextPage(c, serial).value;
      var m, h := |next.queue|, HeaderPages(pages, n);
      NothingQueued(c.queue, pages[0].items);
      OpenPage(c, serial, n, guard);
      OpenReadsPage(next, serial, n, guard + 1);
      OpenKeepsHeaders(next.(queue := []), serial, n - m, guard + 1 + m);
      HeaderPayloads(pages, h);
    }
  }

  /** One header page, and those behind it. */
  lemma HeaderStep(pages: seq<Page>, n: nat)
    requires CleanHeaders(pages, n) && n > 0
    ensures pages != [] && pages[0].granule <= 0 && HoleFree(pages[0].items)
    ensures var m := |pages[0].items|;
            m <= n && CleanHeaders(pages[1..], n - m) &&
            HeaderPages(pages, n) == 1 + HeaderPages(pages[1..], n - m)
  {
  }

  lemma NoHeaders(c: Cursor, serial: int, guard: nat)
    ensures OpenLoop(c, serial, 0, guard) == ([], c)
    ensures var pages := Ahead(c, serial);
            HeaderPages(pages, 0) == 0 && pages[0..] == pages && Finished(Items(pages[..0])) == []
  {
    assert Ahead(c, serial)[..0] == [];
  }

  lemma NothingQueued(queue: seq<Item>, items: seq<Item>)
    requires queue == []
    ensures queue + items == items
  {
  }

  lemma OpenPage(c: Cursor, serial: int, wanted: nat, guard: nat)
    requires c.queue == [] && wanted > 0 && guard < GUARD && NextPage(c, serial).Some?
    ensures OpenLoop(c, serial, wanted, guard) == OpenLoop(NextPage(c, serial).value, serial, wanted, guard + 1)
  {
  }

  lemma HeaderPayloads(pages: seq<Page>, h: nat)
    requires 0 < h <= |pages|
    ensures Finished(Items(pages[..h])) == Finished(pages[0].items) + Finished(Items(pages[1..][..h - 1]))
    ensures pages[1..][h - 1..] == pages[h..]
  {
    assert pages[..h][1..] == pages[1..][..h - 1];
    FinishedConcat(pages[0].items, Items(pages[1..][..h - 1]));
  }

  lemma {:induction false} RunningEndAppend(pages: seq<Page>, end: nat, h: nat, k: nat)
    requires h + k <= |pages|
    ensures RunningEnd(pages, end, h + k) == RunningEnd(pages[h..], RunningEnd(pages, end, h), k)
  {
    if h != 0 {
      RunningEndAppend(pages[1..], Advance(pages[0], end), h - 1, k);
      assert pages[1..][h - 1..] == pages[h..];
    }
  }

  /** The reader a seek starts from: the whole file ahead, nothing read. */
  function FromTop(pages: seq<Page>): Cursor {
    Cursor([], pages, 0, 0, false)
  }

  /** What a seek past `h` header pages should come to: the first page that ends after the
      target, the end of the file, or a budget spent. */
  ghost predicate LandsAt(mine: seq<Page>, h: nat, serial: int, target: nat, outcome: Outcome,
                          at: Cursor, k: nat)
  {
    h <= k <= |mine| && AllBefore(mine, 0, h, k, target) &&
    match outcome
    case Landed =>
      k < |mine| && at.first && at.start == RunningEnd(mine, 0, k) <= target &&
      target < at.end == RunningEnd(mine, 0, k + 1) &&
      at.queue == Leftover(mine[h..k], []) + mine[k].items &&
      Ahead(at, serial) == mine[k + 1..]
    case PastEnd => k == |mine|
    case Exhausted => k == SEEK_GUARD
  }

  /** A seek lands on the first page after the headers that ends past the target, or says
      the target is past the end of them all; it gives up only after `SEEK_GUARD` pages. */
  lemma SeekLands(pages: seq<Page>, serial: int, n: nat, target: nat) returns (k: nat)
    requires CleanHeaders(Mine(pages, serial), n)
    requires HeaderPages(Mine(pages, serial), n) <= SEEK_GUARD
    ensures var (outcome, at) := SeekLoop(FromTop(pages), serial, n, target, 0);
            var mine := Mine(pages, serial);
            LandsAt(mine, HeaderPages(mine, n), serial, target, outcome, at, k)
  {
    hide SeekLoop, CleanHeaders, HeaderPages, RunningEnd, Mine, StopsAt, LandsAt;
    var mine := Mine(pages, serial);
    var h := HeaderPages(mine, n);
    var top := FromTop(pages);
    assert Ahead(top, serial) == mine;
    var after := HeadersSkipped(top, serial, n, target, 0);
    assert Ahead(after, serial) == mine[h..];
    var j := ScanLands(after, serial, target, h);
    k := h + j;
    var (outcome, at) := SeekLoop(after, serial, 0, target, h);
    StopsBehindHeaders(mine, h, serial, target, outcome, at, j);
  }

  /** Stopping at page `j` behind `h` header pages is stopping at page `h + j` of them all. */
  lemma StopsBehindHeaders(mine: seq<Page>, h: nat, serial: int, target: nat,
                           outcome: Outcome, at: Cursor, j: nat)
    requires h <= |mine| && h <= SEEK_GUARD && RunningEnd(mine, 0, h) == 0
    requires StopsAt(mine[h..], 0, [], serial, target, SEEK_GUARD - h, outcome, at, j)
    ensures LandsAt(mine, h, serial, target, outcome, at, h + j)
  {
    BeforeBehindHeaders(mine, h, j, target);
    if outcome.Landed? {
      RunningEndAppend(mine, 0, h, j);
      RunningEndAppend(mine, 0, h, j + 1);
      TailOfTail(mine, h, j);
    }
  }

  lemma BeforeBehindHeaders(mine: seq<Page>, h: nat, j: nat, target: nat)
    requires h + j <= |mine| && RunningEnd(mine, 0, h) == 0
    requires AllBefore(mine[h..], 0, 0, j, target)
    ensures AllBefore(mine, 0, h, h + j, target)
    ensures RunningEnd(mine, 0, h + j) <= target
  {
    forall i | h <= i <= h + j ensures RunningEnd(mine, 0, i) <= target {
      RunningEndAppend(mine, 0, h, i - h);
      assert i > h ==> RunningEnd(mine[h..], 0, i - h) <= target;
    }
  }

  lemma TailOfTail<T>(s: seq<T>, h: nat, j: nat)
    requires h + j < |s|
    ensures s[h..][j] == s[h + j] && s[h..][..j] == s[h..h + j] && s[h..][j + 1..] == s[h + j + 1..]
  {
  }

  lemma {:induction false} PagePacketsConcat(a: seq<Item>, b: seq<Item>, start: nat)
    ensures |PagePackets(a + b, start, true)| == |PagePackets(a, start, true)| + |PagePackets(b, start, true)|
    ensures !Finishes(a) ==> PagePackets(a + b, start, true) == PagePackets(b, start, true)
    ensures Finishes(a) <==> |PagePackets(a, start, true)| > 0
  {
    if a == [] {
      assert a + b == b;
    } else {
      assert (a + b)[1..] == a[1..] + b;
      PagePacketsConcat(a[1..], b, start);
      PagePacketsLength(a[1..], start, true);
      PagePacketsLength(a[1..] + b, start, true);
      if Finishes(a[1..]) {
        var i :| 0 <= i < |a[1..]| && a[1..][i].Whole?;
        assert a[i + 1].Whole?;
      } else if a[0].Hole? {
        assert !Finishes(a) by {
          forall i | 0 <= i < |a| ensures !a[i].Whole? {
            assert i > 0 ==> !a[1..][i - 1].Whole?;
          }
        }
      } else {
        assert Finishes(a);
      }
    }
  }

  lemma {:induction false} HoleFreeLeavesNothing(pages: seq<Page>)
    requires AllHoleFree(pages)
    ensures Leftover(pages, []) == []
  {
    if pages != [] {
      DropsAll(pages[0].items);
      assert [] + pages[0].items == pages[0].items;
      HoleFreeLeavesNothing(pages[1..]);
    }
  }

  lemma {:induction false} DropsAll(queue: seq<Item>)
    requires HoleFree(queue)
    ensures DropPackets(queue) == []
  {
    if queue != [] {
      DropsAll(queue[1..]);
    }
  }

  /** What follows a seek is exactly the packets that finish on the page it landed on or
      later, if and only if no page read past left a packet behind a hole. */
  lemma SeekFollowedBy(pages: seq<Page>, serial: int, n: nat, target: nat) returns (k: nat)
    requires CleanHeaders(Mine(pages, serial), n)
    requires HeaderPages(Mine(pages, serial), n) <= SEEK_GUARD
    requires SeekLoop(FromTop(pages), serial, n, target, 0).0.Landed?
    ensures var at := SeekLoop(FromTop(pages), serial, n, target, 0).1;
            var mine := Mine(pages, serial);
            var h := HeaderPages(mine, n);
            h <= k < |mine| && AllBefore(mine, 0, h, k, target) &&
            RunningEnd(mine, 0, k) <= target < RunningEnd(mine, 0, k + 1) &&
            (ListingFrom(at, serial) == Listing(mine[k..], RunningEnd(mine, 0, k))
             <==> !Finishes(Leftover(mine[h..k], [])))
  {
    k := SeekLands(pages, serial, n, target);
    var at := SeekLoop(FromTop(pages), serial, n, target, 0).1;
    var mine := Mine(pages, serial);
    var left := Leftover(mine[HeaderPages(mine, n)..k], []);
    PagePacketsConcat(left, mine[k].items, at.start);
    assert mine[k..][0] == mine[k] && mine[k..][1..] == mine[k + 1..];
    RunningEndAppend(mine, 0, k, 1);
    assert Listing(mine[k..], at.start) ==
           PagePackets(mine[k].items, at.start, true) + Listing(mine[k + 1..], at.end);
  }

  /** libogg reports a lost page in front of what the next one finishes, and nowhere else. */
  predicate HolesInFront(pages: seq<Page>) {
    forall i, k :: 0 <= i < |pages| && 0 < k < |pages[i].items| ==> pages[i].items[k].Whole?
  }

  /** A page behind a lost one, on which some packet finishes. */
  predicate PacketBehindHole(page: Page) {
    |page.items| >= 2 && page.items[0].Hole?
  }

  /** What reading a page out leaves of it. */
  function LeftOf(items: seq<Item>): seq<Item> {
    if items != [] && items[0].Hole? then items[1..] else []
  }

  lemma {:induction false} DropsToHole(queue: seq<Item>, items: seq<Item>)
    requires HoleFree(queue) && forall k :: 0 < k < |items| ==> items[k].Whole?
    ensures DropPackets(queue + items) == LeftOf(items)
    decreases |queue|
  {
    if queue != [] {
      assert (queue + items)[1..] == queue[1..] + items;
      DropsToHole(queue[1..], items);
    } else {
      assert queue + items == items;
      if items != [] && items[0].Whole? {
        DropsAll(items);
      }
    }
  }

  /** Only the last page read past can leave anything in the queue. */
  lemma {:induction false} LeftoverIsLast(pages: seq<Page>, queue: seq<Item>)
    requires HolesInFront(pages) && HoleFree(queue)
    ensures Leftover(pages, queue) == if pages == [] then queue else LeftOf(pages[|pages| - 1].items)
    decreases |pages|
  {
    if pages != [] {
      DropsToHole(queue, pages[0].items);
      LeftoverIsLast(pages[1..], LeftOf(pages[0].items));
    }
  }

  /** In the file's own terms: what follows a seek is exactly the packets that finish on the page
      it landed on or later, if and only if the last page it read past is not one behind a lost
      page with a packet on it. */
  lemma SeekFollowedExactly(pages: seq<Page>, serial: int, n: nat, target: nat) returns (k: nat)
    requires CleanHeaders(Mine(pages, serial), n) && HolesInFront(Mine(pages, serial))
    requires HeaderPages(Mine(pages, serial), n) <= SEEK_GUARD
    requires SeekLoop(FromTop(pages), serial, n, target, 0).0.Landed?
    ensures var at := SeekLoop(FromTop(pages), serial, n, target, 0).1;
            var mine := Mine(pages, serial);
            var h := HeaderPages(mine, n);
            h <= k < |mine| && AllBefore(mine, 0, h, k, target) &&
            RunningEnd(mine, 0, k) <= target < RunningEnd(mine, 0, k + 1) &&
            (ListingFrom(at, serial) == Listing(mine[k..], RunningEnd(mine, 0, k))
             <==> k == h || !PacketBehindHole(mine[k - 1]))
  {
    hide SeekLoop, CleanHeaders, HeaderPages, RunningEnd, Mine, Listing, ListingFrom, AllBefore, Leftover;
    k := SeekFollowedBy(pages, serial, n, target);
    LeftoverFinishes(Mine(pages, serial), HeaderPages(Mine(pages, serial), n), k);
  }

  lemma LeftoverFinishes(mine: seq<Page>, h: nat, k: nat)
    requires h <= k <= |mine| && HolesInFront(mine)
    ensures Finishes(Leftover(mine[h..k], [])) <==> k > h && PacketBehindHole(mine[k - 1])
  {
    hide Leftover;
    LeftoverIsLast(mine[h..k], []);
    if k > h {
      assert mine[h..k][|mine[h..k]| - 1] == mine[k - 1];
      FinishesBehindHole(mine[k - 1]);
    } else {
      assert mine[h..k] == [];
    }
  }

  lemma FinishesBehindHole(page: Page)
    requires forall k :: 0 < k < |page.items| ==> page.items[k].Whole?
    ensures Finishes(LeftOf(page.items)) <==> PacketBehindHole(page)
  {
    if PacketBehindHole(page) {
      assert LeftOf(page.items)[0] == page.items[1];
    }
  }

  lemma {:induction false} ListingSplit(pages: seq<Page>, end: nat, k: nat)
    requires k <= |pages|
    ensures Listing(pages, end) == Listing(pages[..k], end) + Listing(pages[k..], RunningEnd(pages, end, k))
  {
    if k == 0 {
      assert pages[0..] == pages && pages[..0] == [];
    } else {
      ListingSplit(pages[1..], Advance(pages[0], end), k - 1);
      assert pages[1..][k - 1..] == pages[k..] && pages[..k][1..] == pages[1..][..k - 1];
    }
  }

  lemma {:induction false} TruthfulTail(pages: seq<Page>, total: nat, k: nat)
    requires k <= |pages| && Truthful(pages, total) && AllHoleFree(pages)
    ensures Truthful(pages[k..], RunningEnd(pages, total, k))
  {
    if k == 0 {
      assert pages[0..] == pages;
    } else {
      var after := Advance(pages[0], total);
      assert after == total + Span(pages[0].items) by {
        if pages[0].items != [] {
          assert pages[0].items[0].Whole?;
        }
      }
      TruthfulTail(pages[1..], after, k - 1);
      assert pages[1..][k - 1..] == pages[k..];
    }
  }

  /** After a seek in a file with no page lost, either the target is past every page, or the
      next packet is timed, starts at or before the target, and its frame is the sum of the
      durations of every packet before it in the file. */
  lemma SeekThenFirstPacket(pages: seq<Page>, serial: int, n: nat, target: nat) returns (k: nat)
    requires var mine := Mine(pages, serial);
             CleanHeaders(mine, n) && AllHoleFree(mine) && Truthful(mine, 0) &&
             HeaderPages(mine, n) <= SEEK_GUARD
    requires SeekLoop(FromTop(pages), serial, n, target, 0).0.Landed?
    ensures var at := SeekLoop(FromTop(pages), serial, n, target, 0).1;
            var mine := Mine(pages, serial);
            k < |mine| && target < RunningEnd(mine, 0, k + 1) &&
            var skipped := Listing(mine[..k], 0);
            Listing(mine, 0) == skipped + ListingFrom(at, serial) &&
            ListingFrom(at, serial) != [] &&
            var next := ListingFrom(at, serial)[0];
            next.timed && next.frame <= target &&
            |skipped| < |Starts(Items(mine), 0)| && next.frame == Starts(Items(mine), 0)[|skipped|]
  {
    k := SeekFollowedBy(pages, serial, n, target);
    var mine := Mine(pages, serial);
    var h := HeaderPages(mine, n);
    assert AllHoleFree(mine[h..k]);
    HoleFreeLeavesNothing(mine[h..k]);
    LandingPacket(mine, k, target);
  }

  /** The packets of a truthful file from page `k` on begin with one that starts where it says. */
  lemma LandingPacket(mine: seq<Page>, k: nat, target: nat)
    requires AllHoleFree(mine) && Truthful(mine, 0)
    requires k < |mine| && RunningEnd(mine, 0, k) <= target < RunningEnd(mine, 0, k + 1)
    ensures var skipped, rest := Listing(mine[..k], 0), Listing(mine[k..], RunningEnd(mine, 0, k));
            Listing(mine, 0) == skipped + rest && rest != [] &&
            rest[0].timed && rest[0].frame == RunningEnd(mine, 0, k) &&
            |skipped| < |Starts(Items(mine), 0)| && rest[0].frame == Starts(Items(mine), 0)[|skipped|]
  {
    TruthfulTail(mine, 0, k);
    ListingSplit(mine, 0, k);
    var skipped, start := Listing(mine[..k], 0), RunningEnd(mine, 0, k);
    RunningEndAppend(mine, 0, k, 1);
    assert mine[k..][0] == mine[k];
    assert RunningEnd(mine[k..], start, 1) == Advance(mine[k], start);
    assert Finishes(mine[k].items) && mine[k].items[0].Whole?;
    var rest := Listing(mine[k..], start);
    assert rest[0] == Packet(0, mine[k].items[0].bytes, start, true, true);
    TimedMeansExact(mine, |skipped|);
  }

  /** A file with a page lost before its third. */
  function LossyFile(): seq<Page> {
    [Page(0, 0, [Whole([9], 0)]), Page(0, 100, [Whole([1], 100)]),
     Page(0, 180, [Hole(50), Whole([2], 30)]), Page(0, 300, [Whole([3], 120)])]
  }

  lemma LossyFileIsTruthful()
    ensures Truthful(LossyFile(), 0)
  {
    var pages := LossyFile();
    assert pages[2].items[1..] == [Whole([2], 30)];
    assert pages[2].items[1].Whole? && pages[3].items[0].Whole?;
    assert pages[0].items[0].Whole? && pages[1].items[0].Whole?;
    assert Truthful(pages[3..], 180);
    assert pages[2..][1..] == pages[3..];
    assert Truthful(pages[2..], 100);
    assert pages[1..][1..] == pages[2..];
    assert Truthful(pages[1..], 0);
  }

  /** Seeking just past the lost page: the next packet is one of an earlier page, flagged as
      starting where the later one does. */
  lemma SeekBehindHole()
    ensures var (outcome, at) := SeekLoop(FromTop(LossyFile()), 0, 1, 200, 0);
            outcome.Landed? && at.first && at.start == 180 &&
            at.queue == [Whole([2], 30), Whole([3], 120)] && at.rest == []
  {
    var pages := LossyFile();
    var afterHeader := Cursor([], pages[1..], 0, 0, true);
    assert [] + pages[0].items == pages[0].items;
    assert pages[0].items[1..] == [];
    assert SeekLoop(FromTop(pages), 0, 1, 200, 0) == SeekLoop(afterHeader, 0, 0, 200, 1);
    assert [] + pages[1].items == pages[1].items && DropPackets(pages[1].items) == [];
    var second := Cursor([], pages[2..], 0, 100, true);
    assert SeekLoop(afterHeader, 0, 0, 200, 1) == SeekLoop(second, 0, 0, 200, 2);
    assert [] + pages[2].items == pages[2].items;
    assert DropPackets(pages[2].items) == [Whole([2], 30)];
    var third := Cursor([Whole([2], 30)], pages[3..], 100, 180, true);
    assert SeekLoop(second, 0, 0, 200, 2) == SeekLoop(third, 0, 0, 200, 3);
    assert third.queue + pages[3].items == [Whole([2], 30), Whole([3], 120)];
  }
}
