/** Ogg positions: what the packet reader of `demux_ogg` makes of a list of pages.
    libogg is a queue of finished packets fed a page at a time; the pages are the file. */
module OggPages {
  import opened Delivery
  import opened Patience

  /** What a page puts in libogg's queue: a packet that finishes on it, or the report of a
      hole. `dur` and `lost` are granules a decoder would count; nothing here reads them. */
  datatype Item = Whole(bytes: Bytes, dur: nat) | Hole(lost: nat)

  /** A page as `ogg_sync_pageout` yields it. A packet continued over several pages is an
      item of the page it finishes on. */
  datatype Page = Page(serial: int, granule: int, items: seq<Item>)

  /** How many turns of its loop one `read_packet` takes before giving up. */
  const GUARD: nat := 4096

  /** The reader between two packets: libogg's queue, the pages not read yet, and the
      running positions. */
  datatype Cursor = Cursor(queue: seq<Item>, rest: seq<Page>, start: nat, end: nat, first: bool)

  /** Where a page leaves the running granule. */
  function Advance(page: Page, end: nat): nat {
    if page.granule >= 0 then page.granule else end
  }

  /** The next page of the stream, past any other stream's. */
  function NextPage(c: Cursor, serial: int): (r: Option<Cursor>)
    ensures r.Some? ==> |r.value.rest| < |c.rest|
    decreases |c.rest|
  {
    if c.rest == [] then None
    else
      var page := c.rest[0];
      if page.serial != serial then NextPage(c.(rest := c.rest[1..]), serial)
      else Some(Cursor(c.queue + page.items, c.rest[1..], c.end, Advance(page, c.end), true))
  }

  function PacketOf(c: Cursor, bytes: Bytes): Packet {
    Packet(0, bytes, c.start, c.first, true)
  }

  /** Every packet the reader will hand over from `c`, having spent `idle` turns of the
      current call on pages and holes. */
  function Run(c: Cursor, serial: int, idle: nat): seq<Packet>
    decreases |c.rest|, |c.queue|
  {
    if idle >= GUARD then []
    else if c.queue != [] then
      match c.queue[0]
      case Whole(bytes, _) =>
        [PacketOf(c, bytes)] + Run(c.(queue := c.queue[1..], first := false), serial, 0)
      case Hole(_) => Run(c.(queue := c.queue[1..]), serial, idle + 1)
    else
      match NextPage(c, serial)
      case None => []
      case Some(next) => Run(next, serial, idle + 1)
  }

  // ------------------------------------------------------------------
  // The same packets, listed page by page with no reader at all
  // ------------------------------------------------------------------

  function Mine(pages: seq<Page>, serial: int): seq<Page> {
    if pages == [] then []
    else (if pages[0].serial == serial then [pages[0]] else []) + Mine(pages[1..], serial)
  }

  /** The packets of one page: only the first is timed. */
  function PagePackets(items: seq<Item>, start: nat, first: bool): seq<Packet> {
    if items == [] then []
    else if items[0].Hole? then PagePackets(items[1..], start, first)
    else [Packet(0, items[0].bytes, start, first, true)] + PagePackets(items[1..], start, false)
  }

  function Listing(pages: seq<Page>, end: nat): seq<Packet> {
    if pages == [] then []
    else PagePackets(pages[0].items, end, true) + Listing(pages[1..], Advance(pages[0], end))
  }

  /** What is still to come from `c`, if no call ever gives up. */
  function ListingFrom(c: Cursor, serial: int): seq<Packet> {
    PagePackets(c.queue, c.start, c.first) + Listing(Mine(c.rest, serial), c.end)
  }

  /** What the reader meets, in order: packets, and pages and holes in front of them. */
  function ItemTurns(items: seq<Item>): seq<Turn> {
    seq(|items|, i requires 0 <= i < |items| => TurnOf(items[i]))
  }

  function TurnOf(item: Item): Turn {
    if item.Whole? then Finds(1) else Idle
  }

  function Turns(pages: seq<Page>): seq<Turn> {
    if pages == [] then []
    else [Idle] + ItemTurns(pages[0].items) + Turns(pages[1..])
  }

  function TurnsFrom(c: Cursor, serial: int): seq<Turn> {
    ItemTurns(c.queue) + Turns(Mine(c.rest, serial))
  }

  /** A stream's pages are those of its serial number, in order, once each. */
  lemma {:induction false} MineAre(pages: seq<Page>, k: nat, serial: int)
    requires k <= |pages|
    ensures Mine(pages, serial) == Mine(pages[..k], serial) + Mine(pages[k..], serial)
    ensures k < |pages| ==> Mine([pages[k]], serial) == if pages[k].serial == serial then [pages[k]] else []
    decreases k
  {
    if k == 0 {
      assert pages[..0] == [] && pages[0..] == pages && [] + Mine(pages, serial) == Mine(pages, serial);
    } else {
      MineAre(pages[1..], k - 1, serial);
      assert pages[1..][..k - 1] == pages[..k][1..] && pages[1..][k - 1..] == pages[k..];
      Regroup(if pages[0].serial == serial then [pages[0]] else [], Mine(pages[..k][1..], serial), Mine(pages[k..], serial));
    }
    if k < |pages| {
      assert [pages[k]][1..] == [];
    }
  }

  /** The packets of a page are its finished packets, bytes as they are and in order; the first of
      them states where the page starts, and no other a position. */
  lemma {:induction false} PagePacketsAre(items: seq<Item>, start: nat, first: bool, k: nat)
    requires k < |PagePackets(items, start, first)|
    ensures |PagePackets(items, start, first)| == |Finished(items)|
    ensures var p := PagePackets(items, start, first)[k];
            p.bytes == Finished(items)[k] && (p.timed <==> first && k == 0) && p.frame == start && p.sync
    decreases |items|
  {
    if items[0].Hole? {
      PagePacketsAre(items[1..], start, first, k);
    } else if k > 0 {
      PagePacketsAre(items[1..], start, false, k - 1);
    } else {
      CountFinished(items[1..], start, false);
    }
  }

  lemma {:induction false} CountFinished(items: seq<Item>, start: nat, first: bool)
    ensures |PagePackets(items, start, first)| == |Finished(items)|
    decreases |items|
  {
    if items != [] {
      CountFinished(items[1..], start, if items[0].Hole? then first else false);
    }
  }

  /** The bytes of the packets that finish on a page. */
  function Finished(items: seq<Item>): seq<Bytes> {
    if items == [] then []
    else (if items[0].Whole? then [items[0].bytes] else []) + Finished(items[1..])
  }

  lemma {:induction false} FinishedConcat(a: seq<Item>, b: seq<Item>)
    ensures Finished(a + b) == Finished(a) + Finished(b)
    decreases |a|
  {
    if a == [] {
      assert a + b == b && [] + Finished(b) == Finished(b);
    } else {
      assert (a + b)[0] == a[0] && (a + b)[1..] == a[1..] + b;
      FinishedConcat(a[1..], b);
      Regroup(if a[0].Whole? then [a[0].bytes] else [], Finished(a[1..]), Finished(b));
    }
  }

  /** Page after page: every packet of the stream is listed, bytes as they are, in order. */
  lemma {:induction false} ListingHolds(pages: seq<Page>, end: nat, k: nat)
    requires k < |Listing(pages, end)|
    ensures |Listing(pages, end)| == |Finished(Items(pages))|
    ensures Listing(pages, end)[k].bytes == Finished(Items(pages))[k]
    decreases |pages|
  {
    var front, more := PagePackets(pages[0].items, end, true), Listing(pages[1..], Advance(pages[0], end));
    FinishedConcat(pages[0].items, Items(pages[1..]));
    CountFinished(pages[0].items, end, true);
    CountListed(pages[1..], Advance(pages[0], end));
    if k < |front| {
      PagePacketsAre(pages[0].items, end, true, k);
    } else {
      ListingHolds(pages[1..], Advance(pages[0], end), k - |front|);
    }
  }

  lemma {:induction false} CountListed(pages: seq<Page>, end: nat)
    ensures |Listing(pages, end)| == |Finished(Items(pages))|
    decreases |pages|
  {
    if pages != [] {
      FinishedConcat(pages[0].items, Items(pages[1..]));
      CountFinished(pages[0].items, end, true);
      CountListed(pages[1..], Advance(pages[0], end));
    }
  }

  lemma {:induction false} NextPageIsMine(c: Cursor, serial: int)
    ensures NextPage(c, serial).None? <==> Mine(c.rest, serial) == []
    ensures NextPage(c, serial).Some? ==>
              var next := NextPage(c, serial).value;
              var pages := Mine(c.rest, serial);
              next.queue == c.queue + pages[0].items && next.start == c.end && next.first &&
              next.end == Advance(pages[0], c.end) && Mine(next.rest, serial) == pages[1..]
    decreases |c.rest|
  {
    if c.rest != [] {
      if c.rest[0].serial != serial {
        NextPageIsMine(c.(rest := c.rest[1..]), serial);
        assert Mine(c.rest, serial) == Mine(c.rest[1..], serial);
      } else {
        assert Mine(c.rest, serial)[1..] == Mine(c.rest[1..], serial);
      }
    }
  }

  lemma {:induction false} CountsPackets(items: seq<Item>, start: nat, first: bool)
    ensures Count(ItemTurns(items)) == |PagePackets(items, start, first)|
  {
    if items != [] {
      assert ItemTurns(items)[1..] == ItemTurns(items[1..]);
      CountsPackets(items[1..], start, if items[0].Hole? then first else false);
    }
  }

  lemma {:induction false} PagePacketsLength(items: seq<Item>, start: nat, first: bool)
    ensures |PagePackets(items, start, first)| == |PagePackets(items, start, false)|
  {
    if items != [] && items[0].Hole? {
      PagePacketsLength(items[1..], start, first);
    }
  }

  lemma {:induction false} CountsListing(pages: seq<Page>, end: nat)
    ensures Count(Turns(pages)) == |Listing(pages, end)|
  {
    if pages != [] {
      var page, more := ItemTurns(pages[0].items), Turns(pages[1..]);
      CountsListing(pages[1..], Advance(pages[0], end));
      CountsPackets(pages[0].items, end, true);
      CountConcat([Idle] + page, more);
      CountConcat([Idle], page);
      assert Count([Idle]) == 0;
    }
  }

  lemma CountFrom(c: Cursor, serial: int)
    ensures Count(TurnsFrom(c, serial)) == |ListingFrom(c, serial)|
  {
    CountsPackets(c.queue, c.start, c.first);
    CountsListing(Mine(c.rest, serial), c.end);
    CountConcat(ItemTurns(c.queue), Turns(Mine(c.rest, serial)));
  }

  /** The cursor behind the first item of its queue. */
  function ItemTaken(c: Cursor): Cursor
    requires c.queue != []
  {
    c.(queue := c.queue[1..], first := c.first && c.queue[0].Hole?)
  }

  /** One item off the queue, on both sides. */
  lemma QueueStep(c: Cursor, serial: int)
    requires c.queue != []
    ensures var after := ItemTaken(c);
            TurnsFrom(c, serial) == [TurnOf(c.queue[0])] + TurnsFrom(after, serial) &&
            ListingFrom(c, serial) ==
            (if c.queue[0].Hole? then [] else [PacketOf(c, c.queue[0].bytes)]) +
            ListingFrom(after, serial)
  {
    ItemStep(c.queue, c.start, c.first);
    hide ItemTurns, PagePackets;
    var first := c.first && c.queue[0].Hole?;
    var more := Listing(Mine(c.rest, serial), c.end);
    Regroup([TurnOf(c.queue[0])], ItemTurns(c.queue[1..]), Turns(Mine(c.rest, serial)));
    Regroup(if c.queue[0].Hole? then [] else [PacketOf(c, c.queue[0].bytes)],
            PagePackets(c.queue[1..], c.start, first), more);
  }

  lemma ItemStep(items: seq<Item>, start: nat, first: bool)
    requires items != []
    ensures ItemTurns(items) == [TurnOf(items[0])] + ItemTurns(items[1..])
    ensures PagePackets(items, start, first) ==
            (if items[0].Hole? then [] else [Packet(0, items[0].bytes, start, first, true)]) +
            PagePackets(items[1..], start, first && items[0].Hole?)
  {
  }

  /** One page off the file, on both sides. */
  lemma PageStep(c: Cursor, serial: int)
    requires c.queue == []
    ensures match NextPage(c, serial)
            case None => TurnsFrom(c, serial) == [] && ListingFrom(c, serial) == []
            case Some(next) =>
              TurnsFrom(c, serial) == [Idle] + TurnsFrom(next, serial) &&
              ListingFrom(c, serial) == ListingFrom(next, serial)
  {
    NextPageIsMine(c, serial);
    if NextPage(c, serial).Some? {
      var pages := Mine(c.rest, serial);
      assert c.queue + pages[0].items == pages[0].items;
    }
  }

  /** The reader hands over a prefix of the listing, and all of it exactly when no packet
      lies behind `GUARD` pages and holes. */
  lemma {:induction false} RunIsListing(c: Cursor, serial: int, idle: nat)
    ensures Run(c, serial, idle) <= ListingFrom(c, serial)
    ensures Run(c, serial, idle) == ListingFrom(c, serial) <==> Patient(TurnsFrom(c, serial), idle, GUARD)
    decreases |c.rest|, |c.queue|
  {
    hide Run, Patient, TurnsFrom, ListingFrom, NextPage, TurnOf, PacketOf;
    CountFrom(c, serial);
    RunStep(c, serial, idle);
    if idle >= GUARD {
      OutOfPatience(TurnsFrom(c, serial), idle, GUARD);
    } else if c.queue != [] {
      QueueStep(c, serial);
      var after, next := ItemTaken(c), if c.queue[0].Whole? then 0 else idle + 1;
      RunIsListing(after, serial, next);
      IdleOrNot(c.queue[0]);
      OneTurn(TurnOf(c.queue[0]), TurnsFrom(after, serial), idle, GUARD);
    } else {
      PageStep(c, serial);
      match NextPage(c, serial)
      case None => NoTurns(idle, GUARD);
      case Some(next) =>
        RunIsListing(next, serial, idle + 1);
        OneTurn(Idle, TurnsFrom(next, serial), idle, GUARD);
    }
  }

  lemma RunStep(c: Cursor, serial: int, idle: nat)
    ensures idle >= GUARD ==> Run(c, serial, idle) == []
    ensures idle < GUARD && c.queue != [] ==>
              Run(c, serial, idle) ==
              (if c.queue[0].Hole? then [] else [PacketOf(c, c.queue[0].bytes)]) +
              Run(ItemTaken(c), serial, if c.queue[0].Whole? then 0 else idle + 1)
    ensures idle < GUARD && c.queue == [] ==>
              match NextPage(c, serial)
              case None => Run(c, serial, idle) == []
              case Some(next) => Run(c, serial, idle) == Run(next, serial, idle + 1)
  {
  }

  lemma IdleOrNot(item: Item)
    ensures TurnOf(item) == if item.Whole? then Finds(1) else Idle
  {
  }

  /** Pages on which no packet finishes. */
  function Blank(n: nat): seq<Page> {
    if n == 0 then [] else [Page(0, -1, [])] + Blank(n - 1)
  }

  lemma BlankStep(n: nat, rest: seq<Page>)
    requires n > 0
    ensures var all, more := Blank(n) + rest, Blank(n - 1) + rest;
            all == [Page(0, -1, [])] + more && Turns(all) == [Idle] + Turns(more) &&
            Mine(all, 0) == [Page(0, -1, [])] + Mine(more, 0) && Listing(all, 0) == Listing(more, 0)
  {
    var all, more := Blank(n) + rest, Blank(n - 1) + rest;
    assert all == [Page(0, -1, [])] + more;
    assert all[1..] == more;
    assert [Idle] + [] + Turns(more) == [Idle] + Turns(more);
    assert [] + Listing(more, 0) == Listing(more, 0);
  }

  lemma {:induction false} BlankTurns(n: nat, rest: seq<Page>)
    requires Mine(rest, 0) == rest
    ensures Turns(Blank(n) + rest) == Idles(n) + Turns(rest)
    ensures Mine(Blank(n) + rest, 0) == Blank(n) + rest
    ensures Listing(Blank(n) + rest, 0) == Listing(rest, 0)
    decreases n
  {
    if n == 0 {
      assert Blank(0) + rest == rest && Idles(0) + Turns(rest) == Turns(rest);
    } else {
      hide Turns, Mine, Listing, Blank, Idles;
      BlankStep(n, rest);
      BlankTurns(n - 1, rest);
      OneMoreIdle(n);
      Regroup([Idle], Idles(n - 1), Turns(rest));
    }
  }

  /** A file whose one packet lies behind 4,096 pages on which none finishes is read as empty. */
  lemma StalledFileIsLost()
    ensures var file := Cursor([], Blank(GUARD) + [Page(0, 1, [Whole([1], 1)])], 0, 0, false);
            |ListingFrom(file, 0)| == 1 && Run(file, 0, 0) == []
  {
    var last := [Page(0, 1, [Whole([1], 1)])];
    var pages := Blank(GUARD) + last;
    var file := Cursor([], pages, 0, 0, false);
    hide Run, Patient, Turns, Mine, Listing, Count, Blank;
    OnePage();
    BlankTurns(GUARD, last);
    TooManyTurns(GUARD, Turns(last), 0, GUARD);
    assert TurnsFrom(file, 0) == Turns(pages) && ListingFrom(file, 0) == Listing(pages, 0);
    RunIsListing(file, 0, 0);
  }

  lemma OnePage()
    ensures var last := [Page(0, 1, [Whole([1], 1)])];
            Mine(last, 0) == last && Count(Turns(last)) == 1 && |Listing(last, 0)| == 1
  {
    var last := [Page(0, 1, [Whole([1], 1)])];
    assert last[1..] == [] && last[0].items[1..] == [];
    assert Turns(last) == [Idle] + ItemTurns(last[0].items) + [];
    assert Turns(last) == [Idle, Finds(1)];
    assert [Idle, Finds(1)][1..] == [Finds(1)] && [Finds(1)][1..] == [];
    assert Listing(last, 0) == [Packet(0, [1], 0, true, true)];
  }

  // ------------------------------------------------------------------
  // Positions
  // ------------------------------------------------------------------

  function Length(item: Item): nat {
    if item.Whole? then item.dur else item.lost
  }

  /** The granules of a list of items. */
  function Span(items: seq<Item>): nat {
    if items == [] then 0 else Length(items[0]) + Span(items[1..])
  }

  predicate Finishes(items: seq<Item>) {
    exists i :: 0 <= i < |items| && items[i].Whole?
  }

  predicate HoleFree(items: seq<Item>) {
    forall i :: 0 <= i < |items| ==> items[i].Whole?
  }

  predicate AllHoleFree(pages: seq<Page>) {
    forall i :: 0 <= i < |pages| ==> HoleFree(pages[i].items)
  }

  /** Section 6 of RFC 3533: a page states the running sum of the durations of the packets
      finished so far, or -1 when none finishes on it. */
  predicate Truthful(pages: seq<Page>, total: nat) {
    pages == [] ||
    (var after := total + Span(pages[0].items);
     (if Finishes(pages[0].items) then pages[0].granule == after else pages[0].granule < 0) &&
     Truthful(pages[1..], after))
  }

  function Items(pages: seq<Page>): seq<Item> {
    if pages == [] then [] else pages[0].items + Items(pages[1..])
  }

  /** Where each packet of a stream starts: after the durations of everything before it. */
  function Starts(items: seq<Item>, total: nat): seq<nat> {
    if items == [] then []
    else (if items[0].Whole? then [total] else []) + Starts(items[1..], total + Length(items[0]))
  }

  lemma {:induction false} StartsConcat(a: seq<Item>, b: seq<Item>, total: nat)
    ensures Starts(a + b, total) == Starts(a, total) + Starts(b, total + Span(a))
  {
    if a == [] {
      assert a + b == b;
    } else {
      assert (a + b)[1..] == a[1..] + b;
      StartsConcat(a[1..], b, total + Length(a[0]));
    }
  }

  /** How far behind the truth each packet's page start is: the granules lost in holes since
      the last page that stated one. */
  function Behind(items: seq<Item>, lost: nat): seq<nat> {
    if items == [] then []
    else if items[0].Hole? then Behind(items[1..], lost + items[0].lost)
    else [lost] + Behind(items[1..], lost)
  }

  /** What a page carries over to the next as lost: nothing, once it states a granule. */
  function LostAfter(page: Page, lost: nat): nat {
    if Finishes(page.items) then 0 else lost + Span(page.items)
  }

  function BehindAll(pages: seq<Page>, lost: nat): seq<nat> {
    if pages == [] then []
    else Behind(pages[0].items, lost) + BehindAll(pages[1..], LostAfter(pages[0], lost))
  }

  /** Every timed packet of `packets` is `behind` its true start by exactly what was lost. */
  ghost predicate Exact(packets: seq<Packet>, starts: seq<nat>, behind: seq<nat>) {
    |packets| == |starts| == |behind| &&
    forall k :: 0 <= k < |packets| && packets[k].timed ==>
      packets[k].frame + behind[k] == starts[k]
  }

  lemma {:induction false} PageExact(items: seq<Item>, start: nat, first: bool, total: nat, lost: nat)
    requires first ==> start + lost == total
    ensures Exact(PagePackets(items, start, first), Starts(items, total), Behind(items, lost))
  {
    if items != [] {
      if items[0].Hole? {
        PageExact(items[1..], start, first, total + items[0].lost, lost + items[0].lost);
      } else {
        PageExact(items[1..], start, false, total + items[0].dur, lost);
      }
    }
  }

  lemma ExactConcat(packets: seq<Packet>, starts: seq<nat>, behind: seq<nat>,
                    packets': seq<Packet>, starts': seq<nat>, behind': seq<nat>)
    requires Exact(packets, starts, behind) && Exact(packets', starts', behind')
    ensures Exact(packets + packets', starts + starts', behind + behind')
  {
  }

  /** Where a page leaves the running total, stated and lost. */
  lemma PageAdvances(page: Page, end: nat, lost: nat)
    requires if Finishes(page.items) then page.granule == end + lost + Span(page.items)
             else page.granule < 0
    ensures Advance(page, end) + LostAfter(page, lost) == end + lost + Span(page.items)
  {
  }

  /** Every timed packet carries its true start, less what holes lost since the last granule:
      `end` is the running granule and `end + lost` the true total. */
  lemma {:induction false} PositionsExact(pages: seq<Page>, end: nat, lost: nat)
    requires Truthful(pages, end + lost)
    ensures Exact(Listing(pages, end), Starts(Items(pages), end + lost), BehindAll(pages, lost))
  {
    if pages != [] {
      var page, total := pages[0], end + lost;
      var next, lost' := Advance(page, end), LostAfter(page, lost);
      PageAdvances(page, end, lost);
      PageExact(page.items, end, true, total, lost);
      PositionsExact(pages[1..], next, lost');
      StartsConcat(page.items, Items(pages[1..]), total);
      hide PagePackets, Starts, Behind, Exact, Span, Advance, LostAfter, Finishes;
      ExactConcat(PagePackets(page.items, end, true), Starts(page.items, total), Behind(page.items, lost),
                  Listing(pages[1..], next), Starts(Items(pages[1..]), next + lost'),
                  BehindAll(pages[1..], lost'));
    }
  }

  lemma {:induction false} NothingBehind(pages: seq<Page>)
    requires AllHoleFree(pages)
    ensures forall k :: 0 <= k < |BehindAll(pages, 0)| ==> BehindAll(pages, 0)[k] == 0
  {
    if pages != [] {
      NothingBehindOnPage(pages[0].items);
      assert LostAfter(pages[0], 0) == 0 by {
        if pages[0].items != [] {
          assert pages[0].items[0].Whole?;
        }
      }
      NothingBehind(pages[1..]);
    }
  }

  lemma {:induction false} NothingBehindOnPage(items: seq<Item>)
    requires HoleFree(items)
    ensures forall k :: 0 <= k < |Behind(items, 0)| ==> Behind(items, 0)[k] == 0
  {
    if items != [] {
      NothingBehindOnPage(items[1..]);
    }
  }

  /** With no page lost, the frame of every timed packet is the sum of the durations of all
      the packets before it. */
  lemma TimedMeansExact(pages: seq<Page>, k: nat)
    requires Truthful(pages, 0) && AllHoleFree(pages)
    requires k < |Listing(pages, 0)| && Listing(pages, 0)[k].timed
    ensures |Starts(Items(pages), 0)| == |Listing(pages, 0)|
    ensures Listing(pages, 0)[k].frame == Starts(Items(pages), 0)[k]
  {
    PositionsExact(pages, 0, 0);
    NothingBehind(pages);
  }

  /** After a lost page it is not: a packet of 100 granules, a page lost with 50 in it, and
      the next packet says 100 where 150 is the truth. */
  lemma HoleMakesPositionLate()
    ensures var pages := [Page(0, 100, [Whole([1], 100)]), Page(0, 180, [Hole(50), Whole([2], 30)])];
            Truthful(pages, 0) && |Listing(pages, 0)| == 2 &&
            Listing(pages, 0)[1].timed && Listing(pages, 0)[1].frame == 100 &&
            Starts(Items(pages), 0) == [0, 150]
  {
    var page1 := Page(0, 100, [Whole([1], 100)]);
    var page2 := Page(0, 180, [Hole(50), Whole([2], 30)]);
    assert page1.items[0].Whole? && page2.items[1].Whole?;
    assert Finishes(page1.items) && Finishes(page2.items);
    assert page2.items[1..] == [Whole([2], 30)];
    assert Span(page1.items) == 100 && Span(page2.items) == 80;
    var pages := [page1, page2];
    assert pages[1..] == [page2] && [page2][1..] == [];
    assert Truthful([page2], 100);
    assert Listing([page2], 100) == [Packet(0, [2], 100, true, true)];
    assert Items([page2]) == page2.items;
    assert Items(pages) == [Whole([1], 100), Hole(50), Whole([2], 30)];
    assert Items(pages)[1..] == page2.items;
  }
}
