/** The Ogg demuxer as the host calls it: open, read, seek. */
module OggDemux {
  import opened Delivery
  import opened OggPages
  import opened OggSeek
  import ByteOrder
  import StreamInfo
  import VorbisHeaders

  /** What the identification packet says the codec is, as far as the configuration goes. */
  datatype Codec = Vorbis | Flac | OpusOrSpeex

  /** The configuration a host is given: all of Vorbis's headers behind their lengths; FLAC's
      STREAMINFO, out of its mapping; or the identification packet as it is. */
  function Config(codec: Codec, first: Bytes, headers: seq<Bytes>): Bytes {
    match codec
    case Vorbis => VorbisHeaders.Framed([first] + headers)
    case Flac => if |first| >= 51 then first[17..51] else []
    case OpusOrSpeex => first
  }

  /** A configuration is one its codec reads: Vorbis's splits into its three headers again and into
      no others; FLAC's is the STREAMINFO its mapping wraps; and that of the others is the
      identification packet. */
  lemma ConfigReadBack(first: Bytes, headers: seq<Bytes>)
    ensures VorbisHeaders.Stated([first] + headers) && VorbisHeaders.NoneEmpty([first] + headers) ==>
              VorbisHeaders.Frames([first] + headers, Config(Vorbis, first, headers))
    ensures forall marker, streaminfo: Bytes ::
              |marker| == 9 && |streaminfo| == 34 && first == StreamInfo.OggMapping(marker, streaminfo) ==>
              Config(Flac, first, headers) == streaminfo
    ensures Config(OpusOrSpeex, first, headers) == first
  {
    forall marker, streaminfo: Bytes
      | |marker| == 9 && |streaminfo| == 34 && first == StreamInfo.OggMapping(marker, streaminfo)
      ensures Config(Flac, first, headers) == streaminfo
    {
      assert first[17..51] == streaminfo;
    }
  }

  class Demux {
    /** The file, as the pages libogg finds in it. */
    const pages: seq<Page>
    const serial: int
    const headerPackets: nat

    var config: Bytes
    /** libogg: packets finished and not taken, and the pages not read yet. */
    var queue: seq<Item>
    var rest: seq<Page>

    var ended: bool
    var pageStart: nat
    var pageEnd: nat
    var firstInPage: bool
    var pending: Bytes
    var pendingFrame: nat
    var pendingTimed: bool

    function Here(): Cursor
      reads this
    {
      Cursor(queue, rest, pageStart, pageEnd, firstInPage)
    }

    /** Every packet still to be handed over. */
    function Upcoming(): seq<Packet>
      reads this
    {
      (if pending != [] then [Packet(0, pending, pendingFrame, pendingTimed, true)] else []) +
      (if ended then [] else Run(Here(), serial, 0))
    }

    /** The packets of the whole file, headers and all, listed with no reader. */
    function Whole(): seq<Packet> {
      Listing(Mine(pages, serial), 0)
    }

    /** What is to come is a stretch of the file's own listing. */
    ghost predicate Faithful()
      reads this
    {
      Stretch(Upcoming(), Whole())
    }

    /** Opens on a file whose stream starts at page `bos` with an identification header. */
    constructor (pages: seq<Page>, bos: nat, headerPackets: nat, codec: Codec)
      requires bos < |pages| && pages[bos].items != [] && pages[bos].items[0].Whole?
      requires headerPackets > 0
      ensures this.pages == pages && serial == pages[bos].serial && this.headerPackets == headerPackets
      ensures pending == [] && !ended
      ensures var first := pages[bos].items;
              var (headers, at) := OpenLoop(Cursor(first[1..], pages[bos + 1..], 0, 0, false),
                                            pages[bos].serial, headerPackets - 1, 0);
              Here() == at && config == Config(codec, first[0].bytes, headers)
    {
      var first := pages[bos].items;
      this.pages, serial := pages, pages[bos].serial;
      this.headerPackets := headerPackets;
      queue, rest := first[1..], pages[bos + 1..];
      ended, pageStart, pageEnd, firstInPage := false, 0, 0, false;
      pending, pendingFrame, pendingTimed := [], 0, false;
      config := [];
      new;
      hide OpenLoop;
      var bytes := first[0].bytes;
      FirstConfig(bytes, codec);
      hide Config;
      ghost var headers := OpenLoop(Here(), serial, headerPackets - 1, 0).0;
      ReadHeaders(bytes, [], codec);
      assert [] + headers == headers;
    }

    /** The identification packet, into the configuration. */
    method FirstConfig(bytes: Bytes, codec: Codec)
      requires config == []
      modifies this`config
      ensures config == Config(codec, bytes, [])
    {
      if codec.Vorbis? {
        config := VorbisHeaders.PushLength(config, |bytes|);
      }
      if codec.Flac? {
        config := StreamInfo.OggConfig(bytes);
      } else {
        config := config + bytes;
      }
      FirstHeader(bytes);
    }

    /** The rest of the header packets, into the configuration where the codec wants them. */
    method ReadHeaders(ghost first: Bytes, ghost taken: seq<Bytes>, codec: Codec)
      requires headerPackets > 0 && config == Config(codec, first, taken)
      modifies this`config, this`queue, this`rest, this`pageStart, this`pageEnd, this`firstInPage
      ensures var (headers, at) := OpenLoop(old(Here()), serial, headerPackets - 1, 0);
              Here() == at && config == Config(codec, first, taken + headers)
    {
      hide OpenLoop, NextPage;
      ghost var got := taken;
      var have: nat := 1;
      var guard: nat := 0;
      while guard < GUARD && have < headerPackets
        invariant 1 <= have <= headerPackets && guard <= GUARD
        invariant config == Config(codec, first, got)
        invariant Opening(old(Here()), taken, Here(), got, headerPackets - have, guard)
        decreases GUARD - guard
      {
        OpenStep(Here(), serial, headerPackets - have, guard);
        if queue != [] && queue[0].Whole? {
          var bytes := queue[0].bytes;
          queue := queue[1..];
          config := AddHeader(first, got, bytes, codec);
          ghost var (more, at) := OpenLoop(Here(), serial, headerPackets - have - 1, guard + 1);
          Regroup(got, [bytes], more);
          got := got + [bytes];
          have := have + 1;
        } else {
          if queue != [] {
            queue := queue[1..];
          }
          var more := ReadPage();
          if !more {
            assert got + [] == got;
            return;
          }
        }
        guard := guard + 1;
      }
      OpenDone(Here(), serial, headerPackets - have, guard);
      assert got + [] == got;
    }

    /** The header loop, begun at `start`, has got to `now` with `got`. */
    ghost predicate Opening(start: Cursor, taken: seq<Bytes>, now: Cursor, got: seq<Bytes>, wanted: nat, guard: nat) {
      headerPackets > 0 &&
      var (headers, at) := OpenLoop(start, serial, headerPackets - 1, 0);
      var (more, same) := OpenLoop(now, serial, wanted, guard);
      at == same && taken + headers == got + more
    }

    method AddHeader(ghost first: Bytes, ghost got: seq<Bytes>, bytes: Bytes, codec: Codec) returns (r: Bytes)
      requires config == Config(codec, first, got)
      ensures r == Config(codec, first, got + [bytes])
    {
      r := config;
      if codec.Vorbis? {
        r := VorbisHeaders.PushLength(r, |bytes|);
        r := r + bytes;
        VorbisHeaders.FramedAppend([first] + got, bytes);
        assert [first] + got + [bytes] == [first] + (got + [bytes]);
      }
    }

    /** `next_page`: one more page of this stream, if there is one. */
    method ReadPage() returns (more: bool)
      modifies this`queue, this`rest, this`pageStart, this`pageEnd, this`firstInPage
      ensures match NextPage(old(Here()), serial)
              case None => !more && Here() == old(Here()).(rest := [])
              case Some(next) => more && Here() == next
    {
      while rest != []
        invariant NextPage(Here(), serial) == NextPage(old(Here()), serial)
        invariant Here() == old(Here()).(rest := rest)
        decreases |rest|
      {
        var page := rest[0];
        rest := rest[1..];
        if page.serial == serial {
          queue := queue + page.items;
          pageStart := pageEnd;
          if page.granule >= 0 {
            pageEnd := page.granule;
          }
          firstInPage := true;
          return true;
        }
      }
      more := false;
    }

    /** The next packet, held back when the host's buffer cannot take it. */
    method ReadPacket(buffer: Buffer) returns (reply: Reply)
      modifies this
      ensures (reply, Upcoming()) == Serve(old(Upcoming()), buffer, Forgotten)
      ensures config == old(config)
      ensures old(Faithful()) ==> Faithful() && (reply.Ok? ==> reply.packet in Whole())
    {
      ghost var before := Upcoming();
      reply := ReadHeldOrNext(buffer);
      if Stretch(before, Whole()) {
        StretchShrinks(before, Whole());
      }
    }

    /** A packet libogg has just handed over: to the host, or held for the next call. */
    method HandOver(bytes: Bytes, buffer: Buffer) returns (reply: Reply)
      requires pending == [] && !ended
      modifies this`pending, this`pendingTimed, this`pendingFrame, this`firstInPage
      ensures var queue := [PacketOf(old(Here()), bytes)] + Run(old(Here()).(first := false), serial, 0);
              (reply, Upcoming()) == Serve(queue, buffer, Forgotten)
    {
      ghost var after := Run(Here().(first := false), serial, 0);
      ghost var all := [PacketOf(Here(), bytes)] + after;
      assert all[1..] == after;
      if !Fits(buffer, |bytes|) {
        pending, pendingTimed, pendingFrame := bytes, firstInPage, pageStart;
        firstInPage := false;
        assert Here() == old(Here()).(first := false);
        assert Upcoming() == if bytes == [] then after else all;
        return TooSmall(|bytes|);
      }
      reply := Ok(Packet(0, bytes, pageStart, firstInPage, true));
      firstInPage := false;
      assert Here() == old(Here()).(first := false);
      assert Upcoming() == after;
    }

    method ReadHeldOrNext(buffer: Buffer) returns (reply: Reply)
      modifies this
      ensures (reply, Upcoming()) == Serve(old(Upcoming()), buffer, Forgotten)
      ensures config == old(config)
    {
      if pending != [] {
        if !Fits(buffer, |pending|) {
          return TooSmall(|pending|);
        }
        ghost var after := if ended then [] else Run(Here(), serial, 0);
        reply := Ok(Packet(0, pending, pendingFrame, pendingTimed, true));
        assert old(Upcoming())[1..] == after;
        pending := [];
        assert Upcoming() == after;
        return;
      }
      if ended {
        return End;
      }
      var guard: nat := 0;
      while guard < GUARD
        invariant guard <= GUARD && pending == [] && !ended && config == old(config)
        invariant Run(Here(), serial, guard) == old(Upcoming())
        decreases GUARD - guard
      {
        if queue != [] {
          var item := queue[0];
          queue := queue[1..];
          if item.Whole? {
            reply := HandOver(item.bytes, buffer);
            return;
          }
        } else {
          var more := ReadPage();
          if !more {
            ended := true;
            return End;
          }
        }
        guard := guard + 1;
      }
      ended := true;
      reply := End;
    }

    /** A host's run: one read for each buffer. */
    method ReadAll(buffers: seq<Buffer>) returns (replies: seq<Reply>)
      modifies this
      ensures replies == Serves(old(Upcoming()), buffers, Forgotten)
      ensures Upcoming() == Remaining(old(Upcoming()), buffers, Forgotten)
      decreases |buffers|
    {
      if buffers == [] {
        return [];
      }
      var first := ReadPacket(buffers[0]);
      var others := ReadAll(buffers[1..]);
      replies := [first] + others;
    }

    /** From the top of the file, forward to the page the target is inside. */
    method Seek(target: nat) returns (outcome: Outcome)
      modifies this
      ensures config == old(config) && pending == []
      ensures (outcome, Here()) == SeekLoop(FromTop(pages), serial, headerPackets, target, 0)
      ensures ended == outcome.PastEnd?
    {
      hide SeekLoop, NextPage, DropPackets, TakeHeaders;
      queue, rest := [], pages;
      ended, pending := false, [];
      pageStart, pageEnd, firstInPage := 0, 0, false;
      var headers: nat := 0;
      var guard: nat := 0;
      while guard < SEEK_GUARD
        invariant guard <= SEEK_GUARD && headers <= headerPackets
        invariant !ended && pending == [] && config == old(config)
        invariant SeekLoop(Here(), serial, headerPackets - headers, target, guard) ==
                  SeekLoop(FromTop(pages), serial, headerPackets, target, 0)
        decreases SEEK_GUARD - guard
      {
        SeekTurn(Here(), serial, headerPackets - headers, target, guard);
        var more := ReadPage();
        if !more {
          ended := true;
          return PastEnd;
        }
        if headers < headerPackets {
          headers := DiscardHeaders(headers);
          firstInPage := true;
        } else {
          if pageEnd > target {
            return Landed;
          }
          DiscardPackets();
        }
        guard := guard + 1;
      }
      SeekSpent(Here(), serial, headerPackets - headers, target, guard);
      outcome := Exhausted;
    }

    method DiscardHeaders(seen: nat) returns (headers: nat)
      requires seen <= headerPackets
      modifies this`queue
      ensures var (n, left) := TakeHeaders(old(queue), headerPackets - seen);
              headers == seen + n && queue == left
    {
      headers := seen;
      while headers < headerPackets && queue != []
        invariant seen <= headers <= headerPackets
        invariant var (n, left) := TakeHeaders(old(queue), headerPackets - seen);
                  var (m, same) := TakeHeaders(queue, headerPackets - headers);
                  left == same && seen + n == headers + m
        decreases |queue|
      {
        var item := queue[0];
        queue := queue[1..];
        if item.Hole? {
          return;
        }
        headers := headers + 1;
      }
    }

    method DiscardPackets()
      modifies this`queue
      ensures queue == DropPackets(old(queue))
    {
      while queue != []
        invariant DropPackets(queue) == DropPackets(old(queue))
        decreases |queue|
      {
        var item := queue[0];
        queue := queue[1..];
        if item.Hole? {
          return;
        }
      }
    }

    /** Whatever a seek found, the reader is back inside the file's own listing, provided the
        headers are laid out as they should be and no page is lost. */
    lemma SeekIsFaithful(outcome: Outcome, target: nat)
      requires CleanHeaders(Mine(pages, serial), headerPackets) && AllHoleFree(Mine(pages, serial))
      requires HeaderPages(Mine(pages, serial), headerPackets) <= SEEK_GUARD
      requires (outcome, Here()) == SeekLoop(FromTop(pages), serial, headerPackets, target, 0)
      requires pending == [] && ended == outcome.PastEnd? && !outcome.Exhausted?
      ensures Faithful()
    {
      if outcome.Landed? {
        var k := SeekFollowedBy(pages, serial, headerPackets, target);
        var mine := Mine(pages, serial);
        HoleFreeLeavesNothing(mine[HeaderPages(mine, headerPackets)..k]);
        AtPage(k);
      } else {
        assert Upcoming() <= Whole()[|Whole()|..];
      }
    }

    /** After opening, too. */
    lemma OpenIsFaithful(bos: nat)
      requires bos < |pages| && Mine(pages[..bos], serial) == [] && serial == pages[bos].serial
      requires |pages[bos].items| == 1 && pages[bos].items[0].Whole? && headerPackets > 0
      requires CleanHeaders(Mine(pages, serial), headerPackets)
      requires headerPackets + HeaderPages(Mine(pages, serial), headerPackets) <= GUARD
      requires pending == [] && !ended
      requires Here() == OpenLoop(Cursor(pages[bos].items[1..], pages[bos + 1..], 0, 0, false),
                                  serial, headerPackets - 1, 0).1
      ensures Faithful()
      ensures Upcoming() <= Listing(Mine(pages, serial)[HeaderPages(Mine(pages, serial), headerPackets)..], 0)
    {
      var h := OpenedAt(pages, bos, serial, headerPackets);
      assert PagePackets([], pageStart, firstInPage) == [];
      AtPage(h);
    }

    /** A reader that stands at the start of page `k` is inside the listing. */
    lemma AtPage(k: nat)
      requires k <= |Mine(pages, serial)| && pending == [] && !ended
      requires ListingFrom(Here(), serial) ==
               Listing(Mine(pages, serial)[k..], RunningEnd(Mine(pages, serial), 0, k))
      ensures Faithful()
      ensures Upcoming() <= ListingFrom(Here(), serial)
    {
      var mine := Mine(pages, serial);
      ListingSplit(mine, 0, k);
      RunIsListing(Here(), serial, 0);
      var i := |Listing(mine[..k], 0)|;
      assert Whole()[i..] == Listing(mine[k..], RunningEnd(mine, 0, k));
    }
  }

  /** A stretch of consecutive packets of `whole`. */
  ghost predicate Stretch(queue: seq<Packet>, whole: seq<Packet>) {
    exists i :: 0 <= i <= |whole| && queue <= whole[i..]
  }

  lemma StretchShrinks(queue: seq<Packet>, whole: seq<Packet>)
    requires Stretch(queue, whole)
    ensures queue != [] ==> queue[0] in whole && Stretch(queue[1..], whole)
    ensures Stretch([], whole)
  {
    var i :| 0 <= i <= |whole| && queue <= whole[i..];
    assert [] <= whole[i..];
    if queue != [] {
      assert queue[0] == whole[i..][0] == whole[i];
      assert queue[1..] <= whole[i + 1..] by {
        assert whole[i..][1..] == whole[i + 1..];
      }
    }
  }

  /** Opening leaves the reader at the first page behind the headers. */
  lemma OpenedAt(pages: seq<Page>, bos: nat, serial: int, n: nat) returns (h: nat)
    requires bos < |pages| && Mine(pages[..bos], serial) == [] && serial == pages[bos].serial
    requires |pages[bos].items| == 1 && pages[bos].items[0].Whole? && n > 0
    requires CleanHeaders(Mine(pages, serial), n)
    requires n + HeaderPages(Mine(pages, serial), n) <= GUARD
    ensures var at := OpenLoop(Cursor(pages[bos].items[1..], pages[bos + 1..], 0, 0, false),
                               serial, n - 1, 0).1;
            h == HeaderPages(Mine(pages, serial), n) && RunningEnd(Mine(pages, serial), 0, h) == 0 &&
            at.queue == [] && at.end == 0 && Mine(at.rest, serial) == Mine(pages, serial)[h..]
  {
    var mine := Mine(pages, serial);
    h := HeaderPages(mine, n);
    MineFrom(pages, bos, serial);
    assert pages[bos].items[1..] == [];
    OpenKeepsHeaders(Cursor([], pages[bos + 1..], 0, 0, false), serial, n - 1, 0);
    assert mine[1..][h - 1..] == mine[h..];
    HeaderGranules(mine, n);
  }

  lemma MineFrom(pages: seq<Page>, bos: nat, serial: int)
    requires bos < |pages| && Mine(pages[..bos], serial) == [] && serial == pages[bos].serial
    ensures var mine := Mine(pages, serial);
            mine != [] && mine[0] == pages[bos] && mine[1..] == Mine(pages[bos + 1..], serial)
  {
    MineConcat(pages[..bos], pages[bos..], serial);
    assert pages[..bos] + pages[bos..] == pages && pages[bos..][1..] == pages[bos + 1..];
  }

  /** One turn of the header loop. */
  lemma OpenStep(c: Cursor, serial: int, wanted: nat, guard: nat)
    requires guard < GUARD && wanted > 0
    ensures if c.queue != [] && c.queue[0].Whole? then
              var (headers, after) := OpenLoop(c.(queue := c.queue[1..]), serial, wanted - 1, guard + 1);
              OpenLoop(c, serial, wanted, guard) == ([c.queue[0].bytes] + headers, after)
            else
              var holeGone := if c.queue == [] then c else c.(queue := c.queue[1..]);
              OpenLoop(c, serial, wanted, guard) ==
              match NextPage(holeGone, serial)
              case None => ([], holeGone.(rest := []))
              case Some(next) => OpenLoop(next, serial, wanted, guard + 1)
  {
  }

  /** One turn of the seek. */
  lemma SeekTurn(c: Cursor, serial: int, missing: nat, target: nat, guard: nat)
    requires guard < SEEK_GUARD
    ensures SeekLoop(c, serial, missing, target, guard) ==
            match NextPage(c, serial)
            case None => (PastEnd, c.(rest := []))
            case Some(next) =>
              if missing > 0 then
                var (n, left) := TakeHeaders(next.queue, missing);
                SeekLoop(next.(queue := left, first := true), serial, missing - n, target, guard + 1)
              else if next.end > target then (Landed, next)
              else SeekLoop(next.(queue := DropPackets(next.queue)), serial, 0, target, guard + 1)
  {
  }

  lemma SeekSpent(c: Cursor, serial: int, missing: nat, target: nat, guard: nat)
    requires guard >= SEEK_GUARD
    ensures SeekLoop(c, serial, missing, target, guard) == (Exhausted, c)
  {
  }

  lemma OpenDone(c: Cursor, serial: int, wanted: nat, guard: nat)
    requires guard >= GUARD || wanted == 0
    ensures OpenLoop(c, serial, wanted, guard) == ([], c)
  {
  }

  lemma FirstHeader(first: Bytes)
    ensures Config(Vorbis, first, []) == ByteOrder.Le(|first|, 4) + first
  {
    VorbisHeaders.FramedAppend([], first);
    assert [] + [first] == [first] && [first] + [] == [first];
  }

  lemma {:induction false} MineConcat(a: seq<Page>, b: seq<Page>, serial: int)
    ensures Mine(a + b, serial) == Mine(a, serial) + Mine(b, serial)
    decreases |a|
  {
    if a == [] {
      assert a + b == b && Mine(a, serial) + Mine(b, serial) == Mine(b, serial);
    } else {
      assert (a + b)[0] == a[0] && (a + b)[1..] == a[1..] + b;
      MineStep(a + b, serial);
      MineStep(a, serial);
      hide Mine;
      MineConcat(a[1..], b, serial);
      Regroup(if a[0].serial == serial then [a[0]] else [], Mine(a[1..], serial), Mine(b, serial));
    }
  }

  lemma MineStep(pages: seq<Page>, serial: int)
    requires pages != []
    ensures Mine(pages, serial) == (if pages[0].serial == serial then [pages[0]] else []) + Mine(pages[1..], serial)
  {
  }

  lemma {:induction false} HeaderGranules(pages: seq<Page>, n: nat)
    requires CleanHeaders(pages, n)
    ensures RunningEnd(pages, 0, HeaderPages(pages, n)) == 0
  {
    if n != 0 {
      HeaderGranules(pages[1..], n - |pages[0].items|);
    }
  }
}
