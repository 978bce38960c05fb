/** The seed tool's Ogg reader: packets out of pages, joined where a lacing value of 255 says
    a packet goes on. */
module OggLacing {
  import opened Delivery

  const CAPTURE: Bytes := [0x4F, 0x67, 0x67, 0x53]

  /** `data[:n]` and `data[n:]`, which stop at the end. */
  function First(data: Bytes, n: nat): Bytes {
    if n <= |data| then data[..n] else data
  }

  function Rest(data: Bytes, n: nat): (r: Bytes)
    ensures |r| <= |data|
  {
    if n <= |data| then data[n..] else []
  }

  /** What a page's lacing values make of its body: packets finished, the packet still open,
      and the bytes behind. */
  datatype Taken = Taken(packets: seq<Bytes>, open: Bytes, behind: Bytes)

  function TakeBody(table: Bytes, body: Bytes, open: Bytes): (t: Taken)
    ensures |t.behind| <= |body|
  {
    if table == [] then Taken([], open, body)
    else
      var joined := open + First(body, table[0]);
      var more := Rest(body, table[0]);
      if table[0] < 255 then
        var t := TakeBody(table[1..], more, []);
        t.(packets := [joined] + t.packets)
      else TakeBody(table[1..], more, joined)
  }

  /** Every packet of a file, given the one already open. */
  function Parse(data: Bytes, open: Bytes): seq<Bytes>
    decreases |data|
  {
    if 27 <= |data| && data[..4] == CAPTURE then
      var segments := data[26];
      var t := TakeBody(First(data[27..], segments), Rest(data[27..], segments), open);
      t.packets + Parse(t.behind, t.open)
    else []
  }

  method OggPackets(data: Bytes) returns (packets: seq<Bytes>)
    ensures packets == Parse(data, [])
  {
    packets := [];
    var current: Bytes := [];
    var at: nat := 0;
    while at + 27 <= |data| && data[at..at + 4] == CAPTURE
      invariant packets + Parse(Rest(data, at), current) == Parse(data, [])
      decreases |data| - at
    {
      var segments := data[at + 26] as nat;
      var table := First(data[at + 27..], segments);
      PageStarts(data, at, segments);
      ghost var before := packets;
      var finished, open, behind := ReadBody(data, table, at + 27 + segments, current);
      packets := packets + finished;
      current := open;
      at := behind;
      assert before + (finished + Parse(Rest(data, at), current)) ==
             packets + Parse(Rest(data, at), current);
    }
  }

  /** The inner loop: the body a page's lacing values describe. */
  method ReadBody(data: Bytes, table: Bytes, from: nat, open: Bytes)
      returns (packets: seq<Bytes>, current: Bytes, body: nat)
    ensures body >= from
    ensures Taken(packets, current, Rest(data, body)) == TakeBody(table, Rest(data, from), open)
  {
    hide TakeBody, First;
    packets, current, body := [], open, from;
    ghost var whole := TakeBody(table, Rest(data, from), open);
    assert table[0..] == table;
    for i := 0 to |table|
      invariant body >= from
      invariant var t := TakeBody(table[i..], Rest(data, body), current);
                whole == t.(packets := packets + t.packets)
    {
      var lacing := table[i] as nat;
      BodyStep(table, i, Rest(data, body), current, packets);
      RestOfRest(data, body, lacing);
      current := current + First(Rest(data, body), lacing);
      body := body + lacing;
      if lacing < 255 {
        packets := packets + [current];
        current := [];
      }
    }
    assert table[|table|..] == [];
    BodyDone(Rest(data, body), current);
    assert packets + [] == packets;
  }

  lemma BodyDone(body: Bytes, open: Bytes)
    ensures TakeBody([], body, open) == Taken([], open, body)
  {
  }

  /** One lacing value, with `before` finished already. */
  lemma BodyStep(table: Bytes, i: nat, body: Bytes, open: Bytes, before: seq<Bytes>)
    requires i < |table|
    ensures var t := TakeBody(table[i..], body, open);
            var joined, more := open + First(body, table[i]), Rest(body, table[i]);
            if table[i] < 255 then
              var later := TakeBody(table[i + 1..], more, []);
              t.(packets := before + t.packets) == later.(packets := before + [joined] + later.packets)
            else t == TakeBody(table[i + 1..], more, joined)
  {
    assert table[i..][0] == table[i] && table[i..][1..] == table[i + 1..];
    if table[i] < 255 {
      var joined, more := open + First(body, table[i]), Rest(body, table[i]);
      var later := TakeBody(table[i + 1..], more, []);
      assert before + ([joined] + later.packets) == before + [joined] + later.packets;
    }
  }

  lemma PageStarts(data: Bytes, at: nat, n: nat)
    requires at + 27 <= |data|
    ensures var page := Rest(data, at);
            |page| == |data| - at && page[..4] == data[at..at + 4] && page[26] == data[at + 26] &&
            page[27..] == data[at + 27..] && Rest(page[27..], n) == Rest(data, at + 27 + n)
  {
  }

  lemma RestOfRest(data: Bytes, at: nat, n: nat)
    ensures Rest(data, at + n) == Rest(Rest(data, at), n)
  {
  }

  // ------------------------------------------------------------------
  // The format: sections 5 and 6 of RFC 3533
  // ------------------------------------------------------------------

  /** A packet in segments: full ones of 255 bytes, and a last one shorter, empty if need be. */
  function Segments(packet: Bytes): (r: seq<Bytes>)
    ensures forall s :: s in r ==> |s| <= 255
    decreases |packet|
  {
    if |packet| < 255 then [packet] else [packet[..255]] + Segments(packet[255..])
  }

  function AllSegments(packets: seq<Bytes>): seq<Bytes> {
    if packets == [] then [] else Segments(packets[0]) + AllSegments(packets[1..])
  }

  /** A page: 22 bytes of header between the capture pattern and the segment count, which the
      tool does not read, and at most 255 segments. */
  datatype Page = Page(header: Bytes, segments: seq<Bytes>) {
    predicate Valid() {
      |header| == 22 && |segments| <= 255 && forall i :: 0 <= i < |segments| ==> |segments[i]| <= 255
    }
  }

  function Lacing(segments: seq<Bytes>): (r: Bytes)
    requires forall i :: 0 <= i < |segments| ==> |segments[i]| <= 255
    ensures |r| == |segments|
  {
    if segments == [] then [] else [|segments[0]|] + Lacing(segments[1..])
  }

  function Joined(parts: seq<Bytes>): Bytes {
    if parts == [] then [] else parts[0] + Joined(parts[1..])
  }

  function PageBytes(page: Page): Bytes
    requires page.Valid()
  {
    CAPTURE + page.header + [|page.segments|] + Lacing(page.segments) + Joined(page.segments)
  }

  function FileBytes(pages: seq<Page>): Bytes
    requires forall i :: 0 <= i < |pages| ==> pages[i].Valid()
  {
    if pages == [] then [] else PageBytes(pages[0]) + FileBytes(pages[1..])
  }

  function PageSegments(pages: seq<Page>): seq<Bytes> {
    if pages == [] then [] else pages[0].segments + PageSegments(pages[1..])
  }

  /** Segments back into packets: finished, and still open. */
  function Unsegment(segments: seq<Bytes>, open: Bytes): (seq<Bytes>, Bytes) {
    if segments == [] then ([], open)
    else
      var joined := open + segments[0];
      if |segments[0]| < 255 then
        var (packets, rest) := Unsegment(segments[1..], []);
        ([joined] + packets, rest)
      else Unsegment(segments[1..], joined)
  }

  lemma {:induction false} UnsegmentConcat(a: seq<Bytes>, b: seq<Bytes>, open: Bytes)
    ensures var first := Unsegment(a, open);
            var second := Unsegment(b, first.1);
            Unsegment(a + b, open) == (first.0 + second.0, second.1)
  {
    if a == [] {
      var second := Unsegment(b, open);
      assert a + b == b && [] + second.0 == second.0;
    } else {
      assert (a + b)[0] == a[0] && (a + b)[1..] == a[1..] + b;
      var joined := open + a[0];
      if |a[0]| < 255 {
        UnsegmentConcat(a[1..], b, []);
        var first := Unsegment(a[1..], []);
        var second := Unsegment(b, first.1);
        assert [joined] + (first.0 + second.0) == [joined] + first.0 + second.0;
      } else {
        UnsegmentConcat(a[1..], b, joined);
      }
    }
  }

  lemma {:induction false} UnsegmentOne(packet: Bytes, open: Bytes)
    ensures Unsegment(Segments(packet), open) == ([open + packet], [])
    decreases |packet|
  {
    if |packet| < 255 {
      var one := Segments(packet);
      assert one[0] == packet && one[1..] == [];
      assert Unsegment(one[1..], []) == ([], []);
      assert [open + packet] + [] == [open + packet];
    } else {
      var head, tail := packet[..255], packet[255..];
      assert Segments(packet)[0] == head && Segments(packet)[1..] == Segments(tail);
      UnsegmentOne(tail, open + head);
      assert open + head + tail == open + packet;
    }
  }

  lemma {:induction false} UnsegmentAll(packets: seq<Bytes>)
    ensures Unsegment(AllSegments(packets), []) == (packets, [])
  {
    if packets != [] {
      UnsegmentOne(packets[0], []);
      UnsegmentAll(packets[1..]);
      UnsegmentConcat(Segments(packets[0]), AllSegments(packets[1..]), []);
      assert [] + packets[0] == packets[0];
      assert [packets[0]] + packets[1..] == packets;
    }
  }

  lemma {:induction false} BodyTaken(segments: seq<Bytes>, tail: Bytes, open: Bytes)
    requires forall i :: 0 <= i < |segments| ==> |segments[i]| <= 255
    ensures var (packets, rest) := Unsegment(segments, open);
            TakeBody(Lacing(segments), Joined(segments) + tail, open) == Taken(packets, rest, tail)
  {
    if segments == [] {
      assert Joined(segments) + tail == tail;
    } else {
      var body, more := Joined(segments) + tail, Joined(segments[1..]) + tail;
      assert body == segments[0] + more;
      assert First(body, |segments[0]|) == segments[0] && Rest(body, |segments[0]|) == more;
      assert Lacing(segments)[1..] == Lacing(segments[1..]);
      BodyTaken(segments[1..], tail, if |segments[0]| < 255 then [] else open + segments[0]);
    }
  }

  lemma PageParts(page: Page, tail: Bytes)
    requires page.Valid()
    ensures var data := PageBytes(page) + tail;
            27 <= |data| && data[..4] == CAPTURE && data[26] == |page.segments| &&
            First(data[27..], |page.segments|) == Lacing(page.segments) &&
            Rest(data[27..], |page.segments|) == Joined(page.segments) + tail
  {
    var lacing, body := Lacing(page.segments), Joined(page.segments);
    var data := PageBytes(page) + tail;
    assert data == (CAPTURE + page.header + [|page.segments|]) + (lacing + (body + tail));
    assert data[27..] == lacing + (body + tail);
  }

  lemma {:induction false} ParsesPages(pages: seq<Page>, open: Bytes)
    requires forall i :: 0 <= i < |pages| ==> pages[i].Valid()
    ensures Parse(FileBytes(pages), open) == Unsegment(PageSegments(pages), open).0
  {
    if pages != [] {
      var tail := FileBytes(pages[1..]);
      PageParts(pages[0], tail);
      BodyTaken(pages[0].segments, tail, open);
      var rest := Unsegment(pages[0].segments, open).1;
      ParsesPages(pages[1..], rest);
      UnsegmentConcat(pages[0].segments, PageSegments(pages[1..]), open);
    }
  }

  /** Any packets, of any lengths, with their segments split into pages in any way, are read
      back as they were. */
  lemma LacingRoundTrip(packets: seq<Bytes>, pages: seq<Page>)
    requires forall i :: 0 <= i < |pages| ==> pages[i].Valid()
    requires PageSegments(pages) == AllSegments(packets)
    ensures Parse(FileBytes(pages), []) == packets
  {
    ParsesPages(pages, []);
    UnsegmentAll(packets);
  }
}
