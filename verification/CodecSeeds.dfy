/** The codec fuzzers' input, written by the seed tool and read by the fuzzer. */
module CodecSeeds {
  import opened Delivery
  import opened ByteOrder

  const MOST: nat := 0xFFFF
  const PACKETS: nat := 256

  function Cut(packet: Bytes): (r: Bytes)
    ensures r <= packet && (r == packet || |r| == 0xFFFF < |packet|)
  {
    if |packet| <= MOST then packet else packet[..MOST]
  }

  /** Each packet behind its length, cut to what a length can state. */
  function Framed(packets: seq<Bytes>): Bytes {
    if packets == [] then []
    else Le(|Cut(packets[0])|, 2) + Cut(packets[0]) + Framed(packets[1..])
  }

  function SeedBytes(selector: byte, config: Bytes, packets: seq<Bytes>): Bytes {
    [selector] + Le(|config|, 2) + config + Framed(packets) + [0]
  }

  /** The tool's writer. */
  method Seed(selector: byte, config: Bytes, packets: seq<Bytes>) returns (out: Bytes)
    requires |config| <= MOST
    ensures out == SeedBytes(selector, config, packets)
  {
    out := [selector];
    out := out + Le(|config|, 2);
    out := out + config;
    ghost var head := out;
    for i := 0 to |packets|
      invariant out + Framed(packets[i..]) == head + Framed(packets)
    {
      assert packets[i..][1..] == packets[i + 1..];
      var packet := Cut(packets[i]);
      ghost var before := out;
      out := out + Le(|packet|, 2);
      out := out + packet;
      assert before + (Le(|packet|, 2) + packet + Framed(packets[i + 1..])) == out + Framed(packets[i + 1..]);
    }
    assert packets[|packets|..] == [];
    out := out + [0];
  }

  /** Two bytes as a length, running out quietly. */
  function U16At(data: Bytes): nat {
    (if |data| > 0 then data[0] as int else 0) + 0x100 * (if |data| > 1 then data[1] as int else 0)
  }

  function Least(a: nat, b: nat): nat {
    if a < b then a else b
  }

  function Behind(data: Bytes, n: nat): Bytes {
    if n <= |data| then data[n..] else []
  }

  /** The packets of what is left of an input, at most `room` of them and none empty. */
  function ParsePackets(rest: Bytes, room: nat): (r: seq<Bytes>)
    ensures |r| <= room
    decreases |rest|
  {
    if |rest| < 2 || room == 0 then []
    else
      var n := Least(U16At(rest), |rest| - 2);
      if n == 0 then ParsePackets(rest[2..], room)
      else [rest[2..2 + n]] + ParsePackets(rest[2 + n..], room - 1)
  }

  datatype Input = Input(selector: nat, config: Bytes, packets: seq<Bytes>)

  function Parse(data: Bytes): Input {
    var selector := if data == [] then 0 else data[0] as int;
    var rest := Behind(data, 1);
    var body := Behind(rest, 2);
    var n := Least(U16At(rest), |body|);
    Input(selector, body[..n], ParsePackets(body[n..], PACKETS))
  }

  /** A stretch of the input: where it starts and how long it is. */
  datatype Slice = Slice(from: nat, size: nat)

  /** Slices of `data` in order, one after another, none empty and none outside. */
  predicate InOrder(slices: seq<Slice>, from: nat, to: nat) {
    (forall i :: 0 <= i < |slices| ==>
      from <= slices[i].from && slices[i].size > 0 && slices[i].from + slices[i].size <= to) &&
    (forall i, k :: 0 <= i < k < |slices| ==> slices[i].from + slices[i].size <= slices[k].from)
  }

  function Contents(data: Bytes, slices: seq<Slice>): seq<Bytes>
    requires forall i :: 0 <= i < |slices| ==> slices[i].from + slices[i].size <= |data|
  {
    if slices == [] then []
    else [data[slices[0].from..slices[0].from + slices[0].size]] + Contents(data, slices[1..])
  }

  lemma {:induction false} BytesAppend(data: Bytes, slices: seq<Slice>, last: Slice)
    requires forall i :: 0 <= i < |slices| ==> slices[i].from + slices[i].size <= |data|
    requires last.from + last.size <= |data|
    ensures Contents(data, slices + [last]) == Contents(data, slices) + [data[last.from..last.from + last.size]]
  {
    if slices == [] {
      assert slices + [last] == [last];
    } else {
      assert (slices + [last])[1..] == slices[1..] + [last];
      BytesAppend(data, slices[1..], last);
    }
  }

  /** Reads the input front to back; runs out quietly. */
  class Reader {
    const data: Bytes
    var at: nat

    ghost predicate Valid()
      reads this
    {
      at <= |data|
    }

    ghost function Unread(): Bytes
      reads this
      requires Valid()
    {
      data[at..]
    }

    constructor (data: Bytes)
      ensures Valid() && this.data == data && at == 0
    {
      this.data := data;
      at := 0;
    }

    method U8() returns (b: nat)
      requires Valid()
      modifies this
      ensures Valid() && Unread() == Behind(old(Unread()), 1)
      ensures b == if old(Unread()) == [] then 0 else old(Unread())[0] as int
      ensures at == Least(old(at) + 1, |data|)
    {
      if at < |data| {
        b := data[at];
        at := at + 1;
      } else {
        b := 0;
      }
    }

    method U16() returns (n: nat)
      requires Valid()
      modifies this
      ensures Valid() && Unread() == Behind(old(Unread()), 2)
      ensures n == U16At(old(Unread())) && at == Least(old(at) + 2, |data|)
    {
      var low := U8();
      var high := U8();
      n := low + 0x100 * high;
    }

    method Take(n: nat) returns (start: nat)
      requires Valid() && n <= |data| - at
      modifies this
      ensures Valid() && start == old(at) && at == start + n
      ensures Unread() == old(Unread())[n..]
    {
      start := at;
      at := at + n;
    }
  }

  /** The fuzzer's reading of its input. On any bytes at all it ends, with slices in order and
      inside the input that hold what `Parse` says. */
  method ReadInput(data: Bytes) returns (selector: nat, config: Slice, packets: seq<Slice>)
    ensures config.from + config.size <= |data| && InOrder(packets, config.from + config.size, |data|)
    ensures |packets| <= PACKETS
    ensures Parse(data) == Input(selector, data[config.from..config.from + config.size], Contents(data, packets))
  {
    hide Parse, ParsePackets, Contents, InOrder;
    var reader := new Reader(data);
    selector, config := ReadHead(reader);
    packets := ReadPackets(reader);
  }

  /** The selector and the configuration. */
  method ReadHead(reader: Reader) returns (selector: nat, config: Slice)
    requires reader.Valid() && reader.at == 0
    modifies reader
    ensures reader.Valid() && reader.at == config.from + config.size
    ensures Parse(reader.data) ==
            Input(selector, reader.data[config.from..reader.at], ParsePackets(reader.Unread(), PACKETS))
  {
    hide Parse, ParsePackets, U16At, Behind, Least;
    ParsedAs(reader.data);
    assert reader.Unread() == reader.data;
    selector := reader.U8();
    var size := reader.U16();
    AtMost(size, |reader.data| - reader.at);
    size := Least(size, |reader.data| - reader.at);
    var start := reader.Take(size);
    config := Slice(start, size);
  }

  /** The parse in terms of places in the input. */
  lemma ParsedAs(data: Bytes)
    ensures var first, start := Least(1, |data|), Least(Least(1, |data|) + 2, |data|);
            var n := Least(U16At(data[first..]), |data| - start);
            Parse(data) == Input(if data == [] then 0 else data[0] as int, data[start..start + n],
                                 ParsePackets(data[start + n..], PACKETS))
  {
    hide ParsePackets, U16At, Behind, Least;
    var first, start := Least(1, |data|), Least(Least(1, |data|) + 2, |data|);
    AtMost(1, |data|);
    AtMost(first + 2, |data|);
    BehindIs(data, 0, 1);
    BehindIs(data, first, 2);
    assert data[0..] == data;
    var n := Least(U16At(data[first..]), |data| - start);
    AtMost(U16At(data[first..]), |data| - start);
    Within(data, start, n);
  }

  lemma AtMost(a: nat, b: nat)
    ensures Least(a, b) <= b
  {
  }

  lemma BehindIs(data: Bytes, at: nat, n: nat)
    requires at <= |data|
    ensures Behind(data[at..], n) == data[Least(at + n, |data|)..]
  {
  }

  lemma Within(data: Bytes, start: nat, n: nat)
    requires start + n <= |data|
    ensures data[start..][..n] == data[start..start + n] && data[start..][n..] == data[start + n..]
  {
  }

  method ReadPackets(reader: Reader) returns (packets: seq<Slice>)
    requires reader.Valid()
    modifies reader
    ensures InOrder(packets, old(reader.at), |reader.data|) && |packets| <= PACKETS
    ensures Contents(reader.data, packets) == ParsePackets(old(reader.Unread()), PACKETS)
  {
    hide ParsePackets, Contents, U16At;
    packets := [];
    NoneYet(reader.data, reader.Unread());
    while |reader.data| - reader.at >= 2 && |packets| < PACKETS
      invariant reader.Valid() && old(reader.at) <= reader.at
      invariant InOrder(packets, old(reader.at), reader.at) && |packets| <= PACKETS
      invariant Contents(reader.data, packets) + ParsePackets(reader.Unread(), PACKETS - |packets|) ==
                ParsePackets(old(reader.Unread()), PACKETS)
      decreases |reader.data| - reader.at
    {
      ParseStep(reader.data, reader.at, PACKETS - |packets|);
      var n := reader.U16();
      n := Least(n, |reader.data| - reader.at);
      if n == 0 {
        continue;
      }
      var from := reader.Take(n);
      OneMore(reader.data, packets, Slice(from, n), old(reader.at));
      packets := packets + [Slice(from, n)];
    }
    ParseEnds(reader.Unread(), PACKETS - |packets|);
  }

  lemma NoneYet(data: Bytes, rest: Bytes)
    ensures Contents(data, []) + ParsePackets(rest, PACKETS) == ParsePackets(rest, PACKETS)
  {
  }

  lemma ParseStep(data: Bytes, at: nat, room: nat)
    requires at + 2 <= |data| && room > 0
    ensures var n := Least(U16At(data[at..]), |data| - at - 2);
            var from := at + 2;
            ParsePackets(data[at..], room) ==
            if n == 0 then ParsePackets(data[from..], room)
            else [data[from..from + n]] + ParsePackets(data[from + n..], room - 1)
  {
    hide ParsePackets, U16At;
    var rest := data[at..];
    var n := Least(U16At(rest), |rest| - 2);
    ParseFirst(rest, room);
    SliceOf(data, at, 2, n);
  }

  lemma ParseFirst(rest: Bytes, room: nat)
    requires |rest| >= 2 && room > 0
    ensures var n := Least(U16At(rest), |rest| - 2);
            ParsePackets(rest, room) ==
            if n == 0 then ParsePackets(rest[2..], room)
            else [rest[2..2 + n]] + ParsePackets(rest[2 + n..], room - 1)
  {
    hide U16At;
  }

  lemma SliceOf(data: Bytes, at: nat, from: nat, n: nat)
    requires at + from + n <= |data|
    ensures data[at..][from..] == data[at + from..] && data[at..][from + n..] == data[at + from + n..]
    ensures data[at..][from..from + n] == data[at + from..at + from + n]
  {
  }

  lemma ParseEnds(rest: Bytes, room: nat)
    requires |rest| < 2 || room == 0
    ensures ParsePackets(rest, room) == []
  {
  }

  lemma OneMore(data: Bytes, slices: seq<Slice>, last: Slice, from: nat)
    requires from <= last.from && InOrder(slices, from, last.from)
    requires last.size > 0 && last.from + last.size <= |data|
    ensures InOrder(slices + [last], from, last.from + last.size)
    ensures Contents(data, slices + [last]) == Contents(data, slices) + [data[last.from..last.from + last.size]]
  {
    BytesAppend(data, slices, last);
  }

  // ------------------------------------------------------------------
  // Each undoes the other
  // ------------------------------------------------------------------

  /** Those that are not empty, in order: leaving out the others leaves out nothing of them. */
  lemma {:induction false} NonEmptyKeeps(packets: seq<Bytes>, more: seq<Bytes>)
    ensures NonEmpty(packets + more) == NonEmpty(packets) + NonEmpty(more)
    decreases |packets|
  {
    hide NonEmpty;
    if packets == [] {
      NoneToKeep();
      assert packets + more == more && [] + NonEmpty(more) == NonEmpty(more);
    } else {
      var first, others := if packets[0] == [] then [] else [packets[0]], packets[1..];
      assert (packets + more)[0] == packets[0] && (packets + more)[1..] == others + more;
      FirstKept(packets);
      FirstKept(packets + more);
      NonEmptyKeeps(others, more);
      Regroup(first, NonEmpty(others), NonEmpty(more));
    }
  }

  lemma FirstKept(packets: seq<Bytes>)
    requires packets != []
    ensures NonEmpty(packets) == (if packets[0] == [] then [] else [packets[0]]) + NonEmpty(packets[1..])
  {
  }

  lemma NoneToKeep()
    ensures NonEmpty([]) == []
  {
  }

  lemma OneKept(packet: Bytes)
    ensures NonEmpty([packet]) == if |packet| == 0 then [] else [packet]
  {
    assert [packet][1..] == [];
  }

  function NonEmpty(packets: seq<Bytes>): seq<Bytes> {
    if packets == [] then []
    else (if packets[0] == [] then [] else [packets[0]]) + NonEmpty(packets[1..])
  }

  function Cuts(packets: seq<Bytes>): (r: seq<Bytes>)
    ensures |r| == |packets| && forall i :: 0 <= i < |r| ==> r[i] == Cut(packets[i])
  {
    if packets == [] then [] else [Cut(packets[0])] + Cuts(packets[1..])
  }

  function FirstOf(packets: seq<Bytes>, n: nat): (r: seq<Bytes>)
    ensures r <= packets && |r| == Least(n, |packets|)
  {
    if |packets| <= n then packets else packets[..n]
  }

  lemma LengthRead(n: nat, tail: Bytes)
    requires n <= MOST
    ensures var data := Le(n, 2) + tail;
            |data| >= 2 && U16At(data) == n && data[2..] == tail
  {
    assert Le(n, 2) == [n % 256] + Le(n / 256, 1);
    assert Le(n / 256, 1) == [n / 256 % 256] + Le(n / 256 / 256, 0);
  }

  lemma KeptStep(packets: seq<Bytes>, room: nat)
    requires packets != []
    ensures var packet, rest := Cut(packets[0]), NonEmpty(Cuts(packets[1..]));
            FirstOf(NonEmpty(Cuts(packets)), room) ==
            if room == 0 then [] else if packet == [] then FirstOf(rest, room)
            else [packet] + FirstOf(rest, room - 1)
  {
    hide FirstOf, Cut;
    assert Cuts(packets)[1..] == Cuts(packets[1..]);
    FirstOfMore(Cut(packets[0]), NonEmpty(Cuts(packets[1..])), room);
  }

  lemma FirstOfMore(packet: Bytes, rest: seq<Bytes>, room: nat)
    ensures FirstOf(rest, 0) == [] && FirstOf([packet] + rest, 0) == [] && [] + rest == rest
    ensures room > 0 ==> FirstOf([packet] + rest, room) == [packet] + FirstOf(rest, room - 1)
  {
  }

  lemma FrameReadBack(packet: Bytes, tail: Bytes, room: nat)
    requires |packet| <= MOST
    ensures ParsePackets(Le(|packet|, 2) + (packet + tail), room) ==
            if room == 0 then [] else if packet == [] then ParsePackets(tail, room)
            else [packet] + ParsePackets(tail, room - 1)
  {
    var data := Le(|packet|, 2) + (packet + tail);
    LengthRead(|packet|, packet + tail);
    var n := |packet|;
    assert data[2..][..n] == packet && data[2..][n..] == tail;
    assert data[2..2 + n] == data[2..][..n] && data[2 + n..] == data[2..][n..];
  }

  /** The part of a seed behind its configuration. */
  function Tail(packets: seq<Bytes>): Bytes {
    Framed(packets) + [0]
  }

  lemma TailStep(packets: seq<Bytes>, room: nat)
    requires packets != []
    ensures var packet, rest := Cut(packets[0]), Tail(packets[1..]);
            ParsePackets(Tail(packets), room) ==
            if room == 0 then [] else if packet == [] then ParsePackets(rest, room)
            else [packet] + ParsePackets(rest, room - 1)
  {
    hide ParsePackets, Le;
    var packet, rest := Cut(packets[0]), Tail(packets[1..]);
    assert Tail(packets) == Le(|packet|, 2) + (packet + rest);
    FrameReadBack(packet, rest, room);
  }

  lemma NothingLeft(room: nat)
    ensures ParsePackets(Tail([]), room) == [] && FirstOf(NonEmpty(Cuts([])), room) == []
  {
    assert Tail([]) == [0];
  }

  lemma {:induction false} PacketsReadBack(packets: seq<Bytes>, room: nat)
    ensures ParsePackets(Tail(packets), room) == FirstOf(NonEmpty(Cuts(packets)), room)
    decreases |packets|
  {
    hide ParsePackets, Tail, FirstOf, NonEmpty, Cuts, Cut;
    if packets == [] {
      NothingLeft(room);
    } else {
      TailStep(packets, room);
      KeptStep(packets, room);
      if Cut(packets[0]) == [] {
        PacketsReadBack(packets[1..], room);
      } else if room > 0 {
        PacketsReadBack(packets[1..], room - 1);
      }
    }
  }

  /** Reading a seed gives back its selector, its configuration and the first 256 packets that
      are not empty, each cut to 65,535 bytes; the byte behind them makes no packet. */
  lemma SeedReadBack(selector: byte, config: Bytes, packets: seq<Bytes>)
    requires |config| <= MOST
    ensures Parse(SeedBytes(selector, config, packets)) ==
            Input(selector, config, FirstOf(NonEmpty(Cuts(packets)), PACKETS))
  {
    var tail := Tail(packets);
    var data := SeedBytes(selector, config, packets);
    assert data[1..] == Le(|config|, 2) + (config + tail);
    LengthRead(|config|, config + tail);
    assert (config + tail)[..|config|] == config && (config + tail)[|config|..] == tail;
    PacketsReadBack(packets, PACKETS);
  }
}
