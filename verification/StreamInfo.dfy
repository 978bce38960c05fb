/** FLAC's STREAMINFO: the 34 bytes one demuxer writes, two others cut out of their container,
    and the codec reads. */
module StreamInfo {
  import opened Delivery
  import opened ByteOrder

  datatype Info = Info(minBlock: nat, maxBlock: nat, minFrame: nat, maxFrame: nat, rate: nat,
                       channels: nat, bits: nat, total: nat, md5: Bytes)
  {
    /** What section 8.2 of RFC 9639 lets a stream say. */
    predicate Legal() {
      minBlock < 0x1_0000 && maxBlock < 0x1_0000 && minFrame < 0x100_0000 && maxFrame < 0x100_0000 &&
      0 < rate < 0x10_0000 && 1 <= channels <= 8 && 4 <= bits <= 32 && total < 0x10_0000_0000 &&
      |md5| == 16
    }
  }

  /** Rate, channels, depth and the top of the total in one 32-bit word, each field masked or
      shifted out of the others' way. */
  function Packed(info: Info): (w: nat)
    ensures w < 0x1_0000_0000
  {
    info.rate % 0x10_0000 * 0x1000 + (info.channels - 1) % 8 * 0x200 + (info.bits - 1) % 32 * 0x10 +
    info.total / 0x1_0000_0000 % 16
  }

  /** The layout, field by field and big-endian. */
  function InfoBytes(info: Info): Bytes {
    Be(info.minBlock, 2) + Be(info.maxBlock, 2) + Be(info.minFrame, 3) + Be(info.maxFrame, 3) +
    Be(Packed(info), 4) + Be(info.total % 0x1_0000_0000, 4) + info.md5
  }

  /** One big-endian field stored in place. */
  method Store(p: array<byte>, at: nat, n: nat, width: nat)
    requires at + width <= p.Length
    modifies p
    ensures p[..at + width] == old(p[..at]) + Be(n, width)
    ensures p[at + width..] == old(p[at + width..])
  {
    for i := 0 to width
      invariant forall k :: at <= k < at + i ==> p[k] == Shifted(n, width - 1 - (k - at))
      invariant p[..at] == old(p[..at]) && p[at + width..] == old(p[at + width..])
    {
      p[at + i] := Shifted(n, width - 1 - i);
    }
    forall i | 0 <= i < width ensures p[at + i] == Be(n, width)[i] {
      BeDigit(n, width, i);
    }
  }

  /** `metadata_cb`: the block libFLAC hands over parsed, written back out. */
  method WriteInfo(info: Info) returns (p: array<byte>)
    requires |info.md5| == 16
    ensures fresh(p) && p[..] == InfoBytes(info)
  {
    hide Be, Packed, Shifted;
    p := new byte[34](_ => 0);
    Store(p, 0, info.minBlock, 2);
    Store(p, 2, info.maxBlock, 2);
    Store(p, 4, info.minFrame, 3);
    Store(p, 7, info.maxFrame, 3);
    Store(p, 10, Packed(info), 4);
    Store(p, 14, info.total % 0x1_0000_0000, 4);
    ghost var head := p[..18];
    assert [] + Be(info.minBlock, 2) == Be(info.minBlock, 2);
    forall i | 0 <= i < 16 {
      p[18 + i] := info.md5[i];
    }
    assert p[..18] == head && p[18..] == info.md5;
    assert p[..] == p[..18] + p[18..];
  }

  datatype Fields = Fields(rate: nat, channels: nat, bits: nat)

  /** `read_streaminfo`: the fields the codec needs, or refusal. */
  function ReadInfo(p: Option<Bytes>): Option<Fields> {
    if p.None? || |p.value| < 34 then None
    else
      var packed := FromBe(p.value[10..14]);
      var fields := Fields(packed / 0x1000, packed / 0x200 % 8 + 1, packed / 0x10 % 32 + 1);
      if fields.rate != 0 && 4 <= fields.bits <= 32 then Some(fields) else None
  }

  /** The total, for a reader that wants it: four bits of the word and the four bytes after. */
  function ReadTotal(p: Bytes): nat
    requires |p| >= 18
  {
    FromBe(p[10..14]) % 16 * 0x1_0000_0000 + FromBe(p[14..18])
  }

  lemma FieldAt(info: Info)
    requires |info.md5| == 16
    ensures var p := InfoBytes(info);
            |p| == 34 && p[10..14] == Be(Packed(info), 4) && p[14..18] == Be(info.total % 0x1_0000_0000, 4)
  {
    var head := Be(info.minBlock, 2) + Be(info.maxBlock, 2) + Be(info.minFrame, 3) + Be(info.maxFrame, 3);
    var tail := Be(info.total % 0x1_0000_0000, 4) + info.md5;
    assert InfoBytes(info) == head + Be(Packed(info), 4) + tail;
  }

  /** The fields of a word come apart again. */
  lemma WordFields(rate: nat, channels: nat, bits: nat, total: nat)
    requires channels < 8 && bits < 32 && total < 16
    ensures var w := rate * 0x1000 + channels * 0x200 + bits * 0x10 + total;
            w / 0x1000 == rate && w / 0x200 % 8 == channels && w / 0x10 % 32 == bits && w % 16 == total
  {
    var w := rate * 0x1000 + channels * 0x200 + bits * 0x10 + total;
    assert w / 0x10 == rate * 0x100 + channels * 0x20 + bits;
    assert w / 0x200 == rate * 8 + channels;
  }

  lemma WordReadBack(info: Info)
    requires |info.md5| == 16
    ensures var w := FromBe(InfoBytes(info)[10..14]);
            w / 0x1000 == info.rate % 0x10_0000 && w / 0x200 % 8 == (info.channels - 1) % 8 &&
            w / 0x10 % 32 == (info.bits - 1) % 32 && w % 16 == info.total / 0x1_0000_0000 % 16
    ensures FromBe(InfoBytes(info)[14..18]) == info.total % 0x1_0000_0000
    ensures |InfoBytes(info)| == 34
  {
    hide Be, FromBe;
    FieldAt(info);
    Pow256Of4();
    BeRoundTrip(Packed(info), 4);
    BeRoundTrip(info.total % 0x1_0000_0000, 4);
    WordFields(info.rate % 0x10_0000, (info.channels - 1) % 8, (info.bits - 1) % 32,
               info.total / 0x1_0000_0000 % 16);
  }

  /** Every legal stream is read back as it was written. */
  lemma InfoRoundTrip(info: Info)
    requires info.Legal()
    ensures ReadInfo(Some(InfoBytes(info))) == Some(Fields(info.rate, info.channels, info.bits))
    ensures ReadTotal(InfoBytes(info)) == info.total
  {
    hide InfoBytes, FromBe;
    WordReadBack(info);
  }

  /** Section 8.2 of RFC 9639, field by field: block sizes, frame sizes, then twenty bits of rate,
      three of channels less one, five of depth less one, thirty-six of total, and the digest. */
  lemma InfoLayout(info: Info)
    requires info.Legal()
    ensures var p := InfoBytes(info);
            |p| == 34 && FromBe(p[0..2]) == info.minBlock && FromBe(p[2..4]) == info.maxBlock &&
            FromBe(p[4..7]) == info.minFrame && FromBe(p[7..10]) == info.maxFrame && p[18..34] == info.md5 &&
            FromBe(p[10..14]) == info.rate * 0x1000 + (info.channels - 1) * 0x200 + (info.bits - 1) * 0x10 +
                                 info.total / 0x1_0000_0000 &&
            FromBe(p[14..18]) == info.total % 0x1_0000_0000
  {
    hide Be, FromBe;
    Widths();
    BeRoundTrip(info.minBlock, 2);
    BeRoundTrip(info.maxBlock, 2);
    BeRoundTrip(info.minFrame, 3);
    BeRoundTrip(info.maxFrame, 3);
    BeRoundTrip(Packed(info), 4);
    BeRoundTrip(info.total % 0x1_0000_0000, 4);
    var p := InfoBytes(info);
    assert p[0..2] == Be(info.minBlock, 2) && p[2..4] == Be(info.maxBlock, 2);
    assert p[4..7] == Be(info.minFrame, 3) && p[7..10] == Be(info.maxFrame, 3);
    assert p[10..14] == Be(Packed(info), 4) && p[14..18] == Be(info.total % 0x1_0000_0000, 4);
  }

  lemma Widths()
    ensures Pow256(2) == 0x1_0000 && Pow256(3) == 0x100_0000 && Pow256(4) == 0x1_0000_0000
  {
    assert Pow256(1) == 256 && Pow256(2) == 0x1_0000;
    Pow256Of4();
  }

  /** And what is not read back is refused: no rate, or fewer than four bits. */
  lemma RefusedExactly(info: Info)
    requires |info.md5| == 16
    ensures ReadInfo(Some(InfoBytes(info))).None? <==>
            info.rate % 0x10_0000 == 0 || (info.bits - 1) % 32 < 3
  {
    hide InfoBytes, FromBe;
    WordReadBack(info);
  }

  // ------------------------------------------------------------------
  // Out of Matroska, and out of Ogg
  // ------------------------------------------------------------------

  const MAGIC: Bytes := [0x66, 0x4C, 0x61, 0x43]
  const BLOCKS: nat := 64

  /** A metadata block: section 8.1 of RFC 9639. */
  datatype Block = Block(kind: nat, data: Bytes) {
    predicate Valid() {
      kind < 128 && |data| < 0x100_0000
    }

    predicate HoldsInfo() {
      kind == 0 && |data| >= 34
    }
  }

  function BlockBytes(b: Block, last: bool): Bytes
    requires b.Valid()
  {
    [b.kind + if last then 0x80 else 0] + Be(|b.data|, 3) + b.data
  }

  function BlocksBytes(blocks: seq<Block>): Bytes
    requires forall i :: 0 <= i < |blocks| ==> blocks[i].Valid()
  {
    if blocks == [] then []
    else BlockBytes(blocks[0], |blocks| == 1) + BlocksBytes(blocks[1..])
  }

  /** The first STREAMINFO of a list of blocks, among those the converter looks at. */
  function FirstInfo(blocks: seq<Block>, looks: nat): (r: Option<Bytes>)
    ensures r.Some? <==> exists i :: 0 <= i < |blocks| && i < looks && blocks[i].HoldsInfo()
    ensures r.Some? ==> exists i :: 0 <= i < |blocks| && i < looks && blocks[i].HoldsInfo() &&
                          r == Some(blocks[i].data[..34]) && forall k :: 0 <= k < i ==> !blocks[k].HoldsInfo()
  {
    assert forall i :: 0 < i < |blocks| ==> blocks[i] == blocks[1..][i - 1];
    assert forall i :: 0 <= i < |blocks| - 1 ==> blocks[1..][i] == blocks[i + 1];
    if blocks == [] || looks == 0 then None
    else if blocks[0].HoldsInfo() then Some(blocks[0].data[..34])
    else FirstInfo(blocks[1..], looks - 1)
  }

  /** The converter's loop, on what is left of the blob. */
  function FindInfo(rest: Bytes, looks: nat): Option<Bytes>
    decreases looks
  {
    if looks == 0 || |rest| < 4 then None
    else
      var length := FromBe(rest[1..4]);
      if 4 + length > |rest| then None
      else if rest[0] % 0x80 == 0 && length >= 34 then Some(rest[4..38])
      else if rest[0] >= 0x80 then None
      else FindInfo(rest[4 + length..], looks - 1)
  }

  /** `flac_config`, Matroska's converter. */
  method FlacConfig(p: Option<Bytes>) returns (out: Option<Bytes>)
    ensures out == if p.Some? && |p.value| >= 42 && p.value[..4] == MAGIC then FindInfo(p.value[4..], BLOCKS) else None
  {
    if p.None? || |p.value| < 4 + 4 + 34 || p.value[..4] != MAGIC {
      return None;
    }
    hide FindInfo, FromBe;
    var data := p.value;
    var at: nat := 4;
    NoLooksLeft();
    for guard := 0 to BLOCKS
      invariant at <= |data|
      invariant FindInfo(data[at..], BLOCKS - guard) == FindInfo(data[4..], BLOCKS)
    {
      FindStep(data, at, BLOCKS - guard);
      if at + 4 > |data| {
        return None;
      }
      var last := data[at] >= 0x80;
      var kind := data[at] % 0x80;
      var length := LengthAt(data, at);
      at := at + 4;
      if at + length > |data| {
        return None;
      }
      if kind == 0 && length >= 34 {
        return Some(data[at..at + 34]);
      }
      at := at + length;
      if last {
        return None;
      }
    }
    out := None;
  }

  lemma NoLooksLeft()
    ensures forall rest: Bytes :: FindInfo(rest, 0) == None
  {
  }

  method LengthAt(data: Bytes, at: nat) returns (n: nat)
    requires at + 4 <= |data|
    ensures n == FromBe(data[at + 1..at + 4])
  {
    n := data[at + 1] as int * 0x1_0000 + data[at + 2] as int * 0x100 + data[at + 3] as int;
    ghost var b := data[at + 1..at + 4];
    assert b[..2][..1] == b[..1] && b[..1][..0] == [];
    assert FromBe(b[..1]) == b[0] && FromBe(b[..2]) == 256 * FromBe(b[..1]) + b[1] as int;
  }

  lemma FindStep(data: Bytes, at: nat, looks: nat)
    requires at <= |data| && looks > 0
    ensures FindInfo(data[at..], looks) ==
            if at + 4 > |data| then None
            else
              var length := FromBe(data[at + 1..at + 4]);
              if at + 4 + length > |data| then None
              else if data[at] % 0x80 == 0 && length >= 34 then Some(data[at + 4..at + 38])
              else if data[at] >= 0x80 then None
              else FindInfo(data[at + 4 + length..], looks - 1)
  {
    hide FromBe;
    var rest := data[at..];
    if at + 4 <= |data| {
      assert rest[1..4] == data[at + 1..at + 4];
      var length := FromBe(rest[1..4]);
      if at + 4 + length <= |data| {
        assert rest[4 + length..] == data[at + 4 + length..];
        if length >= 34 {
          assert rest[4..38] == data[at + 4..at + 38];
        }
      }
    }
  }

  lemma BlockRead(b: Block, last: bool, tail: Bytes)
    requires b.Valid()
    ensures var rest := BlockBytes(b, last) + tail;
            |rest| >= 4 + |b.data| && FromBe(rest[1..4]) == |b.data| && rest[4 + |b.data|..] == tail &&
            rest[4..4 + |b.data|] == b.data && rest[0] % 0x80 == b.kind && (rest[0] >= 0x80 <==> last)
  {
    var rest := BlockBytes(b, last) + tail;
    assert Pow256(3) == 0x100_0000 by {
      assert Pow256(1) == 256 && Pow256(2) == 0x1_0000;
    }
    BeRoundTrip(|b.data|, 3);
    assert rest[1..4] == Be(|b.data|, 3);
  }

  /** From any list of blocks the converter takes the first STREAMINFO, if it is among the first
      64, whatever the blocks before it are and whatever follows the list. */
  lemma {:induction false} FindsFirst(blocks: seq<Block>, tail: Bytes, looks: nat)
    requires blocks != [] && forall i :: 0 <= i < |blocks| ==> blocks[i].Valid()
    ensures FindInfo(BlocksBytes(blocks) + tail, looks) == FirstInfo(blocks, looks)
    decreases |blocks|
  {
    hide BlockBytes, FindInfo, Block.HoldsInfo, Block.Valid;
    if looks == 0 {
      NoLooksLeft();
    } else {
      var b, last := blocks[0], |blocks| == 1;
      var more := BlocksBytes(blocks[1..]) + tail;
      Regroup(BlockBytes(b, last), BlocksBytes(blocks[1..]), tail);
      LooksAt(b, last, more, looks);
      if !b.HoldsInfo() && !last {
        FindsFirst(blocks[1..], tail, looks - 1);
      }
    }
  }

  /** One look: a STREAMINFO is taken, and anything else stepped over. */
  lemma LooksAt(b: Block, last: bool, more: Bytes, looks: nat)
    requires b.Valid() && looks > 0
    ensures FindInfo(BlockBytes(b, last) + more, looks) ==
            if b.HoldsInfo() then Some(b.data[..34]) else if last then None else FindInfo(more, looks - 1)
  {
    hide BlockBytes, FromBe;
    BlockRead(b, last, more);
    var rest := BlockBytes(b, last) + more;
    if b.HoldsInfo() {
      assert rest[4..38] == rest[4..4 + |b.data|][..34];
    }
  }

  /** A STREAMINFO written out, wrapped by Matroska behind any other blocks, converted and
      read, says what it said. */
  method ThroughMatroska(info: Info, before: seq<Block>, after: seq<Block>) returns (fields: Option<Fields>)
    requires info.Legal() && |before| < BLOCKS
    requires forall i :: 0 <= i < |before| ==> before[i].Valid() && !before[i].HoldsInfo()
    requires forall i :: 0 <= i < |after| ==> after[i].Valid()
    ensures fields == Some(Fields(info.rate, info.channels, info.bits))
  {
    hide BlocksBytes, FindInfo, InfoBytes, ReadInfo;
    var written := WriteInfo(info);
    var streaminfo := written[..];
    WordReadBack(info);
    FoundAmong(before, streaminfo, after);
    InfoRoundTrip(info);
    var config := FlacConfig(Some(MAGIC + BlocksBytes(before + [Block(0, streaminfo)] + after)));
    fields := ReadInfo(config);
  }

  lemma FoundAmong(before: seq<Block>, streaminfo: Bytes, after: seq<Block>)
    requires |before| < BLOCKS && |streaminfo| == 34
    requires forall i :: 0 <= i < |before| ==> before[i].Valid() && !before[i].HoldsInfo()
    requires forall i :: 0 <= i < |after| ==> after[i].Valid()
    ensures var blob := MAGIC + BlocksBytes(before + [Block(0, streaminfo)] + after);
            |blob| >= 42 && blob[..4] == MAGIC && FindInfo(blob[4..], BLOCKS) == Some(streaminfo)
  {
    hide BlocksBytes, FindInfo, FirstInfo;
    var blocks := before + [Block(0, streaminfo)] + after;
    SkipsOthers(before, [Block(0, streaminfo)] + after, BLOCKS);
    assert blocks == before + ([Block(0, streaminfo)] + after) && streaminfo[..34] == streaminfo;
    FindsFirst(blocks, [], BLOCKS);
    HoldsRoom(before, streaminfo, after);
    assert BlocksBytes(blocks) + [] == BlocksBytes(blocks);
    assert (MAGIC + BlocksBytes(blocks))[4..] == BlocksBytes(blocks);
  }

  lemma {:induction false} SkipsOthers(before: seq<Block>, rest: seq<Block>, looks: nat)
    requires |before| < looks && rest != [] && rest[0].HoldsInfo()
    requires forall i :: 0 <= i < |before| ==> !before[i].HoldsInfo()
    ensures FirstInfo(before + rest, looks) == Some(rest[0].data[..34])
  {
    if before == [] {
      assert before + rest == rest;
    } else {
      assert (before + rest)[1..] == before[1..] + rest;
      SkipsOthers(before[1..], rest, looks - 1);
    }
  }

  lemma {:induction false} HoldsRoom(before: seq<Block>, streaminfo: Bytes, after: seq<Block>)
    requires |streaminfo| == 34
    requires forall i :: 0 <= i < |before| ==> before[i].Valid()
    requires forall i :: 0 <= i < |after| ==> after[i].Valid()
    ensures |BlocksBytes(before + [Block(0, streaminfo)] + after)| >= 38
  {
    var all := before + [Block(0, streaminfo)] + after;
    if before == [] {
      assert all[0] == Block(0, streaminfo);
    } else {
      assert all[1..] == before[1..] + [Block(0, streaminfo)] + after;
      HoldsRoom(before[1..], streaminfo, after);
    }
  }

  /** Ogg's mapping packet: a marker, a version, a header count, and a native FLAC header. */
  function OggMapping(marker: Bytes, streaminfo: Bytes): Bytes
    requires |marker| == 9
  {
    marker + MAGIC + [0x80] + Be(|streaminfo|, 3) + streaminfo
  }

  /** Ogg's converter: 34 bytes at a fixed place, from a packet long enough to have them. */
  method OggConfig(packet: Bytes) returns (config: Bytes)
    ensures config == if |packet| >= 51 then packet[17..51] else []
    ensures forall marker, streaminfo: Bytes ::
              |marker| == 9 && |streaminfo| == 34 && packet == OggMapping(marker, streaminfo) ==>
              config == streaminfo
  {
    var at := 5 + 1 + 1 + 2 + 4 + 4;
    config := [];
    if |packet| >= at + 34 {
      config := packet[at..at + 34];
    }
  }
}
