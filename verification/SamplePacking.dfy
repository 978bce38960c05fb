/** Samples as bytes: interleaved, left-justified in containers of two, three or four bytes. */
module SamplePacking {
  import opened Delivery
  import opened ByteOrder
  import opened Arith

  const WORD32: nat := 0x1_0000_0000

  /** A 32-bit signed sample. */
  predicate IsSample(s: int) {
    -0x8000_0000 <= s < 0x8000_0000
  }

  function Pow2(n: nat): (p: nat)
    ensures p > 0
  {
    if n == 0 then 1 else 2 * Pow2(n - 1)
  }

  /** `static_cast<uint32>(s) << shift`. */
  function ShiftedUp(s: int, shift: nat): (v: nat)
    ensures v < WORD32
  {
    s % WORD32 * Pow2(shift) % WORD32
  }

  /** A sample in its container, as the bytes go out. */
  function Container(s: int, shift: nat, bytes: nat): (b: Bytes)
    ensures |b| == bytes
  {
    Le(ShiftedUp(s, shift), bytes)
  }

  /** The samples of one frame from channel `ch` on. */
  function FrameFrom(planes: seq<seq<int>>, i: nat, ch: nat, shift: nat, bytes: nat): (b: Bytes)
    requires forall c :: 0 <= c < |planes| ==> i < |planes[c]|
    ensures ch <= |planes| ==> |b| == (|planes| - ch) * bytes
    decreases |planes| - ch
  {
    if ch >= |planes| then []
    else
      assert (|planes| - ch) * bytes == bytes + (|planes| - (ch + 1)) * bytes;
      Container(planes[ch][i], shift, bytes) + FrameFrom(planes, i, ch + 1, shift, bytes)
  }

  /** Frame after frame. */
  function PackedFrom(planes: seq<seq<int>>, i: nat, frames: nat, shift: nat, bytes: nat): (b: Bytes)
    requires forall c :: 0 <= c < |planes| ==> |planes[c]| >= frames
    ensures i <= frames ==> |b| == (frames - i) * (|planes| * bytes)
    decreases frames - i
  {
    if i >= frames then []
    else
      assert (frames - i) * (|planes| * bytes) == |planes| * bytes + (frames - (i + 1)) * (|planes| * bytes);
      FrameFrom(planes, i, 0, shift, bytes) + PackedFrom(planes, i + 1, frames, shift, bytes)
  }

  /** What `interleave` writes: every sample of every frame, channel by channel. */
  function Packed(planes: seq<seq<int>>, frames: nat, shift: nat, bytes: nat): (b: Bytes)
    requires forall c :: 0 <= c < |planes| ==> |planes[c]| >= frames
    ensures |b| == frames * (|planes| * bytes)
  {
    PackedFrom(planes, 0, frames, shift, bytes)
  }

  // ------------------------------------------------------------------
  // Writing in place
  // ------------------------------------------------------------------

  /** One sample, a byte at a time. */
  method PutSample(out: array<byte>, at: nat, value: nat, bytes: nat)
    requires at + bytes <= out.Length
    modifies out
    ensures out[..at + bytes] == old(out[..at]) + Le(value, bytes)
    ensures out[at + bytes..] == old(out[at + bytes..])
  {
    for b := 0 to bytes
      invariant forall k :: at <= k < at + b ==> out[k] == Shifted(value, k - at)
      invariant out[..at] == old(out[..at]) && out[at + bytes..] == old(out[at + bytes..])
    {
      out[at + b] := Shifted(value, b);
    }
    forall b | 0 <= b < bytes ensures out[at + b] == Le(value, bytes)[b] {
      LeDigit(value, bytes, b);
    }
  }

  /** One frame: a sample of each channel. */
  method PutFrame(planes: seq<seq<int>>, i: nat, shift: nat, bytes: nat, out: array<byte>, at: nat)
    requires forall c :: 0 <= c < |planes| ==> i < |planes[c]|
    requires at + |planes| * bytes <= out.Length
    modifies out
    ensures out[..at + |planes| * bytes] == old(out[..at]) + FrameFrom(planes, i, 0, shift, bytes)
    ensures out[at + |planes| * bytes..] == old(out[at + |planes| * bytes..])
  {
    hide Container, Le, ShiftedUp, FrameFrom;
    var end := at + |planes| * bytes;
    FrameDone(planes, i, shift, bytes);
    ghost var whole := old(out[..at]) + FrameFrom(planes, i, 0, shift, bytes);
    for ch := 0 to |planes|
      invariant at + ch * bytes <= end
      invariant out[..at + ch * bytes] + FrameFrom(planes, i, ch, shift, bytes) == whole
      invariant out[end..] == old(out[end..])
    {
      var here := at + ch * bytes;
      NextSlot(ch, |planes|, bytes);
      ghost var written := out[..here];
      FrameStep(planes, i, ch, shift, bytes);
      PutSample(out, here, ShiftedUp(planes[ch][i], shift), bytes);
      assert out[end..] == out[here + bytes..][end - (here + bytes)..];
      Regroup(written, Container(planes[ch][i], shift, bytes), FrameFrom(planes, i, ch + 1, shift, bytes));
      ContainerIs(planes[ch][i], shift, bytes);
    }
    assert out[..end] + [] == out[..end];
  }

  lemma FrameDone(planes: seq<seq<int>>, i: nat, shift: nat, bytes: nat)
    requires forall c :: 0 <= c < |planes| ==> i < |planes[c]|
    ensures FrameFrom(planes, i, |planes|, shift, bytes) == []
  {
  }

  lemma NextSlot(ch: nat, count: nat, bytes: nat)
    requires ch < count
    ensures (ch + 1) * bytes == ch * bytes + bytes <= count * bytes
  {
    Distribute(ch, 1, bytes);
    MulAtMost(ch + 1, count, bytes);
  }

  lemma ContainerIs(s: int, shift: nat, bytes: nat)
    ensures Container(s, shift, bytes) == Le(ShiftedUp(s, shift), bytes)
  {
  }

  lemma FrameStep(planes: seq<seq<int>>, i: nat, ch: nat, shift: nat, bytes: nat)
    requires forall c :: 0 <= c < |planes| ==> i < |planes[c]|
    requires ch < |planes|
    ensures FrameFrom(planes, i, ch, shift, bytes) ==
            Container(planes[ch][i], shift, bytes) + FrameFrom(planes, i, ch + 1, shift, bytes)
  {
  }

  /** `interleave`: exactly `frames * channels * bytes` bytes from `at` on, and nothing else. */
  method Interleave(planes: seq<seq<int>>, frames: nat, shift: nat, bytes: nat, out: array<byte>, at: nat)
    requires forall c :: 0 <= c < |planes| ==> |planes[c]| >= frames
    requires at + frames * (|planes| * bytes) <= out.Length
    modifies out
    ensures var end := at + frames * (|planes| * bytes);
            out[..end] == old(out[..at]) + Packed(planes, frames, shift, bytes) &&
            out[end..] == old(out[end..])
  {
    hide FrameFrom;
    var stride := |planes| * bytes;
    var end := at + frames * stride;
    ghost var whole := old(out[..at]) + Packed(planes, frames, shift, bytes);
    for i := 0 to frames
      invariant at + i * stride <= end
      invariant out[..at + i * stride] + PackedFrom(planes, i, frames, shift, bytes) == whole
      invariant out[end..] == old(out[end..])
    {
      var here := at + i * stride;
      NextSlot(i, frames, stride);
      ghost var written := out[..here];
      PutFrame(planes, i, shift, bytes, out, here);
      assert out[end..] == out[here + stride..][end - (here + stride)..];
      Regroup(written, FrameFrom(planes, i, 0, shift, bytes), PackedFrom(planes, i + 1, frames, shift, bytes));
    }
    assert out[..end] + [] == out[..end];
  }

  /** The code is compiled for one channel, for two, and for any number: for whichever it is, the
      first `channels` planes are written, whatever planes there are behind them. */
  method InterleaveAs(compiled: nat, planes: seq<seq<int>>, channels: nat, frames: nat, shift: nat,
                      bytes: nat, out: array<byte>, at: nat)
    requires channels <= |planes| && (compiled == 0 || compiled == channels)
    requires forall c :: 0 <= c < channels ==> |planes[c]| >= frames
    requires at + frames * (channels * bytes) <= out.Length
    modifies out
    ensures var end := at + frames * (channels * bytes);
            out[..end] == old(out[..at]) + Packed(planes[..channels], frames, shift, bytes) &&
            out[end..] == old(out[end..])
  {
    var count := if compiled != 0 then compiled else channels;
    Interleave(planes[..count], frames, shift, bytes, out, at);
  }

  datatype Outcome = Continue | Abort

  /** The codec while libFLAC decodes one packet into the host's buffer. */
  class Decode {
    const channels: nat
    const bits: nat
    const container: nat
    const shift: nat
    const out: array?<byte>
    var outBytes: nat
    var overflowed: bool
    var wanted: nat
    var wrote: bool
    var failed: bool

    constructor (channels: nat, bits: nat, container: nat, out: array?<byte>)
      requires 2 <= container <= 4 && bits <= 8 * container
      ensures this.channels == channels && this.bits == bits && this.container == container
      ensures this.out == out && shift == 8 * container - bits && outBytes == 0
      ensures !overflowed && !wrote && !failed
    {
      this.channels, this.bits, this.container, this.out := channels, bits, container, out;
      shift := 8 * container - bits;
      outBytes, overflowed, wanted, wrote, failed := 0, false, 0, false, false;
    }

    /** How many bytes the host's buffer holds. */
    function Room(): nat {
      if out == null then 0 else out.Length
    }

    /** `write_callback`: a frame of the stream's own shape, packed behind what is there, or
        refused, or measured. */
    method Write(frameChannels: nat, frameBits: nat, buffer: seq<seq<int>>, blocksize: nat)
        returns (outcome: Outcome)
      requires outBytes <= Room()
      requires |buffer| == frameChannels && forall c :: 0 <= c < |buffer| ==> |buffer[c]| == blocksize
      modifies this`outBytes, this`overflowed, this`wanted, this`wrote, this`failed, out
      ensures outBytes <= Room()
      ensures var needed := blocksize * (channels * container);
              if channels * container == 0 then
                outcome.Abort? && failed == old(failed) && overflowed == old(overflowed)
              else if frameChannels != channels || frameBits != bits || channels > 8 then
                outcome.Abort? && failed && overflowed == old(overflowed)
              else if out == null || old(outBytes) + needed > out.Length then
                outcome.Abort? && overflowed && wanted == old(outBytes) + needed && failed == old(failed)
              else
                outcome.Continue? && failed == old(failed) && overflowed == old(overflowed)
      ensures outcome.Continue? ==>
                outBytes == old(outBytes) + blocksize * (channels * container) && wrote &&
                out[..outBytes] == old(out[..outBytes]) + Packed(buffer, blocksize, shift, container) &&
                out[outBytes..] == old(out[..])[outBytes..]
      ensures outcome.Abort? ==> outBytes == old(outBytes) && wrote == old(wrote) &&
                                 (out != null ==> out[..] == old(out[..]))
    {
      if channels * container == 0 {
        return Abort;
      }
      if frameChannels != channels || frameBits != bits {
        failed := true;
        return Abort;
      }
      if channels > 8 {
        failed := true;
        return Abort;
      }
      var needed := blocksize * (channels * container);
      if out == null || outBytes + needed > out.Length {
        overflowed := true;
        wanted := outBytes + needed;
        return Abort;
      }
      assert buffer[..channels] == buffer;
      var compiled := if channels <= 2 then channels else 0;
      InterleaveAs(compiled, buffer, channels, blocksize, shift, container, out, outBytes);
      outBytes := outBytes + needed;
      wrote := true;
      outcome := Continue;
    }
  }

  // ------------------------------------------------------------------
  // Reading back
  // ------------------------------------------------------------------

  /** A container's bytes as a signed number. */
  function SignExtended(b: Bytes): int {
    var v, range := FromLe(b), Pow256(|b|);
    if 2 * v >= range then v - range else v
  }

  /** And the sample it holds, shifted down. */
  function SampleOf(b: Bytes, shift: nat): int {
    SignExtended(b) / Pow2(shift)
  }

  /** The signed range of a container of `m` values: `-m / 2 <= t < m / 2`. */
  predicate InRange(t: int, m: nat) {
    0 <= 2 * t + m < 2 * m
  }

  /** What fits a container left-justified: the shifted sample is in its signed range. */
  predicate FitsIn(s: int, shift: nat, bytes: nat) {
    InRange(s * Pow2(shift), Pow256(bytes))
  }

  lemma {:induction false} LeTruncates(n: nat, width: nat)
    ensures FromLe(Le(n, width)) == n % Pow256(width)
  {
    if width > 0 {
      LeTruncates(n / 256, width - 1);
      var b := Le(n, width);
      assert b[1..] == Le(n / 256, width - 1);
      Remainders(n, Pow256(width - 1));
    } else {
      assert n % 1 == 0;
    }
  }

  lemma Remainders(n: nat, m: nat)
    requires m > 0
    ensures n % 256 + 256 * (n / 256 % m) == n % (256 * m)
  {
    var q := n / 256;
    Divided(q, m);
    var r := n % 256 + 256 * (q % m);
    assert n == q / m * (256 * m) + r by {
      assert q / m * (256 * m) == 256 * (q / m * m);
    }
    assert r < 256 * m;
    Quotient(n, 256 * m, q / m);
    Divided(n, 256 * m);
  }

  /** Shifting up in 32 bits keeps the signed product, modulo the word. */
  lemma ShiftedUpIs(s: int, shift: nat)
    requires IsSample(s)
    ensures ShiftedUp(s, shift) == s * Pow2(shift) % WORD32
  {
    var p := Pow2(shift);
    if s < 0 {
      assert s % WORD32 == s + WORD32;
      assert (s + WORD32) * p == s * p + WORD32 * p;
      SameRemainder(s * p, p);
    } else {
      assert s % WORD32 == s;
    }
  }

  lemma SameRemainder(x: int, k: int)
    ensures (x + WORD32 * k) % WORD32 == x % WORD32
  {
  }

  lemma Ranges(bytes: nat)
    requires 2 <= bytes <= 4
    ensures Pow256(2) == 0x1_0000 && Pow256(3) == 0x100_0000 && Pow256(4) == WORD32
  {
    Pow256Of4();
    assert Pow256(1) == 256 && Pow256(2) == 256 * Pow256(1) && Pow256(3) == 256 * Pow256(2);
  }

  /** Nothing is lost: the bytes of a sample that fits its container, read back sign-extended
      and shifted down, are the sample. */
  lemma PackingIsLossless(s: int, shift: nat, bytes: nat)
    requires 2 <= bytes <= 4 && IsSample(s) && FitsIn(s, shift, bytes)
    ensures SampleOf(Container(s, shift, bytes), shift) == s
  {
    hide Le, FromLe, Pow256;
    var t, m := s * Pow2(shift), Pow256(bytes);
    Ranges(bytes);
    ShiftedUpIs(s, shift);
    LeTruncates(ShiftedUp(s, shift), bytes);
    SignBack(t, m);
    ExactDivision(s, Pow2(shift));
  }

  lemma SignBack(t: int, m: nat)
    requires m == 0x1_0000 || m == 0x100_0000 || m == WORD32
    requires InRange(t, m)
    ensures var v := t % WORD32 % m;
            t == if 2 * v >= m then v - m else v
  {
    if t < 0 {
      assert t % WORD32 == t + WORD32;
    } else {
      assert t % WORD32 == t;
    }
  }

  lemma ExactDivision(s: int, p: nat)
    requires p > 0
    ensures s * p / p == s
  {
    var q, r := s * p / p, s * p % p;
    assert s * p == q * p + r;
    assert (s - q) * p == r;
    NoMultiple(s - q, p);
  }

  lemma NoMultiple(x: int, d: nat)
    requires 0 <= x * d < d
    ensures x == 0
  {
    if x > 0 {
      MulAtMost(1, x, d);
    } else if x < 0 {
      MulAtMost(1, -x, d);
    }
  }

  lemma {:induction false} Pow2Add(a: nat, b: nat)
    ensures Pow2(a + b) == Pow2(a) * Pow2(b)
  {
    if a > 0 {
      Pow2Add(a - 1, b);
      Doubled(Pow2(a - 1), Pow2(b));
    }
  }

  lemma Doubled(x: nat, y: nat)
    ensures 2 * x * y == 2 * (x * y)
  {
  }

  lemma {:induction false} Pow256Is(n: nat)
    ensures Pow256(n) == Pow2(8 * n)
  {
    if n > 0 {
      Pow256Is(n - 1);
      Pow2Add(8, 8 * (n - 1));
      assert Pow2(8) == 256 by {
        assert Pow2(2) == 4 && Pow2(4) == 16;
        Pow2Add(4, 4);
      }
    }
  }

  /** A sample of the stream's depth fits the container the codec chose for it. */
  lemma DepthFits(s: int, bits: nat, bytes: nat)
    requires 1 <= bits <= 8 * bytes && -(Pow2(bits - 1) as int) <= s < Pow2(bits - 1)
    ensures FitsIn(s, 8 * bytes - bits, bytes)
  {
    var half, shift := Pow2(bits - 1), 8 * bytes - bits;
    var p := Pow2(shift);
    Pow256Is(bytes);
    Pow2Add(bits - 1, shift);
    assert Pow256(bytes) == 2 * Pow2(bits - 1 + shift) == 2 * (half * p);
    Bounded(s, half, p);
  }

  lemma Bounded(s: int, half: nat, p: nat)
    requires p > 0 && -(half as int) <= s < half
    ensures -((half * p) as int) <= s * p < half * p
  {
    assert (s + half) * p >= 0 && (s + half) * p == s * p + half * p;
    MulBelow(s + half, half + half, p);
    Distribute(half, half, p);
  }

  predicate HasAt(b: Bytes, at: nat, part: Bytes) {
    at + |part| <= |b| && b[at..at + |part|] == part
  }

  lemma HasInFirst(first: Bytes, rest: Bytes, at: nat, part: Bytes)
    requires HasAt(first, at, part)
    ensures HasAt(first + rest, at, part)
  {
    assert (first + rest)[at..at + |part|] == first[at..at + |part|];
  }

  lemma HasInRest(first: Bytes, rest: Bytes, at: nat, part: Bytes)
    requires HasAt(rest, at, part)
    ensures HasAt(first + rest, |first| + at, part)
  {
    var from := |first| + at;
    assert (first + rest)[from..from + |part|] == rest[at..at + |part|];
  }

  /** The slot of a sample in a frame. */
  lemma {:induction false} SlotInFrame(planes: seq<seq<int>>, i: nat, ch: nat, k: nat, shift: nat, bytes: nat)
    requires forall c :: 0 <= c < |planes| ==> i < |planes[c]|
    requires ch + k < |planes|
    ensures HasAt(FrameFrom(planes, i, ch, shift, bytes), k * bytes, Container(planes[ch + k][i], shift, bytes))
    decreases k
  {
    hide Container, FrameFrom, HasAt;
    var part := Container(planes[ch + k][i], shift, bytes);
    var first, rest := Container(planes[ch][i], shift, bytes), FrameFrom(planes, i, ch + 1, shift, bytes);
    FrameStep(planes, i, ch, shift, bytes);
    if k == 0 {
      HasItself(first);
      HasInFirst(first, rest, 0, part);
    } else {
      SlotInFrame(planes, i, ch + 1, k - 1, shift, bytes);
      Distribute(k - 1, 1, bytes);
      HasInRest(first, rest, (k - 1) * bytes, part);
    }
  }

  lemma HasItself(b: Bytes)
    ensures HasAt(b, 0, b)
  {
  }

  /** And in what is written. */
  lemma {:induction false} SlotInPacked(planes: seq<seq<int>>, i: nat, n: nat, frames: nat, ch: nat,
                                        shift: nat, bytes: nat)
    requires forall c :: 0 <= c < |planes| ==> |planes[c]| >= frames
    requires i + n < frames && ch < |planes|
    ensures HasAt(PackedFrom(planes, i, frames, shift, bytes), n * (|planes| * bytes) + ch * bytes,
                  Container(planes[ch][i + n], shift, bytes))
    decreases n
  {
    hide FrameFrom, PackedFrom, Container, HasAt;
    var stride, at := |planes| * bytes, ch * bytes;
    var part := Container(planes[ch][i + n], shift, bytes);
    var first, rest := FrameFrom(planes, i, 0, shift, bytes), PackedFrom(planes, i + 1, frames, shift, bytes);
    PackedStep(planes, i, frames, shift, bytes);
    if n == 0 {
      SlotInFrame(planes, i, 0, ch, shift, bytes);
      FirstFrame(first, rest, stride, at, part);
    } else {
      SlotInPacked(planes, i + 1, n - 1, frames, ch, shift, bytes);
      NextFrame(first, rest, n, stride, at, part);
    }
  }

  lemma FirstFrame(first: Bytes, rest: Bytes, stride: nat, at: nat, part: Bytes)
    requires HasAt(first, at, part)
    ensures HasAt(first + rest, 0 * stride + at, part)
  {
    HasInFirst(first, rest, at, part);
  }

  lemma NextFrame(first: Bytes, rest: Bytes, n: nat, stride: nat, at: nat, part: Bytes)
    requires |first| == stride && n > 0 && HasAt(rest, (n - 1) * stride + at, part)
    ensures HasAt(first + rest, n * stride + at, part)
  {
    hide HasAt;
    Distribute(n - 1, 1, stride);
    HasInRest(first, rest, (n - 1) * stride + at, part);
  }

  lemma PackedStep(planes: seq<seq<int>>, i: nat, frames: nat, shift: nat, bytes: nat)
    requires forall c :: 0 <= c < |planes| ==> |planes[c]| >= frames
    requires i < frames
    ensures PackedFrom(planes, i, frames, shift, bytes) ==
            FrameFrom(planes, i, 0, shift, bytes) + PackedFrom(planes, i + 1, frames, shift, bytes)
  {
  }

  /** Every sample of every channel can be read back from where it was put. */
  lemma EverySampleComesBack(planes: seq<seq<int>>, frames: nat, i: nat, ch: nat, shift: nat, bytes: nat)
    requires forall c :: 0 <= c < |planes| ==> |planes[c]| >= frames
    requires i < frames && ch < |planes| && 2 <= bytes <= 4
    requires IsSample(planes[ch][i]) && FitsIn(planes[ch][i], shift, bytes)
    ensures var at := i * (|planes| * bytes) + ch * bytes;
            var b := Packed(planes, frames, shift, bytes);
            at + bytes <= |b| && SampleOf(b[at..at + bytes], shift) == planes[ch][i]
  {
    SlotInPacked(planes, 0, i, frames, ch, shift, bytes);
    PackingIsLossless(planes[ch][i], shift, bytes);
  }

  // ------------------------------------------------------------------
  // WavPack: each word's low bytes
  // ------------------------------------------------------------------

  function LowBytesOf(words: seq<int>, bytes: nat): Bytes {
    if words == [] then [] else Container(words[0], 0, bytes) + LowBytesOf(words[1..], bytes)
  }

  /** `low_bytes`. */
  method LowBytes(words: seq<int>, bytes: nat, out: array<byte>)
    requires forall i :: 0 <= i < |words| ==> IsSample(words[i])
    requires |words| * bytes <= out.Length
    modifies out
    ensures out[..|words| * bytes] == LowBytesOf(words, bytes)
    ensures out[|words| * bytes..] == old(out[|words| * bytes..])
  {
    hide Container, Le;
    var end := |words| * bytes;
    assert words[0..] == words && out[..0 * bytes] == [];
    for i := 0 to |words|
      invariant i * bytes <= end
      invariant out[..i * bytes] + LowBytesOf(words[i..], bytes) == LowBytesOf(words, bytes)
      invariant out[end..] == old(out[end..])
    {
      var at := i * bytes;
      NextSlot(i, |words|, bytes);
      ghost var written := out[..at];
      assert words[i..][1..] == words[i + 1..];
      LowWord(words[i], bytes);
      PutSample(out, at, words[i] % WORD32, bytes);
      assert out[end..] == out[at + bytes..][end - (at + bytes)..];
      Regroup(written, Container(words[i], 0, bytes), LowBytesOf(words[i + 1..], bytes));
    }
    assert words[|words|..] == [];
    assert out[..end] + [] == out[..end];
  }

  lemma LowWord(s: int, bytes: nat)
    ensures Container(s, 0, bytes) == Le(s % WORD32, bytes)
  {
    assert Pow2(0) == 1 && s % WORD32 * 1 == s % WORD32;
    assert ShiftedUp(s, 0) == s % WORD32;
  }

  /** Narrowing loses nothing of a word that fits: the bytes of each, sign-extended, are it. */
  lemma NarrowingIsLossless(s: int, bytes: nat)
    requires 2 <= bytes <= 4 && IsSample(s) && InRange(s, Pow256(bytes))
    ensures SignExtended(Container(s, 0, bytes)) == s
  {
    assert Pow2(0) == 1 && s * 1 == s;
    PackingIsLossless(s, 0, bytes);
  }

  /** Every word that fits can be read back from its slot. */
  lemma {:induction false} EveryWordComesBack(words: seq<int>, k: nat, bytes: nat)
    requires k < |words| && 2 <= bytes <= 4 && IsSample(words[k]) && InRange(words[k], Pow256(bytes))
    ensures var b := LowBytesOf(words, bytes);
            |b| == |words| * bytes && k * bytes + bytes <= |b| &&
            SignExtended(b[k * bytes..k * bytes + bytes]) == words[k]
  {
    NarrowingIsLossless(words[k], bytes);
    SlotInWords(words, k, bytes);
    WordsLength(words, bytes);
  }

  lemma {:induction false} WordsLength(words: seq<int>, bytes: nat)
    ensures |LowBytesOf(words, bytes)| == |words| * bytes
    decreases |words|
  {
    if words != [] {
      WordsLength(words[1..], bytes);
      Distribute(|words| - 1, 1, bytes);
    }
  }

  lemma {:induction false} SlotInWords(words: seq<int>, k: nat, bytes: nat)
    requires k < |words|
    ensures HasAt(LowBytesOf(words, bytes), k * bytes + 0, Container(words[k], 0, bytes))
    decreases k
  {
    hide Container, HasAt;
    var first, rest := Container(words[0], 0, bytes), LowBytesOf(words[1..], bytes);
    var part := Container(words[k], 0, bytes);
    if k == 0 {
      HasItself(first);
      FirstFrame(first, rest, bytes, 0, part);
    } else {
      SlotInWords(words[1..], k - 1, bytes);
      NextFrame(first, rest, k, bytes, 0, part);
    }
  }
}
