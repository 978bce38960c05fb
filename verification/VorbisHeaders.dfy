/** Vorbis's three header packets: one blob that three writers produce and one reader takes
    apart. */
module VorbisHeaders {
  import opened Delivery
  import opened ByteOrder

  /** The blob: each header behind its length as a 32-bit little-endian integer. */
  function Framed(headers: seq<Bytes>): Bytes {
    if headers == [] then [] else Le(|headers[0]|, 4) + headers[0] + Framed(headers[1..])
  }

  /** Three headers whose lengths the blob can state. */
  predicate Stated(headers: seq<Bytes>) {
    |headers| == 3 && forall i :: 0 <= i < 3 ==> |headers[i]| < 0x1_0000_0000
  }

  predicate NoneEmpty(headers: seq<Bytes>) {
    forall i :: 0 <= i < |headers| ==> headers[i] != []
  }

  lemma {:induction false} FramedAppend(headers: seq<Bytes>, last: Bytes)
    ensures Framed(headers + [last]) == Framed(headers) + Le(|last|, 4) + last
  {
    if headers == [] {
      assert headers + [last] == [last];
    } else {
      assert (headers + [last])[1..] == headers[1..] + [last];
      FramedAppend(headers[1..], last);
    }
  }

  /** The framing is uniquely readable, whatever follows it. */
  lemma {:induction false} FramedUnique(a: seq<Bytes>, b: seq<Bytes>, blob: Bytes)
    requires |a| == |b| && Framed(a) <= blob && Framed(b) <= blob
    requires forall i :: 0 <= i < |a| ==> |a[i]| < 0x1_0000_0000 && |b[i]| < 0x1_0000_0000
    ensures a == b
  {
    if a != [] {
      Pow256Of4();
      FirstFrame(a, blob);
      FirstFrame(b, blob);
      assert |a[0]| == |b[0]|;
      FramedUnique(a[1..], b[1..], blob[4 + |a[0]|..]);
    }
  }

  lemma Slices(a: Bytes, b: Bytes, c: Bytes, blob: Bytes)
    requires a + b + c <= blob
    ensures var m := |a| + |b|;
            m <= |blob| && blob[..|a|] == a && blob[|a|..m] == b && c <= blob[m..]
  {
    assert forall i :: 0 <= i < |a + b + c| ==> blob[i] == (a + b + c)[i];
  }

  /** What the front of a blob that starts with a framing says. */
  lemma FirstFrame(headers: seq<Bytes>, blob: Bytes)
    requires headers != [] && Framed(headers) <= blob && |headers[0]| < 0x1_0000_0000
    ensures var n := |headers[0]|;
            4 + n <= |blob| && FromLe(blob[..4]) == n && blob[4..4 + n] == headers[0] &&
            Framed(headers[1..]) <= blob[4 + n..]
  {
    Slices(Le(|headers[0]|, 4), headers[0], Framed(headers[1..]), blob);
    Pow256Of4();
    LeRoundTrip(|headers[0]|, 4);
  }

  /** A blob that starts with the framing of three non-empty headers. */
  ghost predicate Frames(headers: seq<Bytes>, config: Bytes) {
    Stated(headers) && NoneEmpty(headers) && Framed(headers) <= config
  }

  /** `split_headers`: where each header is in the blob and how long, or refusal. It accepts
      exactly the blobs that start with the framing of three non-empty headers. */
  method SplitHeaders(config: Bytes) returns (ok: bool, at: seq<nat>, sizes: seq<nat>)
    requires |config| < 0x1_0000_0000
    ensures ok ==> |at| == |sizes| == 3
    ensures ok ==> forall i :: 0 <= i < 3 ==> at[i] + sizes[i] <= |config|
    ensures forall headers :: Frames(headers, config) ==>
              ok && forall i :: 0 <= i < 3 ==> config[at[i]..at[i] + sizes[i]] == headers[i]
    ensures ok ==> exists headers :: Frames(headers, config)
  {
    hide FromLe, Frames, Framed, Located;
    var here: nat := 0;
    at, sizes := [], [];
    ghost var taken: seq<Bytes> := [];
    NothingTaken(config);
    for i := 0 to 3
      invariant |taken| == i && here <= |config|
      invariant Located(config, here, at, sizes, taken)
    {
      if |config| - here < 4 {
        Malformed(config, at, sizes, taken, here);
        return false, at, sizes;
      }
      var n := ReadLength(config, here);
      here := here + 4;
      if n == 0 || |config| - here < n {
        Malformed(config, at, sizes, taken, here - 4);
        return false, at, sizes;
      }
      OneMore(config, at, sizes, taken, here - 4, n);
      at := at + [here];
      sizes := sizes + [n];
      taken := taken + [config[here..here + n]];
      here := here + n;
    }
    OnlyOne(config, at, sizes, taken, here);
    ok := true;
  }

  /** The headers read so far: where they are, and that they fill the blob up to `here`. */
  ghost predicate Located(config: Bytes, here: nat, at: seq<nat>, sizes: seq<nat>, taken: seq<Bytes>) {
    |at| == |sizes| == |taken| && here <= |config| && NoneEmpty(taken) && Framed(taken) == config[..here] &&
    forall j :: 0 <= j < |taken| ==>
      at[j] + sizes[j] <= |config| && taken[j] == config[at[j]..at[j] + sizes[j]]
  }

  lemma NothingTaken(config: Bytes)
    ensures Located(config, 0, [], [], [])
  {
  }

  /** The header at `here` extends the framing read so far. */
  lemma OneMore(config: Bytes, at: seq<nat>, sizes: seq<nat>, taken: seq<Bytes>, here: nat, n: nat)
    requires Located(config, here, at, sizes, taken)
    requires here + 4 + n <= |config| && FromLe(config[here..here + 4]) == n > 0
    ensures Located(config, here + 4 + n, at + [here + 4], sizes + [n], taken + [config[here + 4..here + 4 + n]])
  {
    hide Framed, FromLe;
    FramedOnward(config, taken, here, n);
  }

  lemma FramedOnward(config: Bytes, taken: seq<Bytes>, here: nat, n: nat)
    requires here + 4 + n <= |config| && FromLe(config[here..here + 4]) == n
    requires Framed(taken) == config[..here]
    ensures Framed(taken + [config[here + 4..here + 4 + n]]) == config[..here + 4 + n]
  {
    hide Framed, Le, FromLe, Pow256;
    var length, header := config[here..here + 4], config[here + 4..here + 4 + n];
    FromLeBound(length);
    FramedAppend(taken, header);
    Onward(config, here, here + 4);
    Onward(config, here + 4, here + 4 + n);
  }

  lemma Onward(config: Bytes, from: nat, to: nat)
    requires from <= to <= |config|
    ensures config[..from] + config[from..to] == config[..to]
  {
  }

  lemma OnlyOne(config: Bytes, at: seq<nat>, sizes: seq<nat>, taken: seq<Bytes>, here: nat)
    requires |taken| == 3 && |config| < 0x1_0000_0000 && Located(config, here, at, sizes, taken)
    ensures |at| == |sizes| == 3 && forall i :: 0 <= i < 3 ==> at[i] + sizes[i] <= |config|
    ensures Frames(taken, config)
    ensures forall headers :: Frames(headers, config) ==>
              forall i :: 0 <= i < 3 ==> config[at[i]..at[i] + sizes[i]] == headers[i]
  {
    hide Framed;
    FramedHolds(taken);
    forall headers | Frames(headers, config) ensures headers == taken {
      FramedUnique(headers, taken, config);
    }
  }

  method ReadLength(config: Bytes, here: nat) returns (n: nat)
    requires here + 4 <= |config|
    ensures n == FromLe(config[here..here + 4])
  {
    n := config[here] as int + 0x100 * config[here + 1] as int + 0x1_0000 * config[here + 2] as int
         + 0x100_0000 * config[here + 3] as int;
    ghost var b := config[here..here + 4];
    assert b[1..][1..] == b[2..] && b[2..][1..] == b[3..] && b[3..][1..] == [];
    assert FromLe(b[3..]) == b[3] && FromLe(b[2..]) == b[2] as int + 256 * FromLe(b[3..]);
    assert FromLe(b[1..]) == b[1] as int + 256 * FromLe(b[2..]);
  }

  /** Nothing frames a blob whose next length does not fit. */
  lemma {:induction false} Malformed(config: Bytes, at: seq<nat>, sizes: seq<nat>, taken: seq<Bytes>, here: nat)
    requires |taken| < 3 && |config| < 0x1_0000_0000 && Located(config, here, at, sizes, taken)
    requires |config| - here < 4 || FromLe(config[here..here + 4]) == 0 ||
             |config| - here - 4 < FromLe(config[here..here + 4])
    ensures forall headers :: !Frames(headers, config)
  {
    forall headers | Frames(headers, config) ensures false {
      var i := |taken|;
      FramedSplit(headers, i);
      assert Framed(taken) <= config;
      assert forall j :: 0 <= j < i ==> |taken[j]| < 0x1_0000_0000 by { FramedHolds(taken); }
      FramedUnique(headers[..i], taken, config);
      assert Framed(headers[i..]) <= config[here..];
      assert |config| - here >= 4 ==> config[here..][..4] == config[here..here + 4];
      FirstFrame(headers[i..], config[here..]);
    }
  }

  lemma {:induction false} FramedHolds(headers: seq<Bytes>)
    ensures forall j :: 0 <= j < |headers| ==> |headers[j]| <= |Framed(headers)|
  {
    if headers != [] {
      FramedHolds(headers[1..]);
      forall j | 0 <= j < |headers| ensures |headers[j]| <= |Framed(headers)| {
        if j > 0 {
          assert headers[j] == headers[1..][j - 1];
        }
      }
    }
  }

  lemma {:induction false} FramedSplit(headers: seq<Bytes>, i: nat)
    requires i <= |headers|
    ensures Framed(headers) == Framed(headers[..i]) + Framed(headers[i..])
  {
    if i == 0 {
      assert headers[0..] == headers;
    } else {
      FramedSplit(headers[1..], i - 1);
      assert headers[1..][..i - 1] == headers[..i][1..] && headers[1..][i - 1..] == headers[i..];
    }
  }

  /** The four bytes of a length, pushed one at a time as every writer does: of a length cut to
      32 bits, which leaves its low bytes as they are. */
  method PushLength(out: Bytes, length: nat) returns (r: Bytes)
    ensures r == out + Le(length, 4)
  {
    var n := length % 0x1_0000_0000;
    r := out;
    for b := 0 to 4
      invariant |r| == |out| + b && r[..|out|] == out
      invariant forall j :: 0 <= j < b ==> r[|out| + j] == Shifted(n, j)
    {
      r := r + [Shifted(n, b)];
    }
    forall j | 0 <= j < 4 ensures r[|out| + j] == Le(n, 4)[j] {
      LeDigit(n, 4, j);
    }
    LowFour(length);
  }

  lemma LowFour(n: nat)
    ensures Le(n % 0x1_0000_0000, 4) == Le(n, 4)
  {
    Pow256Of4();
    LowBytesOnly(n / 0x1_0000_0000, n % 0x1_0000_0000, 4);
  }

  /** What is above its low bytes is no part of them. */
  lemma {:induction false} LowBytesOnly(high: nat, low: nat, width: nat)
    ensures Le(high * Pow256(width) + low, width) == Le(low, width)
    decreases width
  {
    if width > 0 {
      var k := high * Pow256(width - 1);
      TimesWidth(high, Pow256(width - 1));
      LowByte(k, low);
      hide Pow256;
      LowBytesOnly(high, low / 256, width - 1);
    }
  }

  lemma TimesWidth(high: nat, p: nat)
    ensures high * (256 * p) == 256 * (high * p)
  {
  }

  lemma LowByte(k: nat, low: nat)
    ensures (256 * k + low) % 256 == low % 256 && (256 * k + low) / 256 == k + low / 256
  {
  }

  /** The seed tool's writer, and the one Ogg's headers are assembled by. */
  method Assemble(headers: seq<Bytes>) returns (out: Bytes)
    requires forall i :: 0 <= i < |headers| ==> |headers[i]| < 0x1_0000_0000
    ensures out == Framed(headers)
  {
    hide Framed, Le;
    out := [];
    FramedNone();
    for i := 0 to |headers|
      invariant out == Framed(headers[..i])
    {
      FramedUpTo(headers, i);
      out := PushLength(out, |headers[i]|);
      out := out + headers[i];
    }
    assert headers[..|headers|] == headers;
  }

  lemma FramedNone()
    ensures forall headers: seq<Bytes> :: Framed(headers[..0]) == []
  {
  }

  lemma FramedUpTo(headers: seq<Bytes>, i: nat)
    requires i < |headers|
    ensures Framed(headers[..i + 1]) == Framed(headers[..i]) + Le(|headers[i]|, 4) + headers[i]
  {
    FramedAppend(headers[..i], headers[i]);
    assert headers[..i] + [headers[i]] == headers[..i + 1];
  }

  // ------------------------------------------------------------------
  // Matroska's Xiph lacing
  // ------------------------------------------------------------------

  /** A length as Xiph lacing states it: bytes of 255 and one below. */
  function Lace(n: nat): Bytes {
    if n < 255 then [n] else [255] + Lace(n - 255)
  }

  /** Section 10.3 of RFC 9559, for three packets: the count less one, the lengths of the
      first two, and the packets. */
  function XiphLaced(headers: seq<Bytes>): Bytes
    requires |headers| == 3
  {
    [2] + Lace(|headers[0]|) + Lace(|headers[1]|) + (headers[0] + headers[1] + headers[2])
  }

  /** Thus 300 is 255 and 45, and a multiple of 255 ends in nought. */
  lemma LaceOfSome()
    ensures Lace(300) == [255, 45] && Lace(255) == [255, 0] && Lace(254) == [254]
  {
    assert Lace(45) == [45] && Lace(0) == [0];
  }

  lemma {:induction false} LaceUnique(a: nat, b: nat, blob: Bytes)
    requires Lace(a) <= blob && Lace(b) <= blob
    ensures a == b
  {
    if a >= 255 && b >= 255 {
      LaceUnique(a - 255, b - 255, blob[1..]);
    } else {
      assert blob[0] == Lace(a)[0] == Lace(b)[0];
    }
  }

  lemma {:induction false} XiphUnique(a: seq<Bytes>, b: seq<Bytes>)
    requires |a| == |b| == 3 && XiphLaced(a) == XiphLaced(b)
    ensures a == b
  {
    var blob := XiphLaced(a);
    XiphParts(a);
    XiphParts(b);
    LaceUnique(|a[0]|, |b[0]|, blob[1..]);
    var m := 1 + |Lace(|a[0]|)|;
    LaceUnique(|a[1]|, |b[1]|, blob[m..]);
  }

  lemma XiphParts(headers: seq<Bytes>)
    requires |headers| == 3
    ensures var blob := XiphLaced(headers);
            var first := 1 + |Lace(|headers[0]|)|;
            var second := first + |Lace(|headers[1]|)|;
            var third := second + |headers[0]|;
            var fourth := third + |headers[1]|;
            Lace(|headers[0]|) <= blob[1..] && Lace(|headers[1]|) <= blob[first..] &&
            blob[second..third] == headers[0] && blob[third..fourth] == headers[1] &&
            blob[fourth..] == headers[2]
  {
  }

  /** One lacing length, read from `from`: refused only when the bytes of 255 run to the end. */
  method ReadLace(p: Bytes, from: nat) returns (ok: bool, length: nat, at: nat)
    requires from <= |p|
    ensures ok ==> from < at <= |p| && p[from..at] == Lace(length)
    ensures !ok ==> forall n :: !(Lace(n) <= p[from..])
  {
    length, at := 0, from;
    while true
      invariant from <= at <= |p| && length == 255 * (at - from)
      invariant forall j :: from <= j < at ==> p[j] == 255
      decreases |p| - at
    {
      if at >= |p| {
        forall n | Lace(n) <= p[from..] ensures false {
          EndsBelow255(n);
        }
        return false, length, at;
      }
      length := length + p[at];
      at := at + 1;
      if p[at - 1] != 255 {
        LaceOf(p[from..at]);
        return true, length, at;
      }
    }
  }

  lemma {:induction false} EndsBelow255(n: nat)
    ensures Lace(n) != [] && Lace(n)[|Lace(n)| - 1] < 255
  {
    if n >= 255 {
      EndsBelow255(n - 255);
    }
  }

  lemma {:induction false} LaceOf(b: Bytes)
    requires b != [] && b[|b| - 1] < 255 && forall j :: 0 <= j < |b| - 1 ==> b[j] == 255
    ensures Lace(255 * (|b| - 1) + b[|b| - 1]) == b
  {
    if |b| > 1 {
      LaceOf(b[1..]);
      assert b[1..][|b| - 2] == b[|b| - 1];
    }
  }

  ghost predicate Laces(headers: seq<Bytes>, p: Bytes) {
    |headers| == 3 && XiphLaced(headers) == p
  }

  lemma FirstLace(headers: seq<Bytes>, p: Bytes, at0: nat, n0: nat)
    requires Laces(headers, p) && 1 <= at0 <= |p| && p[1..at0] == Lace(n0)
    ensures |headers[0]| == n0 && Lace(|headers[1]|) <= p[at0..]
    ensures |p| == at0 + |Lace(|headers[1]|)| + n0 + |headers[1]| + |headers[2]|
  {
    XiphParts(headers);
    assert p[1..][..at0 - 1] == p[1..at0];
    LaceUnique(|headers[0]|, n0, p[1..]);
  }

  /** Nothing laces a blob whose two lengths cannot be read, or run past its end. */
  lemma NotLaced(p: Bytes, at0: nat, n0: nat)
    requires 1 <= at0 <= |p| && p[1..at0] == Lace(n0)
    requires (forall n :: !(Lace(n) <= p[at0..])) ||
             exists n1, at1 :: at0 <= at1 <= |p| && p[at0..at1] == Lace(n1) && at1 + n0 + n1 > |p|
    ensures forall headers :: !Laces(headers, p)
  {
    forall headers | Laces(headers, p) ensures false {
      FirstLace(headers, p, at0, n0);
      var n1, at1 :| at0 <= at1 <= |p| && p[at0..at1] == Lace(n1) && at1 + n0 + n1 > |p|;
      assert p[at0..][..at1 - at0] == p[at0..at1];
      LaceUnique(|headers[1]|, n1, p[at0..]);
    }
  }

  lemma NotLacedAtAll(p: Bytes)
    requires |p| < 3 || p[0] != 2 || forall n :: !(Lace(n) <= p[1..])
    ensures forall headers :: !Laces(headers, p)
  {
    forall headers | Laces(headers, p) ensures false {
      XiphParts(headers);
    }
  }

  lemma LacedAs(p: Bytes, at0: nat, at1: nat, n0: nat, n1: nat) returns (headers: seq<Bytes>)
    requires |p| >= 3 && p[0] == 2 && 1 <= at0 <= at1 && at1 + n0 + n1 <= |p|
    requires p[1..at0] == Lace(n0) && p[at0..at1] == Lace(n1)
    ensures headers == [p[at1..at1 + n0], p[at1 + n0..at1 + n0 + n1], p[at1 + n0 + n1..]]
    ensures Laces(headers, p)
    ensures forall other :: Laces(other, p) ==> other == headers
  {
    headers := [p[at1..at1 + n0], p[at1 + n0..at1 + n0 + n1], p[at1 + n0 + n1..]];
    assert p == [2] + p[1..at0] + p[at0..at1] + p[at1..];
    assert headers[0] + headers[1] + headers[2] == p[at1..];
    forall other | Laces(other, p) ensures other == headers {
      XiphUnique(other, headers);
    }
  }

  /** Matroska's converter: the framing of the three headers, from exactly the blobs that
      lace three. */
  method VorbisConfig(p: Bytes) returns (ok: bool, out: Bytes)
    ensures forall headers :: Laces(headers, p) ==> ok && out == Framed(headers)
    ensures ok ==> exists headers :: Laces(headers, p)
  {
    out := [];
    if |p| < 3 || p[0] != 2 {
      NotLacedAtAll(p);
      return false, out;
    }
    var ok0, n0, at0 := ReadLace(p, 1);
    if !ok0 {
      NotLacedAtAll(p);
      return false, out;
    }
    var ok1, n1, at1 := ReadLace(p, at0);
    if !ok1 || at1 + n0 + n1 > |p| {
      NotLaced(p, at0, n0);
      return false, out;
    }
    ghost var headers := LacedAs(p, at0, at1, n0, n1);
    assert headers[1..][1..] == headers[2..] && headers[2..] == [headers[2]];
    assert Flat(headers[2..]) == headers[2];
    assert p[at1..] == headers[0] + (headers[1] + headers[2]);
    out := FrameParts(p, at1, [n0, n1, |p| - at1 - n0 - n1], headers);
    ok := true;
  }

  function Flat(parts: seq<Bytes>): Bytes {
    if parts == [] then [] else parts[0] + Flat(parts[1..])
  }

  lemma FlatStep(p: Bytes, at: nat, parts: seq<Bytes>, i: nat)
    requires at <= |p| && i < |parts| && p[at..] == Flat(parts[i..])
    ensures var n := |parts[i]|;
            at + n <= |p| && p[at..at + n] == parts[i] && p[at + n..] == Flat(parts[i + 1..])
  {
    assert parts[i..][1..] == parts[i + 1..];
    FrontAt(p, at, parts[i], Flat(parts[i + 1..]));
  }

  lemma FrontAt(p: Bytes, at: nat, front: Bytes, rest: Bytes)
    requires at <= |p| && p[at..] == front + rest
    ensures var n := |front|;
            at + n <= |p| && p[at..at + n] == front && p[at + n..] == rest
  {
    var tail := p[at..];
    assert tail[..|front|] == front && tail[|front|..] == rest;
    assert tail[..|front|] == p[at..at + |front|] && tail[|front|..] == p[at + |front|..];
  }

  /** The converter's second loop: the packets one after another, each behind its length. */
  method FrameParts(p: Bytes, from: nat, lengths: seq<nat>, ghost headers: seq<Bytes>)
      returns (out: Bytes)
    requires from <= |p| && p[from..] == Flat(headers)
    requires |lengths| == |headers| && forall i :: 0 <= i < |lengths| ==> lengths[i] == |headers[i]|
    ensures out == Framed(headers)
  {
    hide Framed, Le, Flat;
    var at: nat := from;
    out := [];
    assert headers[0..] == headers;
    FramedNone();
    for i := 0 to |lengths|
      invariant at <= |p| && p[at..] == Flat(headers[i..])
      invariant out == Framed(headers[..i])
    {
      FlatStep(p, at, headers, i);
      FramedUpTo(headers, i);
      out := PushLength(out, lengths[i]);
      out := out + p[at..at + lengths[i]];
      at := at + lengths[i];
    }
    assert headers[..|headers|] == headers;
  }

  /** Any three non-empty headers survive Matroska: laced, converted and split again, they
      come back as they were. */
  method ThroughMatroska(headers: seq<Bytes>) returns (back: seq<Bytes>)
    requires |headers| == 3 && NoneEmpty(headers)
    requires |XiphLaced(headers)| + 12 < 0x1_0000_0000
    ensures back == headers
  {
    var laced := XiphLaced(headers);
    assert Laces(headers, laced);
    assert |Framed(headers)| <= |laced| + 12 by { FramedLength(headers); }
    var converted, config := VorbisConfig(laced);
    back := Resplit(headers, config);
  }

  /** And they survive Ogg and the seed tool, which frame them directly. */
  method ThroughFraming(headers: seq<Bytes>) returns (back: seq<Bytes>)
    requires Stated(headers) && NoneEmpty(headers) && |Framed(headers)| < 0x1_0000_0000
    ensures back == headers
  {
    var config := Assemble(headers);
    back := Resplit(headers, config);
  }

  lemma FramedLength(headers: seq<Bytes>)
    requires |headers| == 3
    ensures |Framed(headers)| == 12 + |headers[0]| + |headers[1]| + |headers[2]|
  {
    assert headers[1..][1..] == headers[2..] && headers[2..][1..] == [];
    assert |Framed(headers[2..])| == 4 + |headers[2]|;
    assert |Framed(headers[1..])| == 4 + |headers[1]| + |Framed(headers[2..])|;
  }

  method Resplit(ghost headers: seq<Bytes>, config: Bytes) returns (back: seq<Bytes>)
    requires |headers| == 3 && NoneEmpty(headers) && config == Framed(headers)
    requires |config| < 0x1_0000_0000
    ensures back == headers
  {
    FramedHolds(headers);
    assert Frames(headers, config);
    var ok, at, sizes := SplitHeaders(config);
    back := [config[at[0]..at[0] + sizes[0]], config[at[1]..at[1] + sizes[1]],
             config[at[2]..at[2] + sizes[2]]];
  }
}
