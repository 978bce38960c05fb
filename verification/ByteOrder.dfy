/** Integers as bytes, in both orders. */
module ByteOrder {
  import opened Delivery

  function Pow256(n: nat): (p: nat)
    ensures p > 0
  {
    if n == 0 then 1 else 256 * Pow256(n - 1)
  }

  /** The low `width` bytes of `n`, least significant first. */
  function Le(n: nat, width: nat): (b: Bytes)
    ensures |b| == width
  {
    if width == 0 then [] else [n % 256] + Le(n / 256, width - 1)
  }

  function FromLe(b: Bytes): nat {
    if b == [] then 0 else b[0] + 256 * FromLe(b[1..])
  }

  /** The low `width` bytes of `n`, most significant first. */
  function Be(n: nat, width: nat): (b: Bytes)
    ensures |b| == width
  {
    if width == 0 then [] else Be(n / 256, width - 1) + [n % 256]
  }

  function FromBe(b: Bytes): nat {
    if b == [] then 0 else 256 * FromBe(b[..|b| - 1]) + b[|b| - 1]
  }

  /** `(n >> (8 * b)) & 0xFF`, the form the sources write a byte in. */
  function Shifted(n: nat, b: nat): byte {
    if b == 0 then n % 256 else Shifted(n / 256, b - 1)
  }

  lemma {:induction false} LeDigit(n: nat, width: nat, i: nat)
    requires i < width
    ensures Le(n, width)[i] == Shifted(n, i)
  {
    if i > 0 {
      LeDigit(n / 256, width - 1, i - 1);
    }
  }

  lemma {:induction false} BeDigit(n: nat, width: nat, i: nat)
    requires i < width
    ensures Be(n, width)[i] == Shifted(n, width - 1 - i)
  {
    if i < width - 1 {
      BeDigit(n / 256, width - 1, i);
    }
  }

  lemma {:induction false} LeRoundTrip(n: nat, width: nat)
    requires n < Pow256(width)
    ensures FromLe(Le(n, width)) == n
  {
    if width > 0 {
      LeRoundTrip(n / 256, width - 1);
      assert Le(n, width)[1..] == Le(n / 256, width - 1);
    }
  }

  lemma {:induction false} BeRoundTrip(n: nat, width: nat)
    requires n < Pow256(width)
    ensures FromBe(Be(n, width)) == n
  {
    if width > 0 {
      BeRoundTrip(n / 256, width - 1);
      var b := Be(n, width);
      assert b[..|b| - 1] == Be(n / 256, width - 1);
    }
  }

  lemma {:induction false} FromLeBound(b: Bytes)
    ensures FromLe(b) < Pow256(|b|)
    ensures Le(FromLe(b), |b|) == b
  {
    if b != [] {
      var head, tail := b[0] as int, FromLe(b[1..]);
      FromLeBound(b[1..]);
      assert (head + 256 * tail) / 256 == tail && (head + 256 * tail) % 256 == head;
      assert Le(FromLe(b), |b|) == [b[0]] + Le(tail, |b| - 1);
      assert tail + 1 <= Pow256(|b| - 1);
    }
  }

  lemma {:induction false} FromBeBound(b: Bytes)
    ensures FromBe(b) < Pow256(|b|)
    ensures Be(FromBe(b), |b|) == b
  {
    if b != [] {
      var head, last := FromBe(b[..|b| - 1]), b[|b| - 1] as int;
      FromBeBound(b[..|b| - 1]);
      assert (256 * head + last) / 256 == head && (256 * head + last) % 256 == last;
      assert head + 1 <= Pow256(|b| - 1);
      assert Be(FromBe(b), |b|) == Be(head, |b| - 1) + [b[|b| - 1]];
      assert b == b[..|b| - 1] + [b[|b| - 1]];
    }
  }

  lemma Pow256Of4()
    ensures Pow256(4) == 0x1_0000_0000
  {
    assert Pow256(1) == 256 && Pow256(2) == 0x1_0000 && Pow256(3) == 0x100_0000;
  }

  /** Which is which: the number 0x01020304 both ways round. */
  lemma BothOrders()
    ensures Le(0x01020304, 4) == [4, 3, 2, 1] && Be(0x01020304, 4) == [1, 2, 3, 4]
  {
    LeLow(0x01020304, 4, 0x010203, 4);
    LeLow(0x010203, 3, 0x0102, 3);
    LeLow(0x0102, 2, 1, 2);
    LeLow(1, 1, 0, 1);
    hide Le, Be;
    assert [2] + [1] == [2, 1] && [3] + [2, 1] == [3, 2, 1] && [4] + [3, 2, 1] == [4, 3, 2, 1];
    assert [1] + [2] == [1, 2] && [1, 2] + [3] == [1, 2, 3] && [1, 2, 3] + [4] == [1, 2, 3, 4];
  }

  /** One digit off a number. */
  lemma LeLow(n: nat, width: nat, high: nat, low: byte)
    requires width > 0 && n == 256 * high + low as int
    ensures Le(n, width) == [low] + Le(high, width - 1) && Be(n, width) == Be(high, width - 1) + [low]
    ensures width == 1 ==> Le(n, width) == [low] == Be(n, width)
  {
  }
}
