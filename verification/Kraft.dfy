/** The Kraft equality, and what it says about a codebook. */
module Kraft {

  type Bits = seq<bool>

  /** `Fraction(1, 1 << n)`. */
  function Share(n: nat): (r: real)
    ensures r > 0.0
  {
    if n == 0 then 1.0 else Share(n - 1) / 2.0
  }

  function Sum(lengths: seq<nat>): (r: real)
    ensures r >= 0.0
  {
    if lengths == [] then 0.0 else Share(lengths[0]) + Sum(lengths[1..])
  }

  /** The generator's check. */
  predicate KraftOk(lengths: seq<nat>) {
    Sum(lengths) == 1.0
  }

  function Lengths(book: seq<Bits>): (r: seq<nat>)
    ensures |r| == |book| && forall i :: 0 <= i < |r| ==> r[i] == |book[i]|
  {
    if book == [] then [] else [|book[0]|] + Lengths(book[1..])
  }

  /** The codeword an entry of the table stands for: the low `n` bits of `code`, the top one
      first. */
  function Codeword(code: nat, n: nat): (r: Bits)
    ensures |r| == n
  {
    if n == 0 then [] else Codeword(code / 2, n - 1) + [code % 2 == 1]
  }

  /** The top bit first: six in three bits is 110, and one is 001. */
  lemma TopBitFirst()
    ensures Codeword(6, 3) == [true, true, false] && Codeword(1, 3) == [false, false, true]
  {
    assert Codeword(0, 0) == [] && Codeword(0, 1) == [false] && Codeword(1, 1) == [true];
    assert Codeword(3, 2) == [true, true] && Codeword(0, 2) == [false, false];
  }

  /** No codeword begins another. */
  ghost predicate PrefixFree(book: seq<Bits>) {
    forall i, j :: 0 <= i < |book| && 0 <= j < |book| && i != j ==> !(book[i] <= book[j])
  }

  /** How many codewords `bits` starts with. */
  function Matches(book: seq<Bits>, bits: Bits): nat {
    if book == [] then 0 else (if book[0] <= bits then 1 else 0) + Matches(book[1..], bits)
  }

  predicate AtMost(book: seq<Bits>, n: nat) {
    forall i :: 0 <= i < |book| ==> |book[i]| <= n
  }

  /** Every bit string as long as the longest codeword starts with exactly one. */
  ghost predicate Complete(book: seq<Bits>, longest: nat) {
    forall bits: Bits | |bits| == longest :: Matches(book, bits) == 1
  }

  // ------------------------------------------------------------------
  // Counting the strings a book catches
  // ------------------------------------------------------------------

  /** The codewords that start with `b`, without it. */
  function Half(book: seq<Bits>, b: bool): seq<Bits> {
    if book == [] then []
    else if book[0] != [] && book[0][0] == b then [book[0][1..]] + Half(book[1..], b)
    else Half(book[1..], b)
  }

  lemma {:induction false} HalfHas(book: seq<Bits>, b: bool, w: Bits)
    ensures w in Half(book, b) <==> [b] + w in book
  {
    if book != [] {
      HalfHas(book[1..], b, w);
      if book[0] != [] {
        assert book[0] == [book[0][0]] + book[0][1..];
        assert [b] + w == book[0] ==> book[0][1..] == w;
      }
    }
  }

  lemma {:induction false} HalfMatches(book: seq<Bits>, b: bool, bits: Bits)
    requires [] !in book
    ensures Matches(book, [b] + bits) == Matches(Half(book, b), bits)
  {
    if book != [] {
      var w := book[0];
      assert w in book;
      HalfMatches(book[1..], b, bits);
      assert w == [w[0]] + w[1..];
      assert w <= [b] + bits <==> w[0] == b && w[1..] <= bits by {
        assert ([b] + bits)[1..] == bits;
        if w <= [b] + bits {
          assert w[0] == ([b] + bits)[0];
          assert w[1..] <= ([b] + bits)[1..];
        }
      }
      if w[0] == b {
        assert Half(book, b) == [w[1..]] + Half(book[1..], b);
      }
    }
  }

  lemma {:induction false} HalvesSum(book: seq<Bits>)
    requires [] !in book
    ensures Sum(Lengths(book)) ==
            (Sum(Lengths(Half(book, false))) + Sum(Lengths(Half(book, true)))) / 2.0
  {
    if book != [] {
      var w := book[0];
      assert w in book && forall x :: x in book[1..] ==> x in book;
      HalvesSum(book[1..]);
      assert Lengths(book)[1..] == Lengths(book[1..]);
      assert Half(book, !w[0]) == Half(book[1..], !w[0]);
      var half := Half(book, w[0]);
      assert half == [w[1..]] + Half(book[1..], w[0]);
      assert Lengths(half)[1..] == Lengths(Half(book[1..], w[0]));
      assert Share(|w|) == Share(|w| - 1) / 2.0;
    }
  }

  lemma {:induction false} HalfAtMost(book: seq<Bits>, b: bool, n: nat)
    requires AtMost(book, n + 1)
    ensures AtMost(Half(book, b), n)
  {
    if book != [] {
      HalfAtMost(book[1..], b, n);
    }
  }

  /** Prefix-freeness as a recursion: a first codeword against the rest. */
  predicate Apart(book: seq<Bits>) {
    book == [] ||
    ((forall i :: 0 < i < |book| ==> !(book[0] <= book[i]) && !(book[i] <= book[0])) && Apart(book[1..]))
  }

  lemma {:induction false} ApartIsPrefixFree(book: seq<Bits>)
    ensures Apart(book) <==> PrefixFree(book)
  {
    if book != [] {
      ApartIsPrefixFree(book[1..]);
      if PrefixFree(book) {
        forall i, j | 0 <= i < |book[1..]| && 0 <= j < |book[1..]| && i != j
          ensures !(book[1..][i] <= book[1..][j])
        {
          assert !(book[i + 1] <= book[j + 1]);
        }
      }
      if Apart(book) {
        forall i, j | 0 <= i < |book| && 0 <= j < |book| && i != j ensures !(book[i] <= book[j]) {
          if i > 0 && j > 0 {
            assert !(book[1..][i - 1] <= book[1..][j - 1]);
          }
        }
      }
    }
  }

  lemma {:induction false} HalfApart(book: seq<Bits>, b: bool)
    requires Apart(book)
    ensures Apart(Half(book, b))
  {
    if book != [] {
      HalfApart(book[1..], b);
      var w := book[0];
      if w != [] && w[0] == b {
        var rest := Half(book[1..], b);
        forall i | 0 <= i < |rest| ensures !(w[1..] <= rest[i]) && !(rest[i] <= w[1..]) {
          HalfHas(book[1..], b, rest[i]);
          var k :| 0 <= k < |book[1..]| && book[1..][k] == [b] + rest[i];
          assert book[k + 1] == [b] + rest[i] && w == [b] + w[1..];
        }
        var half := Half(book, b);
        assert half[0] == w[1..] && half[1..] == rest;
        assert forall i :: 0 < i < |half| ==> half[i] == rest[i - 1];
      }
    }
  }

  /** The empty codeword begins every other, so it is alone. */
  lemma EmptyIsAlone(book: seq<Bits>)
    requires PrefixFree(book) && [] in book
    ensures book == [[]]
  {
    var i :| 0 <= i < |book| && book[i] == [];
    if |book| > 1 {
      var j := if i == 0 then 1 else 0;
      NotABeginning(book, i, j);
    }
  }

  lemma NotABeginning(book: seq<Bits>, i: nat, j: nat)
    requires PrefixFree(book) && i < |book| && j < |book| && i != j
    ensures book[i] != []
  {
    assert !(book[i] <= book[j]);
  }

  /** A book with room for the empty codeword alone, and without it, is empty. */
  lemma NothingShorter(book: seq<Bits>)
    requires AtMost(book, 0) && [] !in book
    ensures book == []
  {
    if book != [] {
      ShortestIsEmpty(book);
    }
  }

  lemma ShortestIsEmpty(book: seq<Bits>)
    requires AtMost(book, 0) && book != []
    ensures [] in book
  {
    assert book[0] in book && book[0] == [];
  }

  lemma {:induction false} MatchesOnlyOne(bits: Bits)
    ensures Matches([[]], bits) == 1
  {
    assert Matches([[]], bits) == 1 + Matches([[]][1..], bits);
  }

  /** The Kraft inequality: a prefix-free book shares out at most the whole. */
  lemma {:induction false} KraftInequality(book: seq<Bits>, n: nat)
    requires PrefixFree(book) && AtMost(book, n)
    ensures Sum(Lengths(book)) <= 1.0
    decreases n
  {
    if [] in book {
      EmptyIsAlone(book);
      OnlyShare();
    } else if n == 0 {
      NothingShorter(book);
    } else {
      Halves(book, n - 1);
      KraftInequality(Half(book, false), n - 1);
      KraftInequality(Half(book, true), n - 1);
    }
  }

  lemma OnlyShare()
    ensures Sum(Lengths([[]])) == 1.0
  {
    assert Lengths([[]]) == [0];
    assert [0][1..] == [];
  }

  lemma Halves(book: seq<Bits>, n: nat)
    requires PrefixFree(book) && AtMost(book, n + 1) && [] !in book
    ensures forall b :: PrefixFree(Half(book, b)) && AtMost(Half(book, b), n)
    ensures Sum(Lengths(book)) ==
            (Sum(Lengths(Half(book, false))) + Sum(Lengths(Half(book, true)))) / 2.0
  {
    ApartIsPrefixFree(book);
    forall b ensures PrefixFree(Half(book, b)) && AtMost(Half(book, b), n) {
      HalfApart(book, b);
      ApartIsPrefixFree(Half(book, b));
      HalfAtMost(book, b, n);
    }
    HalvesSum(book);
  }

  /** What the check means of a prefix-free book: it passes if and only if every bit string as
      long as the longest codeword starts with exactly one codeword. */
  lemma {:induction false} KraftMeansComplete(book: seq<Bits>, n: nat)
    requires PrefixFree(book) && AtMost(book, n)
    ensures KraftOk(Lengths(book)) <==> Complete(book, n)
    decreases n
  {
    if [] in book {
      EmptyIsAlone(book);
      OnlyShare();
      forall bits: Bits | |bits| == n ensures Matches(book, bits) == 1 {
        MatchesOnlyOne(bits);
      }
    } else if n == 0 {
      NothingShorter(book);
      var none: Bits := [];
      assert |none| == n && Matches(book, none) == 0;
    } else {
      Halves(book, n - 1);
      KraftInequality(Half(book, false), n - 1);
      KraftInequality(Half(book, true), n - 1);
      KraftMeansComplete(Half(book, false), n - 1);
      KraftMeansComplete(Half(book, true), n - 1);
      CompleteByHalves(book, n - 1);
    }
  }

  lemma CompleteByHalves(book: seq<Bits>, n: nat)
    requires [] !in book
    ensures Complete(book, n + 1) <==> Complete(Half(book, false), n) && Complete(Half(book, true), n)
  {
    if Complete(book, n + 1) {
      forall b: bool, bits: Bits | |bits| == n ensures Matches(Half(book, b), bits) == 1 {
        HalfMatches(book, b, bits);
        assert |[b] + bits| == n + 1;
      }
    }
    if Complete(Half(book, false), n) && Complete(Half(book, true), n) {
      forall bits: Bits | |bits| == n + 1 ensures Matches(book, bits) == 1 {
        assert bits == [bits[0]] + bits[1..];
        HalfMatches(book, bits[0], bits[1..]);
        assert Matches(Half(book, bits[0]), bits[1..]) == 1;
      }
    }
  }

  /** A table as the generator reads it: a code and a length for each entry. */
  function Book(codes: seq<nat>, lengths: seq<nat>): (book: seq<Bits>)
    requires |codes| == |lengths|
    ensures |book| == |codes|
  {
    if codes == [] then []
    else [Codeword(codes[0], lengths[0])] + Book(codes[1..], lengths[1..])
  }

  /** What `main` asks of a codebook before anything is written. */
  predicate BookOk(codes: seq<nat>, lengths: seq<nat>, size: nat) {
    |lengths| == size && |codes| == size && KraftOk(lengths)
  }

  lemma {:induction false} BookLengths(codes: seq<nat>, lengths: seq<nat>)
    requires |codes| == |lengths|
    ensures Lengths(Book(codes, lengths)) == lengths
  {
    if codes != [] {
      BookLengths(codes[1..], lengths[1..]);
    }
  }

  lemma {:induction false} MatchesOne(book: seq<Bits>, i: nat, bits: Bits)
    requires i < |book| && book[i] <= bits
    ensures Matches(book, bits) >= 1
    decreases i
  {
    if i > 0 {
      MatchesOne(book[1..], i - 1, bits);
    }
  }

  lemma {:induction false} MatchesTwo(book: seq<Bits>, i: nat, j: nat, bits: Bits)
    requires i < j < |book| && book[i] <= bits && book[j] <= bits
    ensures Matches(book, bits) >= 2
    decreases i
  {
    if i == 0 {
      MatchesOne(book[1..], j - 1, bits);
    } else {
      MatchesTwo(book[1..], i - 1, j - 1, bits);
    }
  }

  function Zeros(n: nat): (r: Bits)
    ensures |r| == n
  {
    if n == 0 then [] else [false] + Zeros(n - 1)
  }

  lemma Extends(short: Bits, long: Bits, more: Bits)
    requires short <= long
    ensures short <= long + more
  {
  }

  /** Where one codeword begins another, some string starts with both. */
  lemma CompleteIsPrefixFree(book: seq<Bits>, n: nat)
    requires AtMost(book, n) && Complete(book, n)
    ensures PrefixFree(book)
  {
    forall i, j | 0 <= i < |book| && 0 <= j < |book| && i != j ensures !(book[i] <= book[j]) {
      if book[i] <= book[j] {
        var bits := book[j] + Zeros(n - |book[j]|);
        Extends(book[i], book[j], Zeros(n - |book[j]|));
        MatchesTwo(book, if i < j then i else j, if i < j then j else i, bits);
        assert Matches(book, bits) != 1;
      }
    }
  }

  /** Every bit string as long as the longest codeword starts with exactly one codeword, if and
      only if the book passes the check and no codeword begins another. */
  lemma CompleteExactly(book: seq<Bits>, n: nat)
    requires AtMost(book, n)
    ensures Complete(book, n) <==> KraftOk(Lengths(book)) && PrefixFree(book)
  {
    if Complete(book, n) {
      CompleteIsPrefixFree(book, n);
    }
    if PrefixFree(book) {
      KraftMeansComplete(book, n);
    }
  }

  /** What the generator's check leaves open of any table of the size it declares: it decodes
      every bit string, and one way only, if and only if it passes and is prefix-free. */
  lemma BookMeansComplete(codes: seq<nat>, lengths: seq<nat>, size: nat, longest: nat)
    requires |codes| == |lengths| == size
    requires forall i :: 0 <= i < size ==> lengths[i] <= longest
    ensures Complete(Book(codes, lengths), longest) <==>
            BookOk(codes, lengths, size) && PrefixFree(Book(codes, lengths))
  {
    BookLengths(codes, lengths);
    var book := Book(codes, lengths);
    assert forall i :: 0 <= i < |book| ==> |book[i]| == Lengths(book)[i];
    CompleteExactly(book, longest);
  }

  /** On its own the check says nothing of the codewords: two entries of length one pass it,
      even where they are the same codeword. */
  lemma KraftAloneIsNotEnough()
    ensures var book := [Codeword(0, 1), Codeword(0, 1)];
            KraftOk(Lengths(book)) && !PrefixFree(book) && !Complete(book, 1)
  {
    var book := [Codeword(0, 1), Codeword(0, 1)];
    assert Codeword(0, 0) == [] && Codeword(0, 1) == [false];
    assert Lengths(book)[1..] == [1] && [1][1..] == [];
    assert Share(0) == 1.0 && Share(1) == 0.5;
    assert book[0] <= book[1];
    assert book[1..] == [[false]] && [[false]][1..] == [];
    var bits: Bits := [true];
    var zero: Bits := [false];
    assert zero[0] != bits[0];
    assert !(zero <= bits);
    assert Matches([[false]], bits) == 0;
    assert Matches(book, bits) == 0;
    assert |bits| == 1;
  }

  // ------------------------------------------------------------------
  // Complete prefix codes, and truncated tables
  // ------------------------------------------------------------------

  /** A complete prefix code is a full binary tree; its codewords are the paths to its leaves. */
  datatype Tree = Leaf | Node(zero: Tree, one: Tree)

  function Depths(t: Tree, depth: nat): seq<nat> {
    match t
    case Leaf => [depth]
    case Node(zero, one) => Depths(zero, depth + 1) + Depths(one, depth + 1)
  }

  lemma {:induction false} SumConcat(a: seq<nat>, b: seq<nat>)
    ensures Sum(a + b) == Sum(a) + Sum(b)
  {
    if a == [] {
      assert a + b == b;
    } else {
      assert (a + b)[1..] == a[1..] + b;
      SumConcat(a[1..], b);
    }
  }

  lemma {:induction false} TreeShares(t: Tree, depth: nat)
    ensures Sum(Depths(t, depth)) == Share(depth)
  {
    match t
    case Leaf =>
      assert [depth][1..] == [];
    case Node(zero, one) =>
      TreeShares(zero, depth + 1);
      TreeShares(one, depth + 1);
      SumConcat(Depths(zero, depth + 1), Depths(one, depth + 1));
  }

  function Without(s: seq<nat>, i: nat): seq<nat>
    requires i < |s|
  {
    s[..i] + s[i + 1..]
  }

  lemma WithoutOne(s: seq<nat>, i: nat)
    requires i < |s|
    ensures Sum(s) == Share(s[i]) + Sum(Without(s, i))
    ensures multiset(Without(s, i)) == multiset(s) - multiset{s[i]}
  {
    AroundOne(s, i);
    OneSum(s[i]);
    hide Sum;
    SumConcat(s[..i], [s[i]] + s[i + 1..]);
    SumConcat([s[i]], s[i + 1..]);
    SumConcat(s[..i], s[i + 1..]);
  }

  lemma OneSum(n: nat)
    ensures Sum([n]) == Share(n)
  {
    assert [n][1..] == [];
  }

  lemma AroundOne(s: seq<nat>, i: nat)
    requires i < |s|
    ensures s == s[..i] + ([s[i]] + s[i + 1..])
    ensures multiset(Without(s, i)) == multiset(s) - multiset{s[i]}
  {
    assert s == s[..i] + ([s[i]] + s[i + 1..]);
    assert multiset(s) == multiset(s[..i]) + (multiset{s[i]} + multiset(s[i + 1..]));
  }

  /** The order of a table does not matter to the check. */
  lemma {:induction false} SumUnordered(a: seq<nat>, b: seq<nat>)
    requires multiset(a) == multiset(b)
    ensures Sum(a) == Sum(b)
    decreases |a|
  {
    if a == [] {
      assert |multiset(b)| == 0;
    } else {
      assert a[0] in multiset(b);
      var i :| 0 <= i < |b| && b[i] == a[0];
      WithoutOne(a, 0);
      WithoutOne(b, i);
      SumUnordered(Without(a, 0), Without(b, i));
    }
  }

  /** The code lengths of every complete prefix code, in any order, pass the check. */
  lemma CompleteCodesPass(t: Tree, lengths: seq<nat>)
    requires multiset(lengths) == multiset(Depths(t, 0))
    ensures KraftOk(lengths)
  {
    TreeShares(t, 0);
    SumUnordered(lengths, Depths(t, 0));
  }

  /** What is left of a table when the entries not marked are dropped. */
  function Kept(lengths: seq<nat>, keep: seq<bool>): seq<nat>
    requires |lengths| == |keep|
  {
    if lengths == [] then []
    else (if keep[0] then [lengths[0]] else []) + Kept(lengths[1..], keep[1..])
  }

  lemma {:induction false} KeptShares(lengths: seq<nat>, keep: seq<bool>)
    requires |lengths| == |keep|
    ensures Sum(Kept(lengths, keep)) <= Sum(lengths)
    ensures false in keep ==> Sum(Kept(lengths, keep)) < Sum(lengths)
  {
    if lengths != [] {
      KeptShares(lengths[1..], keep[1..]);
      var rest := Kept(lengths[1..], keep[1..]);
      assert keep == [keep[0]] + keep[1..];
      if keep[0] {
        assert Kept(lengths, keep) == [lengths[0]] + rest;
        assert Kept(lengths, keep)[1..] == rest;
      } else {
        assert Kept(lengths, keep) == rest;
      }
    }
  }

  /** A truncated table is caught: dropping any entries from one that passes makes it fail. */
  lemma DroppingFails(lengths: seq<nat>, keep: seq<bool>)
    requires |lengths| == |keep| && KraftOk(lengths) && false in keep
    ensures !KraftOk(Kept(lengths, keep))
  {
    KeptShares(lengths, keep);
  }
}
