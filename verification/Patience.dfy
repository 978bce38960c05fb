/** Readers that give up: a call takes at most `guard` turns that find nothing. */
module Patience {

  /** A turn of a reader: it finds nothing, or something that holds `count` packets. */
  datatype Turn = Idle | Finds(count: nat)

  /** The packets found. */
  function Count(turns: seq<Turn>): nat {
    if turns == [] then 0 else (if turns[0].Finds? then turns[0].count else 0) + Count(turns[1..])
  }

  /** No packet has `guard` turns that find nothing in front of it, `idle` of them taken
      already. */
  predicate Patient(turns: seq<Turn>, idle: nat, guard: nat)
    decreases |turns|
  {
    if idle >= guard then Count(turns) == 0
    else turns == [] || Patient(turns[1..], if turns[0].Finds? then 0 else idle + 1, guard)
  }

  lemma OneTurn(turn: Turn, more: seq<Turn>, idle: nat, guard: nat)
    requires idle < guard
    ensures Patient([turn] + more, idle, guard) == Patient(more, if turn.Finds? then 0 else idle + 1, guard)
  {
    assert ([turn] + more)[1..] == more;
  }

  lemma NoTurns(idle: nat, guard: nat)
    ensures Patient([], idle, guard)
  {
  }

  lemma OutOfPatience(turns: seq<Turn>, idle: nat, guard: nat)
    requires idle >= guard
    ensures Patient(turns, idle, guard) <==> Count(turns) == 0
  {
  }

  lemma {:induction false} CountConcat(a: seq<Turn>, b: seq<Turn>)
    ensures Count(a + b) == Count(a) + Count(b)
    decreases |a|
  {
    if a == [] {
      assert a + b == b;
    } else {
      assert (a + b)[1..] == a[1..] + b;
      CountConcat(a[1..], b);
    }
  }

  /** Fewer than `guard` turns in all are always few enough. */
  lemma {:induction false} FewTurns(turns: seq<Turn>, idle: nat, guard: nat)
    requires idle + |turns| <= guard
    ensures Patient(turns, idle, guard)
    decreases |turns|
  {
    if turns != [] {
      FewTurns(turns[1..], if turns[0].Finds? then 0 else idle + 1, guard);
    }
  }

  function Idles(n: nat): (r: seq<Turn>)
    ensures |r| == n
  {
    if n == 0 then [] else [Idle] + Idles(n - 1)
  }

  lemma OneMoreIdle(n: nat)
    requires n > 0
    ensures Idles(n) == [Idle] + Idles(n - 1)
  {
  }

  /** And `guard` idle turns in front of a packet are too many. */
  lemma {:induction false} TooManyTurns(n: nat, rest: seq<Turn>, idle: nat, guard: nat)
    requires idle + n == guard && Count(rest) > 0
    ensures !Patient(Idles(n) + rest, idle, guard)
  {
    if n == 0 {
      assert Idles(0) + rest == rest;
    } else {
      assert (Idles(n) + rest)[1..] == Idles(n - 1) + rest;
      TooManyTurns(n - 1, rest, idle + 1, guard);
    }
  }
}
