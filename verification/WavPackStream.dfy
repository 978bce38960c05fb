/** The reader interface libwavpack is given: a `FILE*` with one byte of push-back. To the
    library it should be one cursor over the file's bytes. */
module WavPackStream {
  import opened Delivery

  datatype Whence = FromStart | FromHere | FromEnd

  datatype Call =
    | Read(count: int)
    | GetPos
    | SetPosAbs(target: int)
    | SetPosRel(delta: int, whence: Whence)
    | PushBack(c: byte)
    | GetLength

  datatype Answer = Took(bytes: Bytes) | At(pos: int) | Sought(ok: bool) | Pushed(c: byte) | Length(n: nat)

  // ------------------------------------------------------------------
  // A plain cursor
  // ------------------------------------------------------------------

  /** What a read of `count` bytes at `at` finds. */
  function ReadAt(file: Bytes, at: nat, count: int): (r: Bytes)
    ensures count <= 0 ==> r == []
    ensures |r| <= if count < 0 then 0 else count
    ensures r != [] ==> at + |r| <= |file| && r == file[at..at + |r|]
    ensures |r| < count ==> at + |r| >= |file|
  {
    if count <= 0 || at >= |file| then []
    else if count < |file| - at then file[at..at + count]
    else file[at..]
  }

  /** Where a seek goes, which may be before the start. */
  function Target(file: Bytes, at: nat, call: Call): int
    requires call.SetPosAbs? || call.SetPosRel?
  {
    match call
    case SetPosAbs(target) => target
    case SetPosRel(delta, whence) =>
      delta + match whence
              case FromStart => 0
              case FromHere => at
              case FromEnd => |file|
  }

  predicate IsSeek(call: Call) {
    call.SetPosAbs? || call.SetPosRel?
  }

  /** One call on a cursor: the answer, and the cursor after it. A failed seek does not move
      it; a push-back steps back over a byte. */
  function Plain(file: Bytes, at: nat, call: Call): (Answer, nat) {
    match call
    case Read(count) => (Took(ReadAt(file, at, count)), at + |ReadAt(file, at, count)|)
    case GetPos => (At(at), at)
    case PushBack(c) => (Pushed(c), if at == 0 then 0 else at - 1)
    case GetLength => (Length(|file|), at)
    case _ =>
      var target := Target(file, at, call);
      if target < 0 then (Sought(false), at) else (Sought(true), target)
  }

  /** A cursor moves over what it reads, and two reads are one of both. */
  lemma ReadsCompose(file: Bytes, at: nat, m: nat, n: nat)
    requires at <= |file|
    ensures Plain(file, at, Read(m)).1 == at + |ReadAt(file, at, m)|
    ensures ReadAt(file, at, m) + ReadAt(file, Plain(file, at, Read(m)).1, n) == ReadAt(file, at, m + n)
  {
    var here := End(file, at, m);
    ReadIs(file, at, m);
    assert Plain(file, at, Read(m)).1 == here;
    hide ReadAt, Plain;
    ReadIs(file, at, m + n);
    ReadIs(file, here, n);
    assert End(file, here, n) == End(file, at, m + n);
    Adjoin(file, at, here, End(file, at, m + n));
  }

  /** A push-back undoes the read of a byte. */
  lemma PushUndoes(file: Bytes, at: nat)
    requires at < |file|
    ensures Plain(file, at, Read(1)) == (Took([file[at]]), at + 1)
    ensures Plain(file, at + 1, PushBack(file[at])) == (Pushed(file[at]), at)
  {
    ReadIs(file, at, 1);
    assert file[at..at + 1] == [file[at]];
  }

  function End(file: Bytes, at: nat, n: nat): nat {
    if at + n < |file| then at + n else |file|
  }

  lemma ReadIs(file: Bytes, at: nat, n: nat)
    requires at <= |file|
    ensures at <= End(file, at, n) && ReadAt(file, at, n) == file[at..End(file, at, n)]
  {
  }

  lemma Adjoin(file: Bytes, from: nat, mid: nat, to: nat)
    requires from <= mid <= to <= |file|
    ensures file[from..mid] + file[mid..to] == file[from..to]
  {
  }

  /** Relative seeks add up, and agree with absolute ones; the end is where the length says; and
      asking moves nothing. */
  lemma SeeksCompose(file: Bytes, at: nat, delta: int, more: int)
    ensures Plain(file, at, SetPosAbs(delta)) == if delta < 0 then (Sought(false), at) else (Sought(true), delta)
    ensures Plain(file, at, SetPosRel(delta, FromStart)) == Plain(file, at, SetPosAbs(delta))
    ensures at + delta >= 0 ==>
              Plain(file, Plain(file, at, SetPosRel(delta, FromHere)).1, SetPosRel(more, FromHere)).1 ==
              if at + delta + more >= 0 then at + delta + more else at + delta
    ensures Plain(file, at, SetPosRel(delta, FromEnd)) ==
            Plain(file, at, SetPosAbs(Plain(file, at, GetLength).0.n + delta))
    ensures Plain(file, at, GetPos) == (At(at), at) && Plain(file, at, GetLength) == (Length(|file|), at)
  {
  }

  /** Whether a byte is pushed back after a call. */
  predicate HeldAfter(held: bool, call: Call) {
    call.PushBack? || (held && (call.GetPos? || call.GetLength? || (call.Read? && call.count <= 0)))
  }

  /** A client may push back the byte it has just read, once. */
  predicate MayCall(file: Bytes, at: nat, held: bool, call: Call) {
    call.PushBack? ==> !held && 0 < at <= |file| && call.c == file[at - 1]
  }

  // ------------------------------------------------------------------
  // The stream, as its cursor moves
  // ------------------------------------------------------------------

  predicate SeekFails(file: Bytes, at: nat, call: Call) {
    IsSeek(call) && Target(file, at, call) < 0
  }

  /** What the stream does: a seek forgets the pushed byte before it is known to succeed. */
  function Step(file: Bytes, at: nat, held: bool, call: Call): (Answer, nat) {
    if SeekFails(file, at, call) && held then (Sought(false), at + 1) else Plain(file, at, call)
  }

  predicate Proper(file: Bytes, at: nat, held: bool, calls: seq<Call>)
    decreases |calls|
  {
    calls == [] ||
    (MayCall(file, at, held, calls[0]) &&
     Proper(file, Step(file, at, held, calls[0]).1, HeldAfter(held, calls[0]), calls[1..]))
  }

  function Steps(file: Bytes, at: nat, held: bool, calls: seq<Call>): seq<Answer>
    decreases |calls|
  {
    if calls == [] then []
    else
      var (answer, next) := Step(file, at, held, calls[0]);
      [answer] + Steps(file, next, HeldAfter(held, calls[0]), calls[1..])
  }

  function Plains(file: Bytes, at: nat, calls: seq<Call>): seq<Answer>
    decreases |calls|
  {
    if calls == [] then []
    else
      var (answer, next) := Plain(file, at, calls[0]);
      [answer] + Plains(file, next, calls[1..])
  }

  /** No seek fails while a byte is pushed back. */
  predicate Settled(file: Bytes, at: nat, held: bool, calls: seq<Call>)
    decreases |calls|
  {
    calls == [] ||
    (!(SeekFails(file, at, calls[0]) && held) &&
     Settled(file, Plain(file, at, calls[0]).1, HeldAfter(held, calls[0]), calls[1..]))
  }

  /** A client that asks where it is after `n` calls hears what a plain cursor says. */
  predicate Agrees(file: Bytes, at: nat, held: bool, calls: seq<Call>, n: nat)
    requires n <= |calls|
  {
    Steps(file, at, held, calls[..n] + [GetPos]) == Plains(file, at, calls[..n] + [GetPos])
  }

  ghost predicate Follows(file: Bytes, at: nat, held: bool, calls: seq<Call>) {
    forall n: nat :: n <= |calls| ==> Agrees(file, at, held, calls, n)
  }

  /** The push-back is invisible over a whole run exactly when no seek fails behind one. */
  lemma {:induction false} FollowsExactly(file: Bytes, at: nat, held: bool, calls: seq<Call>)
    ensures Follows(file, at, held, calls) <==> Settled(file, at, held, calls)
    decreases |calls|
  {
    AgreesAtFirst(file, at, held, calls);
    if calls != [] {
      var call, rest := calls[0], calls[1..];
      var next, now := Plain(file, at, call).1, HeldAfter(held, call);
      FollowsExactly(file, next, now, rest);
      if SeekFails(file, at, call) && held {
        assert calls[..1] + [GetPos] == [call] + [GetPos];
        StepsPush(file, at, held, call, [GetPos]);
        assert Steps(file, at, held, calls[..1] + [GetPos])[1] == At(at + 1);
        assert !Agrees(file, at, held, calls, 1);
      } else {
        forall n: nat | n <= |rest|
          ensures Agrees(file, at, held, calls, n + 1) == Agrees(file, next, now, rest, n)
        {
          AgreesLater(file, at, held, calls, n);
        }
        if Follows(file, at, held, calls) {
          assert forall n: nat :: n <= |rest| ==> Agrees(file, next, now, rest, n);
        } else {
          var n: nat :| n <= |calls| && !Agrees(file, at, held, calls, n);
          assert !Agrees(file, next, now, rest, n - 1);
        }
      }
    }
  }

  lemma AgreesAtFirst(file: Bytes, at: nat, held: bool, calls: seq<Call>)
    ensures Agrees(file, at, held, calls, 0)
  {
    assert calls[..0] + [GetPos] == [GetPos];
  }

  lemma AgreesLater(file: Bytes, at: nat, held: bool, calls: seq<Call>, n: nat)
    requires n < |calls| && !(SeekFails(file, at, calls[0]) && held)
    ensures Agrees(file, at, held, calls, n + 1) ==
            Agrees(file, Plain(file, at, calls[0]).1, HeldAfter(held, calls[0]), calls[1..], n)
  {
    var tail := calls[1..][..n] + [GetPos];
    assert calls[..n + 1] + [GetPos] == [calls[0]] + tail;
    StepsPush(file, at, held, calls[0], tail);
    var next := Plain(file, at, calls[0]).1;
    SameTail(Plain(file, at, calls[0]).0, Steps(file, next, HeldAfter(held, calls[0]), tail), Plains(file, next, tail));
  }

  lemma SameTail(a: Answer, s: seq<Answer>, p: seq<Answer>)
    ensures [a] + s == [a] + p <==> s == p
  {
    assert ([a] + s)[1..] == s && ([a] + p)[1..] == p;
  }

  lemma {:induction false} SettledAnswers(file: Bytes, at: nat, held: bool, calls: seq<Call>)
    requires Settled(file, at, held, calls)
    ensures Steps(file, at, held, calls) == Plains(file, at, calls)
    decreases |calls|
  {
    if calls != [] {
      SettledAnswers(file, Plain(file, at, calls[0]).1, HeldAfter(held, calls[0]), calls[1..]);
    }
  }

  lemma StepsPush(file: Bytes, at: nat, held: bool, call: Call, rest: seq<Call>)
    ensures var (a, next) := Step(file, at, held, call);
            Steps(file, at, held, [call] + rest) == [a] + Steps(file, next, HeldAfter(held, call), rest)
    ensures var (b, next) := Plain(file, at, call);
            Plains(file, at, [call] + rest) == [b] + Plains(file, next, rest)
  {
    assert ([call] + rest)[1..] == rest;
  }

  // ------------------------------------------------------------------
  // The code
  // ------------------------------------------------------------------

  lemma NothingInFront(b: Bytes)
    ensures [] + b == b && b + [] == b
  {
  }

  lemma PushedFirst(file: Bytes, at: nat, count: int)
    requires at < |file| && count > 0
    ensures ReadAt(file, at, count) == [file[at]] + ReadAt(file, at + 1, count - 1)
  {
  }

  class Stream {
    const file: Bytes
    var pos: nat
    var pushed: int

    predicate Held()
      reads this
    {
      pushed >= 0
    }

    /** The client pushes back only the byte before the file's own position. */
    ghost predicate Valid()
      reads this
    {
      pushed >= -1 && (Held() ==> 0 < pos <= |file| && pushed == file[pos - 1] as int)
    }

    ghost function Cursor(): nat
      reads this
      requires Valid()
    {
      if Held() then pos - 1 else pos
    }

    constructor (file: Bytes)
      ensures Valid() && this.file == file && Cursor() == 0 && !Held()
    {
      this.file, pos, pushed := file, 0, -1;
    }

    /** `fread`: what is there, into `data` from `from`. */
    method Fread(data: array<byte>, from: nat, count: nat) returns (got: nat)
      requires from + count <= data.Length
      modifies this`pos, data
      ensures got == |ReadAt(file, old(pos), count)| && pos == old(pos) + got
      ensures data[..from] == old(data[..from])
      ensures data[from..from + got] == ReadAt(file, old(pos), count)
    {
      var bytes := ReadAt(file, pos, count);
      got := |bytes|;
      forall i | 0 <= i < got {
        data[from + i] := bytes[i];
      }
      pos := pos + got;
    }

    /** `fseek`: refuses a place before the start, and then does not move. */
    method Fseek(target: int) returns (ok: bool)
      modifies this`pos
      ensures ok == (target >= 0) && pos == if ok then target else old(pos)
    {
      ok := target >= 0;
      if ok {
        pos := target;
      }
    }

    method IoRead(data: array<byte>, bytes: int) returns (got: nat)
      requires Valid() && bytes <= data.Length
      modifies this, data
      ensures Valid() && got <= data.Length
      ensures (Took(data[..got]), Cursor()) == Plain(file, old(Cursor()), Read(bytes))
      ensures Held() == HeldAfter(old(Held()), Read(bytes))
    {
      hide ReadAt;
      got := 0;
      assert data[..0] == [];
      if bytes <= 0 {
        return;
      }
      ghost var at := Cursor();
      if Held() {
        PushedFirst(file, at, bytes);
      }
      got := TakePushed(data);
      ghost var first := data[..got];
      if got == bytes {
        NothingInFront(first);
        return;
      }
      var more := Fread(data, got, bytes - got);
      assert data[..got + more] == data[..got] + data[got..got + more];
      NothingInFront(ReadAt(file, at, bytes));
      got := got + more;
    }

    /** The byte pushed back, if there is one. */
    method TakePushed(data: array<byte>) returns (got: nat)
      requires Valid() && data.Length > 0
      modifies this`pushed, data
      ensures Valid() && !Held() && got == if old(Held()) then 1 else 0
      ensures data[..got] == if old(Held()) then [file[old(Cursor())]] else []
    {
      if pushed < 0 {
        return 0;
      }
      data[0] := pushed;
      pushed := -1;
      got := 1;
    }

    method IoGetPos() returns (at: int)
      requires Valid()
      ensures at == Cursor()
    {
      at := if pushed >= 0 then pos - 1 else pos;
    }

    method IoSetPosAbs(target: int) returns (ok: bool)
      requires Valid()
      modifies this
      ensures Valid() && !Held()
      ensures (Sought(ok), Cursor()) == Step(file, old(Cursor()), old(Held()), SetPosAbs(target))
    {
      pushed := -1;
      ok := Fseek(target);
    }

    method IoSetPosRel(delta: int, whence: Whence) returns (ok: bool)
      requires Valid()
      modifies this
      ensures Valid() && !Held()
      ensures (Sought(ok), Cursor()) == Step(file, old(Cursor()), old(Held()), SetPosRel(delta, whence))
    {
      var offset := delta;
      if pushed >= 0 && whence.FromHere? {
        offset := offset - 1;
      }
      pushed := -1;
      match whence {
        case FromStart => ok := Fseek(offset);
        case FromHere => ok := Fseek(pos + offset);
        case FromEnd => ok := Fseek(|file| + offset);
      }
    }

    /** Whatever is pushed back is kept, in place of what was. For the byte just read, and nothing
        pushed already, that is the cursor one byte back. */
    method IoPushBack(c: int) returns (r: int)
      modifies this`pushed
      ensures r == c && pushed == c
      ensures old(Valid()) && 0 <= c < 256 && MayCall(file, old(Cursor()), old(Held()), PushBack(c)) ==>
                Valid() && Held() && Cursor() == Plain(file, old(Cursor()), PushBack(c)).1
    {
      pushed := c;
      r := c;
    }

    method IoGetLength() returns (end: nat)
      requires Valid()
      modifies this`pos
      ensures Valid() && end == |file| && pos == old(pos)
    {
      var at := pos;
      var ok := Fseek(|file|);
      end := pos;
      ok := Fseek(at);
    }

    method One(call: Call) returns (answer: Answer)
      requires Valid() && MayCall(file, Cursor(), Held(), call)
      modifies this
      ensures Valid() && Held() == HeldAfter(old(Held()), call)
      ensures (answer, Cursor()) == Step(file, old(Cursor()), old(Held()), call)
    {
      match call {
        case Read(count) =>
          var data := new byte[if count < 0 then 0 else count];
          var got := IoRead(data, count);
          answer := Took(data[..got]);
        case GetPos =>
          var at := IoGetPos();
          answer := At(at);
        case SetPosAbs(target) =>
          var ok := IoSetPosAbs(target);
          answer := Sought(ok);
        case SetPosRel(delta, whence) =>
          var ok := IoSetPosRel(delta, whence);
          answer := Sought(ok);
        case PushBack(c) =>
          var r := IoPushBack(c);
          answer := Pushed(r);
        case GetLength =>
          var end := IoGetLength();
          answer := Length(end);
      }
    }

    /** Any run of calls, from any state: a plain cursor's answers while no seek fails behind a
        push-back. */
    method Drive(calls: seq<Call>) returns (answers: seq<Answer>)
      requires Valid() && Proper(file, Cursor(), Held(), calls)
      modifies this
      ensures Valid() && answers == Steps(file, old(Cursor()), old(Held()), calls)
      ensures Settled(file, old(Cursor()), old(Held()), calls) ==> answers == Plains(file, old(Cursor()), calls)
    {
      answers := [];
      ghost var all := Steps(file, Cursor(), Held(), calls);
      if Settled(file, Cursor(), Held(), calls) {
        SettledAnswers(file, Cursor(), Held(), calls);
      }
      assert calls[0..] == calls;
      for i := 0 to |calls|
        invariant Valid() && Proper(file, Cursor(), Held(), calls[i..])
        invariant answers + Steps(file, Cursor(), Held(), calls[i..]) == all
      {
        assert calls[i..][1..] == calls[i + 1..] && calls[i..][0] == calls[i];
        ghost var before := answers;
        var answer := One(calls[i]);
        Regroup(before, [answer], Steps(file, Cursor(), Held(), calls[i + 1..]));
        answers := answers + [answer];
      }
      assert calls[|calls|..] == [];
    }
  }
}
