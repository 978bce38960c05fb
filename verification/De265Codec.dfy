/** The HEVC wrapper: pictures peeked at and released rather than taken, and samples walked a
    NAL unit at a time. */
module De265Codec {
  import opened Delivery
  import opened ByteOrder

  // ------------------------------------------------------------------
  // Pictures: what libde265 does, and a run of asking for them
  // ------------------------------------------------------------------

  /** One `de265_decode`: what it says, whether there is more to do, and the pictures it put in
      the output queue. */
  datatype Step = Step(says: Said, more: bool, made: seq<nat>)
  datatype Said = Fine | Waiting | Warned | Broken

  datatype Answer = Frame(picture: nat) | NoneLeft | Undecodable | Decoded(ok: bool)

  /** With nothing scripted, libde265 waits for input. */
  const WAITS: Step := Step(Waiting, false, [])

  /** After this step there is nothing further to decode. */
  predicate Ends(step: Step) {
    !step.more || !step.says.Fine?
  }

  function Made(steps: seq<Step>): seq<nat> {
    if steps == [] then [] else steps[0].made + Made(steps[1..])
  }

  lemma {:induction false} MadeConcat(a: seq<Step>, b: seq<Step>)
    ensures Made(a + b) == Made(a) + Made(b)
    decreases |a|
  {
    if a == [] {
      assert a + b == b;
    } else {
      assert (a + b)[1..] == a[1..] + b;
      MadeConcat(a[1..], b);
      Regroup(a[0].made, Made(a[1..]), Made(b));
    }
  }

  /** libde265 between two calls: what it will do next, its output queue, whether the host
      holds the picture at the head of it, and what it will say of each unit pushed. */
  datatype State = State(script: seq<Step>, queue: seq<nat>, held: bool, takes: seq<bool>) {
    predicate Valid() {
      held ==> queue != []
    }

    /** The pictures made and not handed out. */
    function Out(): seq<nat>
      requires Valid()
    {
      if held then queue[1..] else queue
    }

    function Released(): State
      requires Valid()
    {
      this.(queue := Out(), held := false)
    }
  }

  /** libde265 run until there is a picture, or an error, or nothing further to do. */
  function Pump(st: State): (r: (Answer, State))
    requires !st.held
    ensures r.1.Valid() && !r.0.Decoded?
    decreases |st.script|
  {
    var step := if st.script == [] then WAITS else st.script[0];
    var after := st.(script := if st.script == [] then [] else st.script[1..], queue := st.queue + step.made);
    if step.says.Broken? then (Undecodable, after)
    else if after.queue != [] then (Frame(after.queue[0]), after.(held := true))
    else if Ends(step) then (NoneLeft, after)
    else Pump(after)
  }

  /** A run stops at the first step that makes a picture, fails, or has nothing behind it to do,
      and not before: an end is answered only where libde265 said there was no more, or did not say
      the step went well, or has nothing scripted and waits. */
  lemma {:induction false} PumpStops(st: State) returns (steps: seq<Step>)
    requires !st.held
    ensures var (answer, after) := Pump(st);
            st.script == steps + after.script &&
            (forall i :: 0 <= i < |steps| - 1 ==>
               steps[i].more && steps[i].says.Fine? && steps[i].made == [] && st.queue == []) &&
            (steps == [] ==> st.script == []) &&
            match answer
            case Undecodable => steps != [] && steps[|steps| - 1].says.Broken?
            case Frame(_) => steps == [] || !steps[|steps| - 1].says.Broken?
            case NoneLeft =>
              after.script == [] ||
              (var last := steps[|steps| - 1];
               !last.says.Broken? && last.made == [] && (!last.more || !last.says.Fine?))
            case Decoded(_) => false
    decreases |st.script|
  {
    steps := if st.script == [] then [] else [st.script[0]];
    if st.script != [] {
      var step := st.script[0];
      var after := st.(script := st.script[1..], queue := st.queue + step.made);
      if !step.says.Broken? && after.queue == [] && !Ends(step) {
        assert Pump(st) == Pump(after);
        var more := PumpStops(after);
        Regroup(steps, more, Pump(after).1.script);
        if more == [] {
          assert steps + more == steps;
        }
        steps := steps + more;
      }
    }
  }

  datatype Call = Packet(packet: Option<Bytes>) | Next

  /** What a host is handed: the pictures of its answers, in order. */
  function Pictures(answers: seq<Answer>): seq<nat> {
    if answers == [] then [] else PictureOf(answers[0]) + Pictures(answers[1..])
  }

  function PictureOf(answer: Answer): seq<nat> {
    if answer.Frame? then [answer.picture] else []
  }

  /** One run of libde265 moves every picture it makes into the queue and hands out at most the
      first not handed out yet; an end means all of them have been. */
  lemma {:induction false} PumpDelivers(st: State) returns (steps: seq<Step>)
    requires !st.held
    ensures var (answer, after) := Pump(st);
            st.script == steps + after.script && after.takes == st.takes &&
            st.queue + Made(steps) == PictureOf(answer) + after.Out() &&
            (answer.NoneLeft? ==> after.queue == [])
    decreases |st.script|
  {
    steps := if st.script == [] then [] else [st.script[0]];
    var step := if st.script == [] then WAITS else st.script[0];
    var after := st.(script := if st.script == [] then [] else st.script[1..], queue := st.queue + step.made);
    assert Made(steps) == step.made by {
      assert steps != [] ==> steps[1..] == [];
    }
    if !step.says.Broken? && after.queue == [] && !Ends(step) {
      var more := PumpDelivers(after);
      MadeConcat(steps, more);
      Regroup(st.queue, Made(steps), Made(more));
      Regroup(steps, more, Pump(after).1.script);
      steps := steps + more;
    }
  }

  /** A run of calls: what each answers and where it leaves libde265. */
  datatype Wrapper = Wrapper(lengthSize: nat, parameterSets: seq<Bytes>) {
    function One(st: State, call: Call): (r: (Answer, State))
      requires st.Valid()
      ensures r.1.Valid()
    {
      match call
      case Next => Pump(st.Released())
      case Packet(packet) =>
        var pushed := Pushed(packet, st.takes);
        (Decoded(pushed.ok), st.(takes := pushed.takes))
    }

    function Answers(st: State, calls: seq<Call>): (r: seq<Answer>)
      requires st.Valid()
      ensures |r| == |calls|
      decreases |calls|
    {
      if calls == [] then []
      else [One(st, calls[0]).0] + Answers(One(st, calls[0]).1, calls[1..])
    }

    function After(st: State, calls: seq<Call>): (r: State)
      requires st.Valid()
      ensures r.Valid()
      decreases |calls|
    {
      if calls == [] then st else After(One(st, calls[0]).1, calls[1..])
    }

    /** Every unit pushed over a run. */
    function Units(takes: seq<bool>, calls: seq<Call>): seq<Bytes>
      decreases |calls|
    {
      if calls == [] then []
      else if calls[0].Next? then Units(takes, calls[1..])
      else
        var pushed := Pushed(calls[0].packet, takes);
        pushed.nals + Units(pushed.takes, calls[1..])
    }

    /** What a packet pushes: the parameter sets, then its own units, up to the first refused. */
    function Pushed(packet: Option<Bytes>, takes: seq<bool>): Offered {
      if packet.None? || packet.value == [] then Offered([], true, takes)
      else
        var sets := Offer(parameterSets, takes);
        if !sets.ok then sets
        else
          var sample := OfferSample(packet.value, lengthSize, sets.takes);
          sample.(nals := sets.nals + sample.nals)
    }

    /** Nothing is lost, repeated or reordered: over any run, the pictures waiting and the
        pictures made are the pictures handed out and the pictures waiting after it. */
    lemma {:induction false} RunDelivers(st: State, calls: seq<Call>) returns (steps: seq<Step>)
      requires st.Valid()
      ensures var after := After(st, calls);
              st.script == steps + after.script &&
              st.Out() + Made(steps) == Pictures(Answers(st, calls)) + after.Out()
      decreases |calls|
    {
      if calls == [] {
        steps := [];
        assert st.Out() + [] == [] + st.Out();
      } else {
        hide One, Made, State.Out, State.Valid;
        var (answer, next) := One(st, calls[0]);
        var first := OneDelivers(st, calls[0]);
        var more := RunDelivers(next, calls[1..]);
        Conserved(st.Out(), first, PictureOf(answer), next.Out(), more,
                  Pictures(Answers(next, calls[1..])), After(next, calls[1..]).Out());
        assert Answers(st, calls)[1..] == Answers(next, calls[1..]);
        Regroup(first, more, After(next, calls[1..]).script);
        steps := first + more;
      }
    }

    lemma OneDelivers(st: State, call: Call) returns (steps: seq<Step>)
      requires st.Valid()
      ensures var (answer, after) := One(st, call);
              st.script == steps + after.script && st.Out() + Made(steps) == PictureOf(answer) + after.Out()
    {
      if call.Next? {
        steps := PumpDelivers(st.Released());
      } else {
        steps := [];
        assert st.Out() + [] == [] + st.Out();
      }
    }

    /** An end, anywhere in a run, means every picture made so far has been handed out. */
    lemma EndMeansAll(st: State, calls: seq<Call>, i: nat) returns (steps: seq<Step>)
      requires st.Valid() && i < |calls| && Answers(st, calls)[i].NoneLeft?
      ensures st.script == steps + After(st, calls[..i + 1]).script
      ensures Pictures(Answers(st, calls)[..i + 1]) == st.Out() + Made(steps)
    {
      steps := RunDelivers(st, calls[..i + 1]);
      AnswersPrefix(st, calls, i + 1);
      EndEmpties(st, calls[..i + 1]);
      var answers := Answers(st, calls[..i + 1]);
      assert Pictures(answers) + [] == Pictures(answers);
    }

    lemma {:induction false} AnswersPrefix(st: State, calls: seq<Call>, n: nat)
      requires st.Valid() && n <= |calls|
      ensures Answers(st, calls)[..n] == Answers(st, calls[..n])
      decreases n
    {
      if n > 0 {
        AnswersPrefix(One(st, calls[0]).1, calls[1..], n - 1);
        assert calls[..n][1..] == calls[1..][..n - 1];
      }
    }

    lemma {:induction false} EndEmpties(st: State, calls: seq<Call>)
      requires st.Valid() && calls != [] && Answers(st, calls)[|calls| - 1].NoneLeft?
      ensures After(st, calls).Out() == []
      decreases |calls|
    {
      var (answer, next) := One(st, calls[0]);
      if |calls| == 1 {
        assert calls[1..] == [];
        var steps := PumpDelivers(st.Released());
      } else {
        EndEmpties(next, calls[1..]);
      }
    }
  }

  lemma Conserved(out: seq<nat>, first: seq<Step>, picture: seq<nat>, out1: seq<nat>, more: seq<Step>,
                  pictures: seq<nat>, out2: seq<nat>)
    requires out + Made(first) == picture + out1 && out1 + Made(more) == pictures + out2
    ensures out + Made(first + more) == picture + pictures + out2
  {
    hide Made;
    MadeConcat(first, more);
    Regroup(out, Made(first), Made(more));
    Regroup(picture, out1, Made(more));
    Regroup(picture, pictures, out2);
  }

  // ------------------------------------------------------------------
  // Samples: NAL units behind their lengths
  // ------------------------------------------------------------------

  /** What of a list of units is pushed, up to the first libde265 refuses or that is shorter than
      its own header. */
  datatype Offered = Offered(nals: seq<Bytes>, ok: bool, takes: seq<bool>)

  function Offer(nals: seq<Bytes>, takes: seq<bool>): Offered
    decreases |nals|
  {
    if nals == [] then Offered([], true, takes)
    else if |nals[0]| < 2 then Offered([], false, takes)
    else if takes != [] && !takes[0] then Offered([], false, takes[1..])
    else
      var more := Offer(nals[1..], if takes == [] then [] else takes[1..]);
      more.(nals := [nals[0]] + more.nals)
  }

  lemma {:induction false} NoMoreTakes(nals: seq<Bytes>)
    ensures Offer(nals, []).takes == []
    decreases |nals|
  {
    if nals != [] {
      NoMoreTakes(nals[1..]);
    }
  }

  /** What is pushed is the units in order up to the first that is refused, for being shorter than
      its own header or by libde265; all of them exactly where none is. */
  lemma {:induction false} OfferMeans(nals: seq<Bytes>, takes: seq<bool>)
    ensures var o := Offer(nals, takes);
            o.nals <= nals && (o.ok <==> o.nals == nals) &&
            (forall i :: 0 <= i < |o.nals| ==> |nals[i]| >= 2 && (i < |takes| ==> takes[i])) &&
            (!o.ok ==> var i := |o.nals|; |nals[i]| < 2 || (i < |takes| && !takes[i]))
    decreases |nals|
  {
    if nals != [] && |nals[0]| >= 2 && (takes == [] || takes[0]) {
      var later := if takes == [] then [] else takes[1..];
      OfferMeans(nals[1..], later);
      var more := Offer(nals[1..], later);
      var o := Offer(nals, takes);
      forall i | 0 <= i < |o.nals| ensures |nals[i]| >= 2 && (i < |takes| ==> takes[i]) {
        if i > 0 {
          assert nals[i] == nals[1..][i - 1] && (i < |takes| ==> takes[i] == later[i - 1]);
        }
      }
      if !o.ok {
        var i := |more.nals|;
        assert nals[1..][i] == nals[i + 1] && (i + 1 < |takes| ==> takes[i + 1] == later[i]);
      }
    }
  }

  predicate AllWhole(nals: seq<Bytes>) {
    forall i :: 0 <= i < |nals| ==> |nals[i]| >= 2
  }

  /** Where libde265 refuses nothing, a packet is accepted exactly when its units fill it and none,
      nor any parameter set, is shorter than its header; and then the sets are pushed and the units
      behind them. */
  lemma PushedMeans(w: Wrapper, packet: Bytes)
    requires packet != []
    ensures var own, pushed := Units(packet, w.lengthSize), w.Pushed(Some(packet), []);
            (pushed.ok <==> own.ok && AllWhole(w.parameterSets) && AllWhole(own.nals)) &&
            (pushed.ok ==> pushed.nals == w.parameterSets + own.nals)
  {
    OfferMeans(w.parameterSets, []);
    OfferMeans(Units(packet, w.lengthSize).nals, []);
    NoMoreTakes(w.parameterSets);
  }

  /** The units of a sample, and whether they fill it to the end. */
  datatype Walked = Walked(nals: seq<Bytes>, ok: bool)

  function Units(rest: Bytes, size: nat): Walked
    decreases |rest|
  {
    if rest == [] then Walked([], true)
    else if |rest| < size || size == 0 then Walked([], false)
    else
      var length := FromBe(rest[..size]);
      if length > |rest| - size then Walked([], false)
      else
        var more := Units(rest[size + length..], size);
        if length == 0 then more else more.(nals := [rest[size..size + length]] + more.nals)
  }

  /** What a walk of a sample pushes. */
  function OfferSample(sample: Bytes, size: nat, takes: seq<bool>): Offered {
    var offered := Offer(Units(sample, size).nals, takes);
    offered.(ok := offered.ok && Units(sample, size).ok)
  }

  lemma NoUnits(size: nat, takes: seq<bool>)
    ensures OfferSample([], size, takes) == Offered([], true, takes)
  {
  }

  /** One turn of the walk: a length that does not fit ends it, and so does a unit refused. */
  lemma SampleStep(sample: Bytes, at: nat, size: nat, takes: seq<bool>)
    requires at < |sample| && size > 0
    ensures var o := OfferSample(sample[at..], size, takes);
            var from := at + size;
            if |sample| < from || FromBe(sample[at..from]) > |sample| - from then o == Offered([], false, takes)
            else
              var length := FromBe(sample[at..from]);
              var one := if length == 0 then Offered([], true, takes) else Offer([sample[from..from + length]], takes);
              if !one.ok then o == one
              else
                var more := OfferSample(sample[from + length..], size, one.takes);
                o == more.(nals := one.nals + more.nals)
  {
    hide FromBe, Units, Offer;
    UnitsStep(sample, at, size);
    var from := at + size;
    OfferNone(takes);
    if from <= |sample| && FromBe(sample[at..from]) <= |sample| - from {
      var length := FromBe(sample[at..from]);
      var more := Units(sample[from + length..], size).nals;
      OfferFirst(sample[from..from + length], more, takes);
      NothingInFront(OfferSample(sample[from + length..], size, takes).nals);
    }
  }

  lemma UnitsStep(sample: Bytes, at: nat, size: nat)
    requires at < |sample| && size > 0
    ensures var w := Units(sample[at..], size);
            var from := at + size;
            if |sample| < from || FromBe(sample[at..from]) > |sample| - from then w == Walked([], false)
            else
              var length := FromBe(sample[at..from]);
              var more := Units(sample[from + length..], size);
              if length == 0 then w == more
              else w == more.(nals := [sample[from..from + length]] + more.nals)
  {
    hide FromBe;
    var rest := sample[at..];
    if |rest| >= size {
      assert rest[..size] == sample[at..at + size];
      var length := FromBe(rest[..size]);
      if length <= |rest| - size {
        assert rest[size + length..] == sample[at + size + length..];
        assert rest[size..size + length] == sample[at + size..at + size + length];
      }
    }
  }

  lemma NothingInFront(later: seq<Bytes>)
    ensures [] + later == later
  {
  }

  lemma OfferNone(takes: seq<bool>)
    ensures Offer([], takes) == Offered([], true, takes)
  {
  }

  lemma OfferFirst(nal: Bytes, more: seq<Bytes>, takes: seq<bool>)
    ensures var one, all := Offer([nal], takes), Offer([nal] + more, takes);
            if !one.ok then all == one
            else
              var later := Offer(more, one.takes);
              all == later.(nals := one.nals + later.nals)
  {
    assert ([nal] + more)[1..] == more && [nal][1..] == [];
    assert ([nal] + more)[0] == nal;
  }

  /** How a container writes a sample. */
  function Prefixed(nals: seq<Bytes>, size: nat): Bytes {
    if nals == [] then [] else Be(|nals[0]|, size) + nals[0] + Prefixed(nals[1..], size)
  }

  function Filled(nals: seq<Bytes>): seq<Bytes> {
    if nals == [] then []
    else (if nals[0] == [] then [] else [nals[0]]) + Filled(nals[1..])
  }

  predicate Writable(nals: seq<Bytes>, size: nat) {
    forall i :: 0 <= i < |nals| ==> |nals[i]| < Pow256(size)
  }

  /** A sample written as units behind their lengths is walked back into exactly those units,
      empty ones aside. */
  lemma {:induction false} UnitsRoundTrip(nals: seq<Bytes>, size: nat)
    requires size > 0 && Writable(nals, size)
    ensures Units(Prefixed(nals, size), size) == Walked(Filled(nals), true)
  {
    if nals != [] {
      hide Be, FromBe, Pow256;
      var nal, more := nals[0], Prefixed(nals[1..], size);
      var sample := Prefixed(nals, size);
      BeRoundTrip(|nal|, size);
      FrontOf(Be(|nal|, size), nal, more);
      UnitsRoundTrip(nals[1..], size);
      if nal == [] {
        assert [] + Filled(nals[1..]) == Filled(nals[1..]);
      }
    }
  }

  lemma FrontOf(a: Bytes, b: Bytes, c: Bytes)
    ensures var s := a + b + c;
            s[..|a|] == a && s[|a|..|a| + |b|] == b && s[|a| + |b|..] == c
  {
  }

  /** And a sample that is walked to the end is one: nothing else is accepted. */
  lemma {:induction false} AcceptedMeansPrefixed(sample: Bytes, size: nat) returns (nals: seq<Bytes>)
    requires size > 0 && Units(sample, size).ok
    ensures Writable(nals, size) && Prefixed(nals, size) == sample && Filled(nals) == Units(sample, size).nals
    decreases |sample|
  {
    hide Be, FromBe, Pow256;
    if sample == [] {
      return [];
    }
    var length := FromBe(sample[..size]);
    var nal, rest := sample[size..size + length], sample[size + length..];
    var more := AcceptedMeansPrefixed(rest, size);
    FromBeBound(sample[..size]);
    nals := [nal] + more;
    assert nals[1..] == more;
    assert sample == sample[..size] + nal + rest;
    if nal == [] {
      assert [] + Filled(more) == Filled(more);
    }
  }

  // ------------------------------------------------------------------
  // The code
  // ------------------------------------------------------------------

  class Codec {
    const wrapper: Wrapper

    /** libde265: what it will do next, its output queue, the units pushed into it, and what it
        will say of the next ones. */
    var script: seq<Step>
    var queue: seq<nat>
    var pushed: seq<Bytes>
    var takes: seq<bool>

    var image: Option<nat>

    /** Every picture released, in the order they were. */
    ghost var released: seq<nat>

    ghost predicate Valid()
      reads this
    {
      wrapper.lengthSize > 0 && (image.Some? ==> queue != [] && image.value == queue[0])
    }

    function Now(): State
      reads this
    {
      State(script, queue, image.Some?, takes)
    }

    /** The pictures handed out so far, the one in hand included. */
    ghost function Handed(): seq<nat>
      reads this
    {
      released + if image.Some? then [image.value] else []
    }

    constructor (wrapper: Wrapper, script: seq<Step>, takes: seq<bool>)
      requires wrapper.lengthSize > 0
      ensures Valid() && this.wrapper == wrapper && Now() == State(script, [], false, takes)
      ensures pushed == [] && released == []
    {
      this.wrapper, this.script, this.takes := wrapper, script, takes;
      queue, pushed, image, released := [], [], None, [];
    }

    /** `codec_open`: no codec where libde265 refuses a parameter set. */
    static method Open(wrapper: Wrapper, script: seq<Step>, takes: seq<bool>) returns (r: Option<Codec>)
      requires wrapper.lengthSize > 0
      ensures r.Some? <==> Offer(wrapper.parameterSets, takes).ok
      ensures r.Some? ==>
                fresh(r.value) && r.value.Valid() && r.value.wrapper == wrapper && r.value.released == [] &&
                r.value.pushed == Offer(wrapper.parameterSets, takes).nals &&
                r.value.Now() == State(script, [], false, Offer(wrapper.parameterSets, takes).takes)
    {
      var codec := new Codec(wrapper, script, takes);
      var ok := codec.PushParameterSets();
      if !ok {
        return None;
      }
      r := Some(codec);
    }

    /** The head of the queue released, when it is the picture in hand. */
    method Release()
      requires Valid()
      modifies this`queue, this`image, this`released
      ensures Valid() && Now() == old(Now()).Released() && image.None?
      ensures released == old(Handed())
    {
      if image.Some? {
        released := released + [queue[0]];
        queue := queue[1..];
        image := None;
      }
    }

    /** One step of libde265. */
    method DecodeStep() returns (step: Step)
      modifies this`script, this`queue
      ensures step == if old(script) == [] then WAITS else old(script)[0]
      ensures script == (if old(script) == [] then [] else old(script)[1..]) && queue == old(queue) + step.made
    {
      step := WAITS;
      if script != [] {
        step, script := script[0], script[1..];
      }
      queue := queue + step.made;
    }

    /** `codec_next_frame`: libde265 is run until there is a picture or it has nothing further
        to do, and a picture is asked for either way. */
    method NextFrame() returns (got: Answer)
      requires Valid()
      modifies this`script, this`queue, this`image, this`released
      ensures Valid() && (got, Now()) == Pump(old(Now()).Released())
      ensures image == if got.Frame? then Some(got.picture) else None
      ensures released == old(Handed()) && Handed() == old(Handed()) + PictureOf(got)
    {
      Release();
      ghost var start := Now();
      var more := true;
      while more && image.None?
        invariant Valid() && released == old(Handed())
        invariant if image.Some? then Pump(start) == (Frame(queue[0]), Now())
                  else if more then Pump(start) == Pump(Now())
                  else Pump(start) == (NoneLeft, Now()) && queue == []
        decreases more, |script|
      {
        var step := DecodeStep();
        more := step.more;
        if !step.says.Fine? {
          if !step.says.Waiting? && !step.says.Warned? {
            return Undecodable;
          }
          more := false;
        }
        image := if queue == [] then None else Some(queue[0]);
      }
      if image.None? {
        return NoneLeft;
      }
      got := Frame(image.value);
    }

    /** `codec_reset`: the picture in hand back, and libde265 emptied; the parameter sets go in
        again. */
    method Reset(script: seq<Step>) returns (ok: bool)
      requires Valid()
      modifies this
      ensures Valid() && image.None? && released == old(Handed())
      ensures var sets := Offer(wrapper.parameterSets, old(takes));
              ok == sets.ok && pushed == sets.nals && Now() == State(script, [], false, sets.takes)
    {
      Release();
      queue, pushed := [], [];
      this.script := script;
      ok := PushParameterSets();
      assert [] + pushed == pushed;
    }

    /** One NAL unit; one shorter than its own header is refused, and libde265 may refuse one. */
    method PushNal(nal: Bytes) returns (ok: bool)
      modifies this`pushed, this`takes
      ensures var one := Offer([nal], old(takes));
              ok == one.ok && pushed == old(pushed) + one.nals && takes == one.takes
    {
      assert [nal][1..] == [];
      if |nal| < 2 {
        return false;
      }
      ok := true;
      if takes != [] {
        ok, takes := takes[0], takes[1..];
      }
      if ok {
        pushed := pushed + [nal];
      }
    }

    method PushParameterSets() returns (ok: bool)
      modifies this`pushed, this`takes
      ensures var sets := Offer(wrapper.parameterSets, old(takes));
              ok == sets.ok && pushed == old(pushed) + sets.nals && takes == sets.takes
    {
      var sets := wrapper.parameterSets;
      ghost var all := Offer(sets, takes);
      assert sets[0..] == sets && pushed + [] == pushed;
      for i := 0 to |sets|
        invariant var rest := Offer(sets[i..], takes);
                  rest.ok == all.ok && rest.takes == all.takes && pushed + rest.nals == old(pushed) + all.nals
      {
        assert sets[i..] == [sets[i]] + sets[i + 1..];
        OfferFirst(sets[i], sets[i + 1..], takes);
        ghost var before, one := pushed, Offer([sets[i]], takes);
        Regroup(before, one.nals, Offer(sets[i + 1..], one.takes).nals);
        var fine := PushNal(sets[i]);
        if !fine {
          return false;
        }
      }
      assert sets[|sets|..] == [] && pushed + [] == pushed;
      ok := true;
    }

    /** Every NAL unit of a sample, in order. */
    method PushSample(sample: Bytes) returns (ok: bool)
      requires wrapper.lengthSize > 0
      modifies this`pushed, this`takes
      ensures var all := OfferSample(sample, wrapper.lengthSize, old(takes));
              ok == all.ok && pushed == old(pushed) + all.nals && takes == all.takes
    {
      hide OfferSample;
      var size := wrapper.lengthSize;
      var at: nat := 0;
      ghost var all := OfferSample(sample, size, takes);
      assert sample[0..] == sample;
      while at < |sample|
        invariant at <= |sample|
        invariant var rest := OfferSample(sample[at..], size, takes);
                  rest.ok == all.ok && rest.takes == all.takes && pushed + rest.nals == old(pushed) + all.nals
        decreases |sample| - at
      {
        SampleStep(sample, at, size, takes);
        assert pushed + [] == pushed;
        if |sample| - at < size {
          return false;
        }
        var length := ReadLength(sample, at);
        at := at + size;
        if length > |sample| - at {
          return false;
        }
        if length != 0 {
          ghost var nal := sample[at..at + length];
          ghost var one := Offer([nal], takes);
          Regroup(pushed, one.nals, OfferSample(sample[at + length..], size, one.takes).nals);
          var fine := PushNal(sample[at..at + length]);
          if !fine {
            return false;
          }
        }
        at := at + length;
      }
      assert sample[at..] == [];
      NoUnits(size, takes);
      assert pushed + [] == pushed;
      ok := true;
    }

    method ReadLength(sample: Bytes, at: nat) returns (length: nat)
      requires at + wrapper.lengthSize <= |sample|
      ensures length == FromBe(sample[at..at + wrapper.lengthSize])
    {
      length := 0;
      for i := 0 to wrapper.lengthSize
        invariant length == FromBe(sample[at..at + i])
      {
        ghost var b := sample[at..at + i + 1];
        assert b[..i] == sample[at..at + i] && b[i] == sample[at + i];
        length := length * 256 + sample[at + i];
      }
    }

    /** `codec_decode`: the parameter sets, then the sample. */
    method Decode(packet: Option<Bytes>) returns (ok: bool)
      requires Valid()
      modifies this`pushed, this`takes
      ensures Valid()
      ensures var all := wrapper.Pushed(packet, old(takes));
              ok == all.ok && pushed == old(pushed) + all.nals && takes == all.takes
    {
      hide Offer, OfferSample;
      assert pushed + [] == pushed;
      if packet.None? || packet.value == [] {
        return true;
      }
      ok := PushParameterSets();
      if !ok {
        return;
      }
      ghost var sets := Offer(wrapper.parameterSets, old(takes));
      Regroup(old(pushed), sets.nals, OfferSample(packet.value, wrapper.lengthSize, sets.takes).nals);
      ok := PushSample(packet.value);
    }

    /** Any run of packets and of asking for pictures: the answers, the units pushed and the
        pictures handed out are those of the calls, one by one. */
    method Drive(calls: seq<Call>) returns (answers: seq<Answer>)
      requires Valid()
      modifies this
      ensures Valid() && answers == wrapper.Answers(old(Now()), calls) && Now() == wrapper.After(old(Now()), calls)
      ensures pushed == old(pushed) + wrapper.Units(old(takes), calls)
      ensures Handed() == old(Handed()) + Pictures(answers)
      decreases |calls|
    {
      assert pushed + [] == pushed && Handed() + [] == Handed();
      if calls == [] {
        return [];
      }
      hide Pump, Wrapper.Pushed;
      ghost var first, units := wrapper.One(Now(), calls[0]).0, [];
      match calls[0] {
        case Packet(packet) =>
          units := wrapper.Pushed(packet, takes).nals;
          var ok := Decode(packet);
          answers := [Decoded(ok)];
        case Next =>
          PumpKeepsTakes(Now().Released());
          var got := NextFrame();
          answers := [got];
      }
      var more := Drive(calls[1..]);
      Regroup(old(pushed), units, wrapper.Units(old(wrapper.One(Now(), calls[0]).1.takes), calls[1..]));
      Regroup(old(Handed()), PictureOf(first), Pictures(more));
      assert ([first] + more)[1..] == more;
      answers := answers + more;
    }
  }

  lemma PumpKeepsTakes(st: State)
    requires !st.held
    ensures Pump(st).1.takes == st.takes
  {
    var steps := PumpDelivers(st);
  }
}
