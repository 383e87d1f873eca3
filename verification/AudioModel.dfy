/**
 The sound queue of picoarch/source/plat_sdl.c as a step system: the steps are what runs under the
 SDL audio lock, so they do not overlap.  The model also keeps the history of a run.
 */
module AudioModel {
  import opened Arith

  datatype Frame = Frame(left: int, right: int)

  datatype Resampler = Passthrough | Nearest

  /**
   `cap` frames fit.  `consumed` counts the input frames that are done with; `written` lists every
   frame put in the queue, `origin` the value of `consumed` when it was put; `taken` what the callback got.
   */
  datatype Model = Model(
    cap: nat, inRate: int, rate: int, diff: int, queue: seq<Frame>,
    consumed: nat, origin: seq<nat>, written: seq<Frame>, taken: seq<Frame>)

  /** One call of the resampler with a frame, one callback for `n` frames, one change of the rate. */
  datatype Event = Feed(how: Resampler, frame: Frame) | Hear(n: nat) | SetRate(rate: int)

  function Fresh(cap: nat, inRate: int, rate: int, diff: int): Model {
    Model(cap, inRate, rate, diff, [], 0, [], [], [])
  }

  /** Does `audio_resample_nearest` write, does it consume, and what does it leave in `diff`? */
  function Writes(diff: int, rate: int): bool {
    diff < rate
  }

  function AfterWrite(diff: int, inRate: int, rate: int): int {
    if diff < rate then diff + inRate else diff
  }

  function Consumes(diff: int, inRate: int, rate: int): bool {
    AfterWrite(diff, inRate, rate) >= rate
  }

  function NextDiff(diff: int, inRate: int, rate: int): int {
    AfterWrite(diff, inRate, rate) - if Consumes(diff, inRate, rate) then rate else 0
  }

  function Put(m: Model, frame: Frame): Model {
    m.(queue := m.queue + [frame], written := m.written + [frame], origin := m.origin + [m.consumed])
  }

  /** The resampler is only called while there is room. */
  function ResampleOnce(m: Model, how: Resampler, frame: Frame): Model {
    if |m.queue| >= m.cap then m
    else
      match how
      case Passthrough => Put(m, frame).(consumed := m.consumed + 1)
      case Nearest =>
        var m' := if Writes(m.diff, m.rate) then Put(m, frame) else m;
        m'.(diff := NextDiff(m.diff, m.inRate, m.rate),
            consumed := m.consumed + if Consumes(m.diff, m.inRate, m.rate) then 1 else 0)
  }

  function Next(m: Model, e: Event): Model {
    match e
    case Feed(how, frame) => ResampleOnce(m, how, frame)
    case Hear(n) =>
      var k := Min(n, |m.queue|);
      m.(queue := m.queue[k..], taken := m.taken + m.queue[..k])
    case SetRate(rate) => m.(rate := rate)
  }

  function Run(m: Model, events: seq<Event>): Model
    decreases |events|
  {
    if events == [] then m else Run(Next(m, events[0]), events[1..])
  }

  lemma {:induction false} RunAppend(m: Model, a: seq<Event>, b: seq<Event>)
    ensures Run(m, a + b) == Run(Run(m, a), b)
    decreases |a|
  {
    if a == [] {
      assert a + b == b;
    } else {
      assert (a + b)[1..] == a[1..] + b;
      RunAppend(Next(m, a[0]), a[1..], b);
    }
  }

  lemma RunOne(m: Model, a: seq<Event>, e: Event)
    ensures Run(m, a + [e]) == Next(Run(m, a), e)
  {
    RunAppend(m, a, [e]);
    assert [e][1..] == [];
    assert Run(Run(m, a), [e]) == Run(Next(Run(m, a), e), []);
  }

  // ----- nothing is lost, doubled or reordered

  ghost predicate Conserves(m: Model) {
    m.taken + m.queue == m.written && |m.origin| == |m.written| && |m.queue| <= m.cap
  }

  lemma {:induction false} RunConserves(m: Model, events: seq<Event>)
    requires Conserves(m)
    ensures Conserves(Run(m, events))
    decreases |events|
  {
    if events != [] {
      NextConserves(m, events[0]);
      RunConserves(Next(m, events[0]), events[1..]);
    }
  }

  lemma NextConserves(m: Model, e: Event)
    requires Conserves(m)
    ensures Conserves(Next(m, e))
  {
    if e.Hear? {
      var k := Min(e.n, |m.queue|);
      assert m.queue == m.queue[..k] + m.queue[k..];
    } else if e.Feed? {
      assert m.taken + (m.queue + [e.frame]) == m.written + [e.frame];
    }
  }

  /** On every run the callback has received a prefix of what the resampler wrote. */
  lemma TakenIsPrefix(cap: nat, inRate: int, rate: int, diff: int, events: seq<Event>)
    ensures var m := Run(Fresh(cap, inRate, rate, diff), events);
            m.taken <= m.written && m.taken + m.queue == m.written && |m.queue| <= cap
  {
    RunConserves(Fresh(cap, inRate, rate, diff), events);
    RunKeepsCap(Fresh(cap, inRate, rate, diff), events);
  }

  lemma {:induction false} RunKeepsCap(m: Model, events: seq<Event>)
    ensures Run(m, events).cap == m.cap && Run(m, events).inRate == m.inRate
    decreases |events|
  {
    if events != [] {
      RunKeepsCap(Next(m, events[0]), events[1..]);
    }
  }

  // ----- which input frame each output frame comes from

  /** The nearest resampler at a fixed rate: no other resampler, no change of rate. */
  predicate FixedRate(events: seq<Event>) {
    forall k :: 0 <= k < |events| ==> !events[k].SetRate? && (events[k].Feed? ==> events[k].how == Nearest)
  }

  /** Position of output frame `n` on the input's time axis, in units of 1/rate frames. */
  function Position(n: nat, inRate: int, diff0: int): int {
    n * inRate + diff0
  }

  ghost predicate OnTime(m: Model, diff0: int) {
    && |m.origin| == |m.written| && 0 <= m.diff && m.rate > 0
    && Position(|m.written|, m.inRate, diff0) == m.consumed * m.rate + m.diff
    && (forall n :: 0 <= n < |m.origin| ==> m.origin[n] == Position(n, m.inRate, diff0) / m.rate)
  }

  lemma PositionStep(n: nat, inRate: int, diff0: int)
    ensures Position(n + 1, inRate, diff0) == Position(n, inRate, diff0) + inRate
  {
    Spread(n, 1, inRate);
  }

  lemma NextOnTime(m: Model, e: Event, diff0: int)
    requires OnTime(m, diff0) && m.inRate >= 0 && m.rate > 0
    requires !e.SetRate? && (e.Feed? ==> e.how == Nearest)
    ensures OnTime(Next(m, e), diff0)
  {
    hide Position;
    if e.Feed? && |m.queue| < m.cap {
      var n := |m.written|;
      PositionStep(n, m.inRate, diff0);
      Spread(m.consumed, 1, m.rate);
      if m.diff < m.rate {
        DivModUnique(Position(n, m.inRate, diff0), m.rate, m.consumed, m.diff);
      }
    }
  }

  lemma {:induction false} RunOnTime(m: Model, events: seq<Event>, diff0: int)
    requires OnTime(m, diff0) && m.inRate >= 0 && m.rate > 0 && FixedRate(events)
    ensures OnTime(Run(m, events), diff0) && Run(m, events).rate == m.rate && Run(m, events).inRate == m.inRate
    decreases |events|
  {
    hide OnTime;
    if events != [] {
      NextOnTime(m, events[0], diff0);
      RunOnTime(Next(m, events[0]), events[1..], diff0);
    }
  }

  /**
   At fixed rates output frame `n` is input frame floor((n * in + diff) / out), whatever the
   callbacks do in between.
   */
  lemma NearestIsFloor(cap: nat, inRate: int, rate: int, diff0: int, events: seq<Event>, n: nat)
    requires inRate >= 0 && rate > 0 && diff0 >= 0 && FixedRate(events)
    requires n < |Run(Fresh(cap, inRate, rate, diff0), events).written|
    ensures var m := Run(Fresh(cap, inRate, rate, diff0), events);
            |m.origin| == |m.written| && m.origin[n] == (n * inRate + diff0) / rate
  {
    RunOnTime(Fresh(cap, inRate, rate, diff0), events, diff0);
  }

  // ----- drift under changing rates

  predicate RatesWithin(events: seq<Event>, lo: int, hi: int) {
    forall k :: 0 <= k < |events| ==>
      match events[k]
      case Feed(how, _) => how == Nearest
      case Hear(_) => true
      case SetRate(rate) => lo <= rate <= hi
  }

  /** What has been written accounts for what has been consumed, at some rate within the limits. */
  ghost predicate Bounded(m: Model, lo: int, hi: int, diff0: int) {
    && lo <= m.rate <= hi
    && 0 <= m.diff && (m.diff <= diff0 || m.diff < hi + m.inRate)
    && lo * m.consumed <= Position(|m.written|, m.inRate, diff0) - m.diff <= hi * m.consumed
  }

  lemma NextBounded(m: Model, e: Event, lo: int, hi: int, diff0: int)
    requires Bounded(m, lo, hi, diff0) && m.inRate >= 0 && 0 < lo && RatesWithin([e], lo, hi)
    ensures Bounded(Next(m, e), lo, hi, diff0)
  {
    hide Position;
    assert [e][0] == e;
    if e.Feed? && |m.queue| < m.cap {
      PositionStep(|m.written|, m.inRate, diff0);
      Spread(m.consumed, 1, lo);
      Spread(m.consumed, 1, hi);
    }
  }

  lemma {:induction false} RunBounded(m: Model, events: seq<Event>, lo: int, hi: int, diff0: int)
    requires Bounded(m, lo, hi, diff0) && m.inRate >= 0 && 0 < lo && RatesWithin(events, lo, hi)
    ensures Bounded(Run(m, events), lo, hi, diff0) && Run(m, events).inRate == m.inRate
    decreases |events|
  {
    hide Bounded;
    if events != [] {
      assert RatesWithin([events[0]], lo, hi);
      NextBounded(m, events[0], lo, hi, diff0);
      RunBounded(Next(m, events[0]), events[1..], lo, hi, diff0);
    }
  }

  /**
   With the rate changed at will within [lo, hi], input and output never drift apart by more than
   a constant: the bounds do not depend on the length of the run.
   */
  lemma DriftIsBounded(cap: nat, inRate: int, rate: int, diff0: int, events: seq<Event>, lo: int, hi: int)
    requires inRate >= 0 && diff0 >= 0 && 0 < lo <= rate <= hi && RatesWithin(events, lo, hi)
    ensures var m := Run(Fresh(cap, inRate, rate, diff0), events);
            && lo * m.consumed - diff0 <= inRate * |m.written|
            && inRate * |m.written| <= hi * m.consumed + hi + inRate
  {
    RunBounded(Fresh(cap, inRate, rate, diff0), events, lo, hi, diff0);
  }

  // ----- the frames themselves

  /** Every call of the resampler hands over the frame whose turn it is; `input` starts at frame `base`. */
  ghost predicate InOrder(input: seq<Frame>, base: nat, m: Model, events: seq<Event>)
    decreases |events|
  {
    events == [] || (OnTurn(input, base, m, events[0]) && InOrder(input, base, Next(m, events[0]), events[1..]))
  }

  ghost predicate OnTurn(input: seq<Frame>, base: nat, m: Model, e: Event) {
    e.Feed? ==> base <= m.consumed < base + |input| && e.frame == input[m.consumed - base]
  }

  lemma {:induction false} InOrderAppend(input: seq<Frame>, base: nat, m: Model, a: seq<Event>, b: seq<Event>)
    ensures InOrder(input, base, m, a + b) <==> InOrder(input, base, m, a) && InOrder(input, base, Run(m, a), b)
    decreases |a|
  {
    if a == [] {
      assert a + b == b;
    } else {
      assert (a + b)[1..] == a[1..] + b;
      InOrderAppend(input, base, Next(m, a[0]), a[1..], b);
    }
  }

  lemma InOrderOne(input: seq<Frame>, base: nat, m: Model, a: seq<Event>, e: Event)
    requires InOrder(input, base, m, a) && OnTurn(input, base, Run(m, a), e)
    ensures InOrder(input, base, m, a + [e]) && Run(m, a + [e]) == Next(Run(m, a), e)
  {
    InOrderAppend(input, base, m, a, [e]);
    RunOne(m, a, e);
    assert [e][1..] == [];
  }

  ghost predicate FromInput(input: seq<Frame>, m: Model) {
    |m.origin| == |m.written| &&
    forall n :: 0 <= n < |m.written| ==> m.origin[n] < |input| && m.written[n] == input[m.origin[n]]
  }

  lemma {:induction false} RunFromInput(input: seq<Frame>, m: Model, events: seq<Event>)
    requires FromInput(input, m) && InOrder(input, 0, m, events)
    ensures FromInput(input, Run(m, events))
    decreases |events|
  {
    if events != [] {
      RunFromInput(input, Next(m, events[0]), events[1..]);
    }
  }

  /** The sound that comes out, frame by frame: the n-th frame the callback gets. */
  lemma CallbackHearsFloor(input: seq<Frame>, cap: nat, inRate: int, rate: int, diff0: int, events: seq<Event>, n: nat)
    requires inRate >= 0 && rate > 0 && diff0 >= 0 && FixedRate(events)
    requires InOrder(input, 0, Fresh(cap, inRate, rate, diff0), events)
    requires n < |Run(Fresh(cap, inRate, rate, diff0), events).taken|
    ensures var i := (n * inRate + diff0) / rate;
            0 <= i < |input| && Run(Fresh(cap, inRate, rate, diff0), events).taken[n] == input[i]
  {
    var m0 := Fresh(cap, inRate, rate, diff0);
    TakenIsPrefix(cap, inRate, rate, diff0, events);
    NearestIsFloor(cap, inRate, rate, diff0, events, n);
    RunFromInput(input, m0, events);
  }
}
