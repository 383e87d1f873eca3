/**
 What is heard of picoarch/source/plat_sdl.c: every frame when nothing is resampled, the frames that a
 callback takes, and more or fewer frames than nominal as the buffer runs empty or full.
 */
module AudioHeard {
  import opened Arith
  import opened AudioModel
  import opened AudioRing

  // ----- passthrough

  /** No frame goes through another resampler. */
  predicate PassesThrough(events: seq<Event>) {
    forall k :: 0 <= k < |events| && events[k].Feed? ==> events[k].how == Passthrough
  }

  /** Every frame consumed has been written, as itself. */
  ghost predicate OneForOne(m: Model) {
    |m.written| == |m.origin| == m.consumed && forall n :: 0 <= n < |m.origin| ==> m.origin[n] == n
  }

  lemma {:induction false} RunOneForOne(m: Model, events: seq<Event>)
    requires OneForOne(m) && PassesThrough(events)
    ensures OneForOne(Run(m, events))
    decreases |events|
  {
    if events != [] {
      RunOneForOne(Next(m, events[0]), events[1..]);
    }
  }

  /** Passthrough, with callbacks in between: the n-th frame written is input frame n, and none is left out. */
  lemma PassthroughKeepsEveryFrame(input: seq<Frame>, cap: nat, inRate: int, rate: int, diff: int, events: seq<Event>)
    requires PassesThrough(events) && InOrder(input, 0, Fresh(cap, inRate, rate, diff), events)
    ensures var m := Run(Fresh(cap, inRate, rate, diff), events);
            && m.consumed <= |input| && m.written == input[..m.consumed]
            && m.taken <= input[..m.consumed] && |m.queue| == m.consumed - |m.taken|
  {
    var m0 := Fresh(cap, inRate, rate, diff);
    var m := Run(m0, events);
    RunOneForOne(m0, events);
    RunFromInput(input, m0, events);
    TakenIsPrefix(cap, inRate, rate, diff, events);
    if m.consumed > 0 {
      assert m.origin[m.consumed - 1] < |input|;
    }
    assert |m.taken + m.queue| == |m.written|;
  }

  /** A frame handed over while there is room is consumed and queued. */
  lemma PassthroughQueues(m: Model, frame: Frame)
    requires |m.queue| < m.cap
    ensures var t := Next(m, Feed(Passthrough, frame));
            t.queue == m.queue + [frame] && t.consumed == m.consumed + 1
  {
  }

  // ----- the callback

  /** A callback for `n` frames takes the oldest frames, as many as there are; they are what it plays. */
  lemma HeardIsTaken(m: Model, n: nat, stream: seq<int>, len: nat)
    requires n == len / 4 && |stream| == len / 2
    ensures var t, k := Next(m, Hear(n)), Min(n, |m.queue|);
            && |t.taken| == |m.taken| + k && t.taken == m.taken + m.queue[..k] && t.queue == m.queue[k..]
            && forall j :: 0 <= j < 2 * k ==>
                 AfterCallback(stream, m.queue, len)[j] ==
                 (if j % 2 == 0 then t.taken[|m.taken| + j / 2].left else t.taken[|m.taken| + j / 2].right)
  {
    hide AfterCallback;
    var t, k := Next(m, Hear(n)), Min(n, |m.queue|);
    forall j | 0 <= j < 2 * k
      ensures AfterCallback(stream, m.queue, len)[j] ==
              if j % 2 == 0 then t.taken[|m.taken| + j / 2].left else t.taken[|m.taken| + j / 2].right
    {
      StreamHalfWord(stream, m.queue, len, j);
    }
  }

  // ----- the buffer's length and filling

  /** Doubled for rate adjustment, nothing without a frame rate. */
  lemma LengthDoubles(bufferSize: nat, inRate: nat, frameRate: real)
    ensures BufferLength(bufferSize, inRate, frameRate, true) == 2 * BufferLength(bufferSize, inRate, frameRate, false)
    ensures frameRate <= 0.0 ==> BufferLength(bufferSize, inRate, frameRate, false) == 0
    ensures frameRate > 0.0 ==>
              var n := BufferLength(bufferSize, inRate, frameRate, false);
              n as real * frameRate <= (bufferSize * inRate) as real < (n as real + 1.0) * frameRate
  {
  }

  /** The percentage is rounded down. */
  lemma PercentIsFloor(n: nat, len: nat)
    requires len > 0
    ensures Percent(n, len) * len <= 100 * n < Percent(n, len) * len + len
  {
    DivMod(n * 100, len);
  }

  /** Which rate is chosen, by the frames in the buffer. */
  lemma RateByFilling(n: nat, len: nat, outRate: int, adj: int)
    requires len > 0
    ensures DrcRate(Percent(n, len), outRate, adj) ==
            if 100 * n < 40 * len then outRate + adj
            else if 100 * n >= 61 * len then outRate - adj
            else outRate
  {
    DivBelow(n * 100, len, 40);
    DivBelow(n * 100, len, 61);
  }

  /**
   Frames written for frames consumed while the filling decides the rate: at less than 40 percent at
   least the raised rate's share, from 61 percent on at most the lowered rate's, up to a constant.
   */
  lemma AdjustmentRefills(n: nat, len: nat, inRate: int, outRate: int, adj: int, diff0: int, cap: nat,
                          events: seq<Event>)
    requires len > 0 && inRate >= 0 && diff0 >= 0 && 0 <= adj < outRate && FixedRate(events)
    ensures var m := Run(Fresh(cap, inRate, DrcRate(Percent(n, len), outRate, adj), diff0), events);
            && (100 * n < 40 * len ==> inRate * |m.written| >= (outRate + adj) * m.consumed - diff0)
            && (100 * n >= 61 * len ==>
                  inRate * |m.written| <= (outRate - adj) * m.consumed + (outRate - adj) + inRate)
  {
    hide DrcRate, Percent, Run;
    RateByFilling(n, len, outRate, adj);
    var rate := DrcRate(Percent(n, len), outRate, adj);
    DriftIsBounded(cap, inRate, rate, diff0, events, rate, rate);
  }
}
