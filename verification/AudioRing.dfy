/**
 The sound queue of picoarch/source/plat_sdl.c as the code has it: an array, three indices, the rates
 and the resampler's error accumulator.  Each method's effect is a step, or a run of steps, of
 the model.  While the writer waits, callbacks run: `windows` says which ones in each wait.
 */
module AudioRing {
  import opened Arith
  import opened AudioModel
  import opened Memory

  const BATCH_SIZE: nat := 100
  const DRC_ADJ_BELOW: nat := 40
  const DRC_ADJ_ABOVE: nat := 60

  /** The frames from index `r` up to index `w`, around the end if need be. */
  function Between(b: seq<Frame>, r: nat, w: nat): (q: seq<Frame>)
    requires r < |b| && w < |b|
    ensures |q| == Distance(r, w, |b|)
  {
    if r <= w then b[r..w] else b[r..] + b[..w]
  }

  function Distance(r: nat, w: nat, len: nat): nat
    requires r < len && w < len
  {
    if r <= w then w - r else w + len - r
  }

  function After(i: nat, len: nat): (j: nat)
    requires i < len
    ensures j < len
  {
    if i + 1 >= len then 0 else i + 1
  }

  lemma PushBack(b: seq<Frame>, r: nat, w: nat, f: Frame)
    requires r < |b| && w < |b| && After(w, |b|) != r
    ensures Between(b[w := f], r, After(w, |b|)) == Between(b, r, w) + [f]
  {
  }

  lemma PopFront(b: seq<Frame>, r: nat, w: nat)
    requires r < |b| && w < |b| && r != w
    ensures Between(b, r, w) == [b[r]] + Between(b, After(r, |b|), w)
  {
    if r < w {
      assert b[r..w] == [b[r]] + b[r + 1..w];
    } else if r + 1 < |b| {
      assert b[r..] + b[..w] == [b[r]] + (b[r + 1..] + b[..w]);
    } else {
      assert b[r..] == [b[r]] && b[0..w] == b[..w];
    }
  }

  /** The index before `r` is where the writer has to stop. */
  lemma FullAt(b: seq<Frame>, r: nat, w: nat)
    requires r < |b| && w < |b|
    ensures After(w, |b|) == r <==> |Between(b, r, w)| == |b| - 1
    ensures r == w <==> Between(b, r, w) == []
  {
  }

  function Percent(n: nat, len: nat): nat
    requires len > 0
  {
    n * 100 / len
  }

  lemma BelowHundred(n: nat, len: nat)
    requires n < len
    ensures Percent(n, len) <= 99
  {
    DivBelow(n * 100, len, 100);
  }

  /** Below 40 percent the output is stretched, above 60 percent squeezed. */
  function DrcRate(percent: nat, outRate: int, rateAdj: int): int {
    if percent < DRC_ADJ_BELOW then outRate + rateAdj
    else if percent > DRC_ADJ_ABOVE then outRate - rateAdj
    else outRate
  }

  /** The samples of a callback: both channels of each frame, then one zero per missing frame. */
  function Samples(q: seq<Frame>): (s: seq<int>)
    ensures |s| == 2 * |q|
  {
    if q == [] then [] else [q[0].left, q[0].right] + Samples(q[1..])
  }

  /** What a callback for `n` frames plays from a queue: a missing frame is one zero, not two. */
  function Played(q: seq<Frame>, n: nat): seq<int> {
    var k := Min(n, |q|);
    Samples(q[..k]) + Zeros(n - k)
  }

  /** The stream after a callback for `len` bytes: what is played, and behind it what was there. */
  function AfterCallback(stream: seq<int>, q: seq<Frame>, len: nat): (r: seq<int>)
    requires |stream| == len / 2
    ensures |r| == |stream|
  {
    PlayedLength(q, len / 4);
    Splice(stream, 0, Played(q, len / 4))
  }

  lemma PlayedLength(q: seq<Frame>, n: nat)
    ensures |Played(q, n)| == n + Min(n, |q|)
  {
  }

  /** The two loops of the callback, one after the other. */
  lemma InTwoParts(stream: seq<int>, q: seq<Frame>, len: nat)
    requires |stream| == len / 2
    ensures var n, k := len / 4, Min(len / 4, |q|);
            AfterCallback(stream, q, len) == Splice(Splice(stream, 0, Samples(q[..k])), 2 * k, Zeros(n - k))
  {
    hide Splice, Samples, Zeros;
    PlayedLength(q, len / 4);
    SpliceMore(stream, 0, Samples(q[..Min(len / 4, |q|)]), Zeros(len / 4 - Min(len / 4, |q|)));
  }

  lemma HearQueue(m: Model, n: nat)
    ensures var t := Next(m, Hear(n));
            && t.queue == m.queue[Min(n, |m.queue|)..]
            && t.cap == m.cap && t.inRate == m.inRate && t.rate == m.rate && t.diff == m.diff
  {
  }

  /** `*p++ = left; *p++ = right;` */
  method PutFrame(stream: array<int>, p: nat, f: Frame)
    requires p + 2 <= stream.Length
    modifies stream
    ensures stream[..] == Splice(old(stream[..]), p, [f.left, f.right])
  {
    stream[p] := f.left;
    stream[p + 1] := f.right;
  }

  /** The second loop of `plat_sound_callback`: one half-word per missing frame. */
  method AddSilence(stream: array<int>, at: nat, len: nat)
    requires at + len <= stream.Length
    modifies stream
    ensures stream[..] == Splice(old(stream[..]), at, Zeros(len))
  {
    hide Splice;
    ghost var was := stream[..];
    var p, left := at, len;
    assert Zeros(0) == [];
    SpliceNone(was, at);
    while left > 0
      invariant 0 <= left <= len && p == at + (len - left)
      invariant stream[..] == Splice(was, at, Zeros(len - left))
    {
      assert Zeros(len - left + 1) == Zeros(len - left) + [0];
      SpliceMore(was, at, Zeros(len - left), [0]);
      SpliceOne(stream[..], p, 0);
      stream[p] := 0;
      p := p + 1;
      left := left - 1;
    }
  }

  /** `current_audio_buffer_size * audio.in_sample_rate / frame_rate`, cut to a whole number. */
  function FramesIn(bufferSize: nat, inRate: nat, frameRate: real): (n: nat)
    requires frameRate > 0.0
    ensures n as real * frameRate <= (bufferSize * inRate) as real < (n as real + 1.0) * frameRate
  {
    CutQuotient((bufferSize * inRate) as real, frameRate);
    ((bufferSize * inRate) as real / frameRate).Floor
  }

  lemma CutQuotient(a: real, y: real)
    requires a >= 0.0 && y > 0.0
    ensures (a / y).Floor >= 0
    ensures (a / y).Floor as real * y <= a < ((a / y).Floor as real + 1.0) * y
  {
    QuotientOrder(a, y, (a / y).Floor as real);
    QuotientOrder(a, y, (a / y).Floor as real + 1.0);
  }

  lemma QuotientOrder(a: real, y: real, k: real)
    requires y > 0.0
    ensures a / y < k <==> a < k * y
  {
    var x := a / y;
    assert x * y == a;
    if x < k {
      ProductOrder(k - x, y);
      assert (k - x) * y == k * y - x * y;
    } else if k < x {
      ProductOrder(x - k, y);
      assert (x - k) * y == x * y - k * y;
    }
  }

  lemma ProductOrder(d: real, y: real)
    requires d > 0.0 && y > 0.0
    ensures d * y > 0.0
  {
  }

  /** The length in frames, doubled when the rate is adjusted; no sound without a frame rate. */
  function BufferLength(bufferSize: nat, inRate: nat, frameRate: real, enableDrc: bool): nat {
    if frameRate <= 0.0 then 0
    else if enableDrc then 2 * FramesIn(bufferSize, inRate, frameRate)
    else FramesIn(bufferSize, inRate, frameRate)
  }

  /** The rate stays, and one resampler does all the work. */
  ghost predicate OnlyFeeds(trace: seq<Event>, how: Resampler) {
    forall k :: 0 <= k < |trace| ==> !trace[k].SetRate? && (trace[k].Feed? ==> trace[k].how == how)
  }

  lemma FeedsAppend(a: seq<Event>, b: seq<Event>, how: Resampler)
    requires OnlyFeeds(a, how) && OnlyFeeds(b, how)
    ensures OnlyFeeds(a + b, how) && OnlyFeeds([], how)
  {
  }

  lemma HeardFeeds(a: seq<Event>, how: Resampler)
    requires forall k :: 0 <= k < |a| ==> a[k].Hear?
    ensures OnlyFeeds(a, how)
  {
  }

  /** How a call of `plat_sound_write_resample` ends, or that it is still in `SDL_Delay`. */
  datatype Ending = AllWritten | GaveUp | StillWaiting

  class Audio {
    var bufW: nat
    var maxBufW: nat
    var bufR: nat
    var buf: array<Frame>
    var inRate: int
    var outRate: int
    var rateAdj: int
    var adjOutRate: int
    var diff: int
    ghost var model: Model

    /** The writer may not catch up with the reader: it stops at `maxBufW`. */
    ghost predicate Indices()
      reads this
    {
      && bufW < buf.Length && bufR < buf.Length && maxBufW < buf.Length
      && After(maxBufW, buf.Length) == bufR
    }

    ghost predicate Valid()
      reads this, buf
    {
      buf.Length > 0 ==>
        && Indices()
        && model.cap == buf.Length - 1 && model.inRate == inRate && model.rate == adjOutRate && model.diff == diff
        && model.queue == Between(buf[..], bufR, bufW)
    }

    /** `plat_sound_resize_buffer`; `diff` is a static and survives. */
    method ResizeBuffer(bufferSize: nat, frameRate: real, enableDrc: bool)
      requires inRate >= 0
      modifies this
      ensures inRate == old(inRate) && adjOutRate == old(adjOutRate) && diff == old(diff)
      ensures Valid() && buf.Length == BufferLength(bufferSize, inRate, frameRate, enableDrc) && fresh(buf)
      ensures buf.Length > 0 ==> model == Fresh(buf.Length - 1, inRate, adjOutRate, diff)
    {
      var len := if frameRate > 0.0 then FramesIn(bufferSize, inRate, frameRate) else 0;
      if enableDrc {
        len := len * 2;
      }
      buf := new Frame[len](_ => Frame(0, 0));
      if len == 0 {
        return;
      }
      bufW := 0;
      bufR := 0;
      maxBufW := len - 1;
      model := Fresh(len - 1, inRate, adjOutRate, diff);
    }

    /** `audio.buf[audio.buf_w++] = data`, around the end */
    method Store(data: Frame)
      requires buf.Length > 0 && Valid() && bufW != maxBufW
      modifies this`bufW, buf
      ensures bufW < buf.Length && Between(buf[..], bufR, bufW) == old(Between(buf[..], bufR, bufW)) + [data]
    {
      PushBack(buf[..], bufR, bufW, data);
      buf[bufW] := data;
      bufW := bufW + 1;
      if bufW >= buf.Length {
        bufW := 0;
      }
    }

    method ResamplePassthrough(data: Frame) returns (consumed: nat)
      requires buf.Length > 0 && Valid() && bufW != maxBufW
      modifies this`bufW, this`model, buf
      ensures Valid() && model == Next(old(model), Feed(Passthrough, data))
      ensures consumed == model.consumed - old(model).consumed == 1
    {
      hide Between;
      FullAt(buf[..], bufR, bufW);
      Store(data);
      model := Next(model, Feed(Passthrough, data));
      return 1;
    }

    method ResampleNearest(data: Frame) returns (consumed: nat)
      requires buf.Length > 0 && Valid() && bufW != maxBufW
      modifies this`bufW, this`diff, this`model, buf
      ensures Valid() && model == Next(old(model), Feed(Nearest, data))
      ensures consumed == model.consumed - old(model).consumed <= 1
      ensures consumed == 1 || |model.queue| > |old(model).queue|
    {
      hide Between;
      FullAt(buf[..], bufR, bufW);
      consumed := 0;
      if diff < adjOutRate {
        Store(data);
        diff := diff + inRate;
      }
      if diff >= adjOutRate {
        consumed := consumed + 1;
        diff := diff - adjOutRate;
      }
      model := Next(model, Feed(Nearest, data));
    }

    /** The oldest frame leaves the queue. */
    method Fetch() returns (f: Frame)
      requires buf.Length > 0 && Indices() && bufR != bufW
      modifies this`bufR, this`maxBufW
      ensures Indices()
      ensures [f] + Between(buf[..], bufR, bufW) == old(Between(buf[..], bufR, bufW))
    {
      PopFront(buf[..], bufR, bufW);
      f := buf[bufR];
      maxBufW := bufR;
      bufR := bufR + 1;
      if bufR >= buf.Length {
        bufR := 0;
      }
    }

    /** The first loop of `plat_sound_callback`: frames out of the queue, two half-words each. */
    method Drain(stream: array<int>, frames: nat) returns (p: nat, left: nat)
      requires buf.Length > 0 && Indices() && 2 * frames <= stream.Length
      modifies this`bufR, this`maxBufW, stream
      ensures Indices() && left <= frames && p == 2 * (frames - left)
      ensures buf[..] == old(buf[..])
      ensures var q, k := old(Between(buf[..], bufR, bufW)), frames - left;
              && k == Min(frames, |q|) && Between(buf[..], bufR, bufW) == q[k..]
              && stream[..] == Splice(old(stream[..]), 0, Samples(q[..k]))
    {
      hide Between, Samples, Splice;
      p, left := 0, frames;
      ghost var was, frames0 := stream[..], buf[..];
      ghost var q, k := Between(buf[..], bufR, bufW), 0;
      SamplesStep(q, 0);
      SpliceNone(was, 0);
      assert q[..0] == [] && q[0..] == q;
      while bufR != bufW && left > 0
        invariant left >= 0 && Indices() && buf[..] == frames0
        invariant 0 <= k <= |q| && k + left == frames && p == 2 * k
        invariant Between(buf[..], bufR, bufW) == q[k..]
        invariant stream[..] == Splice(was, 0, Samples(q[..k]))
        decreases left
      {
        var f := Fetch();
        assert f == q[k..][0] && q[k..][1..] == q[k + 1..];
        SamplesStep(q, k);
        PutFrame(stream, p, f);
        SpliceMore(was, 0, Samples(q[..k]), [q[k].left, q[k].right]);
        p := p + 2;
        left := left - 1;
        k := k + 1;
      }
      FullAt(buf[..], bufR, bufW);
    }

    /** The two loops of `plat_sound_callback`. */
    method Play(stream: array<int>, len: nat)
      requires buf.Length > 0 && Indices() && stream.Length == len / 2
      modifies this`bufR, this`maxBufW, stream
      ensures Indices() && buf[..] == old(buf[..])
      ensures var q := old(Between(buf[..], bufR, bufW));
              && Between(buf[..], bufR, bufW) == q[Min(len / 4, |q|)..]
              && stream[..] == AfterCallback(old(stream[..]), q, len)
    {
      hide Between, Samples, Zeros, Splice, AfterCallback, After, Distance;
      ghost var was, q := stream[..], Between(buf[..], bufR, bufW);
      var p, left := Drain(stream, len / 4);
      InTwoParts(was, q, len);
      AddSilence(stream, p, left);
    }

    /** `plat_sound_callback`: `len` counts bytes. */
    method Callback(stream: array<int>, len: nat)
      requires Valid() && stream.Length == len / 2
      modifies this`bufR, this`maxBufW, this`model, stream
      ensures Valid()
      ensures buf.Length == 0 ==> stream[..] == old(stream[..]) && model == old(model)
      ensures buf.Length > 0 ==> model == Next(old(model), Hear(len / 4))
      ensures buf.Length > 0 ==> stream[..] == AfterCallback(old(stream[..]), old(model).queue, len)
    {
      if buf.Length == 0 {
        return;
      }
      hide Between, Next, AfterCallback, Indices, Distance, After;
      Play(stream, len);
      HearQueue(model, len / 4);
      model := Next(model, Hear(len / 4));
    }

    /** `plat_sound_occupancy`: percent of the buffer. */
    method Occupancy() returns (percent: nat)
      requires Valid()
      ensures percent <= 99
      ensures percent == if buf.Length == 0 then 0 else Percent(|model.queue|, buf.Length)
    {
      hide Percent;
      if buf.Length == 0 {
        return 0;
      }
      var buffered := 0;
      if bufW != bufR {
        buffered := if bufW > bufR then bufW - bufR else (bufW + buf.Length) - bufR;
      }
      percent := Percent(buffered, buf.Length);
      BelowHundred(buffered, buf.Length);
    }

    /** One call of the chosen resampler. */
    method Resample(how: Resampler, data: Frame) returns (consumed: nat)
      requires buf.Length > 0 && Valid() && bufW != maxBufW
      modifies this`bufW, this`diff, this`model, buf
      ensures Valid() && model == Next(old(model), Feed(how, data))
      ensures consumed == model.consumed - old(model).consumed <= 1
      ensures consumed == 1 || |model.queue| > |old(model).queue|
    {
      match how
      case Passthrough => consumed := ResamplePassthrough(data);
      case Nearest => consumed := ResampleNearest(data);
    }

    /** Frames that can still be stored. */
    ghost function Free(): int
      reads this
    {
      model.cap - |model.queue|
    }

    lemma FullWhenStopped()
      requires buf.Length > 0 && Valid()
      ensures Free() >= 0 && (bufW == maxBufW <==> Free() == 0)
    {
      FullAt(buf[..], bufR, bufW);
    }

    /** The inner loop of the writer: frames are resampled until `amount` are consumed or the ring is full. */
    method WriteBatch(how: Resampler, data: seq<Frame>, at: nat, amount: nat, ghost base: nat)
      returns (used: nat, ghost trace: seq<Event>)
      requires buf.Length > 0 && Valid() && model.consumed == base + at && at + amount <= |data|
      modifies this`bufW, this`diff, this`model, buf
      ensures Valid() && used <= amount
      ensures model == Run(old(model), trace) && InOrder(data, base, old(model), trace) && OnlyFeeds(trace, how)
      ensures used == model.consumed - old(model).consumed && model.cap == old(model).cap
      ensures used == amount || Free() == 0
      ensures amount - used + Free() <= amount + old(Free())
      ensures amount > 0 && old(Free()) > 0 ==> amount - used + Free() < amount + old(Free())
    {
      hide Between, InOrder, Run, Next;
      NothingRun(data, base, model);
      used := 0;
      trace := [];
      FullWhenStopped();
      while amount - used > 0 && bufW != maxBufW
        invariant Valid() && used <= amount
        invariant model == Run(old(model), trace) && InOrder(data, base, old(model), trace) && OnlyFeeds(trace, how)
        invariant used == model.consumed - old(model).consumed && model.cap == old(model).cap
        invariant bufW == maxBufW <==> Free() == 0
        invariant trace != [] ==> amount - used + Free() < amount + old(Free())
        invariant trace == [] ==> used == 0 && model == old(model)
        decreases amount - used + Free()
      {
        var frame := data[at + used];
        InOrderOne(data, base, old(model), trace, Feed(how, frame));
        ResampleKeeps(model, how, frame);
        var consumed := Resample(how, frame);
        used := used + consumed;
        trace := trace + [Feed(how, frame)];
        FullWhenStopped();
      }
      FullWhenStopped();
    }

    /** The rate for the next frames, from the occupancy. */
    method AdjustRate()
      requires buf.Length > 0 && Valid()
      modifies this`adjOutRate, this`model
      ensures Valid() && model == old(model).(rate := adjOutRate)
      ensures adjOutRate == DrcRate(Percent(|model.queue|, buf.Length), outRate, rateAdj)
      ensures rateAdj >= 0 ==> outRate - rateAdj <= adjOutRate <= outRate + rateAdj
    {
      hide Percent;
      var occupancy := Occupancy();
      if occupancy < DRC_ADJ_BELOW {
        adjOutRate := outRate + rateAdj;
      } else if occupancy > DRC_ADJ_ABOVE {
        adjOutRate := outRate - rateAdj;
      } else {
        adjOutRate := outRate;
      }
      model := model.(rate := adjOutRate);
    }

    /** The callbacks that run during one `SDL_Delay`. */
    method Delay(lens: seq<nat>) returns (ghost trace: seq<Event>)
      requires buf.Length > 0 && Valid()
      modifies this`bufR, this`maxBufW, this`model
      ensures Valid() && |trace| == |lens| && forall k :: 0 <= k < |lens| ==> trace[k] == Hear(lens[k] / 4)
      ensures model == Run(old(model), trace) && model.consumed == old(model).consumed && model.cap == old(model).cap
    {
      hide Run, Next;
      trace := [];
      NothingRun([], 0, model);
      for k := 0 to |lens|
        invariant Valid() && |trace| == k && forall j :: 0 <= j < k ==> trace[j] == Hear(lens[j] / 4)
        invariant model == Run(old(model), trace)
        invariant model.consumed == old(model).consumed && model.cap == old(model).cap
      {
        HearKeeps(model, lens[k] / 4);
        RunOne(old(model), trace, Hear(lens[k] / 4));
        var stream := new int[lens[k] / 2];
        Callback(stream, lens[k]);
        trace := trace + [Hear(lens[k] / 4)];
      }
    }

    /** The loop that waits for room: at most ten delays, none when frames are not limited. */
    method WaitForRoom(limitFrames: bool, windows: seq<seq<nat>>, start: nat)
      returns (next: nat, ending: Ending, ghost trace: seq<Event>)
      requires buf.Length > 0 && Valid() && start <= |windows|
      modifies this`bufR, this`maxBufW, this`model
      ensures Valid() && model == Run(old(model), trace) && forall k :: 0 <= k < |trace| ==> trace[k].Hear?
      ensures model.consumed == old(model).consumed && model.cap == old(model).cap
      ensures start <= next <= |windows| && (next == start ==> model == old(model))
      ensures ending == GaveUp ==> !limitFrames && Free() == 0
      ensures ending == StillWaiting ==> limitFrames && next == |windows|
      ensures ending == AllWritten ==> Free() > 0 || next == start + 10
    {
      hide Run, Between;
      NothingRun([], 0, model);
      next, ending, trace := start, AllWritten, [];
      var tries := 0;
      FullWhenStopped();
      while tries < 10 && bufW == maxBufW
        invariant Valid() && 0 <= tries <= 10 && next == start + tries && next <= |windows|
        invariant model == Run(old(model), trace) && forall k :: 0 <= k < |trace| ==> trace[k].Hear?
        invariant model.consumed == old(model).consumed && model.cap == old(model).cap
        invariant tries == 0 ==> model == old(model)
        invariant bufW == maxBufW <==> Free() == 0
        invariant Free() >= 0
        decreases 10 - tries
      {
        if !limitFrames {
          ending := GaveUp;
          return;
        }
        if next == |windows| {
          ending := StillWaiting;
          return;
        }
        tries := tries + 1;
        ghost var heard := Delay(windows[next]);
        RunAppend(old(model), trace, heard);
        trace := trace + heard;
        next := next + 1;
        FullWhenStopped();
      }
    }

    /** The outer loop of the writer: wait for room, write a batch, until all frames are consumed. */
    method WriteFrames(data: seq<Frame>, how: Resampler, limitFrames: bool, windows: seq<seq<nat>>)
      returns (used: nat, ending: Ending, ghost trace: seq<Event>)
      requires buf.Length > 0 && Valid()
      modifies this`bufW, this`diff, this`bufR, this`maxBufW, this`model, buf
      ensures Valid()
      ensures model == Run(old(model), trace)
      ensures InOrder(data, old(model).consumed, old(model), trace) && OnlyFeeds(trace, how)
      ensures used == model.consumed - old(model).consumed <= |data|
      ensures ending == AllWritten ==> used == |data|
      ensures ending == GaveUp ==> !limitFrames && Free() == 0
      ensures ending == StillWaiting ==> limitFrames
    {
      hide Run, InOrder, Between, Next, OnlyFeeds;
      used, ending, trace := 0, AllWritten, [];
      ghost var m0, base := model, model.consumed;
      NothingRun(data, base, model);
      HeardFeeds([], how);
      var window := 0;
      FullWhenStopped();
      while used < |data|
        invariant Valid() && used <= |data| && window <= |windows| && ending == AllWritten && Free() >= 0
        invariant model == Run(m0, trace) && InOrder(data, base, m0, trace) && OnlyFeeds(trace, how)
        invariant model.consumed == base + used
        decreases |windows| - window, |data| - used + Free()
      {
        var amount := if BATCH_SIZE < |data| - used then BATCH_SIZE else |data| - used;
        ghost var heard, fed;
        window, ending, heard := WaitForRoom(limitFrames, windows, window);
        HearingIsInOrder(data, base, Run(m0, trace), heard);
        InOrderAppend(data, base, m0, trace, heard);
        RunAppend(m0, trace, heard);
        HeardFeeds(heard, how);
        FeedsAppend(trace, heard, how);
        trace := trace + heard;
        if ending != AllWritten {
          return;
        }
        FullWhenStopped();
        var done;
        done, fed := WriteBatch(how, data, used, amount, base);
        InOrderAppend(data, base, m0, trace, fed);
        RunAppend(m0, trace, fed);
        FeedsAppend(trace, fed, how);
        trace := trace + fed;
        used := used + done;
        FullWhenStopped();
      }
    }

    /**
     `plat_sound_write_resample`.  Whatever callbacks run while it waits, the whole call is a run of
     the model that feeds the frames in order; it gives up only on a full ring when frames are not limited.
     */
    method WriteResample(data: seq<Frame>, how: Resampler, drc: bool, limitFrames: bool, windows: seq<seq<nat>>)
      returns (used: nat, ending: Ending, ghost trace: seq<Event>)
      requires Valid()
      modifies this`bufW, this`diff, this`adjOutRate, this`bufR, this`maxBufW, this`model, buf
      ensures Valid()
      ensures buf.Length == 0 ==> used == 0 && trace == [] && model == old(model) && adjOutRate == old(adjOutRate)
      ensures buf.Length > 0 ==>
                adjOutRate == if drc then DrcRate(Percent(|old(model).queue|, buf.Length), outRate, rateAdj)
                              else old(adjOutRate)
      ensures buf.Length > 0 ==>
                var m0 := old(model).(rate := adjOutRate);
                && model == Run(m0, trace) && InOrder(data, m0.consumed, m0, trace) && OnlyFeeds(trace, how)
                && used == model.consumed - m0.consumed <= |data|
      ensures buf.Length > 0 && ending == AllWritten ==> used == |data|
      ensures buf.Length > 0 && ending == GaveUp ==> !limitFrames && Free() == 0
      ensures ending == StillWaiting ==> limitFrames
    {
      hide Run, InOrder, Between, Percent, Next, DrcRate, OnlyFeeds;
      if buf.Length == 0 {
        return 0, AllWritten, [];
      }
      if drc {
        AdjustRate();
      }
      assert model == old(model).(rate := adjOutRate);
      used, ending, trace := WriteFrames(data, how, limitFrames, windows);
    }
  }

  lemma HearKeeps(m: Model, n: nat)
    ensures Next(m, Hear(n)).consumed == m.consumed && Next(m, Hear(n)).cap == m.cap
  {
  }

  lemma {:induction false} HearingIsInOrder(data: seq<Frame>, base: nat, m: Model, events: seq<Event>)
    requires forall k :: 0 <= k < |events| ==> events[k].Hear?
    ensures InOrder(data, base, m, events)
    decreases |events|
  {
    if events != [] {
      HearingIsInOrder(data, base, Next(m, events[0]), events[1..]);
    }
  }

  lemma NothingRun(data: seq<Frame>, base: nat, m: Model)
    ensures Run(m, []) == m && InOrder(data, base, m, [])
  {
  }

  /** A call of the resampler never shrinks the queue and changes no limits. */
  lemma ResampleKeeps(m: Model, how: Resampler, frame: Frame)
    ensures var m' := Next(m, Feed(how, frame));
            m'.cap == m.cap && |m'.queue| >= |m.queue| && m'.consumed >= m.consumed
  {
  }

  lemma {:induction false} SamplesOfConcat(a: seq<Frame>, b: seq<Frame>)
    ensures Samples(a + b) == Samples(a) + Samples(b)
    decreases |a|
  {
    if a == [] {
      assert a + b == b;
    } else {
      assert (a + b)[1..] == a[1..] + b;
      SamplesOfConcat(a[1..], b);
    }
  }

  lemma SamplesStep(q: seq<Frame>, k: nat)
    ensures Samples([]) == []
    ensures k < |q| ==> Samples(q[..k + 1]) == Samples(q[..k]) + [q[k].left, q[k].right]
  {
    if k < |q| {
      assert q[..k + 1] == q[..k] + [q[k]];
      SamplesOfConcat(q[..k], [q[k]]);
      assert Samples([q[k]]) == [q[k].left, q[k].right] + Samples([]);
    }
  }

  // ----- how much of its stream a callback fills

  /** Half-word `j`: of a frame, silence, or what was there before. */
  lemma StreamHalfWord(stream: seq<int>, q: seq<Frame>, len: nat, j: nat)
    requires |stream| == len / 2 && j < |stream|
    ensures var n, k, r := len / 4, Min(len / 4, |q|), AfterCallback(stream, q, len);
            && (j < 2 * k ==> r[j] == if j % 2 == 0 then q[j / 2].left else q[j / 2].right)
            && (2 * k <= j < n + k ==> r[j] == 0)
            && (n + k <= j ==> r[j] == stream[j])
  {
    hide Samples, Splice;
    var n, k := len / 4, Min(len / 4, |q|);
    PlayedLength(q, n);
    SpliceAt(stream, 0, Played(q, n), j);
    if j < 2 * k {
      SamplesAt(q[..k], j);
    }
  }

  lemma {:induction false} SamplesAt(q: seq<Frame>, j: nat)
    requires j < 2 * |q|
    ensures Samples(q)[j] == if j % 2 == 0 then q[j / 2].left else q[j / 2].right
    decreases |q|
  {
    if j >= 2 {
      SamplesAt(q[1..], j - 2);
    }
  }

  /** Nothing of the stream's former contents is left. */
  ghost predicate FillsStream(q: seq<Frame>, len: nat) {
    forall a: seq<int>, b: seq<int> :: |a| == |b| == len / 2 ==> AfterCallback(a, q, len) == AfterCallback(b, q, len)
  }

  /**
   A callback fills its stream exactly when there is a queued frame for every four bytes, and no
   half-word is left over.
   */
  lemma StreamIsFilledExactly(q: seq<Frame>, len: nat)
    ensures FillsStream(q, len) <==> len / 4 <= |q| && len % 4 < 2
  {
    hide AfterCallback;
    var n, k := len / 4, Min(len / 4, |q|);
    if len / 4 <= |q| && len % 4 < 2 {
      forall a: seq<int>, b: seq<int> | |a| == |b| == len / 2
        ensures AfterCallback(a, q, len) == AfterCallback(b, q, len)
      {
        forall j | 0 <= j < len / 2
          ensures AfterCallback(a, q, len)[j] == AfterCallback(b, q, len)[j]
        {
          StreamHalfWord(a, q, len, j);
          StreamHalfWord(b, q, len, j);
        }
      }
    } else {
      var a, b := Zeros(len / 2), seq(len / 2, _ => 1);
      StreamHalfWord(a, q, len, len / 2 - 1);
      StreamHalfWord(b, q, len, len / 2 - 1);
      assert AfterCallback(a, q, len)[len / 2 - 1] != AfterCallback(b, q, len)[len / 2 - 1];
    }
  }

  /** With nothing queued the second half of the stream is played as it was. */
  lemma EmptyQueueFillsHalf(stream: seq<int>)
    requires |stream| % 2 == 0
    ensures var n := |stream| / 2;
            AfterCallback(stream, [], 2 * |stream|) == Zeros(n) + stream[n..]
  {
    hide AfterCallback;
    var n := |stream| / 2;
    var r := AfterCallback(stream, [], 2 * |stream|);
    forall j | 0 <= j < |stream|
      ensures r[j] == (Zeros(n) + stream[n..])[j]
    {
      StreamHalfWord(stream, [], 2 * |stream|, j);
    }
  }
}
