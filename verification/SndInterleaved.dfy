/**
 The same ring with the writer and the audio callback running at once and unlocked
 (picoarch/libpicofe/sndout_sdl.c).  Every copied sample and every index store is a step of its own,
 and steps of the two sides mix freely.  Each store is taken to be atomic and in program order.
 */
module SndInterleaved {
  import opened Arith
  import opened SndRing

  /** Inside `sndout_sdl_write_nb`: the current `memcpy`, `k` samples done, and what follows the wrap. */
  datatype Writer = Waiting | Copying(chunk: seq<int>, k: nat, wraps: bool, rest: seq<int>)

  /** Inside `callback`, likewise. */
  datatype Reader = Silent | Reading(count: nat, k: nat, wraps: bool, more: nat)

  /**
   The shared ring, the two program counters, and four history variables: the samples the writer
   has promised, those the callback has copied out, and how many each side has published.
   */
  datatype State = State(
    buf: seq<int>, w: nat, r: nat, writer: Writer, reader: Reader,
    accepted: seq<int>, taken: seq<int>, published: nat, released: nat)

  datatype Event = CallWrite(samples: seq<int>) | WriterMoves | CallAudio(n: nat) | ReaderMoves

  const INIT := State(seq(BUF_LEN, _ => 0), 0, 0, Waiting, Silent, [], [], 0, 0)

  predicate Shape(s: State) {
    && |s.buf| == BUF_LEN && s.w < BUF_LEN && s.r < BUF_LEN
    && (s.writer.Copying? ==> s.writer.k <= |s.writer.chunk| && s.w + |s.writer.chunk| <= BUF_LEN)
    && (s.reader.Reading? ==> s.reader.k <= s.reader.count && s.r + s.reader.count <= BUF_LEN)
  }

  /** Entry of the writer: it reads `buf_r` once, here, and takes what fits. */
  function BeginWrite(s: State, samples: seq<int>): State {
    var n := Min(|samples|, Mask(s.r - s.w - 2));
    var left := BUF_LEN - s.w;
    if n == 0 || s.w >= BUF_LEN then s
    else
      var pc := if n > left then Copying(samples[..left], 0, true, samples[left..n])
                else Copying(samples[..n], 0, false, []);
      s.(writer := pc, accepted := s.accepted + samples[..n])
  }

  /** One sample copied, or the index stored at the end of a chunk. */
  function WriterStep(s: State): State
    requires Shape(s) && s.writer.Copying?
  {
    var pc := s.writer;
    if pc.k < |pc.chunk| then s.(buf := s.buf[s.w + pc.k := pc.chunk[pc.k]], writer := pc.(k := pc.k + 1))
    else if pc.wraps then
      s.(w := 0, published := s.published + |pc.chunk|, writer := Copying(pc.rest, 0, false, []))
    else s.(w := Mask(s.w + |pc.chunk|), published := s.published + |pc.chunk|, writer := Waiting)
  }

  /** Entry of the callback: it reads `buf_w` once, here. */
  function BeginAudio(s: State, n: nat): State {
    var have := Min(n, Mask(s.w - s.r));
    var left := BUF_LEN - s.r;
    if have == 0 || s.r >= BUF_LEN then s
    else if have > left then s.(reader := Reading(left, 0, true, have - left))
    else s.(reader := Reading(have, 0, false, 0))
  }

  function ReaderStep(s: State): State
    requires Shape(s) && s.reader.Reading?
  {
    var pc := s.reader;
    if pc.k < pc.count then s.(taken := s.taken + [s.buf[s.r + pc.k]], reader := pc.(k := pc.k + 1))
    else if pc.wraps then
      s.(r := 0, released := s.released + pc.count, reader := Reading(pc.more, 0, false, 0))
    else s.(r := Mask(s.r + pc.count), released := s.released + pc.count, reader := Silent)
  }

  /** An event that is not enabled changes nothing. */
  function Next(s: State, e: Event): State {
    match e
    case CallWrite(samples) => if s.writer.Waiting? then BeginWrite(s, samples) else s
    case WriterMoves => if Shape(s) && s.writer.Copying? then WriterStep(s) else s
    case CallAudio(n) => if s.reader.Silent? then BeginAudio(s, n) else s
    case ReaderMoves => if Shape(s) && s.reader.Reading? then ReaderStep(s) else s
  }

  function Run(s: State, events: seq<Event>): State
    decreases |events|
  {
    if events == [] then s else Run(Next(s, events[0]), events[1..])
  }

  // ----- what every interleaving keeps

  /** Where the sample with number `j` lives. */
  function Slot(j: nat): (i: nat)
    ensures i < BUF_LEN
  {
    j % BUF_LEN
  }

  lemma SlotsDiffer(i: nat, j: nat)
    requires i < j < i + BUF_LEN
    ensures Slot(i) != Slot(j)
  {
  }

  lemma SlotAdvance(j: nat, n: nat)
    requires Slot(j) + n <= BUF_LEN
    ensures n < BUF_LEN - Slot(j) ==> Slot(j + n) == Slot(j) + n
    ensures Mask(Slot(j) + n) == Slot(j + n)
    ensures Slot(j) + n == BUF_LEN ==> Slot(j + n) == 0
  {
  }

  lemma SlotDifference(i: nat, j: nat)
    requires i <= j <= i + BUF_LEN - 2
    ensures Mask(Slot(j) - Slot(i)) == j - i
    ensures Mask(Slot(i) - Slot(j) - 2) == BUF_LEN - 2 - (j - i)
  {
  }

  ghost predicate Counted(s: State) {
    && Shape(s) && s.w == Slot(s.published) && s.r == Slot(s.released)
    && s.released <= s.published <= s.released + BUF_LEN - 2
  }

  /** The writer owns the slots from `published` on, up to two short of the reader. */
  ghost predicate WriterOk(s: State) {
    Shape(s) &&
    match s.writer
    case Waiting => |s.accepted| == s.published
    case Copying(chunk, k, wraps, rest) =>
      && |s.accepted| == s.published + |chunk| + |rest| <= s.released + BUF_LEN - 2
      && s.accepted[s.published..] == chunk + rest
      && (wraps ==> s.w + |chunk| == BUF_LEN) && (!wraps ==> rest == []) && |rest| <= BUF_LEN
      && (forall j :: s.published <= j < s.published + k ==> s.buf[Slot(j)] == s.accepted[j])
  }

  ghost predicate ReaderOk(s: State) {
    match s.reader
    case Silent => |s.taken| == s.released
    case Reading(count, k, wraps, more) =>
      && |s.taken| == s.released + k && s.released + count + more <= s.published
      && (wraps ==> s.r + count == BUF_LEN) && (!wraps ==> more == 0)
  }

  /** Published samples that are not released yet are in their slots. */
  ghost predicate DataOk(s: State) {
    && Shape(s) && s.published <= |s.accepted|
    && (forall j :: s.released <= j < s.published ==> s.buf[Slot(j)] == s.accepted[j])
    && |s.taken| <= |s.accepted| && s.taken == s.accepted[..|s.taken|]
  }

  ghost predicate Inv(s: State) {
    Counted(s) && WriterOk(s) && ReaderOk(s) && DataOk(s)
  }

  lemma InitInv()
    ensures Inv(INIT)
  {
  }

  lemma BeginWriteInv(s: State, samples: seq<int>)
    requires Inv(s) && s.writer.Waiting?
    ensures Inv(BeginWrite(s, samples))
  {
    hide Mask, Slot;
    SlotDifference(s.released, s.published);
  }

  /** One sample copied. */
  lemma WriterCopies(s: State)
    requires Inv(s) && s.writer.Copying? && s.writer.k < |s.writer.chunk|
    ensures Inv(WriterStep(s))
  {
    hide Mask, Slot;
    var pc := s.writer;
    var p := s.published + pc.k;
    SlotAdvance(s.published, pc.k);
    forall j | s.released <= j < p
      ensures Slot(j) != Slot(p)
    {
      SlotsDiffer(j, p);
    }
    assert s.accepted[p] == s.accepted[s.published..][pc.k];
  }

  /** The samples behind those of the chunk. */
  lemma BehindChunk(accepted: seq<int>, published: nat, chunk: seq<int>, rest: seq<int>)
    requires published <= |accepted| && accepted[published..] == chunk + rest
    ensures |accepted| == published + |chunk| + |rest| && accepted[published + |chunk|..] == rest
  {
    assert accepted[published + |chunk|..] == accepted[published..][|chunk|..];
  }

  /** The index stored behind the chunk. */
  lemma WriterPublishes(s: State)
    requires Inv(s) && s.writer.Copying? && s.writer.k == |s.writer.chunk|
    ensures Inv(WriterStep(s))
  {
    hide Mask, Slot;
    var pc := s.writer;
    SlotAdvance(s.published, |pc.chunk|);
    BehindChunk(s.accepted, s.published, pc.chunk, pc.rest);
    assert pc.rest == pc.rest + [];
  }

  lemma WriterStepInv(s: State)
    requires Inv(s) && s.writer.Copying?
    ensures Inv(WriterStep(s))
  {
    if s.writer.k < |s.writer.chunk| {
      WriterCopies(s);
    } else {
      WriterPublishes(s);
    }
  }

  lemma BeginAudioInv(s: State, n: nat)
    requires Inv(s) && s.reader.Silent?
    ensures Inv(BeginAudio(s, n))
  {
    hide Mask, Slot;
    SlotDifference(s.released, s.published);
  }

  lemma ReaderStepInv(s: State)
    requires Inv(s) && s.reader.Reading?
    ensures Inv(ReaderStep(s))
  {
    hide Mask, Slot;
    var pc := s.reader;
    if pc.k < pc.count {
      SlotAdvance(s.released, pc.k);
    } else {
      SlotAdvance(s.released, pc.count);
    }
  }

  lemma NextInv(s: State, e: Event)
    requires Inv(s)
    ensures Inv(Next(s, e))
  {
    match e
    case CallWrite(samples) => if s.writer.Waiting? { BeginWriteInv(s, samples); }
    case WriterMoves => if s.writer.Copying? { WriterStepInv(s); }
    case CallAudio(n) => if s.reader.Silent? { BeginAudioInv(s, n); }
    case ReaderMoves => if s.reader.Reading? { ReaderStepInv(s); }
  }

  lemma {:induction false} RunInv(s: State, events: seq<Event>)
    requires Inv(s)
    ensures Inv(Run(s, events))
    decreases |events|
  {
    if events != [] {
      NextInv(s, events[0]);
      RunInv(Next(s, events[0]), events[1..]);
    }
  }

  /** What the invariant says about the histories. */
  lemma KeptBounds(s: State)
    requires Inv(s)
    ensures s.taken <= s.accepted && s.released <= |s.taken| <= s.published <= |s.accepted|
    ensures s.published - s.released <= BUF_LEN - 2
    ensures Mask(s.w - s.r) == s.published - s.released
    ensures Mask(s.r - s.w - 2) == BUF_LEN - 2 - (s.published - s.released)
  {
    hide Mask, Slot;
    SlotDifference(s.released, s.published);
  }

  /** What the callback copies is always a prefix of what the writer accepted, and two slots stay free. */
  lemma PlaysWhatWasAccepted(events: seq<Event>)
    ensures var s := Run(INIT, events);
            && s.taken <= s.accepted
            && 0 <= s.published - s.released <= BUF_LEN - 2
            && s.released <= |s.taken| <= s.published <= |s.accepted|
            && Mask(s.w - s.r) == s.published - s.released
            && Mask(s.r - s.w - 2) == BUF_LEN - 2 - (s.published - s.released)
  {
    hide Run, Inv, Mask;
    InitInv();
    RunInv(INIT, events);
    KeptBounds(Run(INIT, events));
  }

  /** What the entry of the writer promises. */
  lemma WritePromises(s: State, samples: seq<int>)
    requires Inv(s) && s.writer.Waiting?
    ensures s.published - s.released <= BUF_LEN - 2
    ensures var t := Next(s, CallWrite(samples));
            && t.accepted == s.accepted + samples[..Min(|samples|, BUF_LEN - 2 - (s.published - s.released))]
            && t.r == s.r && t.reader == s.reader && t.taken == s.taken && t.released == s.released
  {
    hide Mask, Slot, WriterOk, ReaderOk, DataOk;
    SlotDifference(s.released, s.published);
    assert s.accepted + samples[..0] == s.accepted;
  }

  /** What the entry of the callback sets out to take. */
  lemma AudioTakes(s: State, n: nat)
    requires Inv(s) && s.reader.Silent?
    ensures 0 <= s.published - s.released <= BUF_LEN - 2
    ensures var t, have := Next(s, CallAudio(n)), Min(n, s.published - s.released);
            && (if have > 0 then t.reader.Reading? && t.reader.k == 0 && t.reader.count + t.reader.more == have
                else t.reader.Silent?)
            && t.taken == s.taken && t.w == s.w && t.buf == s.buf && t.writer == s.writer
            && t.accepted == s.accepted && t.published == s.published
  {
    hide Mask, Slot, WriterOk, ReaderOk, DataOk;
    SlotDifference(s.released, s.published);
  }

  /** A call is promised exactly the space, or given exactly the samples, that there are. */
  lemma CallsTakeWhatFits(events: seq<Event>, samples: seq<int>, n: nat)
    ensures var s := Run(INIT, events);
            var free, unread := BUF_LEN - 2 - (s.published - s.released), s.published - s.released;
            && unread <= BUF_LEN - 2
            && (s.writer.Waiting? ==>
                  Next(s, CallWrite(samples)).accepted == s.accepted + samples[..Min(|samples|, free)])
            && (s.reader.Silent? && unread > 0 && n > 0 ==>
                  var t := Next(s, CallAudio(n)).reader;
                  t.Reading? && t.count + t.more == Min(n, unread))
  {
    hide Run, Mask, Next, Inv;
    PlaysWhatWasAccepted(events);
    InitInv();
    RunInv(INIT, events);
    var s := Run(INIT, events);
    if s.writer.Waiting? {
      WritePromises(s, samples);
    }
    if s.reader.Silent? {
      AudioTakes(s, n);
    }
  }

  /** An empty ring takes 32766 samples. */
  lemma EmptyRingTakes(samples: seq<int>)
    ensures var t := Next(INIT, CallWrite(samples));
            t.accepted == if |samples| <= 32766 then samples else samples[..32766]
  {
    hide Next, Inv;
    InitInv();
    WritePromises(INIT, samples);
    assert [] + samples == samples;
    assert samples[..|samples|] == samples;
  }

  /** The unread part of the ring, from its slots. */
  ghost function Pending(s: State): seq<int>
    requires Counted(s)
  {
    seq(s.published - s.released, i requires 0 <= i => s.buf[Slot(s.released + i)])
  }

  lemma PendingIsAccepted(s: State)
    requires Inv(s)
    ensures Counted(s) && s.released <= s.published <= |s.accepted|
    ensures Pending(s) == s.accepted[s.released..s.published]
  {
    hide WriterOk, ReaderOk;
  }

  /** Nothing is taken back: not what is promised, and not what is published. */
  lemma NextGrows(s: State, e: Event)
    requires Shape(s)
    ensures var t := Next(s, e);
            s.accepted <= t.accepted && s.published <= t.published && (!e.ReaderMoves? ==> t.released == s.released)
  {
    hide Mask;
  }

  lemma LongerPart(a: seq<int>, b: seq<int>, i: nat, j: nat, k: nat)
    requires a <= b && i <= j <= |a| && j <= k <= |b|
    ensures a[i..j] <= b[i..k]
  {
  }

  /** No step of the writer, and no copy of the reader, disturbs an unread sample. */
  lemma UnreadIsSafe(events: seq<Event>, e: Event)
    ensures var s := Run(INIT, events);
            && Counted(s) && Counted(Next(s, e))
            && (!e.ReaderMoves? ==> Pending(s) <= Pending(Next(s, e)))
            && s.released <= s.published <= |s.accepted| && Pending(s) == s.accepted[s.released..s.published]
  {
    hide Run, Next, Inv, Counted, Pending;
    InitInv();
    RunInv(INIT, events);
    var s := Run(INIT, events);
    var t := Next(s, e);
    NextInv(s, e);
    PendingIsAccepted(s);
    PendingIsAccepted(t);
    CountedShape(s);
    NextGrows(s, e);
    if !e.ReaderMoves? {
      LongerPart(s.accepted, t.accepted, s.released, s.published, t.published);
    }
  }

  lemma CountedShape(s: State)
    requires Counted(s)
    ensures Shape(s)
  {
  }
}
