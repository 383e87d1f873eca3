/**
 The two descriptions of picoarch/libpicofe/sndout_sdl.c meet: a call of the interleaved system whose
 steps nothing interrupts does to the ring what the method of class `Ring` does.
 */
module SndSequential {
  import opened Arith
  import opened SndRing
  import opened SndInterleaved

  lemma SlotOfSum(j: nat, i: nat)
    requires i < BUF_LEN
    ensures Slot(j + i) == if Slot(j) + i < BUF_LEN then Slot(j) + i else Slot(j) + i - BUF_LEN
  {
  }

  lemma UnreadAt(b: seq<int>, r: nat, w: nat, i: nat)
    requires |b| == BUF_LEN && r < BUF_LEN && w < BUF_LEN && i < Mask(w - r)
    ensures Unread(b, r, w)[i] == b[if r + i < BUF_LEN then r + i else r + i - BUF_LEN]
  {
  }

  /** The slots of the unread samples are those between the two indices. */
  lemma PendingIsUnread(s: State)
    requires Counted(s)
    ensures Pending(s) == Unread(s.buf, s.r, s.w)
  {
    hide Mask, Slot, Unread;
    SlotDifference(s.released, s.published);
    forall i | 0 <= i < s.published - s.released
      ensures Pending(s)[i] == Unread(s.buf, s.r, s.w)[i]
    {
      SlotOfSum(s.released, i);
      UnreadAt(s.buf, s.r, s.w, i);
    }
  }

  /** What the invariant says between calls. */
  lemma InvFacts(s: State)
    requires Inv(s)
    ensures Shape(s) && s.released <= s.published <= |s.accepted| && s.published - s.released <= BUF_LEN - 2
    ensures s.writer.Waiting? ==> |s.accepted| == s.published
    ensures s.reader.Silent? ==> |s.taken| == s.released
    ensures |s.taken| <= |s.accepted| && s.taken == s.accepted[..|s.taken|]
    ensures Unread(s.buf, s.r, s.w) == s.accepted[s.released..s.published]
  {
    hide Mask, Slot, Unread, Pending;
    PendingIsUnread(s);
    PendingIsAccepted(s);
  }

  function Repeat(e: Event, n: nat): seq<Event> {
    if n == 0 then [] else [e] + Repeat(e, n - 1)
  }

  lemma RunFirst(s: State, e: Event, n: nat)
    requires n > 0
    ensures Run(s, Repeat(e, n)) == Run(Next(s, e), Repeat(e, n - 1))
  {
  }

  lemma RunNone(s: State, e: Event)
    ensures Run(s, Repeat(e, 0)) == s
  {
  }

  // ----- the writer alone

  /** Steps the writer has before it. */
  function WriterSteps(s: State): nat
    requires Shape(s)
  {
    match s.writer
    case Waiting => 0
    case Copying(chunk, k, wraps, rest) => |chunk| - k + 1 + if wraps then |rest| + 1 else 0
  }

  /** Only the writer has moved, and no sample was promised. */
  ghost predicate WriterOnly(s: State, t: State) {
    t.r == s.r && t.reader == s.reader && t.accepted == s.accepted && t.taken == s.taken && t.released == s.released
  }

  lemma {:induction false} WriterFinishes(s: State)
    requires Inv(s)
    ensures var t := Run(s, Repeat(WriterMoves, WriterSteps(s)));
            Inv(t) && t.writer.Waiting? && WriterOnly(s, t)
    decreases WriterSteps(s)
  {
    hide Run, Repeat, Inv;
    if s.writer.Waiting? {
      RunNone(s, WriterMoves);
    } else {
      WriterMovesOn(s);
      NextInv(s, WriterMoves);
      RunFirst(s, WriterMoves, WriterSteps(s));
      WriterFinishes(Next(s, WriterMoves));
    }
  }

  lemma WriterMovesOn(s: State)
    requires Inv(s) && s.writer.Copying?
    ensures var t := Next(s, WriterMoves);
            Shape(t) && WriterSteps(t) == WriterSteps(s) - 1 && WriterOnly(s, t)
  {
    hide Mask, Slot;
    NextInv(s, WriterMoves);
  }

  /** A call of the writer with all its steps. */
  function WriteCall(s: State, samples: seq<int>): State {
    var begun := Next(s, CallWrite(samples));
    if Shape(begun) then Run(begun, Repeat(WriterMoves, WriterSteps(begun))) else begun
  }

  lemma Lengthened(a: seq<int>, more: seq<int>, i: nat)
    requires i <= |a|
    ensures (a + more)[i..] == a[i..] + more
  {
  }

  /** The samples that fit in a ring that holds `c`. */
  function Accepted(c: seq<int>, samples: seq<int>): seq<int> {
    if |c| + |samples| <= BUF_LEN - 2 then samples
    else if |c| <= BUF_LEN - 2 then samples[..BUF_LEN - 2 - |c|]
    else []
  }

  lemma FitIs(c: seq<int>, samples: seq<int>)
    requires |c| <= BUF_LEN - 2
    ensures Accepted(c, samples) == samples[..Min(|samples|, BUF_LEN - 2 - |c|)]
  {
  }

  /** A write that nothing interrupts: the contract of `Ring.WriteNb`, while the reader stands anywhere. */
  lemma WriteAlone(s: State, samples: seq<int>)
    requires Inv(s) && s.writer.Waiting?
    ensures Inv(WriteCall(s, samples)) && Shape(s) && Shape(WriteCall(s, samples))
    ensures var t, c := WriteCall(s, samples), Unread(s.buf, s.r, s.w);
            && t.writer.Waiting? && t.r == s.r && t.reader == s.reader && t.taken == s.taken
            && Unread(t.buf, t.r, t.w) == c + Accepted(c, samples)
  {
    hide Run, Repeat, Unread, Inv, Next, Accepted, Mask;
    var begun, t := Next(s, CallWrite(samples)), WriteCall(s, samples);
    NextInv(s, CallWrite(samples));
    InvFacts(s);
    InvFacts(begun);
    WriterFinishes(begun);
    InvFacts(t);
    var c := Unread(s.buf, s.r, s.w);
    WritePromises(s, samples);
    FitIs(c, samples);
    Lengthened(s.accepted, Accepted(c, samples), s.released);
    assert t.accepted[s.released..t.published] == t.accepted[s.released..];
    assert s.accepted[s.released..s.published] == s.accepted[s.released..];
  }

  // ----- the callback alone

  function ReaderSteps(s: State): nat
    requires Shape(s)
  {
    match s.reader
    case Silent => 0
    case Reading(count, k, wraps, more) => count - k + 1 + if wraps then more + 1 else 0
  }

  /** Samples the callback has before it. */
  function StillToTake(s: State): int {
    match s.reader
    case Silent => 0
    case Reading(count, k, wraps, more) => count - k + more
  }

  /** Only the callback has moved, towards the same end. */
  ghost predicate ReaderOnly(s: State, t: State) {
    && t.w == s.w && t.buf == s.buf && t.writer == s.writer && t.accepted == s.accepted && t.published == s.published
    && |t.taken| + StillToTake(t) == |s.taken| + StillToTake(s)
  }

  lemma {:induction false} ReaderFinishes(s: State)
    requires Inv(s)
    ensures var t := Run(s, Repeat(ReaderMoves, ReaderSteps(s)));
            Inv(t) && t.reader.Silent? && ReaderOnly(s, t)
    decreases ReaderSteps(s)
  {
    hide Run, Repeat, Inv;
    if s.reader.Silent? {
      RunNone(s, ReaderMoves);
    } else {
      ReaderMovesOn(s);
      NextInv(s, ReaderMoves);
      RunFirst(s, ReaderMoves, ReaderSteps(s));
      ReaderFinishes(Next(s, ReaderMoves));
    }
  }

  lemma ReaderMovesOn(s: State)
    requires Inv(s) && s.reader.Reading?
    ensures var t := Next(s, ReaderMoves);
            Shape(t) && ReaderSteps(t) == ReaderSteps(s) - 1 && ReaderOnly(s, t)
  {
    hide Mask, Slot;
    NextInv(s, ReaderMoves);
  }

  /** A callback with all its steps. */
  function AudioCall(s: State, n: nat): State {
    var begun := Next(s, CallAudio(n));
    if Shape(begun) then Run(begun, Repeat(ReaderMoves, ReaderSteps(begun))) else begun
  }

  lemma Split(a: seq<int>, i: nat, j: nat, k: nat)
    requires i + k <= j <= |a|
    ensures a[..i + k] == a[..i] + a[i..j][..k] && a[i + k..j] == a[i..j][k..]
  {
  }

  /** From `i` samples taken to `k` more. */
  lemma TakenPart(a: seq<int>, before: seq<int>, after: seq<int>, i: nat, i': nat, j: nat, k: nat)
    requires i + k <= j <= |a| && i' == i + k
    requires |before| == i && before == a[..i] && |after| == i' && after == a[..i']
    ensures after == before + a[i..j][..k] && a[i'..j] == a[i..j][k..]
  {
    Split(a, i, j, k);
  }

  /** A callback that nothing interrupts: the contract of `Ring.Callback`, up to the silence behind. */
  lemma CallbackAlone(s: State, n: nat)
    requires Inv(s) && s.reader.Silent?
    ensures Inv(AudioCall(s, n)) && Shape(s) && Shape(AudioCall(s, n))
    ensures var t, c := AudioCall(s, n), Unread(s.buf, s.r, s.w);
            && t.reader.Silent? && t.buf == s.buf && t.w == s.w && t.writer == s.writer
            && t.taken == s.taken + c[..Min(n, |c|)]
            && Unread(t.buf, t.r, t.w) == c[Min(n, |c|)..]
  {
    hide Run, Repeat, Unread, Inv, Next, Mask;
    var begun, t := Next(s, CallAudio(n)), AudioCall(s, n);
    NextInv(s, CallAudio(n));
    InvFacts(s);
    InvFacts(begun);
    ReaderFinishes(begun);
    InvFacts(t);
    AudioTakes(s, n);
    TakenPart(s.accepted, s.taken, t.taken, s.released, t.released, s.published, Min(n, s.published - s.released));
  }
}
