/** What a read from a disc promises, and where its return value misleads. */
module CdProperties {
  import opened CdAddress
  import opened CdRead
  import opened Memory

  /** The frames on the disc. */
  type Disc = nat -> Sector

  /** The drive may fail whenever it likes, but does not make data up. */
  ghost predicate Honest(drive: Drive, disc: Disc) {
    forall n, lba :: drive(n, lba).Data? ==> drive(n, lba).bytes == disc(lba)
  }

  ghost predicate CacheHonest(c: Cache, disc: Disc) {
    c.valid && 0 <= c.lba < ADDRESSES ==> c.frame == disc(c.lba)
  }

  // ----- the cache

  lemma {:induction false} FramesKeepCacheHonest(drive: Drive, disc: Disc, start: nat, i: nat, len: nat, skip: nat,
                                                 p: Progress)
    requires skip <= FRAME && i <= Frames(len, skip) && InStep(p, i, len, skip)
    requires Honest(drive, disc) && CacheHonest(p.cache, disc)
    ensures CacheHonest(ReadFrames(drive, start, i, len, skip, p).cache, disc)
    decreases Frames(len, skip) - i
  {
    hide Frames, OneFrame, InStep, CacheHonest;
    if i < Frames(len, skip) {
      OneFrameInStep(drive, Wrapped(start + i), i, len, skip, p);
      OneFrameKeepsCacheHonest(drive, disc, Wrapped(start + i), i, len, skip, p);
      FramesKeepCacheHonest(drive, disc, start, i + 1, len, skip, OneFrame(drive, Wrapped(start + i), i, len, skip, p));
    }
  }

  lemma OneFrameKeepsCacheHonest(drive: Drive, disc: Disc, lba: nat, i: nat, len: nat, skip: nat, p: Progress)
    requires skip <= FRAME && i < Frames(len, skip) && InStep(p, i, len, skip) && lba < ADDRESSES
    requires Honest(drive, disc) && CacheHonest(p.cache, disc)
    ensures CacheHonest(OneFrame(drive, lba, i, len, skip, p).cache, disc)
  {
    hide Frames, InStep, Splice, CopyLength, Attempt;
  }

  /** Whatever fails on the way, a valid cache holds what the disc holds at its address, if it has one. */
  lemma CacheStaysHonest(drive: Drive, disc: Disc, start: nat, len: nat, skip: nat, buf: Bytes, cache: Cache)
    requires skip <= FRAME && len <= |buf| && Honest(drive, disc) && CacheHonest(cache, disc)
    ensures CacheHonest(Read(drive, start, len, skip, buf, cache).cache, disc)
  {
    FramesKeepCacheHonest(drive, disc, start, 0, len, skip, Begin(len, skip, buf, cache));
  }

  // ----- the number of commands

  lemma {:induction false} FramesBoundCommands(drive: Drive, start: nat, i: nat, len: nat, skip: nat, p: Progress)
    requires skip <= FRAME && i <= Frames(len, skip) && InStep(p, i, len, skip)
    requires p.commands + p.retries <= i + MAX_RETRIES
    ensures ReadFrames(drive, start, i, len, skip, p).commands <= Frames(len, skip) + MAX_RETRIES
    decreases Frames(len, skip) - i
  {
    hide Frames, OneFrame, InStep;
    if i < Frames(len, skip) {
      OneFrameInStep(drive, Wrapped(start + i), i, len, skip, p);
      var q := OneFrame(drive, Wrapped(start + i), i, len, skip, p);
      OneFrameBoundsCommands(drive, Wrapped(start + i), i, len, skip, p);
      FramesBoundCommands(drive, start, i + 1, len, skip, q);
    }
  }

  lemma OneFrameBoundsCommands(drive: Drive, lba: nat, i: nat, len: nat, skip: nat, p: Progress)
    requires skip <= FRAME && i < Frames(len, skip) && InStep(p, i, len, skip)
    ensures var q := OneFrame(drive, lba, i, len, skip, p);
            q.commands + q.retries <= p.commands + p.retries + 1
  {
    hide Frames, InStep, Splice, CopyLength;
  }

  /** A call sends at most one command per frame and ten more, even if everything fails. */
  lemma CommandsAreBounded(drive: Drive, start: nat, len: nat, skip: nat, buf: Bytes, cache: Cache)
    requires skip <= FRAME && len <= |buf|
    ensures Read(drive, start, len, skip, buf, cache).commands <= Frames(len, skip) + MAX_RETRIES
  {
    FramesBoundCommands(drive, start, 0, len, skip, Begin(len, skip, buf, cache));
  }

  // ----- the data

  /** Byte `k` after the beginning of frame `start`, around the end of the addresses. */
  function DiscByte(disc: Disc, start: nat, k: nat): int {
    disc(Wrapped(start + k / FRAME))[k % FRAME]
  }

  ghost predicate Copied(disc: Disc, start: nat, skip: nat, before: Bytes, p: Progress) {
    && |p.buf| == |before| && p.copied <= |p.buf|
    && (forall k :: 0 <= k < p.copied ==> p.buf[k] == DiscByte(disc, start, skip + k))
    && (forall k :: p.copied <= k < |before| ==> p.buf[k] == before[k])
  }

  /** Nothing has failed so far, and everything asked for so far is there. */
  ghost predicate Good(disc: Disc, start: nat, i: nat, len: nat, skip: nat, before: Bytes, p: Progress) {
    && !p.failed && p.rv == 0 && p.pos == FRAME * i
    && p.copied == (if i == Frames(len, skip) then len else if i == 0 then 0 else FRAME * i - skip)
    && Copied(disc, start, skip, before, p)
  }

  lemma DiscByteInFrame(disc: Disc, start: nat, i: nat, j: nat)
    requires j < FRAME
    ensures DiscByte(disc, start, FRAME * i + j) == disc(Wrapped(start + i))[j]
  {
    assert (FRAME * i + j) / FRAME == i && (FRAME * i + j) % FRAME == j;
  }

  /** A frame copied behind what is there. */
  lemma CopyOneFrame(disc: Disc, start: nat, i: nat, skip: nat, before: Bytes, p: Progress, data: Sector,
                     at: nat, n: nat)
    requires Copied(disc, start, skip, before, p) && data == disc(Wrapped(start + i))
    requires at + n <= FRAME && p.copied + n <= |p.buf| && skip + p.copied == FRAME * i + at
    ensures Copied(disc, start, skip, before,
                   p.(buf := Splice(p.buf, p.copied, data[at..at + n]), copied := p.copied + n))
  {
    hide DiscByte;
    var buf := Splice(p.buf, p.copied, data[at..at + n]);
    forall k | p.copied <= k < p.copied + n
      ensures buf[k] == DiscByte(disc, start, skip + k)
    {
      DiscByteInFrame(disc, start, i, at + k - p.copied);
    }
  }

  lemma SliceOfSplice(b: Bytes, pos: nat, data: Bytes, at: nat, n: nat)
    requires pos + |data| <= |b| && at + n <= |data|
    ensures Splice(b, pos, data)[pos + at..pos + at + n] == data[at..at + n]
  {
  }

  lemma OneFrameGood(drive: Drive, disc: Disc, start: nat, i: nat, len: nat, skip: nat, before: Bytes, p: Progress)
    requires skip <= FRAME && i < Frames(len, skip) && InStep(p, i, len, skip)
    requires Honest(drive, disc) && CacheHonest(p.cache, disc) && Good(disc, start, i, len, skip, before, p)
    requires !OneFrame(drive, Wrapped(start + i), i, len, skip, p).failed
    ensures Good(disc, start, i + 1, len, skip, before, OneFrame(drive, Wrapped(start + i), i, len, skip, p))
  {
    hide Splice, Frames, Attempt, Copied;
    CopyFits(p, i, len, skip);
    FramesCover(len, skip, i);
    var at, n := if i == 0 then skip else 0, CopyLength(i, len, skip, p.copied);
    var lba := Wrapped(start + i);
    var data := if p.cache.valid && p.cache.lba == lba then p.cache.frame
                else Attempt(drive, lba, p.commands, p.retries).data.bytes;
    assert data == disc(lba);
    SliceOfSplice(p.xfer, p.pos, data, at, n);
    CopyOneFrame(disc, start, i, skip, before, p, data, at, n);
    CopiedFrame(disc, start, skip, before, p.(buf := Splice(p.buf, p.copied, data[at..at + n]), copied := p.copied + n),
                OneFrame(drive, lba, i, len, skip, p));
  }

  lemma FramesCover(len: nat, skip: nat, i: nat)
    requires i < Frames(len, skip)
    ensures FRAME * (i + 1) >= len + skip <==> i + 1 == Frames(len, skip)
    ensures FRAME * i < len + skip
  {
  }

  lemma CopiedFrame(disc: Disc, start: nat, skip: nat, before: Bytes, p: Progress, q: Progress)
    requires Copied(disc, start, skip, before, p) && p.buf == q.buf && p.copied == q.copied
    ensures Copied(disc, start, skip, before, q)
  {
  }

  lemma FailedStays(drive: Drive, lba: nat, i: nat, len: nat, skip: nat, p: Progress)
    requires skip <= FRAME && i < Frames(len, skip) && InStep(p, i, len, skip)
    ensures p.failed ==> OneFrame(drive, lba, i, len, skip, p).failed
  {
    hide Frames, InStep, Splice, CopyLength, Attempt;
  }

  lemma {:induction false} FramesGood(drive: Drive, disc: Disc, start: nat, i: nat, len: nat, skip: nat, before: Bytes,
                                      p: Progress)
    requires skip <= FRAME && i <= Frames(len, skip) && InStep(p, i, len, skip)
    requires Honest(drive, disc) && CacheHonest(p.cache, disc)
    requires Good(disc, start, i, len, skip, before, p) || p.failed
    ensures var q := ReadFrames(drive, start, i, len, skip, p);
            q.failed || Good(disc, start, Frames(len, skip), len, skip, before, q)
    decreases Frames(len, skip) - i
  {
    hide Frames, Good, OneFrame, CacheHonest, InStep;
    if i < Frames(len, skip) {
      OneFrameInStep(drive, Wrapped(start + i), i, len, skip, p);
      OneFrameKeepsCacheHonest(drive, disc, Wrapped(start + i), i, len, skip, p);
      FailedStays(drive, Wrapped(start + i), i, len, skip, p);
      var q := OneFrame(drive, Wrapped(start + i), i, len, skip, p);
      if !q.failed {
        OneFrameGood(drive, disc, start, i, len, skip, before, p);
      }
      FramesGood(drive, disc, start, i + 1, len, skip, before, q);
    }
  }

  /** When no frame fails, the caller has exactly the bytes asked for and the call returns 0. */
  lemma ReadGetsDiscBytes(drive: Drive, disc: Disc, start: nat, len: nat, skip: nat, buf: Bytes, cache: Cache)
    requires skip <= FRAME && len <= |buf| && Honest(drive, disc) && CacheHonest(cache, disc)
    requires len + skip > 0
    ensures var p := Read(drive, start, len, skip, buf, cache);
            !p.failed ==>
              && p.rv == 0 && |p.buf| == |buf|
              && (forall k :: 0 <= k < len ==> p.buf[k] == DiscByte(disc, start, skip + k))
              && (forall k :: len <= k < |buf| ==> p.buf[k] == buf[k])
  {
    FramesGood(drive, disc, start, 0, len, skip, buf, Begin(len, skip, buf, cache));
  }

  // ----- the return value

  /** The state after the frames `i` to `n - 1`. */
  function UpTo(drive: Drive, start: nat, i: nat, n: nat, len: nat, skip: nat, p: Progress): (q: Progress)
    requires skip <= FRAME && i <= n <= Frames(len, skip) && InStep(p, i, len, skip)
    ensures InStep(q, n, len, skip)
    decreases n - i
  {
    if i == n then p
    else
      OneFrameInStep(drive, Wrapped(start + i), i, len, skip, p);
      UpTo(drive, start, i + 1, n, len, skip, OneFrame(drive, Wrapped(start + i), i, len, skip, p))
  }

  lemma {:induction false} LastFrameComesLast(drive: Drive, start: nat, i: nat, len: nat, skip: nat, p: Progress)
    requires skip <= FRAME && i < Frames(len, skip) && InStep(p, i, len, skip)
    ensures var last := Frames(len, skip) - 1;
            ReadFrames(drive, start, i, len, skip, p) ==
            OneFrame(drive, Wrapped(start + last), last, len, skip, UpTo(drive, start, i, last, len, skip, p))
    decreases Frames(len, skip) - i
  {
    hide Frames, InStep, OneFrame;
    OneFrameInStep(drive, Wrapped(start + i), i, len, skip, p);
    if i + 1 < Frames(len, skip) {
      LastFrameComesLast(drive, start, i + 1, len, skip, OneFrame(drive, Wrapped(start + i), i, len, skip, p));
    }
  }

  /** Does frame `i` come from the cache or from the drive? */
  predicate FrameObtained(drive: Drive, lba: nat, p: Progress) {
    (p.cache.valid && p.cache.lba == lba) || Attempt(drive, lba, p.commands, p.retries).data.Data?
  }

  lemma OneFrameReturns(drive: Drive, lba: nat, i: nat, len: nat, skip: nat, p: Progress)
    requires skip <= FRAME && i < Frames(len, skip) && InStep(p, i, len, skip)
    ensures OneFrame(drive, lba, i, len, skip, p).rv == 0 <==> FrameObtained(drive, lba, p)
    ensures OneFrame(drive, lba, i, len, skip, p).failed <==> p.failed || !FrameObtained(drive, lba, p)
  {
    hide Frames, InStep, Splice, CopyLength, Attempt;
  }

  /**
   The call returns 0 exactly when its last frame was obtained; it says nothing about the others.
   So an error went unreported exactly when an earlier frame failed and the last did not.
   */
  lemma ReturnIsLastFrame(drive: Drive, start: nat, len: nat, skip: nat, buf: Bytes, cache: Cache)
    requires skip <= FRAME && len <= |buf| && len + skip > 0
    ensures Frames(len, skip) > 0
    ensures var last, r := Frames(len, skip) - 1, Read(drive, start, len, skip, buf, cache);
            var q := UpTo(drive, start, 0, last, len, skip, Begin(len, skip, buf, cache));
            && (r.rv == 0 <==> FrameObtained(drive, Wrapped(start + last), q))
            && (r.rv == 0 && r.failed <==> q.failed && FrameObtained(drive, Wrapped(start + last), q))
  {
    var last, p := Frames(len, skip) - 1, Begin(len, skip, buf, cache);
    LastFrameComesLast(drive, start, 0, len, skip, p);
    OneFrameReturns(drive, Wrapped(start + last), last, len, skip, UpTo(drive, start, 0, last, len, skip, p));
  }

  /**
   Two frames, the first of which the drive refuses for good: the call returns 0 with the second
   frame in the place of the first.
   */
  lemma FailureCanBeHidden(disc: Disc, start: nat, buf: Bytes, drive: Drive)
    requires |buf| == 2 * FRAME
    requires forall n, lba :: drive(n, lba) == if lba == Wrapped(start) then Failed(5) else Data(disc(lba))
    ensures Honest(drive, disc)
    ensures var p := Read(drive, start, 2 * FRAME, 0, buf, Cache(false, 0, disc(0)));
            p.rv == 0 && p.failed && |p.buf| == |buf| && p.buf[..FRAME] == disc(Wrapped(start + 1))
  {
    var len := 2 * FRAME;
    assert Frames(len, 0) == 2;
    var p0 := Begin(len, 0, buf, Cache(false, 0, disc(0)));
    OneFrameInStep(drive, Wrapped(start), 0, len, 0, p0);
    var p1 := OneFrame(drive, Wrapped(start), 0, len, 0, p0);
    assert p1 == p0.(rv := 1, failed := true, commands := 1);
    OneFrameInStep(drive, Wrapped(start + 1), 1, len, 0, p1);
    var p2 := OneFrame(drive, Wrapped(start + 1), 1, len, 0, p1);
    SecondFrameFirst(disc(Wrapped(start + 1)), p1.xfer, buf);
    assert ReadFrames(drive, start, 1, len, 0, p1) == ReadFrames(drive, start, 2, len, 0, p2);
  }

  lemma SecondFrameFirst(data: Sector, xfer: Bytes, buf: Bytes)
    requires |xfer| == |buf| == 2 * FRAME
    ensures Splice(buf, 0, Splice(xfer, 0, data)[0..2 * FRAME])[..FRAME] == data
  {
  }
}
