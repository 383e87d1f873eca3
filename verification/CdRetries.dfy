/**
 Commands, retries and the cache of picoarch/libretro-common/cdrom/cdrom.c: which refusals a read survives,
 what it costs when all is refused, and when a frame comes from the cache.
 */
module CdRetries {
  import opened CdAddress
  import opened CdRead
  import opened CdProperties
  import opened Memory

  // ----- refusals that a read survives

  /** Commands number `n` in `refused` are refused with a passing error, all others get the disc's frame. */
  ghost predicate Refuses(drive: Drive, disc: Disc, refused: set<nat>) {
    forall n, lba ::
      if n in refused then drive(n, lba).Failed? && drive(n, lba).key in {0, 2, 3, 4, 6}
      else drive(n, lba) == Data(disc(lba))
  }

  /** Refusals still to come from command `c` on. */
  function Ahead(refused: set<nat>, c: nat): set<nat> {
    set n | n in refused && n >= c
  }

  lemma OneLess(refused: set<nat>, c: nat)
    ensures c in refused ==> |Ahead(refused, c + 1)| == |Ahead(refused, c)| - 1
    ensures c !in refused ==> Ahead(refused, c + 1) == Ahead(refused, c)
    ensures |Ahead(refused, 0)| == |refused|
  {
    if c in refused {
      assert Ahead(refused, c) == Ahead(refused, c + 1) + {c};
    }
    assert Ahead(refused, 0) == refused;
  }

  lemma Fewer(refused: set<nat>, c: nat, d: nat)
    requires c <= d
    ensures |Ahead(refused, d)| <= |Ahead(refused, c)|
    decreases d - c
  {
    if c < d {
      OneLess(refused, c);
      Fewer(refused, c + 1, d);
    }
  }

  lemma {:induction false} AttemptSurvives(drive: Drive, disc: Disc, refused: set<nat>, lba: nat, commands: nat,
                                           retries: nat)
    requires Refuses(drive, disc, refused) && |Ahead(refused, commands)| <= retries
    ensures var o := Attempt(drive, lba, commands, retries);
            o.data == Data(disc(lba)) && |Ahead(refused, o.commands)| <= o.retries
    decreases retries
  {
    hide Ahead;
    OneLess(refused, commands);
    if commands in refused {
      AttemptSurvives(drive, disc, refused, lba, commands + 1, retries - 1);
    }
  }

  /** Nothing has failed, and the retries left cover the refusals still to come. */
  ghost predicate Survives(refused: set<nat>, p: Progress) {
    !p.failed && |Ahead(refused, p.commands)| <= p.retries
  }

  lemma FrameSurvives(drive: Drive, disc: Disc, refused: set<nat>, lba: nat, i: nat, len: nat, skip: nat, p: Progress)
    requires skip <= FRAME && i < Frames(len, skip) && InStep(p, i, len, skip)
    requires Refuses(drive, disc, refused) && Survives(refused, p)
    ensures Survives(refused, OneFrame(drive, lba, i, len, skip, p))
  {
    hide Frames, InStep, CopyLength, Attempt, Refuses, Ahead;
    AttemptSurvives(drive, disc, refused, lba, p.commands, p.retries);
  }

  lemma {:induction false} FramesSurvive(drive: Drive, disc: Disc, refused: set<nat>, start: nat, i: nat, len: nat,
                                         skip: nat, p: Progress)
    requires skip <= FRAME && i <= Frames(len, skip) && InStep(p, i, len, skip)
    requires Refuses(drive, disc, refused) && Survives(refused, p)
    ensures Survives(refused, ReadFrames(drive, start, i, len, skip, p))
    decreases Frames(len, skip) - i
  {
    hide Frames, InStep, OneFrame, Survives, Refuses;
    if i < Frames(len, skip) {
      var q := OneFrame(drive, Wrapped(start + i), i, len, skip, p);
      OneFrameInStep(drive, Wrapped(start + i), i, len, skip, p);
      FrameSurvives(drive, disc, refused, Wrapped(start + i), i, len, skip, p);
      FramesSurvive(drive, disc, refused, start, i + 1, len, skip, q);
    }
  }

  /** Up to ten passing errors in one call, wherever they fall, and the caller has the disc's bytes all the same. */
  lemma TenRefusalsAreSurvived(drive: Drive, disc: Disc, refused: set<nat>, start: nat, len: nat, skip: nat, buf: Bytes,
                               cache: Cache)
    requires skip <= FRAME && len <= |buf| && len + skip > 0 && CacheHonest(cache, disc)
    requires Refuses(drive, disc, refused) && |refused| <= 10
    ensures var p := Read(drive, start, len, skip, buf, cache);
            && p.rv == 0 && |p.buf| == |buf|
            && (forall k :: 0 <= k < len ==> p.buf[k] == DiscByte(disc, start, skip + k))
            && (forall k :: len <= k < |buf| ==> p.buf[k] == buf[k])
  {
    hide Ahead, ReadFrames, DiscByte, CacheHonest, Frames;
    OneLess(refused, 0);
    FramesSurvive(drive, disc, refused, start, 0, len, skip, Begin(len, skip, buf, cache));
    ReadGetsDiscBytes(drive, disc, start, len, skip, buf, cache);
  }

  // ----- refusals that it does not survive

  /** Any other error ends the frame with its first command. */
  lemma OtherErrorsAreFinal(drive: Drive, lba: nat, commands: nat, retries: nat)
    requires drive(commands, lba).Failed? && drive(commands, lba).key !in {0, 2, 3, 4, 6}
    ensures Attempt(drive, lba, commands, retries) == Outcome(drive(commands, lba), commands + 1, retries)
  {
  }

  lemma {:induction false} AttemptInVain(drive: Drive, lba: nat, commands: nat, retries: nat)
    requires forall n, a :: drive(n, a) == Failed(3)
    ensures Attempt(drive, lba, commands, retries) == Outcome(Failed(3), commands + retries + 1, 0)
    decreases retries
  {
    if retries > 0 {
      AttemptInVain(drive, lba, commands + 1, retries - 1);
    }
  }

  lemma {:induction false} FramesInVain(drive: Drive, start: nat, i: nat, len: nat, skip: nat, p: Progress)
    requires skip <= FRAME && i <= Frames(len, skip) && InStep(p, i, len, skip)
    requires forall n, a :: drive(n, a) == Failed(3)
    requires !p.cache.valid
    ensures ReadFrames(drive, start, i, len, skip, p) ==
            if i == Frames(len, skip) then p
            else p.(rv := 1, failed := true, retries := 0, commands := p.commands + p.retries + Frames(len, skip) - i)
    decreases Frames(len, skip) - i
  {
    hide Frames, InStep, Attempt, Delivered;
    if i < Frames(len, skip) {
      var lba := Wrapped(start + i);
      AttemptInVain(drive, lba, p.commands, p.retries);
      OneFrameInStep(drive, lba, i, len, skip, p);
      FramesInVain(drive, start, i + 1, len, skip, OneFrame(drive, lba, i, len, skip, p));
    }
  }

  /** A drive that always refuses gets exactly one command per frame and ten more; the caller's buffer is as before. */
  lemma AllRefused(drive: Drive, start: nat, len: nat, skip: nat, buf: Bytes, cache: Cache)
    requires skip <= FRAME && len <= |buf| && len + skip > 0 && !cache.valid
    requires forall n, a :: drive(n, a) == Failed(3)
    ensures var p := Read(drive, start, len, skip, buf, cache);
            p.rv == 1 && p.commands == Frames(len, skip) + 10 && p.buf == buf && !p.cache.valid
  {
    hide ReadFrames;
    FramesInVain(drive, start, 0, len, skip, Begin(len, skip, buf, cache));
  }

  /** A call that returns an error has dropped the cache. */
  lemma ErrorDropsCache(drive: Drive, start: nat, len: nat, skip: nat, buf: Bytes, cache: Cache)
    requires skip <= FRAME && len <= |buf|
    ensures var p := Read(drive, start, len, skip, buf, cache); p.rv != 0 ==> !p.cache.valid
  {
    hide ReadFrames;
  }

  // ----- the cache

  /** What a drive that answers everything leaves in the cache after the frame at `lba`. */
  function CacheAfter(disc: Disc, lba: nat): Cache {
    Cache(true, CacheAddress(lba), disc(lba))
  }

  /** Frames that are not in the cache cost one command each, and the last of them stays there. */
  lemma {:induction false} FramesAnswered(drive: Drive, disc: Disc, start: nat, i: nat, len: nat, skip: nat,
                                          p: Progress)
    requires skip <= FRAME && i <= Frames(len, skip) && InStep(p, i, len, skip)
    requires forall n, lba :: drive(n, lba) == Data(disc(lba))
    requires p.cache.valid ==> p.cache.lba != Wrapped(start + i)
    ensures var q := ReadFrames(drive, start, i, len, skip, p);
            if i == Frames(len, skip) then q == p
            else
              && q.commands == p.commands + Frames(len, skip) - i && q.rv == 0
              && q.cache == CacheAfter(disc, Wrapped(start + Frames(len, skip) - 1))
    decreases Frames(len, skip) - i
  {
    hide Frames, InStep, CopyLength, Splice, Wrapped;
    if i < Frames(len, skip) {
      var lba := Wrapped(start + i);
      WrappedNext(start + i);
      OneFrameInStep(drive, lba, i, len, skip, p);
      FramesAnswered(drive, disc, start, i + 1, len, skip, OneFrame(drive, lba, i, len, skip, p));
    }
  }

  lemma FirstFrame(drive: Drive, start: nat, len: nat, skip: nat, p: Progress)
    requires skip <= FRAME && 0 < Frames(len, skip) && InStep(p, 0, len, skip)
    ensures InStep(OneFrame(drive, Wrapped(start), 0, len, skip, p), 1, len, skip)
    ensures ReadFrames(drive, start, 0, len, skip, p) ==
            ReadFrames(drive, start, 1, len, skip, OneFrame(drive, Wrapped(start), 0, len, skip, p))
  {
    hide Frames, InStep, OneFrame;
    OneFrameInStep(drive, Wrapped(start), 0, len, skip, p);
  }

  /**
   With a drive that answers everything: one command per frame, except for a first frame in the cache.
   The last frame is cached afterwards, unless it came from the cache itself, which is then empty.
   */
  lemma CacheSavesOneCommand(drive: Drive, disc: Disc, start: nat, len: nat, skip: nat, buf: Bytes, cache: Cache)
    requires skip <= FRAME && len <= |buf| && len + skip > 0
    requires forall n, lba :: drive(n, lba) == Data(disc(lba))
    ensures var p, frames, hit := Read(drive, start, len, skip, buf, cache), Frames(len, skip),
                                  cache.valid && cache.lba == Wrapped(start);
            && frames > 0 && p.rv == 0 && p.commands == frames - (if hit then 1 else 0)
            && (if hit && frames == 1 then !p.cache.valid
                else p.cache == CacheAfter(disc, Wrapped(start + frames - 1)))
  {
    hide Frames, Wrapped, ReadFrames, CopyLength, Splice, CacheAfter;
    FramesCoverAll(len, skip);
    var p := Begin(len, skip, buf, cache);
    if cache.valid && cache.lba == Wrapped(start) {
      FirstFrame(drive, start, len, skip, p);
      FramesAnswered(drive, disc, start, 1, len, skip, OneFrame(drive, Wrapped(start), 0, len, skip, p));
    } else {
      FramesAnswered(drive, disc, start, 0, len, skip, p);
    }
  }

  lemma FramesCoverAll(len: nat, skip: nat)
    requires len + skip > 0
    ensures Frames(len, skip) > 0
  {
  }

  /** A raw frame has 2352 bytes. */
  lemma FramesIsCeiling(len: nat, skip: nat)
    ensures Frames(len, skip) == (len + skip + 2351) / 2352
  {
  }
}
