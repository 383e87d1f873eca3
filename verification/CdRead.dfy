/**
 The read path of `cdrom_send_command` and `cdrom_read` (picoarch/libretro-common/cdrom/cdrom.c): a
 request in bytes is split into frames, one frame is cached, and ten retries are shared by the call.

 The drive is a function: its answer to the n-th command of the call, asking for an address.
 A failed command leaves the transfer buffer alone.
 */
module CdRead {
  import opened CdAddress
  import opened Memory

  const FRAME: nat := 2352
  const MAX_RETRIES: nat := 10

  type Bytes = seq<int>

  /** The bytes of one raw frame. */
  type Sector = b: Bytes | |b| == FRAME witness seq(FRAME, _ => 0)

  datatype Answer = Data(bytes: Sector) | Failed(key: nat)

  type Drive = (nat, nat) -> Answer

  datatype Cache = Cache(valid: bool, lba: int, frame: Sector)

  /**
   Where a call stands: bytes copied to the caller, position in the transfer buffer, both buffers,
   the cache, retries left, commands issued, the return value so far, and whether a frame ever failed.
   */
  datatype Progress = Progress(
    copied: nat, pos: nat, xfer: Bytes, buf: Bytes, cache: Cache, retries: nat, commands: nat, rv: int, failed: bool)

  /** The sense keys after which the command is sent again. */
  predicate Retried(key: nat) {
    key in {0, 2, 3, 4, 6}
  }

  /** What a frame's commands come to: the data or nothing, commands sent, retries left. */
  datatype Outcome = Outcome(data: Answer, commands: nat, retries: nat)

  function Attempt(drive: Drive, lba: nat, commands: nat, retries: nat): (o: Outcome)
    ensures o.commands + o.retries == commands + 1 + retries && o.retries <= retries
    ensures o.commands > commands && o.data == drive(o.commands - 1, lba)
    decreases retries
  {
    var a := drive(commands, lba);
    if a.Failed? && Retried(a.key) && retries > 0
    then Attempt(drive, lba, commands + 1, retries - 1)
    else Outcome(a, commands + 1, retries)
  }

  /** How many frames cover `len` bytes from `skip` bytes into the first. */
  function Frames(len: nat, skip: nat): (n: nat)
    ensures FRAME * n >= len + skip && (n > 0 ==> FRAME * (n - 1) < len + skip)
  {
    (len + skip + FRAME - 1) / FRAME
  }

  /** Positions before frame `i`: what was copied matches what was transferred, whichever frames failed. */
  ghost predicate InStep(p: Progress, i: nat, len: nat, skip: nat) {
    && |p.xfer| == FRAME * Frames(len, skip) && len <= |p.buf| && p.retries <= MAX_RETRIES
    && (i == 0 ==> p.pos == 0 && p.copied == 0)
    && (0 < i < Frames(len, skip) ==>
          || (FRAME <= p.pos <= FRAME * i && p.copied == p.pos - skip)
          || (p.pos <= FRAME * (i - 1) && p.copied == p.pos))
  }

  /** Bytes frame `i` gives to the caller. */
  function CopyLength(i: nat, len: nat, skip: nat, copied: nat): int {
    if i + 1 == Frames(len, skip) then len - copied else if i == 0 then FRAME - skip else FRAME
  }

  lemma CopyFits(p: Progress, i: nat, len: nat, skip: nat)
    requires skip <= FRAME && i < Frames(len, skip) && InStep(p, i, len, skip)
    ensures var from := p.pos + if i == 0 then skip else 0;
            var n := CopyLength(i, len, skip, p.copied);
            0 <= n && p.pos + FRAME <= |p.xfer| && from + n <= |p.xfer| && p.copied + n <= len
  {
  }

  /**
   The address under which a frame is cached: one below the address after it, as an unsigned number, so
   the last address before the wrap is cached under one that no request has.
   */
  function CacheAddress(lba: nat): nat {
    if lba + 1 == ADDRESSES then 0xFFFF_FFFF else lba
  }

  /** A frame obtained: it goes to the transfer buffer, and the part asked for to the caller. */
  function Delivered(i: nat, len: nat, skip: nat, p: Progress, data: Sector): Progress
    requires skip <= FRAME && i < Frames(len, skip) && InStep(p, i, len, skip)
  {
    CopyFits(p, i, len, skip);
    var from, n := p.pos + (if i == 0 then skip else 0), CopyLength(i, len, skip, p.copied);
    var xfer := Splice(p.xfer, p.pos, data);
    p.(xfer := xfer, rv := 0, buf := Splice(p.buf, p.copied, xfer[from..from + n]), copied := p.copied + n,
       pos := p.pos + FRAME)
  }

  /** One round of the loop over frames, for the frame at address `lba`. */
  function OneFrame(drive: Drive, lba: nat, i: nat, len: nat, skip: nat, p: Progress): Progress
    requires skip <= FRAME && i < Frames(len, skip) && InStep(p, i, len, skip)
  {
    if p.cache.valid && p.cache.lba == lba
    then Delivered(i, len, skip, p, p.cache.frame).(cache := p.cache.(valid := false))
    else
      var o := Attempt(drive, lba, p.commands, p.retries);
      var q := p.(commands := o.commands, retries := o.retries);
      if o.data.Failed? then q.(rv := 1, failed := true)
      else Delivered(i, len, skip, q, o.data.bytes).(cache := Cache(true, CacheAddress(lba), o.data.bytes))
  }

  lemma OneFrameInStep(drive: Drive, lba: nat, i: nat, len: nat, skip: nat, p: Progress)
    requires skip <= FRAME && i < Frames(len, skip) && InStep(p, i, len, skip)
    ensures InStep(OneFrame(drive, lba, i, len, skip, p), i + 1, len, skip)
  {
    hide Frames, Splice, Attempt;
    CopyFits(p, i, len, skip);
  }

  /** The loop over frames `i` and up of a request that starts at address `start`. */
  function ReadFrames(drive: Drive, start: nat, i: nat, len: nat, skip: nat, p: Progress): Progress
    requires skip <= FRAME && i <= Frames(len, skip) && InStep(p, i, len, skip)
    decreases Frames(len, skip) - i
  {
    if i == Frames(len, skip) then p
    else
      OneFrameInStep(drive, Wrapped(start + i), i, len, skip, p);
      ReadFrames(drive, start, i + 1, len, skip, OneFrame(drive, Wrapped(start + i), i, len, skip, p))
  }

  function Begin(len: nat, skip: nat, buf: Bytes, cache: Cache): Progress {
    Progress(0, 0, seq(FRAME * Frames(len, skip), _ => 0), buf, cache, MAX_RETRIES, 0, 0, false)
  }

  /** The whole call of `cdrom_read`: an error also drops the cache. */
  function Read(drive: Drive, start: nat, len: nat, skip: nat, buf: Bytes, cache: Cache): Progress
    requires skip <= FRAME && len <= |buf|
  {
    var p := ReadFrames(drive, start, 0, len, skip, Begin(len, skip, buf, cache));
    if p.rv != 0 then p.(cache := p.cache.(valid := false)) else p
  }

  // ----- the code

  /** The cache fields of the stream. */
  class Stream {
    var lastFrameValid: bool
    var lastFrameLba: int
    var lastFrame: Sector

    constructor ()
      ensures !lastFrameValid
    {
      lastFrameValid, lastFrameLba, lastFrame := false, 0, seq(FRAME, _ => 0);
    }

    ghost function CacheNow(): Cache
      reads this
    {
      Cache(lastFrameValid, lastFrameLba, lastFrame)
    }

    /** Sends the command for one frame until it succeeds, fails for good, or the retries are used up. */
    method SendUntilAnswered(drive: Drive, lba: nat, commandsBefore: nat, retriesBefore: nat)
      returns (answer: Answer, commands: nat, retries: nat)
      ensures Outcome(answer, commands, retries) == Attempt(drive, lba, commandsBefore, retriesBefore)
    {
      commands, retries := commandsBefore, retriesBefore;
      answer := drive(commands, lba);
      commands := commands + 1;
      while answer.Failed? && Retried(answer.key) && retries > 0
        invariant commands > 0 && answer == drive(commands - 1, lba)
        invariant Attempt(drive, lba, commands - 1, retries) == Attempt(drive, lba, commandsBefore, retriesBefore)
        decreases retries
      {
        retries := retries - 1;
        answer := drive(commands, lba);
        commands := commands + 1;
      }
    }

    /** One round of the loop over frames, from the choice of the copy length on. */
    method TransferFrame(drive: Drive, lba: nat, frameEnd: nat, i: nat, rest: nat, len: nat, skip: nat,
                         buf: array<int>, ghost p: Progress, xferBefore: Bytes, posBefore: nat, copiedBefore: nat,
                         commandsBefore: nat, retriesBefore: nat)
      returns (ret: int, xfer: Bytes, pos: nat, copied: nat, commands: nat, retries: nat, ghost failed: bool)
      requires skip <= FRAME && i < Frames(len, skip) && InStep(p, i, len, skip)
      requires p == Progress(copiedBefore, posBefore, xferBefore, buf[..], CacheNow(), retriesBefore, commandsBefore,
                             p.rv, p.failed)
      requires rest == (if i == 0 then skip else 0)
      requires frameEnd == if lba + 1 == ADDRESSES then 0 else lba + 1
      modifies this, buf
      ensures OneFrame(drive, lba, i, len, skip, p) ==
              Progress(copied, pos, xfer, buf[..], CacheNow(), retries, commands, ret, failed)
    {
      hide Frames, Splice, Attempt, Delivered;
      xfer, pos, copied, commands, retries := xferBefore, posBefore, copiedBefore, commandsBefore, retriesBefore;
      failed := p.failed;
      ret := 0;
      var cachedRead := lastFrameValid && lba == lastFrameLba;
      if cachedRead {
        xfer, pos, copied := Deliver(i, rest, len, skip, buf, p, xfer, pos, copied, lastFrame);
        lastFrameValid := false;
        return;
      }
      var answer;
      answer, commands, retries := SendUntilAnswered(drive, lba, commands, retries);
      if answer.Failed? {
        ret := 1;
        failed := true;
        return;
      }
      ghost var q := p.(commands := commands, retries := retries);
      xfer, pos, copied := Deliver(i, rest, len, skip, buf, q, xfer, pos, copied, answer.bytes);
      lastFrame := answer.bytes;
      lastFrameValid := true;
      lastFrameLba := if frameEnd == 0 then 0xFFFF_FFFF else frameEnd - 1;
    }

    /** The copies for a frame that has been obtained. */
    method Deliver(i: nat, rest: nat, len: nat, skip: nat, buf: array<int>, ghost p: Progress,
                   xferBefore: Bytes, posBefore: nat, copiedBefore: nat, data: Sector)
      returns (xfer: Bytes, pos: nat, copied: nat)
      requires skip <= FRAME && i < Frames(len, skip) && InStep(p, i, len, skip)
      requires p.xfer == xferBefore && p.pos == posBefore && p.copied == copiedBefore && p.buf == buf[..]
      requires rest == (if i == 0 then skip else 0)
      modifies buf
      ensures Delivered(i, len, skip, p, data) ==
              p.(xfer := xfer, pos := pos, copied := copied, buf := buf[..], rv := 0)
    {
      hide Frames, Splice;
      CopyFits(p, i, len, skip);
      var copyLen: int := FRAME;
      if i == 0 {
        copyLen := copyLen - rest;
      }
      if i == Frames(len, skip) - 1 {
        copyLen := len - copiedBefore;
      }
      xfer := Splice(xferBefore, posBefore, data);
      CopyIn(buf, copiedBefore, xfer[posBefore + rest..posBefore + rest + copyLen]);
      copied := copiedBefore + copyLen;
      pos := posBefore + FRAME;
    }

    method CdromRead(drive: Drive, min: nat, sec: nat, frame: nat, buf: array<int>, len: nat, skip: nat)
      returns (ret: int, commands: nat)
      requires Proper(Msf(min, sec, frame))
      requires skip <= FRAME && len <= buf.Length
      modifies this, buf
      ensures var p := Read(drive, ToLba(Msf(min, sec, frame)), len, skip, old(buf[..]), old(CacheNow()));
              ret == p.rv && commands == p.commands && buf[..] == p.buf && CacheNow() == p.cache
    {
      hide ToLba, Increment, OneFrame, Frames, Wrapped;
      ghost var start := ToLba(Msf(min, sec, frame));
      ProperAddress(Msf(min, sec, frame));
      var frames := Frames(len, skip);
      var from := Msf(min, sec, frame);
      var to := from;
      var xfer := seq(FRAME * frames, _ => 0);
      var pos: nat, copied: nat := 0, 0;
      var retries: nat := MAX_RETRIES;
      var rest := skip;
      ret, commands := 0, 0;
      ghost var failed := false;
      ghost var p := Begin(len, skip, buf[..], CacheNow());
      ghost var goal := ReadFrames(drive, start, 0, len, skip, p);
      for i := 0 to frames
        invariant p == Progress(copied, pos, xfer, buf[..], CacheNow(), retries, commands, ret, failed)
        invariant InStep(p, i, len, skip) && ReadFrames(drive, start, i, len, skip, p) == goal
        invariant Proper(from) && Proper(to) && ToLba(to) == Wrapped(start + i)
        invariant ToLba(from) == if i == 0 then start else Wrapped(start + i - 1)
        invariant i == 0 ==> rest == skip
      {
        IncrementIsPlusOne(to);
        WrappedNext(start + i);
        to := Increment(to);
        if i > 0 {
          rest := 0;
          WrappedNext(start + i - 1);
          IncrementIsPlusOne(from);
          from := Increment(from);
        }
        OneFrameInStep(drive, Wrapped(start + i), i, len, skip, p);
        ret, xfer, pos, copied, commands, retries, failed := TransferFrame(
          drive, ToLba(from), ToLba(to), i, rest, len, skip, buf, p, xfer, pos, copied, commands, retries);
        p := OneFrame(drive, Wrapped(start + i), i, len, skip, p);
      }
      if ret != 0 {
        lastFrameValid := false;
      }
    }
  }
}
