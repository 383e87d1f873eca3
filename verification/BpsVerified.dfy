/**
 What an accepted BPS patch has proved about itself: both sizes and all three checksums.  So a patch for another
 source, a patch whose actions do not build its target, and a damaged patch are refused.
 */
module BpsVerified {
  import opened Words
  import opened BpsNumber
  import opened BpsActions
  import opened BpsMachine
  import opened BpsPatch
  import opened BpsProperties
  import opened Crc32
  import opened Patch

  // ----- any patch

  /** Whatever the bytes: acceptance means that sizes and checksums are those that the patch names. */
  lemma AcceptedIsVerified(input: seq<byte>, patch: seq<byte>, out: seq<byte>, W: nat, result: seq<byte>)
    requires W > 0 && BpsReply(input, patch, Some(out), |out|, W) == Reply(0, |out|, result)
    ensures |patch| >= 19 && |result| == |out|
    ensures Word32(patch, |patch| - 12) == Checksum(input)
    ensures Word32(patch, |patch| - 8) == Checksum(result)
    ensures Word32(patch, |patch| - 4) == Checksum(patch[..|patch| - 4])
    ensures var source := ReadSize(patch, 4, W);
            source.Some? && source.value.value == |input| &&
            var target := ReadSize(patch, source.value.next, W);
            target.Some? && target.value.value == |out|
  {
    hide ReadSize, Run, Checksum, Word32;
    var target := ReadSize(patch, ReadSize(patch, 4, W).value.next, W).value;
    var metadata := ReadSize(patch, target.next, W).value;
    RunStopsThere(input, patch, Machine((metadata.next + metadata.value) % W, 0, 0, 0, out), W);
  }

  /** The action loop never stops in front of the checksums. */
  lemma {:induction false} RunStopsThere(input: seq<byte>, patch: seq<byte>, m: Machine, W: nat)
    requires W > 0 && Run(input, patch, m, W).Some?
    ensures Run(input, patch, m, W).value.i >= |patch| - 12
    decreases |patch| - m.i
  {
    hide Step;
    if m.i < |patch| - 12 {
      RunStopsThere(input, patch, Step(input, patch, m, W).value, W);
    }
  }

  // ----- damage

  /** The patch carries its own checksum. */
  predicate Sealed(patch: seq<byte>) {
    |patch| >= 4 && Word32(patch, |patch| - 4) == Checksum(patch[..|patch| - 4])
  }

  lemma WordOfEnd(front: seq<byte>, end: seq<byte>)
    requires |end| == 4
    ensures Word32(front + end, |front|) == Word32(end, 0)
  {
  }

  /** Four bytes are what they spell. */
  lemma WordInjective(a: seq<byte>, b: seq<byte>)
    requires |a| == |b| == 4 && Word32(a, 0) == Word32(b, 0)
    ensures a == b
  {
    hide Word32;
    WordParts(a);
    WordParts(b);
    LowByte(a[0], b[0], Word24(a), Word24(b));
    LowByte(a[1], b[1], Word16(a), Word16(b));
    LowByte(a[2], b[2], a[3] as nat, b[3] as nat);
  }

  lemma WordsDiffer(a: seq<byte>, b: seq<byte>)
    requires |a| == |b| == 4 && a != b
    ensures Word32(a, 0) != Word32(b, 0)
  {
    hide Word32;
    if Word32(a, 0) == Word32(b, 0) {
      WordInjective(a, b);
    }
  }

  function Word16(a: seq<byte>): nat
    requires |a| == 4
  {
    a[2] as nat + 256 * a[3] as nat
  }

  function Word24(a: seq<byte>): nat
    requires |a| == 4
  {
    a[1] as nat + 256 * Word16(a)
  }

  lemma WordParts(a: seq<byte>)
    requires |a| == 4
    ensures Word32(a, 0) == a[0] as nat + 256 * Word24(a)
  {
  }

  lemma LowByte(x: byte, y: byte, p: nat, q: nat)
    requires x as nat + 256 * p == y as nat + 256 * q
    ensures x == y && p == q
  {
  }

  lemma OneInside(inner: seq<byte>, x: seq<byte>, y: seq<byte>, after: seq<byte>)
    requires |x| == |y| && x != y
    ensures inner + x + after != inner + y + after
  {
    assert x == (inner + x + after)[|inner|..|inner| + |x|];
    assert y == (inner + y + after)[|inner|..|inner| + |y|];
  }

  /** Up to four consecutive bytes other than before, all of them in front of the patch's checksum or all in it. */
  lemma DamageBreaksSeal(before: seq<byte>, x: seq<byte>, y: seq<byte>, after: seq<byte>)
    requires |x| == |y| <= 4 && x != y && Sealed(before + x + after)
    requires |after| >= 4 || |before + x + after| - 4 <= |before|
    ensures !Sealed(before + y + after)
  {
    hide Checksum, Word32;
    var a, b := before + x + after, before + y + after;
    if |after| >= 4 {
      var rest, end := after[..|after| - 4], after[|after| - 4..];
      assert a == (before + x + rest) + end && b == (before + y + rest) + end;
      WordOfEnd(before + x + rest, end);
      WordOfEnd(before + y + rest, end);
      assert a[..|a| - 4] == before + x + rest && b[..|b| - 4] == before + y + rest;
      FourBytesChangeChecksum(before, x, y, rest);
    } else {
      var front, inner := before[..|a| - 4], before[|a| - 4..];
      assert a == front + (inner + x + after) && b == front + (inner + y + after);
      WordOfEnd(front, inner + x + after);
      WordOfEnd(front, inner + y + after);
      assert a[..|a| - 4] == front && b[..|b| - 4] == front;
      OneInside(inner, x, y, after);
      WordsDiffer(inner + x + after, inner + y + after);
    }
  }

  /** A patch damaged so is accepted on no input and no buffer. */
  lemma DamagedIsRefused(before: seq<byte>, x: seq<byte>, y: seq<byte>, after: seq<byte>,
                         input: seq<byte>, out: seq<byte>, W: nat)
    requires W > 0 && |x| == |y| <= 4 && x != y && Sealed(before + x + after)
    requires |after| >= 4 || |before + x + after| - 4 <= |before|
    ensures var r := BpsReply(input, before + y + after, Some(out), |out|, W); r.Reply? ==> r.ret == -1
  {
    hide Checksum, Word32, Sealed, Run, ReadSize;
    DamageBreaksSeal(before, x, y, after);
    var patch := before + y + after;
    var r := BpsReply(input, patch, Some(out), |out|, W);
    TwoCodes(input, patch, out, W);
    if r.Reply? && r.ret == 0 {
      AcceptedIsVerified(input, patch, out, W, r.out);
      IsSealed(patch);
    }
  }

  lemma IsSealed(patch: seq<byte>)
    requires |patch| >= 4 && Word32(patch, |patch| - 4) == Checksum(patch[..|patch| - 4])
    ensures Sealed(patch)
  {
  }

  lemma TwoCodes(input: seq<byte>, patch: seq<byte>, out: seq<byte>, W: nat)
    requires W > 0
    ensures var r := BpsReply(input, patch, Some(out), |out|, W);
            r.Reply? ==> (r.ret == 0 || r.ret == -1) && r.size == |out|
  {
    hide ReadSize, Run, ChecksumsAgree;
  }

  /** An encoded patch is sealed, so all of this holds of it. */
  lemma EncodedIsSealed(source: seq<byte>, metadata: seq<byte>, actions: seq<Action>, target: seq<byte>)
    requires forall k :: 0 <= k < |actions| ==> Length(actions[k]) > 0
    ensures Sealed(EncodePatch(source, metadata, actions, target))
  {
    hide EncodePatch, EncodeBody, Checksum, FourBytes, Word32;
    var patch := EncodePatch(source, metadata, actions, target);
    PatchFields(patch, source, metadata, actions, target);
    FourBytesRead(patch, |patch| - 4, Checksum(patch[..|patch| - 4]));
  }

  // ----- an encoded patch on any input

  lemma OtherSizeRefused(input: seq<byte>, source: seq<byte>, metadata: seq<byte>, actions: seq<Action>,
                         target: seq<byte>, out: Option<seq<byte>>, size: nat, W: nat)
    requires SizeT(W) && |input| != |source| && |source| < W
    requires forall k :: 0 <= k < |actions| ==> Length(actions[k]) > 0
    ensures BpsReply(input, EncodePatch(source, metadata, actions, target), out, size, W) ==
            Reply(-1, size, if out.None? then [] else out.value)
  {
    hide Encode, EncodeActions, EncodePatch, EncodeBody, Checksum, FourBytes, Spells, Decode, ReadSize, Finish;
    var patch := EncodePatch(source, metadata, actions, target);
    PatchFields(patch, source, metadata, actions, target);
    BodyFields(patch, source, metadata, actions, target);
    SizeSpelled(patch, 4, |source|, W);
  }

  /** Fewer bytes built than named. */
  lemma RunFallsShort(input: seq<byte>, patch: seq<byte>, i: nat, out: seq<byte>, W: nat, actions: seq<Action>)
    requires SizeT(W) && |input| < W && |out| < W
    requires AllFit(input, START, actions) && AllEncodable(actions, W)
    requires |Perform(input, START, actions).target| < |out|
    requires |patch| >= 19 && i <= |patch| - 12 && patch[i..|patch| - 12] == EncodeActions(actions)
    ensures var r := Finish(input, patch, i, out, W); r.Reply? && r.ret == -1
  {
    hide Run, Perform, EncodeActions, AllFit;
    var m := Machine(i, 0, 0, 0, out);
    assert Matches(START, m);
    RunPerforms(input, patch, m, W, START, actions);
  }

  /**
   A patch that names `source` and `target`, on an input that its actions fit: it is accepted exactly
   when the input has the source's size and checksum, and what the actions build from it the target's.
   */
  lemma AcceptedExactly(input: seq<byte>, source: seq<byte>, metadata: seq<byte>, actions: seq<Action>,
                        target: seq<byte>, initial: nat, W: nat)
    requires SizeT(W) && |input| < W && |source| < W && 0 < |target| < W
    requires AllFit(input, START, actions) && AllEncodable(actions, W)
    requires |Perform(input, START, actions).target| <= |target|
    requires forall k :: 0 <= k < |actions| ==> Length(actions[k]) > 0
    requires |EncodePatch(source, metadata, actions, target)| < W
    ensures var built := Perform(input, START, actions).target;
            ApplyPatch(input, EncodePatch(source, metadata, actions, target), initial, W) ==
            if |input| == |source| && Checksum(input) == Checksum(source) &&
               |built| == |target| && Checksum(built) == Checksum(target)
            then Reply(0, |target|, built)
            else FAILED
  {
    hide Checksum, Run, Perform, EncodePatch, BpsReply, Finish, ActionsStart, EncodeActions, AllFit, AllEncodable;
    var built := Perform(input, START, actions).target;
    var patch, i := EncodePatch(source, metadata, actions, target), ActionsStart(source, metadata, target);
    var out := Prefill(input, |target|);
    BpsDetected(source, metadata, actions, target);
    if |input| != |source| {
      OtherSizeRefused(input, source, metadata, actions, target, None, initial, W);
    } else {
      EncodedHead(input, source, metadata, actions, target, None, initial, W);
      EncodedHead(input, source, metadata, actions, target, Some(out), |target|, W);
      if |built| < |target| {
        RunFallsShort(input, patch, i, out, W, actions);
      } else {
        RunCompletes(input, patch, i, out, W, actions);
        var m := Run(input, patch, Machine(i, 0, 0, 0, out), W).value;
        EncodedEnd(input, source, metadata, actions, target, i, out, m, W);
      }
    }
  }

  // ----- the format in literal bytes

  lemma PerformNext(source: seq<byte>, b: Build, actions: seq<Action>, b': Build)
    requires actions != [] && Fits(source, b, actions[0]) && Apply(source, b, actions[0]) == b'
    requires AllFit(source, b', actions[1..])
    ensures AllFit(source, b, actions)
    ensures Perform(source, b, actions) == Perform(source, b', actions[1..])
  {
  }

  lemma ExtendTwo(t: seq<byte>, p: nat)
    requires p + 1 < |t|
    ensures Extend(t, p, 2) == t + [t[p], t[p + 1]]
  {
    ExtendFirst(t, p, 2);
    ExtendFirst(t + [t[p]], p + 1, 1);
    ExtendNone(t + [t[p]] + [t[p + 1]], p + 2);
  }

  /** The four kinds of actions, with both cursors moved forth and back. */
  lemma FourKindsOfActions()
    ensures var actions := [SourceRead(2), TargetRead([9]), SourceCopy(2, 2), SourceCopy(1, -3),
                            TargetCopy(2, 1), TargetCopy(2, -2)];
            && AllFit([1, 2, 3, 4], START, actions)
            && Perform([1, 2, 3, 4], START, actions) == Build([1, 2, 9, 3, 4, 2, 2, 9, 2, 9], 2, 3)
  {
    hide Perform, AllFit, Extend;
    var source: seq<byte> := [1, 2, 3, 4];
    var b1 := Build([1, 2], 0, 0);
    var b2 := Build([1, 2, 9], 0, 0);
    var b3 := Build([1, 2, 9, 3, 4], 4, 0);
    var b4 := Build([1, 2, 9, 3, 4, 2], 2, 0);
    var b5 := Build([1, 2, 9, 3, 4, 2, 2, 9], 2, 3);
    var b6 := Build([1, 2, 9, 3, 4, 2, 2, 9, 2, 9], 2, 3);
    NoActions(source, b6);
    ExtendTwo(b5.target, 1);
    PerformNext(source, b5, [TargetCopy(2, -2)], b6);
    ExtendTwo(b4.target, 1);
    PerformNext(source, b4, [TargetCopy(2, 1), TargetCopy(2, -2)], b5);
    PerformNext(source, b3, [SourceCopy(1, -3), TargetCopy(2, 1), TargetCopy(2, -2)], b4);
    PerformNext(source, b2, [SourceCopy(2, 2), SourceCopy(1, -3), TargetCopy(2, 1), TargetCopy(2, -2)], b3);
    PerformNext(source, b1, [TargetRead([9]), SourceCopy(2, 2), SourceCopy(1, -3), TargetCopy(2, 1),
                             TargetCopy(2, -2)], b2);
    PerformNext(source, START, [SourceRead(2), TargetRead([9]), SourceCopy(2, 2), SourceCopy(1, -3),
                                TargetCopy(2, 1), TargetCopy(2, -2)], b1);
  }

  /** The smallest patch that builds something: magic, three sizes, one action; three checksums follow. */
  lemma SmallPatch(x: byte)
    ensures EncodeBody([], [], [TargetRead([x])], [x]) ==
            [0x42, 0x50, 0x53, 0x31, 0x80, 0x81, 0x80, 0x81, x]
  {
    assert EncodeActions([TargetRead([x])]) == EncodeAction(TargetRead([x])) + EncodeActions([]);
  }

  /** Sizes and offsets in literal bytes. */
  lemma LiteralNumbers()
    ensures Encode(0) == [0x80] && Encode(127) == [0xFF] && Encode(128) == [0x00, 0x80]
    ensures Encode(EncodeDelta(3)) == [0x86] && Encode(EncodeDelta(-3)) == [0x87]
  {
  }

  /** Nothing else is recognised. */
  lemma UnknownIsRefused(input: seq<byte>, patch: seq<byte>, initial: nat, W: nat)
    requires W > 0
    requires |patch| < 8 || patch[..5] != [0x50, 0x41, 0x54, 0x43, 0x48]
    requires |patch| < 19 || patch[..4] != [0x42, 0x50, 0x53, 0x31]
    ensures ApplyPatch(input, patch, initial, W) == Reply(-1, 0, [])
  {
  }
}
