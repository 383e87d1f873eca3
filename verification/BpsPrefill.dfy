/**
 A BPS patch whose result depends on what the output buffer held: its only action copies the first
 byte of the target from itself, so `patch` accepts it or not by the byte it has prefilled there.
 */
module BpsPrefill {
  import opened Words
  import opened BpsNumber
  import opened BpsActions
  import opened BpsMachine
  import opened BpsPatch
  import opened BpsProperties
  import opened Crc32
  import opened Patch

  /** The bytes 131 and 128. */
  const SELF_COPY: seq<Action> := [TargetCopy(1, 0)]

  /** A well-formed patch with the right checksums for a target of the one byte `x`. */
  function SelfCopyPatch(source: seq<byte>, x: byte): seq<byte> {
    EncodePatch(source, [], SELF_COPY, [x])
  }

  lemma SelfCopySpelled(patch: seq<byte>, i: nat, W: nat)
    requires SizeT(W) && |patch| >= 12 && i <= |patch| - 12 && patch[i..|patch| - 12] == EncodeActions(SELF_COPY)
    ensures Decode(patch, i).Some? && (Wrap(Decode(patch, i).value.value) % W) == 3
    ensures var next := Decode(patch, i).value.next;
            Decode(patch, next).Some? && Decode(patch, next).value.next == |patch| - 12 &&
            SignedOffset(Wrap(Decode(patch, next).value.value)) == 0
  {
    hide Decode, Encode, Wrap, SignedOffset;
    var header, offset := EncodeHeader(1, 3), Encode(EncodeDelta(0));
    assert EncodeActions(SELF_COPY) == EncodeAction(SELF_COPY[0]) + EncodeActions(SELF_COPY[1..]);
    assert EncodeActions(SELF_COPY) == header + offset;
    assert Spells(patch, i, header + offset);
    HeaderSpelled(patch, i, 1, 3, offset, W);
    OffsetSpelled(patch, i + |header|, 0);
  }

  /** The copy starts at what is written so far, not below it, and leaves the old byte where it is. */
  lemma SelfCopyKeepsOldByte(source: seq<byte>, patch: seq<byte>, i: nat, y: byte, W: nat)
    requires SizeT(W) && |patch| >= 12 && i <= |patch| - 12 && patch[i..|patch| - 12] == EncodeActions(SELF_COPY)
    ensures !RunReadsBehind(source, patch, Machine(i, 0, 0, 0, [y]), W)
    ensures Run(source, patch, Machine(i, 0, 0, 0, [y]), W) == Some(Machine(|patch| - 12, 1, 0, 1, [y]))
  {
    hide Decode, Wrap, SignedOffset;
    var m := Machine(i, 0, 0, 0, [y]);
    SelfCopySpelled(patch, i, W);
    MoveExact(0, 0, W);
    assert CopyForward([y], 0, 0, 1) == CopyForward([y][0 := y], 1, 1, 0) == [y];
    assert !StepReadsBehind(patch, m, W);
    assert Step(source, patch, m, W) == Some(Machine(|patch| - 12, 1, 0, 1, [y]));
  }

  /** `patch_bps` accepts the patch on one buffer and rejects it on every other. */
  lemma SelfCopyReply(source: seq<byte>, x: byte, y: byte, W: nat)
    requires SizeT(W) && |source| < W && |SelfCopyPatch(source, x)| < W
    ensures BpsReply(source, SelfCopyPatch(source, x), Some([y]), 1, W) == Reply(if x == y then 0 else -1, 1, [y])
  {
    hide Checksum, Run, EncodePatch, BpsReply, Finish, ActionsStart, EncodeActions;
    var patch, i := SelfCopyPatch(source, x), ActionsStart(source, [], [x]);
    EncodedHead(source, source, [], SELF_COPY, [x], Some([y]), 1, W);
    SelfCopyKeepsOldByte(source, patch, i, y, W);
    EncodedEnd(source, source, [], SELF_COPY, [x], i, [y], Machine(|patch| - 12, 1, 0, 1, [y]), W);
    if x != y {
      FourBytesChangeChecksum([], [x], [y], []);
      assert [] + [x] + [] == [x] && [] + [y] + [] == [y];
    }
  }

  /** The first byte of the prefilled output. */
  function FirstByte(source: seq<byte>): byte {
    if source == [] then 0 else source[0]
  }

  /** So `patch` accepts it exactly when the source starts with `x`, or is empty and `x` is zero. */
  lemma SelfCopyShowsPrefill(source: seq<byte>, x: byte, initial: nat, W: nat)
    requires SizeT(W) && |source| < W && |SelfCopyPatch(source, x)| < W
    ensures ApplyPatch(source, SelfCopyPatch(source, x), initial, W) ==
            if x == FirstByte(source) then Reply(0, 1, [x]) else FAILED
  {
    hide BpsReply, EncodePatch;
    BpsDetected(source, [], SELF_COPY, [x]);
    EncodedHead(source, source, [], SELF_COPY, [x], None, initial, W);
    assert Prefill(source, 1) == [FirstByte(source)];
    SelfCopyReply(source, x, FirstByte(source), W);
  }
}
