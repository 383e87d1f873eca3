/**
 `patch` of picoarch/source/patch.c: recognise the format, ask for the size, prefill the output with
 the input and zeros, apply.  Failure of `calloc` is not modelled.
 */
module Patch {
  import opened Arith
  import opened Words
  import opened BpsNumber
  import opened BpsActions
  import opened BpsMachine
  import opened BpsPatch
  import opened BpsProperties
  import opened Crc32
  import opened Ips
  import opened IpsProperties

  datatype Format = IpsFormat | BpsFormat | Unknown

  function Detect(patch: seq<byte>): Format {
    if |patch| >= 8 && patch[..5] == HEADER then IpsFormat
    else if |patch| >= 19 && patch[..4] == BPS1 then BpsFormat
    else Unknown
  }

  function ApplyFormat(f: Format, input: seq<byte>, patch: seq<byte>, out: Option<seq<byte>>, size: nat, W: nat): Reply
    requires f != Unknown && W > 0
  {
    if f == IpsFormat then IpsReply(input, patch, out, size, W) else BpsReply(input, patch, out, size, W)
  }

  /** The input, cut or extended with zeros to `size` bytes. */
  function Prefill(input: seq<byte>, size: nat): (r: seq<byte>)
    ensures |r| == size
    ensures forall k :: 0 <= k < size ==> r[k] == if k < |input| then input[k] else 0
  {
    seq(size, k requires 0 <= k => if k < |input| then input[k] else 0)
  }

  const FAILED := Reply(-1, 0, [])

  /** `initial` is what `*out_size` holds when the caller hands it over. */
  function ApplyPatch(input: seq<byte>, patch: seq<byte>, initial: nat, W: nat): Reply
    requires W > 0
  {
    var f := Detect(patch);
    if f == Unknown then FAILED
    else
      match ApplyFormat(f, input, patch, None, initial, W)
      case Fault => Fault
      case Reply(ret, size, _) =>
        if ret != 0 || size == 0 then FAILED
        else
          match ApplyFormat(f, input, patch, Some(Prefill(input, size)), size, W)
          case Fault => Fault
          case Reply(ret, size, out) => if ret != 0 then FAILED else Reply(0, size, out)
  }

  method ApplyFormatTo(crc: Crc, f: Format, input: seq<byte>, patch: seq<byte>, out: array?<byte>, outSize: nat, W: nat)
    returns (ret: int, size: nat)
    requires f != Unknown && SizeT(W) && crc.Valid() && (f == IpsFormat ==> |patch| < 0x7FFF_0000)
    requires out != null ==> out.Length == outSize
    requires ApplyFormat(f, input, patch, if out == null then None else Some(out[..]), outSize, W).Reply?
    modifies crc.table, out
    ensures crc.Valid()
    ensures ApplyFormat(f, input, patch, if out == null then None else Some(old(out[..])), outSize, W) ==
            Reply(ret, size, if out == null then [] else out[..])
  {
    hide IpsReply, BpsReply;
    if f == IpsFormat {
      ghost var visits;
      ret, size, visits := PatchIps(input, patch, out, outSize, W);
    } else {
      ret, size := PatchBps(crc, input, patch, out, outSize, W);
    }
  }

  /** `memcpy(*out, in, MIN(in_size, *out_size))` into zeroed memory. */
  method NewOutput(input: seq<byte>, size: nat) returns (out: array<byte>)
    ensures fresh(out) && out[..] == Prefill(input, size)
  {
    out := new byte[size](_ => 0);
    var n := if |input| < size then |input| else size;
    for k := 0 to n
      invariant forall j :: 0 <= j < size ==> out[j] == if j < k then input[j] else 0
    {
      out[k] := input[k];
    }
  }

  method PatchFile(crc: Crc, input: seq<byte>, patch: seq<byte>, initial: nat, W: nat)
    returns (ret: int, out: array?<byte>, size: nat)
    requires SizeT(W) && crc.Valid() && (Detect(patch) == IpsFormat ==> |patch| < 0x7FFF_0000)
    requires ApplyPatch(input, patch, initial, W).Reply?
    modifies crc.table
    ensures crc.Valid()
    ensures ApplyPatch(input, patch, initial, W) == Reply(ret, size, if out == null then [] else out[..])
    ensures out == null <==> ret != 0
  {
    hide IpsReply, BpsReply;
    ret, out, size := -1, null, initial;
    var f := Detect(patch);
    if f == Unknown {
      return -1, null, 0;
    }
    ret, size := ApplyFormatTo(crc, f, input, patch, null, initial, W);
    if ret != 0 || size == 0 {
      return -1, null, 0;
    }
    var buffer := NewOutput(input, size);
    ret, size := ApplyFormatTo(crc, f, input, patch, buffer, size, W);
    if ret != 0 {
      return -1, null, 0;
    }
    out := buffer;
  }

  // ----- what the two formats promise

  /** BPS: whatever list of actions the patch spells is performed, on every source. */
  lemma PatchAppliesBps(source: seq<byte>, metadata: seq<byte>, actions: seq<Action>, initial: nat, W: nat)
    requires SizeT(W) && AllFit(source, START, actions) && AllEncodable(actions, W) && actions != []
    requires var target := Perform(source, START, actions).target;
             |source| < W && |target| < W && |EncodePatch(source, metadata, actions, target)| < W
    ensures var target := Perform(source, START, actions).target;
            ApplyPatch(source, EncodePatch(source, metadata, actions, target), initial, W) ==
            Reply(0, |target|, target)
  {
    hide BpsReply, IpsReply, EncodePatch, Perform;
    var target := Perform(source, START, actions).target;
    var patch := EncodePatch(source, metadata, actions, target);
    PerformSomething(source, actions);
    BpsDetected(source, metadata, actions, target);
    BpsDecodesEncoding(source, metadata, actions, Prefill(source, |target|), initial, W);
  }

  lemma PerformSomething(source: seq<byte>, actions: seq<Action>)
    requires AllFit(source, START, actions) && actions != []
    ensures |Perform(source, START, actions).target| > 0
  {
    var b := Apply(source, START, actions[0]);
    assert b.target <= Perform(source, b, actions[1..]).target;
  }

  lemma BpsDetected(source: seq<byte>, metadata: seq<byte>, actions: seq<Action>, target: seq<byte>)
    requires forall k :: 0 <= k < |actions| ==> Length(actions[k]) > 0
    ensures Detect(EncodePatch(source, metadata, actions, target)) == BpsFormat
  {
    hide Encode, EncodeActions, Checksum, FourBytes, EncodePatch, EncodeBody;
    var patch := EncodePatch(source, metadata, actions, target);
    PatchFields(patch, source, metadata, actions, target);
    BodyFields(patch, source, metadata, actions, target);
    assert patch[..4][0] == patch[0] && |patch| >= 5;
    assert patch[..5][0] == patch[0];
  }

  lemma VerbatimNonempty(target: seq<byte>)
    requires target != []
    ensures Verbatim(target) != []
  {
  }

  /** Every non-empty target is the result of some patch on every source. */
  lemma EveryTargetHasBpsPatch(source: seq<byte>, target: seq<byte>, initial: nat, W: nat) returns (patch: seq<byte>)
    requires SizeT(W) && target != [] && |source| < W
    requires |EncodePatch(source, [], Verbatim(target), target)| < W && |target| < W
    ensures ApplyPatch(source, patch, initial, W) == Reply(0, |target|, target)
  {
    hide Verbatim, Perform, AllFit, EncodePatch, ApplyPatch;
    var actions := Verbatim(target);
    VerbatimBuilds(source, START, target);
    assert START.target + target == target;
    assert actions != [] by {
      VerbatimNonempty(target);
    }
    patch := EncodePatch(source, [], actions, target);
    PatchAppliesBps(source, [], actions, initial, W);
  }

  /** The bytes in front of the end mark do not read as an end mark with a size behind it. */
  predicate NoTrailer(patch: seq<byte>)
    requires |patch| >= 8
  {
    patch[|patch| - 6..|patch| - 3] != EOF_MARK
  }

  lemma IpsSpelled(rs: seq<Record>, after: seq<byte>)
    requires AllWellFormed(rs)
    ensures var patch := EncodeIps(rs) + after;
            |patch| >= 8 && Detect(patch) == IpsFormat && Spells(patch, 5, EncodeRecords(rs) + EOF_MARK)
  {
    hide EncodeRecords;
    var patch := EncodeIps(rs) + after;
    assert patch[..5] == HEADER;
    assert patch[5..5 + |EncodeRecords(rs) + EOF_MARK|] == EncodeRecords(rs) + EOF_MARK;
  }

  /** What a list of records makes of a prefilled buffer, byte by byte. */
  ghost predicate IsPatched(input: seq<byte>, rs: seq<Record>, out: seq<byte>) {
    forall k :: 0 <= k < |out| ==> out[k] == ByteAt(rs, k, if k < |input| then input[k] else 0)
  }

  lemma WritingPatches(input: seq<byte>, patch: seq<byte>, rs: seq<Record>, size: nat, W: nat)
    requires AllWellFormed(rs) && NoLiteralCut(rs, size) && Spells(patch, 5, EncodeRecords(rs) + EOF_MARK)
    ensures var r := Writing(patch, 5, Prefill(input, size), W);
            r.Done? && r.ret == 0 && IsPatched(input, rs, r.out)
  {
    hide Writing;
    var out := Prefill(input, size);
    WritingOverlays(patch, 5, rs, out, W);
    forall k | 0 <= k < size
      ensures OverlayAll(out, rs)[k] == ByteAt(rs, k, out[k])
    {
      OverlayByte(out, rs, k);
    }
  }

  /**
   IPS without a size trailer: the size is the largest of the input's, the records' ends and what
   the caller left in `*out_size`; every byte is that of the last record that covers it.
   */
  lemma PatchAppliesIps(input: seq<byte>, rs: seq<Record>, initial: nat, W: nat)
    requires W > 0 && AllWellFormed(rs)
    requires |EncodeIps(rs)| >= 8 ==> NoTrailer(EncodeIps(rs))
    ensures var size := Max(Max(initial, LargestEnd(rs)), |input|);
            var r := ApplyPatch(input, EncodeIps(rs), initial, W);
            if size == 0 then r == FAILED
            else r.Reply? && r.ret == 0 && r.size == |r.out| == size && IsPatched(input, rs, r.out)
  {
    hide Sizing, Writing, EncodeIps, EncodeRecords, LargestEnd;
    var patch := EncodeIps(rs);
    assert patch + [] == patch;
    IpsSpelled(rs, []);
    SizingFindsEnd(patch, 5, rs, initial, W);
    NothingCut(rs, Max(Max(initial, LargestEnd(rs)), |input|));
    WritingPatches(input, patch, rs, Max(Max(initial, LargestEnd(rs)), |input|), W);
  }

  /** A size trailer decides the size, and the writing pass the rest. */
  lemma TrailerDecides(input: seq<byte>, rs: seq<Record>, size: nat, initial: nat, W: nat)
    requires W > 0 && AllWellFormed(rs) && 0 < size < 0x100_0000
    ensures ApplyPatch(input, EncodeIps(rs) + Bytes24(size), initial, W) ==
            match Writing(EncodeIps(rs) + Bytes24(size), 5, Prefill(input, size), W)
            case OutOfBounds => Fault
            case Done(ret, out) => if ret != 0 then FAILED else Reply(0, size, out)
  {
    hide Sizing, Writing, EncodeRecords, Be24, Bytes24, Prefill;
    var patch := EncodeIps(rs) + Bytes24(size);
    IpsSpelled(rs, Bytes24(size));
    assert patch[|patch| - 6..|patch| - 3] == EOF_MARK;
    assert Spells(patch, |patch| - 3, Bytes24(size));
    Be24Spelled(patch, |patch| - 3, size);
  }

  /**
   IPS with a size trailer: the trailer decides the size, and the records, cut to that size, are
   applied, provided that no literal record is cut.
   */
  lemma PatchAppliesIpsWithTrailer(input: seq<byte>, rs: seq<Record>, size: nat, initial: nat, W: nat)
    requires W > 0 && AllWellFormed(rs) && NoLiteralCut(rs, size) && 0 < size < 0x100_0000
    ensures var r := ApplyPatch(input, EncodeIps(rs) + Bytes24(size), initial, W);
            r.Reply? && r.ret == 0 && r.size == |r.out| == size && IsPatched(input, rs, r.out)
  {
    hide Writing, ApplyPatch, EncodeIps, Bytes24;
    TrailerDecides(input, rs, size, initial, W);
    IpsSpelled(rs, Bytes24(size));
    WritingPatches(input, EncodeIps(rs) + Bytes24(size), rs, size, W);
  }

  /** The writing pass over a first literal record of which one byte fits: it goes on behind that byte. */
  lemma CutAfterOneByte(input: seq<byte>, rs: seq<Record>, initial: nat, W: nat)
    requires W > 0 && AllWellFormed(rs) && rs != [] && rs[0].Literal? && rs[0].offset == 0 && |rs[0].data| > 1
    ensures !NoLiteralCut(rs, 1)
    ensures var patch := EncodeIps(rs) + Bytes24(1);
            Writing(patch, 5, Prefill(input, 1), W) == Writing(patch, 11, rs[0].data[..1], W)
  {
    hide Writing, EncodeRecords, EncodeIps, RecordAt;
    var patch := EncodeIps(rs) + Bytes24(1);
    assert !NotCut(rs[0], 1);
    IpsSpelled(rs, Bytes24(1));
    FirstSpelled(patch, 5, rs);
    WritingStep(patch, 5, rs[0], Prefill(input, 1), W);
    assert Put(Prefill(input, 1), 0, rs[0].data[..1]) == rs[0].data[..1];
  }

  /** The bytes of the patches below. */
  lemma LiteralPatchBytes(data: seq<byte>)
    requires 0 < |data| < 0x100
    ensures AllWellFormed([Literal(0, data)])
    ensures EncodeIps([Literal(0, data)]) == HEADER + [0, 0, 0] + [0, |data| as byte] + data + EOF_MARK
  {
    var rs := [Literal(0, data)];
    assert EncodeRecords(rs) == EncodeRecord(rs[0]) + EncodeRecords([]);
    assert Bytes24(0) == [0, 0, 0] && Bytes16(|data|) == [0, |data| as byte];
  }

  lemma CutPatchBytes(data: seq<byte>)
    requires 0 < |data| < 0x100
    ensures AllWellFormed([Literal(0, data)])
    ensures EncodeIps([Literal(0, data)]) + Bytes24(1) ==
            HEADER + [0, 0, 0] + [0, |data| as byte] + data + EOF_MARK + [0, 0, 1]
  {
    LiteralPatchBytes(data);
    assert Bytes24(1) == [0, 0, 1];
  }

  /** The second literal byte and the end mark, read as a record. */
  lemma CutLoop(patch: seq<byte>, out: seq<byte>, W: nat)
    requires SizeT(W) && |out| == 1
    requires patch == [0x50, 0x41, 0x54, 0x43, 0x48, 0, 0, 0, 0, 2, 1, 2, 0x45, 0x4f, 0x46, 0, 0, 1]
    ensures Writing(patch, 11, out, W) == Done(-1, out)
  {
    assert Be24(patch, 11) == 0x02_454f && Be16(patch, 14) == 0x4600;
    assert !TooLong(patch, 16, 0x4600, W);
    assert Advance(patch, 11, Some(1), W) == Goes(16) && Advance(patch, 16, Some(1), W) == Ends(-1);
    assert Fitting(patch, 11, 1) == [];
  }

  /**
   A trailer that cuts a literal record can break a well-formed patch: here the second literal byte
   is read as the offset of a next record, and the patch is rejected.
   */
  lemma CutLiteralBreaksPatch(input: seq<byte>, initial: nat, W: nat)
    requires SizeT(W)
    ensures var rs := [Literal(0, [1, 2])];
            && AllWellFormed(rs) && !NoLiteralCut(rs, 1)
            && ApplyPatch(input, EncodeIps(rs) + Bytes24(1), initial, W) == FAILED
  {
    hide Writing, EncodeIps, ApplyPatch, Bytes24;
    var rs := [Literal(0, [1, 2])];
    CutPatchBytes([1, 2]);
    TrailerDecides(input, rs, 1, initial, W);
    CutAfterOneByte(input, rs, initial, W);
    assert rs[0].data[..1] == [1];
    CutLoop(EncodeIps(rs) + Bytes24(1), [1], W);
  }

  /** A cut may go unnoticed: here the literal bytes that are not passed over read as the end mark. */
  lemma CutLiteralMayPass(input: seq<byte>, initial: nat, W: nat)
    requires SizeT(W)
    ensures var rs := [Literal(0, [1, 0x45, 0x4f, 0x46])];
            && AllWellFormed(rs) && !NoLiteralCut(rs, 1)
            && ApplyPatch(input, EncodeIps(rs) + Bytes24(1), initial, W) == Reply(0, 1, [1])
  {
    hide Writing, EncodeIps, ApplyPatch, Bytes24;
    var rs := [Literal(0, [1, 0x45, 0x4f, 0x46])];
    CutPatchBytes([1, 0x45, 0x4f, 0x46]);
    TrailerDecides(input, rs, 1, initial, W);
    CutAfterOneByte(input, rs, initial, W);
    assert rs[0].data[..1] == [1];
    var patch := EncodeIps(rs) + Bytes24(1);
    assert Be24(patch, 11) == EOF_OFFSET;
    LoopsEnd(patch, 11, 0, [1], W);
  }

  /**
   The first call finds the size of a patch without a trailer exactly when the patch does not read
   as one with a trailer, or when the size happens to be the number that the end mark spells.
   */
  lemma SizeIsFoundExactly(input: seq<byte>, rs: seq<Record>, initial: nat, W: nat)
    requires W > 0 && AllWellFormed(rs)
    ensures |EncodeIps(rs)| >= 8
    ensures var patch, size := EncodeIps(rs), Max(Max(initial, LargestEnd(rs)), |input|);
            IpsReply(input, patch, None, initial, W) == Reply(0, size, []) <==> NoTrailer(patch) || size == EOF_OFFSET
  {
    hide Sizing, EncodeIps, EncodeRecords, LargestEnd;
    var patch := EncodeIps(rs);
    assert patch + [] == patch;
    IpsSpelled(rs, []);
    SizingFindsEnd(patch, 5, rs, initial, W);
    EndsInMark(rs);
  }

  lemma EndsInMark(rs: seq<Record>)
    requires AllWellFormed(rs)
    ensures |EncodeIps(rs)| >= 8 && Be24(EncodeIps(rs), |EncodeIps(rs)| - 3) == EOF_OFFSET
  {
    hide EncodeRecords, Be24;
    var patch := EncodeIps(rs);
    assert Spells(patch, |patch| - 3, EOF_MARK);
    assert EOF_MARK == Bytes24(EOF_OFFSET);
    Be24Spelled(patch, |patch| - 3, EOF_OFFSET);
  }

  /** A literal that ends in the end mark is mistaken for a trailer, and the size is then wrong. */
  lemma LiteralMistakenForTrailer(input: seq<byte>, initial: nat, W: nat)
    requires W > 0
    ensures var rs := [Literal(0, EOF_MARK)];
            AllWellFormed(rs) && !NoTrailer(EncodeIps(rs)) && LargestEnd(rs) == 3 &&
            var r := ApplyPatch(input, EncodeIps(rs), initial, W);
            r.Reply? && r.ret == 0 && r.size == EOF_OFFSET
  {
    hide Writing, EncodeIps, EncodeRecords, LargestEnd, Prefill, Be24;
    var rs := [Literal(0, EOF_MARK)];
    var patch := EncodeIps(rs);
    LiteralPatchBytes(EOF_MARK);
    OneEnd(rs);
    assert patch[10..13] == EOF_MARK;
    IpsSpelled(rs, []);
    assert patch + [] == patch;
    EndsInMark(rs);
    NothingCut(rs, EOF_OFFSET);
    WritingPatches(input, patch, rs, EOF_OFFSET, W);
  }

  lemma OneEnd(rs: seq<Record>)
    requires |rs| == 1
    ensures LargestEnd(rs) == End(rs[0])
  {
    assert LargestEnd(rs[1..]) == 0;
  }
}
