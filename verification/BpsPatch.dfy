/**
 `patch_bps` as a whole: sizes, metadata, action loop and the three checksums, first as a function
 of the bytes, then as the C code computes it.
 */
module BpsPatch {
  import opened Words
  import opened BpsNumber
  import opened BpsMachine
  import opened Crc32
  import opened Memory

  /** Return code, final `*out_size` and final output buffer, or undefined behaviour. */
  datatype Reply = Fault | Reply(ret: int, size: nat, out: seq<byte>)

  /** Four bytes, lowest first. */
  function Word32(patch: seq<byte>, i: nat): nat
    requires i + 4 <= |patch|
  {
    patch[i] as nat + 0x100 * patch[i + 1] as nat + 0x1_0000 * patch[i + 2] as nat + 0x100_0000 * patch[i + 3] as nat
  }

  function FourBytes(w: u32): (s: seq<byte>)
    ensures |s| == 4
  {
    [(w % 0x100) as byte, (w / 0x100 % 0x100) as byte, (w / 0x1_0000 % 0x100) as byte, (w / 0x100_0000) as byte]
  }

  lemma FourBytesRead(patch: seq<byte>, i: nat, w: u32)
    requires Spells(patch, i, FourBytes(w))
    ensures Word32(patch, i) == w
  {
    hide FourBytes;
    var s := FourBytes(w);
    FourBytesValue(w);
    assert patch[i..i + 4] == s;
    assert patch[i] == patch[i..i + 4][0] && patch[i + 1] == patch[i..i + 4][1];
    assert patch[i + 2] == patch[i..i + 4][2] && patch[i + 3] == patch[i..i + 4][3];
  }

  lemma FourBytesValue(w: u32)
    ensures Word32(FourBytes(w), 0) == w
  {
    assert w / 0x1_0000 == w / 0x100 / 0x100;
    assert w / 0x100_0000 == w / 0x1_0000 / 0x100;
  }

  function ReadSize(patch: seq<byte>, i: nat, W: nat): (r: Option<Number>)
    requires W > 0
  {
    match Decode(patch, i)
    case None => None
    case Some(n) => Some(Number(Wrap(n.value) % W, n.next))
  }

  /** The three checksums at the end: source, target, and the patch up to the last one. */
  predicate ChecksumsAgree(input: seq<byte>, patch: seq<byte>, i: nat, out: seq<byte>)
    requires i + 12 <= |patch|
  {
    && Word32(patch, i) == Checksum(input)
    && Word32(patch, i + 4) == Checksum(out)
    && Word32(patch, i + 8) == Checksum(patch[..|patch| - 4])
  }

  /** From the action loop on. */
  function Finish(input: seq<byte>, patch: seq<byte>, i: nat, out: seq<byte>, W: nat): Reply
    requires W > 0 && |patch| >= 19
  {
    match Run(input, patch, Machine(i, 0, 0, 0, out), W)
    case None => Fault
    case Some(m) =>
      if m.written != |out| then Reply(-1, |out|, m.out)
      else if m.i + 12 > |patch| then Fault
      else Reply(if ChecksumsAgree(input, patch, m.i, m.out) then 0 else -1, |out|, m.out)
  }

  /** `out` is `None` for the call that only asks for the size. */
  function BpsReply(input: seq<byte>, patch: seq<byte>, out: Option<seq<byte>>, size: nat, W: nat): Reply
    requires W > 0
  {
    var kept := if out.None? then [] else out.value;
    if |patch| < 19 then Reply(-1, size, kept)
    else
      match ReadSize(patch, 4, W)
      case None => Fault
      case Some(source) =>
        if source.value != |input| then Reply(-1, size, kept)
        else
          match ReadSize(patch, source.next, W)
          case None => Fault
          case Some(target) =>
            if out.None? then Reply(0, target.value, kept)
            else if size != target.value then Reply(-1, size, kept)
            else
              match ReadSize(patch, target.next, W)
              case None => Fault
              case Some(metadata) => Finish(input, patch, (metadata.next + metadata.value) % W, out.value, W)
  }

  // ----- the code

  /** `while (length--) out[written++] = from[at++];` */
  method CopyBytes(out: array<byte>, written: nat, from: seq<byte>, at: nat, length: nat)
    requires written + length <= out.Length && at + length <= |from|
    modifies out
    ensures out[..] == Splice(old(out[..]), written, from[at..at + length])
  {
    hide Splice;
    ghost var was := out[..];
    var left := length;
    var w, r := written, at;
    assert from[at..r] == [];
    SpliceNone(was, written);
    while left > 0
      invariant 0 <= left <= length && w == written + (length - left) && r == at + (length - left)
      invariant out[..] == Splice(was, written, from[at..r])
    {
      assert from[at..r + 1] == from[at..r] + [from[r]];
      SpliceMore(was, written, from[at..r], [from[r]]);
      SpliceOne(out[..], w, from[r]);
      out[w] := from[r];
      w, r, left := w + 1, r + 1, left - 1;
    }
  }

  /** `while (length--) out[written++] = out[dst_rel_offset++];` */
  method CopyWithin(out: array<byte>, written: nat, from: nat, length: nat)
    requires written + length <= out.Length && from + length <= out.Length
    modifies out
    ensures out[..] == CopyForward(old(out[..]), written, from, length)
  {
    var left := length;
    var w, r := written, from;
    while left > 0
      invariant 0 <= left <= length && w == written + (length - left) && r == from + (length - left)
      invariant CopyForward(out[..], w, r, left) == CopyForward(old(out[..]), written, from, length)
    {
      var before := out[..];
      out[w] := out[r];
      assert out[..] == before[w := before[r]];
      w, r, left := w + 1, r + 1, left - 1;
    }
  }

  /** One round of the action loop, on the buffer itself. */
  method DoAction(input: seq<byte>, patch: seq<byte>, out: array<byte>, W: nat, m: Machine)
    returns (i: nat, written: nat, src: nat, dst: nat)
    requires SizeT(W) && m.out == out[..]
    requires Step(input, patch, m, W).Some?
    modifies out
    ensures Step(input, patch, m, W) == Some(Machine(i, written, src, dst, out[..]))
  {
    hide Decode, Wrap, SignedOffset, Move, Splice, CopyForward;
    src, dst, written := m.src, m.dst, m.written;
    var word;
    word, i := BpsDecode(patch, m.i);
    word := word % W;
    var mode, length := word % 4, word / 4 + 1;
    if mode == 0 {
      CopyBytes(out, written, input, written, length);
    } else if mode == 1 {
      CopyBytes(out, written, patch, i, length);
      i := i + length;
    } else {
      var offset;
      offset, i := BpsDecode(patch, i);
      if mode == 2 {
        src := Move(src, SignedOffset(offset), W);
        CopyBytes(out, written, input, src, length);
        src := src + length;
      } else {
        dst := Move(dst, SignedOffset(offset), W);
        CopyWithin(out, written, dst, length);
        dst := dst + length;
      }
    }
    written := written + length;
  }

  method RunActions(input: seq<byte>, patch: seq<byte>, start: nat, out: array<byte>, W: nat)
    returns (i: nat, written: nat)
    requires SizeT(W) && |patch| >= 19
    requires Run(input, patch, Machine(start, 0, 0, 0, out[..]), W).Some?
    modifies out
    ensures var m := Run(input, patch, Machine(start, 0, 0, 0, old(out[..])), W).value;
            i == m.i && written == m.written && out[..] == m.out
  {
    i, written := start, 0;
    var src: nat, dst: nat := 0, 0;
    while i < |patch| - 12
      invariant Run(input, patch, Machine(i, written, src, dst, out[..]), W) ==
                Run(input, patch, Machine(start, 0, 0, 0, old(out[..])), W)
      decreases |patch| - i
    {
      i, written, src, dst := DoAction(input, patch, out, W, Machine(i, written, src, dst, out[..]));
    }
  }

  method ReadWord32(patch: seq<byte>, index: nat) returns (hash: nat, i: nat)
    requires index + 4 <= |patch|
    ensures hash == Word32(patch, index) && i == index + 4
  {
    hash, i := 0, index;
    var weight := 1;
    while weight < 0x1_0000_0000
      invariant index <= i <= index + 4
      invariant i == index ==> weight == 1 && hash == 0
      invariant i == index + 1 ==> weight == 0x100 && hash == patch[index] as nat
      invariant i == index + 2 ==> weight == 0x1_0000 && hash == patch[index] as nat + 0x100 * patch[index + 1] as nat
      invariant i == index + 3 ==> (weight == 0x100_0000 && hash ==
                  patch[index] as nat + 0x100 * patch[index + 1] as nat + 0x1_0000 * patch[index + 2] as nat)
      invariant i == index + 4 ==> weight == 0x1_0000_0000 && hash == Word32(patch, index)
      decreases index + 4 - i
    {
      hash := hash + patch[i] as nat * weight;
      i := i + 1;
      weight := weight * 0x100;
    }
  }

  method PatchBps(crc: Crc, input: seq<byte>, patch: seq<byte>, out: array?<byte>, outSize: nat, W: nat)
    returns (ret: int, size: nat)
    requires SizeT(W) && crc.Valid()
    requires out != null ==> out.Length == outSize
    requires BpsReply(input, patch, if out == null then None else Some(out[..]), outSize, W).Reply?
    modifies crc.table, out
    ensures crc.Valid()
    ensures BpsReply(input, patch, if out == null then None else Some(old(out[..])), outSize, W) ==
            Reply(ret, size, if out == null then [] else out[..])
  {
    hide Decode, Wrap, Run, Checksum;
    if |patch| < 19 {
      return -1, outSize;
    }
    var i := 4;
    var srcSize, targetSize, metadataSize;
    srcSize, i := BpsDecode(patch, i);
    srcSize := srcSize % W;
    if srcSize != |input| {
      return -1, outSize;
    }
    targetSize, i := BpsDecode(patch, i);
    targetSize := targetSize % W;
    if out == null {
      return 0, targetSize;
    } else if outSize != targetSize {
      return -1, outSize;
    }
    metadataSize, i := BpsDecode(patch, i);
    i := (i + metadataSize % W) % W;
    var written;
    i, written := RunActions(input, patch, i, out, W);
    if written != targetSize {
      return -1, outSize;
    }
    var sourceHash, targetHash, patchHash;
    sourceHash, i := ReadWord32(patch, i);
    targetHash, i := ReadWord32(patch, i);
    patchHash, i := ReadWord32(patch, i);
    var hash := crc.Compute(input);
    if sourceHash != hash {
      return -1, outSize;
    }
    hash := crc.Compute(out[..]);
    if targetHash != hash {
      return -1, outSize;
    }
    hash := crc.Compute(patch[..|patch| - 4]);
    if patchHash != hash {
      return -1, outSize;
    }
    return 0, outSize;
  }
}
