/** What the word sizes of the C code make of numbers in a BPS patch that are too large for them. */
module BpsWords {
  import opened Arith
  import opened Words
  import opened BpsNumber
  import opened BpsActions
  import opened BpsMachine
  import opened BpsPatch
  import opened Memory

  /** An `int` keeps the number that differs by a multiple of 2^32. */
  lemma IntKeeps(x: int, k: nat)
    requires -0x8000_0000 <= x < 0x8000_0000 && x + k * 0x1_0000_0000 >= 0
    ensures AsInt(x + k * 0x1_0000_0000) == x
  {
    var w := x + k * 0x1_0000_0000;
    DivModUnique(w, 0x1_0000_0000, if x >= 0 then k else k - 1, if x >= 0 then x else x + 0x1_0000_0000);
  }

  /** What `offset & 1 ? -(offset >> 1) : (offset >> 1)` makes of words whose highest bit is set. */
  lemma HighOffsets()
    ensures SignedOffset(0xFFFF_FFFF) == 1 && SignedOffset(0xFFFF_FFFE) == -1
    ensures SignedOffset(0x8000_0000) == -0x4000_0000 && SignedOffset(0x8000_0001) == 0x4000_0000
    ensures SignedOffset(0x1_0000_0006) == 3 && SignedOffset(7) == -3
  {
  }

  lemma OffsetBounds(word: nat)
    ensures -0x4000_0000 <= SignedOffset(word) <= 0x4000_0000
  {
  }

  /** A copy's offset is read as it was spelled exactly when it is smaller than 2^30. */
  lemma OffsetSurvivesExactly(delta: int)
    requires EncodeDelta(delta) < U64
    ensures SignedOffset(Wrap(EncodeDelta(delta))) == delta <==> -0x4000_0000 < delta < 0x4000_0000
  {
    hide SignedOffset, Wrap;
    if -0x4000_0000 < delta < 0x4000_0000 {
      DeltaSurvives(delta);
    } else {
      OffsetBounds(Wrap(EncodeDelta(delta)));
      HighOffsets();
      NotCut(EncodeDelta(delta));
    }
  }

  lemma NotCut(n: nat)
    requires n < U64
    ensures Wrap(n) == n
  {
  }

  /** A cursor of type `size_t` moved in front of 0 or behind its largest value comes out at the other end. */
  lemma MoveWraps(cursor: nat, offset: int, W: nat)
    requires SizeT(W) && cursor < W && offset < W && offset + W > 0
    ensures cursor + offset < 0 ==> Move(cursor, offset, W) == cursor + offset + W
    ensures cursor + offset >= W ==> Move(cursor, offset, W) == cursor + offset - W
    ensures 0 <= cursor + offset < W ==> Move(cursor, offset, W) == cursor + offset
  {
    var n := cursor + offset;
    var q := if n < 0 then -1 else if n >= W then 1 else 0;
    DivModUnique(n, W, q, n - q * W);
  }

  /** An action's header is cut to `size_t` before its length and kind are taken from it. */
  lemma HeaderIsCut(input: seq<byte>, patch: seq<byte>, m: Machine, h: nat, W: nat)
    requires SizeT(W) && h < U64 && Spells(patch, m.i, Encode(h)) && Step(input, patch, m, W).Some?
    ensures Step(input, patch, m, W).value.written == m.written + h % W / 4 + 1
    ensures h % W % 4 == 1 ==>
              Step(input, patch, m, W).value.i == m.i + |Encode(h)| + h % W / 4 + 1
  {
    hide Wrap, Decode, Encode, Splice, CopyForward, SignedOffset, Move;
    DecodeSpelled(patch, m.i, h);
    NotCut(h);
  }

  /** Sizes are cut to `size_t`, and so is the position behind the metadata. */
  lemma HeadIsCut(input: seq<byte>, patch: seq<byte>, source: nat, target: nat, metadata: nat, out: seq<byte>, W: nat)
    requires SizeT(W) && source < U64 && target < U64 && metadata < U64 && |patch| >= 19
    requires Spells(patch, 4, Encode(source) + (Encode(target) + Encode(metadata)))
    ensures BpsReply(input, patch, Some(out), |out|, W) ==
            if source % W != |input| || target % W != |out| then Reply(-1, |out|, out)
            else
              var end := 4 + |Encode(source)| + |Encode(target)| + |Encode(metadata)|;
              Finish(input, patch, (end + metadata % W) % W, out, W)
  {
    hide Encode, Decode, ReadSize, Finish, Spells, BpsReply;
    SpellsParts(patch, 4, Encode(source), Encode(target) + Encode(metadata));
    SpellsParts(patch, 4 + |Encode(source)|, Encode(target), Encode(metadata));
    SizeIsCut(patch, 4, source, W);
    SizeIsCut(patch, 4 + |Encode(source)|, target, W);
    SizeIsCut(patch, 4 + |Encode(source)| + |Encode(target)|, metadata, W);
    ReplyBySizes(input, patch, out, W, ReadSize(patch, 4, W).value,
                 ReadSize(patch, 4 + |Encode(source)|, W).value,
                 ReadSize(patch, 4 + |Encode(source)| + |Encode(target)|, W).value);
  }

  lemma ReplyBySizes(input: seq<byte>, patch: seq<byte>, out: seq<byte>, W: nat, a: Number, b: Number, c: Number)
    requires W > 0 && |patch| >= 19 && ReadSize(patch, 4, W) == Some(a)
    requires ReadSize(patch, a.next, W) == Some(b) && ReadSize(patch, b.next, W) == Some(c)
    ensures BpsReply(input, patch, Some(out), |out|, W) ==
            if a.value != |input| || b.value != |out| then Reply(-1, |out|, out)
            else Finish(input, patch, (c.next + c.value) % W, out, W)
  {
    hide ReadSize, Finish;
  }

  lemma SizeIsCut(patch: seq<byte>, i: nat, n: nat, W: nat)
    requires SizeT(W) && n < U64 && Spells(patch, i, Encode(n))
    ensures ReadSize(patch, i, W) == Some(Number(n % W, i + |Encode(n)|))
  {
    hide Wrap, Encode, Decode;
    DecodeSpelled(patch, i, n);
    NotCut(n);
  }
}
