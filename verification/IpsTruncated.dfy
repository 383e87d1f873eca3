/** IPS patches that end too early: `patch` of picoarch/source/patch.c refuses them at its first call. */
module IpsTruncated {
  import opened Arith
  import opened Words
  import opened BpsNumber
  import opened BpsMachine
  import opened BpsPatch
  import opened Ips
  import opened IpsProperties
  import opened Patch

  /** From `i` on the patch is the beginning of `s`, but not all of it. */
  ghost predicate Begins(patch: seq<byte>, i: nat, s: seq<byte>) {
    i <= |patch| < i + |s| && patch[i..] == s[..|patch| - i]
  }

  lemma BeginsByte(patch: seq<byte>, i: nat, s: seq<byte>, k: nat)
    requires Begins(patch, i, s) && i + k < |patch|
    ensures k < |s| && patch[i + k] == s[k]
  {
    assert patch[i + k] == patch[i..][k];
  }

  /** A whole first part, then the beginning of the rest. */
  lemma BeginsBehind(patch: seq<byte>, i: nat, s: seq<byte>, t: seq<byte>)
    requires Begins(patch, i, s + t) && i + |s| <= |patch|
    ensures Spells(patch, i, s) && Begins(patch, i + |s|, t)
  {
    assert patch[i..i + |s|] == patch[i..][..|s|] == (s + t)[..|s|];
    assert patch[i + |s|..] == patch[i..][|s|..];
  }

  lemma BeginsInside(patch: seq<byte>, i: nat, s: seq<byte>, t: seq<byte>)
    requires Begins(patch, i, s + t) && |patch| < i + |s|
    ensures Begins(patch, i, s)
  {
    assert (s + t)[..|patch| - i] == s[..|patch| - i];
  }

  /** The length test on a record cut off: it fails, or the length is longer than the patch and the cursor leaves it. */
  lemma CutLiteralEnds(patch: seq<byte>, i: nat, size: nat, W: nat)
    requires SizeT(W) && i + 5 <= |patch| && Be24(patch, i) != EOF_OFFSET && Be16(patch, i + 3) != 0
    requires i + 5 + Be16(patch, i + 3) > |patch|
    ensures Sizing(patch, i, size, W) == None
  {
    hide Be16, Be24;
  }

  lemma CutRepeatEnds(patch: seq<byte>, i: nat, size: nat, W: nat)
    requires i + 5 <= |patch| < i + 8 && Be24(patch, i) != EOF_OFFSET && Be16(patch, i + 3) == 0
    ensures Sizing(patch, i, size, W) == None
  {
    hide Be16, Be24;
  }

  lemma CutFieldsEnd(patch: seq<byte>, i: nat, size: nat, W: nat)
    requires |patch| < i + 5 && (i + 3 <= |patch| ==> Be24(patch, i) != EOF_OFFSET)
    ensures Sizing(patch, i, size, W) == None
  {
    hide Be24;
  }

  /** What stands behind the offset and the length of a record. */
  function Fields(r: Record): seq<byte>
    requires WellFormed(r)
  {
    if r.Literal? then r.data else Bytes16(Width(r)) + [r.value]
  }

  lemma RecordFields(r: Record)
    requires WellFormed(r)
    ensures EncodeRecord(r) == Bytes24(r.offset) + (Bytes16(if r.Literal? then |r.data| else 0) + Fields(r))
  {
    hide Bytes24, Bytes16;
  }

  /** The first fields of a record that is cut off behind them. */
  lemma OffsetRead(patch: seq<byte>, i: nat, r: Record)
    requires WellFormed(r) && Begins(patch, i, EncodeRecord(r)) && i + 3 <= |patch|
    ensures Be24(patch, i) == r.offset
  {
    hide Be24, Bytes24, Bytes16, Begins, EncodeRecord, Fields;
    RecordFields(r);
    BeginsBehind(patch, i, Bytes24(r.offset), Bytes16(if r.Literal? then |r.data| else 0) + Fields(r));
    Be24Spelled(patch, i, r.offset);
  }

  lemma LengthRead(patch: seq<byte>, i: nat, r: Record)
    requires WellFormed(r) && Begins(patch, i, EncodeRecord(r)) && i + 5 <= |patch|
    ensures Be16(patch, i + 3) == if r.Literal? then |r.data| else 0
  {
    hide Be16, Bytes24, Bytes16, Begins, EncodeRecord, Fields;
    var n := if r.Literal? then |r.data| else 0;
    RecordFields(r);
    BeginsBehind(patch, i, Bytes24(r.offset), Bytes16(n) + Fields(r));
    BeginsBehind(patch, i + 3, Bytes16(n), Fields(r));
    Be16Spelled(patch, i + 3, n);
  }

  /** The sizing pass on a record that is cut off. */
  lemma CutRecordEnds(patch: seq<byte>, i: nat, r: Record, size: nat, W: nat)
    requires SizeT(W) && WellFormed(r) && Begins(patch, i, EncodeRecord(r)) && |EncodeRecord(r)| == Size(r)
    ensures Sizing(patch, i, size, W) == None
  {
    hide Be16, Be24, Bytes16, Bytes24, Sizing, EncodeRecord;
    if i + 3 <= |patch| {
      OffsetRead(patch, i, r);
    }
    if i + 5 > |patch| {
      CutFieldsEnd(patch, i, size, W);
    } else {
      LengthRead(patch, i, r);
      if r.Literal? {
        CutLiteralEnds(patch, i, size, W);
      } else {
        CutRepeatEnds(patch, i, size, W);
      }
    }
  }

  lemma RecordLength(r: Record)
    requires WellFormed(r)
    ensures |EncodeRecord(r)| == Size(r)
  {
    hide Bytes16, Bytes24;
  }

  lemma {:induction false} CutRecordsEnd(patch: seq<byte>, i: nat, rs: seq<Record>, size: nat, W: nat)
    requires SizeT(W) && AllWellFormed(rs) && Begins(patch, i, EncodeRecords(rs) + EOF_MARK)
    ensures Sizing(patch, i, size, W) == None
    decreases |rs|
  {
    hide Sizing, EncodeRecord, Begins, RecordAt, Size, Be24;
    if rs == [] {
      assert EncodeRecords(rs) + EOF_MARK == EOF_MARK;
      CutMarkEnds(patch, i, size, W);
    } else {
      var first, rest := EncodeRecord(rs[0]), EncodeRecords(rs[1..]) + EOF_MARK;
      assert EncodeRecords(rs) + EOF_MARK == first + rest;
      RecordLength(rs[0]);
      if |patch| < i + |first| {
        BeginsInside(patch, i, first, rest);
        CutRecordEnds(patch, i, rs[0], size, W);
      } else {
        BeginsBehind(patch, i, first, rest);
        RecordSpelled(patch, i, rs[0]);
        SizingStep(patch, i, rs[0], size, W);
        CutRecordsEnd(patch, i + |first|, rs[1..], Max(size, End(rs[0])), W);
      }
    }
  }

  lemma CutMarkEnds(patch: seq<byte>, i: nat, size: nat, W: nat)
    requires Begins(patch, i, EOF_MARK)
    ensures Sizing(patch, i, size, W) == None
  {
  }

  /**
   An encoded patch cut anywhere before the end of its mark: the first call refuses it exactly when what is
   left does not read as a patch with a trailer.
   */
  lemma CutPatchIsRefused(input: seq<byte>, rs: seq<Record>, n: nat, initial: nat, W: nat)
    requires SizeT(W) && AllWellFormed(rs) && n < |EncodeIps(rs)|
    ensures var cut := EncodeIps(rs)[..n];
            && (n < 8 ==> ApplyPatch(input, cut, initial, W) == FAILED)
            && (n >= 8 ==>
                  && Detect(cut) == IpsFormat
                  && (IpsReply(input, cut, None, initial, W).ret == -1 <==> NoTrailer(cut))
                  && (NoTrailer(cut) ==>
                        IpsReply(input, cut, None, initial, W) == Reply(-1, 0, []) &&
                        ApplyPatch(input, cut, initial, W) == FAILED))
  {
    hide Sizing, Writing, EncodeRecords, Be24;
    var cut, body := EncodeIps(rs)[..n], EncodeRecords(rs) + EOF_MARK;
    if n >= 8 {
      assert cut[..5] == HEADER;
      assert cut[5..] == body[..|cut| - 5];
      CutRecordsEnd(cut, 5, rs, initial, W);
    }
  }

  /** The length test subtracts without a sign: a record longer than the whole patch passes it. */
  lemma OverlongPasses(patch: seq<byte>, i: nat, len: nat, W: nat)
    requires SizeT(W) && i <= |patch| && len < 0x1_0000
    ensures TooLong(patch, i, len, W) <==> len <= |patch| && i + len > |patch|
  {
  }

  /** Records in literal bytes. */
  lemma LiteralRecords()
    ensures EncodeRecord(Literal(0x01_0203, [9, 8])) == [1, 2, 3, 0, 2, 9, 8]
    ensures EncodeRecord(Repeat(0x01_0203, 0x0405, 6)) == [1, 2, 3, 0, 0, 4, 5, 6]
    ensures Content(Literal(0x01_0203, [9, 8])) == [9, 8] && Content(Repeat(0x01_0203, 3, 6)) == [6, 6, 6]
    ensures EncodeIps([]) == [0x50, 0x41, 0x54, 0x43, 0x48, 0x45, 0x4f, 0x46]
  {
  }
}
