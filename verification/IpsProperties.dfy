/** What an IPS patch means as a list of records, and that `patch_ips` applies it so. */
module IpsProperties {
  import opened Arith
  import opened Words
  import opened BpsNumber
  import opened BpsMachine
  import opened Ips
  import opened Memory

  /** A literal record, or one byte repeated. */
  datatype Record = Literal(offset: nat, data: seq<byte>) | Repeat(offset: nat, len: nat, value: byte)

  /** The bytes a record puts at its offset. */
  function Content(r: Record): seq<byte> {
    match r
    case Literal(_, data) => data
    case Repeat(_, len, value) => seq(len, _ => value)
  }

  function End(r: Record): nat {
    r.offset + |Content(r)|
  }

  /** Offsets have three bytes and are not the end mark; only a repeat may be empty. */
  predicate WellFormed(r: Record) {
    r.offset < 0x100_0000 && r.offset != EOF_OFFSET && |Content(r)| < 0x1_0000 && (r.Literal? ==> r.data != [])
  }

  predicate AllWellFormed(rs: seq<Record>) {
    forall k :: 0 <= k < |rs| ==> WellFormed(rs[k])
  }

  // ----- meaning

  /** The byte at `k`: from the last record that covers it, else what was there. */
  function ByteAt(rs: seq<Record>, k: nat, was: byte): byte
    decreases |rs|
  {
    if rs == [] then was
    else
      var last := rs[|rs| - 1];
      if last.offset <= k < End(last) then Content(last)[k - last.offset] else ByteAt(rs[..|rs| - 1], k, was)
  }

  function LargestEnd(rs: seq<Record>): nat {
    if rs == [] then 0 else Max(End(rs[0]), LargestEnd(rs[1..]))
  }

  lemma {:induction false} LargestEndIsLargest(rs: seq<Record>)
    ensures forall k :: 0 <= k < |rs| ==> End(rs[k]) <= LargestEnd(rs)
    ensures rs != [] ==> exists k :: 0 <= k < |rs| && End(rs[k]) == LargestEnd(rs)
    decreases |rs|
  {
    if rs != [] {
      LargestEndIsLargest(rs[1..]);
      if End(rs[0]) < LargestEnd(rs) {
        var k :| 0 <= k < |rs[1..]| && End(rs[1..][k]) == LargestEnd(rs[1..]);
        assert End(rs[k + 1]) == LargestEnd(rs);
      }
    }
  }

  // ----- spelling

  function Bytes16(n: nat): (s: seq<byte>)
    requires n < 0x1_0000
    ensures |s| == 2
  {
    [(n / 0x100) as byte, (n % 0x100) as byte]
  }

  function Bytes24(n: nat): (s: seq<byte>)
    requires n < 0x100_0000
    ensures |s| == 3
  {
    [(n / 0x1_0000) as byte, (n / 0x100 % 0x100) as byte, (n % 0x100) as byte]
  }

  function EncodeRecord(r: Record): (s: seq<byte>)
    requires WellFormed(r)
  {
    match r
    case Literal(offset, data) => Bytes24(offset) + (Bytes16(|data|) + data)
    case Repeat(offset, len, value) => Bytes24(offset) + (Bytes16(0) + (Bytes16(Width(r)) + [value]))
  }

  function Width(r: Record): nat {
    |Content(r)|
  }

  function EncodeRecords(rs: seq<Record>): seq<byte>
    requires AllWellFormed(rs)
  {
    if rs == [] then [] else EncodeRecord(rs[0]) + EncodeRecords(rs[1..])
  }

  function EncodeIps(rs: seq<Record>): seq<byte>
    requires AllWellFormed(rs)
  {
    HEADER + (EncodeRecords(rs) + EOF_MARK)
  }

  lemma Be16Spelled(patch: seq<byte>, i: nat, n: nat)
    requires n < 0x1_0000 && Spells(patch, i, Bytes16(n))
    ensures i + 2 <= |patch| && Be16(patch, i) == n
  {
    var s := Bytes16(n);
    assert patch[i..i + 2] == s;
    assert patch[i] == s[0] && patch[i + 1] == s[1];
  }

  lemma Be24Spelled(patch: seq<byte>, i: nat, n: nat)
    requires n < 0x100_0000 && Spells(patch, i, Bytes24(n))
    ensures i + 3 <= |patch| && Be24(patch, i) == n
  {
    var s := Bytes24(n);
    assert patch[i..i + 3] == s;
    assert patch[i] == s[0] && patch[i + 1] == s[1] && patch[i + 2] == s[2];
  }

  /** The fields of a record as the two loops read them. */
  ghost predicate RecordAt(patch: seq<byte>, i: nat, r: Record) {
    && i + 5 <= |patch| && Be24(patch, i) == r.offset
    && match r
       case Literal(_, data) =>
         Be16(patch, i + 3) == |data| && i + 5 + |data| <= |patch| && patch[i + 5..i + 5 + |data|] == data
       case Repeat(_, len, value) =>
         Be16(patch, i + 3) == 0 && i + 8 <= |patch| && Be16(patch, i + 5) == len && patch[i + 7] == value
  }

  lemma LiteralSpelled(patch: seq<byte>, i: nat, offset: nat, data: seq<byte>)
    requires offset < 0x100_0000 && |data| < 0x1_0000
    requires Spells(patch, i, Bytes24(offset) + (Bytes16(|data|) + data))
    ensures i + 5 + |data| <= |patch| && Be24(patch, i) == offset && Be16(patch, i + 3) == |data|
    ensures patch[i + 5..i + 5 + |data|] == data
  {
    hide Be16, Be24, Bytes16, Bytes24;
    SpellsParts(patch, i, Bytes24(offset), Bytes16(|data|) + data);
    SpellsParts(patch, i + 3, Bytes16(|data|), data);
    Be24Spelled(patch, i, offset);
    Be16Spelled(patch, i + 3, |data|);
  }

  lemma RepeatSpelled(patch: seq<byte>, i: nat, offset: nat, len: nat, value: byte)
    requires offset < 0x100_0000 && len < 0x1_0000
    requires Spells(patch, i, Bytes24(offset) + (Bytes16(0) + (Bytes16(len) + [value])))
    ensures i + 8 <= |patch| && Be24(patch, i) == offset && Be16(patch, i + 3) == 0
    ensures Be16(patch, i + 5) == len && patch[i + 7] == value
  {
    hide Be16, Be24, Bytes16, Bytes24, Spells;
    SpellsParts(patch, i, Bytes24(offset), Bytes16(0) + (Bytes16(len) + [value]));
    SpellsParts(patch, i + 3, Bytes16(0), Bytes16(len) + [value]);
    SpellsParts(patch, i + 5, Bytes16(len), [value]);
    Be24Spelled(patch, i, offset);
    Be16Spelled(patch, i + 3, 0);
    Be16Spelled(patch, i + 5, len);
    ByteSpelled(patch, i + 7, value);
  }

  lemma ByteSpelled(patch: seq<byte>, i: nat, value: byte)
    requires Spells(patch, i, [value])
    ensures i < |patch| && patch[i] == value
  {
    assert patch[i] == patch[i..i + 1][0];
  }

  lemma RecordSpelled(patch: seq<byte>, i: nat, r: Record)
    requires WellFormed(r) && Spells(patch, i, EncodeRecord(r))
    ensures RecordAt(patch, i, r)
    ensures |EncodeRecord(r)| == Size(r)
  {
    hide Be16, Be24, Bytes16, Bytes24, Spells;
    match r
    case Literal(offset, data) => LiteralSpelled(patch, i, offset, data);
    case Repeat(offset, len, value) => RepeatSpelled(patch, i, offset, len, value);
  }

  /** Bytes the encoding of a record takes. */
  function Size(r: Record): nat {
    if r.Literal? then 5 + |r.data| else 8
  }

  lemma FirstSpelled(patch: seq<byte>, i: nat, rs: seq<Record>)
    requires AllWellFormed(rs) && rs != [] && Spells(patch, i, EncodeRecords(rs) + EOF_MARK)
    ensures RecordAt(patch, i, rs[0])
    ensures Spells(patch, i + Size(rs[0]), EncodeRecords(rs[1..]) + EOF_MARK)
  {
    hide EncodeRecord, Spells, RecordAt;
    var first, rest := EncodeRecord(rs[0]), EncodeRecords(rs[1..]);
    assert EncodeRecords(rs) + EOF_MARK == first + (rest + EOF_MARK);
    SpellsParts(patch, i, first, rest + EOF_MARK);
    RecordSpelled(patch, i, rs[0]);
  }

  lemma EndSpelled(patch: seq<byte>, i: nat)
    requires Spells(patch, i, EncodeRecords([]) + EOF_MARK)
    ensures i + 3 <= |patch| && Be24(patch, i) == EOF_OFFSET
  {
    assert patch[i..i + 3] == EOF_MARK;
    assert patch[i] == EOF_MARK[0] && patch[i + 1] == EOF_MARK[1] && patch[i + 2] == EOF_MARK[2];
  }

  lemma LoopsEnd(patch: seq<byte>, i: nat, size: nat, out: seq<byte>, W: nat)
    requires i + 3 <= |patch| && Be24(patch, i) == EOF_OFFSET
    ensures Sizing(patch, i, size, W) == Some(size) && Writing(patch, i, out, W) == Done(0, out)
  {
  }

  // ----- the sizing pass

  lemma SizingStep(patch: seq<byte>, i: nat, r: Record, size: nat, W: nat)
    requires WellFormed(r) && RecordAt(patch, i, r)
    ensures Sizing(patch, i, size, W) == Sizing(patch, i + Size(r), Max(size, End(r)), W)
  {
    hide Be16, Be24;
  }

  lemma {:induction false} SizingFindsEnd(patch: seq<byte>, i: nat, rs: seq<Record>, size: nat, W: nat)
    requires AllWellFormed(rs) && Spells(patch, i, EncodeRecords(rs) + EOF_MARK)
    ensures Sizing(patch, i, size, W) == Some(Max(size, LargestEnd(rs)))
    decreases |rs|
  {
    hide Sizing, Spells, EncodeRecords, RecordAt, Size, End;
    if rs == [] {
      EndSpelled(patch, i);
      LoopsEnd(patch, i, size, [], W);
    } else {
      FirstSpelled(patch, i, rs);
      SizingStep(patch, i, rs[0], size, W);
      SizingFindsEnd(patch, i + Size(rs[0]), rs[1..], Max(size, End(rs[0])), W);
    }
  }

  // ----- the writing pass

  /** The record put over the buffer, as far as the buffer reaches. */
  function Overlay(out: seq<byte>, r: Record): (s: seq<byte>)
    ensures |s| == |out|
  {
    Put(out, r.offset, Content(r)[..Room(r.offset, Width(r), |out|)])
  }

  function OverlayAll(out: seq<byte>, rs: seq<Record>): (s: seq<byte>)
    ensures |s| == |out|
    decreases |rs|
  {
    if rs == [] then out else OverlayAll(Overlay(out, rs[0]), rs[1..])
  }

  /**
   The cursor of the writing pass after one record.  A literal record that the buffer cuts short is
   not passed over in full: the two passes stay together exactly while no literal record is cut.
   */
  lemma WritingStep(patch: seq<byte>, i: nat, r: Record, out: seq<byte>, W: nat)
    requires WellFormed(r) && RecordAt(patch, i, r)
    ensures var n := Room(r.offset, Width(r), |out|);
            && (r.Literal? ==> i + 5 + n <= |patch|)
            && Writing(patch, i, out, W) ==
               Writing(patch, i + if r.Literal? then 5 + n else 8, Put(out, r.offset, Content(r)[..n]), W)
            && (n == Width(r) <==> End(r) <= |out| || Width(r) == 0)
  {
    hide Be16, Be24, Put;
    var n := Room(r.offset, Width(r), |out|);
    match r
    case Literal(_, data) =>
      assert patch[i + 5..i + 5 + n] == data[..n];
    case Repeat(_, len, value) =>
      assert seq(n, _ => patch[i + 7]) == Content(r)[..n];
  }

  predicate NotCut(r: Record, size: nat) {
    r.Literal? ==> End(r) <= size
  }

  /** The buffer may end inside a run, or before it, but not inside or before a literal record. */
  predicate NoLiteralCut(rs: seq<Record>, size: nat) {
    forall k :: 0 <= k < |rs| ==> NotCut(rs[k], size)
  }

  lemma WritingWhole(patch: seq<byte>, i: nat, r: Record, out: seq<byte>, W: nat)
    requires WellFormed(r) && RecordAt(patch, i, r) && NotCut(r, |out|)
    ensures Writing(patch, i, out, W) == Writing(patch, i + Size(r), Overlay(out, r), W)
  {
    hide RecordAt, Writing, Put;
    WritingStep(patch, i, r, out, W);
  }

  lemma {:induction false} WritingOverlays(patch: seq<byte>, i: nat, rs: seq<Record>, out: seq<byte>, W: nat)
    requires AllWellFormed(rs) && Spells(patch, i, EncodeRecords(rs) + EOF_MARK)
    requires NoLiteralCut(rs, |out|)
    ensures Writing(patch, i, out, W) == Done(0, OverlayAll(out, rs))
    decreases |rs|
  {
    hide Writing, Spells, EncodeRecords, RecordAt, Size, Overlay, End;
    if rs == [] {
      EndSpelled(patch, i);
      LoopsEnd(patch, i, 0, out, W);
    } else {
      FirstSpelled(patch, i, rs);
      WritingWhole(patch, i, rs[0], out, W);
      WritingOverlays(patch, i + Size(rs[0]), rs[1..], Overlay(out, rs[0]), W);
    }
  }

  lemma OneByte(out: seq<byte>, r: Record, k: nat)
    requires k < |out|
    ensures Overlay(out, r)[k] == if r.offset <= k < End(r) then Content(r)[k - r.offset] else out[k]
  {
    hide Splice;
    var n := Room(r.offset, Width(r), |out|);
    if n > 0 {
      SpliceAt(out, r.offset, Content(r)[..n], k);
    }
  }

  lemma {:induction false} OverlayByte(out: seq<byte>, rs: seq<Record>, k: nat)
    requires k < |out|
    ensures OverlayAll(out, rs)[k] == ByteAt(rs, k, out[k])
    decreases |rs|
  {
    hide Overlay;
    if rs != [] {
      OneByte(out, rs[0], k);
      OverlayByte(Overlay(out, rs[0]), rs[1..], k);
      FirstUnderneath(rs, k, out[k]);
    }
  }

  /** A buffer up to the largest end cuts nothing. */
  lemma NothingCut(rs: seq<Record>, size: nat)
    requires LargestEnd(rs) <= size
    ensures NoLiteralCut(rs, size)
  {
    LargestEndIsLargest(rs);
  }

  /** The first record lies under all the others. */
  lemma {:induction false} FirstUnderneath(rs: seq<Record>, k: nat, was: byte)
    requires rs != []
    ensures ByteAt(rs, k, was) == ByteAt(rs[1..], k, ByteAt([rs[0]], k, was))
    decreases |rs|
  {
    if |rs| == 1 {
      assert rs == [rs[0]];
    } else {
      var init := rs[..|rs| - 1];
      FirstUnderneath(init, k, was);
      assert init[1..] == rs[1..][..|rs| - 2];
    }
  }
}
