/**
 Where the two passes of `patch_ips` stand: the sizing pass at the beginning of every record, the writing
 pass only as long as the output buffer cuts no literal record.
 */
module IpsBoundaries {
  import opened Words
  import opened BpsNumber
  import opened BpsMachine
  import opened Ips
  import opened IpsProperties

  /** Where the records and the end mark begin, the first at `i`. */
  function Starts(rs: seq<Record>, i: nat): (s: seq<nat>)
    ensures |s| == |rs| + 1 && s[0] == i
  {
    [i] + if rs == [] then [] else Starts(rs[1..], i + Size(rs[0]))
  }

  /** Bytes the cursor passes over in one record. */
  function Passed(r: Record, room: Option<nat>): nat {
    if r.Literal? && room.Some? then 5 + Room(r.offset, Width(r), room.value) else Size(r)
  }

  lemma RecordPassed(patch: seq<byte>, i: nat, r: Record, room: Option<nat>, W: nat)
    requires WellFormed(r) && RecordAt(patch, i, r)
    ensures Visits(patch, i, room, W) == [i] + Visits(patch, i + Passed(r, room), room, W)
  {
    hide Be16, Be24;
  }

  lemma MarkVisited(patch: seq<byte>, i: nat, room: Option<nat>, W: nat)
    requires i + 3 <= |patch| && Be24(patch, i) == EOF_OFFSET
    ensures Visits(patch, i, room, W) == [i]
  {
  }

  /** Every record is passed over in full. */
  predicate AllPassed(rs: seq<Record>, room: Option<nat>) {
    forall k :: 0 <= k < |rs| ==> Passed(rs[k], room) == Size(rs[k])
  }

  lemma FirstPassed(rs: seq<Record>, room: Option<nat>)
    requires rs != []
    ensures AllPassed(rs, room) <==> Passed(rs[0], room) == Size(rs[0]) && AllPassed(rs[1..], room)
  {
    hide Passed, Size;
    assert forall k :: 1 <= k < |rs| ==> rs[k] == rs[1..][k - 1];
  }

  /** Two lists of positions that begin alike. */
  lemma SameBehind(i: nat, v: seq<nat>, w: seq<nat>)
    ensures [i] + v == [i] + w <==> v == w
  {
    assert ([i] + v)[1..] == v && ([i] + w)[1..] == w;
  }

  lemma NextStarts(rs: seq<Record>, i: nat)
    requires rs != []
    ensures Starts(rs, i) == [i] + Starts(rs[1..], i + Size(rs[0]))
  {
  }

  lemma NoStarts(i: nat)
    ensures Starts([], i) == [i]
  {
  }

  lemma {:induction false} VisitsAreStarts(patch: seq<byte>, i: nat, rs: seq<Record>, room: Option<nat>, W: nat)
    requires AllWellFormed(rs) && Spells(patch, i, EncodeRecords(rs) + EOF_MARK)
    ensures Visits(patch, i, room, W) == Starts(rs, i) <==> AllPassed(rs, room)
    decreases |rs|
  {
    hide Visits, Starts, Spells, EncodeRecords, RecordAt, Size, Passed, AllPassed, WellFormed, Be24;
    if rs == [] {
      EndSpelled(patch, i);
      MarkVisited(patch, i, room, W);
      NoStarts(i);
      NothingToPass(room);
    } else {
      var r := rs[0];
      var next, passed := i + Size(r), i + Passed(r, room);
      FirstSpelled(patch, i, rs);
      RecordPassed(patch, i, r, room, W);
      VisitsAreStarts(patch, next, rs[1..], room, W);
      FirstVisit(patch, passed, room, W);
      NextStarts(rs, i);
      SameBehind(i, Visits(patch, passed, room, W), Starts(rs[1..], next));
      FirstPassed(rs, room);
    }
  }

  lemma NothingToPass(room: Option<nat>)
    ensures AllPassed([], room)
  {
  }

  lemma FirstVisit(patch: seq<byte>, i: nat, room: Option<nat>, W: nat)
    ensures var v := Visits(patch, i, room, W); v == [] || v[0] == i
  {
  }

  /** The sizing pass stands at the beginning of every record. */
  lemma SizingVisitsRecords(patch: seq<byte>, i: nat, rs: seq<Record>, W: nat)
    requires AllWellFormed(rs) && Spells(patch, i, EncodeRecords(rs) + EOF_MARK)
    ensures Visits(patch, i, None, W) == Starts(rs, i)
  {
    VisitsAreStarts(patch, i, rs, None, W);
  }

  /**
   The writing pass, into a buffer of `size` bytes, stands where the sizing pass stood exactly when
   the buffer cuts no literal record.
   */
  lemma PassesVisitTheSame(patch: seq<byte>, i: nat, rs: seq<Record>, size: nat, W: nat)
    requires AllWellFormed(rs) && Spells(patch, i, EncodeRecords(rs) + EOF_MARK)
    ensures Visits(patch, i, Some(size), W) == Visits(patch, i, None, W) <==> NoLiteralCut(rs, size)
  {
    SizingVisitsRecords(patch, i, rs, W);
    VisitsAreStarts(patch, i, rs, Some(size), W);
    forall k | 0 <= k < |rs|
      ensures Passed(rs[k], Some(size)) == Size(rs[k]) <==> NotCut(rs[k], size)
    {
    }
  }
}
