/**
 `patch_ips` of picoarch/source/patch.c.  The C function is called twice: without an output buffer
 it finds the size, with one it writes.  `W` is the number of values of `size_t`.
 */
module Ips {
  import opened Arith
  import opened Words
  import opened BpsNumber
  import opened BpsMachine
  import opened BpsPatch
  import opened Memory

  const EOF_MARK: seq<byte> := [0x45, 0x4f, 0x46]
  const EOF_OFFSET: nat := 0x45_4f46
  const HEADER: seq<byte> := [0x50, 0x41, 0x54, 0x43, 0x48]

  function Be16(patch: seq<byte>, i: nat): (r: nat)
    requires i + 2 <= |patch|
    ensures r < 0x1_0000
  {
    patch[i] as nat * 0x100 + patch[i + 1] as nat
  }

  function Be24(patch: seq<byte>, i: nat): (r: nat)
    requires i + 3 <= |patch|
    ensures r < 0x100_0000
  {
    patch[i] as nat * 0x1_0000 + patch[i + 1] as nat * 0x100 + patch[i + 2] as nat
  }

  /** `i > patch_size - len`, where the difference wraps when `len` is the larger. */
  predicate TooLong(patch: seq<byte>, i: nat, len: nat, W: nat) {
    i > if len <= |patch| then |patch| - len else W + |patch| - len
  }

  /** How many of `len` bytes at `offset` fit in a buffer of `size` bytes. */
  function Room(offset: nat, len: nat, size: nat): (r: nat)
    ensures r <= len && (r > 0 ==> offset + r <= size)
  {
    if offset + len <= size then len else if offset <= size then size - offset else 0
  }

  /** What a round of the loop comes to: it leaves the loop, reads behind the patch, or moves the cursor. */
  datatype Round = Ends(ret: int) | Beyond | Goes(next: nat)

  /** Bytes that the record at `i` puts into the output. */
  function Count(patch: seq<byte>, i: nat): nat
    requires i + 5 <= |patch| && (Be16(patch, i + 3) == 0 ==> i + 8 <= |patch|)
  {
    if Be16(patch, i + 3) != 0 then Be16(patch, i + 3) else Be16(patch, i + 5)
  }

  /**
   One round, without an output buffer or with one of `room` bytes: then the cursor only passes over
   the bytes of a literal record that are written.
   */
  function Advance(patch: seq<byte>, i: nat, room: Option<nat>, W: nat): (r: Round)
    ensures r.Ends? ==> r.ret == 0 || r.ret == -1
    ensures r.Goes? ==> i + 5 <= |patch| && i < r.next && (Be16(patch, i + 3) == 0 ==> i + 8 <= |patch|)
  {
    if i + 3 > |patch| then Ends(-1)
    else if Be24(patch, i) == EOF_OFFSET then Ends(0)
    else if i + 5 > |patch| then Ends(-1)
    else
      var len := Be16(patch, i + 3);
      if len != 0 then
        if TooLong(patch, i + 5, len, W) then Ends(-1)
        else if room.None? then Goes(i + 5 + len)
        else
          var n := Room(Be24(patch, i), len, room.value);
          if i + 5 + n > |patch| then Beyond else Goes(i + 5 + n)
      else if i + 8 > |patch| then Ends(-1)
      else Goes(i + 8)
  }

  /** The positions of the cursor at the beginning of each round. */
  function Visits(patch: seq<byte>, i: nat, room: Option<nat>, W: nat): seq<nat>
    decreases |patch| - i
  {
    if i + 3 > |patch| then []
    else
      match Advance(patch, i, room, W)
      case Goes(next) => [i] + Visits(patch, next, room, W)
      case _ => [i]
  }

  /** The loop without an output buffer; `None` when it ends without the end mark. */
  function Sizing(patch: seq<byte>, i: nat, size: nat, W: nat): Option<nat>
    decreases |patch| - i
  {
    match Advance(patch, i, None, W)
    case Goes(next) => Sizing(patch, next, Max(size, Be24(patch, i) + Count(patch, i)), W)
    case Ends(ret) => if ret == 0 then Some(size) else None
    case Beyond => None
  }

  /** What the writing loop does: return code and buffer. */
  datatype Outcome = OutOfBounds | Done(ret: int, out: seq<byte>)

  function Put(out: seq<byte>, offset: nat, data: seq<byte>): (r: seq<byte>)
    requires data == [] || offset + |data| <= |out|
    ensures |r| == |out|
  {
    if data == [] then out else Splice(out, offset, data)
  }

  /** The bytes of the record at `i` that fit in a buffer of `size` bytes. */
  function Fitting(patch: seq<byte>, i: nat, size: nat): (data: seq<byte>)
    requires i + 5 <= |patch| && (Be16(patch, i + 3) == 0 ==> i + 8 <= |patch|)
    requires Be16(patch, i + 3) != 0 ==> i + 5 + Room(Be24(patch, i), Be16(patch, i + 3), size) <= |patch|
    ensures data == [] || Be24(patch, i) + |data| <= size
  {
    var n := Room(Be24(patch, i), Count(patch, i), size);
    if Be16(patch, i + 3) != 0 then patch[i + 5..i + 5 + n] else seq(n, _ => patch[i + 7])
  }

  /** The loop with an output buffer. */
  function Writing(patch: seq<byte>, i: nat, out: seq<byte>, W: nat): (r: Outcome)
    ensures r.Done? ==> |r.out| == |out|
    decreases |patch| - i
  {
    match Advance(patch, i, Some(|out|), W)
    case Goes(next) => Writing(patch, next, Put(out, Be24(patch, i), Fitting(patch, i, |out|)), W)
    case Ends(ret) => Done(ret, out)
    case Beyond => OutOfBounds
  }

  /** Both calls of the C function. */
  function IpsReply(input: seq<byte>, patch: seq<byte>, out: Option<seq<byte>>, size: nat, W: nat): Reply {
    if |patch| < 8 then Reply(-1, size, if out.None? then [] else out.value)
    else if out.None? then
      if patch[|patch| - 6..|patch| - 3] == EOF_MARK then Reply(0, Be24(patch, |patch| - 3), [])
      else
        match Sizing(patch, 5, size, W)
        case None => Reply(-1, 0, [])
        case Some(n) => Reply(0, Max(n, |input|), [])
    else
      match Writing(patch, 5, out.value, W)
      case OutOfBounds => Fault
      case Done(ret, out') => Reply(ret, size, out')
  }

  /** The cursor's positions in the whole call. */
  function IpsVisits(patch: seq<byte>, room: Option<nat>, W: nat): seq<nat> {
    if |patch| < 8 || (room.None? && patch[|patch| - 6..|patch| - 3] == EOF_MARK) then []
    else Visits(patch, 5, room, W)
  }

  // ----- the code

  /** What the buffer holds, if there is one. */
  ghost function Held(out: array?<byte>): seq<byte>
    reads out
  {
    if out == null then [] else out[..]
  }

  function RoomOf(out: array?<byte>, size: nat): Option<nat> {
    if out == null then None else Some(size)
  }

  /** From size and buffer before a round of either loop at `i` to those after it, and how it ends. */
  ghost predicate RoundDone(patch: seq<byte>, i: nat, room: Option<nat>, W: nat, size: nat, out: seq<byte>,
                            next: nat, size': nat, out': seq<byte>, ret: Option<int>) {
    match Advance(patch, i, room, W)
    case Ends(r) => ret == Some(r) && size' == size && out' == out
    case Goes(j) =>
      && ret == None && next == j
      && (room.None? ==> size' == Max(size, Be24(patch, i) + Count(patch, i)) && out' == out)
      && (room.Some? ==>
            && (Be16(patch, i + 3) != 0 ==> i + 5 + Room(Be24(patch, i), Be16(patch, i + 3), |out|) <= |patch|)
            && size' == size && out' == Put(out, Be24(patch, i), Fitting(patch, i, |out|)))
    case Beyond => false
  }

  /**
   One round of the loop.  `ret` is `None` to go on; where the source falls through to a loop condition
   that fails, as it does for a record without a length, it is the -1 that the function returns then.
   */
  method DoRound(patch: seq<byte>, start: nat, out: array?<byte>, outSize: nat, W: nat)
    returns (i: nat, size: nat, ret: Option<int>)
    requires out != null ==> out.Length == outSize
    requires start + 3 <= |patch|
    requires Advance(patch, start, RoomOf(out, outSize), W) != Beyond
    modifies out
    ensures RoundDone(patch, start, RoomOf(out, outSize), W, outSize, old(Held(out)), i, size, Held(out), ret)
  {
    hide Be16, Be24, Put, Room, TooLong;
    i, size, ret := start, outSize, None;
    var offset := Be24(patch, i);
    i := i + 3;
    if offset == EOF_OFFSET {
      ret := Some(0);
    } else if i <= |patch| - 2 {
      var len := Be16(patch, i);
      i := i + 2;
      if len != 0 {
        if TooLong(patch, i, len, W) {
          ret := Some(-1);
          return;
        }
        if out != null {
          i := WriteLiteral(patch, i, out, offset, len);
        } else {
          i := i + len;
        }
      } else if i <= |patch| - 3 {
        len := Be16(patch, i);
        i := i + 2;
        if out != null {
          WriteRun(patch[i], out, offset, len);
        }
        i := i + 1;
      } else {
        ret := Some(-1);
        return;
      }
      if out == null && size < offset + len {
        size := offset + len;
      }
    } else {
      ret := Some(-1);
    }
  }

  /** The loop from `i` on comes to what the whole loop comes to, and visits the rest of its positions. */
  ghost predicate OnTheWay(patch: seq<byte>, room: Option<nat>, W: nat, size0: nat, out0: seq<byte>,
                           i: nat, size: nat, out: seq<byte>, visits: seq<nat>) {
    && visits + Visits(patch, i, room, W) == Visits(patch, 5, room, W)
    && (room.None? ==> Sizing(patch, i, size, W) == Sizing(patch, 5, size0, W))
    && (room.Some? ==> |out| == room.value && Writing(patch, i, out, W) == Writing(patch, 5, out0, W))
  }

  lemma AtTheStart(patch: seq<byte>, room: Option<nat>, W: nat, size: nat, out: seq<byte>)
    requires room.Some? ==> |out| == room.value
    ensures OnTheWay(patch, room, W, size, out, 5, size, out, [])
  {
  }

  lemma NotBeyond(patch: seq<byte>, room: Option<nat>, W: nat, size0: nat, out0: seq<byte>,
                  i: nat, size: nat, out: seq<byte>, visits: seq<nat>)
    requires OnTheWay(patch, room, W, size0, out0, i, size, out, visits)
    requires room.Some? ==> Writing(patch, 5, out0, W).Done?
    ensures Advance(patch, i, room, W) != Beyond
  {
    hide Be16, Be24, Put, Visits, Sizing;
  }

  lemma RoundGoesOn(patch: seq<byte>, room: Option<nat>, W: nat, size0: nat, out0: seq<byte>,
                    i: nat, size: nat, out: seq<byte>, visits: seq<nat>, next: nat, size': nat, out': seq<byte>)
    requires OnTheWay(patch, room, W, size0, out0, i, size, out, visits)
    requires RoundDone(patch, i, room, W, size, out, next, size', out', None)
    ensures i < next && OnTheWay(patch, room, W, size0, out0, next, size', out', visits + [i])
  {
    hide Advance, Be16, Be24, Put, Room, Fitting, Count, Visits, Sizing, Writing;
    Unfold(patch, i, size, out, room, W);
  }

  /** What the loop comes to. */
  ghost predicate LoopDone(patch: seq<byte>, room: Option<nat>, W: nat, size0: nat, out0: seq<byte>,
                           size: nat, out: seq<byte>, ret: int, visits: seq<nat>) {
    && visits == Visits(patch, 5, room, W)
    && (room.None? ==> (ret == 0 || ret == -1) && Sizing(patch, 5, size0, W) == if ret == 0 then Some(size) else None)
    && (room.Some? ==> Writing(patch, 5, out0, W) == Done(ret, out))
  }

  lemma RoundEnds(patch: seq<byte>, room: Option<nat>, W: nat, size0: nat, out0: seq<byte>,
                  i: nat, size: nat, out: seq<byte>, visits: seq<nat>, next: nat, size': nat, out': seq<byte>, ret: int)
    requires OnTheWay(patch, room, W, size0, out0, i, size, out, visits) && i + 3 <= |patch|
    requires RoundDone(patch, i, room, W, size, out, next, size', out', Some(ret))
    ensures LoopDone(patch, room, W, size0, out0, size', out', ret, visits + [i])
  {
    hide Advance, Be16, Be24, Put, Room, Fitting, Count, Visits, Sizing, Writing;
    Unfold(patch, i, size, out, room, W);
  }

  lemma PatchEnds(patch: seq<byte>, room: Option<nat>, W: nat, size0: nat, out0: seq<byte>,
                  i: nat, size: nat, out: seq<byte>, visits: seq<nat>)
    requires OnTheWay(patch, room, W, size0, out0, i, size, out, visits) && i + 3 > |patch|
    ensures LoopDone(patch, room, W, size0, out0, size, out, -1, visits)
  {
    hide Advance, Be16, Be24, Put, Room, Fitting, Count, Visits, Sizing, Writing;
    Unfold(patch, i, size, out, room, W);
  }

  /** The loop of the C code. */
  method DoRounds(patch: seq<byte>, out: array?<byte>, outSize: nat, W: nat)
    returns (ret: int, size: nat, ghost visits: seq<nat>)
    requires |patch| >= 8 && (out != null ==> out.Length == outSize && Writing(patch, 5, out[..], W).Done?)
    modifies out
    ensures LoopDone(patch, RoomOf(out, outSize), W, outSize, old(Held(out)), size, Held(out), ret, visits)
    ensures out != null ==> size == outSize
  {
    hide RoundDone, OnTheWay, LoopDone, Advance, Writing;
    ret, size, visits := -1, outSize, [];
    ghost var room, held := RoomOf(out, outSize), Held(out);
    var i := 5;
    AtTheStart(patch, room, W, outSize, held);
    while i <= |patch| - 3
      invariant OnTheWay(patch, room, W, outSize, held, i, size, Held(out), visits)
      invariant ret == -1 && (out != null ==> size == outSize)
      decreases |patch| - i
    {
      ghost var size0, held0 := size, Held(out);
      NotBeyond(patch, room, W, outSize, held, i, size0, held0, visits);
      var next, ends;
      next, size, ends := DoRound(patch, i, out, size, W);
      if out != null {
        SizeStays(patch, i, room, W, size0, held0, next, size, Held(out), ends);
      }
      if ends.Some? {
        ret := ends.value;
        RoundEnds(patch, room, W, outSize, held, i, size0, held0, visits, next, size, Held(out), ret);
        visits := visits + [i];
        return;
      }
      RoundGoesOn(patch, room, W, outSize, held, i, size0, held0, visits, next, size, Held(out));
      visits := visits + [i];
      i := next;
    }
    PatchEnds(patch, room, W, outSize, held, i, size, Held(out), visits);
  }

  lemma SizeStays(patch: seq<byte>, i: nat, room: Option<nat>, W: nat, size: nat, out: seq<byte>,
                  next: nat, size': nat, out': seq<byte>, ret: Option<int>)
    requires RoundDone(patch, i, room, W, size, out, next, size', out', ret) && room.Some?
    ensures size' == size
  {
    hide Advance;
  }

  method PatchIps(input: seq<byte>, patch: seq<byte>, out: array?<byte>, outSize: nat, W: nat)
    returns (ret: int, size: nat, ghost visits: seq<nat>)
    requires SizeT(W) && |patch| < 0x7FFF_0000
    requires out != null ==> out.Length == outSize
    requires IpsReply(input, patch, if out == null then None else Some(out[..]), outSize, W).Reply?
    modifies out
    ensures IpsReply(input, patch, if out == null then None else Some(old(out[..])), outSize, W) ==
            Reply(ret, size, if out == null then [] else out[..])
    ensures visits == IpsVisits(patch, RoomOf(out, outSize), W)
  {
    hide Be24, Visits, Sizing, Writing, IpsReply;
    Replies(input, patch, if out == null then None else Some(out[..]), outSize, W);
    if |patch| < 8 {
      return -1, outSize, [];
    }
    if out == null && patch[|patch| - 6..|patch| - 3] == EOF_MARK {
      size := Be24(patch, |patch| - 3);
      return 0, size, [];
    }
    ret, size, visits := DoRounds(patch, out, outSize, W);
    if out == null {
      if ret != 0 {
        size := 0;
      } else if size < |input| {
        size := |input|;
      }
    }
  }

  /** What the call comes to, by the loops. */
  lemma Replies(input: seq<byte>, patch: seq<byte>, out: Option<seq<byte>>, size: nat, W: nat)
    ensures |patch| < 8 ==> IpsReply(input, patch, out, size, W) == Reply(-1, size, if out.None? then [] else out.value)
    ensures |patch| >= 8 && out.None? ==>
              IpsReply(input, patch, out, size, W) ==
              if patch[|patch| - 6..|patch| - 3] == EOF_MARK then Reply(0, Be24(patch, |patch| - 3), [])
              else
                match Sizing(patch, 5, size, W)
                case None => Reply(-1, 0, [])
                case Some(n) => Reply(0, Max(n, |input|), [])
    ensures |patch| >= 8 && out.Some? ==>
              IpsReply(input, patch, out, size, W) ==
              match Writing(patch, 5, out.value, W)
              case OutOfBounds => Fault
              case Done(ret, out') => Reply(ret, size, out')
  {
    hide Be24, Sizing, Writing;
  }

  /** One round of each loop. */
  lemma Unfold(patch: seq<byte>, i: nat, size: nat, out: seq<byte>, room: Option<nat>, W: nat)
    ensures i + 3 > |patch| ==> Advance(patch, i, room, W) == Ends(-1) && Visits(patch, i, room, W) == []
    ensures i + 3 <= |patch| ==>
              Visits(patch, i, room, W) ==
              match Advance(patch, i, room, W) case Goes(next) => [i] + Visits(patch, next, room, W) case _ => [i]
    ensures match Advance(patch, i, None, W)
            case Ends(ret) => Sizing(patch, i, size, W) == if ret == 0 then Some(size) else None
            case Goes(next) =>
              && i < next && i + 5 <= |patch| && (Be16(patch, i + 3) == 0 ==> i + 8 <= |patch|)
              && Sizing(patch, i, size, W) == Sizing(patch, next, Max(size, Be24(patch, i) + Count(patch, i)), W)
            case Beyond => false
    ensures match Advance(patch, i, Some(|out|), W)
            case Ends(ret) => Writing(patch, i, out, W) == Done(ret, out)
            case Goes(next) =>
              && i < next && i + 5 <= |patch| && (Be16(patch, i + 3) == 0 ==> i + 8 <= |patch|)
              && (Be16(patch, i + 3) != 0 ==>
                    i + 5 + Room(Be24(patch, i), Be16(patch, i + 3), |out|) <= |patch|)
              && Writing(patch, i, out, W) ==
                 Writing(patch, next, Put(out, Be24(patch, i), Fitting(patch, i, |out|)), W)
            case Beyond => Writing(patch, i, out, W) == OutOfBounds
  {
    hide Be16, Be24, Put, Room, TooLong;
  }

  lemma PutNone(out: seq<byte>, offset: nat)
    ensures Put(out, offset, []) == out
  {
  }

  /** One byte more behind those put already. */
  lemma PutMore(out: seq<byte>, offset: nat, data: seq<byte>, v: byte)
    requires offset + |data| < |out|
    ensures Put(out, offset, data)[offset + |data| := v] == Put(out, offset, data + [v])
  {
    hide Splice;
    SpliceNone(out, offset);
    SpliceMore(out, offset, data, [v]);
    SpliceOne(Splice(out, offset, data), offset + |data|, v);
  }

  /** `while (len-- && offset < *out_size) out[offset++] = patch[i++];` */
  method WriteLiteral(patch: seq<byte>, start: nat, out: array<byte>, offset: nat, len: nat) returns (i: nat)
    requires start + Room(offset, len, out.Length) <= |patch|
    modifies out
    ensures i == start + Room(offset, len, out.Length)
    ensures out[..] == Put(old(out[..]), offset, patch[start..i])
  {
    hide Put;
    ghost var was := out[..];
    i := start;
    var o, left := offset, len;
    PutNone(was, offset);
    assert patch[start..i] == [];
    while left > 0 && o < out.Length
      invariant 0 <= left <= len && o == offset + (len - left) && i == start + (len - left)
      invariant left < len ==> o <= out.Length
      invariant i <= |patch| && out[..] == Put(was, offset, patch[start..i])
    {
      PutMore(was, offset, patch[start..i], patch[i]);
      assert patch[start..i + 1] == patch[start..i] + [patch[i]];
      out[o] := patch[i];
      o, i, left := o + 1, i + 1, left - 1;
    }
  }

  /** `while (len-- && offset < *out_size) out[offset++] = patch[i];` */
  method WriteRun(value: byte, out: array<byte>, offset: nat, len: nat)
    modifies out
    ensures out[..] == Put(old(out[..]), offset, seq(Room(offset, len, out.Length), _ => value))
  {
    hide Put;
    ghost var was, data := out[..], [];
    var o, left := offset, len;
    PutNone(was, offset);
    while left > 0 && o < out.Length
      invariant 0 <= left <= len && o == offset + |data| && |data| == len - left
      invariant left < len ==> o <= out.Length
      invariant forall k :: 0 <= k < |data| ==> data[k] == value
      invariant out[..] == Put(was, offset, data)
    {
      PutMore(was, offset, data, value);
      out[o] := value;
      data := data + [value];
      o, left := o + 1, left - 1;
    }
    assert data == seq(Room(offset, len, out.Length), _ => value);
  }
}
