/**
 `patch_bps` of picoarch/source/patch.c: what it does with any bytes at all.  `None` stands for
 reading or writing outside a buffer, which the C code leaves undefined.  `W` is the number of
 values of `size_t`.
 */
module BpsMachine {
  import opened Words
  import opened BpsNumber
  import opened BpsActions
  import opened Memory

  predicate SizeT(W: nat) {
    W == 0x1_0000_0000 || W == U64
  }

  /** The locals of the action loop and the output buffer, which starts prefilled. */
  datatype Machine = Machine(i: nat, written: nat, src: nat, dst: nat, out: seq<byte>)

  /** A 64-bit word stored in an `int`. */
  function AsInt(x: nat): int {
    var w := x % 0x1_0000_0000;
    if w < 0x8000_0000 then w else w - 0x1_0000_0000
  }

  /** `offset & 1 ? -(offset >> 1) : (offset >> 1)` */
  function SignedOffset(word: nat): int {
    var offset := AsInt(word);
    if offset % 2 == 1 then -(offset / 2) else offset / 2
  }

  /** A cursor of type `size_t` moved by an `int`. */
  function Move(cursor: nat, offset: int, W: nat): nat
    requires W > 0
  {
    (cursor + offset) % W
  }

  /** Byte after byte, so bytes written early are read again late. */
  function CopyForward(out: seq<byte>, to: nat, from: nat, len: nat): (r: seq<byte>)
    requires to + len <= |out| && from + len <= |out|
    ensures |r| == |out|
    decreases len
  {
    if len == 0 then out else CopyForward(out[to := out[from]], to + 1, from + 1, len - 1)
  }

  /** The body of the action loop. */
  function Step(input: seq<byte>, patch: seq<byte>, m: Machine, W: nat): (r: Option<Machine>)
    requires W > 0
    ensures r.Some? ==> m.i < r.value.i <= |patch| && |r.value.out| == |m.out|
    ensures r.Some? ==> m.written < r.value.written <= |m.out|
  {
    match Decode(patch, m.i)
    case None => None
    case Some(header) =>
      var word := Wrap(header.value) % W;
      var mode, len := word % 4, word / 4 + 1;
      if m.written + len > |m.out| then None
      else if mode == 0 then
        if m.written + len > |input| then None
        else
          var data := input[m.written..m.written + len];
          Some(m.(i := header.next, written := m.written + len, out := Splice(m.out, m.written, data)))
      else if mode == 1 then
        if header.next + len > |patch| then None
        else
          var data := patch[header.next..header.next + len];
          Some(m.(i := header.next + len, written := m.written + len, out := Splice(m.out, m.written, data)))
      else
        match Decode(patch, header.next)
        case None => None
        case Some(offset) =>
          if mode == 2 then
            var s := Move(m.src, SignedOffset(Wrap(offset.value)), W);
            if s + len > |input| then None
            else Some(m.(i := offset.next, written := m.written + len, src := s + len,
                         out := Splice(m.out, m.written, input[s..s + len])))
          else
            var d := Move(m.dst, SignedOffset(Wrap(offset.value)), W);
            if d + len > |m.out| then None
            else Some(m.(i := offset.next, written := m.written + len, dst := d + len,
                         out := CopyForward(m.out, m.written, d, len)))
  }

  /** The whole action loop: it stops at the twelve bytes of checksums. */
  function Run(input: seq<byte>, patch: seq<byte>, m: Machine, W: nat): (r: Option<Machine>)
    requires W > 0
    ensures r.Some? ==> |r.value.out| == |m.out|
    decreases |patch| - m.i
  {
    if m.i >= |patch| - 12 then Some(m)
    else
      match Step(input, patch, m, W)
      case None => None
      case Some(m') => Run(input, patch, m', W)
  }

  // ----- the machine carries out the actions that the patch spells

  /** `s` stands in `patch` at index `i`. */
  ghost predicate Spells(patch: seq<byte>, i: nat, s: seq<byte>) {
    i + |s| <= |patch| && patch[i..i + |s|] == s
  }

  lemma SpellsParts(patch: seq<byte>, i: nat, s: seq<byte>, t: seq<byte>)
    requires Spells(patch, i, s + t)
    ensures Spells(patch, i, s) && Spells(patch, i + |s|, t)
  {
    assert s == (s + t)[..|s|] && t == (s + t)[|s|..];
  }

  lemma DecodeSpelled(patch: seq<byte>, i: nat, n: nat)
    requires Spells(patch, i, Encode(n))
    ensures Decode(patch, i) == Some(Number(n, i + |Encode(n)|))
  {
    DecodeEncode(patch[..i], n, patch[i + |Encode(n)|..]);
    assert patch == patch[..i] + Encode(n) + patch[i + |Encode(n)|..];
  }

  lemma SmallWord(x: nat)
    requires x < 0x8000_0000
    ensures Wrap(x) == x && AsInt(x) == x
  {
  }

  lemma DeltaSurvives(delta: int)
    requires -0x4000_0000 < delta < 0x4000_0000
    ensures SignedOffset(Wrap(EncodeDelta(delta))) == delta
  {
    hide Wrap, AsInt;
    SmallWord(EncodeDelta(delta));
  }

  ghost predicate Matches(b: Build, m: Machine) {
    m.written == |b.target| <= |m.out| && m.out[..m.written] == b.target && m.src == b.src && m.dst == b.dst
  }

  /** A header word that fits a `size_t` gives back the mode and the length. */
  lemma HeaderSurvives(len: nat, mode: nat, W: nat)
    requires SizeT(W) && len > 0 && mode < 4 && 4 * len <= W
    ensures var word := Wrap(4 * (len - 1) + mode) % W; word % 4 == mode && word / 4 + 1 == len
  {
  }

  lemma CopyFirst(out: seq<byte>, to: nat, from: nat, len: nat)
    requires to + len <= |out| && from + len <= |out|
    ensures len == 0 ==> CopyForward(out, to, from, len) == out
    ensures len > 0 ==> CopyForward(out, to, from, len) == CopyForward(out[to := out[from]], to + 1, from + 1, len - 1)
  {
  }

  lemma ExtendNone(t: seq<byte>, p: nat)
    requires p < |t|
    ensures Extend(t, p, 0) == t
  {
  }

  lemma {:induction false} CopyExtends(out: seq<byte>, to: nat, from: nat, len: nat)
    requires from < to && to + len <= |out|
    ensures CopyForward(out, to, from, len)[..to + len] == Extend(out[..to], from, len)
    ensures CopyForward(out, to, from, len)[to + len..] == out[to + len..]
    decreases len
  {
    hide CopyForward, Extend;
    CopyFirst(out, to, from, len);
    if len == 0 {
      ExtendNone(out[..to], from);
    } else {
      var out' := out[to := out[from]];
      CopyExtends(out', to + 1, from + 1, len - 1);
      ExtendFirst(out[..to], from, len);
      assert out'[..to + 1] == out[..to] + [out[from]];
      assert out'[to + len..] == out[to + len..];
    }
  }

  /** What one action does to the machine that has built `b`. */
  ghost predicate CarriesOut(input: seq<byte>, patch: seq<byte>, m: Machine, W: nat, b: Build, a: Action)
    requires W > 0 && Fits(input, b, a)
  {
    var r := Step(input, patch, m, W);
    r.Some? && r.value.i == m.i + |EncodeAction(a)| && Matches(Apply(input, b, a), r.value)
  }

  /** The precondition the four cases below share. */
  ghost predicate Ready(input: seq<byte>, patch: seq<byte>, m: Machine, W: nat, b: Build, a: Action) {
    && SizeT(W) && |input| < W && |m.out| < W
    && Matches(b, m) && Fits(input, b, a) && Encodable(a, W)
    && Spells(patch, m.i, EncodeAction(a))
    && m.written + Length(a) <= |m.out|
  }

  lemma HeaderSpelled(patch: seq<byte>, i: nat, len: nat, mode: nat, rest: seq<byte>, W: nat)
    requires SizeT(W) && len > 0 && mode < 4 && 4 * len <= W
    requires Spells(patch, i, EncodeHeader(len, mode) + rest)
    ensures Decode(patch, i).Some? && Decode(patch, i).value.next == i + |EncodeHeader(len, mode)|
    ensures var word := Wrap(Decode(patch, i).value.value) % W; word % 4 == mode && word / 4 + 1 == len
    ensures Spells(patch, i + |EncodeHeader(len, mode)|, rest)
  {
    SpellsParts(patch, i, EncodeHeader(len, mode), rest);
    DecodeSpelled(patch, i, 4 * (len - 1) + mode);
    HeaderSurvives(len, mode, W);
  }

  lemma SpelledThere(patch: seq<byte>, i: nat, s: seq<byte>)
    requires Spells(patch, i, s)
    ensures i + |s| <= |patch| && patch[i..i + |s|] == s
  {
  }

  lemma SourceReadCarriedOut(input: seq<byte>, patch: seq<byte>, m: Machine, W: nat, b: Build, a: Action)
    requires Ready(input, patch, m, W, b, a) && a.SourceRead?
    ensures CarriesOut(input, patch, m, W, b, a)
  {
    hide Wrap, Decode, Encode, EncodeHeader, Splice, Spells;
    assert EncodeAction(a) == EncodeHeader(a.len, 0) + [];
    HeaderSpelled(patch, m.i, a.len, 0, [], W);
    Joins(b, m, input[m.written..m.written + a.len]);
  }

  lemma TargetReadCarriedOut(input: seq<byte>, patch: seq<byte>, m: Machine, W: nat, b: Build, a: Action)
    requires Ready(input, patch, m, W, b, a) && a.TargetRead?
    ensures CarriesOut(input, patch, m, W, b, a)
  {
    hide Wrap, Decode, Encode, EncodeHeader, Splice, Spells;
    HeaderSpelled(patch, m.i, |a.data|, 1, a.data, W);
    var next := m.i + |EncodeHeader(|a.data|, 1)|;
    SpelledThere(patch, next, a.data);
    Joins(b, m, a.data);
  }

  lemma OffsetSpelled(patch: seq<byte>, i: nat, delta: int)
    requires Spells(patch, i, Encode(EncodeDelta(delta)))
    requires -0x4000_0000 < delta < 0x4000_0000
    ensures Decode(patch, i).Some? && Decode(patch, i).value.next == i + |Encode(EncodeDelta(delta))|
    ensures SignedOffset(Wrap(Decode(patch, i).value.value)) == delta
  {
    DecodeSpelled(patch, i, EncodeDelta(delta));
    DeltaSurvives(delta);
  }

  lemma MoveExact(cursor: nat, offset: int, W: nat)
    requires 0 <= cursor + offset < W
    ensures Move(cursor, offset, W) == cursor + offset
  {
  }

  /** Bytes written behind the target join it. */
  lemma Joins(b: Build, m: Machine, data: seq<byte>)
    requires Matches(b, m) && m.written + |data| <= |m.out|
    ensures Splice(m.out, m.written, data)[..m.written + |data|] == b.target + data
  {
    hide Splice;
    SpliceJoins(m.out, 0, m.written, data);
    assert m.out[0..m.written] == b.target;
  }

  lemma SourceCopyCarriedOut(input: seq<byte>, patch: seq<byte>, m: Machine, W: nat, b: Build, a: Action)
    requires Ready(input, patch, m, W, b, a) && a.SourceCopy?
    ensures CarriesOut(input, patch, m, W, b, a)
  {
    hide Wrap, Decode, Encode, SignedOffset, Move, EncodeHeader, Splice, Spells;
    var header := EncodeHeader(a.len, 2);
    HeaderSpelled(patch, m.i, a.len, 2, Encode(EncodeDelta(a.delta)), W);
    OffsetSpelled(patch, m.i + |header|, a.delta);
    MoveExact(m.src, a.delta, W);
    var s := m.src + a.delta;
    Joins(b, m, input[s..s + a.len]);
  }

  lemma TargetCopyCarriedOut(input: seq<byte>, patch: seq<byte>, m: Machine, W: nat, b: Build, a: Action)
    requires Ready(input, patch, m, W, b, a) && a.TargetCopy?
    ensures CarriesOut(input, patch, m, W, b, a)
  {
    hide Wrap, Decode, Encode, SignedOffset, Move, EncodeHeader, CopyForward, Extend, Spells;
    var header := EncodeHeader(a.len, 3);
    HeaderSpelled(patch, m.i, a.len, 3, Encode(EncodeDelta(a.delta)), W);
    OffsetSpelled(patch, m.i + |header|, a.delta);
    MoveExact(m.dst, a.delta, W);
    CopyExtends(m.out, m.written, m.dst + a.delta, a.len);
  }

  lemma StepCarriesOut(input: seq<byte>, patch: seq<byte>, m: Machine, W: nat, b: Build, a: Action)
    requires Ready(input, patch, m, W, b, a)
    ensures CarriesOut(input, patch, m, W, b, a)
  {
    match a
    case SourceRead(_) => SourceReadCarriedOut(input, patch, m, W, b, a);
    case TargetRead(_) => TargetReadCarriedOut(input, patch, m, W, b, a);
    case SourceCopy(_, _) => SourceCopyCarriedOut(input, patch, m, W, b, a);
    case TargetCopy(_, _) => TargetCopyCarriedOut(input, patch, m, W, b, a);
  }

  /** The first of the actions, and the others. */
  lemma FirstAction(input: seq<byte>, b: Build, actions: seq<Action>, W: nat)
    requires AllFit(input, b, actions) && AllEncodable(actions, W) && actions != []
    ensures var a, rest := actions[0], actions[1..];
            && Fits(input, b, a) && AllFit(input, Apply(input, b, a), rest)
            && Encodable(a, W) && AllEncodable(rest, W)
            && EncodeActions(actions) == EncodeAction(a) + EncodeActions(rest)
            && Perform(input, b, actions) == Perform(input, Apply(input, b, a), rest)
            && |b.target| + Length(a) <= |Perform(input, b, actions).target|
  {
    hide Apply, Fits, EncodeAction;
  }

  lemma AllPositive(actions: seq<Action>, W: nat)
    requires AllEncodable(actions, W)
    ensures forall k :: 0 <= k < |actions| ==> Length(actions[k]) > 0
  {
  }

  lemma RunNext(input: seq<byte>, patch: seq<byte>, m: Machine, W: nat)
    requires W > 0
    ensures m.i >= |patch| - 12 ==> Run(input, patch, m, W) == Some(m)
    ensures m.i < |patch| - 12 && Step(input, patch, m, W).Some? ==>
              Run(input, patch, m, W) == Run(input, patch, Step(input, patch, m, W).value, W)
  {
  }

  lemma NoActions(input: seq<byte>, b: Build)
    ensures EncodeActions([]) == [] && AllFit(input, b, []) && Perform(input, b, []) == b
  {
  }

  /** The action loop of the C code performs any valid list of actions that the patch spells. */
  lemma {:induction false} RunPerforms(input: seq<byte>, patch: seq<byte>, m: Machine, W: nat,
                                       b: Build, actions: seq<Action>)
    requires SizeT(W) && |input| < W && |m.out| < W && Matches(b, m)
    requires AllFit(input, b, actions) && AllEncodable(actions, W)
    requires |patch| >= 12 && m.i <= |patch| - 12 && patch[m.i..|patch| - 12] == EncodeActions(actions)
    requires |Perform(input, b, actions).target| <= |m.out|
    ensures var r := Run(input, patch, m, W);
            r.Some? && r.value.i == |patch| - 12 && Matches(Perform(input, b, actions), r.value)
    decreases |actions|
  {
    hide Run, Step, Perform, AllFit, Fits, Apply, EncodeAction, EncodeActions, Encodable;
    AllPositive(actions, W);
    RunNext(input, patch, m, W);
    if actions == [] {
      NoActions(input, b);
    } else {
      var a, rest := actions[0], actions[1..];
      FirstAction(input, b, actions, W);
      AllPositive(rest, W);
      assert Length(a) > 0;
      assert patch[m.i..|patch| - 12] == EncodeAction(a) + EncodeActions(rest);
      SpellsParts(patch, m.i, EncodeAction(a), EncodeActions(rest));
      StepCarriesOut(input, patch, m, W, b, a);
      var m' := Step(input, patch, m, W).value;
      RestSpelled(patch, m.i, m'.i, EncodeAction(a), EncodeActions(rest));
      RunPerforms(input, patch, m', W, Apply(input, b, a), rest);
    }
  }

  lemma RestSpelled(patch: seq<byte>, i: nat, j: nat, s: seq<byte>, t: seq<byte>)
    requires |patch| >= 12 && i <= |patch| - 12 && patch[i..|patch| - 12] == s + t && j == i + |s|
    ensures j <= |patch| - 12 && patch[j..|patch| - 12] == t
  {
    assert patch[j..|patch| - 12] == patch[i..|patch| - 12][|s|..];
  }
}
