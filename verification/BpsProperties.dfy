/** What `patch_bps` promises: it undoes the encoder, and it writes every byte of the target once. */
module BpsProperties {
  import opened Words
  import opened BpsNumber
  import opened BpsActions
  import opened BpsMachine
  import opened BpsPatch
  import opened Crc32
  import opened Memory

  // ----- decoding what was encoded

  const BPS1: seq<byte> := [0x42, 0x50, 0x53, 0x31]

  /** Everything before the checksums. */
  function EncodeBody(source: seq<byte>, metadata: seq<byte>, actions: seq<Action>, target: seq<byte>): seq<byte>
    requires forall k :: 0 <= k < |actions| ==> Length(actions[k]) > 0
  {
    var sizes := Encode(|source|) + (Encode(|target|) + (Encode(|metadata|) + (metadata + EncodeActions(actions))));
    BPS1 + sizes
  }

  function EncodePatch(source: seq<byte>, metadata: seq<byte>, actions: seq<Action>, target: seq<byte>): seq<byte>
    requires forall k :: 0 <= k < |actions| ==> Length(actions[k]) > 0
  {
    var sums := EncodeBody(source, metadata, actions, target) +
                (FourBytes(Checksum(source)) + FourBytes(Checksum(target)));
    sums + FourBytes(Checksum(sums))
  }

  lemma SixFields(patch: seq<byte>, h: seq<byte>, a: seq<byte>, b: seq<byte>, c: seq<byte>, d: seq<byte>, e: seq<byte>)
    requires Spells(patch, 0, h + (a + (b + (c + (d + e)))))
    ensures Spells(patch, 0, h) && Spells(patch, |h|, a)
    ensures Spells(patch, |h| + |a|, b) && Spells(patch, |h| + |a| + |b|, c)
    ensures Spells(patch, |h| + |a| + |b| + |c| + |d|, e)
  {
    hide Spells;
    SpellsParts(patch, 0, h, a + (b + (c + (d + e))));
    SpellsParts(patch, |h|, a, b + (c + (d + e)));
    SpellsParts(patch, |h| + |a|, b, c + (d + e));
    SpellsParts(patch, |h| + |a| + |b|, c, d + e);
    SpellsParts(patch, |h| + |a| + |b| + |c|, d, e);
  }

  /** The patch spells these fields one after the other from byte 4 on. */
  lemma PatchFields(patch: seq<byte>, source: seq<byte>, metadata: seq<byte>, actions: seq<Action>, target: seq<byte>)
    requires forall k :: 0 <= k < |actions| ==> Length(actions[k]) > 0
    requires patch == EncodePatch(source, metadata, actions, target)
    ensures |patch| == |EncodeBody(source, metadata, actions, target)| + 12
    ensures Spells(patch, 0, EncodeBody(source, metadata, actions, target))
    ensures Spells(patch, |patch| - 12, FourBytes(Checksum(source)))
    ensures Spells(patch, |patch| - 8, FourBytes(Checksum(target)))
    ensures Spells(patch, |patch| - 4, FourBytes(Checksum(patch[..|patch| - 4])))
  {
    hide Encode, EncodeActions, FourBytes, Checksum, EncodeBody;
    var body := EncodeBody(source, metadata, actions, target);
    var c1, c2 := FourBytes(Checksum(source)), FourBytes(Checksum(target));
    var sums := body + (c1 + c2);
    var c3 := FourBytes(Checksum(sums));
    assert patch == sums + c3 && patch[..|patch| - 4] == sums;
    assert Spells(patch, 0, sums + c3);
    SpellsParts(patch, 0, sums, c3);
    SpellsParts(patch, 0, body, c1 + c2);
    SpellsParts(patch, |body|, c1, c2);
  }

  lemma BodyLength(source: seq<byte>, metadata: seq<byte>, actions: seq<Action>, target: seq<byte>)
    requires forall k :: 0 <= k < |actions| ==> Length(actions[k]) > 0
    ensures |EncodeBody(source, metadata, actions, target)| == 
            4 + |Encode(|source|)| + |Encode(|target|)| + |Encode(|metadata|)| + |metadata| + |EncodeActions(actions)|
  {
    hide Encode, EncodeActions;
  }

  lemma SpelledSlice(patch: seq<byte>, i: nat, s: seq<byte>, j: nat)
    requires Spells(patch, i, s) && j == i + |s|
    ensures j <= |patch| && patch[i..j] == s
  {
  }

  lemma BodyUnfolds(source: seq<byte>, metadata: seq<byte>, actions: seq<Action>, target: seq<byte>)
    requires forall k :: 0 <= k < |actions| ==> Length(actions[k]) > 0
    ensures EncodeBody(source, metadata, actions, target) ==
            BPS1 + (Encode(|source|) + (Encode(|target|) + (Encode(|metadata|) + (metadata + EncodeActions(actions)))))
  {
  }

  lemma BodyFields(patch: seq<byte>, source: seq<byte>, metadata: seq<byte>, actions: seq<Action>, target: seq<byte>)
    requires forall k :: 0 <= k < |actions| ==> Length(actions[k]) > 0
    requires Spells(patch, 0, EncodeBody(source, metadata, actions, target))
    requires |patch| == |EncodeBody(source, metadata, actions, target)| + 12
    ensures |patch| >= 19 && patch[..4] == BPS1
    ensures var i := 4 + |Encode(|source|)|;
            var j := i + |Encode(|target|)|;
            var k := j + |Encode(|metadata|)|;
            && Spells(patch, 4, Encode(|source|)) && Spells(patch, i, Encode(|target|))
            && Spells(patch, j, Encode(|metadata|))
            && k + |metadata| <= |patch| - 12
            && patch[k + |metadata|..|patch| - 12] == EncodeActions(actions)
  {
    hide Encode, EncodeActions, Spells, EncodeBody;
    BodyUnfolds(source, metadata, actions, target);
    var e1, e2, e3 := Encode(|source|), Encode(|target|), Encode(|metadata|);
    var acts := EncodeActions(actions);
    SixFields(patch, BPS1, e1, e2, e3, metadata, acts);
    SpelledSlice(patch, 0, BPS1, 4);
    BodyLength(source, metadata, actions, target);
    SpelledSlice(patch, 4 + |e1| + |e2| + |e3| + |metadata|, acts, |patch| - 12);
  }

  lemma SizeSpelled(patch: seq<byte>, i: nat, n: nat, W: nat)
    requires SizeT(W) && n < W && Spells(patch, i, Encode(n))
    ensures ReadSize(patch, i, W) == Some(Number(n, i + |Encode(n)|))
  {
    DecodeSpelled(patch, i, n);
  }

  lemma RunCompletes(input: seq<byte>, patch: seq<byte>, i: nat, out: seq<byte>, W: nat, actions: seq<Action>)
    requires SizeT(W) && |input| < W && |out| < W
    requires AllFit(input, START, actions) && AllEncodable(actions, W)
    requires |Perform(input, START, actions).target| == |out|
    requires |patch| >= 19 && i <= |patch| - 12 && patch[i..|patch| - 12] == EncodeActions(actions)
    ensures var r := Run(input, patch, Machine(i, 0, 0, 0, out), W);
            r.Some? && r.value.i == |patch| - 12 && r.value.written == |out| &&
            r.value.out == Perform(input, START, actions).target
  {
    var m := Machine(i, 0, 0, 0, out);
    assert Matches(START, m);
    RunPerforms(input, patch, m, W, START, actions);
    var m' := Run(input, patch, m, W).value;
    assert m'.out[..m'.written] == m'.out;
  }

  /** Where the actions start in an encoded patch. */
  function ActionsStart(source: seq<byte>, metadata: seq<byte>, target: seq<byte>): nat {
    4 + |Encode(|source|)| + |Encode(|target|)| + |Encode(|metadata|)| + |metadata|
  }

  /** An encoded patch is read up to its actions, whatever they are and whatever target it names. */
  lemma EncodedHead(input: seq<byte>, source: seq<byte>, metadata: seq<byte>, actions: seq<Action>,
                    target: seq<byte>, out: Option<seq<byte>>, initial: nat, W: nat)
    requires SizeT(W) && |input| == |source| < W && |target| < W
    requires forall k :: 0 <= k < |actions| ==> Length(actions[k]) > 0
    requires |EncodePatch(source, metadata, actions, target)| < W
    requires out.Some? ==> |out.value| == |target| == initial
    ensures var patch, i := EncodePatch(source, metadata, actions, target), ActionsStart(source, metadata, target);
            && |patch| >= 19 && i <= |patch| - 12 && patch[i..|patch| - 12] == EncodeActions(actions)
            && BpsReply(input, patch, out, initial, W) ==
               if out.None? then Reply(0, |target|, []) else Finish(input, patch, i, out.value, W)
  {
    hide Encode, EncodeActions, EncodePatch, EncodeBody, Checksum, FourBytes, Spells, Decode, ReadSize, Finish;
    var patch := EncodePatch(source, metadata, actions, target);
    PatchFields(patch, source, metadata, actions, target);
    BodyFields(patch, source, metadata, actions, target);
    var i := 4 + |Encode(|source|)|;
    var j := i + |Encode(|target|)|;
    SizeSpelled(patch, 4, |source|, W);
    SizeSpelled(patch, i, |target|, W);
    SizeSpelled(patch, j, |metadata|, W);
  }

  /** At the end of its actions an encoded patch is accepted if input and output have the checksums that it names. */
  lemma EncodedEnd(input: seq<byte>, source: seq<byte>, metadata: seq<byte>, actions: seq<Action>,
                   target: seq<byte>, i: nat, out: seq<byte>, m: Machine, W: nat)
    requires W > 0 && forall k :: 0 <= k < |actions| ==> Length(actions[k]) > 0
    requires var patch := EncodePatch(source, metadata, actions, target);
             |patch| >= 19 && Run(input, patch, Machine(i, 0, 0, 0, out), W) == Some(m) && m.i == |patch| - 12
    requires m.written == |out| == |m.out|
    ensures var patch := EncodePatch(source, metadata, actions, target);
            Finish(input, patch, i, out, W) ==
            Reply(if Checksum(input) == Checksum(source) && Checksum(m.out) == Checksum(target) then 0 else -1,
                  |out|, m.out)
  {
    hide Checksum, FourBytes, Run, EncodePatch, EncodeBody, Word32;
    var patch := EncodePatch(source, metadata, actions, target);
    PatchFields(patch, source, metadata, actions, target);
    FourBytesRead(patch, |patch| - 12, Checksum(source));
    FourBytesRead(patch, |patch| - 8, Checksum(target));
    FourBytesRead(patch, |patch| - 4, Checksum(patch[..|patch| - 4]));
  }

  /**
   Any valid list of actions, with any metadata, spelled as a patch: the size is found, and the
   list's own target comes out whatever the output buffer held before.
   */
  lemma BpsDecodesEncoding(source: seq<byte>, metadata: seq<byte>, actions: seq<Action>,
                           prefill: seq<byte>, initial: nat, W: nat)
    requires SizeT(W) && AllFit(source, START, actions) && AllEncodable(actions, W)
    requires var target := Perform(source, START, actions).target;
             |prefill| == |target| && |source| < W && |target| < W &&
             |EncodePatch(source, metadata, actions, target)| < W
    ensures var target := Perform(source, START, actions).target;
            var patch := EncodePatch(source, metadata, actions, target);
            && BpsReply(source, patch, None, initial, W) == Reply(0, |target|, [])
            && BpsReply(source, patch, Some(prefill), |target|, W) == Reply(0, |target|, target)
  {
    hide Checksum, Run, Perform, EncodePatch, BpsReply, Finish, ActionsStart, EncodeActions;
    var target := Perform(source, START, actions).target;
    var patch, i := EncodePatch(source, metadata, actions, target), ActionsStart(source, metadata, target);
    EncodedHead(source, source, metadata, actions, target, None, initial, W);
    EncodedHead(source, source, metadata, actions, target, Some(prefill), |target|, W);
    RunCompletes(source, patch, i, prefill, W, actions);
    var m := Run(source, patch, Machine(i, 0, 0, 0, prefill), W).value;
    EncodedEnd(source, source, metadata, actions, target, i, prefill, m, W);
  }

  // ----- every byte is written once, from left to right

  lemma {:induction false} CopyForwardFrame(out: seq<byte>, to: nat, from: nat, len: nat)
    requires to + len <= |out| && from + len <= |out|
    ensures CopyForward(out, to, from, len)[..to] == out[..to]
    ensures CopyForward(out, to, from, len)[to + len..] == out[to + len..]
    ensures len > 0 ==> CopyForward(out, to, from, len)[to] == out[from]
    decreases len
  {
    if len > 0 {
      CopyForwardFrame(out[to := out[from]], to + 1, from + 1, len - 1);
    }
  }

  /** A step leaves alone what was written before it and what it does not reach. */
  lemma StepWritesNext(input: seq<byte>, patch: seq<byte>, m: Machine, W: nat)
    requires W > 0 && Step(input, patch, m, W).Some?
    ensures var m' := Step(input, patch, m, W).value;
            m'.out[..m.written] == m.out[..m.written] && m'.out[m'.written..] == m.out[m'.written..]
  {
    hide Step, EffectOf, CopyForward, Splice;
    assert m.(out := m.out) == m;
    StepHasEffect(input, patch, m, m.out, W);
    match EffectOf(input, patch, m, W)
    case Writes(data) =>
      SpliceKeeps(m.out, m.written, data, 0, m.written);
      SpliceKeeps(m.out, m.written, data, m.written + |data|, |m.out|);
      WholeParts(m.out, Splice(m.out, m.written, data), m.written, m.written + |data|);
    case Copies(from, len) =>
      CopyForwardFrame(m.out, m.written, from, len);
  }

  lemma WholeParts(a: seq<byte>, b: seq<byte>, i: nat, j: nat)
    requires i <= |a| && j <= |a| && |a| == |b| && a[0..i] == b[0..i] && a[j..|a|] == b[j..|b|]
    ensures a[..i] == b[..i] && a[j..] == b[j..]
  {
    assert a[..i] == a[0..i] && b[..i] == b[0..i];
    assert a[j..] == a[j..|a|] && b[j..] == b[j..|b|];
  }

  lemma {:induction false} RunKeepsWritten(input: seq<byte>, patch: seq<byte>, m: Machine, W: nat)
    requires W > 0 && Run(input, patch, m, W).Some? && m.written <= |m.out|
    ensures var r := Run(input, patch, m, W).value;
            m.written <= r.written <= |m.out| && r.out[..m.written] == m.out[..m.written]
    decreases |patch| - m.i
  {
    if m.i < |patch| - 12 {
      var m' := Step(input, patch, m, W).value;
      StepWritesNext(input, patch, m, W);
      RunKeepsWritten(input, patch, m', W);
      var r := Run(input, patch, m, W).value;
      assert r.out[..m.written] == r.out[..m'.written][..m.written];
      assert m'.out[..m.written] == m'.out[..m'.written][..m.written];
    }
  }

  // ----- when the buffer's former contents matter

  /** If the next action is a target copy, it starts below what has been written. */
  ghost predicate StepReadsBehind(patch: seq<byte>, m: Machine, W: nat)
    requires W > 0
  {
    var header := Decode(patch, m.i);
    header.Some? && (Wrap(header.value.value) % W) % 4 == 3 ==>
      var offset := Decode(patch, header.value.next);
      offset.Some? ==> Move(m.dst, SignedOffset(Wrap(offset.value.value)), W) < m.written
  }

  ghost predicate RunReadsBehind(input: seq<byte>, patch: seq<byte>, m: Machine, W: nat)
    requires W > 0
    decreases |patch| - m.i
  {
    m.i < |patch| - 12 ==>
      StepReadsBehind(patch, m, W) &&
      (Step(input, patch, m, W).Some? ==> RunReadsBehind(input, patch, Step(input, patch, m, W).value, W))
  }

  lemma {:induction false} CopySamePrefix(a: seq<byte>, b: seq<byte>, to: nat, from: nat, len: nat)
    requires |a| == |b| && from < to && to + len <= |a| && a[..to] == b[..to]
    ensures CopyForward(a, to, from, len)[..to + len] == CopyForward(b, to, from, len)[..to + len]
  {
    CopyExtends(a, to, from, len);
    CopyExtends(b, to, from, len);
  }

  /** Cursors never depend on the buffer. */
  lemma StepSameCursors(input: seq<byte>, patch: seq<byte>, m: Machine, out: seq<byte>, W: nat)
    requires W > 0 && |out| == |m.out| && m.written <= |out|
    ensures var r, s := Step(input, patch, m, W), Step(input, patch, m.(out := out), W);
            r.Some? == s.Some? && (r.Some? ==> s.value == r.value.(out := s.value.out))
  {
    hide Decode, Wrap, SignedOffset, Move, CopyForward, Splice;
  }

  /** What a step does to the buffer: it writes given data or copies from a given place. */
  datatype Effect = Writes(data: seq<byte>) | Copies(from: nat, len: nat)

  function EffectOf(input: seq<byte>, patch: seq<byte>, m: Machine, W: nat): (e: Effect)
    requires W > 0 && Step(input, patch, m, W).Some?
    ensures e.Writes? ==> m.written + |e.data| == Step(input, patch, m, W).value.written <= |m.out|
    ensures e.Copies? ==>
              m.written + e.len == Step(input, patch, m, W).value.written <= |m.out| && e.from + e.len <= |m.out|
  {
    var header := Decode(patch, m.i).value;
    var word := Wrap(header.value) % W;
    var mode, len := word % 4, word / 4 + 1;
    if mode == 0 then Writes(input[m.written..m.written + len])
    else if mode == 1 then Writes(patch[header.next..header.next + len])
    else
      var offset := SignedOffset(Wrap(Decode(patch, header.next).value.value));
      if mode == 2 then
        var s := Move(m.src, offset, W);
        Writes(input[s..s + len])
      else Copies(Move(m.dst, offset, W), len)
  }

  lemma OwnEffect(input: seq<byte>, patch: seq<byte>, m: Machine, W: nat)
    requires W > 0 && Step(input, patch, m, W).Some?
    ensures var e, r := EffectOf(input, patch, m, W), Step(input, patch, m, W).value.out;
            && (e.Writes? ==> r == Splice(m.out, m.written, e.data))
            && (e.Copies? ==> e.len > 0 && r == CopyForward(m.out, m.written, e.from, e.len))
  {
    hide Decode, Wrap, SignedOffset, Move, CopyForward, Splice;
  }

  lemma SameEffect(input: seq<byte>, patch: seq<byte>, m: Machine, out: seq<byte>, W: nat)
    requires W > 0 && |out| == |m.out| && Step(input, patch, m, W).Some?
    requires Step(input, patch, m.(out := out), W).Some?
    ensures EffectOf(input, patch, m.(out := out), W) == EffectOf(input, patch, m, W)
  {
    hide Decode, Wrap, SignedOffset, Move, Step;
  }

  /** The effect does not depend on the buffer either. */
  lemma StepHasEffect(input: seq<byte>, patch: seq<byte>, m: Machine, out: seq<byte>, W: nat)
    requires W > 0 && |out| == |m.out| && m.written <= |out| && Step(input, patch, m, W).Some?
    ensures Step(input, patch, m.(out := out), W).Some?
    ensures var e, r := EffectOf(input, patch, m, W), Step(input, patch, m.(out := out), W).value.out;
            && (e.Writes? ==> r == Splice(out, m.written, e.data))
            && (e.Copies? ==> e.len > 0 && r == CopyForward(out, m.written, e.from, e.len))
  {
    hide Step, EffectOf, CopyForward, Splice;
    StepSameCursors(input, patch, m, out, W);
    SameEffect(input, patch, m, out, W);
    OwnEffect(input, patch, m.(out := out), W);
  }

  /** Reading behind is a matter of copies. */
  lemma EffectReadsBehind(input: seq<byte>, patch: seq<byte>, m: Machine, W: nat)
    requires W > 0 && Step(input, patch, m, W).Some?
    ensures var e := EffectOf(input, patch, m, W);
            StepReadsBehind(patch, m, W) <==> e.Writes? || e.from < m.written
  {
    hide Decode, Wrap, SignedOffset, Move, CopyForward, Splice;
  }

  lemma SpliceSamePrefix(a: seq<byte>, b: seq<byte>, at: nat, data: seq<byte>)
    requires |a| == |b| && at + |data| <= |a| && a[..at] == b[..at]
    ensures Splice(a, at, data)[..at + |data|] == Splice(b, at, data)[..at + |data|]
  {
    hide Splice;
    SpliceJoins(a, 0, at, data);
    SpliceJoins(b, 0, at, data);
    assert a[0..at] == a[..at] && b[0..at] == b[..at];
  }

  /** The written part only depends on the written part. */
  lemma StepSamePrefix(input: seq<byte>, patch: seq<byte>, m: Machine, out: seq<byte>, W: nat)
    requires W > 0 && |out| == |m.out| && m.written <= |out| && out[..m.written] == m.out[..m.written]
    requires Step(input, patch, m, W).Some? && Step(input, patch, m.(out := out), W).Some?
    requires StepReadsBehind(patch, m, W)
    ensures var r, s := Step(input, patch, m, W).value, Step(input, patch, m.(out := out), W).value;
            s.written == r.written && s.out[..s.written] == r.out[..r.written]
  {
    hide Step, EffectOf, StepReadsBehind, CopyForward, Splice;
    assert m.(out := m.out) == m;
    StepSameCursors(input, patch, m, out, W);
    StepHasEffect(input, patch, m, out, W);
    StepHasEffect(input, patch, m, m.out, W);
    EffectReadsBehind(input, patch, m, W);
    match EffectOf(input, patch, m, W)
    case Writes(data) => SpliceSamePrefix(m.out, out, m.written, data);
    case Copies(from, len) => CopySamePrefix(m.out, out, m.written, from, len);
  }

  /** Both together. */
  lemma StepIgnoresRest(input: seq<byte>, patch: seq<byte>, m: Machine, out: seq<byte>, W: nat)
    requires W > 0 && |out| == |m.out| && m.written <= |out|
    ensures var r, s := Step(input, patch, m, W), Step(input, patch, m.(out := out), W);
            r.Some? == s.Some? && (r.Some? ==> s.value == r.value.(out := s.value.out))
    ensures var r, s := Step(input, patch, m, W), Step(input, patch, m.(out := out), W);
            r.Some? && StepReadsBehind(patch, m, W) && out[..m.written] == m.out[..m.written] ==>
              s.value.out[..s.value.written] == r.value.out[..r.value.written]
  {
    hide Step, StepReadsBehind;
    StepSameCursors(input, patch, m, out, W);
    if Step(input, patch, m, W).Some? && StepReadsBehind(patch, m, W) && out[..m.written] == m.out[..m.written] {
      StepSamePrefix(input, patch, m, out, W);
    }
  }

  lemma {:induction false} RunIgnoresRest(input: seq<byte>, patch: seq<byte>, m: Machine, out: seq<byte>, W: nat)
    requires W > 0 && |out| == |m.out| && m.written <= |out|
    requires Run(input, patch, m, W).Some?
    ensures var r, s := Run(input, patch, m, W), Run(input, patch, m.(out := out), W);
            s.Some? && s.value == r.value.(out := s.value.out)
    ensures var r, s := Run(input, patch, m, W), Run(input, patch, m.(out := out), W);
            RunReadsBehind(input, patch, m, W) && out[..m.written] == m.out[..m.written] && r.value.written <= |out| ==>
              s.value.out[..s.value.written] == r.value.out[..r.value.written]
    decreases |patch| - m.i
  {
    hide Step, StepReadsBehind;
    StepIgnoresRest(input, patch, m, out, W);
    if m.i < |patch| - 12 {
      RunIgnoresRest(input, patch, Step(input, patch, m, W).value, Step(input, patch, m.(out := out), W).value.out, W);
    }
  }

  /** A byte that is not reached yet can be changed before or after the step. */
  lemma {:induction false} CopyCommutesWithChange(out: seq<byte>, to: nat, from: nat, len: nat, p: nat, x: byte)
    requires from < to && to + len <= p < |out|
    ensures CopyForward(out[p := x], to, from, len) == CopyForward(out, to, from, len)[p := x]
    decreases len
  {
    if len > 0 {
      var out' := out[to := out[from]];
      assert out[p := x][to := out[p := x][from]] == out'[p := x];
      CopyCommutesWithChange(out', to + 1, from + 1, len - 1, p, x);
    }
  }

  lemma SpliceCommutesWithChange(out: seq<byte>, at: nat, data: seq<byte>, p: nat, x: byte)
    requires at + |data| <= p < |out|
    ensures Splice(out[p := x], at, data) == Splice(out, at, data)[p := x]
  {
  }

  lemma StepCommutesWithChange(input: seq<byte>, patch: seq<byte>, m: Machine, p: nat, x: byte, W: nat)
    requires W > 0 && Step(input, patch, m, W).Some? && StepReadsBehind(patch, m, W)
    requires Step(input, patch, m, W).value.written <= p < |m.out|
    ensures var r := Step(input, patch, m, W).value;
            Step(input, patch, m.(out := m.out[p := x]), W) == Some(r.(out := r.out[p := x]))
  {
    hide Step, EffectOf, StepReadsBehind, CopyForward, Splice;
    assert m.(out := m.out) == m;
    StepSameCursors(input, patch, m, m.out[p := x], W);
    StepHasEffect(input, patch, m, m.out[p := x], W);
    StepHasEffect(input, patch, m, m.out, W);
    EffectReadsBehind(input, patch, m, W);
    match EffectOf(input, patch, m, W)
    case Writes(data) => SpliceCommutesWithChange(m.out, m.written, data, p, x);
    case Copies(from, len) => CopyCommutesWithChange(m.out, m.written, from, len, p, x);
  }

  /** A target copy that starts at or above `written` puts an old byte of the buffer in the target. */
  lemma StepCopiesOldByte(input: seq<byte>, patch: seq<byte>, m: Machine, x: byte, W: nat) returns (p: nat)
    requires W > 0 && Step(input, patch, m, W).Some? && !StepReadsBehind(patch, m, W) && m.written <= |m.out|
    ensures m.written <= p < |m.out|
    ensures Step(input, patch, m.(out := m.out[p := x]), W).Some?
    ensures Step(input, patch, m.(out := m.out[p := x]), W).value.out[m.written] == x
    ensures Step(input, patch, m, W).value.out[m.written] == m.out[p]
  {
    hide Step, EffectOf, StepReadsBehind, CopyForward;
    assert m.(out := m.out) == m;
    StepHasEffect(input, patch, m, m.out, W);
    EffectReadsBehind(input, patch, m, W);
    var e := EffectOf(input, patch, m, W);
    p := e.from;
    StepHasEffect(input, patch, m, m.out[p := x], W);
    CopyForwardFrame(m.out, m.written, p, e.len);
    CopyForwardFrame(m.out[p := x], m.written, p, e.len);
  }

  /** Finds the old byte that shows in the result. */
  lemma {:induction false} OldByteShows(input: seq<byte>, patch: seq<byte>, m: Machine, W: nat)
    returns (p: nat, x: byte)
    requires W > 0 && m.written <= |m.out|
    requires Run(input, patch, m, W).Some? && !RunReadsBehind(input, patch, m, W)
    ensures m.written <= p < |m.out| && Run(input, patch, m.(out := m.out[p := x]), W).Some?
    ensures Run(input, patch, m.(out := m.out[p := x]), W).value.out != Run(input, patch, m, W).value.out
    decreases |patch| - m.i
  {
    var m' := Step(input, patch, m, W).value;
    if StepReadsBehind(patch, m, W) {
      p, x := OldByteShows(input, patch, m', W);
      StepCommutesWithChange(input, patch, m, p, x, W);
    } else {
      p := StepCopiesOldByte(input, patch, m, 0, W);
      x := if m.out[p] == 0 then 1 else 0;
      p := StepCopiesOldByte(input, patch, m, x, W);
      var out := m.out[p := x];
      var n := m.(out := out);
      var n' := Step(input, patch, n, W).value;
      StepIgnoresRest(input, patch, m, out, W);
      RunIgnoresRest(input, patch, m', n'.out, W);
      RunKeepsWritten(input, patch, m', W);
      RunKeepsWritten(input, patch, n', W);
      var k := m.written;
      assert Run(input, patch, m, W).value.out[..m'.written][k] == m'.out[..m'.written][k];
      assert Run(input, patch, n, W).value.out[..n'.written][k] == n'.out[..n'.written][k];
    }
  }

  /**
   A run that fills the buffer gives the same target for every former contents of the buffer
   exactly when each target copy starts below what is written by then.
   */
  lemma PrefillIsIgnored(input: seq<byte>, patch: seq<byte>, i: nat, prefill: seq<byte>, W: nat)
    requires W > 0 && Run(input, patch, Machine(i, 0, 0, 0, prefill), W).Some?
    requires Run(input, patch, Machine(i, 0, 0, 0, prefill), W).value.written == |prefill|
    ensures RunReadsBehind(input, patch, Machine(i, 0, 0, 0, prefill), W) <==>
            forall other :: |other| == |prefill| ==>
              Run(input, patch, Machine(i, 0, 0, 0, other), W) == Run(input, patch, Machine(i, 0, 0, 0, prefill), W)
  {
    var m := Machine(i, 0, 0, 0, prefill);
    var r := Run(input, patch, m, W).value;
    if RunReadsBehind(input, patch, m, W) {
      forall other | |other| == |prefill|
        ensures Run(input, patch, Machine(i, 0, 0, 0, other), W) == Some(r)
      {
        RunIgnoresRest(input, patch, m, other, W);
        var s := Run(input, patch, m.(out := other), W).value;
        assert s.out == s.out[..s.written] && r.out == r.out[..r.written];
      }
    } else {
      var p, x := OldByteShows(input, patch, m, W);
      assert m.(out := prefill[p := x]) == Machine(i, 0, 0, 0, prefill[p := x]);
    }
  }
}
