/**
 What a BPS patch means, independently of how the C code applies it: a list of actions that build
 the target from left to right, and the bytes that spell the list.
 */
module BpsActions {
  import opened Arith
  import opened Words
  import opened BpsNumber

  /** Lengths are positive; `delta` moves the read cursor of the copy before it starts. */
  datatype Action =
    | SourceRead(len: nat)
    | TargetRead(data: seq<byte>)
    | SourceCopy(len: nat, delta: int)
    | TargetCopy(len: nat, delta: int)

  /** The target built so far and the two read cursors. */
  datatype Build = Build(target: seq<byte>, src: int, dst: int)

  const START := Build([], 0, 0)

  function Length(a: Action): nat {
    match a
    case SourceRead(len) => len
    case TargetRead(data) => |data|
    case SourceCopy(len, _) => len
    case TargetCopy(len, _) => len
  }

  /** Append `len` bytes read from position `p` on; bytes just appended may be read again. */
  function Extend(t: seq<byte>, p: nat, len: nat): (r: seq<byte>)
    requires p < |t|
    ensures |r| == |t| + len && t <= r
    decreases len
  {
    if len == 0 then t else Extend(t + [t[p]], p + 1, len - 1)
  }

  predicate Fits(source: seq<byte>, b: Build, a: Action) {
    Length(a) > 0 &&
    match a
    case SourceRead(len) => |b.target| + len <= |source|
    case TargetRead(data) => true
    case SourceCopy(len, delta) => 0 <= b.src + delta && b.src + delta + len <= |source|
    case TargetCopy(len, delta) => 0 <= b.dst + delta < |b.target|
  }

  function Apply(source: seq<byte>, b: Build, a: Action): (r: Build)
    requires Fits(source, b, a)
    ensures b.target <= r.target && |r.target| == |b.target| + Length(a)
  {
    match a
    case SourceRead(len) => b.(target := b.target + source[|b.target|..|b.target| + len])
    case TargetRead(data) => b.(target := b.target + data)
    case SourceCopy(len, delta) =>
      var s := b.src + delta;
      b.(target := b.target + source[s..s + len], src := s + len)
    case TargetCopy(len, delta) =>
      var d := b.dst + delta;
      b.(target := Extend(b.target, d, len), dst := d + len)
  }

  predicate AllFit(source: seq<byte>, b: Build, actions: seq<Action>)
    decreases |actions|
  {
    actions == [] ||
    (Fits(source, b, actions[0]) && AllFit(source, Apply(source, b, actions[0]), actions[1..]))
  }

  function Perform(source: seq<byte>, b: Build, actions: seq<Action>): (r: Build)
    requires AllFit(source, b, actions)
    ensures b.target <= r.target
    decreases |actions|
  {
    if actions == [] then b else Perform(source, Apply(source, b, actions[0]), actions[1..])
  }

  lemma ExtendFirst(t: seq<byte>, p: nat, len: nat)
    requires p < |t| && len > 0
    ensures Extend(t, p, len) == Extend(t + [t[p]], p + 1, len - 1)
  {
  }

  /** Where in its period position `n` stands. */
  function Phase(n: nat, d: nat): nat
    requires d > 0
  {
    n % d
  }

  lemma {:induction false} ExtendRepeats(t: seq<byte>, p: nat, len: nat, k: nat)
    requires p < |t| && |t| <= k < |t| + len
    ensures var d := |t| - p;
            Phase(k - |t|, d) < d && Extend(t, p, len)[k] == t[p + Phase(k - |t|, d)]
    decreases len
  {
    hide Extend, Phase;
    var d, t', r := |t| - p, t + [t[p]], Extend(t, p, len);
    ExtendFirst(t, p, len);
    NextInPeriod(k - |t|, d);
    if k == |t| {
      assert r[..|t'|] == t' && r[k] == r[..|t'|][k];
    } else {
      ExtendRepeats(t', p + 1, len - 1, k);
      var j := Phase(k - |t'|, d);
      assert t'[p + 1 + j] == if j == d - 1 then t[p] else t[p + 1 + j];
    }
  }

  lemma {:induction false} ExtendLooksBack(t: seq<byte>, p: nat, len: nat, k: nat)
    requires p < |t| && |t| <= k < |t| + len
    ensures Extend(t, p, len)[k] == Extend(t, p, len)[k - (|t| - p)]
    decreases len
  {
    hide Extend;
    var t', r := t + [t[p]], Extend(t, p, len);
    ExtendFirst(t, p, len);
    if k == |t| {
      assert r[..|t'|] == t' && r[k] == r[..|t'|][k] && r[p] == r[..|t'|][p];
    } else {
      ExtendLooksBack(t', p + 1, len - 1, k);
    }
  }

  /** A copy from `d` bytes back repeats the last `d` bytes for as long as it runs. */
  lemma ExtendIsPeriodic(t: seq<byte>, p: nat, len: nat, k: nat)
    requires p < |t| && |t| <= k < |t| + len
    ensures Extend(t, p, len)[k] == Extend(t, p, len)[k - (|t| - p)]
    ensures Extend(t, p, len)[k] == t[p + (k - |t|) % (|t| - p)]
  {
    hide Extend;
    ExtendLooksBack(t, p, len, k);
    ExtendRepeats(t, p, len, k);
  }

  lemma NextInPeriod(n: nat, d: nat)
    requires d > 0
    ensures n == 0 ==> Phase(n, d) == 0
    ensures n > 0 ==> Phase(n, d) == if Phase(n - 1, d) == d - 1 then 0 else Phase(n - 1, d) + 1
    ensures Phase(n, d) < d
  {
    if n == 0 {
      DivModUnique(0, d, 0, 0);
    } else {
      var q, r := (n - 1) / d, (n - 1) % d;
      DivMod(n - 1, d);
      if r == d - 1 {
        Spread(q, 1, d);
        DivModUnique(n, d, q + 1, 0);
      } else {
        DivModUnique(n, d, q, r + 1);
      }
    }
  }

  // ----- spelling

  function EncodeDelta(delta: int): nat {
    if delta < 0 then 2 * -delta + 1 else 2 * delta
  }

  function EncodeHeader(len: nat, mode: nat): (s: seq<byte>)
    requires len > 0 && mode < 4
    ensures |s| > 0
  {
    Encode(4 * (len - 1) + mode)
  }

  function EncodeAction(a: Action): (s: seq<byte>)
    requires Length(a) > 0
    ensures |s| > 0
  {
    match a
    case SourceRead(len) => EncodeHeader(len, 0)
    case TargetRead(data) => EncodeHeader(|data|, 1) + data
    case SourceCopy(len, delta) => EncodeHeader(len, 2) + Encode(EncodeDelta(delta))
    case TargetCopy(len, delta) => EncodeHeader(len, 3) + Encode(EncodeDelta(delta))
  }

  function EncodeActions(actions: seq<Action>): seq<byte>
    requires forall k :: 0 <= k < |actions| ==> Length(actions[k]) > 0
  {
    if actions == [] then [] else EncodeAction(actions[0]) + EncodeActions(actions[1..])
  }

  /** What the words of the C code can hold: a header in a `size_t`, an offset in an `int`. */
  predicate Encodable(a: Action, W: nat) {
    Length(a) > 0 && 4 * Length(a) <= W &&
    (a.SourceCopy? || a.TargetCopy? ==> -0x4000_0000 < a.delta < 0x4000_0000)
  }

  predicate AllEncodable(actions: seq<Action>, W: nat) {
    forall k :: 0 <= k < |actions| ==> Encodable(actions[k], W)
  }

  // ----- every target can be spelled

  const CHUNK: nat := 0x1000_0000

  function FirstPiece(target: seq<byte>): (n: nat)
    ensures n <= |target| && n <= CHUNK && (target != [] ==> n > 0)
  {
    if |target| <= CHUNK then |target| else CHUNK
  }

  /** The plainest patch: the target itself, in pieces whose length a 32-bit header can hold. */
  function Verbatim(target: seq<byte>): (actions: seq<Action>)
    ensures forall k :: 0 <= k < |actions| ==> actions[k].TargetRead? && 0 < |actions[k].data| <= CHUNK
    ensures forall k :: 0 <= k < |actions| ==> Length(actions[k]) > 0
    decreases |target|
  {
    if target == [] then []
    else
      var n := FirstPiece(target);
      [TargetRead(target[..n])] + Verbatim(target[n..])
  }

  lemma PerformFirst(source: seq<byte>, b: Build, a: Action, rest: seq<Action>)
    requires Fits(source, b, a)
    ensures AllFit(source, b, [a] + rest) == AllFit(source, Apply(source, b, a), rest)
    ensures AllFit(source, b, [a] + rest) ==>
              Perform(source, b, [a] + rest) == Perform(source, Apply(source, b, a), rest)
  {
    assert ([a] + rest)[1..] == rest;
  }

  lemma {:induction false} VerbatimBuilds(source: seq<byte>, b: Build, target: seq<byte>)
    ensures AllFit(source, b, Verbatim(target))
    ensures Perform(source, b, Verbatim(target)) == b.(target := b.target + target)
    decreases |target|
  {
    if target == [] {
      assert b.target + target == b.target;
    } else {
      var n := FirstPiece(target);
      var a, rest := TargetRead(target[..n]), target[n..];
      VerbatimBuilds(source, Apply(source, b, a), rest);
      PerformFirst(source, b, a, Verbatim(rest));
      assert b.target + target == b.target + target[..n] + rest;
    }
  }
}
