/**
 The variable-length numbers of the BPS format, as `bps_decode` reads them: seven bits a byte,
 lowest first, the last byte marked by its high bit.  Every continuation adds one, which makes
 the coding a bijection: no number has two spellings.
 */
module BpsNumber {
  import opened Words

  const U64: nat := 0x1_0000_0000_0000_0000

  datatype Option<+T> = None | Some(value: T)

  /** A decoded number and the index of the byte after it. */
  datatype Number = Number(value: nat, next: nat)

  /** Exact value, not cut to 64 bits; `None` when the bytes end before a marked one. */
  function Decode(patch: seq<byte>, i: nat): (r: Option<Number>)
    ensures r.Some? ==> i < r.value.next <= |patch|
    decreases |patch| - i
  {
    if i >= |patch| then None
    else
      var x := patch[i] as nat;
      if x >= 128 then Some(Number(x - 128, i + 1))
      else
        match Decode(patch, i + 1)
        case None => None
        case Some(rest) => Some(Number(x + 128 * (rest.value + 1), rest.next))
  }

  /** The encoder of the format. */
  function Encode(n: nat): (s: seq<byte>)
    ensures |s| > 0
  {
    if n < 128 then [(n + 128) as byte] else [(n % 128) as byte] + Encode(n / 128 - 1)
  }

  /** The last byte, and no other, is marked. */
  ghost predicate Terminated(s: seq<byte>) {
    |s| > 0 && s[|s| - 1] >= 128 && forall k :: 0 <= k < |s| - 1 ==> s[k] < 128
  }

  lemma {:induction false} EncodeTerminated(n: nat)
    ensures Terminated(Encode(n))
  {
    if n >= 128 {
      EncodeTerminated(n / 128 - 1);
    }
  }

  /** Decoding reads back what was encoded, wherever it stands, and stops right behind it. */
  lemma {:induction false} DecodeEncode(before: seq<byte>, n: nat, after: seq<byte>)
    ensures Decode(before + Encode(n) + after, |before|) ==
            Some(Number(n, |before| + |Encode(n)|))
    decreases n
  {
    var s := before + Encode(n) + after;
    assert s[|before|] == Encode(n)[0];
    if n >= 128 {
      var rest := n / 128 - 1;
      assert s == (before + [Encode(n)[0]]) + Encode(rest) + after;
      DecodeEncode(before + [Encode(n)[0]], rest, after);
    }
  }

  /** Every terminated string is the encoding of its value: the coding is onto. */
  lemma {:induction false} EncodeDecode(s: seq<byte>, k: nat)
    requires Terminated(s) && k < |s|
    ensures Decode(s, k).Some? && Decode(s, k).value.next == |s|
    ensures Encode(Decode(s, k).value.value) == s[k..]
    decreases |s| - k
  {
    if k + 1 < |s| {
      EncodeDecode(s, k + 1);
      assert s[k..] == [s[k]] + s[k + 1..];
      var rest := Decode(s, k + 1).value.value;
      assert (s[k] as nat + 128 * (rest + 1)) / 128 == rest + 1;
    }
  }

  lemma DecodeInjective(s: seq<byte>, t: seq<byte>)
    requires Terminated(s) && Terminated(t)
    requires Decode(s, 0).Some? && Decode(t, 0).Some? && Decode(s, 0).value.value == Decode(t, 0).value.value
    ensures s == t
  {
    EncodeDecode(s, 0);
    EncodeDecode(t, 0);
    assert s[0..] == s && t[0..] == t;
  }

  /** The largest number of `k` bytes. */
  function Largest(k: nat): nat {
    if k == 0 then 0 else if k == 1 then 127 else 127 + 128 * (Largest(k - 1) + 1)
  }

  lemma {:induction false} ValueBound(s: seq<byte>, k: nat)
    requires Terminated(s) && k < |s|
    ensures Decode(s, k).Some? && Decode(s, k).value.value <= Largest(|s| - k)
    decreases |s| - k
  {
    if k + 1 < |s| {
      ValueBound(s, k + 1);
    }
  }

  lemma {:induction false} LargestGrows(j: nat, k: nat)
    requires 1 <= j <= k
    ensures Largest(j) <= Largest(k)
    decreases k
  {
    if j < k {
      LargestGrows(j, k - 1);
    }
  }

  /** Nine bytes always fit 64 bits; ten need not. */
  lemma NineBytesFit(s: seq<byte>)
    requires Terminated(s) && |s| <= 9
    ensures Decode(s, 0).Some? && Decode(s, 0).value.value < U64
  {
    hide Decode, Largest;
    ValueBound(s, 0);
    LargestGrows(|s|, 9);
    LargestSizes();
  }

  /** Every byte as large as it can be. */
  lemma {:induction false} LargestReached(s: seq<byte>, k: nat)
    requires k < |s| && s[|s| - 1] == 255 && forall i :: 0 <= i < |s| - 1 ==> s[i] == 127
    ensures Decode(s, k).Some? && Decode(s, k).value.value == Largest(|s| - k)
    decreases |s| - k
  {
    if k + 1 < |s| {
      LargestReached(s, k + 1);
    }
  }

  lemma LargestSizes()
    ensures Largest(9) < U64 <= Largest(10)
  {
    assert Largest(5) == 0x8_1020_407F;
    assert Largest(9) == 127 + 128 * (127 + 128 * (127 + 128 * (127 + 128 * (Largest(5) + 1) + 1) + 1) + 1);
  }

  lemma TenBytesOverflow()
    ensures Largest(10) >= U64
    ensures exists s :: |s| == 10 && Terminated(s) && Decode(s, 0).Some? && Decode(s, 0).value.value >= U64
  {
    hide Decode, Largest;
    var s: seq<byte> := [127, 127, 127, 127, 127, 127, 127, 127, 127, 255];
    LargestReached(s, 0);
    LargestSizes();
    assert Terminated(s);
  }

  // ----- the loop of the C code, in 64-bit arithmetic

  /** a, modulo 2^64, stands in for the exact A; likewise s for S. */
  lemma Accumulate(A: nat, a: nat, S: nat, s: nat, x: nat)
    requires a == A % U64 && s == S % U64
    ensures (a + x * s) % U64 == (A + x * S) % U64
  {
    var p, q := A / U64, S / U64;
    assert A == p * U64 + a && S == q * U64 + s;
    Distribute(x, q, s);
    assert A + x * S == (a + x * s) + (p + x * q) * U64;
    DropMultiple(a + x * s, p + x * q);
  }

  lemma Distribute(x: nat, q: nat, s: nat)
    ensures x * (q * U64 + s) == (x * q) * U64 + x * s
  {
  }

  lemma DropMultiple(r: nat, k: nat)
    ensures (r + k * U64) % U64 == r % U64
  {
  }

  /** What a 64-bit word keeps of a number. */
  function Wrap(x: nat): nat {
    x % U64
  }

  /** `data += x * shift` on 64-bit words. */
  function MulAdd(data: nat, x: nat, shift: nat): nat {
    Wrap(data + x * shift)
  }

  /** The exact value when `d` is read, the next digit has weight `s` and `v` is still ahead. */
  ghost function Exact(d: nat, s: nat, v: nat): nat {
    d + s * v
  }

  lemma LastDigit(d: nat, data: nat, s: nat, shift: nat, x: nat)
    requires data == Wrap(d) && shift == Wrap(s)
    ensures MulAdd(data, x, shift) == Wrap(Exact(d, s, x))
  {
    Accumulate(d, data, s, shift, x);
  }

  lemma NextDigit(d: nat, data: nat, s: nat, shift: nat, x: nat, rest: nat)
    requires data == Wrap(d) && shift == Wrap(s)
    ensures Wrap(shift * 128) == Wrap(128 * s)
    ensures Wrap(MulAdd(data, x, shift) + Wrap(shift * 128)) == Wrap(Exact(d, s, x) + 128 * s)
    ensures Exact(Exact(d, s, x) + 128 * s, 128 * s, rest) == Exact(d, s, x + 128 * (rest + 1))
  {
    LastDigit(d, data, s, shift, x);
    Accumulate(0, 0, s, shift, 128);
    Accumulate(Exact(d, s, x), MulAdd(data, x, shift), 128 * s, Wrap(shift * 128), 1);
    Weigh(d, s, x, rest);
  }

  lemma Weigh(d: nat, s: nat, x: nat, rest: nat)
    ensures d + s * x + 128 * s + (128 * s) * rest == d + s * (x + 128 * (rest + 1))
  {
  }

  lemma Start(v: nat)
    ensures Exact(0, 1, v) == v && Wrap(0) == 0 && Wrap(1) == 1
  {
  }

  /** One byte of a number. */
  lemma DecodeByte(patch: seq<byte>, i: nat)
    requires Decode(patch, i).Some?
    ensures i < |patch|
    ensures var x, r := patch[i] as nat, Decode(patch, i).value;
            if x >= 128 then r == Number(x - 128, i + 1)
            else
              Decode(patch, i + 1).Some? && r.next == Decode(patch, i + 1).value.next &&
              r.value == x + 128 * (Decode(patch, i + 1).value.value + 1)
  {
  }

  method BpsDecode(patch: seq<byte>, index: nat) returns (data: nat, next: nat)
    requires Decode(patch, index).Some?
    ensures data == Wrap(Decode(patch, index).value.value)
    ensures next == Decode(patch, index).value.next
  {
    data := 0;
    next := index;
    var shift: nat := 1;
    ghost var d: nat, s: nat := 0, 1;
    ghost var all := Decode(patch, index).value;
    Start(all.value);
    hide Decode, MulAdd, Exact, Wrap;
    while true
      invariant Decode(patch, next).Some? && Decode(patch, next).value.next == all.next
      invariant data == Wrap(d) && shift == Wrap(s)
      invariant Exact(d, s, Decode(patch, next).value.value) == all.value
      decreases |patch| - next
    {
      DecodeByte(patch, next);
      var x := patch[next] as nat;
      var low := x % 128;
      assert low == if x >= 128 then x - 128 else x;
      next := next + 1;
      LastDigit(d, data, s, shift, low);
      if x < 128 {
        NextDigit(d, data, s, shift, low, Decode(patch, next).value.value);
      }
      data := MulAdd(data, low, shift);
      if x >= 128 {
        break;
      }
      shift := Wrap(shift * 128);
      data := Wrap(data + shift);
      d, s := Exact(d, s, low) + 128 * s, 128 * s;
    }
  }
}
