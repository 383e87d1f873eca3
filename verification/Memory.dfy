/** What copying bytes, samples, pixels or characters into a buffer leaves there. */
module Memory {

  function Zeros(n: nat): seq<int> {
    seq(n, _ => 0)
  }

  /** The buffer `b` with `data` written over it from index `at` on. */
  function Splice<T>(b: seq<T>, at: nat, data: seq<T>): (r: seq<T>)
    requires at + |data| <= |b|
    ensures |r| == |b|
  {
    b[..at] + data + b[at + |data|..]
  }

  lemma SpliceAt<T>(b: seq<T>, at: nat, data: seq<T>, i: nat)
    requires at + |data| <= |b| && i < |b|
    ensures Splice(b, at, data)[i] == if at <= i < at + |data| then data[i - at] else b[i]
  {
  }

  lemma SpliceIs<T>(a: seq<T>, at: nat, data: seq<T>, b: seq<T>)
    requires at + |data| <= |a| == |b|
    requires b[at..at + |data|] == data
    requires forall p :: at + |data| <= p < |a| || 0 <= p < at ==> b[p] == a[p]
    ensures b == Splice(a, at, data)
  {
    forall j | 0 <= j < |a|
      ensures b[j] == Splice(a, at, data)[j]
    {
      if at <= j < at + |data| {
        assert b[at..at + |data|][j - at] == b[j];
      }
    }
  }

  lemma SpliceMore<T>(b: seq<T>, at: nat, data: seq<T>, more: seq<T>)
    requires at + |data| + |more| <= |b|
    ensures Splice(Splice(b, at, data), at + |data|, more) == Splice(b, at, data + more)
  {
  }

  lemma SpliceOne<T>(b: seq<T>, at: nat, v: T)
    requires at < |b|
    ensures b[at := v] == Splice(b, at, [v])
  {
  }

  lemma SpliceBefore<T>(b: seq<T>, at: nat, v: T, data: seq<T>)
    requires at + 1 + |data| <= |b|
    ensures Splice(b, at + 1, data)[at := v] == Splice(b, at, [v] + data)
  {
  }

  lemma SpliceNone<T>(b: seq<T>, at: nat)
    requires at <= |b|
    ensures Splice(b, at, []) == b
  {
  }

  lemma Associates<T>(a: seq<T>, b: seq<T>, c: seq<T>)
    ensures a + (b + c) == a + b + c
  {
  }

  lemma SpliceReads<T>(a: seq<T>, at: nat, data: seq<T>, j: nat)
    requires at + |data| <= |a| && j <= |data|
    ensures Splice(a, at, data)[at..at + j] == data[..j]
  {
  }

  lemma SpliceKeeps<T>(a: seq<T>, at: nat, data: seq<T>, k: nat, m: nat)
    requires at + |data| <= |a| && k <= m <= |a| && (m <= at || at + |data| <= k)
    ensures Splice(a, at, data)[k..m] == a[k..m]
  {
  }

  lemma Joined<T>(a: seq<T>, i: nat, j: nat, k: nat)
    requires i <= j <= k <= |a|
    ensures a[i..k] == a[i..j] + a[j..k]
  {
  }

  /** What is written joins what stands in front of it. */
  lemma SpliceJoins<T>(b: seq<T>, r: nat, w: nat, data: seq<T>)
    requires r <= w && w + |data| <= |b|
    ensures Splice(b, w, data)[r..w + |data|] == b[r..w] + data
  {
    hide Splice;
    Joined(Splice(b, w, data), r, w, w + |data|);
    SpliceKeeps(b, w, data, r, w);
    SpliceReads(b, w, data, |data|);
    assert data[..|data|] == data;
  }

  lemma SpliceSame<T>(a: seq<T>, at: nat, n: nat)
    requires at + n <= |a|
    ensures Splice(a, at, a[at..at + n]) == a
  {
  }

  /** `memcpy` from memory that is not written. */
  method CopyIn<T>(dst: array<T>, at: nat, data: seq<T>)
    requires at + |data| <= dst.Length
    modifies dst
    ensures dst[..] == Splice(old(dst[..]), at, data)
  {
    hide Splice;
    ghost var was := dst[..];
    forall k | 0 <= k < |data| {
      dst[at + k] := data[k];
    }
    assert dst[at..at + |data|] == data;
    SpliceIs(was, at, data, dst[..]);
  }
}
