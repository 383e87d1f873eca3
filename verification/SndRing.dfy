/**
 The ring of picoarch/libpicofe/sndout_sdl.c, one call at a time.  Samples are 16-bit numbers;
 nothing is computed with them, so they are plain `int` here.
 */
module SndRing {
  import opened Arith
  import opened Memory

  const BUF_LEN: nat := 32768

  /** `x & BUF_MASK`, for negative numbers too. */
  function Mask(x: int): (r: nat)
    ensures r < BUF_LEN
  {
    x % BUF_LEN
  }

  /** The samples from index `r` up to index `w`, around the end if need be. */
  function Unread(b: seq<int>, r: nat, w: nat): (c: seq<int>)
    requires |b| == BUF_LEN && r < BUF_LEN && w < BUF_LEN
    ensures |c| == Mask(w - r)
  {
    if r <= w then b[r..w] else b[r..] + b[..w]
  }

  lemma MaskOfSum(i: nat, n: nat)
    requires i < BUF_LEN && i + n <= BUF_LEN
    ensures Mask(i + n) == if i + n == BUF_LEN then 0 else i + n
  {
  }

  lemma MaskOfDifference(i: nat, j: nat)
    requires i < BUF_LEN && j < BUF_LEN
    ensures Mask(i - j) == if j <= i then i - j else i - j + BUF_LEN
  {
  }

  /** With two slots free the difference taken by the writer is the true free space. */
  lemma FreeSpace(r: nat, w: nat)
    requires r < BUF_LEN && w < BUF_LEN
    ensures Mask(w - r) <= BUF_LEN - 2 <==> Mask(r - w - 2) == BUF_LEN - 2 - Mask(w - r)
  {
  }

  lemma UnreadIs(b: seq<int>, r: nat, w: nat)
    requires |b| == BUF_LEN && r < BUF_LEN && w < BUF_LEN
    ensures Unread(b, r, w) == if r <= w then b[r..w] else b[r..BUF_LEN] + b[0..w]
    ensures |Unread(b, r, w)| == Mask(w - r) == if r <= w then w - r else w - r + BUF_LEN
  {
  }

  /** Where the new index is, and how many samples are unread. */
  lemma AppendIndex(r: nat, w: nat, n: nat)
    requires r < BUF_LEN && w < BUF_LEN && w + n <= BUF_LEN && Mask(w - r) + n <= BUF_LEN - 2
    ensures Mask(w + n) == if w + n == BUF_LEN then 0 else w + n
    ensures Mask(Mask(w + n) - r) == Mask(w - r) + n
    ensures w + n == BUF_LEN ==> r > 0
  {
    hide Mask;
    MaskOfSum(w, n);
    MaskOfDifference(w, r);
    MaskOfDifference(Mask(w + n), r);
  }

  lemma AppendStraight(b: seq<int>, r: nat, w: nat, w': nat, data: seq<int>)
    requires |b| == BUF_LEN && r <= w < BUF_LEN && w + |data| <= BUF_LEN
    requires w' == (if w + |data| == BUF_LEN then 0 else w + |data|) && (w + |data| == BUF_LEN ==> r > 0)
    ensures Unread(Splice(b, w, data), r, w') == Unread(b, r, w) + data
  {
    hide Mask, Unread, Splice;
    var b' := Splice(b, w, data);
    UnreadIs(b, r, w);
    UnreadIs(b', r, w');
    SpliceJoins(b, r, w, data);
    assert b'[r..BUF_LEN] + b'[0..0] == b'[r..BUF_LEN];
  }

  lemma AppendAround(b: seq<int>, r: nat, w: nat, data: seq<int>)
    requires |b| == BUF_LEN && w + |data| < r < BUF_LEN
    ensures Unread(Splice(b, w, data), r, w + |data|) == Unread(b, r, w) + data
  {
    hide Mask, Unread, Splice;
    var b' := Splice(b, w, data);
    UnreadIs(b, r, w);
    UnreadIs(b', r, w + |data|);
    SpliceJoins(b, 0, w, data);
    SpliceKeeps(b, w, data, r, BUF_LEN);
    Associates(b[r..BUF_LEN], b[0..w], data);
  }

  /** One `memcpy` into the ring and the index update after it. */
  lemma Append(b: seq<int>, r: nat, w: nat, data: seq<int>)
    requires |b| == BUF_LEN && r < BUF_LEN && w < BUF_LEN
    requires w + |data| <= BUF_LEN && Mask(w - r) + |data| <= BUF_LEN - 2
    ensures Unread(Splice(b, w, data), r, Mask(w + |data|)) == Unread(b, r, w) + data
    ensures Mask(Mask(w + |data|) - r) == Mask(w - r) + |data|
  {
    hide Mask, Unread, Splice;
    AppendIndex(r, w, |data|);
    MaskOfDifference(w, r);
    if r <= w {
      AppendStraight(b, r, w, Mask(w + |data|), data);
    } else {
      AppendAround(b, r, w, data);
    }
  }

  /** The front of a joined sequence. */
  lemma TakeFront(c: seq<int>, d: seq<int>, n: nat)
    requires n <= |c|
    ensures (c + d)[..n] == c[..n] && (c + d)[n..] == c[n..] + d
  {
  }

  lemma PartOfPart(b: seq<int>, r: nat, w: nat, n: nat)
    requires r + n <= w <= |b|
    ensures b[r..w][..n] == b[r..r + n] && b[r..w][n..] == b[r + n..w]
  {
  }

  /** One `memcpy` out of the ring and the index update after it. */
  lemma Drop(b: seq<int>, r: nat, w: nat, n: nat)
    requires |b| == BUF_LEN && r < BUF_LEN && w < BUF_LEN
    requires r + n <= BUF_LEN && n <= Mask(w - r)
    ensures b[r..r + n] == Unread(b, r, w)[..n]
    ensures Unread(b, Mask(r + n), w) == Unread(b, r, w)[n..]
    ensures Mask(w - Mask(r + n)) == Mask(w - r) - n
  {
    hide Mask, Unread;
    MaskOfSum(r, n);
    UnreadIs(b, r, w);
    UnreadIs(b, Mask(r + n), w);
    if r <= w {
      PartOfPart(b, r, w, n);
    } else {
      TakeFront(b[r..BUF_LEN], b[0..w], n);
      PartOfPart(b, r, BUF_LEN, n);
      assert b[BUF_LEN..BUF_LEN] + b[0..w] == b[0..w];
    }
  }

  /** What a callback for `n` samples plays when the ring holds `c`. */
  function Played(c: seq<int>, n: nat): seq<int> {
    c[..Min(n, |c|)] + Zeros(n - Min(n, |c|))
  }

  /** Sample by sample: first what the ring holds, oldest first, and only then silence. */
  lemma PlayedSample(c: seq<int>, n: nat, k: nat)
    requires k < n
    ensures |Played(c, n)| == n && Played(c, n)[k] == if k < |c| then c[k] else 0
  {
  }

  lemma TakeTwice(c: seq<int>, i: nat, j: nat)
    requires i + j <= |c|
    ensures c[..i] + c[i..][..j] == c[..i + j] && c[i..][j..] == c[i + j..]
  {
  }

  class Ring {
    const buf: array<int>
    var w: nat
    var r: nat

    /** Two slots always stay free. */
    ghost predicate Valid()
      reads this
    {
      buf.Length == BUF_LEN && w < BUF_LEN && r < BUF_LEN && Mask(w - r) <= BUF_LEN - 2
    }

    /** The unread samples, oldest first. */
    ghost function Contents(): (c: seq<int>)
      reads this, buf
      requires Valid()
      ensures |c| <= BUF_LEN - 2
    {
      Unread(buf[..], r, w)
    }

    /** `sndout_sdl_start` */
    constructor ()
      ensures Valid() && Contents() == [] && fresh(buf)
    {
      buf := new int[BUF_LEN](_ => 0);
      w, r := 0, 0;
    }

    /** `sndout_sdl_write_nb`: `len` counts bytes, the result counts samples. */
    method WriteNb(samples: seq<int>, len: nat) returns (retval: nat)
      requires Valid() && len / 2 <= |samples|
      modifies this, buf
      ensures Valid() && r == old(r)
      ensures retval == Min(len / 2, BUF_LEN - 2 - |old(Contents())|)
      ensures Contents() == old(Contents()) + samples[..retval]
    {
      hide Mask, Unread, Splice;
      FreeSpace(r, w);
      MaskOfSum(w, BUF_LEN - w);
      var maxlen := Mask(r - w - 2);
      var bufLeft := BUF_LEN - w;
      var n := len / 2;
      if n > maxlen {
        n := maxlen;
      }
      if n == 0 {
        return 0;
      }
      retval := n;
      var rest := samples[..n];
      if n > bufLeft {
        Append(buf[..], r, w, rest[..bufLeft]);
        CopyIn(buf, w, rest[..bufLeft]);
        rest := rest[bufLeft..];
        n := n - bufLeft;
        w := 0;
      }
      Append(buf[..], r, w, rest);
      CopyIn(buf, w, rest);
      w := Mask(w + n);
    }

    /** The copying half of `callback`: `have` samples in one piece or two. */
    method Take(have: nat) returns (stream: seq<int>)
      requires Valid() && have <= |Contents()|
      modifies this`r
      ensures Valid()
      ensures stream == old(Contents())[..have] && Contents() == old(Contents())[have..]
    {
      hide Mask, Unread;
      MaskOfSum(r, BUF_LEN - r);
      var bufLeft := BUF_LEN - r;
      var left := have;
      stream := [];
      if left > bufLeft {
        Drop(buf[..], r, w, bufLeft);
        TakeTwice(Contents(), bufLeft, left - bufLeft);
        stream := buf[r..r + bufLeft];
        r := 0;
        left := left - bufLeft;
      }
      Drop(buf[..], r, w, left);
      stream := stream + buf[r..r + left];
      r := Mask(r + left);
    }

    /** `callback`: the stream gets what there is, then silence. */
    method Callback(len: nat) returns (stream: seq<int>)
      requires Valid()
      modifies this`r
      ensures Valid()
      ensures stream == Played(old(Contents()), len / 2)
      ensures Contents() == old(Contents())[Min(len / 2, |old(Contents())|)..]
    {
      hide Mask, Unread;
      var have := Mask(w - r);
      var left := len / 2;
      if have > left {
        have := left;
      }
      stream := [];
      if have > 0 {
        stream := Take(have);
        left := left - have;
      }
      if left > 0 {
        stream := stream + Zeros(left);
      }
    }
  }
}
