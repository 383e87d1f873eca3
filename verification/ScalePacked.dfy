/**
 Enlarging by a whole factor: the C scalers of picoarch/source/scaler_neon.c, which write two 16-bit
 pixels with one 32-bit store, and `buffer_upscale` of picoarch/source/plat_sdl.c.  Their pictures are
 those of `scaleNN`.  Lengths, pitches and offsets count pixels, and the lower half of a word is the
 pixel on the left.
 */
module ScalePacked {
  import opened Arith
  import opened Scale
  import opened Memory

  // ----- words of two pixels

  const HALF: nat := 0x1_0000

  type word = x: int | 0 <= x < 0x1_0000_0000

  function Pack(left: pixel, right: pixel): word {
    left + right * HALF
  }

  /** `(pix & 0x0000FFFF) | (pix << 16)` */
  function LowTwice(pix: word): word {
    pix % HALF + pix * HALF % 0x1_0000_0000
  }

  /** `(pix & 0xFFFF0000) | (pix >> 16)` */
  function HighTwice(pix: word): word {
    pix / HALF * HALF + pix / HALF
  }

  lemma PackParts(left: pixel, right: pixel)
    ensures Pack(left, right) % HALF == left && Pack(left, right) / HALF == right
    ensures LowTwice(Pack(left, right)) == Pack(left, left)
    ensures HighTwice(Pack(left, right)) == Pack(right, right)
  {
    DivModUnique(Pack(left, right), HALF, right, left);
    DivModUnique(Pack(left, right) * HALF, 0x1_0000_0000, right, left * HALF);
  }

  /** The words stored for a pair of pixels, in the order of the destination. */
  function PairWords(n: nat, pix: word): seq<word>
    requires 2 <= n <= 6
  {
    var d1, d2 := LowTwice(pix), HighTwice(pix);
    match n
    case 2 => [d1, d2]
    case 3 => [d1, pix, d2]
    case 4 => [d1, d1, d2, d2]
    case 5 => [d1, d1, pix, d2, d2]
    case 6 => [d1, d1, d1, d2, d2, d2]
  }

  /** The words stored for the last pixel of an odd row; for an odd factor a half word follows them. */
  function LastWords(n: nat, pix: pixel): seq<word>
    requires 2 <= n <= 6
  {
    var d1 := Pack(pix, pix);
    match n
    case 2 => [d1]
    case 3 => [d1]
    case 4 => [d1, d1]
    case 5 => [d1, d1]
    case 6 => [d1, d1, d1]
  }

  function Repeat(v: pixel, n: nat): (r: seq<pixel>)
    ensures |r| == n && forall i :: 0 <= i < n ==> r[i] == v
  {
    seq(n, _ => v)
  }

  /** Memory as the words leave it. */
  function Unpack(words: seq<word>): (r: seq<pixel>)
    ensures |r| == 2 * |words|
  {
    if words == [] then [] else Unpack(words[..|words| - 1]) + Halves(words[|words| - 1])
  }

  function Halves(w: word): seq<pixel> {
    [w % HALF, w / HALF]
  }

  lemma {:induction false} UnpackAt(words: seq<word>, i: nat)
    requires i < |words|
    ensures Unpack(words)[2 * i..2 * i + 2] == Halves(words[i])
  {
    if i < |words| - 1 {
      UnpackAt(words[..|words| - 1], i);
      assert Unpack(words)[2 * i..2 * i + 2] == Unpack(words[..|words| - 1])[2 * i..2 * i + 2];
    }
  }

  lemma PairHalves(n: nat, left: pixel, right: pixel, i: nat)
    requires 2 <= n <= 6 && i < n
    ensures var words := PairWords(n, Pack(left, right));
            |words| == n &&
            Halves(words[i]) == [if 2 * i < n then left else right, if 2 * i + 1 < n then left else right]
  {
    hide LowTwice, HighTwice, Pack;
    PackParts(left, right);
    PackParts(left, left);
    PackParts(right, right);
  }

  lemma LastHalves(n: nat, v: pixel, i: nat)
    requires 2 <= n <= 6 && i < n / 2
    ensures var words := LastWords(n, v); |words| == n / 2 && Halves(words[i]) == [v, v]
  {
    hide Pack;
    PackParts(v, v);
  }

  /** The words of a pair are each pixel `n` times. */
  lemma PairUnpacked(n: nat, left: pixel, right: pixel)
    requires 2 <= n <= 6
    ensures Unpack(PairWords(n, Pack(left, right))) == Repeat(left, n) + Repeat(right, n)
  {
    hide Unpack, PairWords, Pack, Halves;
    var words := PairWords(n, Pack(left, right));
    PairHalves(n, left, right, 0);
    forall j | 0 <= j < 2 * n
      ensures Unpack(words)[j] == (Repeat(left, n) + Repeat(right, n))[j]
    {
      var i := j / 2;
      UnpackAt(words, i);
      PairHalves(n, left, right, i);
      assert Unpack(words)[j] == Unpack(words)[2 * i..2 * i + 2][j - 2 * i];
    }
  }

  lemma LastUnpacked(n: nat, v: pixel)
    requires 2 <= n <= 6
    ensures Unpack(LastWords(n, v)) == Repeat(v, n / 2 * 2)
  {
    hide Unpack, LastWords, Halves;
    var words := LastWords(n, v);
    LastHalves(n, v, 0);
    forall j | 0 <= j < n / 2 * 2
      ensures Unpack(words)[j] == v
    {
      var i := j / 2;
      UnpackAt(words, i);
      LastHalves(n, v, i);
      assert Unpack(words)[j] == Unpack(words)[2 * i..2 * i + 2][j - 2 * i];
    }
  }

  // ----- what a row is to be

  /** Every pixel `n` times. */
  function Replicate(line: seq<pixel>, n: nat): seq<pixel> {
    if line == [] then [] else Replicate(line[..|line| - 1], n) + Repeat(line[|line| - 1], n)
  }

  lemma ReplicateNext(line: seq<pixel>, n: nat, c: nat)
    requires c < |line|
    ensures Replicate(line[..c + 1], n) == Replicate(line[..c], n) + Repeat(line[c], n)
  {
    assert line[..c + 1][..c] == line[..c];
  }

  lemma ReplicateNone(line: seq<pixel>, n: nat)
    ensures Replicate(line[..0], n) == []
  {
  }

  lemma {:induction false} ReplicateLength(line: seq<pixel>, n: nat)
    ensures |Replicate(line, n)| == Times(|line|, n)
  {
    hide Times;
    TimesStep(0, n);
    if line != [] {
      ReplicateLength(line[..|line| - 1], n);
      TimesStep(|line| - 1, n);
    }
  }

  lemma ReplicatePrefix(line: seq<pixel>, n: nat, c: nat)
    requires n > 0 && c <= |line|
    ensures |Replicate(line[..c], n)| <= |Replicate(line, n)|
    ensures c < |line| ==> |Replicate(line[..c], n)| + n <= |Replicate(line, n)|
  {
    hide Times, Replicate;
    ReplicateLength(line, n);
    ReplicateLength(line[..c], n);
    if c < |line| {
      TimesStep(c, n);
      if c + 1 < |line| {
        TimesOrder(c + 1, |line|, n);
      }
    }
  }

  lemma {:induction false} ReplicateAt(line: seq<pixel>, n: nat, c: nat, r: nat)
    requires c < |line| && r < n
    ensures Times(c, n) + r < |Replicate(line, n)| && Replicate(line, n)[Times(c, n) + r] == line[c]
  {
    hide Times;
    ReplicateLength(line[..|line| - 1], n);
    if c < |line| - 1 {
      ReplicateAt(line[..|line| - 1], n, c, r);
    }
  }

  lemma Associative(a: nat, b: nat, c: nat)
    ensures Times(Times(a, b), c) == Times(a, Times(b, c))
  {
  }

  /** Enlarging by a whole factor, position `c * n + r` falls on sample `c`. */
  lemma SampleOfWhole(c: nat, r: nat, w: nat, n: nat)
    requires r < n && c < w
    ensures Times(w, n) > 0 && Sample(Times(c, n) + r, w, Times(w, n)) == c
  {
    hide Sample;
    var x, size := Times(c, n) + r, Times(w, n);
    TimesOrder(0, w, n);
    Spread(Times(c, n), r, w);
    assert Times(x, w) == Times(Times(c, n), w) + Times(r, w);
    Associative(c, n, w);
    TimesCommutes(n, w);
    TimesOrder(r, n, w);
    SampleBetween(x, w, size, c);
  }

  /** Position `x` as copy `r` of sample `c`. */
  lemma SampleIsQuotient(x: nat, w: nat, n: nat)
    requires n > 0 && x < Times(w, n)
    ensures Times(w, n) > 0 && x / n < w && x == Times(x / n, n) + x % n
    ensures Sample(x, w, Times(w, n)) == x / n
  {
    hide Sample;
    DivMod(x, n);
    DivBelow(x, n, w);
    SampleOfWhole(x / n, x % n, w, n);
  }

  /** Replicating is what `scaleNN` draws at `n` times the width. */
  lemma ReplicateIsRow(line: seq<pixel>, n: nat)
    requires |line| > 0 && n > 0
    ensures Replicate(line, n) == Row(Plain, line, Times(|line|, n))
  {
    hide Replicate, Times, Sample;
    ReplicateLength(line, n);
    forall x | 0 <= x < Times(|line|, n)
      ensures Replicate(line, n)[x] == RowPixel(Plain, line, Times(|line|, n), x)
    {
      SampleIsQuotient(x, |line|, n);
      ReplicateAt(line, n, x / n, x % n);
      NearestIs(line, Times(|line|, n), x);
    }
  }

  // ----- one row

  /** `d[i] = words[i]`, from pixel `at` on. */
  method StoreWords(dst: array<pixel>, at: nat, words: seq<word>)
    requires at + 2 * |words| <= dst.Length
    modifies dst
    ensures dst[..] == Splice(old(dst[..]), at, Unpack(words))
  {
    hide Splice, Unpack;
    ghost var before := dst[..];
    UnpackNone(words);
    SpliceNothing(before, at, Unpack(words));
    for i := 0 to |words|
      invariant dst[..] == Splice(before, at, Unpack(words[..i]))
    {
      UnpackNext(words, i);
      SpliceMore(before, at, Unpack(words[..i]), Halves(words[i]));
      StoreHalves(dst, at + 2 * i, words[i]);
    }
    assert words[..|words|] == words;
  }

  method StoreHalves(dst: array<pixel>, at: nat, w: word)
    requires at + 2 <= dst.Length
    modifies dst
    ensures dst[..] == Splice(old(dst[..]), at, Halves(w))
  {
    dst[at], dst[at + 1] := w % HALF, w / HALF;
  }

  lemma UnpackNone(words: seq<word>)
    ensures Unpack(words[..0]) == [] && Unpack(words)[..0] == []
  {
  }

  lemma UnpackNext(words: seq<word>, i: nat)
    requires i < |words|
    ensures Unpack(words[..i + 1]) == Unpack(words[..i]) + Halves(words[i])
  {
    assert words[..i + 1][..i] == words[..i];
  }

  /** The inner loop of `scale2x_c16` to `scale6x_c16`. */
  method PackedRow(n: nat, line: seq<pixel>, dst: array<pixel>, at: nat)
    requires 2 <= n <= 6 && at + |Replicate(line, n)| <= dst.Length
    modifies dst
    ensures dst[..] == Splice(old(dst[..]), at, Replicate(line, n))
  {
    hide Splice, Replicate, Unpack, PairWords, LastWords, Pack;
    ghost var before := dst[..];
    var w := |line|;
    ReplicateNone(line, n);
    SpliceNothing(before, at, Replicate(line, n));
    assert Replicate(line, n)[..0] == [];
    var x, dx := 0, 0;
    while x < w / 2
      invariant 0 <= x <= w / 2 && 2 * dx == |Replicate(line[..2 * x], n)|
      invariant at + 2 * dx <= dst.Length
      invariant dst[..] == Splice(before, at, Replicate(line[..2 * x], n))
    {
      var pix := Pack(line[2 * x], line[2 * x + 1]);
      NextPair(line, n, x);
      PairUnpacked(n, line[2 * x], line[2 * x + 1]);
      SpliceMore(before, at, Replicate(line[..2 * x], n), Unpack(PairWords(n, pix)));
      StoreWords(dst, at + 2 * dx, PairWords(n, pix));
      x := x + 1;
      dx := dx + n;
    }
    if w % 2 == 1 {
      LastPixel(line, n, x);
      LastStored(before, at, n, line[2 * x], Replicate(line[..2 * x], n));
      LastUnpacked(n, line[2 * x]);
      StoreWords(dst, at + 2 * dx, LastWords(n, line[2 * x]));
      if n % 2 == 1 {
        dst[at + 2 * (dx + n / 2)] := line[2 * x];
      }
    } else {
      assert line[..2 * x] == line;
    }
  }

  lemma NextPair(line: seq<pixel>, n: nat, x: nat)
    requires 2 * x + 1 < |line| && n > 0
    ensures Replicate(line[..2 * x + 2], n)
         == Replicate(line[..2 * x], n) + (Repeat(line[2 * x], n) + Repeat(line[2 * x + 1], n))
    ensures |Replicate(line[..2 * x], n)| + 2 * n <= |Replicate(line, n)|
  {
    hide Replicate;
    ReplicateNext(line, n, 2 * x);
    ReplicateNext(line, n, 2 * x + 1);
    ReplicatePrefix(line, n, 2 * x + 2);
    assert 2 * x + 1 + 1 == 2 * x + 2;
  }

  lemma LastPixel(line: seq<pixel>, n: nat, x: nat)
    requires |line| == 2 * x + 1
    ensures Replicate(line, n) == Replicate(line[..2 * x], n) + Repeat(line[2 * x], n)
  {
    hide Replicate;
    ReplicateNext(line, n, 2 * x);
    assert line[..2 * x + 1] == line;
  }

  lemma RepeatOneMore(v: pixel, n: nat)
    ensures Repeat(v, n + 1) == Repeat(v, n) + [v]
  {
  }

  /** The words of the last pixel, and the half word for an odd factor. */
  lemma LastStored(b: seq<pixel>, at: nat, n: nat, v: pixel, front: seq<pixel>)
    requires n > 0 && at + |front| + n <= |b|
    ensures var stored := Splice(Splice(b, at, front), at + |front|, Repeat(v, n / 2 * 2));
            Splice(b, at, front + Repeat(v, n)) ==
            if n % 2 == 1 then stored[at + |front| + 2 * (n / 2) := v] else stored
  {
    hide Splice, Repeat;
    var even := n / 2 * 2;
    SpliceMore(b, at, front, Repeat(v, even));
    if n % 2 == 1 {
      RepeatOneMore(v, even);
      SpliceMore(b, at, front + Repeat(v, even), [v]);
      SpliceOne(Splice(b, at, front + Repeat(v, even)), at + |front| + even, v);
      assert front + Repeat(v, even) + [v] == front + (Repeat(v, even) + [v]);
    }
  }

  // ----- the whole picture

  /** A pitch of 0 stands for rows without a gap. */
  function Tight(pitch: nat, w: nat): nat {
    if pitch == 0 then w else pitch
  }

  function SourceOf(p: Picture): Picture {
    p.(pitch := Tight(p.pitch, p.w))
  }

  function TargetOf(p: Picture, n: nat, dp: nat): Target {
    Target(Times(p.w, n), Times(p.h, n), 0, Tight(dp, Times(p.w, n)))
  }

  /** A picture with pixels must be there and its enlargement must fit. */
  predicate Fits(p: Picture, n: nat, dp: nat, length: nat) {
    p.w == 0 || p.h == 0 || (ValidPicture(SourceOf(p)) && ValidTarget(TargetOf(p, n, dp), Times(p.h, n), length))
  }

  /** `scaleNN` at `n` times the size. */
  ghost function Enlarged(p: Picture, n: nat, dp: nat, before: seq<pixel>): seq<pixel>
    requires Fits(p, n, dp, |before|)
  {
    if p.w == 0 || p.h == 0 then before
    else
      var t := TargetOf(p, n, dp);
      Painted(Plain, SourceOf(p), t, t.h, true, before, t.h)
  }

  /** The screen after `rows` rows. */
  ghost function Drawn(p: Picture, t: Target, before: seq<pixel>, rows: nat): seq<pixel>
    requires ValidPicture(p) && ValidTarget(t, t.h, |before|)
  {
    if rows <= t.h then Painted(Plain, p, t, t.h, true, before, rows) else before
  }

  /** Row `y * n + k` is line `y` once more. */
  lemma EnlargedRow(p: Picture, t: Target, n: nat, before: seq<pixel>, y: nat, k: nat)
    requires ValidPicture(p) && ValidTarget(t, t.h, |before|) && t.w == Times(p.w, n) && t.h == Times(p.h, n)
    requires y < p.h && k < n
    ensures var row := Times(y, n) + k;
            row < t.h && RowStart(t, row) + t.w <= |before| && |Replicate(Line(p, y), n)| == t.w &&
            |Drawn(p, t, before, row)| == |before| &&
            Drawn(p, t, before, row + 1) == Splice(Drawn(p, t, before, row), RowStart(t, row), Replicate(Line(p, y), n))
  {
    hide Times, Sample, Splice, Row, Line, Painted, RowStart, Replicate;
    var row := Times(y, n) + k;
    SampleOfWhole(y, k, p.h, n);
    TimesStep(y, n);
    if y + 1 < p.h {
      TimesOrder(y + 1, p.h, n);
    }
    PaintedStep(Plain, p, t, t.h, true, before, row, y);
    ReplicateIsRow(Line(p, y), n);
    ReplicateLength(Line(p, y), n);
  }

  /** The first of `n` equal rows, and where the next one goes. */
  lemma StillThere(b: seq<pixel>, from: nat, to: nat, row: seq<pixel>)
    requires from + |row| <= to && to + |row| <= |b| && b[from..from + |row|] == row
    ensures Splice(b, to, row)[from..from + |row|] == row
  {
  }

  lemma JustWritten(b: seq<pixel>, at: nat, row: seq<pixel>)
    requires at + |row| <= |b|
    ensures Splice(b, at, row)[at..at + |row|] == row
  {
  }

  /** One source line: its first row is stored in words, the others are copied from it. */
  method PackedLine(n: nat, p: Picture, dst: array<pixel>, t: Target, y: nat, ghost before: seq<pixel>)
    requires 2 <= n <= 6 && ValidPicture(p) && ValidTarget(t, t.h, dst.Length) && |before| == dst.Length
    requires t.w == Times(p.w, n) && t.h == Times(p.h, n) && y < p.h
    requires dst[..] == Drawn(p, t, before, Times(y, n))
    modifies dst
    ensures dst[..] == Drawn(p, t, before, Times(y + 1, n))
  {
    hide Times, Splice, Drawn, Line, RowStart, Replicate, Sample, ValidPicture;
    var line := Line(p, y);
    ghost var row := Replicate(line, n);
    EnlargedRow(p, t, n, before, y, 0);
    var first := RowStart(t, Times(y, n));
    JustWritten(dst[..], first, row);
    PackedRow(n, line, dst, first);
    TimesStep(y, n);
    for k := 1 to n
      invariant first + |row| <= dst.Length && dst[first..first + |row|] == row
      invariant dst[..] == Drawn(p, t, before, Times(y, n) + k)
    {
      EnlargedRow(p, t, n, before, y, k);
      RowsApart(t, Times(y, n), Times(y, n) + k);
      StillThere(dst[..], first, RowStart(t, Times(y, n) + k), row);
      CopyRow(dst, RowStart(t, Times(y, n) + k), first, t.w);
    }
  }

  /** `scale2x_c16` to `scale6x_c16`. */
  method ScalePackedC16(n: nat, p: Picture, dst: array<pixel>, dp: nat)
    requires 2 <= n <= 6 && Fits(p, n, dp, dst.Length)
    modifies dst
    ensures dst[..] == Enlarged(p, n, dp, old(dst[..]))
  {
    hide Times, Painted, Drawn, ValidPicture, ValidTarget;
    if p.w == 0 || p.h == 0 {
      return;
    }
    ghost var before := dst[..];
    var s, t := SourceOf(p), TargetOf(p, n, dp);
    DrawnEnds(s, t, before);
    TimesStep(0, n);
    for y := 0 to p.h
      invariant dst[..] == Drawn(s, t, before, Times(y, n))
    {
      PackedLine(n, s, dst, t, y, before);
    }
  }

  lemma DrawnEnds(p: Picture, t: Target, before: seq<pixel>)
    requires ValidPicture(p) && ValidTarget(t, t.h, |before|)
    ensures Drawn(p, t, before, 0) == before
    ensures Drawn(p, t, before, t.h) == Painted(Plain, p, t, t.h, true, before, t.h)
  {
  }

  // ----- a factor of 1, and of 4 in four rows at a time

  lemma {:induction false} ReplicateOnce(line: seq<pixel>)
    ensures Replicate(line, 1) == line
    decreases |line|
  {
    hide Replicate;
    assert line[..|line|] == line;
    if line == [] {
      ReplicateNone(line, 1);
    } else {
      var c := |line| - 1;
      ReplicateOnce(line[..c]);
      ReplicateNext(line, 1, c);
      assert Repeat(line[c], 1) == [line[c]];
      assert line == line[..c] + [line[c]];
    }
  }

  /** Without gaps between the rows the lines drawn so far are one piece of the source. */
  lemma {:induction false} DrawnInOnePiece(p: Picture, t: Target, before: seq<pixel>, y: nat)
    requires ValidPicture(p) && ValidTarget(t, t.h, |before|) && y <= p.h
    requires t == Target(p.w, p.h, 0, p.w) && p.pitch == p.w
    ensures Times(y, p.w) <= |p.data| && Times(y, p.w) <= |before|
    ensures Drawn(p, t, before, y) == Splice(before, 0, p.data[..Times(y, p.w)])
    decreases y
  {
    hide Times, Splice, Drawn, Replicate, Painted;
    TimesStep(0, p.w);
    if y == 0 {
      DrawnEnds(p, t, before);
      assert p.data[..0] == p.data[..][..0];
      SpliceNothing(before, 0, []);
    } else {
      var z := y - 1;
      DrawnInOnePiece(p, t, before, z);
      TimesStep(z, p.w);
      TimesOne(p.w);
      TimesOne(p.h);
      TimesOne(z);
      EnlargedRow(p, t, 1, before, z, 0);
      ReplicateOnce(Line(p, z));
      LineInside(p, z);
      SpliceMore(before, 0, p.data[..Times(z, p.w)], Line(p, z));
      assert p.data[..Times(z, p.w)] + Line(p, z) == p.data[..Times(y, p.w)];
    }
  }

  lemma TimesOne(a: nat)
    ensures Times(a, 1) == a
  {
  }

  /** `scale1x_c16` */
  method Scale1xC16(p: Picture, dst: array<pixel>, dp: nat)
    requires Fits(p, 1, dp, dst.Length)
    modifies dst
    ensures dst[..] == Enlarged(p, 1, dp, old(dst[..]))
  {
    hide Times, Splice, Painted, Drawn, ValidPicture, ValidTarget, Replicate, Line;
    if p.w == 0 || p.h == 0 {
      return;
    }
    ghost var before := dst[..];
    var s, t := SourceOf(p), TargetOf(p, 1, dp);
    TimesOne(p.w);
    TimesOne(p.h);
    DrawnEnds(s, t, before);
    if p.w == s.pitch && s.pitch == t.pitch {
      DrawnInOnePiece(s, t, before, p.h);
      CopyIn(dst, 0, s.data[..Times(p.h, s.pitch)]);
    } else {
      for y := 0 to p.h
        invariant dst[..] == Drawn(s, t, before, y)
      {
        TimesOne(y);
        EnlargedRow(s, t, 1, before, y, 0);
        ReplicateOnce(Line(s, y));
        CopyIn(dst, RowStart(t, y), Line(s, y));
      }
    }
  }

  /** The same pixels at the start of four rows. */
  ghost function Four(b: seq<pixel>, at: nat, pitch: nat, data: seq<pixel>): (r: seq<pixel>)
    requires at + 3 * pitch + |data| <= |b|
    ensures |r| == |b|
  {
    Splice(Splice(Splice(Splice(b, at, data), at + pitch, data), at + 2 * pitch, data), at + 3 * pitch, data)
  }

  lemma FourAt(b: seq<pixel>, at: nat, pitch: nat, data: seq<pixel>, i: nat)
    requires |data| <= pitch && at + 3 * pitch + |data| <= |b| && i < |b|
    ensures Four(b, at, pitch, data)[i] ==
            if at <= i < at + |data| then data[i - at]
            else if at + pitch <= i < at + pitch + |data| then data[i - at - pitch]
            else if at + 2 * pitch <= i < at + 2 * pitch + |data| then data[i - at - 2 * pitch]
            else if at + 3 * pitch <= i < at + 3 * pitch + |data| then data[i - at - 3 * pitch]
            else b[i]
  {
    hide Splice;
    var b1 := Splice(b, at, data);
    var b2 := Splice(b1, at + pitch, data);
    var b3 := Splice(b2, at + 2 * pitch, data);
    SpliceAt(b, at, data, i);
    SpliceAt(b1, at + pitch, data, i);
    SpliceAt(b2, at + 2 * pitch, data, i);
    SpliceAt(b3, at + 3 * pitch, data, i);
  }

  lemma FourMore(b: seq<pixel>, at: nat, pitch: nat, data: seq<pixel>, more: seq<pixel>)
    requires |data| + |more| <= pitch && at + 3 * pitch + |data| + |more| <= |b|
    ensures Four(b, at, pitch, data + more) == Four(Four(b, at, pitch, data), at + |data|, pitch, more)
  {
    hide Four;
    var four := Four(b, at, pitch, data);
    forall i | 0 <= i < |b|
      ensures Four(b, at, pitch, data + more)[i] == Four(four, at + |data|, pitch, more)[i]
    {
      FourAt(b, at, pitch, data + more, i);
      FourAt(b, at, pitch, data, i);
      FourAt(four, at + |data|, pitch, more, i);
    }
  }

  lemma FourNone(b: seq<pixel>, at: nat, pitch: nat)
    requires at + 3 * pitch <= |b|
    ensures Four(b, at, pitch, []) == b
  {
    hide Four;
    forall i | 0 <= i < |b|
      ensures Four(b, at, pitch, [])[i] == b[i]
    {
      FourAt(b, at, pitch, [], i);
    }
  }

  /** One set of stores of `scale4x_c16b`; `dp32` is half the pitch. */
  method StoreInFour(dst: array<pixel>, at: nat, dp32: nat, words: seq<word>)
    requires at + 6 * dp32 + 2 * |words| <= dst.Length
    modifies dst
    ensures dst[..] == Four(old(dst[..]), at, 2 * dp32, Unpack(words))
  {
    hide Splice, Unpack;
    StoreWords(dst, at, words);
    StoreWords(dst, at + 2 * dp32, words);
    StoreWords(dst, at + 2 * (dp32 * 2), words);
    StoreWords(dst, at + 2 * (dp32 * 3), words);
  }

  /** The inner loop of `scale4x_c16b`. */
  method PackedFourRows(line: seq<pixel>, dst: array<pixel>, at: nat, dp32: nat)
    requires at + 6 * dp32 + |Replicate(line, 4)| <= dst.Length && |Replicate(line, 4)| <= 2 * dp32
    modifies dst
    ensures dst[..] == Four(old(dst[..]), at, 2 * dp32, Replicate(line, 4))
  {
    hide Four, Replicate, Unpack, PairWords, LastWords, Pack;
    ghost var before := dst[..];
    var w := |line|;
    ReplicateNone(line, 4);
    FourNone(before, at, 2 * dp32);
    var x, dx := 0, 0;
    while x < w / 2
      invariant 0 <= x <= w / 2 && 2 * dx == |Replicate(line[..2 * x], 4)|
      invariant at + 6 * dp32 + 2 * dx <= dst.Length
      invariant dst[..] == Four(before, at, 2 * dp32, Replicate(line[..2 * x], 4))
    {
      var pix := Pack(line[2 * x], line[2 * x + 1]);
      NextPair(line, 4, x);
      PairUnpacked(4, line[2 * x], line[2 * x + 1]);
      FourMore(before, at, 2 * dp32, Replicate(line[..2 * x], 4), Unpack(PairWords(4, pix)));
      StoreInFour(dst, at + 2 * dx, dp32, PairWords(4, pix));
      x := x + 1;
      dx := dx + 4;
    }
    if w % 2 == 1 {
      LastPixel(line, 4, x);
      LastUnpacked(4, line[2 * x]);
      FourMore(before, at, 2 * dp32, Replicate(line[..2 * x], 4), Unpack(LastWords(4, line[2 * x])));
      StoreInFour(dst, at + 2 * dx, dp32, LastWords(4, line[2 * x]));
    } else {
      assert line[..2 * x] == line;
    }
  }

  /** Four rows stored at once are the next four rows of the picture. */
  lemma FourRowsDrawn(p: Picture, t: Target, before: seq<pixel>, y: nat)
    requires ValidPicture(p) && ValidTarget(t, t.h, |before|) && t.w == Times(p.w, 4) && t.h == Times(p.h, 4)
    requires y < p.h
    ensures |Drawn(p, t, before, Times(y, 4))| == |before| && |Replicate(Line(p, y), 4)| == t.w
    ensures RowStart(t, Times(y, 4)) + 3 * t.pitch + t.w <= |before|
    ensures Drawn(p, t, before, Times(y + 1, 4)) ==
            Four(Drawn(p, t, before, Times(y, 4)), RowStart(t, Times(y, 4)), t.pitch, Replicate(Line(p, y), 4))
  {
    hide Times, Splice, Drawn, Replicate, Line;
    var row := Times(y, 4);
    EnlargedRow(p, t, 4, before, y, 0);
    EnlargedRow(p, t, 4, before, y, 1);
    EnlargedRow(p, t, 4, before, y, 2);
    EnlargedRow(p, t, 4, before, y, 3);
    TimesStep(y, 4);
    TimesStep(row, t.pitch);
    TimesStep(row + 1, t.pitch);
    TimesStep(row + 2, t.pitch);
  }

  /** `scale4x_c16b` draws what `scale4x_c16` draws; the pitch must be a whole number of words. */
  method Scale4xC16b(p: Picture, dst: array<pixel>, dp: nat)
    requires Fits(p, 4, dp, dst.Length) && dp % 2 == 0
    modifies dst
    ensures dst[..] == Enlarged(p, 4, dp, old(dst[..]))
  {
    hide Times, Painted, Drawn, ValidPicture, Four, Replicate, Line;
    if p.w == 0 || p.h == 0 {
      return;
    }
    ghost var before := dst[..];
    var s, t := SourceOf(p), TargetOf(p, 4, dp);
    EvenTimesFour(p.w);
    var dp32 := t.pitch / 2;
    DrawnEnds(s, t, before);
    TimesStep(0, 4);
    for y := 0 to p.h
      invariant dst[..] == Drawn(s, t, before, Times(y, 4))
    {
      FourRowsDrawn(s, t, before, y);
      PackedFourRows(Line(s, y), dst, RowStart(t, Times(y, 4)), dp32);
    }
  }

  lemma {:induction false} EvenTimesFour(w: nat)
    ensures Times(w, 4) % 2 == 0
  {
    hide Times;
    TimesStep(0, 4);
    if w > 0 {
      EvenTimesFour(w - 1);
      TimesStep(w - 1, 4);
    }
  }

  // ----- buffer_upscale

  /** One row of the destination with its padding: what the line buffer holds. */
  function FullRow(p: Picture, n: nat, y: nat, padding: seq<pixel>): seq<pixel>
    requires ValidPicture(p) && n > 0 && y / n < p.h
  {
    Replicate(Line(p, y / n), n) + padding
  }

  ghost predicate RowsDone(p: Picture, n: nat, pitch: nat, padding: seq<pixel>, b: seq<pixel>, rows: nat)
    requires ValidPicture(p)
  {
    forall y: nat :: y < rows ==> RowDone(p, n, pitch, padding, b, y)
  }

  ghost predicate RowDone(p: Picture, n: nat, pitch: nat, padding: seq<pixel>, b: seq<pixel>, y: nat)
    requires ValidPicture(p)
  {
    n > 0 && y / n < p.h && Times(y, pitch) + pitch <= |b| &&
    b[Times(y, pitch)..Times(y, pitch) + pitch] == FullRow(p, n, y, padding)
  }

  lemma OneRowMore(p: Picture, n: nat, pitch: nat, padding: seq<pixel>, b: seq<pixel>, rows: nat)
    requires ValidPicture(p) && n > 0 && rows / n < p.h && |FullRow(p, n, rows, padding)| == pitch
    requires RowsDone(p, n, pitch, padding, b, rows) && Times(rows, pitch) + pitch <= |b|
    ensures RowsDone(p, n, pitch, padding, Splice(b, Times(rows, pitch), FullRow(p, n, rows, padding)), rows + 1)
    ensures var next := Times(rows + 1, pitch);
            b[next..] == Splice(b, Times(rows, pitch), FullRow(p, n, rows, padding))[next..]
  {
    hide Times, FullRow;
    TimesStep(rows, pitch);
    var c := Splice(b, Times(rows, pitch), FullRow(p, n, rows, padding));
    forall y: nat | y < rows + 1
      ensures RowDone(p, n, pitch, padding, c, y)
    {
      if y < rows {
        assert RowDone(p, n, pitch, padding, b, y);
        RowsApart(Target(pitch, rows, 0, pitch), y, rows);
        assert c[Times(y, pitch)..Times(y, pitch) + pitch] == b[Times(y, pitch)..Times(y, pitch) + pitch];
      }
    }
  }

  /** The line buffer is filled pixel by pixel, each `n` times. */
  method FillRow(line: seq<pixel>, buf: array<pixel>, n: nat)
    requires |Replicate(line, n)| <= buf.Length
    modifies buf
    ensures buf[..] == Splice(old(buf[..]), 0, Replicate(line, n))
  {
    hide Replicate, Splice;
    ghost var before := buf[..];
    var c, dx := 0, 0;
    ReplicateNone(line, n);
    SpliceNothing(before, 0, []);
    while c < |line|
      invariant 0 <= c <= |line| && dx == |Replicate(line[..c], n)| <= buf.Length
      invariant buf[..] == Splice(before, 0, Replicate(line[..c], n))
    {
      ReplicateNext(line, n, c);
      if n > 0 {
        ReplicatePrefix(line, n, c + 1);
      }
      ghost var front := Replicate(line[..c], n);
      var scale := n;
      assert Repeat(line[c], 0) == [] && front + [] == front;
      while scale > 0
        invariant 0 <= scale <= n && dx == |front| + n - scale
        invariant buf[..] == Splice(before, 0, front + Repeat(line[c], n - scale))
      {
        assert Repeat(line[c], n - scale + 1) == Repeat(line[c], n - scale) + [line[c]];
        assert front + Repeat(line[c], n - scale + 1) == front + Repeat(line[c], n - scale) + [line[c]];
        SpliceMore(before, 0, front + Repeat(line[c], n - scale), [line[c]]);
        SpliceOne(buf[..], dx, line[c]);
        buf[dx] := line[c];
        dx := dx + 1;
        scale := scale - 1;
      }
      c := c + 1;
    }
    assert line[..c] == line;
  }

  /** What one line of the source becomes: `n` equal rows. */
  method CopyRows(p: Picture, n: nat, y: nat, dst: array<pixel>, at: nat, buf: array<pixel>, ghost padding: seq<pixel>,
                  ghost before: seq<pixel>)
    returns (next: nat)
    requires ValidPicture(p) && y < p.h && buf != dst && |before| == dst.Length
    requires at == Times(Times(y, n), buf.Length) && (n > 0 ==> Times(Times(p.h, n), buf.Length) <= dst.Length)
    requires buf[..] == Replicate(Line(p, y), n) + padding
    requires RowsDone(p, n, buf.Length, padding, dst[..], Times(y, n))
    requires at <= dst.Length && dst[at..] == before[at..]
    modifies dst
    ensures next == Times(Times(y + 1, n), buf.Length) <= dst.Length
    ensures RowsDone(p, n, buf.Length, padding, dst[..], Times(y + 1, n))
    ensures dst[next..] == before[next..]
  {
    hide Times, Splice, RowsDone, Replicate, Line;
    next := at;
    var scale := n;
    TimesStep(y, n);
    while scale > 0
      invariant 0 <= scale <= n && next == Times(Times(y, n) + (n - scale), buf.Length) <= dst.Length
      invariant RowsDone(p, n, buf.Length, padding, dst[..], Times(y, n) + (n - scale))
      invariant dst[next..] == before[next..]
    {
      ghost var rows := Times(y, n) + (n - scale);
      CopyOf(p, n, y, n - scale, buf.Length);
      OneRowMore(p, n, buf.Length, padding, dst[..], rows);
      TimesStep(rows, buf.Length);
      BehindStays(dst[..], before, next, next + buf.Length);
      CopyIn(dst, next, buf[..]);
      next := next + buf.Length;
      scale := scale - 1;
    }
  }

  lemma BehindStays(b: seq<pixel>, before: seq<pixel>, at: nat, next: nat)
    requires |b| == |before| && at <= next <= |b| && b[at..] == before[at..]
    ensures b[next..] == before[next..]
  {
    assert b[next..] == b[at..][next - at..];
  }

  /** Row `y * n + k` is a copy of line `y` and lies before the end of the picture. */
  lemma CopyOf(p: Picture, n: nat, y: nat, k: nat, pitch: nat)
    requires y < p.h && k < n
    ensures (Times(y, n) + k) / n == y
    ensures Times(Times(y, n) + k, pitch) + pitch <= Times(Times(p.h, n), pitch)
  {
    hide Times;
    TimesIs(y, n);
    DivModUnique(Times(y, n) + k, n, y, k);
    TimesStep(y, n);
    if y + 1 < p.h {
      TimesOrder(y + 1, p.h, n);
    }
    RowsApartOrTouching(Times(y, n) + k + 1, Times(p.h, n), pitch);
    TimesStep(Times(y, n) + k, pitch);
  }

  lemma TimesIs(a: nat, b: nat)
    ensures Times(a, b) == a * b
  {
  }

  lemma RowsApartOrTouching(a: nat, b: nat, pitch: nat)
    requires a <= b
    ensures Times(a, pitch) <= Times(b, pitch)
  {
    if a < b && pitch > 0 {
      TimesOrder(a, b, pitch);
    }
  }

  /**
   `buffer_upscale` behind the choice of its line buffer `buf`, which is as long as a row of the
   destination and may hold anything.
   */
  method BufferUpscale(p: Picture, dstW: nat, dstH: nat, dst: array<pixel>, buf: array<pixel>)
    requires p.w > 0 && buf != dst
    requires dstW / p.w == 1 ==> Times(dstH, buf.Length) <= |p.data| && Times(dstH, buf.Length) <= dst.Length
    requires dstW / p.w != 1 && p.h > 0 ==>
               ValidPicture(p) && Times(p.w, dstW / p.w) <= buf.Length &&
               Times(Times(p.h, dstW / p.w), buf.Length) <= dst.Length
    modifies dst, buf
    ensures dstW / p.w == 1 ==>
              dst[..] == Splice(old(dst[..]), 0, p.data[..Times(dstH, buf.Length)])
    ensures dstW / p.w != 1 && p.h > 0 ==>
              Upscaled(p, dstW / p.w, buf.Length, old(buf[Times(p.w, dstW / p.w)..]), old(dst[..]), dst[..])
    ensures dstW / p.w != 1 && p.h == 0 ==> dst[..] == old(dst[..])
  {
    hide Times, Splice, RowsDone, Replicate, Line, ValidPicture;
    var scale := dstW / p.w;
    if scale == 1 {
      CopyIn(dst, 0, p.data[..Times(dstH, buf.Length)]);
      return;
    }
    if p.h == 0 {
      return;
    }
    ghost var before, padding := dst[..], buf[Times(p.w, scale)..];
    var at := 0;
    NoRows(p, scale, buf.Length, padding, before);
    for y := 0 to p.h
      invariant at == Times(Times(y, scale), buf.Length) <= dst.Length
      invariant buf[Times(p.w, scale)..] == padding
      invariant RowsDone(p, scale, buf.Length, padding, dst[..], Times(y, scale))
      invariant dst[at..] == before[at..]
    {
      ReplicateLength(Line(p, y), scale);
      Refilled(buf[..], padding, Replicate(Line(p, y), scale));
      FillRow(Line(p, y), buf, scale);
      at := CopyRows(p, scale, y, dst, at, buf, padding, before);
    }
  }

  lemma NoRows(p: Picture, n: nat, pitch: nat, padding: seq<pixel>, b: seq<pixel>)
    requires ValidPicture(p)
    ensures Times(0, n) == 0 && Times(Times(0, n), pitch) == 0
    ensures RowsDone(p, n, pitch, padding, b, Times(0, n))
  {
    TimesStep(0, n);
    TimesStep(0, pitch);
  }

  lemma Refilled(b: seq<pixel>, padding: seq<pixel>, row: seq<pixel>)
    requires |row| <= |b| && b[|row|..] == padding
    ensures Splice(b, 0, row) == row + padding && Splice(b, 0, row)[|row|..] == padding
  {
  }

  /** All rows are done, each with the padding behind it, and nothing behind the picture has changed. */
  ghost predicate Upscaled(p: Picture, n: nat, pitch: nat, padding: seq<pixel>, before: seq<pixel>, after: seq<pixel>)
    requires ValidPicture(p)
  {
    var end := Times(Times(p.h, n), pitch);
    && |after| == |before| && end <= |after| && after[end..] == before[end..]
    && RowsDone(p, n, pitch, padding, after, Times(p.h, n))
  }

  // ----- what the pictures are, pixel by pixel

  /** Pixel (x, y) is source pixel (x / n, y / n). */
  ghost predicate IsReplicated(p: Picture, n: nat, pitch: nat, after: seq<pixel>, x: nat, y: nat) {
    n > 0 &&
    var i, j := Times(y, pitch) + x, Times(y / n, p.pitch) + x / n;
    i < |after| && j < |p.data| && after[i] == p.data[j]
  }

  /** Every packed scaler replicates pixels, for odd widths too, and leaves the rest of the screen alone. */
  lemma EnlargedIsReplicated(p: Picture, n: nat, dp: nat, before: seq<pixel>)
    requires Fits(p, n, dp, |before|) && p.w > 0 && p.h > 0 && n > 0
    ensures var t := TargetOf(p, n, dp);
            forall x: nat, y: nat :: x < t.w && y < t.h ==>
              IsReplicated(SourceOf(p), n, t.pitch, Enlarged(p, n, dp, before), x, y)
    ensures var t := TargetOf(p, n, dp);
            forall i :: 0 <= i < |before| && Outside(t, t.h, i) ==> Enlarged(p, n, dp, before)[i] == before[i]
  {
    hide Times, Sample, Painted, Outside, IsSampled, ValidPicture, ValidTarget, RowStart, IsReplicated;
    var t := TargetOf(p, n, dp);
    var after := Enlarged(p, n, dp, before);
    ScaleNNIsSampling(SourceOf(p), t, before, after);
    forall x: nat, y: nat | x < t.w && y < t.h
      ensures IsReplicated(SourceOf(p), n, t.pitch, after, x, y)
    {
      SampledIsReplicated(SourceOf(p), t, n, after, x, y);
    }
  }

  lemma SampledIsReplicated(p: Picture, t: Target, n: nat, after: seq<pixel>, x: nat, y: nat)
    requires n > 0 && t.w == Times(p.w, n) && t.h == Times(p.h, n) && t.offs == 0
    requires x < t.w && y < t.h && IsSampled(p, t, after, x, y)
    ensures IsReplicated(p, n, t.pitch, after, x, y)
  {
    hide Times, Sample;
    SampleIsQuotient(x, p.w, n);
    SampleIsQuotient(y, p.h, n);
  }

  /** `buffer_upscale` computes the same picture; between the rows it leaves what its line buffer held. */
  lemma UpscaledIsReplicated(p: Picture, n: nat, pitch: nat, padding: seq<pixel>, before: seq<pixel>, after: seq<pixel>,
                             x: nat, y: nat)
    requires ValidPicture(p) && n > 0 && Times(p.w, n) + |padding| == pitch
    requires Upscaled(p, n, pitch, padding, before, after) && x < pitch && y < Times(p.h, n)
    ensures x < Times(p.w, n) ==> IsReplicated(p, n, pitch, after, x, y)
    ensures x >= Times(p.w, n) ==>
              Times(y, pitch) + x < |after| && after[Times(y, pitch) + x] == padding[x - Times(p.w, n)]
  {
    hide Times, Replicate;
    assert RowDone(p, n, pitch, padding, after, y);
    var line := Line(p, y / n);
    ReplicateLength(line, n);
    var row := after[Times(y, pitch)..Times(y, pitch) + pitch];
    assert row[x] == after[Times(y, pitch) + x];
    if x < Times(p.w, n) {
      SampleIsQuotient(x, p.w, n);
      ReplicateAt(line, n, x / n, x % n);
      LineInside(p, y / n);
    }
  }

  ghost predicate IsAt(b: seq<pixel>, i: nat, v: pixel) {
    i < |b| && b[i] == v
  }

  /** Column `x` lies between the rows' ends and the pitch. */
  ghost predicate InGap(p: Picture, n: nat, pitch: nat, x: nat, y: nat) {
    Times(p.w, n) <= x < pitch && y < Times(p.h, n)
  }

  /** Between the rows the screen is as it was before. */
  ghost predicate GapKept(p: Picture, n: nat, pitch: nat, before: seq<pixel>, after: seq<pixel>) {
    forall x: nat, y: nat :: InGap(p, n, pitch, x, y) ==>
      Times(y, pitch) + x < |before| && IsAt(after, Times(y, pitch) + x, before[Times(y, pitch) + x])
  }

  /** Between the rows the screen holds what the line buffer holds behind its row. */
  ghost predicate GapHolds(p: Picture, n: nat, pitch: nat, padding: seq<pixel>, b: seq<pixel>)
    requires Times(p.w, n) + |padding| == pitch
  {
    forall x: nat, y: nat :: InGap(p, n, pitch, x, y) ==>
      IsAt(b, Times(y, pitch) + x, padding[x - Times(p.w, n)])
  }

  /** `buffer_upscale` leaves the gap alone exactly when its line buffer held what the screen held there. */
  lemma GapIsKeptExactly(p: Picture, n: nat, pitch: nat, padding: seq<pixel>, before: seq<pixel>, after: seq<pixel>)
    requires ValidPicture(p) && n > 0 && Times(p.w, n) + |padding| == pitch
    requires Upscaled(p, n, pitch, padding, before, after)
    ensures GapHolds(p, n, pitch, padding, after)
    ensures GapKept(p, n, pitch, before, after) <==> GapHolds(p, n, pitch, padding, before)
  {
    hide Times, Upscaled, ValidPicture, IsReplicated;
    forall x: nat, y: nat | InGap(p, n, pitch, x, y)
      ensures IsAt(after, Times(y, pitch) + x, padding[x - Times(p.w, n)]) && |after| == |before|
    {
      UpscaledIsReplicated(p, n, pitch, padding, before, after, x, y);
      SameLength(p, n, pitch, padding, before, after);
    }
  }

  lemma SameLength(p: Picture, n: nat, pitch: nat, padding: seq<pixel>, before: seq<pixel>, after: seq<pixel>)
    requires ValidPicture(p) && Upscaled(p, n, pitch, padding, before, after)
    ensures |after| == |before|
  {
  }

  const DOT := Picture([7], 1, 1, 1)

  /** One pixel doubled onto an empty screen three pixels wide: the line buffer's third pixel shows. */
  lemma GapShowsLineBuffer(after: seq<pixel>)
    ensures ValidPicture(DOT)
    ensures Upscaled(DOT, 2, 3, [9], [0, 0, 0, 0, 0, 0], after) <==> after == [7, 7, 9, 7, 7, 9]
  {
    hide Upscaled, RowsDone;
    if Upscaled(DOT, 2, 3, [9], [0, 0, 0, 0, 0, 0], after) {
      DotIsDoubled(2, 3, [9], [0, 0, 0, 0, 0, 0], after);
    }
    if after == [7, 7, 9, 7, 7, 9] {
      DotCanBeDoubled(2, 3, [9], [0, 0, 0, 0, 0, 0], after);
    }
  }

  lemma DotIsDoubled(n: nat, pitch: nat, padding: seq<pixel>, before: seq<pixel>, after: seq<pixel>)
    requires ValidPicture(DOT) && n == 2 && pitch == 3 && padding == [9] && |before| == 6
    requires Upscaled(DOT, n, pitch, padding, before, after)
    ensures after == [7, 7, 9, 7, 7, 9]
  {
    hide Upscaled;
    SameLength(DOT, n, pitch, padding, before, after);
    forall i | 0 <= i < 6
      ensures after[i] == [7, 7, 9, 7, 7, 9][i]
    {
      UpscaledIsReplicated(DOT, n, pitch, padding, before, after, i % 3, i / 3);
    }
  }

  lemma DotCanBeDoubled(n: nat, pitch: nat, padding: seq<pixel>, before: seq<pixel>, after: seq<pixel>)
    requires ValidPicture(DOT) && n == 2 && pitch == 3 && padding == [9] && |before| == 6
    requires after == [7, 7, 9, 7, 7, 9]
    ensures Upscaled(DOT, n, pitch, padding, before, after)
  {
    hide Replicate, Line;
    LineOfDot();
    ReplicateOneLine(Line(DOT, 0), n);
    forall y: nat | y < 2
      ensures RowDone(DOT, n, pitch, padding, after, y)
    {
      assert after[3 * y..3 * y + 3] == Repeat(7, 2) + [9];
    }
  }

  lemma ReplicateOneLine(line: seq<pixel>, n: nat)
    requires line == [7]
    ensures Replicate(line, n) == Repeat(7, n)
  {
    ReplicateNone(line, n);
    ReplicateNext(line, n, 0);
    assert line[..1] == line;
  }

  lemma LineOfDot()
    ensures ValidPicture(DOT) && Line(DOT, 0) == [7]
  {
  }

  // ----- the same on the caller's own pitches

  /** Pixel (x, y) at screen pitch `dp` is pixel (x / n, y / n) of data at pitch `sp`. */
  ghost predicate IsCopy(data: seq<pixel>, sp: nat, n: nat, dp: nat, after: seq<pixel>, x: nat, y: nat) {
    n > 0 &&
    var i: int, j: int := y * dp + x, (y / n) * sp + x / n;
    0 <= i < |after| && 0 <= j < |data| && after[i] == data[j]
  }

  lemma CopyIsReplica(p: Picture, n: nat, pitch: nat, after: seq<pixel>, x: nat, y: nat)
    requires IsReplicated(p, n, pitch, after, x, y)
    ensures IsCopy(p.data, p.pitch, n, pitch, after, x, y)
  {
    hide Times;
    TimesIs(y, pitch);
    TimesIs(y / n, p.pitch);
  }

  /**
   A pitch of 0 for the source stands for its width, a pitch of 0 for the screen for `n` times that; any
   other pitch is taken as it is.
   */
  lemma PitchesAreTheCallers(p: Picture, n: nat, dp: nat, before: seq<pixel>, x: nat, y: nat)
    requires Fits(p, n, dp, |before|) && p.w > 0 && p.h > 0 && n > 0
    requires x < n * p.w && y < n * p.h
    ensures p.pitch > 0 && dp > 0 ==> IsCopy(p.data, p.pitch, n, dp, Enlarged(p, n, dp, before), x, y)
    ensures p.pitch == 0 && dp > 0 ==> IsCopy(p.data, p.w, n, dp, Enlarged(p, n, dp, before), x, y)
    ensures p.pitch > 0 && dp == 0 ==> IsCopy(p.data, p.pitch, n, n * p.w, Enlarged(p, n, dp, before), x, y)
    ensures p.pitch == 0 && dp == 0 ==> IsCopy(p.data, p.w, n, n * p.w, Enlarged(p, n, dp, before), x, y)
  {
    hide Times, Enlarged, IsReplicated, IsCopy, Outside, ValidPicture, ValidTarget, Fits;
    TimesIs(p.w, n);
    TimesIs(p.h, n);
    EnlargedIsReplicated(p, n, dp, before);
    CopyIsReplica(SourceOf(p), n, TargetOf(p, n, dp).pitch, Enlarged(p, n, dp, before), x, y);
  }

  /** Rows four apart in the source, drawn without gaps at double size: pixel (0, 2) is from the second line. */
  lemma WidePitch(before: seq<pixel>, p: Picture, n: nat, dp: nat)
    requires p == Picture([1, 2, 9, 9, 3, 4, 9, 9, 5, 6], 2, 2, 4) && n == 2 && dp == 0 && |before| == 16
    ensures Fits(p, n, dp, 16) && |Enlarged(p, n, dp, before)| == 16 && Enlarged(p, n, dp, before)[8] == 3
  {
    hide Painted;
    PitchesAreTheCallers(p, n, dp, before, 0, 2);
  }
}
