/**
 The software scalers of picoarch/source/scale.c.  Lengths, pitches and offsets count 16-bit pixels.
 `scaleNN` and `scaleNN_text` share their outer loop and differ in how a row is drawn, and
 so do the two scanline forms.
 */
module Scale {
  import opened Arith
  import opened Memory

  type pixel = x: int | 0 <= x < 0x1_0000

  /** Where position `x` of `size` positions falls in `from` positions. */
  function Sample(x: nat, from: nat, size: nat): nat
    requires size > 0
  {
    x * from / size
  }

  /** A product, named so that the solver only learns the facts below about it. */
  function Times(a: nat, b: nat): nat {
    a * b
  }

  lemma TimesStep(a: nat, b: nat)
    ensures Times(0, b) == 0 && Times(a + 1, b) == Times(a, b) + b
  {
    Spread(a, 1, b);
  }

  lemma TimesOrder(a: nat, b: nat, k: nat)
    requires k > 0
    ensures Times(a, k) < Times(b, k) <==> a < b
  {
    if a < b {
      AtLeastOnce(b - a, k);
      Spread(b - a, a, k);
    } else {
      Spread(a - b, b, k);
      if a > b {
        AtLeastOnce(a - b, k);
      }
    }
  }

  lemma TimesCommutes(a: nat, b: nat)
    ensures Times(a, b) == Times(b, a)
  {
  }

  /** The error terms of the loops say which sample a position falls in. */
  lemma SampleBetween(x: nat, from: nat, size: nat, c: nat)
    requires size > 0 && Times(c, size) <= Times(x, from) < Times(c, size) + size
    ensures Sample(x, from, size) == c
  {
    DivModUnique(x * from, size, c, x * from - c * size);
  }

  lemma SampleInRange(x: nat, from: nat, size: nat)
    requires x < size && from > 0
    ensures Sample(x, from, size) < from
    ensures x > 0 ==> Sample(x - 1, from, size) <= Sample(x, from, size)
    ensures Sample(0, from, size) == 0
  {
    TimesOrder(x, size, from);
    TimesCommutes(size, from);
    DivBelow(x * from, size, from);
    if x > 0 {
      var q := Sample(x, from, size);
      DivMod(x * from, size);
      Spread(x - 1, 1, from);
      Spread(q, 1, size);
      DivBelow((x - 1) * from, size, q + 1);
    }
    DivModUnique(0 * from, size, 0, 0);
  }

  // ----- one row

  /** The plain sampling formula. */
  function NearestPixel(line: seq<pixel>, size: nat, x: nat): pixel
    requires |line| > 0 && x < size
  {
    SampleInRange(x, |line|, size);
    line[Sample(x, |line|, size)]
  }

  function Mask3E(v: nat): nat {
    v / 2 % 32 * 2
  }

  /** Brightness of an RGB565 pixel, 0 to 63, in 16-bit arithmetic. */
  function Luma(p: pixel): nat {
    var r, g, b := Mask3E(p / 0x400), p / 0x20 % 64, Mask3E(p * 2);
    var sum := (r * 218 + g * 732 + b * 74) % 0x1_0000;
    sum / 0x400 + sum / 0x200 % 2
  }

  /** Is the pixel on the left kept once more instead of drawing the next sample? */
  predicate Smears(l1: pixel, l2: pixel) {
    l1 != l2 && Luma(l1) > 24
  }

  /** The text scaler: at the edge of a run a bright lone sample on the left is drawn again. */
  function TextPixel(line: seq<pixel>, size: nat, x: nat): pixel
    requires |line| > 0 && x < size
  {
    if x > 0 && Sample(x, |line|, size) != Sample(x - 1, |line|, size) &&
       Smears(NearestPixel(line, size, x - 1), Earlier(line, size, x, 2))
    then NearestPixel(line, size, x - 1)
    else NearestPixel(line, size, x)
  }

  /** The sample `back` positions before `x`, black before the row starts. */
  function Earlier(line: seq<pixel>, size: nat, x: nat, back: nat): pixel
    requires |line| > 0 && 0 < back && x <= size
  {
    if x >= back then NearestPixel(line, size, x - back) else 0
  }

  datatype Style = Plain | Text

  function RowPixel(style: Style, line: seq<pixel>, size: nat, x: nat): pixel
    requires |line| > 0 && x < size
  {
    match style
    case Plain => NearestPixel(line, size, x)
    case Text => TextPixel(line, size, x)
  }

  function Row(style: Style, line: seq<pixel>, size: nat): (r: seq<pixel>)
    requires |line| > 0
    ensures |r| == size
    ensures forall x :: 0 <= x < size ==> r[x] == RowPixel(style, line, size, x)
  {
    seq(size, x requires 0 <= x < size => RowPixel(style, line, size, x))
  }

  /** One pixel more at the right end of a row drawn so far. */
  lemma SpliceOneMore(b: seq<pixel>, at: nat, row: seq<pixel>, x: nat)
    requires x < |row| && at + |row| <= |b|
    ensures Splice(b, at, row[..x])[at + x := row[x]] == Splice(b, at, row[..x + 1])
  {
  }

  /** The column loop of `scaleNN`. */
  method PlainRow(line: seq<pixel>, dst: array<pixel>, at: nat, dstW: nat)
    requires |line| > 0 && dstW > 0 && at + dstW <= dst.Length
    modifies dst
    ensures dst[..] == Splice(old(dst[..]), at, Row(Plain, line, dstW))
  {
    hide Times, Sample, Splice;
    var w := |line|;
    var dx: int := 0 - dstW;
    ghost var row, before := Row(Plain, line, dstW), dst[..];
    var x, c := 0, 0;
    TimesStep(0, w);
    TimesStep(0, dstW);
    SpliceNothing(before, at, row);
    while c < w
      invariant 0 <= c <= w && 0 <= x <= dstW
      invariant dx == Times(x, w) - Times(c, dstW) - dstW >= 0 - dstW
      invariant dst[..] == Splice(before, at, row[..x])
    {
      TimesStep(c, dstW);
      while dx < 0
        invariant 0 <= x <= dstW
        invariant dx == Times(x, w) - Times(c, dstW) - dstW >= 0 - dstW
        invariant dst[..] == Splice(before, at, row[..x])
        decreases -dx
      {
        StillInRow(x, c, w, dstW);
        SampleBetween(x, w, dstW, c);
        SpliceOneMore(before, at, row, x);
        TimesStep(x, w);
        dst[at + x] := line[c];
        x := x + 1;
        dx := dx + w;
      }
      dx := dx - dstW;
      c := c + 1;
    }
    RowComplete(x, w, dstW);
    assert row[..x] == row;
  }

  lemma SpliceNothing(b: seq<pixel>, at: nat, row: seq<pixel>)
    requires at + |row| <= |b|
    ensures Splice(b, at, row[..0]) == b
  {
  }

  lemma StillInRow(x: nat, c: nat, w: nat, dstW: nat)
    requires w > 0 && c < w && Times(x, w) < Times(c, dstW) + dstW
    ensures x < dstW
  {
    TimesStep(c, dstW);
    TimesCommutes(w, dstW);
    if c + 1 < w {
      if dstW > 0 {
        TimesOrder(c + 1, w, dstW);
      }
    }
    TimesOrder(x, dstW, w);
  }

  lemma RowComplete(x: nat, w: nat, dstW: nat)
    requires w > 0 && x <= dstW && Times(x, w) >= Times(w, dstW)
    ensures x == dstW
  {
    TimesCommutes(w, dstW);
    TimesOrder(x, dstW, w);
  }

  /** The column loop of `scaleNN_text`: `l1` and `l2` are the samples of the last two pixels drawn. */
  method TextRow(line: seq<pixel>, dst: array<pixel>, at: nat, dstW: nat)
    requires |line| > 0 && dstW > 0 && at + dstW <= dst.Length
    modifies dst
    ensures dst[..] == Splice(old(dst[..]), at, Row(Text, line, dstW))
  {
    hide Times, Sample, Splice, Luma, NearestPixel;
    var w := |line|;
    var safe := w - 1;
    var dx: int := 0 - dstW;
    var l1: pixel, l2: pixel := 0, 0;
    ghost var row, before := Row(Text, line, dstW), dst[..];
    var x, c := 0, 0;
    TimesStep(0, w);
    TimesStep(0, dstW);
    SpliceNothing(before, at, row);
    while c < w
      invariant 0 <= c <= w && 0 <= x <= dstW && (c > 0 ==> x > 0)
      invariant dx == Times(x, w) - Times(c, dstW) - dstW >= 0 - dstW
      invariant l1 == Earlier(line, dstW, x, 1) && l2 == Earlier(line, dstW, x, 2)
      invariant x > 0 ==> Sample(x - 1, w, dstW) < c
      invariant dst[..] == Splice(before, at, row[..x])
    {
      TimesStep(c, dstW);
      var col := w - 1 - c;
      var d := col < safe && Smears(l1, l2);
      var s := line[c];
      ghost var first := x;
      while dx < 0
        invariant 0 <= first <= x <= dstW
        invariant dx == Times(x, w) - Times(c, dstW) - dstW >= 0 - dstW
        invariant l1 == Earlier(line, dstW, x, 1) && l2 == Earlier(line, dstW, x, 2)
        invariant x == first ==> (d <==> c > 0 && Smears(l1, l2)) && (x > 0 ==> Sample(x - 1, w, dstW) < c)
        invariant x > first ==> !d && Sample(x - 1, w, dstW) == c
        invariant c > 0 ==> x > 0
        invariant dst[..] == Splice(before, at, row[..x])
        decreases -dx
      {
        StillInRow(x, c, w, dstW);
        SampleBetween(x, w, dstW, c);
        NearestIs(line, dstW, x);
        assert row[x] == if d then l1 else s;
        SpliceOneMore(before, at, row, x);
        TimesStep(x, w);
        dst[at + x] := if d then l1 else s;
        x := x + 1;
        dx := dx + w;
        l2 := l1;
        l1 := s;
        d := false;
      }
      dx := dx - dstW;
      c := c + 1;
    }
    RowComplete(x, w, dstW);
    assert row[..x] == row;
  }

  lemma NearestIs(line: seq<pixel>, size: nat, x: nat)
    requires |line| > 0 && x < size
    ensures Sample(x, |line|, size) < |line|
    ensures NearestPixel(line, size, x) == line[Sample(x, |line|, size)]
    ensures Sample(0, |line|, size) == 0
  {
    SampleInRange(x, |line|, size);
  }

  method DrawRow(style: Style, line: seq<pixel>, dst: array<pixel>, at: nat, dstW: nat)
    requires |line| > 0 && dstW > 0 && at + dstW <= dst.Length
    modifies dst
    ensures dst[..] == Splice(old(dst[..]), at, Row(style, line, dstW))
  {
    hide Row, Splice;
    match style
    case Plain => PlainRow(line, dst, at, dstW);
    case Text => TextRow(line, dst, at, dstW);
  }

  // ----- the whole picture

  /** A source picture, row after row, `pitch` apart. */
  datatype Picture = Picture(data: seq<pixel>, w: nat, h: nat, pitch: nat)

  predicate ValidPicture(p: Picture) {
    p.w > 0 && p.h > 0 && Times(p.h - 1, p.pitch) + p.w <= |p.data|
  }

  function Line(p: Picture, y: nat): (l: seq<pixel>)
    requires ValidPicture(p) && y < p.h
    ensures |l| == p.w
  {
    LineInside(p, y);
    p.data[Times(y, p.pitch)..Times(y, p.pitch) + p.w]
  }

  lemma LineInside(p: Picture, y: nat)
    requires ValidPicture(p) && y < p.h
    ensures Times(y, p.pitch) + p.w <= |p.data|
  {
    Spread(p.h - 1 - y, y, p.pitch);
  }

  /** Where on the screen the picture goes: the rectangle's size, its first pixel, the screen's pitch. */
  datatype Target = Target(w: nat, h: nat, offs: nat, pitch: nat)

  predicate ValidTarget(t: Target, rows: nat, length: nat) {
    0 < t.w <= t.pitch && 0 < t.h && 0 < rows && t.offs + Times(rows - 1, t.pitch) + t.w <= length
  }

  function RowStart(t: Target, y: nat): nat {
    t.offs + Times(y, t.pitch)
  }

  lemma RowInside(t: Target, rows: nat, length: nat, y: nat)
    requires ValidTarget(t, rows, length) && y < rows
    ensures RowStart(t, y) + t.w <= length
  {
    Spread(rows - 1 - y, y, t.pitch);
  }

  /** The screen after the rows below `y`, each drawn from line floor(y * h / rows); `every` row or every second. */
  ghost function Painted(style: Style, p: Picture, t: Target, rows: nat, every: bool, before: seq<pixel>, y: nat)
    : (r: seq<pixel>)
    requires ValidPicture(p) && ValidTarget(t, rows, |before|) && y <= rows
    ensures |r| == |before|
    decreases y
  {
    if y == 0 then before
    else
      var r := Painted(style, p, t, rows, every, before, y - 1);
      SampleInRange(y - 1, p.h, rows);
      RowInside(t, rows, |before|, y - 1);
      if every || (y - 1) % 2 == 0
      then Splice(r, RowStart(t, y - 1), Row(style, Line(p, Sample(y - 1, p.h, rows)), t.w))
      else r
  }

  /** `memcpy(dst, dst - SCREEN_PITCH, cpy_w)` */
  method CopyRow(dst: array<pixel>, to: nat, from: nat, len: nat)
    requires from + len <= to && to + len <= dst.Length
    modifies dst
    ensures dst[..] == Splice(old(dst[..]), to, old(dst[from..from + len]))
  {
    forall k | 0 <= k < len {
      dst[to + k] := dst[from + k];
    }
  }

  lemma PaintedStep(style: Style, p: Picture, t: Target, rows: nat, every: bool, before: seq<pixel>, y: nat, s: nat)
    requires ValidPicture(p) && ValidTarget(t, rows, |before|) && y < rows && s < p.h
    requires s == Sample(y, p.h, rows)
    ensures RowStart(t, y) + t.w <= |before|
    ensures Painted(style, p, t, rows, every, before, 0) == before
    ensures Painted(style, p, t, rows, every, before, y + 1) ==
            var r := Painted(style, p, t, rows, every, before, y);
            if every || y % 2 == 0 then Splice(r, RowStart(t, y), Row(style, Line(p, s), t.w)) else r
  {
    hide Splice, Row, Line, RowStart;
    RowInside(t, rows, |before|, y);
  }

  /** The row above, if it was drawn from the same line, is the row to draw. */
  lemma RowAboveIsSame(style: Style, p: Picture, t: Target, rows: nat, before: seq<pixel>, y: nat, s: nat)
    requires ValidPicture(p) && ValidTarget(t, rows, |before|) && 0 < y < rows && s < p.h
    requires s == Sample(y - 1, p.h, rows)
    ensures var r := Painted(style, p, t, rows, true, before, y);
            RowStart(t, y - 1) + t.w <= |r| && RowStart(t, y) == RowStart(t, y - 1) + t.pitch &&
            r[RowStart(t, y - 1)..RowStart(t, y - 1) + t.w] == Row(style, Line(p, s), t.w)
  {
    hide Row, Line, Sample, Times;
    PaintedStep(style, p, t, rows, true, before, y - 1, s);
    TimesStep(y - 1, t.pitch);
  }

  /** `scaleNN` and `scaleNN_text`. */
  method ScaleNN(style: Style, p: Picture, dst: array<pixel>, t: Target)
    requires ValidPicture(p) && ValidTarget(t, t.h, dst.Length)
    modifies dst
    ensures dst[..] == Painted(style, p, t, t.h, true, old(dst[..]), t.h)
  {
    hide Times, Sample, Splice, Row, Painted, Line, RowStart;
    var h: int, dstH: int := p.h, t.h;
    var dy: int := 0 - dstH;
    var lines := h;
    var copy := false;
    ghost var before := dst[..];
    var y, s := 0, 0;
    TimesStep(0, h);
    TimesStep(0, dstH);
    FirstRow(p.h, dstH);
    PaintedStep(style, p, t, dstH, true, before, 0, 0);
    while lines > 0
      invariant 0 <= s <= h && s + lines == h && 0 <= y <= dstH
      invariant dy == Times(y, h) - Times(s, dstH) - dstH >= 0 - dstH
      invariant copy ==> dy < 0 && y > 0 && Sample(y - 1, h, dstH) == s
      invariant dst[..] == Painted(style, p, t, dstH, true, before, y)
      decreases lines, if dy < 0 then -dy else 0
    {
      TimesStep(s, dstH);
      if dy < 0 {
        StillInRow(y, s, h, dstH);
        SampleBetween(y, h, dstH, s);
        PaintedStep(style, p, t, dstH, true, before, y, s);
        TimesStep(y, h);
      }
      if copy {
        copy := false;
        RowAboveIsSame(style, p, t, dstH, before, y, s);
        CopyRow(dst, RowStart(t, y), RowStart(t, y - 1), t.w);
        y := y + 1;
        dy := dy + h;
      } else if dy < 0 {
        DrawRow(style, Line(p, s), dst, RowStart(t, y), t.w);
        y := y + 1;
        dy := dy + h;
      }
      if dy >= 0 {
        dy := dy - dstH;
        s := s + 1;
        lines := lines - 1;
      } else {
        copy := true;
      }
    }
    RowComplete(y, h, dstH);
  }

  lemma FirstRow(h: nat, rows: nat)
    requires h > 0 && rows > 0
    ensures Sample(0, h, rows) == 0
  {
    SampleInRange(0, h, rows);
  }

  /**
   `scaleNN_scanline` and `scaleNN_text_scanline`: every second row, and never more than one line
   further per row, so a picture taller than the target takes as many rows as it has lines.
   */
  method ScaleScanline(style: Style, p: Picture, dst: array<pixel>, t: Target)
    requires ValidPicture(p) && ValidTarget(t, Max(p.h, t.h), dst.Length)
    modifies dst
    ensures var rows := Max(p.h, t.h); dst[..] == Painted(style, p, t, rows, false, old(dst[..]), rows)
  {
    hide Times, Sample, Splice, Row, Painted, Line, RowStart;
    var h: int, dstH: int := p.h, t.h;
    ghost var rows, before := Max(h, dstH), dst[..];
    var dy: int := 0 - dstH;
    var lines := h;
    var row := 0;
    var s := 0;
    TimesStep(0, h);
    TimesStep(0, dstH);
    FirstRow(p.h, rows);
    PaintedStep(style, p, t, rows, false, before, 0, 0);
    while lines > 0
      invariant 0 <= s <= h && s + lines == h && 0 <= row <= rows
      invariant dy == Times(row, h) - Times(s, dstH) - dstH
      invariant h <= dstH ==> 0 - dstH <= dy && (lines > 0 ==> dy < 0)
      invariant h > dstH ==> s == row
      invariant lines == 0 ==> row == rows
      invariant dst[..] == Painted(style, p, t, rows, false, before, row)
      decreases rows - row
    {
      ScanRow(row, s, h, dstH, dy);
      TimesStep(s, dstH);
      TimesStep(row, h);
      PaintedStep(style, p, t, rows, false, before, row, s);
      if row % 2 == 0 {
        DrawRow(style, Line(p, s), dst, RowStart(t, row), t.w);
      }
      dy := dy + h;
      if dy >= 0 {
        dy := dy - dstH;
        s := s + 1;
        lines := lines - 1;
      }
      row := row + 1;
      if lines == 0 && h <= dstH {
        RowComplete(row, h, dstH);
      }
    }
  }

  /** The line a scanline row comes from. */
  lemma ScanRow(row: nat, s: nat, h: nat, dstH: nat, dy: int)
    requires h > 0 && dstH > 0 && s < h && dy == Times(row, h) - Times(s, dstH) - dstH
    requires h <= dstH ==> 0 - dstH <= dy < 0
    requires h > dstH ==> s == row
    ensures row < Max(h, dstH) && s == Sample(row, h, Max(h, dstH))
    ensures h > dstH ==> dy + h >= 0
  {
    if h <= dstH {
      StillInRow(row, s, h, dstH);
      SampleBetween(row, h, dstH, s);
    } else {
      DivModUnique(row * h, h, row, 0);
      Spread(h - dstH, dstH, row);
    }
  }

  // ----- what the pictures are, pixel by pixel

  lemma {:induction false} PaintedPixel(style: Style, p: Picture, t: Target, rows: nat, every: bool,
                                        before: seq<pixel>, n: nat, y: nat, x: nat)
    requires ValidPicture(p) && ValidTarget(t, rows, |before|) && y < n <= rows && x < t.w
    ensures Sample(y, p.h, rows) < p.h && RowStart(t, y) + x < |before|
    ensures Painted(style, p, t, rows, every, before, n)[RowStart(t, y) + x] ==
            if every || y % 2 == 0 then RowPixel(style, Line(p, Sample(y, p.h, rows)), t.w, x)
            else before[RowStart(t, y) + x]
    decreases n
  {
    hide Sample, Times, Line, RowPixel, RowStart, Outside, Painted, Splice;
    SampleInRange(y, p.h, rows);
    SampleInRange(n - 1, p.h, rows);
    RowInside(t, rows, |before|, y);
    var s, r := Sample(n - 1, p.h, rows), Painted(style, p, t, rows, every, before, n - 1);
    PaintedStep(style, p, t, rows, every, before, n - 1, s);
    SpliceAt(r, RowStart(t, n - 1), Row(style, Line(p, s), t.w), RowStart(t, y) + x);
    if y < n - 1 {
      PaintedPixel(style, p, t, rows, every, before, n - 1, y, x);
      RowsApart(t, y, n - 1);
    } else {
      RowOutsideOthers(t, y, x);
      NotPainted(style, p, t, rows, every, before, n - 1, RowStart(t, y) + x);
    }
  }

  lemma RowsApart(t: Target, y: nat, z: nat)
    requires y < z && t.w <= t.pitch
    ensures RowStart(t, y) + t.w <= RowStart(t, z)
  {
    AtLeastOnce(z - y, t.pitch);
    Spread(z - y, y, t.pitch);
  }

  /** Pixel `i` of the screen is in none of the first `n` rows of the rectangle. */
  ghost predicate Outside(t: Target, n: nat, i: nat) {
    forall y :: 0 <= y < n ==> i < RowStart(t, y) || i >= RowStart(t, y) + t.w
  }

  lemma {:induction false} NotPainted(style: Style, p: Picture, t: Target, rows: nat, every: bool,
                                      before: seq<pixel>, n: nat, i: nat)
    requires ValidPicture(p) && ValidTarget(t, rows, |before|) && n <= rows && i < |before|
    requires Outside(t, n, i)
    ensures Painted(style, p, t, rows, every, before, n)[i] == before[i]
    decreases n
  {
    hide Sample, Times, Line, Row, RowStart;
    if n > 0 {
      SampleInRange(n - 1, p.h, rows);
      PaintedStep(style, p, t, rows, every, before, n - 1, Sample(n - 1, p.h, rows));
      NotPainted(style, p, t, rows, every, before, n - 1, i);
    }
  }

  lemma RowOutsideOthers(t: Target, y: nat, x: nat)
    requires x < t.w <= t.pitch
    ensures Outside(t, y, RowStart(t, y) + x)
  {
    forall z | 0 <= z < y
      ensures RowStart(t, y) + x >= RowStart(t, z) + t.w
    {
      RowsApart(t, z, y);
    }
  }

  /**
   `scaleNN`: pixel (x, y) of the rectangle is source pixel (floor(x * w / dst_w), floor(y * h / dst_h)),
   for every size, enlarging or reducing, and every other pixel of the screen is as before.
   */
  lemma ScaleNNIsSampling(p: Picture, t: Target, before: seq<pixel>, after: seq<pixel>)
    requires ValidPicture(p) && ValidTarget(t, t.h, |before|)
    requires after == Painted(Plain, p, t, t.h, true, before, t.h)
    ensures |after| == |before|
    ensures forall x: nat, y: nat :: x < t.w && y < t.h ==> IsSampled(p, t, after, x, y)
    ensures forall i :: 0 <= i < |before| && Outside(t, t.h, i) ==> after[i] == before[i]
  {
    hide Painted, Outside, Sample, Times, RowStart, IsSampled;
    forall x: nat, y: nat | x < t.w && y < t.h
      ensures IsSampled(p, t, after, x, y)
    {
      PixelSampled(p, t, before, x, y);
    }
    forall i | 0 <= i < |before| && Outside(t, t.h, i)
      ensures after[i] == before[i]
    {
      NotPainted(Plain, p, t, t.h, true, before, t.h, i);
    }
  }

  ghost predicate IsSampled(p: Picture, t: Target, after: seq<pixel>, x: nat, y: nat)
    requires x < t.w && y < t.h
  {
    var i, j := RowStart(t, y) + x, Times(Sample(y, p.h, t.h), p.pitch) + Sample(x, p.w, t.w);
    i < |after| && j < |p.data| && after[i] == p.data[j]
  }

  lemma PixelSampled(p: Picture, t: Target, before: seq<pixel>, x: nat, y: nat)
    requires ValidPicture(p) && ValidTarget(t, t.h, |before|) && x < t.w && y < t.h
    ensures IsSampled(p, t, Painted(Plain, p, t, t.h, true, before, t.h), x, y)
  {
    hide Painted, Sample, Times, RowStart, Line, RowPixel;
    PaintedPixel(Plain, p, t, t.h, true, before, t.h, y, x);
    PlainRowPixel(p, t, x, y);
  }

  lemma PlainRowPixel(p: Picture, t: Target, x: nat, y: nat)
    requires ValidPicture(p) && x < t.w && y < t.h && Sample(y, p.h, t.h) < p.h
    ensures Sample(x, p.w, t.w) < p.w
    ensures var j := Times(Sample(y, p.h, t.h), p.pitch) + Sample(x, p.w, t.w);
            j < |p.data| && RowPixel(Plain, Line(p, Sample(y, p.h, t.h)), t.w, x) == p.data[j]
  {
    hide Sample, Times;
    SampleInRange(x, p.w, t.w);
    LineInside(p, Sample(y, p.h, t.h));
  }

  // ----- the text scaler beside the plain one

  /** Enlarging at least to double width every sample is drawn at least twice. */
  lemma RunsAreLong(x: nat, w: nat, size: nat)
    requires w > 0 && size >= 2 * w && 0 < x < size && Sample(x, w, size) != Sample(x - 1, w, size)
    ensures x >= 2 && Sample(x - 2, w, size) == Sample(x - 1, w, size)
  {
    SampleInRange(x, w, size);
    SampleInRange(0, w, size);
    DivModUnique(1 * w, size, 0, w);
    var q := Sample(x - 1, w, size);
    DivBelow(x * w, size, q + 1);
    Spread(q, 1, size);
    if x > 1 {
      SampleInRange(x - 1, w, size);
      Spread(x - 2, 2, w);
      DivBelow((x - 2) * w, size, q);
    }
  }

  /** From double width on the text scaler draws exactly what the plain one draws. */
  lemma TextIsPlainWhenDoubled(line: seq<pixel>, size: nat, x: nat)
    requires |line| > 0 && size >= 2 * |line| && x < size
    ensures RowPixel(Text, line, size, x) == RowPixel(Plain, line, size, x)
  {
    hide Sample;
    if x > 0 && Sample(x, |line|, size) != Sample(x - 1, |line|, size) {
      RunsAreLong(x, |line|, size);
    }
  }

  /**
   At any width that does not reduce, a text pixel is the nearest sample or its left neighbour in the
   source, and only the first pixel of a run whose left neighbour was drawn once may differ.
   */
  lemma TextIsPlainOrLeft(line: seq<pixel>, size: nat, x: nat)
    requires |line| > 0 && size >= |line| && x < size
    ensures var c := Sample(x, |line|, size);
            && c < |line|
            && (RowPixel(Text, line, size, x) == line[c] || (c > 0 && RowPixel(Text, line, size, x) == line[c - 1]))
            && (RowPixel(Text, line, size, x) != line[c] ==>
                  x > 0 && Sample(x - 1, |line|, size) == c - 1 &&
                  (x > 1 ==> Sample(x - 2, |line|, size) != c - 1))
  {
    hide Sample, Luma;
    SampleInRange(x, |line|, size);
    if x > 0 {
      NextSample(x, |line|, size);
      SampleInRange(x - 1, |line|, size);
      if x > 1 {
        SampleInRange(x - 2, |line|, size);
      }
    }
  }

  /** Enlarging, the sample never jumps by more than one. */
  lemma NextSample(x: nat, w: nat, size: nat)
    requires 0 < x < size && 0 < w <= size
    ensures Sample(x - 1, w, size) <= Sample(x, w, size) <= Sample(x - 1, w, size) + 1
  {
    SampleInRange(x, w, size);
    var q := Sample(x - 1, w, size);
    DivMod((x - 1) * w, size);
    Spread(x - 1, 1, w);
    Spread(q, 2, size);
    DivBelow(x * w, size, q + 2);
  }

  /** The scanline forms draw the even rows of the same picture when it is not taller than the target. */
  lemma ScanlineIsEvenRows(style: Style, p: Picture, t: Target, before: seq<pixel>, x: nat, y: nat)
    requires ValidPicture(p) && ValidTarget(t, t.h, |before|) && p.h <= t.h && x < t.w && y < t.h
    ensures Max(p.h, t.h) == t.h && RowStart(t, y) + x < |before|
    ensures Painted(style, p, t, t.h, false, before, t.h)[RowStart(t, y) + x] ==
            if y % 2 == 0 then Painted(style, p, t, t.h, true, before, t.h)[RowStart(t, y) + x]
            else before[RowStart(t, y) + x]
  {
    hide Painted, Sample, Times, RowStart;
    PaintedPixel(style, p, t, t.h, false, before, t.h, y, x);
    PaintedPixel(style, p, t, t.h, true, before, t.h, y, x);
  }

  /** A taller picture loses its shape: every even row `y` up to the picture's height is line `y`. */
  lemma ScanlineOfTallPicture(style: Style, p: Picture, t: Target, before: seq<pixel>, x: nat, y: nat)
    requires ValidPicture(p) && ValidTarget(t, Max(p.h, t.h), |before|) && p.h > t.h && x < t.w && y < p.h
    ensures Max(p.h, t.h) == p.h && RowStart(t, y) + x < |before|
    ensures Painted(style, p, t, p.h, false, before, p.h)[RowStart(t, y) + x] ==
            if y % 2 == 0 then RowPixel(style, Line(p, y), t.w, x) else before[RowStart(t, y) + x]
  {
    hide Painted, Times, RowStart, RowPixel;
    DivModUnique(y * p.h, p.h, y, 0);
    PaintedPixel(style, p, t, p.h, false, before, p.h, y, x);
  }
}
