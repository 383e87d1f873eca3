/**
 The scanline scalers of picoarch/source/scale.c on a picture taller than the target: what they draw
 below the target, and when the rows inside it are still those of the full scaler.
 */
module ScaleScanline {
  import opened Arith
  import opened Scale

  /** The screen after a scanline scaler. */
  ghost function Scanlines(style: Style, p: Picture, t: Target, before: seq<pixel>): (r: seq<pixel>)
    requires ValidPicture(p) && ValidTarget(t, Max(p.h, t.h), |before|)
    ensures |r| == |before|
  {
    Painted(style, p, t, Max(p.h, t.h), false, before, Max(p.h, t.h))
  }

  // ----- below the target

  /** Nothing outside the target's own rows changes, whatever is on the screen. */
  ghost predicate StaysInside(style: Style, p: Picture, t: Target, length: nat)
    requires ValidPicture(p) && ValidTarget(t, Max(p.h, t.h), length)
  {
    forall before: seq<pixel>, i :: |before| == length && 0 <= i < length && Outside(t, t.h, i) ==>
      Scanlines(style, p, t, before)[i] == before[i]
  }

  /** A pixel that is in none of the even rows. */
  lemma {:induction false} OddRowsStay(style: Style, p: Picture, t: Target, rows: nat, before: seq<pixel>,
                                       n: nat, i: nat)
    requires ValidPicture(p) && ValidTarget(t, rows, |before|) && n <= rows && i < |before|
    requires forall y :: 0 <= y < n && y % 2 == 0 ==> i < RowStart(t, y) || i >= RowStart(t, y) + t.w
    ensures Painted(style, p, t, rows, false, before, n)[i] == before[i]
    decreases n
  {
    hide Sample, Times, Line, Row, RowStart;
    if n > 0 {
      SampleInRange(n - 1, p.h, rows);
      PaintedStep(style, p, t, rows, false, before, n - 1, Sample(n - 1, p.h, rows));
      OddRowsStay(style, p, t, rows, before, n - 1, i);
    }
  }

  /** A screen that shows that the even row `y`, below the target, is drawn. */
  lemma DrawnBelow(style: Style, p: Picture, t: Target, length: nat, y: nat) returns (before: seq<pixel>, i: nat)
    requires ValidPicture(p) && ValidTarget(t, Max(p.h, t.h), length)
    requires t.h <= y < p.h && y % 2 == 0
    ensures |before| == length && i < length && Outside(t, t.h, i)
    ensures Scanlines(style, p, t, before)[i] != before[i]
  {
    hide Painted, Times, RowStart, RowPixel, Line;
    i := RowStart(t, y);
    var v := RowPixel(style, Line(p, y), t.w, 0);
    RowInside(t, p.h, length, y);
    before := seq(length, _ => if v == 0 then 1 else 0);
    ScanlineOfTallPicture(style, p, t, before, 0, y);
    RowOutsideOthers(t, y, 0);
  }

  /**
   A scanline scaler keeps to its target exactly when the picture is not taller, or taller by one line
   that falls on an odd row.
   */
  lemma ScanlineStaysInside(style: Style, p: Picture, t: Target, length: nat)
    requires ValidPicture(p) && ValidTarget(t, Max(p.h, t.h), length)
    ensures StaysInside(style, p, t, length) <==> p.h <= t.h || (p.h == t.h + 1 && t.h % 2 == 1)
  {
    hide Painted, Times, RowStart, Outside;
    if p.h <= t.h || (p.h == t.h + 1 && t.h % 2 == 1) {
      forall before: seq<pixel>, i | |before| == length && 0 <= i < length && Outside(t, t.h, i)
        ensures Scanlines(style, p, t, before)[i] == before[i]
      {
        EvenRowsInside(t, Max(p.h, t.h), i);
        OddRowsStay(style, p, t, Max(p.h, t.h), before, Max(p.h, t.h), i);
      }
    } else {
      var y := if t.h % 2 == 0 then t.h else t.h + 1;
      var before, i := DrawnBelow(style, p, t, length, y);
    }
  }

  lemma EvenRowsInside(t: Target, rows: nat, i: nat)
    requires Outside(t, t.h, i) && (rows <= t.h || (rows == t.h + 1 && t.h % 2 == 1))
    ensures forall y :: 0 <= y < rows && y % 2 == 0 ==> i < RowStart(t, y) || i >= RowStart(t, y) + t.w
  {
  }

  /** Three lines into two rows: the third line lands below the target. */
  lemma DrawsPastItsTarget(style: Style)
    ensures var p, t := Picture([1, 2, 3], 1, 3, 1), Target(1, 2, 0, 1);
            && ValidPicture(p) && ValidTarget(t, Max(p.h, t.h), 3) && t.h == 2
            && Scanlines(style, p, t, [0, 0, 0]) == [1, 0, 3]
  {
    hide Painted;
    var p, t := Picture([1, 2, 3], 1, 3, 1), Target(1, 2, 0, 1);
    var r := Scanlines(style, p, t, [0, 0, 0]);
    forall y: nat | y < 3
      ensures r[y] == if y % 2 == 0 then p.data[y] else 0
    {
      ScanlineOfTallPicture(style, p, t, [0, 0, 0], 0, y);
      FirstPixel(style, Line(p, y), 1);
    }
  }

  // ----- inside the target

  lemma FirstPixel(style: Style, line: seq<pixel>, size: nat)
    requires |line| > 0 && size > 0
    ensures RowPixel(style, line, size, 0) == line[0]
  {
    SampleInRange(0, |line|, size);
  }

  /** The even rows inside the target are those of the full scaler. */
  ghost predicate EvenRowsAgree(style: Style, p: Picture, t: Target, before: seq<pixel>)
    requires ValidPicture(p) && ValidTarget(t, Max(p.h, t.h), |before|) && ValidTarget(t, t.h, |before|)
  {
    forall x: nat, y: nat :: x < t.w && y < t.h && y % 2 == 0 ==>
      PixelAgrees(style, p, t, before, x, y)
  }

  ghost predicate PixelAgrees(style: Style, p: Picture, t: Target, before: seq<pixel>, x: nat, y: nat)
    requires ValidPicture(p) && ValidTarget(t, Max(p.h, t.h), |before|) && ValidTarget(t, t.h, |before|)
  {
    var i := RowStart(t, y) + x;
    i < |before| && Scanlines(style, p, t, before)[i] == Painted(style, p, t, t.h, true, before, t.h)[i]
  }

  lemma TargetFits(t: Target, rows: nat, length: nat)
    requires ValidTarget(t, rows, length) && t.h <= rows
    ensures ValidTarget(t, t.h, length)
  {
    Spread(rows - t.h, t.h - 1, t.pitch);
  }

  /** Row `y` of a picture that is taller: line `y` in one case, line floor(y * h / dst_h) in the other. */
  lemma BothPixels(style: Style, p: Picture, t: Target, before: seq<pixel>, x: nat, y: nat)
    requires ValidPicture(p) && ValidTarget(t, Max(p.h, t.h), |before|) && ValidTarget(t, t.h, |before|)
    requires p.h > t.h && x < t.w && y < t.h && y % 2 == 0
    ensures Sample(y, p.h, t.h) < p.h
    ensures PixelAgrees(style, p, t, before, x, y) <==>
            RowPixel(style, Line(p, y), t.w, x) == RowPixel(style, Line(p, Sample(y, p.h, t.h)), t.w, x)
  {
    hide Painted, Times, Sample, RowStart, RowPixel, Line;
    ScanlineOfTallPicture(style, p, t, before, x, y);
    PaintedPixel(style, p, t, t.h, true, before, t.h, y, x);
  }

  lemma LineOfEvenRow(y: nat, h: nat, rows: nat)
    requires y < rows < h && y % 2 == 0 && (h == rows + 1 || rows <= 2)
    ensures Sample(y, h, rows) == y
  {
    if h == rows + 1 {
      Spread(rows, 1, y);
      DivModUnique(y * h, rows, y, y);
    } else {
      DivModUnique(0 * h, rows, 0, 0);
    }
  }

  lemma Outgrows(y: nat, h: nat, rows: nat)
    requires h >= rows + 2 && 2 * y >= rows
    ensures y * h >= (y + 1) * rows
  {
    Spread(rows, h - rows, y);
    Spread(y, 1, rows);
    Spread(2, h - rows - 2, y);
    Nonnegative(h - rows - 2, y);
  }

  lemma Nonnegative(a: nat, b: nat)
    ensures a * b >= 0
  {
  }

  /** Otherwise the last even row comes from a line further down. */
  lemma LastEvenRowMoves(h: nat, rows: nat) returns (y: nat)
    requires h > rows + 1 && rows > 2
    ensures y < rows && y % 2 == 0 && Sample(y, h, rows) > y
  {
    y := if rows % 2 == 1 then rows - 1 else rows - 2;
    Outgrows(y, h, rows);
    DivBelow(y * h, rows, y + 1);
  }

  /** A picture of which the last even row shows the difference. */
  lemma RowsMove(style: Style, p: Picture, t: Target, before: seq<pixel>) returns (data: seq<pixel>)
    requires ValidPicture(p) && ValidTarget(t, Max(p.h, t.h), |before|) && ValidTarget(t, t.h, |before|)
    requires p.pitch > 0 && p.h > t.h + 1 && t.h > 2
    ensures |data| == |p.data| && !EvenRowsAgree(style, p.(data := data), t, before)
  {
    hide Painted, Times, Sample, RowStart, RowPixel, PixelAgrees;
    var y := LastEvenRowMoves(p.h, t.h);
    LineInside(p, y);
    data := seq(|p.data|, i => if i == Times(y, p.pitch) then 1 else 0);
    var q := p.(data := data);
    BothPixels(style, q, t, before, 0, y);
    var z := Sample(y, p.h, t.h);
    FirstPixel(style, Line(q, y), t.w);
    FirstPixel(style, Line(q, z), t.w);
    TimesOrder(y, z, p.pitch);
    LineInside(q, z);
    assert !PixelAgrees(style, q, t, before, 0, y);
  }

  /** Whatever the picture shows, its even rows inside the target agree. */
  ghost predicate AlwaysAgrees(style: Style, p: Picture, t: Target, before: seq<pixel>)
    requires ValidPicture(p) && ValidTarget(t, Max(p.h, t.h), |before|) && ValidTarget(t, t.h, |before|)
  {
    forall data: seq<pixel> :: |data| == |p.data| ==> EvenRowsAgree(style, p.(data := data), t, before)
  }

  lemma RowsAgree(style: Style, p: Picture, t: Target, before: seq<pixel>)
    requires ValidPicture(p) && ValidTarget(t, Max(p.h, t.h), |before|) && ValidTarget(t, t.h, |before|)
    requires p.h <= t.h + 1 || t.h <= 2
    ensures EvenRowsAgree(style, p, t, before)
  {
    hide Painted, Times, Sample, RowStart, RowPixel;
    forall x: nat, y: nat | x < t.w && y < t.h && y % 2 == 0
      ensures PixelAgrees(style, p, t, before, x, y)
    {
      if p.h <= t.h {
        ScanlineIsEvenRows(style, p, t, before, x, y);
      } else {
        BothPixels(style, p, t, before, x, y);
        LineOfEvenRow(y, p.h, t.h);
      }
    }
  }

  /**
   Inside the target a scanline scaler draws the even rows of the full scaler, whatever the picture
   shows, exactly when the picture is at most one line taller, or the target has at most two rows.
   */
  lemma ScanlineKeepsShape(style: Style, p: Picture, t: Target, before: seq<pixel>)
    requires ValidPicture(p) && ValidTarget(t, Max(p.h, t.h), |before|) && p.pitch > 0
    ensures ValidTarget(t, t.h, |before|)
    ensures AlwaysAgrees(style, p, t, before) <==> p.h <= t.h + 1 || t.h <= 2
  {
    hide EvenRowsAgree;
    TargetFits(t, Max(p.h, t.h), |before|);
    if p.h <= t.h + 1 || t.h <= 2 {
      forall data: seq<pixel> | |data| == |p.data|
        ensures EvenRowsAgree(style, p.(data := data), t, before)
      {
        RowsAgree(style, p.(data := data), t, before);
      }
    } else {
      var data := RowsMove(style, p, t, before);
    }
  }
}
