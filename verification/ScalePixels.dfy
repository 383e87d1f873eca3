/**
 The pictures of picoarch/source/scale.c in plain arithmetic on the caller's own numbers: which pixel of the
 source a pixel of the screen is, and which edges the text scalers smear.
 */
module ScalePixels {
  import opened Scale

  // ----- the plain scaler

  lemma PixelInside(t: Target, length: nat, x: nat, y: nat)
    requires ValidTarget(t, t.h, length) && x < t.w && y < t.h
    ensures RowStart(t, y) + x == t.offs + y * t.pitch + x < length
  {
    RowInside(t, t.h, length, y);
  }

  lemma SampleInside(p: Picture, t: Target, x: nat, y: nat)
    requires ValidPicture(p) && x < t.w && y < t.h
    ensures x * p.w / t.w < p.w && y * p.h / t.h < p.h
    ensures (y * p.h / t.h) * p.pitch + x * p.w / t.w < |p.data|
  {
    SampleInRange(x, p.w, t.w);
    SampleInRange(y, p.h, t.h);
    LineInside(p, Sample(y, p.h, t.h));
  }

  /** The sampling formula for one pixel. */
  ghost predicate IsNearest(p: Picture, t: Target, after: seq<pixel>, x: nat, y: nat)
    requires x < t.w && y < t.h
  {
    var i: int, j: int := t.offs + y * t.pitch + x, (y * p.h / t.h) * p.pitch + x * p.w / t.w;
    0 <= i < |after| && 0 <= j < |p.data| && after[i] == p.data[j]
  }

  lemma PlainPixel(p: Picture, t: Target, before: seq<pixel>, x: nat, y: nat)
    requires ValidPicture(p) && ValidTarget(t, t.h, |before|) && x < t.w && y < t.h
    ensures IsNearest(p, t, Painted(Plain, p, t, t.h, true, before, t.h), x, y)
  {
    hide Painted, ValidPicture, ValidTarget;
    PixelInside(t, |before|, x, y);
    SampleInside(p, t, x, y);
    PixelSampled(p, t, before, x, y);
  }

  lemma LinePixel(p: Picture, x: nat, y: nat)
    requires ValidPicture(p) && x < p.w && y < p.h
    ensures 0 <= y * p.pitch + x < |p.data| && Line(p, y)[x] == p.data[y * p.pitch + x]
  {
    LineInside(p, y);
  }

  // ----- brightness

  /** Red, green and blue of a 16-bit pixel. */
  predicate Channels(p: pixel, r: nat, g: nat, b: nat) {
    r < 32 && g < 64 && b < 32 && p == r * 2048 + g * 32 + b
  }

  lemma ChannelsFound(p: pixel, r: nat, g: nat, b: nat)
    requires Channels(p, r, g, b)
    ensures Mask3E(p / 0x400) == 2 * r < 64 && p / 0x20 % 64 == g && Mask3E(p * 2) == 2 * b < 64
  {
    assert p / 0x400 / 2 == r;
    assert p / 0x20 == r * 64 + g;
    assert p * 2 / 2 == p && p % 32 == b;
  }

  /** Brightness is the weighted sum of the channels, in 1024ths and rounded; it never leaves sixteen bits. */
  lemma LumaIsWeighted(p: pixel, r: nat, g: nat, b: nat)
    requires Channels(p, r, g, b)
    ensures Luma(p) == (218 * (2 * r) + 732 * g + 74 * (2 * b) + 512) / 1024
  {
    hide Luma, Mask3E, Channels;
    ChannelsFound(p, r, g, b);
    LumaRounds(p, 2 * r, g, 2 * b);
  }

  lemma LumaRounds(p: pixel, r: nat, g: nat, b: nat)
    requires Mask3E(p / 0x400) == r < 64 && p / 0x20 % 64 == g && Mask3E(p * 2) == b < 64
    ensures Luma(p) == (218 * r + 732 * g + 74 * b + 512) / 1024
  {
    hide Luma, Mask3E;
    LumaOf(p, r, g, b);
    Rounded(218 * r + 732 * g + 74 * b);
  }

  lemma LumaOf(p: pixel, r: nat, g: nat, b: nat)
    requires Mask3E(p / 0x400) == r < 64 && p / 0x20 % 64 == g && Mask3E(p * 2) == b < 64
    ensures var sum := 218 * r + 732 * g + 74 * b; Luma(p) == sum / 0x400 + sum / 0x200 % 2
  {
    hide Mask3E;
    var sum := 218 * r + 732 * g + 74 * b;
    assert sum % 0x1_0000 == sum;
  }

  lemma Rounded(sum: nat)
    ensures sum / 0x400 + sum / 0x200 % 2 == (sum + 512) / 1024
  {
    var h := sum / 0x200;
    assert sum / 0x400 == h / 2;
    assert (sum + 512) / 1024 == (h + 1) / 2;
  }

  /** A weighted brightness above 24. */
  predicate Bright(r: nat, g: nat, b: nat) {
    218 * (2 * r) + 732 * g + 74 * (2 * b) + 512 >= 25 * 1024
  }

  lemma SmearsExactly(l1: pixel, l2: pixel, r: nat, g: nat, b: nat)
    requires Channels(l1, r, g, b)
    ensures Smears(l1, l2) <==> l1 != l2 && Bright(r, g, b)
  {
    hide Luma;
    LumaIsWeighted(l1, r, g, b);
  }

  // ----- the text scaler

  /** The sample of position `x`, black in front of the row. */
  function Drawn(line: seq<pixel>, size: nat, x: int): pixel
    requires |line| > 0 && x < size
  {
    if x < 0 then 0
    else
      SampleInRange(x, |line|, size);
      line[x * |line| / size]
  }

  /**
   Pixel `x` is the sample on its left exactly when it starts the run of a sample, the samples of the last two
   positions differ, and the last of them is bright.
   */
  lemma TextPixelExactly(line: seq<pixel>, size: nat, x: nat, r: nat, g: nat, b: nat)
    requires |line| > 0 && x < size && Channels(Drawn(line, size, x - 1), r, g, b)
    ensures RowPixel(Text, line, size, x) ==
            if x > 0 && x * |line| / size != (x - 1) * |line| / size &&
               Drawn(line, size, x - 1) != Drawn(line, size, x - 2) && Bright(r, g, b)
            then Drawn(line, size, x - 1)
            else Drawn(line, size, x)
  {
    hide Smears;
    if x > 0 {
      SmearsExactly(Drawn(line, size, x - 1), Drawn(line, size, x - 2), r, g, b);
    }
  }

  lemma Stroke(line: seq<pixel>, size: nat)
    requires |line| == 3 && size == 4
    ensures Drawn(line, size, 1) == line[0] && Drawn(line, size, 2) == line[1] && Drawn(line, size, 3) == line[2]
    ensures 3 * |line| / size == 2 && 2 * |line| / size == 1
    ensures RowPixel(Plain, line, size, 3) == line[2]
  {
  }

  lemma BlackAndWhite()
    ensures Channels(0xFFFF, 31, 63, 31) && Bright(31, 63, 31)
    ensures Channels(0, 0, 0, 0) && !Bright(0, 0, 0)
  {
  }

  /** A white stroke of one sample between black ones is drawn twice, a black one between white ones is not. */
  lemma WhiteIsSmearedBlackIsNot(white: seq<pixel>, black: seq<pixel>, size: nat)
    requires white == [0x0000, 0xFFFF, 0x0000] && black == [0xFFFF, 0x0000, 0xFFFF] && size == 4
    ensures RowPixel(Text, white, size, 3) == 0xFFFF && RowPixel(Plain, white, size, 3) == 0x0000
    ensures RowPixel(Text, black, size, 3) == RowPixel(Plain, black, size, 3) == 0xFFFF
  {
    hide RowPixel, Drawn, Channels, Bright;
    BlackAndWhite();
    Stroke(white, size);
    TextPixelExactly(white, size, 3, 31, 63, 31);
    Stroke(black, size);
    TextPixelExactly(black, size, 3, 0, 0, 0);
  }

  /** Where the threshold lies for grey, and for green or red and blue alone. */
  lemma Threshold()
    ensures !Bright(12, 24, 12) && Bright(12, 25, 12)
    ensures !Bright(0, 34, 0) && Bright(0, 35, 0) && !Bright(31, 0, 31)
  {
  }
}
