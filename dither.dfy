/** Effect 1 (applyDithering): 1-bit ordered dithering with a 4x4 Bayer matrix. */
module Dithering {
  import opened Raster

  /** The 4x4 Bayer threshold matrix, indexed [y % 4][x % 4]. */
  const BayerMatrix: seq<seq<nat>> := [[0, 8, 2, 10], [12, 4, 14, 6], [3, 11, 1, 9], [13, 5, 15, 7]]

  /** The threshold of pixel (x, y): its matrix entry scaled from 0..15 to 0..255. */
  function Threshold(x: nat, y: nat): (t: nat)
    ensures t <= 255 && t % 17 == 0
  {
    BayerMatrix[y % 4][x % 4] * 17
  }

  /** Red + green + blue of pixel (x, y): three times its brightness. */
  function ChannelSum(s: seq<byte>, w: nat, h: nat, x: int, y: int): (sum: int)
  {
    At(s, w, h, x, y, 0) as int + At(s, w, h, x, y, 1) as int + At(s, w, h, x, y, 2) as int
  }

  /** The source's `brightness > threshold` with brightness = (r + g + b) / 3, compared
      without the division. */
  lemma BrightnessComparison(sum: int, t: int)
    ensures (sum as real) / 3.0 > t as real <==> sum > 3 * t
  {
  }

  /** The new colour of pixel (x, y): white when it is brighter than its threshold. */
  function Level(s: seq<byte>, w: nat, h: nat, x: nat, y: nat): (l: byte)
  {
    if ChannelSum(s, w, h, x, y) > 3 * Threshold(x, y) then 255 else 0
  }

  /** The dithered buffer: every pixel (level, level, level, 255). */
  function Dither(w: nat, h: nat, s: seq<byte>): (r: seq<byte>)
    ensures |r| == w * h * 4
  {
    seq(w * h * 4, (k: nat) => if k % 4 == 3 then 255 else Level(s, w, h, Col(w, k), Row(w, k)))
  }

  const White: seq<byte> := [255, 255, 255, 255]

  /** Pixel (x, y) of the output is opaque grey at the level of the same input pixel. */
  lemma DitherAt(w: nat, h: nat, s: seq<byte>, x: nat, y: nat)
    requires x < w && y < h
    ensures var l := Level(s, w, h, x, y);
            PixelAt(Dither(w, h, s), w, h, x, y) == [l, l, l, 255]
  {
    Locate(w, h, x, y, 0);
    Locate(w, h, x, y, 1);
    Locate(w, h, x, y, 2);
    Locate(w, h, x, y, 3);
  }

  /** The output is binary: every pixel is opaque black or opaque white. */
  lemma DitherIsBinary(w: nat, h: nat, s: seq<byte>, x: nat, y: nat)
    requires x < w && y < h
    ensures PixelAt(Dither(w, h, s), w, h, x, y) in {Black, White}
  {
    DitherAt(w, h, s, x, y);
  }

  /** The dither rule: pixel (x, y) turns white exactly when r + g + b exceeds three times
      its threshold, that is, when its brightness exceeds the threshold. */
  lemma DitherRule(w: nat, h: nat, s: seq<byte>, x: nat, y: nat)
    requires x < w && y < h
    ensures PixelAt(Dither(w, h, s), w, h, x, y) == White <==> ChannelSum(s, w, h, x, y) > 3 * Threshold(x, y)
    ensures PixelAt(Dither(w, h, s), w, h, x, y) == Black <==> ChannelSum(s, w, h, x, y) <= 3 * Threshold(x, y)
  {
    DitherAt(w, h, s, x, y);
  }

  /** An image whose colour channels are all 0 dithers to all black. */
  lemma DitherOfBlack(w: nat, h: nat, s: seq<byte>)
    requires |s| == w * h * 4
    requires forall x, y, c :: 0 <= x < w && 0 <= y < h && 0 <= c < 3 ==> At(s, w, h, x, y, c) == 0
    ensures forall x, y :: 0 <= x < w && 0 <= y < h ==> PixelAt(Dither(w, h, s), w, h, x, y) == Black
  {
    forall x, y | 0 <= x < w && 0 <= y < h
      ensures PixelAt(Dither(w, h, s), w, h, x, y) == Black
    {
      DitherAt(w, h, s, x, y);
      assert At(s, w, h, x, y, 0) == 0 && At(s, w, h, x, y, 1) == 0 && At(s, w, h, x, y, 2) == 0;
    }
  }

  /** The output of dithering is opaque everywhere. */
  lemma DitherOpaque(w: nat, h: nat, s: seq<byte>)
    ensures Opaque(Dither(w, h, s), w, h)
  {
    forall x, y | 0 <= x < w && 0 <= y < h
      ensures At(Dither(w, h, s), w, h, x, y, 3) == 255
    {
      Locate(w, h, x, y, 3);
    }
  }

  /** A 4x4 image of mid grey (128, 128, 128, 255). */
  function MidGray(): (s: seq<byte>)
    ensures |s| == 4 * 4 * 4
  {
    seq(4 * 4 * 4, (k: nat) => if k % 4 == 3 then 255 else 128)
  }

  lemma MidGraySum(x: nat, y: nat)
    requires x < 4 && y < 4
    ensures ChannelSum(MidGray(), 4, 4, x, y) == 384
  {
    Locate(4, 4, x, y, 0);
    Locate(4, 4, x, y, 1);
    Locate(4, 4, x, y, 2);
  }

  /** The matrix entries up to 7 are the ones at the positions where x + y is even. */
  lemma BayerParity(x: nat, y: nat)
    requires x < 4 && y < 4
    ensures BayerMatrix[y][x] <= 7 <==> (x + y) % 2 == 0
  {
    var row := BayerMatrix[y];
    if y == 0 {
      assert row == [0, 8, 2, 10];
    } else if y == 1 {
      assert row == [12, 4, 14, 6];
    } else if y == 2 {
      assert row == [3, 11, 1, 9];
    } else {
      assert row == [13, 5, 15, 7];
    }
    assert x == 0 || x == 1 || x == 2 || x == 3;
  }

  /** Dithering 4x4 mid grey gives a checkerboard: 3 * 128 exceeds 3 * 17 * m exactly for the
      matrix entries m <= 7, and those sit where x + y is even. */
  lemma MidGrayCheckerboard(x: nat, y: nat)
    requires x < 4 && y < 4
    ensures PixelAt(Dither(4, 4, MidGray()), 4, 4, x, y) == if (x + y) % 2 == 0 then White else Black
  {
    MidGraySum(x, y);
    assert Level(MidGray(), 4, 4, x, y) == if BayerMatrix[y][x] <= 7 then 255 else 0;
    BayerParity(x, y);
    DitherAt(4, 4, MidGray(), x, y);
  }

  /** DitherAt in terms of the flat offset i of pixel (x, y), as the source's loop computes it. */
  lemma DitherOffsets(w: nat, h: nat, s: seq<byte>, x: nat, y: nat, i: nat, d: seq<byte>)
    requires |s| == w * h * 4 && x < w && y < h && i == Offset(w, x, y, 0)
    requires d == Dither(w, h, s)
    ensures i + 4 <= |s| == |d|
    ensures var l: byte := if s[i] as int + s[i + 1] as int + s[i + 2] as int > 3 * Threshold(x, y) then 255 else 0;
            d[i] == l && d[i + 1] == l && d[i + 2] == l
    ensures d[i + 3] == 255
  {
    DitherAt(w, h, s, x, y);
    Locate(w, h, x, y, 0);
    Locate(w, h, x, y, 1);
    Locate(w, h, x, y, 2);
    Locate(w, h, x, y, 3);
  }

  /** applyDithering(img): a new image of the same size holding the dithered pixels. */
  method ApplyDithering(img: Image) returns (result: Image)
    requires img.Valid()
    ensures fresh(result) && fresh(result.pixels) && result.Valid()
    ensures result.width == img.width && result.height == img.height
    ensures result.pixels[..] == Dither(img.width, img.height, img.pixels[..])
  {
    var w, h := img.width, img.height;
    result := new Image.FromPixels(w, h, Transparent(w, h));
    ghost var d := Dither(w, h, img.pixels[..]);
    var y := 0;
    while y < h
      invariant 0 <= y <= h
      invariant Offset(w, 0, y, 0) <= w * h * 4
      invariant Agree(result.pixels[..], d, Offset(w, 0, y, 0))
    {
      RowEnd(w, h, y);
      var x := 0;
      while x < w
        invariant 0 <= x <= w
        invariant Offset(w, x, y, 0) <= w * h * 4
        invariant Agree(result.pixels[..], d, Offset(w, x, y, 0))
      {
        var index := (y * w + x) * 4;
        DitherOffsets(w, h, img.pixels[..], x, y, index, d);
        // three times the source's brightness, compared with three times the threshold
        var brightness := img.pixels[index] as int + img.pixels[index + 1] as int + img.pixels[index + 2] as int;
        var threshold := Threshold(x, y);  // bayerMatrix[y % 4][x % 4] * 17
        var newColor: byte := if brightness > 3 * threshold then 255 else 0;
        ghost var before := result.pixels[..];
        AgreeStep(before, d, index, newColor, newColor, newColor, 255);
        result.pixels[index] := newColor;
        result.pixels[index + 1] := newColor;
        result.pixels[index + 2] := newColor;
        result.pixels[index + 3] := 255;
        assert result.pixels[..] == before[index := newColor][index + 1 := newColor][index + 2 := newColor][index + 3 := 255];
        assert Offset(w, x + 1, y, 0) == index + 4;
        x := x + 1;
      }
      y := y + 1;
    }
    BufferEnd(w, h);
    AgreeAll(result.pixels[..], d);
  }
}
