/** Effect 2 (applyIntenseVhsGlitch), its first two phases: a horizontal red/blue channel
    shift, then a few full-width bands cut out and pasted back shifted sideways. */
module VhsGlitch {
  import opened Raster
  import opened P5Random

  /** p5's constrain(n, low, high), that is max(min(n, high), low). */
  function Constrain(n: int, low: int, high: int): (v: int)
    ensures low <= high ==> low <= v <= high
    ensures low <= n <= high ==> v == n
    ensures low <= high && n < low ==> v == low
    ensures low <= high && high < n ==> v == high
  {
    var m := if n < high then n else high;
    if m > low then m else low
  }

  /** Column the red sample of column x is read from. */
  function RedColumn(w: nat, x: int, offset: int): (rx: int)
  {
    Constrain(x - offset, 0, w - 1)
  }

  /** Column the blue sample of column x is read from. */
  function BlueColumn(w: nat, x: int, offset: int): (bx: int)
  {
    Constrain(x + offset, 0, w - 1)
  }

  /** The channel-shift phase: red from `offset` columns to the left, blue from `offset`
      columns to the right (both held at the image's edge), green in place, alpha 255. */
  function ChannelShift(w: nat, h: nat, s: seq<byte>, offset: int): (r: seq<byte>)
    ensures |r| == w * h * 4
  {
    seq(w * h * 4, (k: nat) =>
      var x, y, c := Col(w, k), Row(w, k), k % 4;
      if c == 0 then At(s, w, h, RedColumn(w, x, offset), y, 0)
      else if c == 1 then At(s, w, h, x, y, 1)
      else if c == 2 then At(s, w, h, BlueColumn(w, x, offset), y, 2)
      else 255)
  }

  /** Pixel (x, y) after the channel shift: every read lies inside the row, red and blue come
      from the clamped columns, green is the pixel's own, and alpha is 255. */
  lemma ChannelShiftAt(w: nat, h: nat, s: seq<byte>, offset: int, x: nat, y: nat)
    requires |s| == w * h * 4 && x < w && y < h
    ensures 0 <= RedColumn(w, x, offset) < w && 0 <= BlueColumn(w, x, offset) < w
    ensures Offset(w, RedColumn(w, x, offset), y, 0) < |s| && Offset(w, BlueColumn(w, x, offset), y, 2) < |s|
    ensures PixelAt(ChannelShift(w, h, s, offset), w, h, x, y) ==
            [At(s, w, h, RedColumn(w, x, offset), y, 0), At(s, w, h, x, y, 1),
             At(s, w, h, BlueColumn(w, x, offset), y, 2), 255]
  {
    Locate(w, h, x, y, 0);
    Locate(w, h, x, y, 1);
    Locate(w, h, x, y, 2);
    Locate(w, h, x, y, 3);
    Locate(w, h, RedColumn(w, x, offset), y, 0);
    Locate(w, h, BlueColumn(w, x, offset), y, 2);
  }

  /** ChannelShiftAt in terms of the flat offsets that the source's loop computes: i for pixel
      (x, y), ri and bi for the pixels its red and blue samples come from. */
  lemma ChannelShiftOffsets(w: nat, h: nat, s: seq<byte>, offset: int, x: nat, y: nat, i: nat, ri: int, bi: int, d: seq<byte>)
    requires |s| == w * h * 4 && x < w && y < h && i == Offset(w, x, y, 0)
    requires ri == (y * w + RedColumn(w, x, offset)) * 4 && bi == (y * w + BlueColumn(w, x, offset)) * 4
    requires d == ChannelShift(w, h, s, offset)
    ensures i + 4 <= |s| == |d| && 0 <= ri < |s| && 0 <= bi && bi + 2 < |s|
    ensures d[i] == s[ri] && d[i + 1] == s[i + 1] && d[i + 2] == s[bi + 2] && d[i + 3] == 255
  {
    ChannelShiftAt(w, h, s, offset, x, y);
    var rx, bx := RedColumn(w, x, offset), BlueColumn(w, x, offset);
    assert ri == Offset(w, rx, y, 0) && bi + 2 == Offset(w, bx, y, 2);
    assert At(s, w, h, rx, y, 0) == s[ri] && At(s, w, h, bx, y, 2) == s[bi + 2];
    Locate(w, h, x, y, 0);
    Locate(w, h, x, y, 1);
    Locate(w, h, x, y, 2);
    Locate(w, h, x, y, 3);
    assert PixelAt(d, w, h, x, y) == [d[i], d[i + 1], d[i + 2], d[i + 3]];
  }

  /** The channel shift keeps the green channel of every pixel and makes every pixel opaque. */
  lemma ChannelShiftKeepsGreen(w: nat, h: nat, s: seq<byte>, offset: int)
    requires |s| == w * h * 4
    ensures forall x, y :: 0 <= x < w && 0 <= y < h ==>
              At(ChannelShift(w, h, s, offset), w, h, x, y, 1) == At(s, w, h, x, y, 1)
    ensures Opaque(ChannelShift(w, h, s, offset), w, h)
  {
    forall x, y | 0 <= x < w && 0 <= y < h
      ensures At(ChannelShift(w, h, s, offset), w, h, x, y, 1) == At(s, w, h, x, y, 1)
      ensures At(ChannelShift(w, h, s, offset), w, h, x, y, 3) == 255
    {
      ChannelShiftAt(w, h, s, offset, x, y);
    }
  }

  /** The rows [top, top + height) shifted right by `shift` columns. */
  datatype Band = Band(top: int, height: nat, shift: int)

  /** One band step: inside the band, column x takes the band's column x - shift when that
      column exists; everything else keeps its value. */
  function BandShift(w: nat, h: nat, s: seq<byte>, b: Band): (r: seq<byte>)
    ensures |r| == w * h * 4
  {
    seq(w * h * 4, (k: nat) =>
      var x, y, c := Col(w, k), Row(w, k), k % 4;
      if b.top <= y < b.top + b.height && 0 <= x - b.shift < w then At(s, w, h, x - b.shift, y, c)
      else At(s, w, h, x, y, c))
  }

  /** A band step changes only the rows of its band, and inside the band the pasted strip is
      clipped at the image's left and right edges. */
  lemma BandShiftAt(w: nat, h: nat, s: seq<byte>, b: Band, x: nat, y: nat, c: nat)
    requires x < w && y < h && c < 4
    ensures !(b.top <= y < b.top + b.height) ==> At(BandShift(w, h, s, b), w, h, x, y, c) == At(s, w, h, x, y, c)
    ensures b.top <= y < b.top + b.height && 0 <= x - b.shift < w ==>
              At(BandShift(w, h, s, b), w, h, x, y, c) == At(s, w, h, x - b.shift, y, c)
    ensures b.top <= y < b.top + b.height && !(0 <= x - b.shift < w) ==>
              At(BandShift(w, h, s, b), w, h, x, y, c) == At(s, w, h, x, y, c)
  {
    Locate(w, h, x, y, c);
  }

  /** A band step keeps an opaque image opaque. */
  lemma BandShiftOpaque(w: nat, h: nat, s: seq<byte>, b: Band)
    requires |s| == w * h * 4 && Opaque(s, w, h)
    ensures Opaque(BandShift(w, h, s, b), w, h)
  {
    forall x, y | 0 <= x < w && 0 <= y < h
      ensures At(BandShift(w, h, s, b), w, h, x, y, 3) == 255
    {
      BandShiftAt(w, h, s, b, x, y, 3);
    }
  }

  /** The source's band step, `get` of the full-width strip then `copy` of it back at
      (shift, top), is the band shift whenever the image is opaque. */
  lemma CropPasteIsBandShift(w: nat, h: nat, s: seq<byte>, b: Band)
    requires |s| == w * h * 4 && Opaque(s, w, h)
    ensures Composite(s, w, h, Region(s, w, h, 0, b.top, w, b.height), w, b.height, b.shift, b.top) == BandShift(w, h, s, b)
  {
    var strip := Region(s, w, h, 0, b.top, w, b.height);
    var pasted := Composite(s, w, h, strip, w, b.height, b.shift, b.top);
    var shifted := BandShift(w, h, s, b);
    forall x, y, c | 0 <= x < w && 0 <= y < h && 0 <= c < 4
      ensures At(pasted, w, h, x, y, c) == At(shifted, w, h, x, y, c)
    {
      CompositeAt(s, w, h, strip, w, b.height, b.shift, b.top, x, y, c);
      BandShiftAt(w, h, s, b, x, y, c);
      if 0 <= x - b.shift < w && 0 <= y - b.top < b.height {
        RegionAt(s, w, h, 0, b.top, w, b.height, x - b.shift, y - b.top, 3);
        RegionAt(s, w, h, 0, b.top, w, b.height, x - b.shift, y - b.top, c);
      }
    }
    SameSamples(pasted, shifted, w, h);
  }

  /** The bands applied one after another, each to the result of the ones before. */
  function ApplyBands(w: nat, h: nat, s: seq<byte>, bands: seq<Band>): (r: seq<byte>)
    requires |s| == w * h * 4
    ensures |r| == w * h * 4
    decreases |bands|
  {
    if |bands| == 0 then s
    else BandShift(w, h, ApplyBands(w, h, s, bands[..|bands| - 1]), bands[|bands| - 1])
  }

  /** The band phase keeps an opaque image opaque. */
  lemma {:induction false} ApplyBandsOpaque(w: nat, h: nat, s: seq<byte>, bands: seq<Band>)
    requires |s| == w * h * 4 && Opaque(s, w, h)
    ensures Opaque(ApplyBands(w, h, s, bands), w, h)
    decreases |bands|
  {
    if |bands| > 0 {
      ApplyBandsOpaque(w, h, s, bands[..|bands| - 1]);
      BandShiftOpaque(w, h, ApplyBands(w, h, s, bands[..|bands| - 1]), bands[|bands| - 1]);
    }
  }

  /** A row that no band covers comes through the band phase unchanged. */
  lemma {:induction false} ApplyBandsOutside(w: nat, h: nat, s: seq<byte>, bands: seq<Band>, x: nat, y: nat, c: nat)
    requires |s| == w * h * 4 && x < w && y < h && c < 4
    requires forall i :: 0 <= i < |bands| ==> !(bands[i].top <= y < bands[i].top + bands[i].height)
    ensures At(ApplyBands(w, h, s, bands), w, h, x, y, c) == At(s, w, h, x, y, c)
    decreases |bands|
  {
    if |bands| > 0 {
      var n := |bands| - 1;
      ApplyBandsOutside(w, h, s, bands[..n], x, y, c);
      BandShiftAt(w, h, ApplyBands(w, h, s, bands[..n]), bands[n], x, y, c);
    }
  }

  /** The draws of the two modelled phases, in the order the source makes them: the offset,
      the number of bands, then top, height and shift of each band. */
  function GlitchOffset(rs: seq<Rand>): (offset: int)
    requires |rs| >= 1
    ensures 5 <= offset <= 14
  {
    FloorRandomBetween(5, 15, rs[0])
  }

  function NumBands(rs: seq<Rand>): (n: int)
    requires |rs| >= 2
    ensures 3 <= n <= 7
  {
    FloorRandomBetween(3, 8, rs[1])
  }

  /** Enough draws for the offset, the band count and every band. */
  predicate EnoughGlitchDraws(rs: seq<Rand>)
  {
    |rs| >= 2 && |rs| >= 2 + 3 * NumBands(rs)
  }

  /** Band i, from draws 2 + 3i .. 4 + 3i. The source's top and shift are fractional; they are
      taken here as their integer floors. */
  function BandDraw(h: nat, rs: seq<Rand>, i: nat): (b: Band)
    requires 5 + 3 * i <= |rs|
    ensures 0 < h ==> 0 <= b.top < h
    ensures 5 <= b.height <= 49
    ensures -50 <= b.shift < 50
  {
    Band(FloorRandom(h, rs[2 + 3 * i]), FloorRandomBetween(5, 50, rs[3 + 3 * i]), FloorRandomBetween(-50, 50, rs[4 + 3 * i]))
  }

  /** The bands the loop draws, in order: between three and seven of them, each with a top row
      inside the image, a height in [5, 49] and a shift in [-50, 50). */
  function Bands(h: nat, rs: seq<Rand>): (bands: seq<Band>)
    requires EnoughGlitchDraws(rs)
    ensures |bands| == NumBands(rs) && 3 <= |bands| <= 7
    ensures forall i :: 0 <= i < |bands| ==> bands[i] == BandDraw(h, rs, i)
    ensures forall i :: 0 <= i < |bands| ==>
              5 <= bands[i].height <= 49 && -50 <= bands[i].shift < 50 && (h > 0 ==> 0 <= bands[i].top < h)
  {
    seq(NumBands(rs), (i: nat) requires i < NumBands(rs) => BandDraw(h, rs, i))
  }

  /** What the two modelled phases produce from the image s. */
  function Glitch(w: nat, h: nat, s: seq<byte>, rs: seq<Rand>): (r: seq<byte>)
    requires |s| == w * h * 4 && EnoughGlitchDraws(rs)
    ensures |r| == w * h * 4
  {
    ApplyBands(w, h, ChannelShift(w, h, s, GlitchOffset(rs)), Bands(h, rs))
  }

  /** The glitched image is opaque everywhere. */
  lemma GlitchOpaque(w: nat, h: nat, s: seq<byte>, rs: seq<Rand>)
    requires |s| == w * h * 4 && EnoughGlitchDraws(rs)
    ensures Opaque(Glitch(w, h, s, rs), w, h)
  {
    ChannelShiftKeepsGreen(w, h, s, GlitchOffset(rs));
    ApplyBandsOpaque(w, h, ChannelShift(w, h, s, GlitchOffset(rs)), Bands(h, rs));
  }

  /** The channel-shift loop of applyIntenseVhsGlitch, writing a new image pixel by pixel. */
  method ChannelShiftPhase(img: Image, offset: int) returns (result: Image)
    requires img.Valid()
    ensures fresh(result) && fresh(result.pixels) && result.Valid()
    ensures result.width == img.width && result.height == img.height
    ensures result.pixels[..] == ChannelShift(img.width, img.height, img.pixels[..], offset)
  {
    var w, h := img.width, img.height;
    result := new Image.FromPixels(w, h, Transparent(w, h));
    ghost var d := ChannelShift(w, h, img.pixels[..], offset);
    var y := 0;
    while y < h
      invariant 0 <= y <= h
      invariant Offset(w, 0, y, 0) <= w * h * 4
      invariant Agree(result.pixels[..], d, Offset(w, 0, y, 0))
    {
      RowEnd(w, h, y);
      var x := 0;
      while x < w
        invariant 0 <= x <= w
        invariant Offset(w, x, y, 0) <= w * h * 4
        invariant Agree(result.pixels[..], d, Offset(w, x, y, 0))
      {
        var i := (y * w + x) * 4;
        var rx := RedColumn(w, x, offset);  // constrain(x - offset, 0, w - 1)
        var ri := (y * w + rx) * 4;
        var bx := BlueColumn(w, x, offset);  // constrain(x + offset, 0, w - 1)
        var bi := (y * w + bx) * 4;
        ChannelShiftOffsets(w, h, img.pixels[..], offset, x, y, i, ri, bi, d);
        var r := img.pixels[ri];
        var g := img.pixels[i + 1];
        var b := img.pixels[bi + 2];
        ghost var before := result.pixels[..];
        AgreeStep(before, d, i, r, g, b, 255);
        result.pixels[i] := r;
        result.pixels[i + 1] := g;
        result.pixels[i + 2] := b;
        result.pixels[i + 3] := 255;
        assert result.pixels[..] == before[i := r][i + 1 := g][i + 2 := b][i + 3 := 255];
        assert Offset(w, x + 1, y, 0) == i + 4;
        x := x + 1;
      }
      y := y + 1;
    }
    BufferEnd(w, h);
    AgreeAll(result.pixels[..], d);
  }

  /** applyIntenseVhsGlitch(img) up to the scanline overlay: the channel shift, then each band
      cropped with `get` and pasted back with `copy`. */
  method ApplyIntenseVhsGlitch(img: Image, rs: seq<Rand>) returns (result: Image)
    requires img.Valid() && EnoughGlitchDraws(rs)
    ensures fresh(result) && fresh(result.pixels) && result.Valid()
    ensures result.width == img.width && result.height == img.height
    ensures result.pixels[..] == Glitch(img.width, img.height, img.pixels[..], rs)
  {
    var offset := FloorRandomBetween(5, 15, rs[0]);
    result := ChannelShiftPhase(img, offset);
    var w, h := result.width, result.height;
    ghost var shifted := result.pixels[..];
    ChannelShiftKeepsGreen(w, h, img.pixels[..], offset);
    ghost var bands := Bands(h, rs);
    var numBands := FloorRandomBetween(3, 8, rs[1]);
    var i := 0;
    while i < numBands
      invariant 0 <= i <= numBands
      invariant fresh(result) && fresh(result.pixels) && result.Valid()
      invariant result.width == w && result.height == h
      invariant result.pixels[..] == ApplyBands(w, h, shifted, bands[..i])
    {
      var bandY := FloorRandom(result.height, rs[2 + 3 * i]);
      var bandHeight := FloorRandomBetween(5, 50, rs[3 + 3 * i]);
      var shiftAmount := FloorRandomBetween(-50, 50, rs[4 + 3 * i]);
      assert bands[i] == Band(bandY, bandHeight, shiftAmount);
      ApplyBandsOpaque(w, h, shifted, bands[..i]);
      CropPasteIsBandShift(w, h, result.pixels[..], bands[i]);
      var slice := result.Get(0, bandY, result.width, bandHeight);
      result.DrawImage(slice, shiftAmount, bandY);
      assert bands[..i + 1][..i] == bands[..i];
      i := i + 1;
    }
    assert bands[..numBands] == bands;
  }
}
