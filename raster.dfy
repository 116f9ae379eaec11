/** Row-major RGBA pixel buffers, the `pixels` arrays that the sketch reads and writes.
    Channel c (0 red, 1 green, 2 blue, 3 alpha) of pixel (x, y) in an image of width w
    lives at offset (y * w + x) * 4 + c. */
module Raster {
  import opened Arith

  /** One 8-bit channel sample. */
  newtype byte = x: int | 0 <= x < 256

  /** Offset of channel c of pixel (x, y) in a buffer of width w. */
  function Offset(w: nat, x: nat, y: nat, c: nat): (o: nat)
  {
    (y * w + x) * 4 + c
  }

  /** Column of the pixel that holds flat offset i. */
  function Col(w: nat, i: nat): (x: nat)
  {
    if w == 0 then 0 else (i / 4) % w
  }

  /** Row of the pixel that holds flat offset i. */
  function Row(w: nat, i: nat): (y: nat)
  {
    if w == 0 then 0 else (i / 4) / w
  }

  /** Every in-range coordinate has its sample inside the buffer. */
  lemma OffsetBound(w: nat, h: nat, x: nat, y: nat, c: nat)
    requires x < w && y < h && c < 4
    ensures Offset(w, x, y, c) < w * h * 4
  {
    assert y * w + w == (y + 1) * w;
    MulMonotone(y + 1, h, w);
    assert w * h == h * w;
  }

  /** Moving past the last pixel of row y lands on the first pixel of row y + 1, which is at
      most the end of the buffer. */
  lemma RowEnd(w: nat, h: nat, y: nat)
    requires y < h
    ensures Offset(w, w, y, 0) == Offset(w, 0, y + 1, 0) <= w * h * 4
  {
    assert y * w + w == (y + 1) * w;
    MulMonotone(y + 1, h, w);
    assert w * h == h * w;
  }

  /** The first pixel of the row past the last is the end of the buffer. */
  lemma BufferEnd(w: nat, h: nat)
    ensures Offset(w, 0, h, 0) == w * h * 4
  {
    assert h * w == w * h;
  }

  /** The offset of (x, y, c) decomposes back into x, y and c. */
  lemma OffsetDecompose(w: nat, x: nat, y: nat, c: nat)
    requires x < w && c < 4
    ensures Col(w, Offset(w, x, y, c)) == x
    ensures Row(w, Offset(w, x, y, c)) == y
    ensures Offset(w, x, y, c) % 4 == c
  {
    var i := Offset(w, x, y, c);
    DivModUnique(i, 4, y * w + x, c);
    DivModUnique(y * w + x, w, y, x);
  }

  /** Every offset inside a w-by-h buffer belongs to an in-range pixel, and is that pixel's offset. */
  lemma CoordBound(w: nat, h: nat, i: nat)
    requires i < w * h * 4
    ensures w > 0 && Col(w, i) < w && Row(w, i) < h
    ensures i == Offset(w, Col(w, i), Row(w, i), i % 4)
  {
    assert w == 0 ==> w * h * 4 == 0;
    var p := i / 4;
    assert p < w * h;
    var q := p / w;
    assert q * w <= p;
    assert h * w == w * h;
    MulAwayLe(h, q, w);
  }

  /** Sample (x, y, c) of a w-by-h buffer s; 0 for a coordinate outside the image, which is
      what `get` reads there (transparent black). */
  function At(s: seq<byte>, w: nat, h: nat, x: int, y: int, c: int): (v: byte)
  {
    if |s| == w * h * 4 && 0 <= x < w && 0 <= y < h && 0 <= c < 4 then
      OffsetBound(w, h, x, y, c);
      s[Offset(w, x, y, c)]
    else
      0
  }

  /** The four channels of pixel (x, y). */
  function PixelAt(s: seq<byte>, w: nat, h: nat, x: int, y: int): (p: seq<byte>)
  {
    [At(s, w, h, x, y, 0), At(s, w, h, x, y, 1), At(s, w, h, x, y, 2), At(s, w, h, x, y, 3)]
  }

  const Black: seq<byte> := [0, 0, 0, 255]

  /** Where sample (x, y, c) sits: inside the buffer, at an offset that decomposes back into
      x, y and c. */
  lemma Locate(w: nat, h: nat, x: int, y: int, c: int)
    requires 0 <= x < w && 0 <= y < h && 0 <= c < 4
    ensures Offset(w, x, y, c) < w * h * 4
    ensures Col(w, Offset(w, x, y, c)) == x && Row(w, Offset(w, x, y, c)) == y
    ensures Offset(w, x, y, c) % 4 == c
  {
    OffsetBound(w, h, x, y, c);
    OffsetDecompose(w, x, y, c);
  }

  /** Two w-by-h buffers that agree on every in-range sample are equal. */
  lemma SameSamples(s: seq<byte>, t: seq<byte>, w: nat, h: nat)
    requires |s| == |t| == w * h * 4
    requires forall x, y, c :: 0 <= x < w && 0 <= y < h && 0 <= c < 4 ==> At(s, w, h, x, y, c) == At(t, w, h, x, y, c)
    ensures s == t
  {
    forall i | 0 <= i < |s|
      ensures s[i] == t[i]
    {
      CoordBound(w, h, i);
      var x, y, c := Col(w, i), Row(w, i), i % 4;
      assert At(s, w, h, x, y, c) == At(t, w, h, x, y, c);
    }
  }

  /** The first n samples of a and d are present and equal. */
  ghost predicate Agree(a: seq<byte>, d: seq<byte>, n: int)
  {
    n <= |a| && n <= |d| && forall k :: 0 <= k < n ==> a[k] == d[k]
  }

  /** Writing the four samples of the next pixel, each as d has it, extends the agreeing prefix
      by one pixel. */
  lemma AgreeStep(a: seq<byte>, d: seq<byte>, i: nat, v0: byte, v1: byte, v2: byte, v3: byte)
    requires Agree(a, d, i) && i + 4 <= |a| && i + 4 <= |d|
    requires d[i] == v0 && d[i + 1] == v1 && d[i + 2] == v2 && d[i + 3] == v3
    ensures Agree(a[i := v0][i + 1 := v1][i + 2 := v2][i + 3 := v3], d, i + 4)
  {
  }

  /** Buffers of the same length that agree on all of it are equal. */
  lemma AgreeAll(a: seq<byte>, d: seq<byte>)
    requires |a| == |d| && Agree(a, d, |a|)
    ensures a == d
  {
  }

  /** Every pixel is fully opaque. */
  ghost predicate Opaque(s: seq<byte>, w: nat, h: nat)
  {
    forall x, y :: 0 <= x < w && 0 <= y < h ==> At(s, w, h, x, y, 3) == 255
  }

  /** A buffer filled with the grey level v at full opacity: `background(v)`. */
  function Solid(w: nat, h: nat, v: byte): (r: seq<byte>)
    ensures |r| == w * h * 4
  {
    seq(w * h * 4, (i: nat) => if i % 4 == 3 then 255 else v)
  }

  /** The fresh buffer of `createImage(w, h)`: every sample 0. */
  function Transparent(w: nat, h: nat): (r: seq<byte>)
    ensures |r| == w * h * 4
  {
    seq(w * h * 4, (i: nat) => 0)
  }

  /** `get(x, y, w, h)` on a W-by-H buffer: the w-by-h rectangle whose top-left corner is
      (x, y), with transparent black wherever the rectangle leaves the image. */
  function Region(s: seq<byte>, W: nat, H: nat, x: int, y: int, w: nat, h: nat): (r: seq<byte>)
    ensures |r| == w * h * 4
  {
    seq(w * h * 4, (k: nat) => At(s, W, H, x + Col(w, k), y + Row(w, k), k % 4))
  }

  /** Drawing the sw-by-sh buffer src onto the W-by-H buffer dst with its top-left corner at
      (dx, dy), source-over: a source pixel lands only where it falls inside dst, a fully
      transparent one leaves dst as it was, and any other replaces the destination pixel.
      A position outside src reads alpha 0 through At, so it leaves dst as it was. */
  function Composite(dst: seq<byte>, W: nat, H: nat, src: seq<byte>, sw: nat, sh: nat, dx: int, dy: int): (r: seq<byte>)
    ensures |r| == W * H * 4
  {
    seq(W * H * 4, (k: nat) =>
      var x, y, c := Col(W, k), Row(W, k), k % 4;
      if At(src, sw, sh, x - dx, y - dy, 3) != 0 then At(src, sw, sh, x - dx, y - dy, c)
      else At(dst, W, H, x, y, c))
  }

  /** Solid fills every pixel with the same grey at full opacity. */
  lemma SolidAt(w: nat, h: nat, v: byte, x: int, y: int)
    requires 0 <= x < w && 0 <= y < h
    ensures PixelAt(Solid(w, h, v), w, h, x, y) == [v, v, v, 255]
  {
    Locate(w, h, x, y, 0);
    Locate(w, h, x, y, 1);
    Locate(w, h, x, y, 2);
    Locate(w, h, x, y, 3);
  }

  /** Cropping reads the source at the shifted coordinate; where that coordinate leaves the
      source, both sides are 0. */
  lemma RegionAt(s: seq<byte>, W: nat, H: nat, x: int, y: int, w: nat, h: nat, i: int, j: int, c: int)
    requires |s| == W * H * 4
    requires 0 <= i < w && 0 <= j < h && 0 <= c < 4
    ensures At(Region(s, W, H, x, y, w, h), w, h, i, j, c) == At(s, W, H, x + i, y + j, c)
  {
    Locate(w, h, i, j, c);
  }

  /** Pasting is clipped: a destination pixel changes only when the pasted image covers it
      with a pixel that is not fully transparent, and then it takes that pixel's value. */
  lemma CompositeAt(dst: seq<byte>, W: nat, H: nat, src: seq<byte>, sw: nat, sh: nat, dx: int, dy: int, x: int, y: int, c: int)
    requires |dst| == W * H * 4 && |src| == sw * sh * 4
    requires 0 <= x < W && 0 <= y < H && 0 <= c < 4
    ensures var covered := 0 <= x - dx < sw && 0 <= y - dy < sh && At(src, sw, sh, x - dx, y - dy, 3) != 0;
            At(Composite(dst, W, H, src, sw, sh, dx, dy), W, H, x, y, c) ==
            if covered then At(src, sw, sh, x - dx, y - dy, c) else At(dst, W, H, x, y, c)
  {
    Locate(W, H, x, y, c);
  }

  /** Pasting the n-by-n square of s at (sx, sy) back into a W-by-H buffer at (dx, dy): a pixel
      covered by the square takes the matching pixel of s unless that one is fully transparent. */
  lemma PasteRegionAt(dst: seq<byte>, s: seq<byte>, W: nat, H: nat, sx: int, sy: int, n: nat, dx: int, dy: int, x: int, y: int, c: int)
    requires |dst| == W * H * 4 && |s| == W * H * 4
    requires 0 <= x < W && 0 <= y < H && 0 <= c < 4
    ensures var i, j := x - dx, y - dy;
            var covered := 0 <= i < n && 0 <= j < n && At(s, W, H, sx + i, sy + j, 3) != 0;
            At(Composite(dst, W, H, Region(s, W, H, sx, sy, n, n), n, n, dx, dy), W, H, x, y, c) ==
            if covered then At(s, W, H, sx + i, sy + j, c) else At(dst, W, H, x, y, c)
  {
    var square := Region(s, W, H, sx, sy, n, n);
    var i, j := x - dx, y - dy;
    CompositeAt(dst, W, H, square, n, n, dx, dy, x, y, c);
    if 0 <= i < n && 0 <= j < n {
      RegionAt(s, W, H, sx, sy, n, n, i, j, 3);
      RegionAt(s, W, H, sx, sy, n, n, i, j, c);
      var a3, ac := At(square, n, n, i, j, 3), At(square, n, n, i, j, c);
      assert a3 == At(s, W, H, sx + i, sy + j, 3);
      assert ac == At(s, W, H, sx + i, sy + j, c);
    }
  }

  /** A p5 image (or graphics buffer): fixed dimensions and a mutable `pixels` array. */
  class Image {
    const width: nat
    const height: nat
    const pixels: array<byte>

    ghost predicate Valid()
    {
      pixels.Length == width * height * 4
    }

    /** An image of the given size holding the samples s. */
    constructor FromPixels(w: nat, h: nat, s: seq<byte>)
      requires |s| == w * h * 4
      ensures Valid() && width == w && height == h
      ensures fresh(pixels) && pixels[..] == s
    {
      width, height := w, h;
      pixels := new byte[|s|](i requires 0 <= i < |s| => s[i]);
    }

    /** `get(x, y, w, h)`: a new w-by-h image cropped from this one. */
    method Get(x: int, y: int, w: nat, h: nat) returns (r: Image)
      requires Valid()
      ensures fresh(r) && fresh(r.pixels) && r.Valid()
      ensures r.width == w && r.height == h
      ensures r.pixels[..] == Region(pixels[..], width, height, x, y, w, h)
    {
      r := new Image.FromPixels(w, h, Region(pixels[..], width, height, x, y, w, h));
    }

    /** `image(src, dx, dy)`, and `copy(src, 0, 0, src.width, src.height, dx, dy, src.width,
        src.height)`, which draws the same way: src pasted at (dx, dy) without scaling. */
    method DrawImage(src: Image, dx: int, dy: int)
      requires Valid() && src.Valid()
      modifies pixels
      ensures pixels[..] == Composite(old(pixels[..]), width, height, old(src.pixels[..]), src.width, src.height, dx, dy)
    {
      var t := Composite(pixels[..], width, height, src.pixels[..], src.width, src.height, dx, dy);
      forall i | 0 <= i < pixels.Length {
        pixels[i] := t[i];
      }
    }
  }
}
