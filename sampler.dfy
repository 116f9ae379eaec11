/** Effect 3 (applyPixelSampler): square chunks of the source, cut out at random places and
    drawn at random places over a black canvas of the same size. */
module PixelSampler {
  import opened Raster
  import opened P5Random

  const NumChunks: nat := 10000
  const MinSize: nat := 5
  const MaxSize: nat := 50

  /** One chunk: a size-by-size square cut at (sx, sy) from the source and drawn at (dx, dy). */
  datatype Chunk = Chunk(size: nat, sx: int, sy: int, dx: int, dy: int)

  /** Chunk i, from draws 5i .. 5i + 4. Sizes run from MinSize to MaxSize - 1; a corner drawn
      with floor(random(n)) for n = extent - size lies in [0, n) when n > 0, so the square
      then ends at least one pixel before the image's far edge. */
  function ChunkDraw(w: nat, h: nat, rs: seq<Rand>, i: nat): (ch: Chunk)
    requires 5 * i + 5 <= |rs|
    ensures MinSize <= ch.size < MaxSize
    ensures w > ch.size ==> 0 <= ch.sx && ch.sx + ch.size < w && 0 <= ch.dx && ch.dx + ch.size < w
    ensures h > ch.size ==> 0 <= ch.sy && ch.sy + ch.size < h && 0 <= ch.dy && ch.dy + ch.size < h
    ensures w <= ch.size ==> w - ch.size <= ch.sx <= 0 && w - ch.size <= ch.dx <= 0
    ensures h <= ch.size ==> h - ch.size <= ch.sy <= 0 && h - ch.size <= ch.dy <= 0
  {
    var size := FloorRandomBetween(MinSize, MaxSize, rs[5 * i]);
    Chunk(size, FloorRandom(w - size, rs[5 * i + 1]), FloorRandom(h - size, rs[5 * i + 2]),
          FloorRandom(w - size, rs[5 * i + 3]), FloorRandom(h - size, rs[5 * i + 4]))
  }

  /** All NumChunks chunks, in the order they are drawn. Every chunk has a size in
      [MinSize, MaxSize), and wherever the image exceeds that size, both its source and its
      destination square lie inside the image. */
  function Chunks(w: nat, h: nat, rs: seq<Rand>): (chunks: seq<Chunk>)
    requires |rs| >= 5 * NumChunks
    ensures |chunks| == NumChunks
    ensures forall i :: 0 <= i < NumChunks ==> chunks[i] == ChunkDraw(w, h, rs, i)
    ensures forall i :: 0 <= i < NumChunks ==> MinSize <= chunks[i].size < MaxSize
    ensures forall i :: 0 <= i < NumChunks && w > chunks[i].size ==>
              0 <= chunks[i].sx && chunks[i].sx + chunks[i].size < w && 0 <= chunks[i].dx && chunks[i].dx + chunks[i].size < w
    ensures forall i :: 0 <= i < NumChunks && h > chunks[i].size ==>
              0 <= chunks[i].sy && chunks[i].sy + chunks[i].size < h && 0 <= chunks[i].dy && chunks[i].dy + chunks[i].size < h
  {
    seq(NumChunks, (i: nat) requires i < NumChunks => ChunkDraw(w, h, rs, i))
  }

  /** Whether the destination square of ch covers pixel (x, y). */
  predicate Covers(ch: Chunk, x: int, y: int)
  {
    ch.dx <= x < ch.dx + ch.size && ch.dy <= y < ch.dy + ch.size
  }

  /** The reference definition of one chunk step on the w-by-h canvas dst: inside the
      destination square, a pixel takes the source pixel at the same place in the source
      square when that one is not fully transparent; every other pixel keeps its value. */
  function BlockCopy(w: nat, h: nat, dst: seq<byte>, src: seq<byte>, ch: Chunk): (r: seq<byte>)
    ensures |r| == w * h * 4
  {
    seq(w * h * 4, (k: nat) =>
      var x, y, c := Col(w, k), Row(w, k), k % 4;
      if Covers(ch, x, y) && At(src, w, h, ch.sx + (x - ch.dx), ch.sy + (y - ch.dy), 3) != 0
      then At(src, w, h, ch.sx + (x - ch.dx), ch.sy + (y - ch.dy), c)
      else At(dst, w, h, x, y, c))
  }

  /** Whether the chunk step copies a source pixel onto (x, y). */
  predicate Copies(w: nat, h: nat, src: seq<byte>, ch: Chunk, x: int, y: int)
  {
    Covers(ch, x, y) && At(src, w, h, ch.sx + (x - ch.dx), ch.sy + (y - ch.dy), 3) != 0
  }

  /** Pixel (x, y) after a chunk step: the source pixel it copies, which lies inside the
      source, or the pixel as it was. */
  lemma BlockCopyPixel(w: nat, h: nat, dst: seq<byte>, src: seq<byte>, ch: Chunk, x: int, y: int)
    requires 0 <= x < w && 0 <= y < h
    ensures Copies(w, h, src, ch, x, y) ==>
              0 <= ch.sx + (x - ch.dx) < w && 0 <= ch.sy + (y - ch.dy) < h &&
              PixelAt(BlockCopy(w, h, dst, src, ch), w, h, x, y) == PixelAt(src, w, h, ch.sx + (x - ch.dx), ch.sy + (y - ch.dy))
    ensures !Copies(w, h, src, ch, x, y) ==> PixelAt(BlockCopy(w, h, dst, src, ch), w, h, x, y) == PixelAt(dst, w, h, x, y)
  {
    BlockCopyAt(w, h, dst, src, ch, x, y, 0);
    BlockCopyAt(w, h, dst, src, ch, x, y, 1);
    BlockCopyAt(w, h, dst, src, ch, x, y, 2);
    BlockCopyAt(w, h, dst, src, ch, x, y, 3);
  }

  /** The source's chunk step, `get` of the source square then `image` of it at (dx, dy), is
      the block copy. */
  lemma ChunkPasteIsBlockCopy(w: nat, h: nat, dst: seq<byte>, src: seq<byte>, ch: Chunk)
    requires |dst| == w * h * 4 && |src| == w * h * 4
    ensures Composite(dst, w, h, Region(src, w, h, ch.sx, ch.sy, ch.size, ch.size), ch.size, ch.size, ch.dx, ch.dy)
            == BlockCopy(w, h, dst, src, ch)
  {
    var square := Region(src, w, h, ch.sx, ch.sy, ch.size, ch.size);
    var pasted := Composite(dst, w, h, square, ch.size, ch.size, ch.dx, ch.dy);
    var copied := BlockCopy(w, h, dst, src, ch);
    forall x, y, c | 0 <= x < w && 0 <= y < h && 0 <= c < 4
      ensures At(pasted, w, h, x, y, c) == At(copied, w, h, x, y, c)
    {
      ChunkPasteAt(w, h, dst, src, ch, x, y, c);
    }
    SameSamples(pasted, copied, w, h);
  }

  /** ChunkPasteIsBlockCopy at one sample. */
  lemma ChunkPasteAt(w: nat, h: nat, dst: seq<byte>, src: seq<byte>, ch: Chunk, x: int, y: int, c: int)
    requires |dst| == w * h * 4 && |src| == w * h * 4
    requires 0 <= x < w && 0 <= y < h && 0 <= c < 4
    ensures At(Composite(dst, w, h, Region(src, w, h, ch.sx, ch.sy, ch.size, ch.size), ch.size, ch.size, ch.dx, ch.dy), w, h, x, y, c)
            == At(BlockCopy(w, h, dst, src, ch), w, h, x, y, c)
  {
    PasteRegionAt(dst, src, w, h, ch.sx, ch.sy, ch.size, ch.dx, ch.dy, x, y, c);
    BlockCopyAt(w, h, dst, src, ch, x, y, c);
  }

  /** One sample after a chunk step. */
  lemma BlockCopyAt(w: nat, h: nat, dst: seq<byte>, src: seq<byte>, ch: Chunk, x: int, y: int, c: int)
    requires 0 <= x < w && 0 <= y < h && 0 <= c < 4
    ensures At(BlockCopy(w, h, dst, src, ch), w, h, x, y, c) ==
            if Copies(w, h, src, ch, x, y) then At(src, w, h, ch.sx + (x - ch.dx), ch.sy + (y - ch.dy), c)
            else At(dst, w, h, x, y, c)
  {
    Locate(w, h, x, y, c);
  }

  /** The canvas after the given chunks: black, then each chunk in turn. */
  function SamplerAfter(w: nat, h: nat, src: seq<byte>, chunks: seq<Chunk>): (r: seq<byte>)
    ensures |r| == w * h * 4
    decreases |chunks|
  {
    if |chunks| == 0 then Solid(w, h, 0)
    else BlockCopy(w, h, SamplerAfter(w, h, src, chunks[..|chunks| - 1]), src, chunks[|chunks| - 1])
  }

  /** One more chunk is one more block copy. */
  lemma SamplerAfterStep(w: nat, h: nat, src: seq<byte>, chunks: seq<Chunk>, i: nat)
    requires i < |chunks|
    ensures SamplerAfter(w, h, src, chunks[..i + 1]) == BlockCopy(w, h, SamplerAfter(w, h, src, chunks[..i]), src, chunks[i])
  {
    assert chunks[..i + 1][..i] == chunks[..i];
  }

  /** What applyPixelSampler produces from the w-by-h source src. */
  function Sampler(w: nat, h: nat, src: seq<byte>, rs: seq<Rand>): (r: seq<byte>)
    requires |rs| >= 5 * NumChunks
    ensures |r| == w * h * 4
  {
    SamplerAfter(w, h, src, Chunks(w, h, rs))
  }

  /** Every pixel of the canvas is background black or a copy of some pixel of the source. */
  lemma {:induction false} SamplerPixelOrigin(w: nat, h: nat, src: seq<byte>, chunks: seq<Chunk>, x: int, y: int)
    requires 0 <= x < w && 0 <= y < h
    ensures PixelAt(SamplerAfter(w, h, src, chunks), w, h, x, y) == Black ||
            exists sx, sy :: 0 <= sx < w && 0 <= sy < h &&
              PixelAt(SamplerAfter(w, h, src, chunks), w, h, x, y) == PixelAt(src, w, h, sx, sy)
    decreases |chunks|
  {
    if |chunks| == 0 {
      SolidAt(w, h, 0, x, y);
    } else {
      var n := |chunks| - 1;
      var ch := chunks[n];
      BlockCopyPixel(w, h, SamplerAfter(w, h, src, chunks[..n]), src, ch, x, y);
      if Copies(w, h, src, ch, x, y) {
        var sx, sy := ch.sx + (x - ch.dx), ch.sy + (y - ch.dy);
        assert PixelAt(SamplerAfter(w, h, src, chunks), w, h, x, y) == PixelAt(src, w, h, sx, sy);
      } else {
        SamplerPixelOrigin(w, h, src, chunks[..n], x, y);
      }
    }
  }

  /** A pixel that no chunk's destination square covers stays background black. */
  lemma {:induction false} SamplerUncovered(w: nat, h: nat, src: seq<byte>, chunks: seq<Chunk>, x: int, y: int)
    requires 0 <= x < w && 0 <= y < h
    requires forall i :: 0 <= i < |chunks| ==> !Covers(chunks[i], x, y)
    ensures PixelAt(SamplerAfter(w, h, src, chunks), w, h, x, y) == Black
    decreases |chunks|
  {
    if |chunks| == 0 {
      SolidAt(w, h, 0, x, y);
    } else {
      var n := |chunks| - 1;
      BlockCopyPixel(w, h, SamplerAfter(w, h, src, chunks[..n]), src, chunks[n], x, y);
      SamplerUncovered(w, h, src, chunks[..n], x, y);
    }
  }

  /** The last chunk drawn over a pixel decides it: when the last chunk covers (x, y) and the
      source pixel it brings there is not fully transparent, the pixel is that source pixel. */
  lemma SamplerLastChunkWins(w: nat, h: nat, src: seq<byte>, chunks: seq<Chunk>, x: int, y: int)
    requires 0 <= x < w && 0 <= y < h && |chunks| > 0
    requires var ch := chunks[|chunks| - 1];
             Covers(ch, x, y) && At(src, w, h, ch.sx + (x - ch.dx), ch.sy + (y - ch.dy), 3) != 0
    ensures var ch := chunks[|chunks| - 1];
            PixelAt(SamplerAfter(w, h, src, chunks), w, h, x, y) == PixelAt(src, w, h, ch.sx + (x - ch.dx), ch.sy + (y - ch.dy))
  {
    var n := |chunks| - 1;
    var prev := SamplerAfter(w, h, src, chunks[..n]);
    assert SamplerAfter(w, h, src, chunks) == BlockCopy(w, h, prev, src, chunks[n]);
    assert Copies(w, h, src, chunks[n], x, y);
    BlockCopyPixel(w, h, prev, src, chunks[n], x, y);
  }

  /** Over an opaque source the canvas stays opaque. */
  lemma {:induction false} SamplerOpaque(w: nat, h: nat, src: seq<byte>, chunks: seq<Chunk>)
    requires |src| == w * h * 4 && Opaque(src, w, h)
    ensures Opaque(SamplerAfter(w, h, src, chunks), w, h)
    decreases |chunks|
  {
    if |chunks| > 0 {
      var n := |chunks| - 1;
      SamplerOpaque(w, h, src, chunks[..n]);
      forall x, y | 0 <= x < w && 0 <= y < h
        ensures At(SamplerAfter(w, h, src, chunks), w, h, x, y, 3) == 255
      {
        BlockCopyPixel(w, h, SamplerAfter(w, h, src, chunks[..n]), src, chunks[n], x, y);
      }
    } else {
      forall x, y | 0 <= x < w && 0 <= y < h
        ensures At(SamplerAfter(w, h, src, chunks), w, h, x, y, 3) == 255
      {
        SolidAt(w, h, 0, x, y);
      }
    }
  }

  /** On an image at least MaxSize wide, no chunk reaches the last column, so the whole last
      column of the output stays background black. */
  lemma SamplerLastColumnBlack(w: nat, h: nat, src: seq<byte>, rs: seq<Rand>, y: int)
    requires |rs| >= 5 * NumChunks && w >= MaxSize && 0 <= y < h
    ensures PixelAt(Sampler(w, h, src, rs), w, h, w - 1, y) == Black
  {
    var chunks := Chunks(w, h, rs);
    forall i | 0 <= i < |chunks|
      ensures !Covers(chunks[i], w - 1, y)
    {
      assert chunks[i] == ChunkDraw(w, h, rs, i);
    }
    SamplerUncovered(w, h, src, chunks, w - 1, y);
  }

  /** On an image at least MaxSize high, the whole last row of the output stays background
      black. */
  lemma SamplerLastRowBlack(w: nat, h: nat, src: seq<byte>, rs: seq<Rand>, x: int)
    requires |rs| >= 5 * NumChunks && h >= MaxSize && 0 <= x < w
    ensures PixelAt(Sampler(w, h, src, rs), w, h, x, h - 1) == Black
  {
    var chunks := Chunks(w, h, rs);
    forall i | 0 <= i < |chunks|
      ensures !Covers(chunks[i], x, h - 1)
    {
      assert chunks[i] == ChunkDraw(w, h, rs, i);
    }
    SamplerUncovered(w, h, src, chunks, x, h - 1);
  }

  /** Iteration i of the chunk loop: five draws, then the square cut from the source with `get`
      and drawn onto the canvas with `image`. */
  method SampleChunk(img: Image, result: Image, rs: seq<Rand>, i: nat)
    requires img.Valid() && result.Valid() && result.pixels != img.pixels
    requires result.width == img.width && result.height == img.height && 5 * i + 5 <= |rs|
    modifies result.pixels
    ensures result.pixels[..] == BlockCopy(img.width, img.height, old(result.pixels[..]), img.pixels[..], ChunkDraw(img.width, img.height, rs, i))
  {
    var chunkSize := FloorRandomBetween(MinSize, MaxSize, rs[5 * i]);
    var sx := FloorRandom(img.width - chunkSize, rs[5 * i + 1]);
    var sy := FloorRandom(img.height - chunkSize, rs[5 * i + 2]);
    var dx := FloorRandom(result.width - chunkSize, rs[5 * i + 3]);
    var dy := FloorRandom(result.height - chunkSize, rs[5 * i + 4]);
    ghost var ch := Chunk(chunkSize, sx, sy, dx, dy);
    assert ch == ChunkDraw(img.width, img.height, rs, i);
    ChunkPasteIsBlockCopy(img.width, img.height, result.pixels[..], img.pixels[..], ch);
    var chunk := img.Get(sx, sy, chunkSize, chunkSize);
    result.DrawImage(chunk, dx, dy);
  }

  /** applyPixelSampler(img): a black canvas of the same size, then NumChunks chunks, each
      cropped from the source with `get` and drawn with `image`. */
  method ApplyPixelSampler(img: Image, rs: seq<Rand>) returns (result: Image)
    requires img.Valid() && |rs| >= 5 * NumChunks
    ensures fresh(result) && fresh(result.pixels) && result.Valid()
    ensures result.width == img.width && result.height == img.height
    ensures result.pixels[..] == Sampler(img.width, img.height, img.pixels[..], rs)
  {
    var w, h := img.width, img.height;
    result := new Image.FromPixels(w, h, Solid(w, h, 0));
    ghost var chunks := Chunks(w, h, rs);
    var i := 0;
    while i < NumChunks
      invariant 0 <= i <= NumChunks
      invariant fresh(result) && fresh(result.pixels) && result.Valid()
      invariant result.width == w && result.height == h
      invariant result.pixels[..] == SamplerAfter(w, h, img.pixels[..], chunks[..i])
    {
      SampleChunk(img, result, rs, i);
      SamplerAfterStep(w, h, img.pixels[..], chunks, i);
      i := i + 1;
    }
    assert chunks[..NumChunks] == chunks;
  }
}
