# p5 image effect roulette, modelled in Dafny

The sketch lets a user upload an image and press "Process Image". That runs one of three
pixel effects, picked at random, on the image's RGBA pixel buffer:

- 1-bit ordered dithering with a 4x4 Bayer matrix;
- a "VHS glitch": a red/blue channel shift followed by a few bands of rows pasted back
  shifted sideways;
- a pixel sampler that draws 10000 random square chunks of the source onto a black canvas.

This project models that engine as imperative Dafny. The parts are:

- **Raster**: the p5 image as a class with a mutable `pixels` array in row-major RGBA order.
  Channel c of pixel (x, y) sits at (y * width + x) * 4 + c. The class also has `get(x, y, w, h)`,
  which crops and pads with transparent black, and `image` / `copy` at scale 1, which paste and
  clip at the canvas edge.
- **P5Random**: `random` with each output of the generator passed in explicitly, as the
  numerator k of k / 2^53. Every effect then becomes a deterministic function of its input and
  the stream of draws `rs`. The range of every draw is proved from the model of `random`, not
  assumed.
- **Dithering**, **VhsGlitch**, **PixelSampler**: each effect is a method that has the
  source's loops. Each is proved equal to a specification function on sequences, and the
  effect's properties are lemmas about that function.
- **Sketch**: the globals `sourceImage` and `processedImage` as a class, with the file-upload
  handler and the "Process Image" handler, plus the three-way dispatch.

Two behaviours of the sketch shape the model:

- The sketch has three effects, and no pixel-sorting effect. It has no in-flight guard either:
  `applyRandomEffect` runs synchronously.
- `get` pads a rectangle that leaves the image with transparent pixels. `image` / `copy`
  composite rather than overwrite, so a fully transparent pixel leaves the destination as it
  was.

Three results are worth knowing:

- The dither rule is proved in its exact form: r + g + b > 3 * threshold is the same as
  (r + g + b) / 3 > threshold over the reals.
- On a 4x4 mid-grey image the dither output is a checkerboard.
- In the pixel sampler, a corner drawn with floor(random(extent - size)) is at most
  extent - size - 1. So on an image at least 50 pixels wide, no chunk ever reaches the last
  column, and that column stays black. The same holds for the last row on an image at least
  50 pixels high.

## Model

| member | source | states |
|---|---|---|
| P5Random.FloorRandom | sketch.js:220-223 | floor(random(n)) is in [0, n) for n > 0 and in [n, 0] for n <= 0 |
| P5Random.FloorRandomBetween | sketch.js:165 | floor(random(lo, hi)) is in [lo, hi) and, with the bounds swapped as p5 does, in [hi, lo) when hi < lo |
| P5Random.RandomElement | sketch.js:113 | random(array) returns an element of the array |
| Raster.Locate | sketch.js:145 | the offset (y * w + x) * 4 + c of an in-range sample is inside the buffer and decodes back to x, y and c |
| Raster.SolidAt | sketch.js:211 | background(v) makes every pixel (v, v, v, 255) |
| Raster.RegionAt | sketch.js:191 | sample (i, j, c) of the crop at (x, y) is sample (x + i, y + j, c) of the image, transparent black outside it |
| Raster.CompositeAt | sketch.js:192 | after a paste at (dx, dy), a pixel takes the pasted pixel exactly when that one covers it and is not fully transparent; otherwise it keeps its value |
| Raster.PasteRegionAt | sketch.js:224-225 | cropping an n-by-n square at (sx, sy) and pasting it at (dx, dy) puts source pixel (sx + x - dx, sy + y - dy) on each covered pixel whose source pixel is not fully transparent |
| Raster.Image.FromPixels | sketch.js:137 | a new image of the given size holding the given samples |
| Raster.Image.Get | sketch.js:191 | `get` returns a fresh image of the requested size holding the crop of the current pixels |
| Raster.Image.DrawImage | sketch.js:225 | `image(src, dx, dy)` / `copy` at scale 1 leaves this image's pixels equal to the composite of its old pixels and src |
| Dithering.Threshold | sketch.js:147 | the threshold bayerMatrix[y % 4][x % 4] * 17 is a multiple of 17 and at most 255 |
| Dithering.BrightnessComparison | sketch.js:146-148 | (r + g + b) / 3 > t over the reals exactly when r + g + b > 3t |
| Dithering.DitherAt | sketch.js:145-152 | output pixel (x, y) is (l, l, l, 255), where l is the level of input pixel (x, y) |
| Dithering.DitherIsBinary | sketch.js:148-152 | every output pixel is opaque black or opaque white |
| Dithering.DitherRule | sketch.js:146-148 | an output pixel is white exactly when its brightness exceeds its threshold, and black exactly when it does not |
| Dithering.DitherOfBlack | sketch.js:146-148 | an input whose colour channels are all 0 dithers to all black |
| Dithering.DitherOpaque | sketch.js:152 | the dithered image is opaque everywhere |
| Dithering.BayerParity | sketch.js:138-140 | the matrix entries up to 7 sit exactly where x + y is even |
| Dithering.MidGraySum | sketch.js:146 | every pixel of the 4x4 mid-grey image has channel sum 384 |
| Dithering.MidGrayCheckerboard | sketch.js:143-153 | dithering 4x4 mid grey gives a white/black checkerboard, white where x + y is even |
| Dithering.DitherOffsets | sketch.js:145-152 | at the flat index the loop computes, the three colour samples of the output are the pixel's level and the alpha is 255 |
| Dithering.ApplyDithering | sketch.js:136-157 | the loop produces a fresh image of the input's size whose pixels are exactly the dithered input |
| VhsGlitch.Constrain | sketch.js:171 | constrain(n, low, high) lies in [low, high], is n when n is in range, and otherwise the bound n crosses |
| VhsGlitch.ChannelShiftAt | sketch.js:171-181 | both clamped columns lie inside the row and their reads inside the buffer; an output pixel is (red from the left column, own green, blue from the right column, 255) |
| VhsGlitch.ChannelShiftOffsets | sketch.js:170-181 | the indices i, r_i and b_i the loop computes are in bounds, and the output at i is (input[r_i], input[i + 1], input[b_i + 2], 255) |
| VhsGlitch.ChannelShiftKeepsGreen | sketch.js:174-181 | every pixel keeps its green sample, and the output is opaque everywhere |
| VhsGlitch.ChannelShiftPhase | sketch.js:163-184 | the nested loop produces a fresh image of the input's size whose pixels are exactly the channel shift of the input |
| VhsGlitch.BandShiftAt | sketch.js:191-192 | a band step leaves rows outside the band unchanged; inside the band, column x takes column x - shift when that exists and otherwise keeps its value |
| VhsGlitch.BandShiftOpaque | sketch.js:191-192 | a band step keeps an opaque image opaque |
| VhsGlitch.CropPasteIsBandShift | sketch.js:191-192 | on an opaque image, `get` of the full-width strip followed by `copy` of it at (shift, bandY) is exactly the band shift |
| VhsGlitch.ApplyBandsOpaque | sketch.js:187-193 | the band loop keeps an opaque image opaque, whatever the bands |
| VhsGlitch.ApplyBandsOutside | sketch.js:187-193 | a row that no band covers comes through the band loop unchanged |
| VhsGlitch.GlitchOffset | sketch.js:165 | the offset floor(random(5, 15)) is in [5, 14] |
| VhsGlitch.NumBands | sketch.js:186 | the band count floor(random(3, 8)) is in [3, 7] |
| VhsGlitch.BandDraw | sketch.js:188-190 | a band's top row lies inside the image, its height is in [5, 49] and its shift is in [-50, 50) |
| VhsGlitch.Bands | sketch.js:186-190 | between three and seven bands are drawn, in order; every one has its top row inside the image, a height in [5, 49] and a shift in [-50, 50) |
| VhsGlitch.GlitchOpaque | sketch.js:168-193 | the glitched image is opaque everywhere |
| VhsGlitch.ApplyIntenseVhsGlitch | sketch.js:162-193 | the method produces a fresh image of the input's size holding the channel shift followed by the bands, each cut with `get` and pasted with `copy` |
| PixelSampler.ChunkDraw | sketch.js:219-223 | chunk sizes are in [5, 49]; when the image is wider (taller) than the chunk, the source and destination squares lie inside it and end before its last column (row) |
| PixelSampler.Chunks | sketch.js:218-223 | 10000 chunks are drawn, in order; every size is in [5, 49], and where the image is wider (taller) than a chunk, its source and destination squares lie inside it in that direction |
| PixelSampler.BlockCopyAt | sketch.js:224-225 | one sample after a chunk step: the source sample the chunk brings there, or the old sample |
| PixelSampler.BlockCopyPixel | sketch.js:224-225 | when a chunk copies onto (x, y), the source pixel read lies inside the source and the pixel equals it; otherwise the pixel is unchanged |
| PixelSampler.ChunkPasteAt | sketch.js:224-225 | the `get` / `image` chunk step and the reference block copy agree on every sample |
| PixelSampler.ChunkPasteIsBlockCopy | sketch.js:224-225 | `get` of the source square followed by `image` of it at (dx, dy) is exactly the block copy |
| PixelSampler.SamplerAfterStep | sketch.js:218-226 | one more loop iteration is one more block copy on the canvas so far |
| PixelSampler.SamplerPixelOrigin | sketch.js:210-226 | every output pixel is the background black or equal to some pixel of the source |
| PixelSampler.SamplerUncovered | sketch.js:211 | a pixel no chunk covers stays background black |
| PixelSampler.SamplerLastChunkWins | sketch.js:225 | when the last chunk covers a pixel with a non-transparent source pixel, the output pixel is that source pixel |
| PixelSampler.SamplerOpaque | sketch.js:210-226 | over an opaque source the output is opaque everywhere |
| PixelSampler.SamplerLastColumnBlack | sketch.js:220-222 | on an image at least 50 wide, the last column of the output is entirely background black |
| PixelSampler.SamplerLastRowBlack | sketch.js:221-223 | on an image at least 50 high, the last row of the output is entirely background black |
| PixelSampler.SampleChunk | sketch.js:219-225 | one loop iteration leaves the canvas equal to the block copy of chunk i onto the old canvas |
| PixelSampler.ApplyPixelSampler | sketch.js:209-228 | the method produces a fresh image of the source's size: a black canvas after all 10000 chunk steps |
| Sketch.EffectChoice | sketch.js:107-113 | random(effects) picks dithering, the glitch or the sampler exactly when the draw falls in the first, second or last third of the generator's range |
| Sketch.EffectPixels | sketch.js:115 | every effect keeps the image's size |
| Sketch.EffectOpaque | sketch.js:115 | every effect output is opaque; the sampler's needs an opaque source |
| Sketch.RunEffect | sketch.js:115 | `randomEffect(sourceImage)` returns a fresh image, with a fresh pixel buffer, of the source's size holding the chosen effect's pixels |
| Sketch.SketchState.Init | sketch.js:7-8 | the sketch starts with neither a source nor a processed image |
| Sketch.SketchState.HandleFile | sketch.js:77-94 | for an image file the loaded image becomes the source and the processed image is reset to none; other files change nothing |
| Sketch.SketchState.ApplyRandomEffect | sketch.js:104-115 | with no source nothing changes; otherwise the source is untouched and the processed image is a fresh image, in a buffer of its own, holding the effect the first draw picks, applied to the source |

## Left out

- The scanline overlay of `applyIntenseVhsGlitch` (sketch.js:195-203) and its off-screen
  graphics buffer. This is antialiased line stroking with a fractional weight and partial alpha,
  which is renderer-dependent floating point.
- VhsGlitch.ApplyIntenseVhsGlitch: its result is the image before the scanline overlay. The
  source returns the overlaid graphics buffer.
- Sketch.RunEffect: for the glitch, it returns the image before the scanline overlay.
- Sketch.SketchState.ApplyRandomEffect: for the glitch, the processed image is the image
  before the scanline overlay.
- Image decoding and the resize to a width of 1280 in `handleFile` (sketch.js:79-86). Both
  use p5's `loadImage` / `resize` and a floating-point aspect ratio. `HandleFile` receives the
  loaded, resized image as a parameter.
- Sketch.SketchState.HandleFile: models the load callback as if it ran at once. The
  asynchronous gap between the upload and the callback is not modelled.
- The canvas and user interface: `setup`, `drawInitialCanvas`, `drawPreviews`, `resizeCanvas`,
  `pixelDensity`, and the enabling and disabling of the buttons. These are display state.
  Pixel density 1 is what makes one pixel one RGBA quadruple.
- `downloadResult` / `save`: file output.
- The pseudo-random generator itself. Its outputs are the explicit stream `rs`, each a
  multiple of 2^-53 in [0, 1).
- P5Random.FloorRandom: models rand * n as an exact product. The floating-point rounding of
  that product is not modelled.
- VhsGlitch.BandDraw: takes the fractional `bandY`, and the fractional `shiftAmount`, as their
  integer floors. p5's handling of a fractional position in `get` / `copy` is not modelled.
- Raster.Image.DrawImage: compositing is exact for alpha 0 and alpha 255. For a partly
  transparent source pixel it is modelled as replacing the destination, not as source-over
  blending.
- PixelSampler.SamplerOpaque: requires an opaque source. In the sketch every chunk is drawn
  source-over onto a canvas that `background(0)` made opaque, so the output is opaque for any
  source. The model replaces a pixel under a partly transparent chunk pixel, so it keeps a
  translucent source pixel's alpha.
- Sketch.EffectOpaque: for the same reason, the sampler case requires an opaque source. The
  sketch's sampler output is opaque for every source.
- PixelSampler.SamplerPixelOrigin: holds for the sketch only where the source pixels are fully
  opaque or fully transparent. Where a chunk pixel is partly transparent, the sketch's output
  pixel is a blend of it and the canvas, not a copy of a source pixel.
- PixelSampler.SamplerLastChunkWins: holds for the sketch only where the covering source pixel
  is fully opaque. A partly transparent one is blended with the canvas beneath.
- `loadPixels` / `updatePixels`: the model reads and writes `pixels` directly, so there is no
  separate canvas to synchronise.
