/** The sketch's global state and its two state-changing handlers: a file upload, which
    installs a new source image, and a click on "Process Image", which runs one of the three
    effects, picked at random, on it. */
module Sketch {
  import opened Raster
  import opened P5Random
  import Dithering
  import VhsGlitch
  import PixelSampler

  datatype Effect = DitherEffect | GlitchEffect | SamplerEffect

  /** The effects array, in the source's order. */
  const Effects: seq<Effect> := [DitherEffect, GlitchEffect, SamplerEffect]

  /** random(effects) picks each effect for one third of the generator's range. */
  lemma EffectChoice(r: Rand)
    ensures RandomElement(Effects, r) == DitherEffect <==> 3 * r < RandScale
    ensures RandomElement(Effects, r) == GlitchEffect <==> RandScale <= 3 * r < 2 * RandScale
    ensures RandomElement(Effects, r) == SamplerEffect <==> 2 * RandScale <= 3 * r
  {
    var q := FloorRandom(|Effects|, r);
    assert q == (3 * r) / RandScale;
    assert q * RandScale <= 3 * r < (q + 1) * RandScale;
    assert Effects[0] == DitherEffect && Effects[1] == GlitchEffect && Effects[2] == SamplerEffect;
  }

  /** Whether rs holds the draws the effect e makes. */
  predicate EffectDraws(e: Effect, rs: seq<Rand>)
  {
    match e
    case DitherEffect => true
    case GlitchEffect => VhsGlitch.EnoughGlitchDraws(rs)
    case SamplerEffect => |rs| >= 5 * PixelSampler.NumChunks
  }

  /** Enough draws for one click on "Process Image": the one that picks the effect, then the
      ones the effect makes. */
  predicate EnoughDraws(rs: seq<Rand>)
  {
    |rs| >= 1 && EffectDraws(RandomElement(Effects, rs[0]), rs[1..])
  }

  /** The pixels effect e produces from the w-by-h image s. */
  function EffectPixels(e: Effect, w: nat, h: nat, s: seq<byte>, rs: seq<Rand>): (r: seq<byte>)
    requires |s| == w * h * 4 && EffectDraws(e, rs)
    ensures |r| == w * h * 4
  {
    match e
    case DitherEffect => Dithering.Dither(w, h, s)
    case GlitchEffect => VhsGlitch.Glitch(w, h, s, rs)
    case SamplerEffect => PixelSampler.Sampler(w, h, s, rs)
  }

  /** Every effect produces an opaque image; the sampler needs an opaque source for that, the
      other two do not. */
  lemma EffectOpaque(e: Effect, w: nat, h: nat, s: seq<byte>, rs: seq<Rand>)
    requires |s| == w * h * 4 && EffectDraws(e, rs)
    requires e == SamplerEffect ==> Opaque(s, w, h)
    ensures Opaque(EffectPixels(e, w, h, s, rs), w, h)
  {
    match e
    case DitherEffect => Dithering.DitherOpaque(w, h, s);
    case GlitchEffect => VhsGlitch.GlitchOpaque(w, h, s, rs);
    case SamplerEffect => PixelSampler.SamplerOpaque(w, h, s, PixelSampler.Chunks(w, h, rs));
  }

  /** `randomEffect(img)`: the chosen effect function applied to img. */
  method RunEffect(e: Effect, img: Image, rs: seq<Rand>) returns (result: Image)
    requires img.Valid() && EffectDraws(e, rs)
    ensures fresh(result) && fresh(result.pixels) && result.Valid()
    ensures result.width == img.width && result.height == img.height
    ensures result.pixels[..] == EffectPixels(e, img.width, img.height, img.pixels[..], rs)
  {
    match e
    case DitherEffect => result := Dithering.ApplyDithering(img);
    case GlitchEffect => result := VhsGlitch.ApplyIntenseVhsGlitch(img, rs);
    case SamplerEffect => result := PixelSampler.ApplyPixelSampler(img, rs);
  }

  /** The globals sourceImage and processedImage. */
  class SketchState {
    var sourceImage: Image?
    var processedImage: Image?

    /** A result exists only beside a source, and it is the size of that source. */
    ghost predicate Valid()
      reads this
    {
      (sourceImage != null ==> sourceImage.Valid()) &&
      (processedImage != null ==> processedImage.Valid()) &&
      (processedImage != null ==> sourceImage != null) &&
      (processedImage != null && sourceImage != null ==>
         processedImage.width == sourceImage.width && processedImage.height == sourceImage.height)
    }

    /** The two globals as the sketch starts: no images yet. */
    constructor Init()
      ensures Valid()
      ensures sourceImage == null && processedImage == null
    {
      sourceImage, processedImage := null, null;
    }

    /** handleFile(file) once its image has loaded: for an image file, `loaded` becomes the
        source and the old result is dropped; any other file changes nothing. */
    method HandleFile(fileType: string, loaded: Image)
      requires Valid() && loaded.Valid()
      modifies this
      ensures Valid()
      ensures fileType == "image" ==> sourceImage == loaded && processedImage == null
      ensures fileType != "image" ==> sourceImage == old(sourceImage) && processedImage == old(processedImage)
    {
      if fileType == "image" {
        sourceImage := loaded;
        processedImage := null;
      }
    }

    /** applyRandomEffect(): without a source nothing happens; otherwise the first draw picks
        the effect, the effect runs on the source with the remaining draws, and its output
        becomes the result. The source image is left as it was. */
    method ApplyRandomEffect(rs: seq<Rand>)
      requires Valid() && (sourceImage != null ==> EnoughDraws(rs))
      modifies this
      ensures Valid()
      ensures sourceImage == old(sourceImage)
      ensures sourceImage != null ==> sourceImage.pixels[..] == old(sourceImage.pixels[..])
      ensures old(sourceImage) == null ==> processedImage == old(processedImage)
      ensures old(sourceImage) != null ==>
                fresh(processedImage) && fresh(processedImage.pixels) &&
                processedImage.pixels[..] == EffectPixels(RandomElement(Effects, rs[0]),
                  sourceImage.width, sourceImage.height, sourceImage.pixels[..], rs[1..])
    {
      if sourceImage == null {
        return;
      }
      var randomEffect := RandomElement(Effects, rs[0]);
      processedImage := RunEffect(randomEffect, sourceImage, rs[1..]);
    }
  }
}
