/** The bitmap-loading part of `MainActivity.onActivityResult`: the `while`
    loop that picks the sample size from the bounds-only probe's width and
    height and the display's size, and the mutable ARGB_8888 copy of the
    subsampled bitmap that the activity then shows.  Stream access, the codec
    itself and drawing are not modelled; their integer results are inputs. */
module Loader {
  import opened JavaInt
  import opened SampleSize

  /** The sample-size loop as the activity runs it, over Java `int`s: `w` and
      `h` come from `options.outWidth` / `options.outHeight` (-1 after a probe
      that failed), `displayW` and `displayH` from the display metrics. */
  method ComputeSample(w: int32, h: int32, displayW: int32, displayH: int32) returns (sample: int32)
    requires displayW >= 1 && displayH >= 1
    ensures sample as int == Sample(w as int, h as int, displayW as int, displayH as int)
    ensures IsPowerOfTwo(sample as int)
    ensures Fits(w as int, h as int, displayW as int, displayH as int, sample as int)
    ensures 1 <= sample <= 0x4000_0000
  {
    ghost var W, H, DW, DH := w as int, h as int, displayW as int, displayH as int;
    ghost var target := Sample(W, H, DW, DH);
    SampleAtMostTwoToThirty(W, H, DW, DH);
    sample := 1;
    while Div(w as int, sample as int) > displayW as int || Div(h as int, sample as int) > displayH as int
      invariant 1 <= sample
      invariant ChooseSample(W, H, DW, DH, sample as int) == target
      decreases Span(W, H) - sample as int
    {
      // the loop has not stopped, so the target is reached by doubling, and
      // the target is at most 2^30: `sample * 2` stays a Java `int`
      DoublingApproachesTarget(W, H, DW, DH, sample as int);
      sample := sample * 2;
    }
    // the guard is false, so the loop stops where the pure function does
    assert Fits(W, H, DW, DH, sample as int);
  }

  /** One more turn of the loop: the factor doubles without passing the one the
      loop will stop at, and the image's larger side bounds it. */
  lemma DoublingApproachesTarget(w: int, h: int, dw: int, dh: int, s: int)
    requires dw >= 1 && dh >= 1 && s >= 1
    requires !Fits(w, h, dw, dh, s)
    ensures ChooseSample(w, h, dw, dh, 2 * s) == ChooseSample(w, h, dw, dh, s)
    ensures 2 * s <= ChooseSample(w, h, dw, dh, s)
    ensures 2 * s <= Span(w, h)
  {
    OverflowingAxisIsLarge(w, h, dw, dh, s);
  }

  /** An image held by the activity, by its pixel size; `mutable` tells a bitmap
      made by `Bitmap.createBitmap(width, height, config)` from an immutable
      one returned by `BitmapFactory.decodeStream`. */
  datatype Bitmap = Bitmap(width: int, height: int, config: Config, mutable: bool)

  datatype Config = Argb8888 | Other

  /** The second decode, for a codec that keeps every `sample`-th pixel of a
      `w` x `h` image on each axis exactly, rounding down. */
  function DecodeSubsampled(w: nat, h: nat, sample: int): (bm: Bitmap)
    requires sample >= 1
    ensures bm.width * sample <= w < (bm.width + 1) * sample
    ensures bm.height * sample <= h < (bm.height + 1) * sample
    ensures !bm.mutable
  {
    DivTruncates(w, sample);
    DivTruncates(h, sample);
    Bitmap(Div(w, sample), Div(h, sample), Other, false)
  }

  /** The bitmap the activity draws on and shows: a new mutable ARGB_8888
      bitmap exactly as large as the decoded one. */
  function MutableCopy(bm: Bitmap): (r: Bitmap)
    ensures r.width == bm.width && r.height == bm.height
    ensures r.config == Argb8888 && r.mutable
  {
    Bitmap(bm.width, bm.height, Argb8888, true)
  }

  /** What the activity shows for a probed `w` x `h` image on a `dw` x `dh`
      display, with an exact codec. */
  function Shown(w: nat, h: nat, dw: int, dh: int): Bitmap
    requires dw >= 1 && dh >= 1
  {
    MutableCopy(DecodeSubsampled(w, h, Sample(w, h, dw, dh)))
  }

  /** The shown bitmap fits the display on both axes, and when the image was
      downsampled at all, it still fills at least half the display on some
      axis: the factor is never larger than it has to be. */
  lemma ShownFitsDisplay(w: nat, h: nat, dw: int, dh: int)
    requires dw >= 1 && dh >= 1
    ensures Shown(w, h, dw, dh).width <= dw && Shown(w, h, dw, dh).height <= dh
    ensures Sample(w, h, dw, dh) > 1 ==>
      2 * Shown(w, h, dw, dh).width >= dw || 2 * Shown(w, h, dw, dh).height >= dh
  {
    var r := Sample(w, h, dw, dh);
    HalfSampleDoesNotFit(w, h, dw, dh);
    if r > 1 {
      var half := r / 2;
      HalfIsPowerOfTwo(r);
      HalveQuotient(w, half);
      HalveQuotient(h, half);
    }
  }

  /** Dividing by `2 * a` is dividing by `a` and then by 2. */
  lemma HalveQuotient(x: nat, a: int)
    requires a >= 1
    ensures Div(x, 2 * a) == Div(x, a) / 2
  {
    var q := Div(x, a);
    var q2 := q / 2;
    DivTruncates(x, a);
    assert q == 2 * q2 + q % 2;
    assert q2 * (2 * a) == (2 * q2) * a;
    assert q2 * (2 * a) <= x;
    assert (q2 + 1) * (2 * a) == (2 * q2 + 2) * a;
    assert (q + 1) * a <= (2 * q2 + 2) * a;
    DivUnique(x, 2 * a, q2);
  }

  /** A quotient is pinned down by the two bounds it satisfies. */
  lemma DivUnique(x: nat, b: int, q: int)
    requires b >= 1 && q * b <= x < (q + 1) * b
    ensures Div(x, b) == q
  {
    var d := Div(x, b);
    DivTruncates(x, b);
    assert d * b < (q + 1) * b;
    MulLessCancel(d, q + 1, b);
    assert q * b < (d + 1) * b;
    MulLessCancel(q, d + 1, b);
  }

  /** A failed bounds probe leaves both dimensions at -1, and the loop then
      keeps every pixel. */
  lemma FailedProbeKeepsEveryPixel(dw: int, dh: int)
    requires dw >= 1 && dh >= 1
    ensures Sample(-1, -1, dw, dh) == 1
  {
    SampleIsOneIffImageFits(-1, -1, dw, dh);
  }

  /** A 4000 x 3000 photo on a 1080 x 1920 portrait display is sampled at 4 and
      shown at 1000 x 750. */
  lemma PhotoOnPortraitDisplay()
    ensures Sample(4000, 3000, 1080, 1920) == 4
    ensures Shown(4000, 3000, 1080, 1920).width == 1000
    ensures Shown(4000, 3000, 1080, 1920).height == 750
  {
    SampleCharacterized(4000, 3000, 1080, 1920, 4);
  }

  /** A 10000 x 10000 image on a 1 x 1 display is sampled at 8192 and shown at
      1 x 1. */
  lemma LargeImageOnTinyDisplay()
    ensures Sample(10000, 10000, 1, 1) == 8192
    ensures Shown(10000, 10000, 1, 1).width == 1
    ensures Shown(10000, 10000, 1, 1).height == 1
  {
    assert Pow2(10) == 1024;
    Pow2Add(10, 3);
    Pow2IsPowerOfTwo(13);
    SampleCharacterized(10000, 10000, 1, 1, 8192);
  }
}
