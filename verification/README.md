# Imagen: the sample-size loop of `MainActivity.onActivityResult`

Imagen is a small Android app. The user picks an image, the app draws a
"Gotcha" watermark on it and shows it, and the user can save and share it.
Loading a picked image works like this. A bounds-only decode reads the image's
native width `w` and height `h`. The display's width and height are the budget.
A loop starts at `sample = 1` and doubles it while `w / sample > displayW ||
h / sample > displayH`. The image is then decoded again with `inSampleSize =
sample`. The result is copied into a new mutable ARGB_8888 bitmap of the same
size, and that copy is the one shown.

This project models that loop and the size of the bitmap it leads to:

- `java_int.dfy` (module `JavaInt`): Java's 32-bit `int` as a newtype, and
  Java's `/`, which truncates toward zero. Dafny's own `/` is Euclidean, and the
  two differ for a negative dividend.
- `sample_size.dfy` (module `SampleSize`): the loop as a pure recursive
  function `ChooseSample`, started at 1 by `Sample`. The proofs show that the
  result is the smallest power of two at which both axes fit the display. They
  also show that it is 1 exactly when the image already fits, that it never
  grows with the display and never shrinks with the image, and that it is at
  most 2^30 for `int` dimensions.
- `loader.dfy` (module `Loader`): `ComputeSample`, the `while` loop itself
  over Java `int`s. It has loop invariants and a termination measure, and it is
  proved equal to `Sample`. Because `sample` is an `int32`, the verifier also
  checks that `sample * 2` never overflows. The module also holds the
  subsampled decode, the mutable copy, and a few worked examples.

Inputs and their ranges:

- `w` and `h` are any Java `int`. This includes -1, which a failed bounds
  probe leaves in `outWidth`/`outHeight`. With -1 the loop exits at
  `sample = 1`, because Java gives `-1 / 1 == -1`, which is not greater than
  the display size.
- `displayW` and `displayH` must be at least 1. They come from the display
  metrics, which are positive, and the code does not check them. Outside that
  range the Java loop still ends, though it can overflow on the way. With a
  negative budget and a side of 0 or more, the guard holds at every power of
  two. After 31 doublings `sample * 2` wraps to `Integer.MIN_VALUE`. Any `int`
  divided by it is 0 or 1, and the guard still holds. The next doubling wraps `sample` to 0, and
  `w / 0` throws `ArithmeticException`, which the catch at line 205 logs.
  With a zero budget and an image side of 2^30 pixels or more, `sample * 2`
  wraps to `Integer.MIN_VALUE` and the loop exits with that negative factor.
- Everything else the loop touches is left out: the content resolver and
  streams, the codec, the canvas, and the watermark paint. Their integer
  outputs become parameters.

Facts about the code that the proofs make precise:

- A 10000 x 10000 image on a 1 x 1 display gets `sample = 8192`. With a codec
  that keeps exactly every 8192nd pixel, rounding down, it is shown at 1 x 1
  (`LargeImageOnTinyDisplay`). The real size is whatever `BitmapFactory`
  returns at line 177, not something the loop decides.
- The loop never leaves either axis above the display (`Fits` in
  `ComputeSample`). With an exact floor codec, the shown bitmap therefore fits
  on both axes, and when the image was downsampled it still spans at least
  half the display on some axis (`ShownFitsDisplay`).
- The code does not check the display size. Here a positive display size is a
  precondition.

## Model

| member | source | states |
|---|---|---|
| JavaInt.Div | src/apps101/Imagen/MainActivity.java:164 | Java's `w / sample` for a positive divisor: the quotient has the dividend's sign (or is 0) and is no further from zero than the dividend |
| JavaInt.DivTruncates | src/apps101/Imagen/MainActivity.java:164 | the quotient times the divisor falls short of the dividend, toward zero, by less than one divisor: Java's truncating division, not Dafny's Euclidean one |
| JavaInt.DivAntitone | src/apps101/Imagen/MainActivity.java:164-165 | for a non-negative dimension, a larger factor never gives a larger quotient, so once an axis fits it keeps fitting as `sample` doubles |
| JavaInt.DivMonotone | src/apps101/Imagen/MainActivity.java:164 | a larger dimension never gives a smaller quotient |
| SampleSize.ChooseSample | src/apps101/Imagen/MainActivity.java:163-166 | the loop run from a factor `s`: it stops at a factor no smaller than `s`, at which both axes fit the display, and it stays on powers of two when started on one |
| SampleSize.Sample | src/apps101/Imagen/MainActivity.java:163-166 | the factor chosen from `sample = 1` is a power of two, and both axes fit the display at it |
| SampleSize.SampleIsLeast | src/apps101/Imagen/MainActivity.java:163-166 | the chosen factor is no larger than any power of two at which both axes fit: it is the smallest such power |
| SampleSize.OverflowingAxisIsLarge | src/apps101/Imagen/MainActivity.java:164-166 | while the guard holds, twice the factor is at most the larger image side, so the larger side minus the factor decreases and the loop terminates |
| SampleSize.ChooseSampleIsLeast | src/apps101/Imagen/MainActivity.java:163-165 | doubling from a power of two stops at or before every power of two that fits |
| SampleSize.SampleIsOneIffImageFits | src/apps101/Imagen/MainActivity.java:163-164 | the factor is 1 if and only if `w <= displayW` and `h <= displayH`: an image that fits is not downsampled, and no image is ever upscaled |
| SampleSize.HalfSampleDoesNotFit | src/apps101/Imagen/MainActivity.java:163-165 | either the factor is 1, or at half of it at least one axis exceeds the display |
| SampleSize.SampleCharacterized | src/apps101/Imagen/MainActivity.java:163-166 | a number is the chosen factor if and only if it is a power of two at which both axes fit and it is 1 or its half does not fit |
| SampleSize.SampleAntitoneInDisplay | src/apps101/Imagen/MainActivity.java:155-166 | enlarging either display dimension never increases the factor |
| SampleSize.SampleMonotoneInImage | src/apps101/Imagen/MainActivity.java:145-166 | enlarging either image dimension never decreases the factor |
| SampleSize.SampleAtMostTwoToThirty | src/apps101/Imagen/MainActivity.java:163-165 | for dimensions that are Java `int`s and a positive display, the factor is at most 2^30 |
| Loader.ComputeSample | src/apps101/Imagen/MainActivity.java:163-166 | the `while` loop over Java `int`s terminates, never overflows `sample * 2`, and returns exactly `Sample`: a power of two between 1 and 2^30 at which both axes fit |
| Loader.DoublingApproachesTarget | src/apps101/Imagen/MainActivity.java:164-165 | one more turn of the loop keeps the eventual result unchanged and doubles the factor without passing it |
| Loader.DecodeSubsampled | src/apps101/Imagen/MainActivity.java:168-177 | with an exact codec, the second decode at `inSampleSize = sample` keeps every `sample`-th pixel per axis: width times sample is at most `w` and exceeds it by less than one sample, and the same for height; the decoded bitmap is immutable |
| Loader.MutableCopy | src/apps101/Imagen/MainActivity.java:188 | the bitmap drawn on and shown is mutable, ARGB_8888, and exactly as wide and tall as the decoded one |
| Loader.ShownFitsDisplay | src/apps101/Imagen/MainActivity.java:163-188 | the shown bitmap fits the display on both axes, and when the image was downsampled it still spans at least half the display on some axis |
| Loader.FailedProbeKeepsEveryPixel | src/apps101/Imagen/MainActivity.java:143-166 | when the bounds probe leaves width and height at -1, the loop keeps `sample = 1` |
| Loader.PhotoOnPortraitDisplay | src/apps101/Imagen/MainActivity.java:163-188 | a 4000 x 3000 image on a 1080 x 1920 display is sampled at 4 and shown at 1000 x 750 |
| Loader.LargeImageOnTinyDisplay | src/apps101/Imagen/MainActivity.java:163-188 | a 10000 x 10000 image on a 1 x 1 display is sampled at 8192 and shown at 1 x 1 |

## Left out

- Activity lifecycle, the click listener, the options menu and the chooser intent (MainActivity.java:54-97): Android UI wiring with no logic of its own.
- The request-code and result-code check, and the URI taken from the intent (MainActivity.java:111-114): OS plumbing, together with the logging and the toast.
- Opening and closing the content streams, and `BitmapFactory.decodeStream` in bounds-only and full mode (MainActivity.java:126-151, 171-178): foreign I/O and codec calls. Only their integer results are modelled. The probe's `outWidth`/`outHeight` are inputs, and the full decode is modelled by `DecodeSubsampled` as an exact floor subsampling.
- Loader.DecodeSubsampled: it assumes an exact codec. The real codec may round differently, may treat `inSampleSize` only as a hint, and may fail.
- Canvas blit, the `TextPaint` watermark, its size and its colour (MainActivity.java:189-196): graphics library calls and floating-point text size.
- `recycle()` of the old and the intermediate bitmap (MainActivity.java:183-185, 198): native resource release with no observable result in the source.
- Setting the image on the `ImageView`, and the catch-all exception handler (MainActivity.java:203-207). This is not modelled. An exception raised at lines 126-177 leaves the previous bitmap intact. An image that cannot be decoded is different: `decodeStream` at line 177 returns null instead of throwing. Lines 183-185 then recycle the old `mBitmap`, and only after that does `bm.getWidth()` at line 188 throw `NullPointerException`. `mBitmap` and the `ImageView` are left holding a recycled bitmap.
- `saveAndShare` (MainActivity.java:212-266): directory creation, JPEG compression at quality 100, the media-scanner broadcast and the share intent. All of it is file I/O and OS calls. The `Imagen_<millis>.jpg` name is a string concatenation over a clock value.
- Display dimensions below 1: the source reads them from the display metrics, which are positive, so such budgets are excluded by precondition. In Java the loop would still end. With a negative budget and a side of 0 or more, `sample` wraps through `Integer.MIN_VALUE` to 0 and `w / 0` throws `ArithmeticException`. With a zero budget, the loop can exit at `sample = Integer.MIN_VALUE`. The model does not cover these overflow paths.
