/** The sample size chosen in `MainActivity.onActivityResult`: starting from 1,
    the factor is doubled while the image, divided by it with Java's integer
    division, is wider or taller than the display.  This module gives the
    choice as a pure function and proves what it means: the smallest power of
    two at which both axes fit the display. */
module SampleSize {
  import opened JavaInt

  /** 1, 2, 4, 8, ... */
  predicate IsPowerOfTwo(n: int)
    decreases n
  {
    n == 1 || (n >= 2 && n % 2 == 0 && IsPowerOfTwo(n / 2))
  }

  /** Sampling by `s` makes a `w` x `h` image fit a `dw` x `dh` display: the
      negation of the loop guard `w / sample > displayW || h / sample > displayH`. */
  predicate Fits(w: int, h: int, dw: int, dh: int, s: int)
    requires s > 0
  {
    Div(w, s) <= dw && Div(h, s) <= dh
  }

  /** 2^k. */
  function Pow2(k: nat): int
  {
    if k == 0 then 1 else 2 * Pow2(k - 1)
  }

  lemma {:induction false} Pow2IsPowerOfTwo(k: nat)
    ensures IsPowerOfTwo(Pow2(k))
  {
    if k > 0 {
      Pow2IsPowerOfTwo(k - 1);
    }
  }

  lemma {:induction false} Pow2Add(a: nat, b: nat)
    ensures Pow2(a + b) == Pow2(a) * Pow2(b)
  {
    if a > 0 {
      Pow2Add(a - 1, b);
    }
  }

  /** The larger of the two native dimensions. */
  function Span(w: int, h: int): int
  {
    if w >= h then w else h
  }

  /** The loop run from a current factor `s`: keep doubling while the image does
      not fit. */
  function ChooseSample(w: int, h: int, dw: int, dh: int, s: int): (r: int)
    requires dw >= 1 && dh >= 1 && s >= 1
    ensures s <= r
    ensures Fits(w, h, dw, dh, r)
    ensures IsPowerOfTwo(s) ==> IsPowerOfTwo(r)
    decreases Span(w, h) - s
  {
    if Fits(w, h, dw, dh, s) then s
    else
      OverflowingAxisIsLarge(w, h, dw, dh, s);
      DoubleIsPowerOfTwo(s);
      ChooseSample(w, h, dw, dh, 2 * s)
  }

  /** The factor the source computes for a `w` x `h` image on a `dw` x `dh`
      display: a power of two at which both axes fit (`SampleIsLeast` shows it
      is the smallest one). */
  function Sample(w: int, h: int, dw: int, dh: int): (r: int)
    requires dw >= 1 && dh >= 1
    ensures IsPowerOfTwo(r)
    ensures Fits(w, h, dw, dh, r)
  {
    ChooseSample(w, h, dw, dh, 1)
  }

  /** No power of two smaller than the chosen factor makes both axes fit. */
  lemma SampleIsLeast(w: int, h: int, dw: int, dh: int, p: int)
    requires dw >= 1 && dh >= 1
    ensures IsPowerOfTwo(p) && Fits(w, h, dw, dh, p) ==> Sample(w, h, dw, dh) <= p
  {
    if IsPowerOfTwo(p) && Fits(w, h, dw, dh, p) {
      PowerOfTwoPositive(p);
      ChooseSampleIsLeast(w, h, dw, dh, 1, p);
    }
  }

  lemma PowerOfTwoPositive(n: int)
    requires IsPowerOfTwo(n)
    ensures n >= 1
  {
  }

  /** While the guard holds, the overflowing axis is at least twice the factor,
      so doubling the factor stays within the image's larger side. */
  lemma OverflowingAxisIsLarge(w: int, h: int, dw: int, dh: int, s: int)
    requires dw >= 1 && dh >= 1 && s >= 1
    requires !Fits(w, h, dw, dh, s)
    ensures 2 * s <= Span(w, h)
  {
    var a := if Div(w, s) > dw then w else h;
    var q := Div(a, s);
    assert q >= 2 && a >= 0;
    DivTruncates(a, s);
    MulNonNegative(q - 2, s);
    assert 2 * s <= q * s;
  }

  /** Of two distinct powers of two, the larger is at least twice the smaller. */
  lemma {:induction false} PowerOfTwoGap(s: int, p: int)
    requires IsPowerOfTwo(s) && IsPowerOfTwo(p) && s < p
    ensures 2 * s <= p
    decreases p
  {
    PowerOfTwoPositive(s);
    if s > 1 {
      PowerOfTwoPositive(s / 2);
      PowerOfTwoGap(s / 2, p / 2);
    }
  }

  /** Doubling keeps a power of two a power of two. */
  lemma DoubleIsPowerOfTwo(n: int)
    ensures IsPowerOfTwo(n) ==> IsPowerOfTwo(2 * n)
  {
    if IsPowerOfTwo(n) {
      assert (2 * n) / 2 == n;
    }
  }

  /** Halving a power of two above 1 gives a power of two. */
  lemma HalfIsPowerOfTwo(n: int)
    requires IsPowerOfTwo(n) && n > 1
    ensures IsPowerOfTwo(n / 2) && 2 * (n / 2) == n
  {
  }

  /** A coarser factor keeps an image that already fits within the display. */
  lemma FitsUpward(w: int, h: int, dw: int, dh: int, p: int, q: int)
    requires dw >= 1 && dh >= 1 && 0 < p <= q
    requires Fits(w, h, dw, dh, p)
    ensures Fits(w, h, dw, dh, q)
  {
    if w >= 0 {
      DivAntitone(w, p, q);
    }
    if h >= 0 {
      DivAntitone(h, p, q);
    }
  }

  /** The loop started at a power of two stops at or before every power of two
      that fits. */
  lemma {:induction false} ChooseSampleIsLeast(w: int, h: int, dw: int, dh: int, s: int, p: int)
    requires dw >= 1 && dh >= 1
    requires IsPowerOfTwo(s) && IsPowerOfTwo(p) && s <= p
    requires Fits(w, h, dw, dh, p)
    ensures ChooseSample(w, h, dw, dh, s) <= p
    decreases p - s
  {
    PowerOfTwoPositive(s);
    if !Fits(w, h, dw, dh, s) {
      PowerOfTwoGap(s, p);
      ChooseSampleIsLeast(w, h, dw, dh, 2 * s, p);
    }
  }

  /** The chosen factor is exactly 1 when the image already fits: no
      downsampling then, and never an upscale. */
  lemma SampleIsOneIffImageFits(w: int, h: int, dw: int, dh: int)
    requires dw >= 1 && dh >= 1
    ensures Sample(w, h, dw, dh) == 1 <==> w <= dw && h <= dh
  {
    assert Div(w, 1) == w && Div(h, 1) == h;
    SampleIsLeast(w, h, dw, dh, 1);
  }

  /** Halving the chosen factor, when it is above 1, overflows the display on
      at least one axis. */
  lemma HalfSampleDoesNotFit(w: int, h: int, dw: int, dh: int)
    requires dw >= 1 && dh >= 1
    ensures var r := Sample(w, h, dw, dh);
      r == 1 || (r / 2 >= 1 && (Div(w, r / 2) > dw || Div(h, r / 2) > dh))
  {
    var r := Sample(w, h, dw, dh);
    PowerOfTwoPositive(r);
    if r > 1 {
      HalfIsPowerOfTwo(r);
      SampleIsLeast(w, h, dw, dh, r / 2);
    }
  }

  /** The chosen factor is the one and only power of two that fits while its
      half (if any) does not. */
  lemma SampleCharacterized(w: int, h: int, dw: int, dh: int, p: int)
    requires dw >= 1 && dh >= 1
    ensures p == Sample(w, h, dw, dh) <==>
      && IsPowerOfTwo(p)
      && Fits(w, h, dw, dh, p)
      && (p == 1 || (p / 2 >= 1 && !Fits(w, h, dw, dh, p / 2)))
  {
    var r := Sample(w, h, dw, dh);
    if p == r {
      HalfSampleDoesNotFit(w, h, dw, dh);
    } else if IsPowerOfTwo(p) && Fits(w, h, dw, dh, p) && p != 1 {
      SampleIsLeast(w, h, dw, dh, p);
      // r < p, so r fits at a factor no greater than p / 2, and so does p / 2
      PowerOfTwoPositive(r);
      PowerOfTwoGap(r, p);
      HalfIsPowerOfTwo(p);
      FitsUpward(w, h, dw, dh, r, p / 2);
    }
  }

  /** A larger display never calls for a larger factor. */
  lemma SampleAntitoneInDisplay(w: int, h: int, dw: int, dh: int, dw': int, dh': int)
    requires 1 <= dw <= dw' && 1 <= dh <= dh'
    ensures Sample(w, h, dw', dh') <= Sample(w, h, dw, dh)
  {
    var r := Sample(w, h, dw, dh);
    assert Fits(w, h, dw', dh', r);
    SampleIsLeast(w, h, dw', dh', r);
  }

  /** A larger image never calls for a smaller factor. */
  lemma SampleMonotoneInImage(w: int, h: int, w': int, h': int, dw: int, dh: int)
    requires w <= w' && h <= h' && dw >= 1 && dh >= 1
    ensures Sample(w, h, dw, dh) <= Sample(w', h', dw, dh)
  {
    var r' := Sample(w', h', dw, dh);
    PowerOfTwoPositive(r');
    DivMonotone(w, w', r');
    DivMonotone(h, h', r');
    assert Fits(w, h, dw, dh, r');
    SampleIsLeast(w, h, dw, dh, r');
  }

  /** For dimensions that are Java `int` values the factor is at most 2^30, so
      the doubling `sample * 2` never leaves the `int` range. */
  lemma SampleAtMostTwoToThirty(w: int, h: int, dw: int, dh: int)
    requires w <= MaxInt && h <= MaxInt && dw >= 1 && dh >= 1
    ensures Sample(w, h, dw, dh) <= 0x4000_0000
  {
    var top := 0x4000_0000;
    assert Pow2(10) == 1024;
    Pow2Add(10, 10);
    Pow2Add(20, 10);
    Pow2IsPowerOfTwo(30);
    if w >= 0 {
      DivMonotone(w, MaxInt, top);
    }
    if h >= 0 {
      DivMonotone(h, MaxInt, top);
    }
    assert Fits(w, h, dw, dh, top);
    SampleIsLeast(w, h, dw, dh, top);
  }
}
