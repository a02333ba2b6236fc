/**
 * Background normalisation: a bright background estimated by a polynomial fit
 * is divided out of the image, and the ratio is rescaled to [0, 255].
 *
 * The pixel arithmetic runs in double precision in the source. Values here are
 * exact reals, except that a zero background keeps its IEEE 754 outcome
 * (an infinite or NaN quotient), so that the normaliser is total.
 */
module Normalization {
  import opened Wrappers
  import opened Grids
  import opened Monomials
  import opened Surface
  import opened Polynomial

  /** The fixed parameters of the one-channel normalisation. */
  const FitDegree: int := 2
  const FitSamplingStep: nat := 4
  const Lower: real := 0.0
  const Upper: real := 1.0

  // ---------------------------------------------------------------------------
  // One pixel.
  // ---------------------------------------------------------------------------

  /** A double-precision value: finite, one of the two infinities, or NaN. */
  datatype Extended = Finite(r: real) | PosInf | NegInf | NaN

  /** Java's (int) cast of a finite double in int range: truncation toward zero. */
  function TruncateToInt(x: real): (t: int)
    ensures x >= 0.0 ==> t as real <= x < t as real + 1.0
    ensures x <= 0.0 ==> t as real - 1.0 < x <= t as real
  {
    if x >= 0.0 then x.Floor else -((-x).Floor)
  }

  /** max(min(r, 255), 0), as the source bounds the rescaled ratio. */
  function Clamp(r: real): (c: real)
    ensures 0.0 <= c <= 255.0
    ensures 0.0 <= r <= 255.0 ==> c == r
    ensures r > 255.0 ==> c == 255.0
    ensures r < 0.0 ==> c == 0.0
  {
    var m := if r < 255.0 then r else 255.0;
    if m > 0.0 then m else 0.0
  }

  /**
   * Clamping to [0, 255] then casting to int. An infinity saturates to its bound;
   * NaN survives both min and max and then casts to 0.
   */
  function Saturate(e: Extended): (v: int)
    ensures 0 <= v <= 255
    ensures e.Finite? && e.r >= 255.0 ==> v == 255
    ensures e.Finite? && e.r <= 0.0 ==> v == 0
  {
    match e
    case Finite(r) => TruncateToInt(Clamp(r))
    case PosInf => 255
    case NegInf => 0
    case NaN => 0
  }

  /** The quotient of an image value by a background value. */
  function Quotient(v1: real, v2: real): Extended
  {
    if v2 != 0.0 then Finite(v1 / v2)
    else if v1 > 0.0 then PosInf
    else if v1 < 0.0 then NegInf
    else NaN
  }

  /**
   * 255 * (q - lower) / (upper - lower). When upper == lower the extent is +0.0,
   * so a non-zero numerator becomes an infinity of its own sign and a zero one NaN.
   */
  function Rescale(q: Extended, lower: real, upper: real): Extended
  {
    var extent := upper - lower;
    match q
    case Finite(r) =>
      var num := 255.0 * (r - lower);
      if extent != 0.0 then Finite(num / extent)
      else if num > 0.0 then PosInf
      else if num < 0.0 then NegInf
      else NaN
    case PosInf => if extent >= 0.0 then PosInf else NegInf
    case NegInf => if extent >= 0.0 then NegInf else PosInf
    case NaN => NaN
  }

  /** The grey level a finite ratio image/background is mapped to. */
  function ScaleRatio(q: real, lower: real, upper: real): (v: int)
    ensures 0 <= v <= 255
  {
    Saturate(Rescale(Finite(q), lower, upper))
  }

  /** The normalised value of one pixel, given its background estimate. */
  function PixelValue(v1: UInt8, v2: real, lower: real, upper: real): (v: UInt8)
    ensures v2 != 0.0 ==> v == ScaleRatio(v1 as real / v2, lower, upper)
  {
    Saturate(Rescale(Quotient(v1 as real, v2), lower, upper))
  }

  /** a <= b stays true when both sides are divided by the same positive number. */
  lemma DivideMonotone(a: real, b: real, e: real)
    requires a <= b && e > 0.0
    ensures a / e <= b / e
  {
    assert b / e - a / e == (b - a) / e;
  }

  /** Multiplying then dividing by the same non-zero number gives the value back. */
  lemma ScaledBack(k: real, e: real)
    requires e != 0.0
    ensures k * e / e == k
  {
  }

  /** The ratio equal to the upper bound is mapped to 255. */
  lemma ScaleAtUpper(lower: real, upper: real)
    requires lower != upper
    ensures ScaleRatio(upper, lower, upper) == 255
  {
    ScaledBack(255.0, upper - lower);
  }

  /** With upper > lower, a ratio at or below the lower bound is mapped to 0. */
  lemma ScaleBelowLower(q: real, lower: real, upper: real)
    requires upper > lower && q <= lower
    ensures ScaleRatio(q, lower, upper) == 0
  {
    DivideMonotone(255.0 * (q - lower), 0.0, upper - lower);
  }

  /** With upper > lower, a ratio at or above the upper bound is mapped to 255. */
  lemma ScaleAboveUpper(q: real, lower: real, upper: real)
    requires upper > lower && q >= upper
    ensures ScaleRatio(q, lower, upper) == 255
  {
    var extent := upper - lower;
    DivideMonotone(255.0 * extent, 255.0 * (q - lower), extent);
    ScaledBack(255.0, extent);
  }

  /** Truncation of values in [0, 255] never decreases as the value grows. */
  lemma TruncateMonotone(a: real, b: real)
    requires 0.0 <= a <= b
    ensures TruncateToInt(a) <= TruncateToInt(b)
  {
  }

  /** With upper > lower, the grey level is non-decreasing in the ratio. */
  lemma ScaleMonotone(q1: real, q2: real, lower: real, upper: real)
    requires upper > lower && q1 <= q2
    ensures ScaleRatio(q1, lower, upper) <= ScaleRatio(q2, lower, upper)
  {
    var extent := upper - lower;
    var s1, s2 := 255.0 * (q1 - lower) / extent, 255.0 * (q2 - lower) / extent;
    DivideMonotone(255.0 * (q1 - lower), 255.0 * (q2 - lower), extent);
    assert Clamp(s1) <= Clamp(s2);
    TruncateMonotone(Clamp(s1), Clamp(s2));
  }

  /** With upper < lower the scale is reversed: the grey level is non-increasing in the ratio. */
  lemma ScaleAntitone(q1: real, q2: real, lower: real, upper: real)
    requires upper < lower && q1 <= q2
    ensures ScaleRatio(q1, lower, upper) >= ScaleRatio(q2, lower, upper)
  {
    var extent := upper - lower;
    var s1, s2 := 255.0 * (q1 - lower) / extent, 255.0 * (q2 - lower) / extent;
    DivideMonotone(255.0 * (lower - q2), 255.0 * (lower - q1), -extent);
    assert s1 == 255.0 * (lower - q1) / -extent;
    assert s2 == 255.0 * (lower - q2) / -extent;
    assert Clamp(s2) <= Clamp(s1);
    TruncateMonotone(Clamp(s2), Clamp(s1));
  }

  /**
   * Between the bounds, the grey level is the rescaled ratio rounded down:
   * it lies within one grey level below the exact value.
   */
  lemma ScaleWithinBounds(q: real, lower: real, upper: real)
    requires lower <= q <= upper && lower < upper
    ensures var s := 255.0 * (q - lower) / (upper - lower);
            ScaleRatio(q, lower, upper) as real <= s < ScaleRatio(q, lower, upper) as real + 1.0
  {
    var extent := upper - lower;
    var s := 255.0 * (q - lower) / extent;
    DivideMonotone(0.0, 255.0 * (q - lower), extent);
    DivideMonotone(255.0 * (q - lower), 255.0 * extent, extent);
    ScaledBack(255.0, extent);
    assert Clamp(s) == s;
  }

  /**
   * Equal bounds leave no extent to divide by: ratios above the bound saturate
   * to 255, ratios below it to 0, and the bound itself gives NaN, hence 0.
   */
  lemma ScaleDegenerate(q: real, bound: real)
    ensures ScaleRatio(q, bound, bound) == (if q > bound then 255 else 0)
  {
    if q > bound {
      assert 255.0 * (q - bound) > 0.0;
    } else if q < bound {
      assert 255.0 * (q - bound) < 0.0;
    }
  }

  /**
   * A zero background divides a positive value into +infinity, which saturates
   * to 255 unless the bounds are reversed; 0 / 0 is NaN, which casts to 0.
   */
  lemma ZeroBackground(v1: UInt8, lower: real, upper: real)
    ensures PixelValue(v1, 0.0, lower, upper) == (if v1 > 0 && upper >= lower then 255 else 0)
  {
  }

  /** A pixel as bright as its background is mapped to 255 under the fixed bounds 0 and 1. */
  lemma BackgroundPixelIsWhite(v1: UInt8, v2: real)
    requires v2 != 0.0 && v1 as real == v2
    ensures PixelValue(v1, v2, Lower, Upper) == 255
  {
    ScaledBack(1.0, v2);
    assert v1 as real / v2 == Upper;
    ScaleAtUpper(Lower, Upper);
  }

  // ---------------------------------------------------------------------------
  // Whole images.
  // ---------------------------------------------------------------------------

  /** The image divided pixel by pixel by the background and rescaled. */
  function NormalizedGrid(image: Grid<UInt8>, bg: Grid<real>, w: nat, h: nat, lower: real, upper: real)
    : (r: Grid<UInt8>)
    requires Covers(image, w, h) && Covers(bg, w, h)
    ensures |r| == w && Covers(r, w, h)
    ensures forall x :: 0 <= x < w ==> |r[x]| == h
  {
    seq(w, x requires 0 <= x < w =>
      seq(h, y requires 0 <= y < h => PixelValue(image[x][y], bg[x][y], lower, upper)))
  }

  /**
   * An image normalised by itself under the fixed bounds: every lit pixel
   * becomes 255, every black pixel (0 / 0, NaN) becomes 0.
   */
  lemma SelfNormalization(image: Grid<UInt8>, bg: Grid<real>, w: nat, h: nat)
    requires Covers(image, w, h) && Covers(bg, w, h)
    requires forall x, y :: 0 <= x < w && 0 <= y < h ==> bg[x][y] == image[x][y] as real
    ensures forall x, y :: 0 <= x < w && 0 <= y < h ==>
              NormalizedGrid(image, bg, w, h, Lower, Upper)[x][y] == (if image[x][y] > 0 then 255 else 0)
  {
    forall x, y | 0 <= x < w && 0 <= y < h
      ensures NormalizedGrid(image, bg, w, h, Lower, Upper)[x][y] == (if image[x][y] > 0 then 255 else 0)
    {
      if image[x][y] > 0 {
        BackgroundPixelIsWhite(image[x][y], bg[x][y]);
      } else {
        ZeroBackground(image[x][y], Lower, Upper);
      }
    }
  }

  /**
   * The one-channel normalisation: a degree-2 fit on every fourth row and
   * column, then the ratio to that background rescaled with bounds 0 and 1.
   * None when the fit fails.
   */
  function NormalizedUInt8(image: Grid<UInt8>, mask: Grid<bool>, w: nat, h: nat, solve: Solver)
    : Option<Grid<UInt8>>
    requires Covers(image, w, h) && Covers(mask, w, h)
  {
    match FittedBackground(image, mask, w, h, FitDegree, FitSamplingStep, solve)
    case None => None
    case Some(bg) => Some(NormalizedGrid(image, bg, w, h, Lower, Upper))
  }

  /**
   * Divides the image by the background estimate and rescales the ratio so
   * that lower maps to 0 and upper to 255, into a new array of the image's size.
   */
  method NormalizeBrightBackground(image: array2<UInt8>, bgImage: array2<real>, lower: real, upper: real)
    returns (result: array2<UInt8>)
    requires bgImage.Length0 >= image.Length0 && bgImage.Length1 >= image.Length1
    ensures fresh(result)
    ensures result.Length0 == image.Length0 && result.Length1 == image.Length1
    ensures Cells(result) == NormalizedGrid(Cells(image), Cells(bgImage), image.Length0, image.Length1, lower, upper)
  {
    var sizeX, sizeY := image.Length0, image.Length1;
    result := new UInt8[sizeX, sizeY]((_, _) => 0);
    ghost var target := NormalizedGrid(Cells(image), Cells(bgImage), sizeX, sizeY, lower, upper);
    var x := 0;
    while x < sizeX
      invariant 0 <= x <= sizeX
      invariant forall x', y :: 0 <= x' < x && 0 <= y < sizeY ==> result[x', y] == target[x'][y]
    {
      NormalizeColumn(image, bgImage, result, x, lower, upper);
      x := x + 1;
    }
    assert Cells(result) == target by {
      forall x | 0 <= x < sizeX ensures Cells(result)[x] == target[x] {
      }
    }
  }

  /** Writes column x of the result: the normalised value of each of its pixels; other columns are left alone. */
  method NormalizeColumn(image: array2<UInt8>, bgImage: array2<real>, result: array2<UInt8>, x: nat,
                         lower: real, upper: real)
    requires bgImage.Length0 >= image.Length0 && bgImage.Length1 >= image.Length1
    requires result.Length0 == image.Length0 && result.Length1 == image.Length1 && x < image.Length0
    requires result != image
    modifies result
    ensures forall x', y :: 0 <= x' < result.Length0 && 0 <= y < result.Length1 ==>
              result[x', y] == if x' == x then PixelValue(image[x, y], bgImage[x, y], lower, upper)
                               else old(result[x', y])
  {
    var y := 0;
    while y < image.Length1
      invariant 0 <= y <= image.Length1
      invariant forall x', y' :: 0 <= x' < result.Length0 && 0 <= y' < result.Length1 ==>
                  result[x', y'] == if x' == x && y' < y then PixelValue(image[x, y'], bgImage[x, y'], lower, upper)
                                    else old(result[x', y'])
    {
      var val1 := image[x, y];
      var val2 := bgImage[x, y];
      result[x, y] := PixelValue(val1, val2, lower, upper);
      y := y + 1;
    }
  }

  /** Fits a polynomial background of the given degree; None when the fit fails. */
  method FitBackground(image: array2<UInt8>, mask: array2<bool>, maxDegree: int, samplingStep: nat, solve: Solver)
    returns (bg: Option<array2<real>>)
    requires samplingStep >= 1
    requires mask.Length0 >= image.Length0 && mask.Length1 >= image.Length1
    ensures bg.Some? == FittedBackground(Cells(image), Cells(mask), image.Length0, image.Length1,
                                         maxDegree, samplingStep, solve).Some?
    ensures bg.Some? ==>
              && fresh(bg.value)
              && bg.value.Length0 == image.Length0 && bg.value.Length1 == image.Length1
              && Some(Cells(bg.value)) == FittedBackground(Cells(image), Cells(mask), image.Length0,
                                                           image.Length1, maxDegree, samplingStep, solve)
  {
    var pbg := new PolynomialBackground(maxDegree);
    bg := pbg.FitBackground(image, mask, samplingStep, solve);
  }

  /**
   * Normalises one channel. The degree is fixed at 2, whatever maxDegree is:
   * the result is NormalizedUInt8, which does not depend on it.
   */
  method NormalizeBackgroundUInt8(image: array2<UInt8>, mask: array2<bool>, maxDegree: int, solve: Solver)
    returns (result: Option<array2<UInt8>>)
    requires mask.Length0 >= image.Length0 && mask.Length1 >= image.Length1
    ensures result.Some? == NormalizedUInt8(Cells(image), Cells(mask), image.Length0, image.Length1, solve).Some?
    ensures result.Some? ==>
              && fresh(result.value)
              && result.value.Length0 == image.Length0 && result.value.Length1 == image.Length1
              && Some(Cells(result.value)) == NormalizedUInt8(Cells(image), Cells(mask), image.Length0,
                                                              image.Length1, solve)
  {
    var bgFit := FitBackground(image, mask, FitDegree, FitSamplingStep, solve);
    if bgFit.None? {
      return None;
    }
    var normalized := NormalizeBrightBackground(image, bgFit.value, Lower, Upper);
    return Some(normalized);
  }

  /** A copy of channel c of a colour image. */
  method Channel(image: array3<UInt8>, c: nat) returns (channel: array2<UInt8>)
    requires c < image.Length2
    ensures fresh(channel)
    ensures channel.Length0 == image.Length0 && channel.Length1 == image.Length1
    ensures Cells(channel) == ChannelCells(image, c)
  {
    channel := new UInt8[image.Length0, image.Length1]((x, y) reads image =>
      if 0 <= x < image.Length0 && 0 <= y < image.Length1 then image[x, y, c] else 0);
    assert Cells(channel) == ChannelCells(image, c) by {
      forall x | 0 <= x < image.Length0 ensures Cells(channel)[x] == ChannelCells(image, c)[x] {
      }
    }
  }

  /** Overwrites channel c of a colour image; the other channels keep their values. */
  method SetChannel(image: array3<UInt8>, c: nat, channel: array2<UInt8>)
    requires c < image.Length2
    requires channel.Length0 == image.Length0 && channel.Length1 == image.Length1
    modifies image
    ensures forall x, y, k :: 0 <= x < image.Length0 && 0 <= y < image.Length1 && 0 <= k < image.Length2 ==>
              image[x, y, k] == (if k == c then channel[x, y] else old(image[x, y, k]))
  {
    var x := 0;
    while x < image.Length0
      invariant 0 <= x <= image.Length0
      invariant forall x', y, k :: 0 <= x' < image.Length0 && 0 <= y < image.Length1 && 0 <= k < image.Length2 ==>
                  image[x', y, k] == (if k == c && x' < x then channel[x', y] else old(image[x', y, k]))
    {
      var y := 0;
      while y < image.Length1
        invariant 0 <= y <= image.Length1
        invariant forall x', y', k :: 0 <= x' < image.Length0 && 0 <= y' < image.Length1 && 0 <= k < image.Length2 ==>
                    image[x', y', k] == (if k == c && (x' < x || (x' == x && y' < y)) then channel[x', y']
                                         else old(image[x', y', k]))
      {
        image[x, y, c] := channel[x, y];
        y := y + 1;
      }
      x := x + 1;
    }
  }

  /**
   * Normalises channel c of a colour image into channel c of res; the other
   * channels of res keep their values. `false` when the channel's fit fails.
   */
  method NormalizeChannel(image: array3<UInt8>, c: nat, mask: array2<bool>, maxDegree: int, solve: Solver,
                          res: array3<UInt8>)
    returns (ok: bool)
    requires c < image.Length2 == res.Length2
    requires res.Length0 == image.Length0 && res.Length1 == image.Length1
    requires mask.Length0 >= image.Length0 && mask.Length1 >= image.Length1
    requires res != image
    modifies res
    ensures ok == NormalizedUInt8(ChannelCells(image, c), Cells(mask), image.Length0, image.Length1, solve).Some?
    ensures ok ==> Some(ChannelCells(res, c))
                   == NormalizedUInt8(ChannelCells(image, c), Cells(mask), image.Length0, image.Length1, solve)
    ensures forall k :: 0 <= k < res.Length2 && k != c ==> ChannelCells(res, k) == old(ChannelCells(res, k))
  {
    var channel := Channel(image, c);
    var normalized := NormalizeBackgroundUInt8(channel, mask, maxDegree, solve);
    if normalized.None? {
      return false;
    }
    SetChannel(res, c, normalized.value);
    assert ChannelCells(res, c) == Cells(normalized.value) by {
      forall x | 0 <= x < res.Length0 ensures ChannelCells(res, c)[x] == Cells(normalized.value)[x] {
      }
    }
    forall k | 0 <= k < res.Length2 && k != c ensures ChannelCells(res, k) == old(ChannelCells(res, k)) {
      forall x | 0 <= x < res.Length0 ensures ChannelCells(res, k)[x] == old(ChannelCells(res, k))[x] {
      }
    }
    return true;
  }

  /**
   * Normalises each of the three channels of a colour image on its own, with
   * the shared mask; None as soon as one channel's fit fails.
   */
  method NormalizeBackgroundRGB8(image: array3<UInt8>, mask: array2<bool>, maxDegree: int, solve: Solver)
    returns (result: Option<array3<UInt8>>)
    requires image.Length2 == 3
    requires mask.Length0 >= image.Length0 && mask.Length1 >= image.Length1
    ensures result.Some? <==> forall c :: 0 <= c < 3 ==>
              NormalizedUInt8(ChannelCells(image, c), Cells(mask), image.Length0, image.Length1, solve).Some?
    ensures result.Some? ==>
              && fresh(result.value)
              && result.value.Length0 == image.Length0 && result.value.Length1 == image.Length1
              && result.value.Length2 == 3
              && forall c :: 0 <= c < 3 ==>
                   Some(ChannelCells(result.value, c))
                   == NormalizedUInt8(ChannelCells(image, c), Cells(mask), image.Length0, image.Length1, solve)
  {
    var res := new UInt8[image.Length0, image.Length1, 3]((_, _, _) => 0);
    var c := 0;
    while c < 3
      modifies res
      invariant 0 <= c <= 3
      invariant forall k :: 0 <= k < c ==>
                  Some(ChannelCells(res, k))
                  == NormalizedUInt8(ChannelCells(image, k), Cells(mask), image.Length0, image.Length1, solve)
    {
      var ok := NormalizeChannel(image, c, mask, maxDegree, solve, res);
      if !ok {
        return None;
      }
      c := c + 1;
    }
    return Some(res);
  }

  // ---------------------------------------------------------------------------
  // Dispatch on the array type.
  // ---------------------------------------------------------------------------

  /** An image array: grey levels, three-channel colour, or any other array class. */
  datatype ImageArray =
    | UInt8Array(gray: array2<UInt8>)
    | RGB8Array(rgb: array3<UInt8>)
    | OtherArray(className: string)

  /** Why a normalisation gives no image. */
  datatype Error =
    | IllegalArgument(message: string)
    | FitFailed

  const UnsupportedClassMessage: string := "Unable to handle array with class: "

  /**
   * Normalises a grey-level or colour image by its fitted background; any
   * other array class is rejected with an illegal-argument error naming it.
   */
  method NormalizeBackground(image: ImageArray, mask: array2<bool>, maxDegree: int, solve: Solver)
    returns (result: Result<ImageArray, Error>)
    requires image.UInt8Array? ==> mask.Length0 >= image.gray.Length0 && mask.Length1 >= image.gray.Length1
    requires image.RGB8Array? ==>
               image.rgb.Length2 == 3 && mask.Length0 >= image.rgb.Length0 && mask.Length1 >= image.rgb.Length1
    ensures image.OtherArray? ==> result == Failure(IllegalArgument(UnsupportedClassMessage + image.className))
    ensures result.Failure? && !image.OtherArray? ==> result.error == FitFailed
    ensures image.UInt8Array? ==>
              var n := NormalizedUInt8(Cells(image.gray), Cells(mask), image.gray.Length0, image.gray.Length1, solve);
              && (result.Success? <==> n.Some?)
              && (result.Success? ==> result.value.UInt8Array? && fresh(result.value.gray)
                                      && Some(Cells(result.value.gray)) == n)
    ensures image.RGB8Array? ==>
              && (result.Success? <==> forall c :: 0 <= c < 3 ==>
                    NormalizedUInt8(ChannelCells(image.rgb, c), Cells(mask), image.rgb.Length0, image.rgb.Length1,
                                    solve).Some?)
              && (result.Success? ==>
                    && result.value.RGB8Array? && fresh(result.value.rgb)
                    && result.value.rgb.Length0 == image.rgb.Length0
                    && result.value.rgb.Length1 == image.rgb.Length1
                    && result.value.rgb.Length2 == 3
                    && forall c :: 0 <= c < 3 ==>
                         Some(ChannelCells(result.value.rgb, c))
                         == NormalizedUInt8(ChannelCells(image.rgb, c), Cells(mask), image.rgb.Length0,
                                            image.rgb.Length1, solve))
  {
    match image
    case UInt8Array(gray) =>
      var r := NormalizeBackgroundUInt8(gray, mask, maxDegree, solve);
      result := if r.Some? then Success(UInt8Array(r.value)) else Failure(FitFailed);
    case RGB8Array(rgb) =>
      var r := NormalizeBackgroundRGB8(rgb, mask, maxDegree, solve);
      result := if r.Some? then Success(RGB8Array(r.value)) else Failure(FitFailed);
    case OtherArray(className) =>
      result := Failure(IllegalArgument(UnsupportedClassMessage + className));
  }
}
