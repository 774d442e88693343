/**
 * The reveal transforms: how a progress value in [0, 1] becomes the parameters of a
 * Gaussian blur (sigma and an odd kernel size) or of a centre-preserving zoom (an
 * affine matrix), and how the hybrid mode chains the two.
 *
 * The pixel work itself (OpenCV's GaussianBlur and warpAffine) is not modelled: an
 * image is a term that records which filter produced it from which source image and
 * with which parameters, so the contracts below are about exactly those parameters.
 * `image.copy()` returns an equal image, so it is modelled as returning the image.
 */
module ImageProcessor {
  import opened Wrappers

  /** An affine map x' = a*x + b*y + tx, y' = c*x + d*y + ty (OpenCV's 2x3 matrix). */
  datatype Affine = Affine(a: real, b: real, tx: real, c: real, d: real, ty: real)

  /** A 3-channel image: decoded from a file, or the output of one library filter. */
  datatype Image =
    | Decoded(width: nat, height: nat, rgb: seq<bv8>)
      /** cv2.GaussianBlur(source, (ksize, ksize), sigma) */
    | GaussianBlurred(source: Image, ksize: int, sigma: real)
      /** cv2.warpAffine(source, matrix, (outWidth, outHeight)), cubic, black border */
    | WarpedAffine(source: Image, matrix: Affine, outWidth: nat, outHeight: nat)

  /** Columns of an image (`image.shape[1]`); a blur keeps the size of its source. */
  function Width(image: Image): nat {
    match image
    case Decoded(w, _, _) => w
    case GaussianBlurred(src, _, _) => Width(src)
    case WarpedAffine(_, _, w, _) => w
  }

  /** Rows of an image (`image.shape[0]`). */
  function Height(image: Image): nat {
    match image
    case Decoded(_, h, _) => h
    case GaussianBlurred(src, _, _) => Height(src)
    case WarpedAffine(_, _, _, h) => h
  }

  /** Both images exist and have the same size, or neither exists. */
  predicate SameSize(x: Option<Image>, y: Option<Image>) {
    x.None? == y.None? && (x.Some? ==> Width(x.value) == Width(y.value) && Height(x.value) == Height(y.value))
  }

  /** Blur strength at progress 0. */
  const MaxSigma: real := 30.0
  /** At or below this sigma the image counts as converged and is not filtered. */
  const ConvergedSigma: real := 0.1
  /** Fraction of each side that stays visible at progress 0 (1/8). */
  const MinRatio: real := 0.125
  /** How much faster the blur clears than the zoom in hybrid mode. */
  const HybridBlurSpeedup: real := 1.25

  /** `max(0.0, min(1.0, p))`. */
  function Clamp01(p: real): (q: real)
    ensures 0.0 <= q <= 1.0
    ensures 0.0 <= p <= 1.0 ==> q == p
    ensures p < 0.0 ==> q == 0.0
    ensures p > 1.0 ==> q == 1.0
  {
    if p > 1.0 then 1.0 else if p < 0.0 then 0.0 else p
  }

  // ---- blur ----------------------------------------------------------------

  /** The blur's standard deviation: 30 at progress 0 (or less), 0 at progress 1 (or more). */
  function BlurSigma(progress: real): (sigma: real)
    ensures 0.0 <= sigma <= MaxSigma
    ensures progress <= 0.0 ==> sigma == MaxSigma
    ensures progress >= 1.0 ==> sigma == 0.0
    ensures 0.0 <= progress <= 1.0 ==> sigma + MaxSigma * progress == MaxSigma
  {
    MaxSigma * (1.0 - Clamp01(progress))
  }

  /** More progress never means more blur. */
  lemma BlurSigmaAntitone(p1: real, p2: real)
    requires p1 <= p2
    ensures BlurSigma(p1) >= BlurSigma(p2)
  {
  }

  /** Inside [0, 1] the blur strictly weakens as progress grows. */
  lemma BlurSigmaStrictlyDecreasing(p1: real, p2: real)
    requires 0.0 <= p1 < p2 <= 1.0
    ensures BlurSigma(p1) > BlurSigma(p2)
  {
  }

  /** The square kernel side `int(sigma * 6) + 1`, bumped to the next odd number when even.
      It is odd, covers more than three sigmas on each side of the centre, and is at most
      181 for every sigma the blur can produce. */
  function KernelSize(sigma: real): (ksize: int)
    requires sigma > ConvergedSigma
    ensures ksize >= 1 && ksize % 2 == 1
    ensures 6.0 * sigma < ksize as real <= 6.0 * sigma + 2.0
    ensures sigma <= MaxSigma ==> ksize <= 181
  {
    // int() truncates towards zero, which is the floor for a positive argument.
    var k := (sigma * 6.0).Floor + 1;
    if k % 2 == 0 then k + 1 else k
  }

  /** `apply_blur`: no image gives no image; a converged sigma (every progress of at least
      1 among them) gives the image unchanged; otherwise the image is blurred with the
      sigma of the clamped progress and the matching odd kernel. */
  function ApplyBlur(image: Option<Image>, progress: real): (r: Option<Image>)
    ensures SameSize(image, r)
    ensures image.Some? && BlurSigma(progress) <= ConvergedSigma ==> r == image
    ensures progress >= 1.0 ==> r == image
    ensures image.Some? && BlurSigma(progress) > ConvergedSigma ==>
      r == Some(GaussianBlurred(image.value, KernelSize(BlurSigma(progress)), BlurSigma(progress)))
  {
    if image.None? then None
    else
      var sigma := BlurSigma(progress);
      if sigma <= ConvergedSigma then image
      else Some(GaussianBlurred(image.value, KernelSize(sigma), sigma))
  }

  // ---- zoom ----------------------------------------------------------------

  /** The visible fraction of each side: 1/8 at progress 0, growing linearly to 1. */
  function ZoomRatio(progress: real): (ratio: real)
    ensures MinRatio <= ratio <= 1.0
    ensures progress <= 0.0 ==> ratio == MinRatio
    ensures progress >= 1.0 ==> ratio == 1.0
    ensures 0.0 <= progress <= 1.0 ==> ratio == MinRatio + (1.0 - MinRatio) * progress
  {
    MinRatio + (1.0 - MinRatio) * Clamp01(progress)
  }

  /** More progress never shows less of the image. */
  lemma ZoomRatioMonotone(p1: real, p2: real)
    requires p1 <= p2
    ensures ZoomRatio(p1) <= ZoomRatio(p2)
  {
  }

  /** The magnification `1 / ratio`, between 1 and 8. */
  function ZoomScale(progress: real): (scale: real)
    ensures 1.0 <= scale <= 8.0
    ensures scale * ZoomRatio(progress) == 1.0
  {
    var ratio := ZoomRatio(progress);
    assert ratio * 8.0 >= 1.0;
    1.0 / ratio
  }

  /** First coordinate of the image of (x, y) under `m`. */
  function MapX(m: Affine, x: real, y: real): real {
    m.a * x + m.b * y + m.tx
  }

  /** Second coordinate of the image of (x, y) under `m`. */
  function MapY(m: Affine, x: real, y: real): real {
    m.c * x + m.d * y + m.ty
  }

  const Identity: Affine := Affine(1.0, 0.0, 0.0, 0.0, 1.0, 0.0)

  /** The zoom's matrix: a uniform scaling by `ZoomScale` that keeps the centre
      (w/2, h/2) where it is and stretches the central `ZoomRatio`-sized window exactly
      over the frame; at full progress it is the identity. */
  function ZoomMatrix(width: nat, height: nat, progress: real): (m: Affine)
    ensures m.a == m.d == ZoomScale(progress) && m.b == 0.0 && m.c == 0.0
    ensures MapX(m, width as real / 2.0, height as real / 2.0) == width as real / 2.0
    ensures MapY(m, width as real / 2.0, height as real / 2.0) == height as real / 2.0
    ensures var half := ZoomRatio(progress) * width as real / 2.0;
      MapX(m, width as real / 2.0 - half, 0.0) == 0.0 && MapX(m, width as real / 2.0 + half, 0.0) == width as real
    ensures var half := ZoomRatio(progress) * height as real / 2.0;
      MapY(m, 0.0, height as real / 2.0 - half) == 0.0 && MapY(m, 0.0, height as real / 2.0 + half) == height as real
    ensures progress >= 1.0 ==> m == Identity
  {
    var scale := ZoomScale(progress);
    var cx := width as real / 2.0;
    var cy := height as real / 2.0;
    var tx := width as real / 2.0 - cx * scale;
    var ty := height as real / 2.0 - cy * scale;
    var r := ZoomRatio(progress);
    assert scale * (r * cx) == cx by {
      assert scale * (r * cx) == (scale * r) * cx;
      assert scale * r == 1.0;
    }
    assert scale * (r * cy) == cy by {
      assert scale * (r * cy) == (scale * r) * cy;
      assert scale * r == 1.0;
    }
    Affine(scale, 0.0, tx, 0.0, scale, ty)
  }

  /** `apply_zoom`: no image gives no image; otherwise the image is warped by
      `ZoomMatrix` into a frame of its own size. */
  function ApplyZoom(image: Option<Image>, progress: real): (r: Option<Image>)
    ensures SameSize(image, r)
    ensures image.Some? ==>
      r == Some(WarpedAffine(image.value, ZoomMatrix(Width(image.value), Height(image.value), progress),
                             Width(image.value), Height(image.value)))
  {
    if image.None? then None
    else
      var img := image.value;
      Some(WarpedAffine(img, ZoomMatrix(Width(img), Height(img), progress), Width(img), Height(img)))
  }

  // ---- hybrid --------------------------------------------------------------

  /** The blur's progress in hybrid mode, `min(1.0, progress * 1.25)`: it reaches 1 at
      progress 0.8. */
  function HybridBlurProgress(progress: real): (q: real)
    ensures q <= 1.0
    ensures progress >= 0.8 ==> q == 1.0
    ensures progress <= 0.8 ==> q == HybridBlurSpeedup * progress
  {
    if progress * HybridBlurSpeedup < 1.0 then progress * HybridBlurSpeedup else 1.0
  }

  /** `apply_hybrid`: the zoom with `progress`, then the blur with the accelerated
      progress. From progress 0.8 on only the zoom is left; before that the zoomed image
      is blurred with sigma 30 * (1 - 1.25 * progress) unless that sigma has converged. */
  function ApplyHybrid(image: Option<Image>, progress: real): (r: Option<Image>)
    ensures SameSize(image, r)
    ensures progress >= 0.8 ==> r == ApplyZoom(image, progress)
    ensures image.Some? && 0.0 <= progress <= 0.8 ==>
      var sigma := MaxSigma * (1.0 - HybridBlurSpeedup * progress);
      r == if sigma <= ConvergedSigma then ApplyZoom(image, progress)
           else Some(GaussianBlurred(ApplyZoom(image, progress).value, KernelSize(sigma), sigma))
    ensures image.Some? && progress < 0.0 ==>
      r == Some(GaussianBlurred(ApplyZoom(image, progress).value, KernelSize(MaxSigma), MaxSigma))
  {
    var zoomed := ApplyZoom(image, progress);
    ApplyBlur(zoomed, HybridBlurProgress(progress))
  }
}
