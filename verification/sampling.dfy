/** Which frames are inspected and which part of each is handed to OCR. */
module Sampling {

  /** Only every fifth frame is inspected. */
  const SkipFrames: nat := 5

  predicate IsSampled(frameIdx: nat)
  {
    frameIdx % SkipFrames == 0
  }

  /** How many of the frames `0 .. n - 1` are sampled. */
  function SampledBefore(n: nat): nat
  {
    if n == 0 then 0 else SampledBefore(n - 1) + (if IsSampled(n - 1) then 1 else 0)
  }

  /** Frames `0, 5, 10, ...` below `n`: one sample per started group of five. */
  lemma {:induction false} SampledBeforeClosedForm(n: nat)
    ensures SampledBefore(n) == (n + SkipFrames - 1) / SkipFrames
  {
    if n > 0 {
      SampledBeforeClosedForm(n - 1);
    }
  }

  /** The region of interest in video pixels, as the user drew it. */
  datatype Roi = Roi(x: int, y: int, w: int, h: int)

  /** The crop actually cut from a frame: columns `x1 .. x2 - 1`, rows `y1 .. y2 - 1`. */
  datatype Crop = Crop(x1: int, y1: int, x2: int, y2: int)

  function Max(a: int, b: int): int { if a >= b then a else b }

  function Min(a: int, b: int): int { if a <= b then a else b }

  /** The region clamped to a `width` x `height` frame. */
  function Clamp(roi: Roi, width: nat, height: nat): (c: Crop)
    ensures 0 <= c.x1 && c.x2 <= width && 0 <= c.y1 && c.y2 <= height
  {
    Crop(Max(0, roi.x), Max(0, roi.y), Min(width, roi.x + roi.w), Min(height, roi.y + roi.h))
  }

  /** A crop with positive width and height; only such a crop is processed. */
  predicate NonEmpty(c: Crop)
  {
    c.x2 > c.x1 && c.y2 > c.y1
  }

  predicate InCrop(c: Crop, px: int, py: int)
  {
    c.x1 <= px < c.x2 && c.y1 <= py < c.y2
  }

  /** The clamped crop is exactly the part of the region that lies inside the
      frame. */
  lemma ClampIsIntersection(roi: Roi, width: nat, height: nat, px: int, py: int)
    ensures InCrop(Clamp(roi, width, height), px, py)
            <==> (0 <= px < width && 0 <= py < height
                  && roi.x <= px < roi.x + roi.w && roi.y <= py < roi.y + roi.h)
  {
  }

  /** A processed crop lies inside the frame and is not empty. */
  lemma ProcessedCropInFrame(roi: Roi, width: nat, height: nat)
    requires NonEmpty(Clamp(roi, width, height))
    ensures var c := Clamp(roi, width, height);
            0 <= c.x1 < c.x2 <= width && 0 <= c.y1 < c.y2 <= height
  {
  }

  /** The crop is processed exactly when the region has positive size and
      overlaps the frame. */
  lemma NonEmptyIffOverlap(roi: Roi, width: nat, height: nat)
    ensures NonEmpty(Clamp(roi, width, height))
            <==> (width > 0 && height > 0 && roi.w > 0 && roi.h > 0
                  && roi.x < width && roi.y < height
                  && roi.x + roi.w > 0 && roi.y + roi.h > 0)
  {
  }
}
