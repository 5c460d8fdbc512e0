/**
 * The decision rules of `UNetWeedDetector` (models.py): how a per-pixel weed
 * mask becomes a detection result, on the learned U-Net path and on the
 * green-band fallback path. The network itself and the normalisation of the
 * green band are outside the model: their outputs arrive as sequences of reals.
 */
module Detection {
  import opened Wrappers

  /** A pixel counts as weed on the learned path above this mask value. */
  const LearnedMaskThreshold: real := 0.5
  /** The learned path reports a detection above this coverage percentage. */
  const LearnedCoverageThreshold: real := 1.0
  /** A pixel counts as weed on the fallback path above this normalised green value. */
  const FallbackMaskThreshold: real := 0.6
  /** The fallback path reports a detection above this coverage percentage. */
  const FallbackCoverageThreshold: real := 2.0
  /** The learned path names weed types only above this confidence. */
  const LabelConfidence: real := 0.7

  datatype WeedType = BarnyardGrass | Fimbristylis | TypeUncertain

  /** The result's "model" field: "U-Net (Actual)" or "U-Net (Fallback)". */
  datatype Provenance = Actual | Fallback

  /** The result dictionary of `predict`, without the mask itself. */
  datatype WeedReport = WeedReport(
    detected: bool,
    confidence: real,   // per cent, unrounded
    coverage: real,     // per cent, unrounded
    weedTypes: seq<WeedType>,
    model: Provenance)

  /** A reduction over a zero-size array raises. */
  datatype DetectionError = EmptyMask

  /** Number of mask entries strictly above `threshold` (`(mask > t).sum()`). */
  function CountAbove(mask: seq<real>, threshold: real): (n: nat)
    ensures n <= |mask|
  {
    if mask == [] then 0
    else (if mask[0] > threshold then 1 else 0) + CountAbove(mask[1..], threshold)
  }

  /** When every entry is above the threshold, every entry is counted. */
  lemma {:induction false} CountAboveAll(mask: seq<real>, threshold: real)
    requires forall i :: 0 <= i < |mask| ==> mask[i] > threshold
    ensures CountAbove(mask, threshold) == |mask|
  {
    if mask != [] {
      CountAboveAll(mask[1..], threshold);
    }
  }

  /** When no entry is above the threshold, nothing is counted. */
  lemma {:induction false} CountAboveNone(mask: seq<real>, threshold: real)
    requires forall i :: 0 <= i < |mask| ==> mask[i] <= threshold
    ensures CountAbove(mask, threshold) == 0
  {
    if mask != [] {
      CountAboveNone(mask[1..], threshold);
    }
  }

  /** Percentage of entries above `threshold`: count / size * 100. */
  function CoveragePercent(mask: seq<real>, threshold: real): (c: real)
    requires |mask| > 0
    ensures 0.0 <= c <= 100.0
    ensures c * (|mask| as real) == 100.0 * (CountAbove(mask, threshold) as real)
  {
    var n, size := CountAbove(mask, threshold) as real, |mask| as real;
    assert n / size <= 1.0 by {
      assert n <= size;
    }
    n / size * 100.0
  }

  /** Coverage exceeds `p` per cent exactly when the count exceeds `p` hundredths of the size. */
  lemma CoverageAbove(mask: seq<real>, threshold: real, p: real)
    requires |mask| > 0
    ensures CoveragePercent(mask, threshold) > p <==>
      100.0 * (CountAbove(mask, threshold) as real) > p * (|mask| as real)
  {
    ScaledOrder(CoveragePercent(mask, threshold), p, |mask| as real, 100.0 * (CountAbove(mask, threshold) as real));
  }

  /** Multiplying by a positive factor keeps the order. */
  lemma MulPositiveOrder(a: real, b: real, s: real)
    requires s > 0.0
    ensures a > b <==> a * s > b * s
  {
    if a > b {
      assert (a - b) * s > 0.0;
    } else {
      assert (b - a) * s >= 0.0;
    }
  }

  /** Helper: `c > p` read off the scaled value `h == c * size`. */
  lemma ScaledOrder(c: real, p: real, size: real, h: real)
    requires size > 0.0 && c * size == h
    ensures c > p <==> h > p * size
  {
    MulPositiveOrder(c, p, size);
  }

  /** A positive factor cancels from both sides of an equation. */
  lemma MulCancel(a: real, b: real, s: real)
    requires s > 0.0 && a * s == b * s
    ensures a == b
  {
    MulPositiveOrder(a, b, s);
    MulPositiveOrder(b, a, s);
  }

  /** Largest mask entry (`mask.max()`). */
  function MaxOf(mask: seq<real>): (m: real)
    requires |mask| > 0
    ensures forall i :: 0 <= i < |mask| ==> mask[i] <= m
    ensures exists i :: 0 <= i < |mask| && mask[i] == m
  {
    if |mask| == 1 then mask[0]
    else
      var rest := MaxOf(mask[1..]);
      if mask[0] >= rest then mask[0] else rest
  }

  /** Sum of the mask entries (`mask.sum()`). */
  function Sum(mask: seq<real>): (total: real)
    ensures (forall i :: 0 <= i < |mask| ==> mask[i] >= 0.0) ==> total >= 0.0
    ensures (forall i :: 0 <= i < |mask| ==> mask[i] == 0.0) ==> total == 0.0
  {
    if mask == [] then 0.0 else mask[0] + Sum(mask[1..])
  }

  /** With no negative entry, the sum is at least every single entry. */
  lemma {:induction false} SumAtLeastEntry(mask: seq<real>, k: nat)
    requires forall i :: 0 <= i < |mask| ==> mask[i] >= 0.0
    requires k < |mask|
    ensures Sum(mask) >= mask[k]
  {
    if k > 0 {
      SumAtLeastEntry(mask[1..], k - 1);
    }
  }

  /** `_classify_weed_type`: the two fixed labels for a confident, non-empty mask. */
  function ClassifyWeedType(mask: seq<real>, confidence: real): (types: seq<WeedType>)
    ensures types == [] || types == [BarnyardGrass, Fimbristylis]
    ensures confidence <= LabelConfidence ==> types == []
    ensures (forall i :: 0 <= i < |mask| ==> mask[i] == 0.0) ==> types == []
    ensures types == [] <==> confidence <= LabelConfidence || Sum(mask) <= 0.0
  {
    if confidence > LabelConfidence && Sum(mask) > 0.0 then [BarnyardGrass, Fimbristylis] else []
  }

  /** The statistics and result fields of the learned path of `predict`, from the network's mask. */
  function LearnedDetection(mask: seq<real>): (r: Result<WeedReport, DetectionError>)
    ensures r.Err? <==> mask == []
    ensures r.Ok? ==> r.value.model == Actual
  {
    if mask == [] then Err(EmptyMask)
    else
      var confidence := MaxOf(mask);
      var coverage := CoveragePercent(mask, LearnedMaskThreshold);
      Ok(WeedReport(coverage > LearnedCoverageThreshold, confidence * 100.0, coverage,
                   ClassifyWeedType(mask, confidence), Actual))
  }

  /** `_fallback_weed_detection`, from the normalised green band. */
  function FallbackDetection(greenNorm: seq<real>): (r: Result<WeedReport, DetectionError>)
    ensures r.Err? <==> greenNorm == []
    ensures r.Ok? ==> r.value.model == Fallback
  {
    if greenNorm == [] then Err(EmptyMask)
    else
      var confidence := MaxOf(greenNorm);
      var coverage := CoveragePercent(greenNorm, FallbackMaskThreshold);
      var detected := coverage > FallbackCoverageThreshold;
      Ok(WeedReport(detected, confidence * 100.0, coverage,
                   if detected then [TypeUncertain] else [], Fallback))
  }

  /**
   * The learned verdict: detected exactly when more than one pixel in a hundred
   * is above 0.5; coverage is a percentage and confidence is the peak in per cent.
   */
  lemma LearnedVerdict(mask: seq<real>)
    requires mask != []
    ensures LearnedDetection(mask).Ok?
    ensures LearnedDetection(mask).value.detected <==> 100 * CountAbove(mask, 0.5) > |mask|
    ensures 0.0 <= LearnedDetection(mask).value.coverage <= 100.0
    ensures LearnedDetection(mask).value.confidence == 100.0 * MaxOf(mask)
  {
    CoverageAbove(mask, LearnedMaskThreshold, LearnedCoverageThreshold);
  }

  /**
   * On a mask of probabilities (the network's sigmoid output), the learned path
   * names the two fixed weed types exactly when the peak exceeds 0.7.
   */
  lemma LearnedLabelsFollowConfidence(mask: seq<real>)
    requires mask != []
    requires forall i :: 0 <= i < |mask| ==> 0.0 <= mask[i] <= 1.0
    ensures LearnedDetection(mask).value.weedTypes ==
      if MaxOf(mask) > 0.7 then [BarnyardGrass, Fimbristylis] else []
  {
    var k :| 0 <= k < |mask| && mask[k] == MaxOf(mask);
    SumAtLeastEntry(mask, k);
  }

  /**
   * The fallback verdict: detected exactly when more than one pixel in fifty is
   * above 0.6, and a weed type is named exactly when detected.
   */
  lemma FallbackVerdict(greenNorm: seq<real>)
    requires greenNorm != []
    ensures FallbackDetection(greenNorm).Ok?
    ensures FallbackDetection(greenNorm).value.detected <==> 50 * CountAbove(greenNorm, 0.6) > |greenNorm|
    ensures FallbackDetection(greenNorm).value.weedTypes != [] <==> FallbackDetection(greenNorm).value.detected
    ensures 0.0 <= FallbackDetection(greenNorm).value.coverage <= 100.0
  {
    CoverageAbove(greenNorm, FallbackMaskThreshold, FallbackCoverageThreshold);
  }

  /** A green band saturated above the fallback threshold is a full-coverage detection. */
  lemma FallbackSaturated(greenNorm: seq<real>)
    requires greenNorm != []
    requires forall i :: 0 <= i < |greenNorm| ==> greenNorm[i] > 0.6
    ensures FallbackDetection(greenNorm).Ok?
    ensures FallbackDetection(greenNorm).value.detected
    ensures FallbackDetection(greenNorm).value.coverage == 100.0
  {
    CountAboveAll(greenNorm, FallbackMaskThreshold);
    var c := CoveragePercent(greenNorm, FallbackMaskThreshold);
    MulCancel(c, 100.0, |greenNorm| as real);
  }

  /** A band with nothing above the fallback threshold reports no detection and no type. */
  lemma FallbackNothingAbove(greenNorm: seq<real>)
    requires greenNorm != []
    requires forall i :: 0 <= i < |greenNorm| ==> greenNorm[i] <= 0.6
    ensures FallbackDetection(greenNorm).Ok?
    ensures !FallbackDetection(greenNorm).value.detected
    ensures FallbackDetection(greenNorm).value.coverage == 0.0
    ensures FallbackDetection(greenNorm).value.weedTypes == []
  {
    CountAboveNone(greenNorm, FallbackMaskThreshold);
  }

  /** The guard added to the denominator of the min-max normalisation. */
  const NormalisationEpsilon: real := 0.0000001

  /** Smallest entry (`green.min()`). */
  function MinOf(band: seq<real>): (m: real)
    requires |band| > 0
    ensures forall i :: 0 <= i < |band| ==> m <= band[i]
    ensures exists i :: 0 <= i < |band| && band[i] == m
  {
    if |band| == 1 then band[0]
    else
      var rest := MinOf(band[1..]);
      if band[0] <= rest then band[0] else rest
  }

  /** Where `v` falls between `lo` and `lo + span`, as a fraction of `span`. */
  function Scale(v: real, lo: real, span: real): (f: real)
    requires span > 0.0
    ensures lo <= v < lo + span ==> 0.0 <= f < 1.0
    ensures v == lo ==> f == 0.0
  {
    if lo <= v < lo + span then FractionBelowOne(v - lo, span); (v - lo) / span
    else (v - lo) / span
  }

  lemma FractionBelowOne(a: real, b: real)
    requires 0.0 <= a < b
    ensures 0.0 <= a / b < 1.0
  {
    var q := a / b;
    assert q * b == a;
  }

  /** Min-max normalisation of the green band, in exact real arithmetic. */
  function Normalise(green: seq<real>): (norm: seq<real>)
    ensures |norm| == |green|
    ensures forall i :: 0 <= i < |green| ==> 0.0 <= norm[i] < 1.0
    ensures forall i :: 0 <= i < |green| && green[i] == MinOf(green) ==> norm[i] == 0.0
  {
    if green == [] then []
    else
      var lo, span := MinOf(green), MaxOf(green) - MinOf(green) + NormalisationEpsilon;
      seq(|green|, i requires 0 <= i < |green| => Scale(green[i], lo, span))
  }

  /** A mask with an entry at or below the threshold has coverage below 100 per cent. */
  lemma {:induction false} CountAboveMissesOne(mask: seq<real>, threshold: real, k: nat)
    requires k < |mask| && mask[k] <= threshold
    ensures CountAbove(mask, threshold) < |mask|
  {
    if k > 0 {
      CountAboveMissesOne(mask[1..], threshold, k - 1);
    }
  }

  /**
   * Normalisation maps the darkest green pixel to 0, so on a real image the
   * fallback never reports full coverage, however green the image is.
   */
  lemma FallbackNeverFullFromRawBand(green: seq<real>)
    requires green != []
    ensures FallbackDetection(Normalise(green)).Ok?
    ensures FallbackDetection(Normalise(green)).value.coverage < 100.0
  {
    var norm := Normalise(green);
    var k :| 0 <= k < |green| && green[k] == MinOf(green);
    CountAboveMissesOne(norm, FallbackMaskThreshold, k);
    var c := CoveragePercent(norm, FallbackMaskThreshold);
    assert c * (|norm| as real) < 100.0 * (|norm| as real);
  }

  /** A uniform green band normalises to all zeros: nothing is detected. */
  lemma FallbackUniformBandDetectsNothing(green: seq<real>)
    requires green != []
    requires forall i :: 0 <= i < |green| ==> green[i] == green[0]
    ensures FallbackDetection(Normalise(green)).Ok?
    ensures !FallbackDetection(Normalise(green)).value.detected
    ensures FallbackDetection(Normalise(green)).value.coverage == 0.0
  {
    var norm := Normalise(green);
    var k :| 0 <= k < |green| && green[k] == MinOf(green);
    assert forall i :: 0 <= i < |norm| ==> norm[i] == 0.0;
    FallbackNothingAbove(norm);
  }

  /** The detector: whether trained weights were loaded decides which path `predict` takes. */
  class UNetWeedDetector {
    var loaded: bool

    /** `__init__` tries `load_model`; `checkpointLoads` is whether reading the weights succeeds. */
    constructor (checkpointLoads: bool)
      ensures loaded == checkpointLoads
    {
      loaded := checkpointLoads;
    }

    /** `load_model`: `loaded` is set exactly when the weights could be read. */
    method LoadModel(checkpointLoads: bool)
      modifies this
      ensures loaded == checkpointLoads
    {
      loaded := checkpointLoads;
    }

    /**
     * `predict`. `inference` is the network's mask, or `None` when running
     * the network raised; `green` is the image's green band, which the
     * fallback normalises and thresholds.
     */
    method Predict(inference: Option<seq<real>>, green: seq<real>)
      returns (r: Result<WeedReport, DetectionError>)
      ensures !loaded ==> r == FallbackDetection(Normalise(green))
      ensures loaded && inference.Some? && inference.value != [] ==> r == LearnedDetection(inference.value)
      ensures !(loaded && inference.Some? && inference.value != []) ==> r == FallbackDetection(Normalise(green))
      ensures r.Ok? ==> (r.value.model == Actual <==> loaded && inference.Some? && inference.value != [])
    {
      if !loaded {
        return FallbackDetection(Normalise(green));
      }
      match inference
      case None =>
        r := FallbackDetection(Normalise(green));
      case Some(mask) =>
        r := LearnedDetection(mask);
        if r.Err? {
          r := FallbackDetection(Normalise(green));
        }
    }
  }
}
