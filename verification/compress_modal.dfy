/**
 * The compression dialog: a quality from a slider or four presets, the
 * label, estimated size reduction and colour class shown for it, and the
 * submit and close resets. The label, the estimate and the class are three
 * separate threshold chains in the dialog; the model states each as written
 * and proves that all three split the quality scale at the same points.
 */
module CompressModal {
  import opened Wrappers

  const InitialQuality: int := 75

  /** The slider's range and step. */
  const SliderMin: int := 10
  const SliderMax: int := 100
  const SliderStep: int := 5

  /** The quick presets, in display order: "Maximum", "High", "Medium",
      "Light". */
  const Presets: seq<int> := [25, 50, 75, 90]

  // ---------------------------------------------------------------------------
  // The three threshold chains

  /** `getQualityLabel`. */
  function QualityLabel(q: int): string {
    if q <= 30 then "Maximum Compression"
    else if q <= 50 then "High Compression"
    else if q <= 70 then "Medium Compression"
    else if q <= 85 then "Light Compression"
    else "Minimal Compression"
  }

  /** `estimateCompression`: the expected size reduction, in percent. */
  function EstimateReduction(q: int): int {
    if q <= 30 then 80
    else if q <= 50 then 60
    else if q <= 70 then 40
    else if q <= 85 then 25
    else 10
  }

  /** The suffix of the `quality-…` class on the display. */
  function BandClass(q: int): string {
    if q <= 30 then "max"
    else if q <= 50 then "high"
    else if q <= 70 then "medium"
    else if q <= 85 then "light"
    else "minimal"
  }

  // ---------------------------------------------------------------------------
  // The shared bands

  /** The five bands of the quality scale, from most to least compression. */
  datatype Band = MaximumBand | HighBand | MediumBand | LightBand | MinimalBand

  /** The band's position, 0 for the most compression. */
  function Rank(b: Band): nat {
    match b
    case MaximumBand => 0
    case HighBand => 1
    case MediumBand => 2
    case LightBand => 3
    case MinimalBand => 4
  }

  /** The upper bounds of the first four bands; the last is unbounded. */
  const Bounds: seq<int> := [30, 50, 70, 85]

  /** The band of a quality: the first whose upper bound it does not
      exceed. */
  function BandOf(q: int): (b: Band)
    ensures Rank(b) < 4 ==> q <= Bounds[Rank(b)]
    ensures forall k :: 0 <= k < Rank(b) ==> q > Bounds[k]
  {
    if q <= Bounds[0] then MaximumBand
    else if q <= Bounds[1] then HighBand
    else if q <= Bounds[2] then MediumBand
    else if q <= Bounds[3] then LightBand
    else MinimalBand
  }

  function LabelOf(b: Band): string {
    match b
    case MaximumBand => "Maximum Compression"
    case HighBand => "High Compression"
    case MediumBand => "Medium Compression"
    case LightBand => "Light Compression"
    case MinimalBand => "Minimal Compression"
  }

  function ReductionOf(b: Band): int {
    [80, 60, 40, 25, 10][Rank(b)]
  }

  function ClassOf(b: Band): string {
    match b
    case MaximumBand => "max"
    case HighBand => "high"
    case MediumBand => "medium"
    case LightBand => "light"
    case MinimalBand => "minimal"
  }

  /** The label, the estimate and the class are each a function of the
      band: the three chains use the same thresholds. */
  lemma ChainsShareBands(q: int)
    ensures QualityLabel(q) == LabelOf(BandOf(q))
    ensures EstimateReduction(q) == ReductionOf(BandOf(q))
    ensures BandClass(q) == ClassOf(BandOf(q))
  {
  }

  /** Different bands show different labels and classes, so two qualities
      show the same label exactly when they are in the same band. */
  lemma LabelIdentifiesBand(q1: int, q2: int)
    ensures QualityLabel(q1) == QualityLabel(q2) <==> BandOf(q1) == BandOf(q2)
    ensures BandClass(q1) == BandClass(q2) <==> BandOf(q1) == BandOf(q2)
  {
    ChainsShareBands(q1);
    ChainsShareBands(q2);
  }

  /** A higher quality is never in a band of more compression. */
  lemma BandMonotone(q1: int, q2: int)
    requires q1 <= q2
    ensures Rank(BandOf(q1)) <= Rank(BandOf(q2))
  {
  }

  /** A higher quality never promises a larger reduction. */
  lemma EstimateNonIncreasing(q1: int, q2: int)
    requires q1 <= q2
    ensures EstimateReduction(q2) <= EstimateReduction(q1)
    ensures 10 <= EstimateReduction(q2) <= 80
  {
    ChainsShareBands(q1);
    ChainsShareBands(q2);
    BandMonotone(q1, q2);
  }

  /** The presets fall one each in the four highest-compression bands, but
      the buttons named "Medium" and "Light" select the light and minimal
      bands. */
  lemma PresetBands()
    ensures BandOf(Presets[0]) == MaximumBand && BandOf(Presets[1]) == HighBand
    ensures BandOf(Presets[2]) == LightBand && BandOf(Presets[3]) == MinimalBand
    ensures forall i :: 0 <= i < |Presets| ==> SliderMin <= Presets[i] <= SliderMax && Presets[i] % SliderStep == 0
  {
  }

  // ---------------------------------------------------------------------------
  // The dialog

  /** What the user can do while the dialog is open. A slider move carries
      the slider's value; a preset carries its index. */
  datatype CompressEvent = Slide(value: int) | PickPreset(index: nat) | SubmitClicked | CloseClicked

  /** The quality after an event, and the quality handed on, if any. */
  datatype CompressOutcome = CompressOutcome(quality: int, submitted: Option<int>)

  /** `handleSubmit` hands on the current quality and then closes;
      `handleClose` resets the quality to 75. */
  function Step(quality: int, e: CompressEvent): (o: CompressOutcome)
    ensures e.SubmitClicked? <==> o.submitted.Some?
    ensures e.SubmitClicked? ==> o.submitted.value == quality
    ensures e.SubmitClicked? || e.CloseClicked? ==> o.quality == InitialQuality
    ensures e.Slide? ==> o.quality == e.value
  {
    match e
    case Slide(v) => CompressOutcome(v, None)
    case PickPreset(i) => CompressOutcome(if i < |Presets| then Presets[i] else quality, None)
    case SubmitClicked => CompressOutcome(InitialQuality, Some(quality))
    case CloseClicked => CompressOutcome(InitialQuality, None)
  }

  /** A value the slider can produce. */
  predicate OnSlider(q: int) {
    SliderMin <= q <= SliderMax && q % SliderStep == 0
  }

  predicate SliderEvent(e: CompressEvent) {
    e.Slide? ==> OnSlider(e.value)
  }

  /** Run events from a quality, collecting the submitted qualities. */
  function Run(quality: int, events: seq<CompressEvent>): (int, seq<int>)
    decreases |events|
  {
    if |events| == 0 then (quality, [])
    else
      var o := Step(quality, events[0]);
      var rest := Run(o.quality, events[1..]);
      (rest.0, (if o.submitted.Some? then [o.submitted.value] else []) + rest.1)
  }

  /** Starting on the slider's scale, with slider moves on its scale, the
      quality never leaves it, and every submitted quality is on it. */
  lemma {:induction false} RunStaysOnSlider(quality: int, events: seq<CompressEvent>)
    requires OnSlider(quality)
    requires forall i :: 0 <= i < |events| ==> SliderEvent(events[i])
    ensures OnSlider(Run(quality, events).0)
    ensures forall i :: 0 <= i < |Run(quality, events).1| ==> OnSlider(Run(quality, events).1[i])
    decreases |events|
  {
    if |events| > 0 {
      var o := Step(quality, events[0]);
      assert OnSlider(o.quality) by {
        assert SliderEvent(events[0]);
        if events[0].PickPreset? && events[0].index < |Presets| {
          PresetBands();
        }
      }
      assert forall i :: 0 <= i < |events[1..]| ==> SliderEvent(events[1..][i]) by {
        forall i | 0 <= i < |events[1..]| ensures SliderEvent(events[1..][i]) {
          assert events[1..][i] == events[i + 1];
        }
      }
      RunStaysOnSlider(o.quality, events[1..]);
    }
  }

  lemma InitialOnSlider()
    ensures OnSlider(InitialQuality) && BandOf(InitialQuality) == LightBand
  {
  }
}
