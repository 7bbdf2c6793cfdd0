/**
 * The rotate dialog: one angle, chosen from three presets or typed in, that
 * the typed-in path normalises into [0, 359]; submitting hands the angle on
 * and resets the dialog to 90. The angle is a JavaScript Number: a typed
 * integer is rounded to a double, and one too large for a double reads as
 * an infinity, whose remainder is `NaN`.
 */
module RotateModal {
  import opened Wrappers
  import opened Strings
  import opened JsMath

  const InitialRotation: Number := Finite(90)

  /** The preset buttons, in display order. */
  const RotationOptions: seq<int> := [90, 180, 270]

  /** `value % 360`, moved up by 360 when negative, with JavaScript's
      remainder: the Euclidean remainder, in [0, 359]. */
  function Normalize(value: int): (angle: int)
    ensures 0 <= angle < 360 && angle == value % 360
  {
    JsRemPlus360IsEuclidean(value);
    var r := JsRem(value, 360);
    if r < 0 then r + 360 else r
  }

  /** The custom-angle input's handler: `parseInt(text) || 0`, so that
      `NaN` and zero become 0; then `% 360`, and 360 more when the remainder
      is below 0. An infinity survives `|| 0`, its remainder is `NaN`, and
      `NaN` is not below 0, so `NaN` is set. */
  function AngleInput(text: string): (angle: Number)
    ensures angle.NaN? <==> JsParseNumber(text).PosInfinity? || JsParseNumber(text).NegInfinity?
    ensures angle.Finite? ==> 0 <= angle.value < 360
    ensures JsParseNumber(text).NaN? ==> angle == Finite(0)
    ensures JsParseNumber(text).Finite? ==> angle == Finite(JsParseNumber(text).value % 360)
  {
    var parsed := JsParseNumber(text);
    var value := if Truthy(parsed) then parsed else Finite(0);
    var rem := NumberRem(value, 360);
    assert value.Finite? ==> rem == Finite(JsRem(value.value, 360)) && AddInt(rem, 360) == Finite(rem.value + 360) by {
      if value.Finite? {
        JsRem360Range(value.value);
      }
    }
    assert value.Finite? ==> Normalize(value.value) == value.value % 360;
    if IsNegative(rem) then AddInt(rem, 360) else rem
  }

  lemma ModDiff(v: int)
    ensures (v % 360 - v) % 360 == 0
  {
    var q := v / 360;
    assert v % 360 - v == -q * 360;
  }

  /** The angle of an integer typed in: its double's Euclidean remainder,
      or `NaN` when it is too large for a double. */
  function TypedAngle(n: int): Number {
    match ToNumber(n)
    case Finite(d) => Finite(d % 360)
    case _ => NaN
  }

  /** Typing an angle already in [0, 359] keeps it. */
  lemma AngleInputKeepsCanonical(angle: int)
    requires 0 <= angle < 360
    ensures AngleInput(IntToString(angle)) == Finite(angle)
  {
    IntToStringShape(JavaScript, angle);
    JsParseIntOfIntToString(angle);
  }

  /** A typed integer gives the remainder of its double, or `NaN` when it
      is too large for one. */
  lemma AngleInputOfInteger(n: int)
    ensures AngleInput(IntToString(n)) == TypedAngle(n)
  {
    var t := IntToString(n);
    JsParseIntOfIntToString(n);
    assert JsParseNumber(t) == ToNumber(n);
    if ToNumber(n).Finite? {
      assert AngleInput(t) == Finite(ToNumber(n).value % 360);
    } else {
      assert AngleInput(t).NaN?;
    }
  }

  /** Below 2^53 in magnitude the angle is the integer's own remainder, so
      integers a full turn apart give the same angle. */
  lemma AngleInputIsRemainder(n: int)
    ensures -TwoTo53 < n < TwoTo53 ==> AngleInput(IntToString(n)) == Finite(n % 360)
    ensures -TwoTo53 < n && n + 360 < TwoTo53 ==> AngleInput(IntToString(n + 360)) == AngleInput(IntToString(n))
  {
    AngleInputOfInteger(n);
    AngleInputOfInteger(n + 360);
    assert (n + 360) % 360 == n % 360;
  }

  /** Above 2^53 the integer typed is first rounded to a double: an odd
      integer between 2^53 and 2^54 reads as one of its even neighbours, so
      its angle is not its own remainder (typing 2^53 + 1 gives 32, not 33). */
  lemma LargeOddInputIsRounded(n: int)
    requires TwoTo53 < n < 2 * TwoTo53 && n % 2 == 1
    ensures AngleInput(IntToString(n)) == Finite((n - 1) % 360) || AngleInput(IntToString(n)) == Finite((n + 1) % 360)
    ensures AngleInput(IntToString(n)) != Finite(n % 360)
  {
    var r := RoundToDouble(n);
    OddAbove53Rounds(n);
    NeighbourRemainders(n, r);
    TypedAngleAbove53(n);
    AngleInputOfInteger(n);
  }

  /** Typing twenty nines gives 280, the angle of 10^20, and not 279, the
      remainder of the integer typed. */
  lemma TwentyNinesTyped()
    ensures AngleInput(IntToString(99999999999999999999)) == Finite(280)
    ensures 99999999999999999999 % 360 == 279
  {
    var n := 99999999999999999999;
    TwentyNinesRound();
    SpacingOfTwentyNines();
    assert SpacingExp(n) < MaxSpacingExp;
    BelowTopBinadeDoesNotOverflow(n);
    AngleInputOfInteger(n);
    assert ToNumber(n) == Finite(100000000000000000000);
  }

  lemma TypedAngleAbove53(n: int)
    requires TwoTo53 <= n < 2 * TwoTo53
    ensures TypedAngle(n) == Finite(RoundToDouble(n) % 360)
  {
    ToNumberAbove53(n);
  }

  lemma NeighbourRemainders(n: int, r: int)
    requires r == n - 1 || r == n + 1
    ensures r % 360 != n % 360
    ensures r % 360 == (n - 1) % 360 || r % 360 == (n + 1) % 360
  {
  }

  /** An integer whose rounding overflows, from about 1.8 * 10^308 up in
      magnitude, reads as an infinity, and the angle becomes `NaN`. */
  lemma HugeInputIsNaN(n: int)
    requires Overflows(Abs(n))
    ensures AngleInput(IntToString(n)).NaN?
  {
    AngleInputOfInteger(n);
  }

  /** What the user can do while the dialog is open. */
  datatype RotateEvent = PickOption(index: nat) | TypeAngle(text: string) | SubmitClicked | CloseClicked

  /** The dialog after an event, and the angle submitted by it, if any. */
  datatype RotateOutcome = RotateOutcome(rotation: Number, submitted: Option<Number>)

  function Step(rotation: Number, e: RotateEvent): (o: RotateOutcome)
    ensures e.SubmitClicked? <==> o.submitted.Some?
    ensures e.SubmitClicked? ==> o.submitted.value == rotation && o.rotation == InitialRotation
    ensures e.CloseClicked? ==> o.rotation == InitialRotation
    ensures e.TypeAngle? ==> o.rotation == AngleInput(e.text)
    ensures e.PickOption? && e.index < |RotationOptions| ==> o.rotation == Finite(RotationOptions[e.index])
  {
    match e
    case PickOption(i) =>
      RotateOutcome(if i < |RotationOptions| then Finite(RotationOptions[i]) else rotation, None)
    case TypeAngle(text) => RotateOutcome(AngleInput(text), None)
    case SubmitClicked => RotateOutcome(InitialRotation, Some(rotation))
    case CloseClicked => RotateOutcome(InitialRotation, None)
  }

  /** Run a sequence of events from the initial angle, collecting the
      submitted angles. */
  function Run(rotation: Number, events: seq<RotateEvent>): (r: (Number, seq<Number>))
    decreases |events|
  {
    if |events| == 0 then (rotation, [])
    else
      var o := Step(rotation, events[0]);
      var rest := Run(o.rotation, events[1..]);
      (rest.0, (if o.submitted.Some? then [o.submitted.value] else []) + rest.1)
  }

  /** An angle in [0, 359]. */
  predicate InRange(d: Number) {
    d.Finite? && 0 <= d.value < 360
  }

  /** A text that does not read as an infinity. */
  predicate ReadsFinite(e: RotateEvent) {
    e.TypeAngle? ==> !JsParseNumber(e.text).PosInfinity? && !JsParseNumber(e.text).NegInfinity?
  }

  /** Starting in [0, 359] (or at `NaN`), the angle and every submitted
      angle are in [0, 359] or `NaN`; and when no typed text reads as an
      infinity, they are all in [0, 359]. */
  lemma {:induction false} RunStaysInRange(rotation: Number, events: seq<RotateEvent>)
    requires InRange(rotation) || rotation.NaN?
    ensures var (final, submitted) := Run(rotation, events);
      && (InRange(final) || final.NaN?)
      && forall i :: 0 <= i < |submitted| ==> InRange(submitted[i]) || submitted[i].NaN?
    ensures InRange(rotation) && (forall i :: 0 <= i < |events| ==> ReadsFinite(events[i])) ==>
      var (final, submitted) := Run(rotation, events);
      InRange(final) && forall i :: 0 <= i < |submitted| ==> InRange(submitted[i])
    decreases |events|
  {
    if |events| > 0 {
      var o := Step(rotation, events[0]);
      StepStaysInRange(rotation, events[0]);
      assert forall i :: 0 <= i < |events[1..]| ==> events[1..][i] == events[i + 1];
      RunStaysInRange(o.rotation, events[1..]);
    }
  }

  /** One event keeps the angle, and the angle it submits, in [0, 359] or
      `NaN`; and in [0, 359] when the event is not text read as an infinity. */
  lemma StepStaysInRange(rotation: Number, e: RotateEvent)
    requires InRange(rotation) || rotation.NaN?
    ensures var o := Step(rotation, e);
      && (InRange(o.rotation) || o.rotation.NaN?)
      && (o.submitted.Some? ==> o.submitted.value == rotation)
    ensures InRange(rotation) && ReadsFinite(e) ==> InRange(Step(rotation, e).rotation)
  {
  }

  /** A huge number typed and then submitted hands `NaN` on. */
  lemma HugeInputSubmitsNaN(n: int)
    requires Overflows(Abs(n))
    ensures Run(InitialRotation, [TypeAngle(IntToString(n)), SubmitClicked]) == (InitialRotation, [NaN])
  {
    HugeInputIsNaN(n);
    TypedNaNSubmitted(IntToString(n));
  }

  /** Text that reads as `NaN`, typed and then submitted, hands `NaN` on. */
  lemma TypedNaNSubmitted(t: string)
    requires AngleInput(t) == NaN
    ensures Run(InitialRotation, [TypeAngle(t), SubmitClicked]) == (InitialRotation, [NaN])
  {
    var events := [TypeAngle(t), SubmitClicked];
    assert Step(InitialRotation, events[0]) == RotateOutcome(NaN, None);
    assert events[1..] == [SubmitClicked];
    assert Run(NaN, [SubmitClicked]) == (InitialRotation, [NaN]) by {
      assert Step(NaN, SubmitClicked) == RotateOutcome(InitialRotation, Some(NaN));
      assert [SubmitClicked][1..] == [];
      assert [NaN] + [] == [NaN];
    }
    assert [] + [NaN] == [NaN];
  }

  /** Every preset is a quarter turn the input would keep as typed. */
  lemma OptionsAreQuarterTurns(i: nat)
    requires i < |RotationOptions|
    ensures RotationOptions[i] % 90 == 0 && 0 < RotationOptions[i] < 360
    ensures AngleInput(IntToString(RotationOptions[i])) == Finite(RotationOptions[i])
  {
    var a := RotationOptions[i];
    assert a == 90 || a == 180 || a == 270;
    AngleInputKeepsCanonical(a);
  }
}
