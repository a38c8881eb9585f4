/** Calibration: where every stored reading came from. */
module Calibration {

  function Abs(x: real): real {
    if x < 0.0 then -x else x
  }

  /** An analysed signal. */
  datatype Signal = Signal(iir: real, min: real, max: real)

  function ResetTo(v: real): Signal {
    Signal(v, v, v)
  }

  const MAX_NOISE: real := 0.001

  /** `validate_reading`: average, minimum and maximum are near the target, and the signal is quiet. */
  predicate Validates(s: Signal, target: real, tolerance: real) {
    Abs(s.iir - target) < tolerance && Abs(s.min - target) < tolerance && Abs(s.max - target) < tolerance
    && s.max - s.min < MAX_NOISE
  }

  datatype Option<T> = None | Some(value: T)

  datatype Status = NotCal | Settling | LowOnly | HighOnly | Error | Done

  datatype Phase = CalibratingIns | CalibratingOuts | StartWritingCal | Idle

  // ----- The measurer -----

  const INPUT_LOW: real := 1.0
  const INPUT_HIGH: real := 4.0
  const INPUT_TOLERANCE: real := 0.5

  datatype Event = Nothing | MeasuredLow | MeasuredHigh

  /** What a reading is taken for: low first, then high, if it is steady and near enough. */
  function Judge(s: Signal): Event {
    if Validates(s, INPUT_LOW, INPUT_TOLERANCE) then MeasuredLow
    else if Validates(s, INPUT_HIGH, INPUT_TOLERANCE) then MeasuredHigh else Nothing
  }

  /** The readings recorded for one input. */
  datatype Pair = Pair(low: real, high: real)

  class Measurer {
    var calData: seq<Pair>
    var delayCtr: nat

    constructor (channels: nat)
      ensures |calData| == channels && delayCtr == 0
    {
      calData, delayCtr := seq(channels, _ => Pair(0.0, 0.0)), 0;
    }

    method StartChan()
      modifies `delayCtr
      ensures delayCtr == 0
    {
      delayCtr := 0;
    }

    /** `read`: every second call looks at what the signal did since the call before.  A low or high reading is
        recorded for its channel, and nothing else is. */
    method Read(chan: nat, reading: Signal) returns (event: Event, after: Signal)
      modifies this
      ensures chan >= |old(calData)| ==> event.Nothing?
      ensures after.iir == reading.iir
      ensures chan < |old(calData)| ==> delayCtr == if old(delayCtr) == 0 then 1 else 0
      ensures chan < |old(calData)| ==> event == if old(delayCtr) == 0 then Nothing else Judge(reading)
      ensures event.Nothing? ==> calData == old(calData)
      ensures event.MeasuredLow? ==> chan < |old(calData)| && Abs(reading.iir - INPUT_LOW) < INPUT_TOLERANCE
      ensures event.MeasuredLow? ==> calData == old(calData)[chan := Pair(reading.iir, old(calData)[chan].high)]
      ensures event.MeasuredHigh? ==> chan < |old(calData)| && Abs(reading.iir - INPUT_HIGH) < INPUT_TOLERANCE
      ensures event.MeasuredHigh? ==> calData == old(calData)[chan := Pair(old(calData)[chan].low, reading.iir)]
    {
      event, after := Nothing, reading;
      if chan < |calData| {
        if delayCtr == 0 {
          after := ResetTo(after.iir);
        }
        delayCtr := delayCtr + 1;
        if delayCtr >= 2 {
          delayCtr := 0;
          if Validates(after, INPUT_LOW, INPUT_TOLERANCE) {
            calData := calData[chan := Pair(after.iir, calData[chan].high)];
            event := MeasuredLow;
          } else if Validates(after, INPUT_HIGH, INPUT_TOLERANCE) {
            calData := calData[chan := Pair(calData[chan].low, after.iir)];
            event := MeasuredHigh;
          }
        }
      }
    }
  }

  // ----- What makes a calibration sound -----

  datatype Reading = Reading(time: nat, value: real)

  /** What one update is given: plugs and signals of the inputs, patches of the outputs, the signal at the measuring
      input, and the buttons. */
  datatype Tick = Tick(plugged: seq<bool>, signals: seq<Signal>, patched: seq<bool>, measured: Signal,
                       dataValid: bool, next: bool, cancel: bool)

  /** An update as the history keeps it: what it was given, the phase it worked in, and in the output phase the output
      that was current after it. */
  datatype Entry = Entry(tick: Tick, phase: Phase, current: Option<nat>)

  // ----- Inputs -----

  /** The update saw input `i` plugged. */
  ghost predicate PluggedAt(e: Entry, i: nat) {
    e.phase == CalibratingIns && i < |e.tick.plugged| && i < |e.tick.signals| && e.tick.plugged[i]
  }

  /** Input `i` was plugged in every update from `from` on. */
  ghost predicate PluggedSince(log: seq<Entry>, i: nat, from: nat) {
    forall t :: from <= t < |log| ==> PluggedAt(log[t], i)
  }

  /** The reading is the signal that the update at its time was given for input `i`: steady, and near the target. */
  ghost predicate InputMeasured(r: Reading, i: nat, log: seq<Entry>, target: real) {
    && r.time < |log| && PluggedAt(log[r.time], i)
    && r.value == log[r.time].tick.signals[i].iir && Validates(log[r.time].tick.signals[i], target, INPUT_TOLERANCE)
  }

  datatype InputEvidence = InputEvidence(low: Reading, high: Reading)

  /** Both readings were measured on input `i`, which stayed plugged from the first to the second. */
  ghost predicate InputSound(e: InputEvidence, i: nat, log: seq<Entry>) {
    && InputMeasured(e.low, i, log, INPUT_LOW) && InputMeasured(e.high, i, log, INPUT_HIGH)
    && forall t :: 0 <= t < |log| && (e.low.time <= t <= e.high.time || e.high.time <= t <= e.low.time) ==>
         PluggedAt(log[t], i)
  }

  lemma InputSpread(e: InputEvidence, i: nat, log: seq<Entry>)
    requires InputSound(e, i, log)
    ensures e.high.value - e.low.value > 2.0
  {
  }

  // ----- Outputs -----

  const OUT_ZERO: real := 0.0
  const OUT_LOW: real := 1.0
  const OUT_HIGH: real := 5.0
  const OUT_TOLERANCE: real := 0.25
  const OFFSET_TOLERANCE: real := 0.020

  /** Output `i` is the only one patched. */
  ghost predicate Alone(patched: seq<bool>, i: nat) {
    i < |patched| && patched[i] && forall j :: 0 <= j < |patched| && j != i ==> !patched[j]
  }

  ghost predicate AloneAt(e: Entry, i: nat) {
    e.phase == CalibratingOuts && Alone(e.tick.patched, i)
  }

  ghost predicate CurrentAt(e: Entry, i: nat) {
    e.phase == CalibratingOuts && e.current == Some(i)
  }

  /** The reading is the signal that the update at its time was given while output `i` was alone patched: steady, and
      near the target. */
  ghost predicate Measured(r: Reading, i: nat, log: seq<Entry>, target: real) {
    && r.time < |log| && AloneAt(log[r.time], i)
    && r.value == log[r.time].tick.measured.iir && Validates(log[r.time].tick.measured, target, OUT_TOLERANCE)
  }

  datatype Evidence = Evidence(start: nat, low: Reading, high: Reading, zero: Reading)

  /** The low, high and zero readings were measured in this order, after output `i` last became the current one, and
      from the first to the last it was the only one patched in every update. */
  ghost predicate Sound(e: Evidence, i: nat, log: seq<Entry>) {
    && e.start < e.low.time < e.high.time < e.zero.time < |log|
    && Measured(e.low, i, log, OUT_LOW) && Measured(e.high, i, log, OUT_HIGH) && Measured(e.zero, i, log, OUT_ZERO)
    && (forall t :: e.start <= t < e.zero.time ==> CurrentAt(log[t], i))
    && (forall t :: e.low.time <= t <= e.zero.time ==> AloneAt(log[t], i))
  }

  lemma OutputSpread(e: Evidence, i: nat, log: seq<Entry>)
    requires Sound(e, i, log)
    ensures e.high.value - e.low.value > 3.5
  {
  }

  /** Soundness is about the past only. */
  lemma SoundLater(e: Evidence, i: nat, log: seq<Entry>, o: Entry)
    requires Sound(e, i, log)
    ensures Sound(e, i, log + [o])
  {
    hide Validates, AloneAt, CurrentAt;
  }

  lemma InputSoundLater(e: InputEvidence, i: nat, log: seq<Entry>, o: Entry)
    requires InputSound(e, i, log)
    ensures InputSound(e, i, log + [o])
  {
    hide Validates;
  }

  // ----- One input -----

  /** One input: its status, when the measurer last recorded low and high for it, and what is saved for it. */
  datatype Input = Input(status: Status, low: Reading, high: Reading, recorded: Pair,
                         loaded: Pair, saved: Pair, evidence: Option<InputEvidence>)

  /** The status tells what has been recorded since the input was plugged in, and what is saved is sound. */
  ghost predicate InputHolds(s: Input, i: nat, log: seq<Entry>) {
    && (s.status == LowOnly ==> RecordedSince(s.low, i, log, s.recorded.low, INPUT_LOW))
    && (s.status == HighOnly ==> RecordedSince(s.high, i, log, s.recorded.high, INPUT_HIGH))
    && SavedSound(s, i, log)
  }

  ghost predicate RecordedSince(r: Reading, i: nat, log: seq<Entry>, v: real, target: real) {
    InputMeasured(r, i, log, target) && PluggedSince(log, i, r.time) && r.value == v
  }

  ghost predicate SavedSound(s: Input, i: nat, log: seq<Entry>) {
    match s.evidence
    case Some(e) => InputSound(e, i, log) && s.saved == Pair(e.low.value, e.high.value)
    case None => s.saved == s.loaded
  }

  /** An update that saw the input plugged extends every streak. */
  lemma StillPlugged(s: Input, i: nat, log: seq<Entry>, o: Entry)
    requires InputHolds(s, i, log) && PluggedAt(o, i)
    ensures InputHolds(s, i, log + [o])
  {
    if s.evidence.Some? {
      InputSoundLater(s.evidence.value, i, log, o);
    }
  }

  /** One that saw it unplugged ends them: half a measurement becomes an error. */
  lemma Unplugged(s: Input, i: nat, log: seq<Entry>, o: Entry)
    requires InputHolds(s, i, log) && s.status != LowOnly && s.status != HighOnly
    ensures InputHolds(s, i, log + [o])
  {
    if s.evidence.Some? {
      InputSoundLater(s.evidence.value, i, log, o);
    }
  }

  lemma RecordedNow(i: nat, log: seq<Entry>, now: nat, target: real)
    requires |log| == now + 1 && PluggedAt(log[now], i) && Validates(log[now].tick.signals[i], target, INPUT_TOLERANCE)
    ensures RecordedSince(Reading(now, log[now].tick.signals[i].iir), i, log, log[now].tick.signals[i].iir, target)
  {
  }

  /** The second of the two readings completes sound evidence. */
  lemma BothRecorded(low: Reading, high: Reading, i: nat, log: seq<Entry>, now: nat, recorded: Pair)
    requires |log| == now + 1 && (low.time == now || high.time == now)
    requires RecordedSince(low, i, log, recorded.low, INPUT_LOW)
      && RecordedSince(high, i, log, recorded.high, INPUT_HIGH)
    ensures InputSound(InputEvidence(low, high), i, log) && recorded == Pair(low.value, high.value)
  {
  }

  // ----- The current output -----

  /** The current output, its status, the readings measured so far, and when it became current and they were taken. */
  datatype Track = Track(current: Option<nat>, status: Status, measLow: real, measHigh: real,
                         start: nat, low: Reading, high: Reading)

  /** The status tells which readings have been taken on the current output, in order, with it alone patched since the
      first of them. */
  ghost predicate TrackHolds(k: Track, log: seq<Entry>) {
    k.current.Some? ==>
      var a := k.current.value;
      && k.start < |log| && (forall t :: k.start <= t < |log| ==> CurrentAt(log[t], a))
      && (k.status == LowOnly || k.status == HighOnly ==>
            && k.start < k.low.time && k.low.value == k.measLow && Measured(k.low, a, log, OUT_LOW)
            && forall t :: k.low.time <= t < |log| ==> AloneAt(log[t], a))
      && (k.status == HighOnly ==>
            k.low.time < k.high.time && k.high.value == k.measHigh && Measured(k.high, a, log, OUT_HIGH))
  }

  /** What an update at time `now` that finds only output `a` patched, and the signal `m`, may do. */
  ghost predicate Moves(k: Track, l: Track, a: nat, m: Signal, now: nat) {
    || l.current.None?
    || (l.current == Some(a) && l.start == now && l.status == Settling)
    || (k.current == l.current == Some(a) && l.start == k.start &&
        (|| l.status == Settling || l.status == NotCal || l.status == Error || l.status == Done
         || l == k
         || (l.status == LowOnly && l.measLow == m.iir && l.low == Reading(now, m.iir)
             && Validates(m, OUT_LOW, OUT_TOLERANCE))
         || (k.status == LowOnly && l == k.(status := HighOnly, measHigh := m.iir, high := Reading(now, m.iir))
             && Validates(m, OUT_HIGH, OUT_TOLERANCE))))
  }

  lemma MovesKeep(k: Track, l: Track, a: nat, log: seq<Entry>, o: Entry)
    requires TrackHolds(k, log) && Moves(k, l, a, o.tick.measured, |log|) && AloneAt(o, a) && o.current == l.current
    ensures TrackHolds(l, log + [o])
  {
    hide Validates, Alone;
  }

  /** An update that finds no output patched, or several. */
  lemma PassKeeps(k: Track, log: seq<Entry>, o: Entry)
    requires TrackHolds(k, log) && o.current == k.current && o.phase == CalibratingOuts
    requires k.current.Some? ==> k.status != LowOnly && k.status != HighOnly
    ensures TrackHolds(k, log + [o])
  {
    hide Measured;
  }

  /** The zero reading completes sound evidence. */
  lemma ThirdReading(k: Track, a: nat, log: seq<Entry>, o: Entry, zero: Reading)
    requires TrackHolds(k, log) && k.current == Some(a) && k.status == HighOnly && AloneAt(o, a)
    requires zero == Reading(|log|, o.tick.measured.iir) && Validates(o.tick.measured, OUT_ZERO, OUT_TOLERANCE)
    ensures Sound(Evidence(k.start, k.low, k.high, zero), a, log + [o])
    ensures k.low.value == k.measLow && k.high.value == k.measHigh
  {
    hide Validates, Alone;
  }

  // ----- What decides the routine's next step -----

  /** Phase, buttons and jacks; the measurer's turn; and the current output with its delay and readings. */
  datatype Control = Control(phase: Phase, nextStep: bool, status: seq<Status>, plugged: seq<bool>, ctr: nat,
                             current: Option<nat>, delay: nat, low: real, high: real)

  /** Either kind of reading may come first. */
  function NextInputStatus(status: Status, event: Event): Status {
    if event.MeasuredLow? && status == NotCal then LowOnly
    else if event.MeasuredHigh? && status == NotCal then HighOnly
    else if event.MeasuredLow? && status == HighOnly then Done
    else if event.MeasuredHigh? && status == LowOnly then Done
    else status
  }

  /** Plugging in starts over unless the input is done. */
  function PlugStep(m: Control, i: nat, plugged: bool): Control
    requires i < |m.status| == |m.plugged|
  {
    var starts := plugged && !m.plugged[i] && m.status[i] != Done;
    m.(plugged := m.plugged[i := plugged], status := if starts then m.status[i := NotCal] else m.status,
       ctr := if starts then 0 else m.ctr)
  }

  function InputStep(m: Control, i: nat, plugged: bool, s: Signal): (n: Control)
    requires i < |m.status| == |m.plugged|
    ensures |n.status| == |n.plugged| == |m.status|
    ensures forall j :: 0 <= j < |m.status| && j != i ==> n.status[j] == m.status[j]
  {
    var n := PlugStep(m, i, plugged);
    if plugged && n.status[i] != Done then
      n.(status := n.status[i := NextInputStatus(n.status[i], if n.ctr == 0 then Nothing else Judge(s))],
         ctr := if n.ctr == 0 then 1 else 0)
    else if !plugged && (n.status[i] == LowOnly || n.status[i] == HighOnly) then n.(status := n.status[i := Error])
    else n
  }

  /** The first `k` inputs in turn. */
  function InputSteps(m: Control, t: Tick, k: nat): (n: Control)
    requires k <= |m.status| == |m.plugged| && k <= |t.plugged| && k <= |t.signals|
    ensures |n.status| == |n.plugged| == |m.status|
  {
    if k == 0 then m else InputStep(InputSteps(m, t, k - 1), k - 1, t.plugged[k - 1], t.signals[k - 1])
  }

  predicate DoneUpTo(status: seq<Status>, k: nat)
    requires k <= |status|
  {
    forall i :: 0 <= i < k ==> status[i] == Done
  }

  lemma DoneNext(m: Control, k: nat, plugged: bool, s: Signal)
    requires k < |m.status| == |m.plugged|
    ensures var n := InputStep(m, k, plugged, s);
            DoneUpTo(n.status, k + 1) <==> DoneUpTo(m.status, k) && n.status[k] == Done
  {
    var n := InputStep(m, k, plugged, s);
    hide InputStep;
  }

  lemma InputStepsNext(m: Control, t: Tick, k: nat)
    requires k < |m.status| == |m.plugged| && k < |t.plugged| && k < |t.signals|
    ensures InputSteps(m, t, k + 1) == InputStep(InputSteps(m, t, k), k, t.plugged[k], t.signals[k])
  {
    hide InputStep;
  }

  /** An output that is unplugged half way has failed. */
  function Scanned(status: seq<Status>, patched: seq<bool>, k: nat): (r: seq<Status>)
    requires k <= |patched| && k <= |status|
    ensures |r| == |status|
  {
    seq(|status|, i requires 0 <= i < |status| =>
      if i < k && !patched[i] && (status[i] == LowOnly || status[i] == HighOnly) then Error else status[i])
  }

  lemma ScannedStep(status: seq<Status>, patched: seq<bool>, k: nat)
    requires k < |patched| && k < |status|
    ensures Scanned(status, patched, k)[k] == status[k]
    ensures Scanned(status, patched, k + 1)
         == if !patched[k] && (status[k] == LowOnly || status[k] == HighOnly)
            then Scanned(status, patched, k)[k := Error]
            else Scanned(status, patched, k)
  {
  }

  lemma ScannedNothing(status: seq<Status>, patched: seq<bool>)
    ensures Scanned(status, patched, 0) == status
  {
  }

  lemma PluggedStep(plugged: seq<bool>, patched: seq<bool>, k: nat)
    requires k < |patched| <= |plugged|
    ensures (patched[..k] + plugged[k..])[k := patched[k]] == patched[..k + 1] + plugged[k + 1..]
  {
  }

  function CountPatched(patched: seq<bool>, k: nat): (n: nat)
    requires k <= |patched|
    ensures n <= k
  {
    if k == 0 then 0 else CountPatched(patched, k - 1) + if patched[k - 1] then 1 else 0
  }

  function LastPatched(patched: seq<bool>, k: nat): (i: nat)
    requires k <= |patched|
    ensures CountPatched(patched, k) > 0 ==> i < k && patched[i]
  {
    if k == 0 then 0 else if patched[k - 1] then k - 1 else LastPatched(patched, k - 1)
  }

  lemma {:induction false} NonePatched(patched: seq<bool>, k: nat, i: nat)
    requires i < k <= |patched| && patched[i]
    ensures CountPatched(patched, k) >= 1
  {
    if i < k - 1 {
      NonePatched(patched, k - 1, i);
    }
  }

  lemma {:induction false} TwoPatched(patched: seq<bool>, k: nat, i: nat, j: nat)
    requires i < j < k <= |patched| && patched[i] && patched[j]
    ensures CountPatched(patched, k) >= 2
  {
    if j < k - 1 {
      TwoPatched(patched, k - 1, i, j);
    } else {
      NonePatched(patched, k - 1, i);
    }
  }

  lemma {:induction false} OnePatched(patched: seq<bool>, k: nat, i: nat)
    requires k <= |patched| && forall j :: 0 <= j < k && j != i ==> !patched[j]
    ensures CountPatched(patched, k) == if i < k && patched[i] then 1 else 0
  {
    if k > 0 {
      OnePatched(patched, k - 1, i);
    }
  }

  /** The count tells whether none, exactly one or several outputs are patched. */
  lemma {:induction false} CountIsAlone(patched: seq<bool>)
    ensures CountPatched(patched, |patched|) == 1 ==> Alone(patched, LastPatched(patched, |patched|))
    ensures CountPatched(patched, |patched|) == 0 ==> forall i :: 0 <= i < |patched| ==> !patched[i]
    ensures CountPatched(patched, |patched|) > 1 ==> forall i :: !Alone(patched, i)
  {
    var n, a := CountPatched(patched, |patched|), LastPatched(patched, |patched|);
    forall i | 0 <= i < |patched| && patched[i] && (n == 0 || i != a)
      ensures n >= 1 && (n == 1 ==> !patched[a])
    {
      NonePatched(patched, |patched|, i);
      if n == 1 && patched[a] {
        TwoPatched(patched, |patched|, if i < a then i else a, if i < a then a else i);
      }
    }
    forall i | Alone(patched, i)
      ensures n <= 1
    {
      OnePatched(patched, |patched|, i);
    }
  }

  // ----- The routine -----

  class Routine {
    const numIn: nat
    const numOut: nat

    /** The offset that the calibrator derives from a low and a high reading. */
    const offsetOf: (real, real) -> real
    const measurer: Measurer

    var phase: Phase
    var nextStep: bool
    var jackStatus: seq<Status>
    var jackPlugged: seq<bool>
    var inSignals: seq<Signal>
    var inCal: seq<Pair>
    var outCal: seq<Pair>
    var currentOutput: Option<nat>
    var delayMeasurement: nat
    var measZero: real
    var measLow: real
    var measHigh: real

    /** Every update so far, when the readings at hand were taken, and the evidence for what is stored. */
    ghost var history: seq<Entry>
    ghost var inLow: seq<Reading>
    ghost var inHigh: seq<Reading>
    ghost var inEvidence: seq<Option<InputEvidence>>
    ghost var inLoaded: seq<Pair>
    ghost var outLoaded: seq<Pair>
    ghost var start: nat
    ghost var low: Reading
    ghost var high: Reading
    ghost var outEvidence: seq<Option<Evidence>>

    ghost function Now(): Control
      reads `phase, `nextStep, `jackStatus, `jackPlugged, measurer`delayCtr, `currentOutput, `delayMeasurement,
        `measLow, `measHigh
    {
      Control(phase, nextStep, jackStatus, jackPlugged, measurer.delayCtr, currentOutput, delayMeasurement, measLow,
              measHigh)
    }

    predicate Sized(m: Control) {
      |m.status| == |m.plugged| && |m.status| >= numIn && |m.status| >= numOut
    }

    ghost predicate InShape()
      reads `jackStatus, `inCal, `inLow, `inHigh, `inEvidence, `inLoaded, measurer`calData
    {
      |jackStatus| >= numIn && |inCal| == |inLow| == |inHigh| == |inEvidence| == |inLoaded| == |measurer.calData|
         == numIn
    }

    ghost predicate Shape()
      reads `jackStatus, `jackPlugged, `inSignals, `inCal, `outCal, `inLow, `inHigh, `inEvidence, `inLoaded,
        `outEvidence, measurer`calData
    {
      && 1 <= numIn && InShape() && |inSignals| == numIn && |jackStatus| == |jackPlugged|
      && |jackStatus| >= numOut && |outCal| == |outEvidence| == numOut
    }

    predicate Fits(t: Tick) {
      |t.plugged| == |t.signals| == numIn && |t.patched| == numOut
    }

    /** What every update keeps. */
    ghost predicate Valid()
      reads this, measurer
    {
      && Shape()
      && (forall i :: 0 <= i < numIn ==> SavedSound(In(i), i, history))
      && (phase == CalibratingIns ==> forall i :: 0 <= i < numIn ==> InputHolds(In(i), i, history))
      && (phase == CalibratingOuts ==> OutputHolds(history))
      && OutputsSound(history)
    }

    constructor (numIn: nat, numOut: nat, offsetOf: (real, real) -> real)
      requires 1 <= numIn
      ensures Valid() && phase == Idle && this.numIn == numIn && this.numOut == numOut && fresh(measurer)
    {
      var jacks := if numIn < numOut then numOut else numIn;
      this.numIn, this.numOut, this.offsetOf := numIn, numOut, offsetOf;
      measurer := new Measurer(numIn);
      phase, nextStep, currentOutput, delayMeasurement := Idle, false, None, 0;
      jackStatus, jackPlugged := seq(jacks, _ => NotCal), seq(jacks, _ => false);
      inSignals, inCal := seq(numIn, _ => ResetTo(0.0)), seq(numIn, _ => Pair(0.0, 0.0));
      outCal := seq(numOut, _ => Pair(0.0, 0.0));
      measZero, measLow, measHigh := 0.0, 0.0, 0.0;
      history, inEvidence := [], seq(numIn, _ => None);
      inLow, inHigh := seq(numIn, _ => Reading(0, 0.0)), seq(numIn, _ => Reading(0, 0.0));
      inLoaded, outLoaded := seq(numIn, _ => Pair(0.0, 0.0)), seq(numOut, _ => Pair(0.0, 0.0));
      start, low, high, outEvidence := 0, Reading(0, 0.0), Reading(0, 0.0), seq(numOut, _ => None);
    }

    // ----- Inputs -----

    ghost function In(i: nat): Input
      requires InShape() && i < numIn
      reads `jackStatus, `inCal, `inLow, `inHigh, `inEvidence, `inLoaded, measurer`calData
    {
      Input(jackStatus[i], inLow[i], inHigh[i], measurer.calData[i], inLoaded[i], inCal[i], inEvidence[i])
    }

    /** `set_input_plugged`: plugging in starts over unless the input is done. */
    method SetInputPlugged(i: nat, plugged: bool)
      requires Shape() && i < numIn
      modifies `jackStatus, `jackPlugged, measurer`delayCtr
      ensures Shape() && forall j {:trigger In(j)} :: 0 <= j < numIn && j != i ==> In(j) == old(In(j))
      ensures In(i) == old(In(i)) || (plugged && In(i) == old(In(i)).(status := NotCal))
      ensures Now() == PlugStep(old(Now()), i, plugged)
    {
      if plugged && !jackPlugged[i] {
        jackPlugged := jackPlugged[i := true];
        if jackStatus[i] != Done {
          measurer.StartChan();
          jackStatus := jackStatus[i := NotCal];
        }
      } else if !plugged && jackPlugged[i] {
        jackPlugged := jackPlugged[i := false];
      }
    }

    method SetInputStatus(i: nat, status: Status)
      requires Shape() && i < numIn
      modifies `jackStatus
      ensures Shape() && jackStatus == old(jackStatus)[i := status] && In(i) == old(In(i)).(status := status)
      ensures forall j {:trigger In(j)} :: 0 <= j < numIn && j != i ==> In(j) == old(In(j))
    {
      jackStatus := jackStatus[i := status];
    }

    /** `measure_input`: the status advances with what the measurer records; the second kind of reading saves both. */
    method MeasureInput(i: nat, ghost log: seq<Entry>)
      requires Shape() && i < numIn && |log| > 0 && InputHolds(In(i), i, log)
      requires PluggedAt(log[|log| - 1], i) && inSignals[i] == log[|log| - 1].tick.signals[i]
      modifies `jackStatus, `inSignals, `inCal, `inLow, `inHigh, `inEvidence, measurer
      ensures Shape() && forall j {:trigger In(j)} :: 0 <= j < numIn && j != i ==> In(j) == old(In(j))
      ensures InputHolds(In(i), i, log)
      ensures jackStatus == old(jackStatus)[i := NextInputStatus(old(jackStatus[i]),
        if old(measurer.delayCtr) == 0 then Nothing else Judge(old(inSignals[i])))]
      ensures measurer.delayCtr == if old(measurer.delayCtr) == 0 then 1 else 0
      ensures old(jackStatus[i]) != Done && jackStatus[i] == Done ==>
        inEvidence[i].Some? && inCal[i] == measurer.calData[i]
    {
      hide Validates, RecordedSince, InputSound;
      var event, after := measurer.Read(i, inSignals[i]);
      inSignals := inSignals[i := after];
      if event.MeasuredLow? {
        RecordedNow(i, log, |log| - 1, INPUT_LOW);
        inLow := inLow[i := Reading(|log| - 1, after.iir)];
        TakeInput(i, event, log);
      } else if event.MeasuredHigh? {
        RecordedNow(i, log, |log| - 1, INPUT_HIGH);
        inHigh := inHigh[i := Reading(|log| - 1, after.iir)];
        TakeInput(i, event, log);
      }
    }

    /** Advance the status with a reading just recorded. */
    method TakeInput(i: nat, event: Event, ghost log: seq<Entry>)
      requires Shape() && i < numIn && |log| > 0 && SavedSound(In(i), i, log)
      requires event.MeasuredLow? || event.MeasuredHigh?
      requires event.MeasuredLow? || jackStatus[i] == LowOnly ==>
        RecordedSince(inLow[i], i, log, measurer.calData[i].low, INPUT_LOW)
      requires event.MeasuredHigh? || jackStatus[i] == HighOnly ==>
        RecordedSince(inHigh[i], i, log, measurer.calData[i].high, INPUT_HIGH)
      requires (if event.MeasuredLow? then inLow[i] else inHigh[i]).time == |log| - 1
      modifies `jackStatus, `inCal, `inEvidence
      ensures Shape() && forall j {:trigger In(j)} :: 0 <= j < numIn && j != i ==> In(j) == old(In(j))
      ensures InputHolds(In(i), i, log)
      ensures jackStatus == old(jackStatus)[i := NextInputStatus(old(jackStatus[i]), event)]
      ensures old(jackStatus[i]) != Done && jackStatus[i] == Done ==>
        inEvidence[i].Some? && inCal[i] == measurer.calData[i]
    {
      hide RecordedSince, InputSound;
      if jackStatus[i] == NotCal {
        jackStatus := jackStatus[i := if event.MeasuredLow? then LowOnly else HighOnly];
      } else if (event.MeasuredLow? && jackStatus[i] == HighOnly) || (event.MeasuredHigh? && jackStatus[i] == LowOnly) {
        BothRecorded(inLow[i], inHigh[i], i, log, |log| - 1, measurer.calData[i]);
        jackStatus := jackStatus[i := Done];
        SaveCalInReadings(i, measurer.calData[i]);
      }
    }

    method SaveCalInReadings(i: nat, readings: Pair)
      requires Shape() && i < numIn
      modifies `inCal, `inEvidence
      ensures inCal == old(inCal)[i := readings]
      ensures inEvidence == old(inEvidence)[i := Some(InputEvidence(inLow[i], inHigh[i]))]
    {
      inCal := inCal[i := readings];
      inEvidence := inEvidence[i := Some(InputEvidence(inLow[i], inHigh[i]))];
    }

    /** A plugged input's part of the update: it is measured unless it is done. */
    method UpdatePlugged(i: nat, signal: Signal, ghost log: seq<Entry>, ghost o: Entry)
      requires Shape() && i < numIn && InputHolds(In(i), i, log) && PluggedAt(o, i) && o.tick.signals[i] == signal
      modifies `jackStatus, `jackPlugged, `inSignals, `inCal, `inLow, `inHigh, `inEvidence, measurer
      ensures Shape() && forall j {:trigger In(j)} :: 0 <= j < numIn && j != i ==> In(j) == old(In(j))
      ensures InputHolds(In(i), i, log + [o]) && Now() == InputStep(old(Now()), i, true, signal)
    {
      hide InputHolds, PlugStep, Judge, NextInputStatus, Validates;
      NotCalHolds(In(i), i, log);
      SetInputPlugged(i, true);
      StillPlugged(In(i), i, log, o);
      inSignals := inSignals[i := signal];
      if jackStatus[i] != Done {
        MeasureInput(i, log + [o]);
      }
    }

    /** One input's part of the update. */
    method UpdateInput(i: nat, plugged: bool, signal: Signal, ghost log: seq<Entry>, ghost o: Entry)
      requires Shape() && i < numIn && InputHolds(In(i), i, log)
      requires o.phase == CalibratingIns && i < |o.tick.plugged| && i < |o.tick.signals|
      requires o.tick.plugged[i] == plugged && o.tick.signals[i] == signal
      modifies `jackStatus, `jackPlugged, `inSignals, `inCal, `inLow, `inHigh, `inEvidence, measurer
      ensures Shape() && forall j {:trigger In(j)} :: 0 <= j < numIn && j != i ==> In(j) == old(In(j))
      ensures InputHolds(In(i), i, log + [o]) && Now() == InputStep(old(Now()), i, plugged, signal)
    {
      hide InputHolds, PlugStep, Judge, NextInputStatus, Validates;
      if plugged {
        UpdatePlugged(i, signal, log, o);
      } else {
        SetInputPlugged(i, false);
        if jackStatus[i] == LowOnly || jackStatus[i] == HighOnly {
          NotCalHolds(In(i), i, log);
          SetInputStatus(i, Error);
        }
        Unplugged(In(i), i, log, o);
      }
    }

    /** All inputs are done and unplugged, or the button was pressed: then on to the outputs, which are all to do. */
    function EndIns(m: Control, t: Tick): (n: Control)
      requires Sized(m) && Fits(t)
      ensures Sized(n)
    {
      if m.nextStep || forall i :: 0 <= i < numIn ==> m.status[i] == Done && !t.plugged[i]
      then OutputsToDo(m.(nextStep := false))
      else m
    }

    function OutputsToDo(m: Control): (n: Control)
      requires Sized(m)
      ensures Sized(n)
    {
      m.(phase := CalibratingOuts, current := None,
         status := seq(|m.status|, i requires 0 <= i < |m.status| => if i < numOut then NotCal else m.status[i]),
         plugged := seq(|m.plugged|, i requires 0 <= i < |m.plugged| => if i < numOut then false else m.plugged[i]))
    }

    /** The inputs' part of an update: every input in turn, counting those done and those plugged. */
    method MeasureIns(t: Tick, ghost o: Entry) returns (numDone: nat, numPlugged: nat)
      requires Shape() && phase == CalibratingIns && Fits(t) && o == Entry(t, CalibratingIns, None)
      requires forall i :: 0 <= i < numIn ==> InputHolds(In(i), i, history)
      modifies `jackStatus, `jackPlugged, `inSignals, `inCal, `inLow, `inHigh, `inEvidence, measurer
      ensures Shape() && forall i :: 0 <= i < numIn ==> InputHolds(In(i), i, history + [o])
      ensures Now() == InputSteps(old(Now()), t, numIn)
      ensures numDone == numIn <==> forall i :: 0 <= i < numIn ==> jackStatus[i] == Done
      ensures numPlugged == 0 <==> forall i :: 0 <= i < numIn ==> !t.plugged[i]
    {
      hide InputSteps;
      numDone, numPlugged := 0, 0;
      ghost var m := Now();
      assert InputSteps(m, t, 0) == m by {
        NoInputSteps(m, t);
      }
      for i := 0 to numIn
        invariant Shape() && Now() == InputSteps(m, t, i)
        invariant 0 <= numDone <= i && (numDone == i <==> DoneUpTo(InputSteps(m, t, i).status, i))
        invariant 0 <= numPlugged && (numPlugged == 0 <==> forall j :: 0 <= j < i ==> !t.plugged[j])
        invariant forall j :: 0 <= j < numIn ==> InputHolds(In(j), j, if j < i then history + [o] else history)
      {
        hide InputHolds, InputStep, Now, DoneUpTo, Fits;
        InputStepsNext(m, t, i);
        DoneNext(InputSteps(m, t, i), i, t.plugged[i], t.signals[i]);
        if t.plugged[i] {
          numPlugged := numPlugged + 1;
        }
        UpdateInput(i, t.plugged[i], t.signals[i], history, o);
        NowHasStatus();
        if jackStatus[i] == Done {
          numDone := numDone + 1;
        }
      }
    }

    lemma NowHasStatus()
      ensures Now().status == jackStatus
    {
    }

    lemma NoInputSteps(m: Control, t: Tick)
      requires |m.status| == |m.plugged|
      ensures InputSteps(m, t, 0) == m
    {
    }

    lemma HoldsSaved(log: seq<Entry>)
      requires InShape() && forall i :: 0 <= i < numIn ==> InputHolds(In(i), i, log)
      ensures forall i, s :: 0 <= i < numIn ==> SavedSound(In(i).(status := s), i, log)
    {
    }

    /** `update_cal_ins_routine`. */
    method UpdateCalIns(t: Tick)
      requires Shape() && phase == CalibratingIns && Fits(t)
      requires forall i :: 0 <= i < numIn ==> InputHolds(In(i), i, history)
      modifies `jackStatus, `jackPlugged, `inSignals, `inCal, `inLow, `inHigh, `inEvidence, `history, `nextStep, `phase,
               `currentOutput, measurer
      ensures Shape() && history == old(history) + [Entry(t, CalibratingIns, None)]
      ensures forall i :: 0 <= i < numIn ==> SavedSound(In(i), i, history)
      ensures phase == CalibratingIns ==> forall i :: 0 <= i < numIn ==> InputHolds(In(i), i, history)
      ensures phase == CalibratingIns || (phase == CalibratingOuts && currentOutput == None)
      ensures Now() == EndIns(InputSteps(old(Now()), t, numIn), t)
    {
      hide InputSteps, OutputsToDo, InputHolds, SavedSound;
      ghost var o := Entry(t, CalibratingIns, None);
      var numDone, numPlugged := MeasureIns(t, o);
      history := history + [o];
      HoldsSaved(history);
      if (numDone == numIn && numPlugged == 0) || nextStep {
        nextStep := false;
        StartCalibrateOuts();
      }
    }

    /** `start_calibrate_outs`: all outputs are to do. */
    method StartCalibrateOuts()
      requires Shape()
      modifies `jackStatus, `jackPlugged, `phase, `currentOutput
      ensures Shape() && phase == CalibratingOuts && currentOutput == None
      ensures forall i :: 0 <= i < numOut ==> jackStatus[i] == NotCal && !jackPlugged[i]
      ensures forall i {:trigger In(i)} :: 0 <= i < numIn ==> In(i) == old(In(i)).(status := jackStatus[i])
      ensures Now() == OutputsToDo(old(Now()))
    {
      for i := 0 to numOut
        invariant Shape() && |jackStatus| == old(|jackStatus|)
        invariant forall j :: 0 <= j < i ==> jackStatus[j] == NotCal && !jackPlugged[j]
        invariant forall j :: i <= j < |jackStatus| ==>
          jackStatus[j] == old(jackStatus[j]) && jackPlugged[j] == old(jackPlugged[j])
      {
        jackStatus, jackPlugged := jackStatus[i := NotCal], jackPlugged[i := false];
      }
      phase, currentOutput := CalibratingOuts, None;
    }

    // ----- Outputs -----

    ghost function Tracked(): Track
      requires currentOutput.Some? ==> currentOutput.value < |jackStatus|
      reads `jackStatus, `currentOutput, `measLow, `measHigh, `start, `low, `high
    {
      Track(currentOutput, if currentOutput.Some? then jackStatus[currentOutput.value] else NotCal, measLow, measHigh,
            start, low, high)
    }

    ghost predicate CurrentInRange()
      reads `jackStatus, `currentOutput
    {
      currentOutput.Some? ==> currentOutput.value < numOut <= |jackStatus|
    }

    ghost predicate OutputHolds(log: seq<Entry>)
      reads `jackStatus, `currentOutput, `measLow, `measHigh, `start, `low, `high
    {
      CurrentInRange() && TrackHolds(Tracked(), log)
    }

    /** Every calibration computed since the start is backed by sound readings. */
    ghost predicate OutputsSound(log: seq<Entry>)
      reads `outCal, `outEvidence, `outLoaded
    {
      |outCal| == |outEvidence| == |outLoaded| == numOut &&
      forall i :: 0 <= i < numOut ==>
        match outEvidence[i]
        case Some(e) => Sound(e, i, log) && outCal[i] == Pair(e.low.value, e.high.value)
        case None => outCal[i] == outLoaded[i]
    }

    lemma OutputsSoundLater(log: seq<Entry>, o: Entry)
      requires OutputsSound(log)
      ensures OutputsSound(log + [o])
    {
      forall i | 0 <= i < numOut && outEvidence[i].Some?
        ensures Sound(outEvidence[i].value, i, log + [o])
      {
        SoundLater(outEvidence[i].value, i, log, o);
      }
    }

    ghost predicate AllDone()
      requires |jackStatus| >= numOut
      reads `jackStatus
    {
      forall i :: 0 <= i < numOut ==> jackStatus[i] == Done
    }

    /** The first loop of the update: count what is patched, and fail outputs that were unplugged half way. */
    method ScanOutputs(patched: seq<bool>) returns (numDone: nat, numPatched: nat, active: nat)
      requires Shape() && |patched| == numOut && OutputHolds(history)
      modifies `jackStatus, `jackPlugged
      ensures Shape() && |jackStatus| == old(|jackStatus|) && OutputHolds(history)
      ensures numPatched == CountPatched(patched, numOut) && active == LastPatched(patched, numOut)
      ensures numPatched == 1 ==> active < numOut && Alone(patched, active)
      ensures numPatched == 0 ==> forall i :: 0 <= i < numOut ==> jackStatus[i] != LowOnly && jackStatus[i] != HighOnly
      ensures CurrentInRange()
      ensures numPatched > 1 ==> forall i :: !Alone(patched, i)
      ensures numDone == numOut <==> old(AllDone())
      ensures jackStatus == Scanned(old(jackStatus), patched, numOut)
      ensures jackPlugged == patched + old(jackPlugged[numOut..])
    {
      ghost var k := Tracked();
      numDone, numPatched, active := CountOutputs(patched);
      CountIsAlone(patched);
      ScanHolds(k, Tracked(), history);
    }

    method CountOutputs(patched: seq<bool>) returns (numDone: nat, numPatched: nat, active: nat)
      requires Shape() && |patched| == numOut
      modifies `jackStatus, `jackPlugged
      ensures Shape() && |jackStatus| == old(|jackStatus|)
      ensures numPatched == CountPatched(patched, numOut) && active == LastPatched(patched, numOut)
      ensures numDone == numOut <==> old(AllDone())
      ensures jackStatus == Scanned(old(jackStatus), patched, numOut)
      ensures jackPlugged == patched + old(jackPlugged[numOut..])
    {
      hide Scanned;
      numDone, numPatched, active := 0, 0, 0;
      ghost var status, plugged := jackStatus, jackPlugged;
      ScannedNothing(status, patched);
      for i := 0 to numOut
        invariant Shape() && |jackStatus| == |status|
        invariant jackStatus == Scanned(status, patched, i) && jackPlugged == patched[..i] + plugged[i..]
        invariant 0 <= numDone <= i && (numDone == i <==> forall j :: 0 <= j < i ==> status[j] == Done)
        invariant numPatched == CountPatched(patched, i) && active == LastPatched(patched, i)
      {
        ScannedStep(status, patched, i);
        PluggedStep(plugged, patched, i);
        jackPlugged := jackPlugged[i := patched[i]];
        if patched[i] {
          numPatched := numPatched + 1;
          active := i;
        } else if jackStatus[i] == LowOnly || jackStatus[i] == HighOnly {
          jackStatus := jackStatus[i := Error];
        }
        if jackStatus[i] == Done {
          numDone := numDone + 1;
        }
      }
      assert patched[..numOut] == patched;
    }

    lemma ScanHolds(k: Track, l: Track, log: seq<Entry>)
      requires TrackHolds(k, log) && (l == k || l == k.(status := Error))
      ensures TrackHolds(l, log)
    {
    }

    /** How the status of the only patched output moves on: it settles, then is measured low, high and at zero, each
        as soon as a fifth update finds the signal steady at its target. */
    function NextStatus(current: bool, status: Status, delay: nat, s: Signal, low: real, high: real): Status {
      if !current then Settling
      else match status
        case Settling => if delay <= 1 then NotCal else Settling
        case NotCal => if delay >= 4 && Validates(s, OUT_LOW, OUT_TOLERANCE) then LowOnly else NotCal
        case LowOnly => if delay >= 4 && Validates(s, OUT_HIGH, OUT_TOLERANCE) then HighOnly else LowOnly
        case HighOnly =>
          if delay >= 4 && Validates(s, OUT_ZERO, OUT_TOLERANCE) && Abs(offsetOf(low, high) - s.iir) < OFFSET_TOLERANCE
          then Done else HighOnly
        case _ => status
    }

    function NextDelay(current: bool, status: Status, delay: nat): nat {
      if !current then 8
      else match status
        case Settling => if delay == 0 then 0 else delay - 1
        case NotCal | LowOnly | HighOnly => if delay >= 4 then 0 else delay + 1
        case _ => delay
    }

    /** A fifth update of the current output in this status has found the signal steady at its target. */
    predicate Taken(current: bool, status: Status, want: Status, delay: nat, s: Signal, target: real) {
      current && status == want && delay >= 4 && Validates(s, target, OUT_TOLERANCE)
    }

    /** One update with only output `a` patched. */
    function Advanced(m: Control, a: nat, s: Signal): (n: Control)
      requires Sized(m) && a < numOut
      ensures Sized(n)
    {
      var current, status := m.current == Some(a), m.status[a];
      m.(status := m.status[a := NextStatus(current, status, m.delay, s, m.low, m.high)],
         delay := NextDelay(current, status, m.delay),
         low := if Taken(current, status, NotCal, m.delay, s, OUT_LOW) then s.iir else m.low,
         high := if Taken(current, status, LowOnly, m.delay, s, OUT_HIGH) then s.iir else m.high,
         current := if Taken(current, status, HighOnly, m.delay, s, OUT_ZERO)
                       && Abs(offsetOf(m.low, m.high) - s.iir) >= OFFSET_TOLERANCE then None else Some(a))
    }

    lemma AdvancedFresh(m: Control, a: nat, s: Signal)
      requires Sized(m) && a < numOut && m.current != Some(a)
      ensures Advanced(m, a, s) == m.(status := m.status[a := Settling], delay := 8, current := Some(a))
    {
    }

    /** By the status of the current output. */
    lemma AdvancedCurrent(m: Control, a: nat, s: Signal)
      requires Sized(m) && a < numOut && m.current == Some(a)
      ensures var n := m.(status := m.status[a := NextStatus(true, m.status[a], m.delay, s, m.low, m.high)],
                          delay := NextDelay(true, m.status[a], m.delay));
              Advanced(m, a, s) == match m.status[a]
                case NotCal => n.(low := if Taken(true, NotCal, NotCal, m.delay, s, OUT_LOW) then s.iir else m.low)
                case LowOnly =>
                  n.(high := if Taken(true, LowOnly, LowOnly, m.delay, s, OUT_HIGH) then s.iir else m.high)
                case HighOnly =>
                  n.(current := if Taken(true, HighOnly, HighOnly, m.delay, s, OUT_ZERO)
                                   && Abs(offsetOf(m.low, m.high) - s.iir) >= OFFSET_TOLERANCE then None else Some(a))
                case _ => n
    {
    }

    function OutsStep(m: Control, t: Tick): (n: Control)
      requires Sized(m) && Fits(t)
      ensures Sized(n)
    {
      var s := m.(status := Scanned(m.status, t.patched, numOut), plugged := t.patched + m.plugged[numOut..]);
      var k := CountPatched(t.patched, numOut);
      if k == 1 then Advanced(s, LastPatched(t.patched, numOut), t.measured)
      else if k > 1 then s.(current := None) else s
    }

    /** All outputs were done, or the button was pressed: the phase is over. */
    function EndOuts(before: Control, m: Control, t: Tick): (n: Control)
      requires Sized(before) && Sized(m)
      ensures Sized(n)
    {
      if m.nextStep || forall i :: 0 <= i < numOut ==> before.status[i] == Done
      then m.(nextStep := false, phase := if t.dataValid then StartWritingCal else Idle)
      else m
    }

    function Pressed(m: Control, t: Tick): Control {
      m.(phase := if t.cancel then Idle else m.phase, nextStep := m.nextStep || t.next)
    }

    /** One update. */
    function Next(m: Control, t: Tick): (n: Control)
      requires Sized(m) && Fits(t)
      ensures Sized(n)
    {
      var p := Pressed(m, t);
      match p.phase
      case CalibratingIns => EndIns(InputSteps(p, t, numIn), t)
      case CalibratingOuts => EndOuts(p, OutsStep(p, t), t)
      case _ => p
    }

    /** What the history keeps of it. */
    function EntryOf(m: Control, t: Tick): Entry
      requires Sized(m) && Fits(t)
    {
      Entry(t, Pressed(m, t).phase, if Pressed(m, t).phase == CalibratingOuts then Next(m, t).current else None)
    }

    predicate AllFit(ticks: seq<Tick>) {
      forall k :: 0 <= k < |ticks| ==> Fits(ticks[k])
    }

    /** After some updates. */
    function After(m: Control, ticks: seq<Tick>): (n: Control)
      requires Sized(m) && AllFit(ticks)
      ensures Sized(n)
    {
      if ticks == [] then m else Next(After(m, ticks[..|ticks| - 1]), ticks[|ticks| - 1])
    }

    /** And what the history keeps of them. */
    function Log(m: Control, ticks: seq<Tick>): (log: seq<Entry>)
      requires Sized(m) && AllFit(ticks)
      ensures |log| == |ticks| && forall k :: 0 <= k < |ticks| ==> log[k].tick == ticks[k]
    {
      if ticks == [] then []
      else
        var init, last := ticks[..|ticks| - 1], ticks[|ticks| - 1];
        Log(m, init) + [EntryOf(After(m, init), last)]
    }

    /** `start_output_channel`: the output is told its next target, and the analysis of the input starts afresh. */
    method StartOutputChannel(chan: nat, target: real, status: Status)
      requires Shape() && chan < numOut
      modifies `jackStatus, `inSignals, `delayMeasurement
      ensures Shape() && jackStatus == old(jackStatus)[chan := status] && delayMeasurement == 0
      ensures inSignals == old(inSignals)[0 := ResetTo(target)]
    {
      inSignals := inSignals[0 := ResetTo(target)];
      delayMeasurement := 0;
      jackStatus := jackStatus[chan := status];
    }

    /** `measure_validate_output`: every fifth update looks at the signal, which `measured` has just updated. */
    method MeasureValidateOutput(measured: Signal, target: real) returns (valid: bool)
      requires Shape()
      modifies `inSignals, `delayMeasurement
      ensures Shape() && inSignals[0].iir == measured.iir
      ensures valid == (old(delayMeasurement) >= 4 && Validates(measured, target, OUT_TOLERANCE))
      ensures valid ==> Abs(measured.iir - target) < OUT_TOLERANCE
      ensures delayMeasurement == if old(delayMeasurement) >= 4 then 0 else old(delayMeasurement) + 1
    {
      valid := false;
      inSignals := inSignals[0 := measured];
      delayMeasurement := delayMeasurement + 1;
      if delayMeasurement - 1 >= 4 {
        valid := Validates(inSignals[0], target, OUT_TOLERANCE);
        delayMeasurement := 0;
        inSignals := inSignals[0 := ResetTo(inSignals[0].iir)];
      }
    }

    /** The third reading is in: compute the calibration, and accept it if the measured offset agrees; else retry. */
    method FinishOutput(active: nat, ghost log: seq<Entry>, ghost t: Tick)
      requires Shape() && OutputHolds(log) && OutputsSound(log) && active < numOut && Alone(t.patched, active)
      requires currentOutput == Some(active) && jackStatus[active] == HighOnly
      requires measZero == t.measured.iir && Validates(t.measured, OUT_ZERO, OUT_TOLERANCE)
      modifies `jackStatus, `currentOutput, `outCal, `outEvidence
      ensures Shape() && OutputsSound(log + [Entry(t, CalibratingOuts, currentOutput)])
      ensures outCal == old(outCal)[active := Pair(measLow, measHigh)]
      ensures if Abs(offsetOf(measLow, measHigh) - measZero) < OFFSET_TOLERANCE
              then jackStatus == old(jackStatus)[active := Done] && currentOutput == old(currentOutput)
              else jackStatus == old(jackStatus) && currentOutput == None
    {
      hide Alone, Sound, TrackHolds, Validates;
      ghost var k, zero := Tracked(), Reading(|log|, measZero);
      if Abs(offsetOf(measLow, measHigh) - measZero) < OFFSET_TOLERANCE {
        jackStatus := jackStatus[active := Done];
      } else {
        currentOutput := None;
      }
      ghost var o := Entry(t, CalibratingOuts, currentOutput);
      ThirdReading(k, active, log, o, zero);
      OutputsSoundLater(log, o);
      outCal := outCal[active := Pair(measLow, measHigh)];
      outEvidence := outEvidence[active := Some(Evidence(start, low, high, zero))];
    }

    /** The first reading of the current output. */
    method TakeLow(active: nat, measured: Signal, ghost now: nat)
      requires Shape() && active < numOut && currentOutput == Some(active) && jackStatus[active] == NotCal
      modifies `jackStatus, `inSignals, `delayMeasurement, `measLow, `low
      ensures Shape() && Moves(old(Tracked()), Tracked(), active, measured, now)
      ensures Now() == Advanced(old(Now()), active, measured)
    {
      hide Validates, Advanced;
      AdvancedCurrent(Now(), active, measured);
      var valid := MeasureValidateOutput(measured, OUT_LOW);
      if valid {
        measLow := inSignals[0].iir;
        low := Reading(now, measLow);
        StartOutputChannel(active, OUT_HIGH, LowOnly);
      } else {
        assert jackStatus[active := NotCal] == jackStatus;
      }
    }

    /** The second. */
    method TakeHigh(active: nat, measured: Signal, ghost now: nat)
      requires Shape() && active < numOut && currentOutput == Some(active) && jackStatus[active] == LowOnly
      modifies `jackStatus, `inSignals, `delayMeasurement, `measHigh, `high
      ensures Shape() && Moves(old(Tracked()), Tracked(), active, measured, now)
      ensures Now() == Advanced(old(Now()), active, measured)
    {
      hide Validates, Advanced;
      AdvancedCurrent(Now(), active, measured);
      var valid := MeasureValidateOutput(measured, OUT_HIGH);
      if valid {
        measHigh := inSignals[0].iir;
        high := Reading(now, measHigh);
        StartOutputChannel(active, OUT_ZERO, HighOnly);
      } else {
        assert jackStatus[active := LowOnly] == jackStatus;
      }
    }

    /** The third, which finishes the output. */
    method TakeZero(active: nat, measured: Signal, ghost log: seq<Entry>, ghost t: Tick)
      requires Shape() && OutputHolds(log) && OutputsSound(log) && active < numOut && Alone(t.patched, active)
      requires currentOutput == Some(active) && jackStatus[active] == HighOnly && t.measured == measured
      modifies `jackStatus, `inSignals, `delayMeasurement, `currentOutput, `measZero, `outCal, `outEvidence
      ensures Shape() && CurrentInRange() && Moves(old(Tracked()), Tracked(), active, measured, |log|)
      ensures OutputsSound(log + [Entry(t, CalibratingOuts, currentOutput)])
      ensures Now() == Advanced(old(Now()), active, measured)
    {
      hide OutputsSound, Validates, Alone, TrackHolds, Advanced, Abs;
      ghost var m := Now();
      var valid := MeasureValidateOutput(measured, OUT_ZERO);
      assert jackStatus[active := HighOnly] == jackStatus;
      if valid {
        measZero := inSignals[0].iir;
        FinishOutput(active, log, t);
      } else {
        OutputsSoundLater(log, Entry(t, CalibratingOuts, currentOutput));
      }
      AdvancedCurrent(m, active, measured);
    }

    /** Wait for the output to settle, or leave it: nothing is measured. */
    method SettleOutput(active: nat, measured: Signal, ghost now: nat)
      requires Shape() && active < numOut && currentOutput == Some(active)
      requires jackStatus[active] == Settling || jackStatus[active] == Error || jackStatus[active] == Done
      modifies `jackStatus, `inSignals, `delayMeasurement
      ensures Shape() && Moves(old(Tracked()), Tracked(), active, measured, now)
      ensures Now() == Advanced(old(Now()), active, measured)
    {
      hide Advanced;
      AdvancedCurrent(Now(), active, measured);
      assert jackStatus[active := jackStatus[active]] == jackStatus;
      if jackStatus[active] == Settling {
        if delayMeasurement != 0 {
          delayMeasurement := delayMeasurement - 1;
        }
        if delayMeasurement == 0 {
          StartOutputChannel(active, OUT_LOW, NotCal);
        }
      }
    }

    /** An output that was not the current one is told its first target, and is given time to settle. */
    method BeginOutput(active: nat, measured: Signal, ghost now: nat)
      requires Shape() && active < numOut && currentOutput != Some(active)
      modifies `jackStatus, `inSignals, `delayMeasurement, `currentOutput, `start
      ensures Shape() && CurrentInRange() && Now() == Advanced(old(Now()), active, measured)
      ensures Tracked().current == Some(active) && Tracked().start == now && Tracked().status == Settling
    {
      hide Advanced;
      AdvancedFresh(Now(), active, measured);
      currentOutput := Some(active);
      start := now;
      StartOutputChannel(active, OUT_LOW, Settling);
      delayMeasurement := 8;
    }

    /** One output is patched: go on with it, or start it if it was not the current one. */
    method AdvanceOutput(active: nat, measured: Signal, ghost log: seq<Entry>, ghost t: Tick)
      requires Shape() && OutputHolds(log) && OutputsSound(log) && active < numOut && Alone(t.patched, active)
      requires t.measured == measured
      modifies `jackStatus, `inSignals, `delayMeasurement, `currentOutput, `measLow, `measHigh, `measZero, `outCal,
               `outEvidence, `start, `low, `high
      ensures Shape() && OutputHolds(log + [Entry(t, CalibratingOuts, currentOutput)])
      ensures OutputsSound(log + [Entry(t, CalibratingOuts, currentOutput)])
      ensures Now() == Advanced(old(Now()), active, measured)
    {
      hide OutputsSound, Validates, Alone, TrackHolds, Advanced, Now;
      ghost var k := Tracked();
      if currentOutput != Some(active) {
        BeginOutput(active, measured, |log|);
        OutputsSoundLater(log, Entry(t, CalibratingOuts, currentOutput));
      } else if jackStatus[active] == NotCal {
        TakeLow(active, measured, |log|);
        OutputsSoundLater(log, Entry(t, CalibratingOuts, currentOutput));
      } else if jackStatus[active] == LowOnly {
        TakeHigh(active, measured, |log|);
        OutputsSoundLater(log, Entry(t, CalibratingOuts, currentOutput));
      } else if jackStatus[active] == HighOnly {
        TakeZero(active, measured, log, t);
      } else {
        SettleOutput(active, measured, |log|);
        OutputsSoundLater(log, Entry(t, CalibratingOuts, currentOutput));
      }
      MovesKeep(k, Tracked(), active, log, Entry(t, CalibratingOuts, currentOutput));
    }

    /** No output is patched, or more than one: in the second case none is current any more. */
    method PassOver(numPatched: nat, ghost log: seq<Entry>, ghost t: Tick)
      requires OutputHolds(log) && numPatched != 1
      requires numPatched == 0 && currentOutput.Some? ==>
        jackStatus[currentOutput.value] != LowOnly && jackStatus[currentOutput.value] != HighOnly
      modifies `currentOutput
      ensures OutputHolds(log + [Entry(t, CalibratingOuts, currentOutput)])
      ensures currentOutput == if numPatched > 1 then None else old(currentOutput)
    {
      if numPatched > 1 {
        currentOutput := None;
      } else {
        PassKeeps(Tracked(), log, Entry(t, CalibratingOuts, currentOutput));
      }
    }

    /** The outputs' part of an update. */
    method MeasureOuts(t: Tick) returns (numDone: nat)
      requires Shape() && Fits(t) && OutputHolds(history) && OutputsSound(history)
      modifies `jackStatus, `jackPlugged, `inSignals, `delayMeasurement, `currentOutput, `measLow, `measHigh, `measZero,
               `outCal, `outEvidence, `start, `low, `high, `history
      ensures Shape() && history == old(history) + [Entry(t, CalibratingOuts, currentOutput)]
      ensures OutputHolds(history) && OutputsSound(history)
      ensures (numDone == numOut <==> old(AllDone())) && Now() == OutsStep(old(Now()), t)
    {
      hide OutputsSound, OutputHolds, Alone, AllDone, NextStatus;
      var numPatched, active;
      numDone, numPatched, active := ScanOutputs(t.patched);
      if numPatched == 1 {
        AdvanceOutput(active, t.measured, history, t);
      } else {
        PassOver(numPatched, history, t);
        OutputsSoundLater(history, Entry(t, CalibratingOuts, currentOutput));
      }
      history := history + [Entry(t, CalibratingOuts, currentOutput)];
    }

    /** `update_cal_outs_routine`. */
    method UpdateCalOuts(t: Tick)
      requires Shape() && phase == CalibratingOuts && Fits(t) && OutputHolds(history) && OutputsSound(history)
      modifies `jackStatus, `jackPlugged, `inSignals, `delayMeasurement, `currentOutput, `measLow, `measHigh, `measZero,
               `outCal, `outEvidence, `start, `low, `high, `history, `nextStep, `phase
      ensures Shape() && history == old(history) + [Entry(t, CalibratingOuts, currentOutput)]
      ensures OutputHolds(history) && OutputsSound(history) && phase != CalibratingIns
      ensures forall i {:trigger In(i)} :: 0 <= i < numIn ==> In(i) == old(In(i)).(status := jackStatus[i])
      ensures phase == if old(AllDone()) || old(nextStep)
                       then (if t.dataValid then StartWritingCal else Idle) else CalibratingOuts
      ensures Now() == EndOuts(old(Now()), OutsStep(old(Now()), t), t)
    {
      hide OutputsSound, OutputHolds, OutsStep;
      var numDone := MeasureOuts(t);
      if numDone == numOut || nextStep {
        nextStep := false;
        phase := if t.dataValid then StartWritingCal else Idle;
      }
    }

    // ----- Whole runs -----

    method ClearInputs()
      requires Shape()
      modifies `jackStatus, `jackPlugged
      ensures Shape() && forall i :: 0 <= i < numIn ==> jackStatus[i] == NotCal && !jackPlugged[i]
    {
      for i := 0 to numIn
        invariant Shape() && forall j :: 0 <= j < i ==> jackStatus[j] == NotCal && !jackPlugged[j]
      {
        jackStatus, jackPlugged := jackStatus[i := NotCal], jackPlugged[i := false];
      }
    }

    /** A new routine: nothing is measured, and what is stored is what was read back. */
    method Start(ins: seq<Pair>, outs: seq<Pair>)
      requires Valid() && |ins| == numIn && |outs| == numOut
      modifies this
      ensures Valid() && phase == CalibratingIns && inLoaded == ins && outLoaded == outs
    {
      ClearInputs();
      nextStep, phase := false, CalibratingIns;
      inCal, outCal, inLoaded, outLoaded := ins, outs, ins, outs;
      inEvidence, outEvidence := seq(numIn, _ => None), seq(numOut, _ => None);
    }

    /** The cancel and next buttons. */
    method Press(t: Tick)
      requires Valid()
      modifies `phase, `nextStep
      ensures Valid() && Now() == Pressed(old(Now()), t)
    {
      if t.cancel {
        phase := Idle;
      }
      nextStep := nextStep || t.next;
      assert forall i :: 0 <= i < numIn ==> SavedSound(In(i), i, history);
    }

    lemma SavedLater(log: seq<Entry>, o: Entry)
      requires InShape() && forall i :: 0 <= i < numIn ==> SavedSound(In(i), i, log)
      ensures forall i :: 0 <= i < numIn ==> SavedSound(In(i), i, log + [o])
    {
      forall i | 0 <= i < numIn && In(i).evidence.Some?
        ensures InputSound(In(i).evidence.value, i, log + [o])
      {
        assert SavedSound(In(i), i, log);
        InputSoundLater(In(i).evidence.value, i, log, o);
      }
    }

    /** `update`, for the measuring phases, with the buttons pressed since the last one. */
    method Update(t: Tick)
      requires Valid() && Fits(t)
      modifies this, measurer
      ensures Valid() && inLoaded == old(inLoaded) && outLoaded == old(outLoaded)
      ensures old(Sized(Now())) && Now() == Next(old(Now()), t)
      ensures history == old(history) + [EntryOf(old(Now()), t)]
    {
      hide InputHolds, InputSound, OutputHolds, OutputsSound, InputSteps, EndIns, OutsStep, EndOuts;
      Press(t);
      ghost var before := history;
      if phase == CalibratingIns {
        OutputsSoundLater(before, Entry(t, CalibratingIns, None));
        UpdateCalIns(t);
        NoneCurrent();
      } else if phase == CalibratingOuts {
        UpdateCalOuts(t);
        SavedLater(before, Entry(t, CalibratingOuts, currentOutput));
      } else {
        OutputsSoundLater(before, Entry(t, phase, None));
        SavedLater(before, Entry(t, phase, None));
        history := history + [Entry(t, phase, None)];
      }
    }

    lemma NoneCurrent()
      ensures currentOutput == None ==> OutputHolds(history)
    {
    }

    lemma LogStep(m: Control, ticks: seq<Tick>, k: nat, before: seq<Entry>)
      requires Sized(m) && k < |ticks| && AllFit(ticks)
      ensures After(m, ticks[..k + 1]) == Next(After(m, ticks[..k]), ticks[k])
      ensures before + Log(m, ticks[..k + 1]) == before + Log(m, ticks[..k]) + [EntryOf(After(m, ticks[..k]), ticks[k])]
    {
      hide Next, EntryOf;
      assert ticks[..k + 1][..k] == ticks[..k];
    }

    // ----- Progress -----

    /** A cancelled update ends the routine, and changes nothing else. */
    lemma CancelEnds(m: Control, t: Tick)
      requires Sized(m) && Fits(t) && t.cancel
      ensures Next(m, t) == m.(phase := Idle, nextStep := m.nextStep || t.next)
    {
    }

    lemma {:induction false} UnpluggedSteps(m: Control, t: Tick, k: nat)
      requires Sized(m) && Fits(t) && k <= numIn && forall i :: 0 <= i < numIn ==> !t.plugged[i]
      ensures InputSteps(m, t, k).phase == m.phase && InputSteps(m, t, k).nextStep == m.nextStep
      ensures InputSteps(m, t, k).status == seq(|m.status|, i requires 0 <= i < |m.status| =>
        if i < k && (m.status[i] == LowOnly || m.status[i] == HighOnly) then Error else m.status[i])
      decreases k
    {
      if k > 0 {
        UnpluggedSteps(m, t, k - 1);
      }
    }

    /** When all inputs are done and unplugged it is the outputs' turn, and all of them are to do. */
    lemma InputsEnd(m: Control, t: Tick)
      requires InIns(m) && Fits(t) && !t.cancel && !t.next
      requires forall i :: 0 <= i < numIn ==> m.status[i] == Done && !t.plugged[i]
      ensures var n := Next(m, t);
              n.phase == CalibratingOuts && n.current == None && forall i :: 0 <= i < numOut ==> n.status[i] == NotCal
    {
      UnpluggedSteps(m, t, numIn);
      assert Pressed(m, t) == m;
    }

    /** The next button does the same at once. */
    lemma NextSkipsInputs(m: Control, t: Tick)
      requires Sized(m) && m.phase == CalibratingIns && Fits(t) && !t.cancel && t.next
      ensures var n := Next(m, t);
              && n.phase == CalibratingOuts && n.current == None && !n.nextStep
              && forall i :: 0 <= i < numOut ==> n.status[i] == NotCal
    {
      StepsKeepPhase(Pressed(m, t), t, numIn);
    }

    lemma {:induction false} StepsKeepPhase(m: Control, t: Tick, k: nat)
      requires Sized(m) && Fits(t) && k <= numIn
      ensures InputSteps(m, t, k).phase == m.phase && InputSteps(m, t, k).nextStep == m.nextStep
      decreases k
    {
      if k > 0 {
        StepsKeepPhase(m, t, k - 1);
      }
    }

    /** When all outputs were done, or on request, the phase ends: with writing if the data are valid. */
    lemma OutputsEnd(m: Control, t: Tick)
      requires Sized(m) && m.phase == CalibratingOuts && Fits(t) && !t.cancel
      ensures Next(m, t).phase ==
        if m.nextStep || t.next || forall i :: 0 <= i < numOut ==> m.status[i] == Done
        then if t.dataValid then StartWritingCal else Idle
        else CalibratingOuts
    {
      hide CountPatched;
    }

    /** No button is pressed and only output `a` is patched. */
    ghost predicate Undisturbed(t: Tick, a: nat) {
      Fits(t) && !t.cancel && !t.next && Alone(t.patched, a)
    }

    ghost predicate InOuts(m: Control) {
      Sized(m) && m.phase == CalibratingOuts && !m.nextStep
    }

    /** The state after is in the phase, and as far as output `a` goes what one update with the signal makes of `m`. */
    ghost predicate Follows(n: Control, m: Control, a: nat, signal: Signal)
      requires Sized(m) && a < numOut
    {
      var s := Advanced(m, a, signal);
      InOuts(n) && n.current == s.current && n.delay == s.delay && n.status[a] == s.status[a]
      && n.low == s.low && n.high == s.high
    }

    ghost predicate SomeToDo(m: Control)
      requires Sized(m)
    {
      exists i :: 0 <= i < numOut && m.status[i] != Done
    }

    /** Such an update, unless all outputs were done, stays in the phase and only advances output `a`. */
    lemma UndisturbedStep(m: Control, t: Tick, a: nat)
      requires InOuts(m) && Undisturbed(t, a) && a < numOut && SomeToDo(m)
      ensures Follows(Next(m, t), m, a, t.measured)
    {
      CountIsAlone(t.patched);
      NonePatched(t.patched, numOut, a);
    }

    /** Where output `a` is after `k` updates: it settles for nine, and each reading then takes five. */
    ghost predicate Stage(m: Control, a: nat, k: nat, ticks: seq<Tick>)
      requires Sized(m) && 1 <= k <= 24 <= |ticks| && a < numOut
    {
      && InOuts(m) && m.current == Some(a)
      && m.status[a] == (if k <= 8 then Settling else if k <= 13 then NotCal else if k <= 18 then LowOnly
                         else if k <= 23 then HighOnly else Done)
      && m.delay == (if k <= 8 then 9 - k else (k - 9) % 5)
      && (k >= 14 ==> m.low == ticks[13].measured.iir) && (k >= 19 ==> m.high == ticks[18].measured.iir)
    }

    /** The signal is steady at the target whenever a reading is due, and the offset agrees. */
    predicate Cooperates(ticks: seq<Tick>)
      requires |ticks| == 24
    {
      && Validates(ticks[13].measured, OUT_LOW, OUT_TOLERANCE) && Validates(ticks[18].measured, OUT_HIGH, OUT_TOLERANCE)
      && Validates(ticks[23].measured, OUT_ZERO, OUT_TOLERANCE)
      && Abs(offsetOf(ticks[13].measured.iir, ticks[18].measured.iir) - ticks[23].measured.iir) < OFFSET_TOLERANCE
    }

    lemma StageNext(m: Control, n: Control, a: nat, k: nat, ticks: seq<Tick>)
      requires 1 <= k < 24 == |ticks| && a < numOut && Cooperates(ticks) && Sized(m) && Stage(m, a, k, ticks)
      requires Follows(n, m, a, ticks[k].measured)
      ensures Sized(n) && Stage(n, a, k + 1, ticks)
    {
      hide Validates, Abs;
    }

    lemma {:induction false} StageIs(m: Control, ticks: seq<Tick>, a: nat, k: nat)
      requires InOuts(m) && a < numOut && m.current != Some(a) && SomeToDo(m)
      requires |ticks| == 24 && AllFit(ticks) && Cooperates(ticks)
      requires forall j :: 0 <= j < 24 ==> Undisturbed(ticks[j], a)
      requires 1 <= k <= 24
      ensures Stage(After(m, ticks[..k]), a, k, ticks)
      decreases k
    {
      hide Next, Advanced, Cooperates, Undisturbed;
      assert ticks[..k][..k - 1] == ticks[..k - 1];
      var before := After(m, ticks[..k - 1]);
      if k == 1 {
        assert before == m;
        AdvancedFresh(m, a, ticks[0].measured);
        UndisturbedStep(m, ticks[0], a);
      } else {
        StageIs(m, ticks, a, k - 1);
        UndisturbedStep(before, ticks[k - 1], a);
        StageNext(before, Next(before, ticks[k - 1]), a, k - 1, ticks);
      }
    }

    /** An output that is alone patched for 24 updates, and whose signal is right whenever it is looked at, is done. */
    lemma {:induction false} OutputGetsDone(m: Control, ticks: seq<Tick>, a: nat)
      requires InOuts(m) && a < numOut && m.current != Some(a) && SomeToDo(m)
      requires |ticks| == 24 && AllFit(ticks) && Cooperates(ticks)
      requires forall j :: 0 <= j < 24 ==> Undisturbed(ticks[j], a)
      ensures var n := After(m, ticks);
              && n.phase == CalibratingOuts && n.status[a] == Done
              && n.low == ticks[13].measured.iir && n.high == ticks[18].measured.iir
    {
      StageIs(m, ticks, a, 24);
      assert ticks[..24] == ticks;
    }

    /** An output that was unplugged half way and is patched again starts over exactly if it is not still the current
        one; else nothing is measured. */
    lemma FailedOutput(m: Control, t: Tick, a: nat)
      requires InOuts(m) && Undisturbed(t, a) && a < numOut && m.status[a] == Error
      ensures var n := Next(m, t);
              n.current == Some(a) && n.status[a] == if m.current == Some(a) then Error else Settling
    {
      UndisturbedStep(m, t, a);
    }

    /** No button is pressed and only input `i` is plugged. */
    ghost predicate OnlyInput(t: Tick, i: nat) {
      Fits(t) && !t.cancel && !t.next && forall j :: 0 <= j < numIn ==> (t.plugged[j] <==> j == i)
    }

    ghost predicate InIns(m: Control) {
      Sized(m) && m.phase == CalibratingIns && !m.nextStep
    }

    /** As far as input `i` goes the two are the same. */
    ghost predicate SameAt(n: Control, m: Control, i: nat) {
      && |n.status| == |n.plugged| == |m.status| == |m.plugged| && i < |m.status|
      && n.status[i] == m.status[i] && n.plugged[i] == m.plugged[i] && n.ctr == m.ctr
      && n.phase == m.phase && n.nextStep == m.nextStep
    }

    lemma OtherInput(n: Control, m: Control, i: nat, j: nat, s: Signal)
      requires SameAt(n, m, i) && j != i && j < |n.status|
      ensures SameAt(InputStep(n, j, false, s), m, i)
    {
    }

    lemma ThisInput(n: Control, m: Control, i: nat, s: Signal)
      requires SameAt(n, m, i)
      ensures SameAt(InputStep(n, i, true, s), InputStep(m, i, true, s), i)
    {
    }

    lemma {:induction false} OnlyInputSteps(m: Control, t: Tick, i: nat, k: nat)
      requires Sized(m) && OnlyInput(t, i) && i < numIn && k <= numIn
      ensures SameAt(InputSteps(m, t, k), if k <= i then m else InputStep(m, i, true, t.signals[i]), i)
      decreases k
    {
      hide InputStep;
      if k > 0 {
        OnlyInputSteps(m, t, i, k - 1);
        var before := InputSteps(m, t, k - 1);
        if k - 1 == i {
          ThisInput(before, m, i, t.signals[i]);
        } else {
          OtherInput(before, if k - 1 <= i then m else InputStep(m, i, true, t.signals[i]), i, k - 1, t.signals[k - 1]);
        }
      }
    }

    /** Such an update measures the input and stays in the phase. */
    lemma OnlyInputNext(m: Control, t: Tick, i: nat)
      requires InIns(m) && OnlyInput(t, i) && i < numIn
      ensures InIns(Next(m, t)) && SameAt(Next(m, t), InputStep(m, i, true, t.signals[i]), i)
    {
      hide InputStep;
      OnlyInputSteps(m, t, i, numIn);
      StepKeepsPhase(m, i, true, t.signals[i]);
      SamePress(m, t, i);
    }

    lemma SamePress(m: Control, t: Tick, i: nat)
      requires InIns(m) && OnlyInput(t, i) && i < numIn
      ensures Pressed(m, t) == m && t.plugged[i]
    {
    }

    lemma StepKeepsPhase(m: Control, i: nat, plugged: bool, s: Signal)
      requires i < |m.status| == |m.plugged|
      ensures InputStep(m, i, plugged, s).phase == m.phase && InputStep(m, i, plugged, s).nextStep == m.nextStep
    {
    }

    /** Two updates measure the input once, by the second signal. */
    lemma TwoInputUpdates(m: Control, t: Tick, u: Tick, i: nat, status: Status)
      requires InIns(m) && OnlyInput(t, i) && OnlyInput(u, i) && i < numIn
      requires if m.plugged[i] then m.status[i] == status && m.ctr == 0 else status == NotCal && m.status[i] != Done
      requires status != Done && status != Error && status != Settling
      ensures var n := Next(Next(m, t), u);
              && InIns(n) && n.plugged[i] && n.ctr == 0
              && n.status[i] == NextInputStatus(status, Judge(u.signals[i]))
    {
      hide Judge, Next;
      OnlyInputNext(m, t, i);
      OnlyInputNext(Next(m, t), u, i);
    }

    /** An input that is plugged in alone for four updates, with a steady signal near 1 V at the second and near 4 V at
        the fourth, or the other way round, is done, even if it had failed before. */
    lemma {:induction false} InputGetsDone(m: Control, ticks: seq<Tick>, i: nat)
      requires InIns(m) && i < numIn && !m.plugged[i] && m.status[i] != Done
      requires |ticks| == 4 && AllFit(ticks) && forall j :: 0 <= j < 4 ==> OnlyInput(ticks[j], i)
      requires var s, u := ticks[1].signals[i], ticks[3].signals[i];
               || (Validates(s, 1.0, 0.5) && Validates(u, 4.0, 0.5))
               || (Validates(s, 4.0, 0.5) && Validates(u, 1.0, 0.5))
      ensures After(m, ticks).phase == CalibratingIns && After(m, ticks).status[i] == Done
    {
      hide Next, OnlyInput, InputStep, SameAt;
      FourUpdates(m, ticks);
      var n := Next(Next(m, ticks[0]), ticks[1]);
      TwoInputUpdates(m, ticks[0], ticks[1], i, NotCal);
      TwoInputUpdates(n, ticks[2], ticks[3], i, n.status[i]);
    }

    lemma FourUpdates(m: Control, ticks: seq<Tick>)
      requires Sized(m) && |ticks| == 4 && AllFit(ticks)
      ensures After(m, ticks) == Next(Next(Next(Next(m, ticks[0]), ticks[1]), ticks[2]), ticks[3])
    {
      hide Next;
      assert ticks[..3][..2] == ticks[..2] && ticks[..2][..1] == ticks[..1] && ticks[..1][..0] == [];
      assert After(m, ticks[..1]) == Next(m, ticks[0]);
      assert After(m, ticks[..2]) == Next(After(m, ticks[..1]), ticks[1]);
      assert After(m, ticks[..3]) == Next(After(m, ticks[..2]), ticks[2]);
    }

    /** However plugs, signals and buttons come, the history grows by exactly what the updates were given, and at the
        end each output calibration is as it was read back, or backed by three readings in that history, measured in
        order on that output while it was current and alone patched, the first two more than 3.5 V apart; each input
        calibration likewise by a low and a high reading measured while the input stayed plugged, more than 2 V
        apart. */
    method Run(ticks: seq<Tick>)
      requires Valid() && AllFit(ticks)
      modifies this, measurer
      ensures Valid() && inLoaded == old(inLoaded) && outLoaded == old(outLoaded)
      ensures old(Sized(Now())) && Now() == After(old(Now()), ticks)
      ensures history == old(history) + Log(old(Now()), ticks)
      ensures forall i :: 0 <= i < numOut ==>
        match outEvidence[i]
        case Some(e) => Sound(e, i, history) && outCal[i] == Pair(e.low.value, e.high.value)
                        && outCal[i].high - outCal[i].low > 3.5
        case None => outCal[i] == outLoaded[i]
      ensures forall i :: 0 <= i < numIn ==>
        match inEvidence[i]
        case Some(e) => InputSound(e, i, history) && inCal[i] == Pair(e.low.value, e.high.value)
                        && inCal[i].high - inCal[i].low > 2.0
        case None => inCal[i] == inLoaded[i]
    {
      ghost var m, before := Now(), history;
      assert Sized(m) && AllFit(ticks[..0]) && before + Log(m, ticks[..0]) == before;
      for k := 0 to |ticks|
        invariant Valid() && inLoaded == old(inLoaded) && outLoaded == old(outLoaded)
        invariant Now() == After(m, ticks[..k]) && history == before + Log(m, ticks[..k])
      {
        hide Valid, Next, EntryOf, Now;
        Update(ticks[k]);
        LogStep(m, ticks, k, before);
      }
      assert ticks[..|ticks|] == ticks;
      hide Sound, InputSound;
      forall i | 0 <= i < numOut && outEvidence[i].Some?
        ensures outCal[i].high - outCal[i].low > 3.5
      {
        OutputSpread(outEvidence[i].value, i, history);
      }
      forall i | 0 <= i < numIn
        ensures match inEvidence[i]
                case Some(e) => InputSound(e, i, history) && inCal[i] == Pair(e.low.value, e.high.value)
                                && inCal[i].high - inCal[i].low > 2.0
                case None => inCal[i] == inLoaded[i]
      {
        assert SavedSound(In(i), i, history);
        if inEvidence[i].Some? {
          InputSpread(inEvidence[i].value, i, history);
        }
      }
    }
  }

  lemma NotCalHolds(s: Input, i: nat, log: seq<Entry>)
    requires InputHolds(s, i, log)
    ensures InputHolds(s.(status := NotCal), i, log) && InputHolds(s.(status := Error), i, log)
  {
  }
}
