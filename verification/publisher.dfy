/** The measurement publisher: maps the flat reading array of one decoded
    frame onto the inverter's named measurements, and keeps the three
    grid-tied measurements (output voltage, total energy, grid frequency)
    registered only while the inverter reports a positive grid frequency.

    The metrics registry is modelled as an immutable record holding the last
    value written to every measurement, the `measuring` flag and the set of
    metrics currently registered (visible to a scrape). */
module Publisher {
  import opened Wrappers

  /** The seven metrics the bridge defines. Input current and input voltage
      are partitioned by PV array ("1" and "2"). */
  datatype Metric =
    | InputCurrent
    | InputVoltage
    | OutputCurrent
    | OutputVoltage
    | OutputPower
    | TotalEnergy
    | Frequency

  /** The exposition name of each metric. */
  function Name(m: Metric): string
  {
    match m
    case InputCurrent => "input_current_ampere"
    case InputVoltage => "input_voltage"
    case OutputCurrent => "output_current_ampere"
    case OutputVoltage => "output_voltage"
    case OutputPower => "output_power_watt"
    case TotalEnergy => "total_energy_kwh"
    case Frequency => "grid_frequency_hertz"
  }

  /** No two metrics share an exposition name, as registering all seven
      collectors in one registry requires. */
  lemma NamesDistinct()
    ensures forall a: Metric, b: Metric :: Name(a) == Name(b) ==> a == b
  {
  }

  /** Metrics that stay registered for the lifetime of the process. */
  const AlwaysOn: set<Metric> := {InputCurrent, InputVoltage, OutputCurrent, OutputPower}

  /** Metrics registered only while the inverter feeds the grid. */
  const GridTied: set<Metric> := {OutputVoltage, TotalEnergy, Frequency}

  /** A reading array shorter than this is ignored altogether. */
  const MinReadings: nat := 51

  /** Fixed positions of the readings in the array. */
  const InputCurrent1Index: nat := 0
  const InputCurrent2Index: nat := 1
  const InputVoltage1Index: nat := 2
  const InputVoltage2Index: nat := 3
  const OutputCurrentIndex: nat := 4
  const OutputVoltageIndex: nat := 5
  const OutputPowerIndex: nat := 6
  const TotalEnergyIndex: nat := 9
  const FrequencyIndex: nat := 50

  /** The publisher's whole state: one value per gauge (two per partitioned
      gauge), the `measuring` flag and the registered metrics. */
  datatype Metrics = Metrics(
    inputCurrent1: real,
    inputCurrent2: real,
    inputVoltage1: real,
    inputVoltage2: real,
    outputCurrent: real,
    outputPower: real,
    outputVoltage: real,
    totalEnergy: real,
    frequency: real,
    measuring: bool,
    registered: set<Metric>)

  /** State at process start: every value zero, `measuring` set and all seven
      metrics registered. */
  const Initial: Metrics :=
    Metrics(0.0, 0.0, 0.0, 0.0, 0.0, 0.0, 0.0, 0.0, 0.0, true, AlwaysOn + GridTied)

  /** The publication invariant: the always-on metrics are registered, and the
      grid-tied ones are registered exactly while `measuring` holds. */
  predicate Valid(st: Metrics)
  {
    st.registered == AlwaysOn + (if st.measuring then GridTied else {})
  }

  /** The grid-tied metrics are all visible to a scrape. */
  predicate Publishing(st: Metrics)
  {
    GridTied <= st.registered
  }

  /** The always-on values carry the readings of `data`. */
  predicate AlwaysOnFrom(st: Metrics, data: seq<real>)
    requires |data| >= MinReadings
  {
    && st.inputCurrent1 == data[InputCurrent1Index]
    && st.inputCurrent2 == data[InputCurrent2Index]
    && st.inputVoltage1 == data[InputVoltage1Index]
    && st.inputVoltage2 == data[InputVoltage2Index]
    && st.outputCurrent == data[OutputCurrentIndex]
    && st.outputPower == data[OutputPowerIndex]
  }

  /** The grid-tied values carry the readings of `data`. */
  predicate GridTiedFrom(st: Metrics, data: seq<real>)
    requires |data| >= MinReadings
  {
    && st.outputVoltage == data[OutputVoltageIndex]
    && st.totalEnergy == data[TotalEnergyIndex]
    && st.frequency == data[FrequencyIndex]
  }

  /** The grid-tied values of `a` and `b` agree. */
  predicate SameGridTiedValues(a: Metrics, b: Metrics)
  {
    a.outputVoltage == b.outputVoltage && a.totalEnergy == b.totalEnergy && a.frequency == b.frequency
  }

  /** Publication state after a frame whose frequency reading is `freq`. */
  predicate GridUp(freq: real)
  {
    freq > 0.0
  }

  /** Applies the readings of one decoded frame. */
  function SetMeasurements(st: Metrics, data: seq<real>): (r: Metrics)
    // a short array changes nothing at all
    ensures |data| < MinReadings ==> r == st
    // the always-on values follow the frame whatever its frequency
    ensures |data| >= MinReadings ==> AlwaysOnFrom(r, data)
    // the flag follows the sign of the frequency reading
    ensures |data| >= MinReadings ==> (r.measuring <==> GridUp(data[FrequencyIndex]))
    // positive frequency: grid-tied values follow the frame (and, under the
    // invariant, are visible)
    ensures |data| >= MinReadings && GridUp(data[FrequencyIndex]) ==> GridTiedFrom(r, data)
    ensures Valid(st) && |data| >= MinReadings && GridUp(data[FrequencyIndex]) ==> Publishing(r)
    // otherwise: grid-tied values keep their last values (and, under the
    // invariant, are hidden)
    ensures |data| >= MinReadings && !GridUp(data[FrequencyIndex]) ==> SameGridTiedValues(r, st)
    ensures Valid(st) && |data| >= MinReadings && !GridUp(data[FrequencyIndex]) ==>
              r.registered * GridTied == {}
    // registration never touches the always-on metrics
    ensures r.registered - GridTied == st.registered - GridTied
    // the invariant is preserved
    ensures Valid(st) ==> Valid(r)
  {
    if |data| < MinReadings then st
    else
      var updated := st.(
        inputCurrent1 := data[InputCurrent1Index],
        inputCurrent2 := data[InputCurrent2Index],
        inputVoltage1 := data[InputVoltage1Index],
        inputVoltage2 := data[InputVoltage2Index],
        outputCurrent := data[OutputCurrentIndex],
        outputPower := data[OutputPowerIndex]);
      if data[FrequencyIndex] > 0.0 then
        var active :=
          if !updated.measuring
          then updated.(registered := updated.registered + GridTied, measuring := true)
          else updated;
        active.(
          outputVoltage := data[OutputVoltageIndex],
          totalEnergy := data[TotalEnergyIndex],
          frequency := data[FrequencyIndex])
      else if updated.measuring then
        updated.(registered := updated.registered - GridTied, measuring := false)
      else
        updated
  }

  /** The invariant holds at process start. */
  lemma InitialValid()
    ensures Valid(Initial) && Initial.measuring && Publishing(Initial)
    ensures Initial.registered == {InputCurrent, InputVoltage, OutputCurrent, OutputVoltage, OutputPower, TotalEnergy, Frequency}
  {
  }

  /** Under the invariant the grid-tied metrics are visible exactly while
      `measuring` holds, and the register call on reactivation never meets an
      already-registered metric. */
  lemma ValidMeansPublishingIffMeasuring(st: Metrics)
    requires Valid(st)
    ensures Publishing(st) <==> st.measuring
    ensures !st.measuring ==> st.registered * GridTied == {}
    ensures AlwaysOn <= st.registered
  {
  }

  /** Applying the same readings twice gives the state of applying them once. */
  lemma SetMeasurementsIdempotent(st: Metrics, data: seq<real>)
    ensures SetMeasurements(SetMeasurements(st, data), data) == SetMeasurements(st, data)
  {
  }

  /** Applies the readings of successive decoded frames, oldest first. */
  function ApplyAll(st: Metrics, records: seq<seq<real>>): (r: Metrics)
    ensures Valid(st) ==> Valid(r)
    decreases |records|
  {
    if |records| == 0 then st
    else ApplyAll(SetMeasurements(st, records[0]), records[1..])
  }

  /** Appending one more record applies it to the state reached so far. */
  lemma {:induction false} ApplyAllSnoc(st: Metrics, records: seq<seq<real>>, data: seq<real>)
    ensures ApplyAll(st, records + [data]) == SetMeasurements(ApplyAll(st, records), data)
    decreases |records|
  {
    if |records| == 0 {
      assert [data][1..] == [];
    } else {
      assert (records + [data])[1..] == records[1..] + [data];
      ApplyAllSnoc(SetMeasurements(st, records[0]), records[1..], data);
    }
  }

  /** Position of the most recent record long enough to be applied. */
  function LastComplete(records: seq<seq<real>>): (r: Option<nat>)
    ensures r.Some? ==> r.value < |records| && |records[r.value]| >= MinReadings
    ensures r.Some? ==> forall k :: r.value < k < |records| ==> |records[k]| < MinReadings
    ensures r.None? ==> forall k :: 0 <= k < |records| ==> |records[k]| < MinReadings
  {
    if |records| == 0 then None
    else if |records[|records| - 1]| >= MinReadings then Some(|records| - 1)
    else LastComplete(records[..|records| - 1])
  }

  /** The publication state machine over any sequence of frames: with no
      complete record nothing changes; otherwise the grid-tied metrics are
      visible exactly when the most recent complete record reported a positive
      frequency, and the always-on values are that record's readings. */
  lemma {:induction false} ApplyAllFollowsLastComplete(st: Metrics, records: seq<seq<real>>)
    requires Valid(st)
    ensures LastComplete(records).None? ==> ApplyAll(st, records) == st
    ensures LastComplete(records).Some? ==>
              var last := records[LastComplete(records).value];
              var r := ApplyAll(st, records);
              && (Publishing(r) <==> GridUp(last[FrequencyIndex]))
              && (r.measuring <==> GridUp(last[FrequencyIndex]))
              && AlwaysOnFrom(r, last)
              && (GridUp(last[FrequencyIndex]) ==> GridTiedFrom(r, last))
    decreases |records|
  {
    if |records| > 0 {
      var init := records[..|records| - 1];
      var data := records[|records| - 1];
      assert init + [data] == records;
      ApplyAllSnoc(st, init, data);
      ApplyAllFollowsLastComplete(st, init);
      ValidMeansPublishingIffMeasuring(SetMeasurements(ApplyAll(st, init), data));
    }
  }

  /** The reading array of the sample frame the inverter sends. */
  const SampleReadings: seq<real> :=
    [0.6, 0.6, 203.8, 200.7, 1.5, 236.3, 238.0, 33.0, 3.2, 6.7]
    + [0.0, 142.0, 129.0, 0.00, 0.00, 0.0, 0.0, 0.0, 0.0, 0.0]
    + [0.00, 0.00, 0.0, 0.0, 0.0, 0.0, 0.0, 0.00, 0.00, 0.0]
    + [0.0, 0.0, 0.0, 0.0, 0.0, 0.0, 0.0, 0.0, 0.0, 0.0]
    + [0.0, 0.00, 0.00, 0.0, 0.0, 0.0, 0.0, 0.0, 0.0, 0.0]
    + [49.98, 0.0, 0.0, 0.0, 0.0, 0.0, 0.0, 0.0, 0.0, 0.0]
    + [0.00, 0.0, 8.0, 0.0, 0.0, 0.00, 0.0, 8.0, 2.0]

  /** Applying the sample frame from start publishes its readings: input
      currents 0.6 / 0.6, input voltages 203.8 / 200.7, output current 1.5,
      output power 238, output voltage 236.3, total energy 6.7 and a grid
      frequency of 49.98 Hz, with the grid-tied metrics visible. The same
      frame with a zero frequency still updates the always-on values but
      hides the grid-tied ones, which keep their previous values. */
  lemma SampleFrameApplied()
    ensures |SampleReadings| >= MinReadings
    ensures var r := SetMeasurements(Initial, SampleReadings);
            && r.inputCurrent1 == 0.6 && r.inputCurrent2 == 0.6
            && r.inputVoltage1 == 203.8 && r.inputVoltage2 == 200.7
            && r.outputCurrent == 1.5 && r.outputPower == 238.0
            && r.outputVoltage == 236.3 && r.totalEnergy == 6.7 && r.frequency == 49.98
            && r.measuring && Publishing(r)
    ensures var r := SetMeasurements(Initial, SampleReadings[FrequencyIndex := 0.0]);
            && r.inputCurrent1 == 0.6 && r.outputCurrent == 1.5 && r.outputPower == 238.0
            && r.outputVoltage == 0.0 && r.totalEnergy == 0.0 && r.frequency == 0.0
            && !r.measuring && r.registered == AlwaysOn
  {
    var d := SampleReadings;
    assert d[0] == 0.6;
    assert d[1] == 0.6;
    assert d[2] == 203.8;
    assert d[3] == 200.7;
    assert d[4] == 1.5;
    assert d[5] == 236.3;
    assert d[6] == 238.0;
    assert d[9] == 6.7;
    assert d[50] == 49.98;
  }
}
