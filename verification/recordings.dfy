/**
 * recordings.py: long-term spectra of recorded scales.
 *
 * Building the dataset keeps the scale excerpts of violins A, B and C in
 * sessions 1 and 3, renames the violins, and tags each feature vector with
 * its phase (session 3 is phase 2) and scope (player "SMD" is the test
 * violinist). Plotting restricts the axis to 200-5000 Hz, divides the
 * linear spectra of each (violin, phase, violinist, scope) group by the
 * group's overall mean, and takes per (violin, violinist, frequency, scope)
 * the mean level of phase 2 minus that of phase 1.
 */
module Recordings {
  import opened Frame
  import Pivot

  /** Sampling rate of the feature extraction (config["sr"]). */
  const SampleRate: int := 16000
  const TestPlayer := "SMD"

  /** One line of the pickled recordings table (the columns the script reads). */
  datatype Recording = Recording(violin: string, session: int, extract: string, player: string, condition: string)

  /** Lines 45-47: the rows kept before feature extraction. */
  predicate Kept(r: Recording)
  {
    r.violin in {"A", "B", "C"} && r.session in {1, 3} && r.extract == "gamme"
  }

  /** Line 48: the violin code to its name. */
  function ViolinName(code: string): (name: string)
    requires code in {"A", "B", "C"}
    ensures name in {"klimke", "levaggi", "stoppani"}
    ensures code == "A" <==> name == "klimke"
    ensures code == "B" <==> name == "levaggi"
    ensures code == "C" <==> name == "stoppani"
  {
    if code == "A" then "klimke" else if code == "B" then "levaggi" else "stoppani"
  }

  /** Lines 45-48: filter the rows, then rename their violins. */
  function Select(data: seq<Recording>): (r: seq<Recording>)
    ensures |r| <= |data|
    ensures forall i :: 0 <= i < |r| ==>
      r[i].violin in {"klimke", "levaggi", "stoppani"} && r[i].session in {1, 3} && r[i].extract == "gamme"
    ensures forall i :: 0 <= i < |data| && Kept(data[i]) ==>
      data[i].(violin := ViolinName(data[i].violin)) in r
    ensures forall x :: x in r ==> exists i :: 0 <= i < |data| && Kept(data[i]) && x == data[i].(violin := ViolinName(data[i].violin))
  {
    if |data| == 0 then []
    else
      var rest := Select(data[1..]);
      assert forall i :: 1 <= i < |data| ==> data[i] == data[1..][i - 1];
      (if Kept(data[0]) then [data[0].(violin := ViolinName(data[0].violin))] else []) + rest
  }

  /** Selecting is done row by row: the kept rows stay in order, each once. */
  lemma {:induction false} SelectAppend(a: seq<Recording>, b: seq<Recording>)
    ensures Select(a + b) == Select(a) + Select(b)
    ensures |a| == 1 ==> Select(a) == if Kept(a[0]) then [a[0].(violin := ViolinName(a[0].violin))] else []
  {
    if |a| == 0 {
      assert a + b == b;
    } else {
      var w := a + b;
      var head := if Kept(a[0]) then [a[0].(violin := ViolinName(a[0].violin))] else [];
      assert w[0] == a[0] && w[1..] == a[1..] + b;
      SelectAppend(a[1..], b);
      assert Select(w) == head + Select(w[1..]);
      assert Select(a) == head + Select(a[1..]);
      if |a| == 1 {
        assert a[1..] == [];
      }
    }
  }

  /** Line 56: session 3 is phase 2, every other session phase 1. */
  function PhaseOf(session: int): (phase: int)
    ensures phase in {1, 2}
    ensures phase == 2 <==> session == 3
  {
    if session == 3 then 2 else 1
  }

  /** Lines 57-59: the test violinist is "SMD"; everyone else is the control group. */
  function ScopeOf(player: string): (scope: string)
    ensures scope in {"test", "control"}
    ensures scope == "test" <==> player == TestPlayer
  {
    if player == TestPlayer then "test" else "control"
  }

  /** A row of the feature table handed back by the feature extraction. */
  datatype FeatureRow = FeatureRow(violin: string, player: string, session: int, condition: string, features: seq<real>)

  /** One measurement of the built dataset. */
  datatype Measurement = Measurement(violin: string, violinist: string, scope: string, phase: int, condition: string, features: seq<real>)

  /** The built dataset: a frequency axis shared by every measurement. */
  datatype Dataset = Dataset(frequency: seq<real>, measurements: seq<Measurement>)

  /** numpy.stack refuses an empty list and vectors of different lengths (ValueError). */
  datatype BuildError = NothingToStack | RaggedFeatures

  predicate SameLength(df: seq<FeatureRow>)
  {
    forall i :: 0 <= i < |df| ==> |df[i].features| == |df[0].features|
  }

  function Tag(row: FeatureRow): Measurement
  {
    Measurement(row.violin, row.player, ScopeOf(row.player), PhaseOf(row.session), row.condition, row.features)
  }

  /** Lines 52-79: stack the features, build the axis and the tags. */
  function BuildDataset(df: seq<FeatureRow>): (r: Result<Dataset, BuildError>)
    ensures r.Err? <==> |df| == 0 || !SameLength(df)
    ensures r.Ok? ==> |r.value.measurements| == |df|
    ensures r.Ok? ==> |r.value.frequency| == |df[0].features|
    ensures r.Ok? ==> forall i :: 0 <= i < |df| ==> |r.value.measurements[i].features| == |r.value.frequency|
    ensures r.Ok? && |df[0].features| >= 1 ==> r.value.frequency[0] == 0.0
    ensures r.Ok? && |df[0].features| >= 2 ==> r.value.frequency[|df[0].features| - 1] == (SampleRate / 2) as real
  {
    if |df| == 0 then Err(NothingToStack)
    else if !SameLength(df) then Err(RaggedFeatures)
    else
      var n := |df[0].features|;
      Ok(Dataset(Linspace(0.0, (SampleRate / 2) as real, n), seq(|df|, i requires 0 <= i < |df| => Tag(df[i]))))
  }

  /** Every measurement carries the tags derived from its row. */
  lemma BuildDatasetTags(df: seq<FeatureRow>, i: nat)
    requires BuildDataset(df).Ok? && i < |df|
    ensures var m := BuildDataset(df).value.measurements[i];
            && (m.phase == 2 <==> df[i].session == 3)
            && (m.scope == "test" <==> df[i].player == TestPlayer)
            && m.violin == df[i].violin && m.violinist == df[i].player && m.features == df[i].features
            && m.condition == df[i].condition
  {
  }

  // ---------------------------------------------------------------------
  // Plot preparation

  /** Line 98: `sel(frequency=slice(200, 5000))` keeps 200 <= f <= 5000, bounds included. */
  predicate InBand(f: real)
  {
    200.0 <= f <= 5000.0
  }

  /** The values of one vector at the axis positions inside the band, in axis order. */
  function Band(frequency: seq<real>, values: seq<real>): (r: seq<real>)
    requires |values| == |frequency|
    ensures |r| <= |values|
    ensures (forall k :: 0 <= k < |frequency| ==> InBand(frequency[k])) ==> r == values
    ensures (forall k :: 0 <= k < |frequency| ==> !InBand(frequency[k])) ==> r == []
  {
    if |frequency| == 0 then []
    else (if InBand(frequency[0]) then [values[0]] else []) + Band(frequency[1..], values[1..])
  }

  /** The band is taken bin by bin: the kept values stay in axis order, each once. */
  lemma {:induction false} BandAppend(f1: seq<real>, v1: seq<real>, f2: seq<real>, v2: seq<real>)
    requires |v1| == |f1| && |v2| == |f2|
    ensures Band(f1 + f2, v1 + v2) == Band(f1, v1) + Band(f2, v2)
    ensures |f1| == 1 ==> Band(f1, v1) == if InBand(f1[0]) then [v1[0]] else []
  {
    if |f1| == 0 {
      assert f1 + f2 == f2 && v1 + v2 == v2;
    } else {
      var f := f1 + f2;
      var v := v1 + v2;
      var head := if InBand(f1[0]) then [v1[0]] else [];
      assert f[0] == f1[0] && v[0] == v1[0];
      assert f[1..] == f1[1..] + f2 && v[1..] == v1[1..] + v2;
      BandAppend(f1[1..], v1[1..], f2, v2);
      assert Band(f, v) == head + Band(f[1..], v[1..]);
      assert Band(f1, v1) == head + Band(f1[1..], v1[1..]);
      if |f1| == 1 {
        assert f1[1..] == [] && v1[1..] == [];
      }
    }
  }

  /** The grouping key of the normalisation (lines 104-106). */
  datatype GroupKey = GroupKey(violin: string, phase: int, violinist: string, scope: string)

  /** A measurement's linear spectrum in the band, with its group key. */
  datatype Spectrum = Spectrum(key: GroupKey, linear: seq<real>)

  /** What one spectrum contributes to a group: all its values, or nothing. */
  function Share(s: Spectrum, key: GroupKey): seq<real>
  {
    if s.key == key then s.linear else []
  }

  /** All linear values of a group, measurement after measurement. */
  function GroupValues(ms: seq<Spectrum>, key: GroupKey): seq<real>
  {
    if |ms| == 0 then [] else Share(ms[0], key) + GroupValues(ms[1..], key)
  }

  /** Linear amplitudes 10**(level/20) are positive. */
  predicate Positive(ms: seq<Spectrum>)
  {
    forall i, k :: 0 <= i < |ms| && 0 <= k < |ms[i].linear| ==> ms[i].linear[k] > 0.0
  }

  lemma {:induction false} GroupValuesPositive(ms: seq<Spectrum>, key: GroupKey)
    requires Positive(ms)
    ensures forall k :: 0 <= k < |GroupValues(ms, key)| ==> GroupValues(ms, key)[k] > 0.0
  {
    if |ms| > 0 {
      GroupValuesPositive(ms[1..], key);
    }
  }

  lemma {:induction false} PositiveSum(v: seq<real>)
    requires |v| > 0 && forall k :: 0 <= k < |v| ==> v[k] > 0.0
    ensures Sum(v) > 0.0
  {
    if |v| > 1 {
      PositiveSum(v[1..]);
    } else {
      assert v[1..] == [];
    }
  }

  /** The overall mean of a group (line 109, `x.mean()`), over all its values. */
  function GroupMean(ms: seq<Spectrum>, key: GroupKey): (m: real)
    requires Positive(ms) && |GroupValues(ms, key)| > 0
    ensures m > 0.0
  {
    var v := GroupValues(ms, key);
    assert Sum(v) > 0.0 by {
      GroupValuesPositive(ms, key);
      PositiveSum(v);
    }
    MeanPositive(v);
    Mean(v)
  }

  /** The group mean times the group's count is the group's sum. */
  lemma GroupMeanTimesCount(ms: seq<Spectrum>, key: GroupKey)
    requires Positive(ms) && |GroupValues(ms, key)| > 0
    ensures GroupMean(ms, key) * (|GroupValues(ms, key)| as real) == Sum(GroupValues(ms, key))
  {
    MeanTimesCount(GroupValues(ms, key));
  }

  /** Every value multiplied by `c`. */
  function ScaleBy(xs: seq<real>, c: real): (r: seq<real>)
    ensures |r| == |xs|
    ensures forall k :: 0 <= k < |xs| ==> r[k] == xs[k] * c
  {
    seq(|xs|, k requires 0 <= k < |xs| => xs[k] * c)
  }

  lemma ScaleByAppend(a: seq<real>, b: seq<real>, c: real)
    ensures ScaleBy(a + b, c) == ScaleBy(a, c) + ScaleBy(b, c)
  {
    assert |ScaleBy(a + b, c)| == |ScaleBy(a, c) + ScaleBy(b, c)|;
    forall k | 0 <= k < |a| + |b|
      ensures ScaleBy(a + b, c)[k] == (ScaleBy(a, c) + ScaleBy(b, c))[k]
    {
      if k >= |a| {
        assert (a + b)[k] == b[k - |a|];
      }
    }
  }

  /** One spectrum divided by its group's mean over `all`: x / mean is x * (1 / mean). */
  function Scaled(s: Spectrum, all: seq<Spectrum>): (r: Spectrum)
    requires Positive(all)
    ensures r.key == s.key && |r.linear| == |s.linear|
    ensures |GroupValues(all, s.key)| > 0 ==> r.linear == ScaleBy(s.linear, 1.0 / GroupMean(all, s.key))
    ensures |GroupValues(all, s.key)| == 0 ==> r == s
  {
    if |GroupValues(all, s.key)| == 0 then s
    else Spectrum(s.key, ScaleBy(s.linear, 1.0 / GroupMean(all, s.key)))
  }

  /** Divide each spectrum of `ms` by its group's mean taken over `all`. */
  function DivideByGroupMean(ms: seq<Spectrum>, all: seq<Spectrum>): (r: seq<Spectrum>)
    requires Positive(all)
    ensures |r| == |ms|
    ensures forall i :: 0 <= i < |ms| ==> r[i] == Scaled(ms[i], all)
  {
    if |ms| == 0 then [] else [Scaled(ms[0], all)] + DivideByGroupMean(ms[1..], all)
  }

  /** Lines 104-111: every spectrum divided by the mean of its group, input order kept. */
  function Normalise(ms: seq<Spectrum>): (r: seq<Spectrum>)
    requires Positive(ms)
    ensures |r| == |ms|
    ensures forall i :: 0 <= i < |ms| ==> r[i].key == ms[i].key && |r[i].linear| == |ms[i].linear|
  {
    DivideByGroupMean(ms, ms)
  }

  /** The values of a group after division are its values divided by the group mean. */
  lemma {:induction false} DividedGroupValues(ms: seq<Spectrum>, all: seq<Spectrum>, key: GroupKey)
    requires Positive(all) && |GroupValues(all, key)| > 0
    ensures GroupValues(DivideByGroupMean(ms, all), key) == ScaleBy(GroupValues(ms, key), 1.0 / GroupMean(all, key))
  {
    var c := 1.0 / GroupMean(all, key);
    if |ms| == 0 {
      assert ScaleBy([], c) == [];
    } else {
      var r := DivideByGroupMean(ms, all);
      assert r[1..] == DivideByGroupMean(ms[1..], all);
      DividedGroupValues(ms[1..], all, key);
      assert Share(r[0], key) == ScaleBy(Share(ms[0], key), c);
      ScaleByAppend(Share(ms[0], key), GroupValues(ms[1..], key), c);
    }
  }

  /** Each normalised group has mean 1. */
  lemma NormalisedGroupMean(ms: seq<Spectrum>, key: GroupKey)
    requires Positive(ms) && |GroupValues(ms, key)| > 0
    ensures |GroupValues(Normalise(ms), key)| > 0
    ensures Mean(GroupValues(Normalise(ms), key)) == 1.0
  {
    var v := GroupValues(ms, key);
    var m := GroupMean(ms, key);
    assert m > 0.0 && m * (|v| as real) == Sum(v) by {
      GroupMeanTimesCount(ms, key);
    }
    DividedSum(v, m);
    DividedGroupValues(ms, ms, key);
    MeanOfCount(ScaleBy(v, 1.0 / m));
  }

  /** Values scaled by 1/m, m being their mean, sum to their count. */
  lemma DividedSum(v: seq<real>, m: real)
    requires m > 0.0 && m * (|v| as real) == Sum(v)
    ensures Sum(ScaleBy(v, 1.0 / m)) == |v| as real
  {
    var d := ScaleBy(v, 1.0 / m);
    SumScale(v, d, 1.0 / m);
    Cancel(Sum(d), Sum(v), m, |v| as real);
  }

  lemma MeanOfCount(d: seq<real>)
    requires |d| > 0 && Sum(d) == |d| as real
    ensures Mean(d) == 1.0
  {
  }

  lemma Cancel(scaled: real, total: real, m: real, n: real)
    requires m > 0.0 && total == m * n && scaled == total * (1.0 / m)
    ensures scaled == n
  {
  }

  // ---------------------------------------------------------------------
  // Phase difference (lines 117-131)

  /** One row of `df_main`: a level at one frequency of one measurement. */
  datatype LevelRow = LevelRow(violin: string, violinist: string, phase: int, frequency: real, scope: string, amplitude: real)

  /** The index of `df_means` without the phase. */
  datatype DiffKey = DiffKey(violin: string, violinist: string, frequency: real, scope: string)

  function LevelRows(df: seq<LevelRow>): (rows: seq<Pivot.Row<DiffKey, int>>)
    ensures |rows| == |df|
    ensures forall i :: 0 <= i < |df| ==>
      rows[i] == Pivot.Row(DiffKey(df[i].violin, df[i].violinist, df[i].frequency, df[i].scope), df[i].phase, df[i].amplitude)
  {
    seq(|df|, i requires 0 <= i < |df| =>
      Pivot.Row(DiffKey(df[i].violin, df[i].violinist, df[i].frequency, df[i].scope), df[i].phase, df[i].amplitude))
  }

  /** Grouped mean, `unstack("phase")`, then `df_pivoted[2] - df_pivoted[1]`. */
  function PhaseDifference(df: seq<LevelRow>): Result<seq<Pivot.DiffRow<DiffKey>>, Pivot.Error<int>>
  {
    Pivot.Difference(LevelRows(df), 2, 1)
  }

  /** A level of the key in the phase exists. */
  predicate Measured(df: seq<LevelRow>, key: DiffKey, phase: int)
  {
    exists i :: 0 <= i < |df| && DiffKey(df[i].violin, df[i].violinist, df[i].frequency, df[i].scope) == key && df[i].phase == phase
  }

  /**
   * Each key's difference is mean(phase 2) - mean(phase 1) of its levels,
   * and has no numeric value when the key lacks either phase.
   */
  lemma PhaseDifferenceRow(df: seq<LevelRow>, i: nat)
    requires PhaseDifference(df).Ok? && i < |PhaseDifference(df).value|
    ensures var row := PhaseDifference(df).value[i];
            var rows := LevelRows(df);
            && (row.difference.None? <==> !Measured(df, row.key, 2) || !Measured(df, row.key, 1))
            && (row.difference.Some? ==> row.difference.value == Pivot.Cell(rows, row.key, 2).value - Pivot.Cell(rows, row.key, 1).value)
  {
    var row := PhaseDifference(df).value[i];
    var rows := LevelRows(df);
    Pivot.DifferenceRow(rows, 2, 1, i);
    MeasuredIsRated(df, row.key, 2);
    MeasuredIsRated(df, row.key, 1);
  }

  /** A key has a level in a phase iff the pivoted frame has a cell for it in that column. */
  lemma MeasuredIsRated(df: seq<LevelRow>, key: DiffKey, phase: int)
    ensures Measured(df, key, phase) <==> Pivot.Rated(LevelRows(df), key, phase)
  {
    var rows := LevelRows(df);
    if Pivot.Rated(rows, key, phase) {
      var j :| 0 <= j < |rows| && rows[j].key == key && rows[j].column == phase;
      assert df[j].phase == phase;
    }
  }

  /**
   * When every level of a key is `a` in phase 1 and `b` in phase 2, its
   * difference is exactly b - a.
   */
  lemma ConstantLevelsDifference(df: seq<LevelRow>, i: nat, a: real, b: real)
    requires PhaseDifference(df).Ok? && i < |PhaseDifference(df).value|
    requires var key := PhaseDifference(df).value[i].key;
             forall j :: 0 <= j < |df| && DiffKey(df[j].violin, df[j].violinist, df[j].frequency, df[j].scope) == key ==>
               (df[j].phase == 1 ==> df[j].amplitude == a) && (df[j].phase == 2 ==> df[j].amplitude == b)
    requires Measured(df, PhaseDifference(df).value[i].key, 1) && Measured(df, PhaseDifference(df).value[i].key, 2)
    ensures PhaseDifference(df).value[i].difference.Some?
    ensures PhaseDifference(df).value[i].difference.value == b - a
  {
    var key := PhaseDifference(df).value[i].key;
    var rows := LevelRows(df);
    PhaseDifferenceRow(df, i);
    LevelsAt(df, key, 1, a);
    LevelsAt(df, key, 2, b);
    Pivot.DifferenceRow(rows, 2, 1, i);
    Pivot.ConstantDifference(rows, 2, 1, i, b, a);
  }

  /** Every level of the key in the phase is `x`, seen as pivot rows. */
  lemma LevelsAt(df: seq<LevelRow>, key: DiffKey, phase: int, x: real)
    requires forall j :: 0 <= j < |df| && DiffKey(df[j].violin, df[j].violinist, df[j].frequency, df[j].scope) == key ==>
               (df[j].phase == phase ==> df[j].amplitude == x)
    ensures forall j :: 0 <= j < |LevelRows(df)| && LevelRows(df)[j].key == key && LevelRows(df)[j].column == phase ==>
              x <= LevelRows(df)[j].value <= x
  {
    var rows := LevelRows(df);
    forall j | 0 <= j < |rows| && rows[j].key == key && rows[j].column == phase
      ensures x <= rows[j].value <= x
    {
      assert df[j].phase == phase;
    }
  }
}
