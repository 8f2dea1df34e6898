/**
 * admittances.py: bridge admittance measurements of three violins before
 * (phase 1) and after (phase 2) the playing-in period.
 *
 * `process_file` validates one MAT file and turns its two spectra into the
 * calibrated admittance |Y / X|; `build_dataset` walks the measurement
 * directories phase by phase and violin by violin and stacks the accepted
 * files, numbering them by their position in their directory listing. The
 * plot reduces each (violin, phase) group to a min/max envelope and a mean
 * power, and draws phase 1 minus phase 2 in dB.
 */
module Admittances {
  import opened Frame

  const SampleRate: int := 51200
  const FftSize: int := 32768
  /** mV/N: the force channel X is multiplied by 1 / (20.41 / 1000). */
  const CalibrationX: real := 1.0 / (20.41 / 1000.0)
  /** (mm/s)/V: the velocity channel Y is multiplied by 125 / 1000. */
  const CalibrationY: real := 125.0 / 1000.0

  const Phases: seq<int> := [1, 2]
  const Violins: seq<string> := ["klimke", "levaggi", "stoppani"]

  /** One line of the "yspec" matrix: column 0 is the response Y, column 1 the excitation X. */
  datatype Channels = Channels(y: real, x: real)

  /**
   * A MAT file as `scipy.io.loadmat` sees it: unreadable, or the scalars
   * "freq" and "npts" and the matrix "yspec", each possibly absent.
   */
  datatype MatFile =
    | LoadFailed
    | Loaded(freq: Option<int>, npts: Option<int>, yspec: Option<seq<Channels>>)

  /** A float32 quotient |Y / X|: a number, +inf (X = 0, Y != 0) or NaN (0 / 0). */
  datatype Magnitude = Finite(value: real) | Infinite | NotANumber

  /** What `process_file` does: return None, return (f, H), or raise KeyError on a missing "yspec". */
  datatype Outcome =
    | Rejected
    | Accepted(frequency: seq<real>, admittance: seq<Magnitude>)
    | MissingSpectrum

  /** The frequency axis of an accepted file: npts // 2 + 1 points from 0 to sr // 2. */
  function Axis(): (f: seq<real>)
    ensures |f| == FftSize / 2 + 1 == 16385
    ensures f[0] == 0.0 && f[16384] == 25600.0
  {
    Linspace(0.0, (SampleRate / 2) as real, FftSize / 2 + 1)
  }

  /** Lines 56-62 for one frequency bin: the calibrated mobility |Y_cal / X_cal|. */
  function Admittance(c: Channels): (m: Magnitude)
    ensures m.Finite? <==> c.x != 0.0
    ensures m.Infinite? <==> c.x == 0.0 && c.y != 0.0
    ensures m.Finite? ==> m.value >= 0.0 && m.value * Abs(c.x * CalibrationX) == Abs(c.y * CalibrationY)
  {
    var xCal := c.x * CalibrationX;
    var yCal := c.y * CalibrationY;
    if xCal == 0.0 then (if yCal == 0.0 then NotANumber else Infinite)
    else
      var h := Abs(yCal / xCal);
      assert h * Abs(xCal) == Abs(yCal) by {
        assert (yCal / xCal) * xCal == yCal;
      }
      Finite(h)
  }

  /** A file whose "freq" and "npts" are present and equal to 51200 and 32768. */
  predicate Valid(mat: MatFile)
  {
    mat.Loaded? && mat.freq == Some(SampleRate) && mat.npts == Some(FftSize)
  }

  /** Lines 26-64. */
  function ProcessFile(mat: MatFile): (r: Outcome)
    ensures r.Rejected? <==> !Valid(mat)
    ensures r.MissingSpectrum? <==> Valid(mat) && mat.yspec.None?
    ensures r.Accepted? ==> r.frequency == Axis()
    ensures r.Accepted? ==> |r.admittance| == |mat.yspec.value|
    ensures r.Accepted? ==> forall k :: 0 <= k < |r.admittance| ==> r.admittance[k] == Admittance(mat.yspec.value[k])
  {
    match mat
    case LoadFailed => Rejected
    case Loaded(freq, npts, yspec) =>
      if freq.None? || npts.None? then Rejected
      else
        var sr := freq.value;
        var nFft := npts.value;
        if nFft != FftSize || sr != SampleRate then Rejected
        else if yspec.None? then MissingSpectrum
        else
          var spectrum := yspec.value;
          Accepted(Linspace(0.0, (sr / 2) as real, nFft / 2 + 1),
                   seq(|spectrum|, k requires 0 <= k < |spectrum| => Admittance(spectrum[k])))
  }

  /** Every finite admittance of an accepted file is non-negative. */
  lemma AdmittanceNonNegative(mat: MatFile, k: nat)
    requires ProcessFile(mat).Accepted? && k < |ProcessFile(mat).admittance|
    ensures ProcessFile(mat).admittance[k].Finite? ==> ProcessFile(mat).admittance[k].value >= 0.0
  {
  }

  // ---------------------------------------------------------------------
  // Dataset assembly (lines 67-110)

  /** A file of a directory listing: its name and its content. */
  datatype FileEntry = FileEntry(name: string, mat: MatFile)

  /** The directory data/raw/phase_<phase>/<violin>/admittances. */
  datatype Partition = Partition(phase: int, violin: string)

  /**
   * The measurement directories: the `*.mat` files of each existing
   * directory, in glob order. A partition absent from the map has no
   * directory.
   */
  type Directories = map<Partition, seq<FileEntry>>

  /** One stacked measurement: its coordinates and its admittance. */
  datatype Measurement = Measurement(violin: string, phase: int, filename: string, measurementId: int, admittance: seq<Magnitude>)

  datatype Dataset = Dataset(frequency: seq<real>, measurements: seq<Measurement>)

  /**
   * The exceptions `build_dataset` raises: the KeyError of a file without
   * "yspec", xarray's ValueError when H and the axis differ in length, and
   * the ValueError of an empty result.
   */
  datatype BuildError = SpectrumMissing(filename: string) | ConflictingSizes(filename: string) | NoData

  /** A file the loops reach, with its 1-based position in its listing. */
  datatype Visit = Visit(phase: int, violin: string, id: int, file: FileEntry)

  function Listing(dirs: Directories, phase: int, violin: string): seq<FileEntry>
  {
    if Partition(phase, violin) in dirs then dirs[Partition(phase, violin)] else []
  }

  /** The files of one listing, numbered from 1 (`enumerate` plus one). */
  function FileVisits(phase: int, violin: string, files: seq<FileEntry>): (vs: seq<Visit>)
    ensures |vs| == |files|
    ensures forall i :: 0 <= i < |vs| ==> vs[i] == Visit(phase, violin, i + 1, files[i])
  {
    seq(|files|, i requires 0 <= i < |files| => Visit(phase, violin, i + 1, files[i]))
  }

  /** The files of one partition; none when its directory is missing. */
  function PartitionVisits(dirs: Directories, phase: int, violin: string): seq<Visit>
  {
    FileVisits(phase, violin, Listing(dirs, phase, violin))
  }

  /** The files of the given violins' partitions in one phase, violin after violin. */
  function ViolinVisits(dirs: Directories, phase: int, violins: seq<string>): seq<Visit>
  {
    if |violins| == 0 then []
    else ViolinVisits(dirs, phase, violins[..|violins| - 1]) + PartitionVisits(dirs, phase, violins[|violins| - 1])
  }

  /** The files of the given phases, phase after phase. */
  function PhaseVisits(dirs: Directories, phases: seq<int>): seq<Visit>
  {
    if |phases| == 0 then []
    else PhaseVisits(dirs, phases[..|phases| - 1]) + ViolinVisits(dirs, phases[|phases| - 1], Violins)
  }

  /** Every file the loops of lines 73-87 reach, in the order they reach them. */
  function Visits(dirs: Directories): seq<Visit>
  {
    PhaseVisits(dirs, Phases)
  }

  /** The measurement an accepted file contributes. */
  function RowOf(v: Visit, h: seq<Magnitude>): Measurement
  {
    Measurement(v.violin, v.phase, v.file.name, v.id, h)
  }

  /** Lines 88-104 for one file: nothing, one measurement, or an exception. */
  function Step(v: Visit): Result<seq<Measurement>, BuildError>
  {
    match ProcessFile(v.file.mat)
    case Rejected => Ok([])
    case MissingSpectrum => Err(SpectrumMissing(v.file.name))
    case Accepted(f, h) =>
      if |h| != |f| then Err(ConflictingSizes(v.file.name)) else Ok([RowOf(v, h)])
  }

  /** The measurements collected from a run of visits, or the first exception. */
  function Gather(vs: seq<Visit>): Result<seq<Measurement>, BuildError>
  {
    if |vs| == 0 then Ok([])
    else
      var prev := Gather(vs[..|vs| - 1]);
      if prev.Err? then prev
      else
        match Step(vs[|vs| - 1])
        case Err(e) => Err(e)
        case Ok(rows) => Ok(prev.value + rows)
  }

  /** What `build_dataset` returns or raises. */
  function Assembly(dirs: Directories): Result<Dataset, BuildError>
  {
    var g := Gather(Visits(dirs));
    if g.Err? then Err(g.error)
    else if |g.value| == 0 then Err(NoData)
    else Ok(Dataset(Axis(), g.value))
  }

  // Proof helpers for the loops

  /** Once an exception is raised, later files change nothing. */
  lemma {:induction false} GatherStops(a: seq<Visit>, b: seq<Visit>)
    requires a <= b && Gather(a).Err?
    ensures Gather(b) == Gather(a)
  {
    if |b| > |a| {
      var front := b[..|b| - 1];
      assert a <= front;
      GatherStops(a, front);
    } else {
      assert a == b;
    }
  }

  /** One more file: its step's exception, or the collected rows followed by its own. */
  lemma GatherNext(vs: seq<Visit>, v: Visit)
    requires Gather(vs).Ok?
    ensures Gather(vs + [v]) == if Step(v).Err? then Err(Step(v).error) else Ok(Gather(vs).value + Step(v).value)
  {
    assert (vs + [v])[..|vs|] == vs;
  }

  lemma {:induction false} ViolinVisitsGrow(dirs: Directories, phase: int, violins: seq<string>, k: nat)
    requires k <= |violins|
    ensures ViolinVisits(dirs, phase, violins[..k]) <= ViolinVisits(dirs, phase, violins)
  {
    if k < |violins| {
      var front := violins[..|violins| - 1];
      ViolinVisitsGrow(dirs, phase, front, k);
      assert front[..k] == violins[..k];
      PrefixTransitive(ViolinVisits(dirs, phase, violins[..k]), ViolinVisits(dirs, phase, front), ViolinVisits(dirs, phase, violins));
    } else {
      assert violins[..k] == violins;
    }
  }

  lemma {:induction false} PhaseVisitsGrow(dirs: Directories, phases: seq<int>, k: nat)
    requires k <= |phases|
    ensures PhaseVisits(dirs, phases[..k]) <= PhaseVisits(dirs, phases)
  {
    if k < |phases| {
      var front := phases[..|phases| - 1];
      PhaseVisitsGrow(dirs, front, k);
      assert front[..k] == phases[..k];
      PrefixTransitive(PhaseVisits(dirs, phases[..k]), PhaseVisits(dirs, front), PhaseVisits(dirs, phases));
    } else {
      assert phases[..k] == phases;
    }
  }

  /** The visits after one more violin of the phase, following earlier ones. */
  lemma ViolinVisitsNext(dirs: Directories, phase: int, before: seq<Visit>, v: nat)
    requires v < |Violins|
    ensures before + ViolinVisits(dirs, phase, Violins[..v + 1])
            == before + ViolinVisits(dirs, phase, Violins[..v]) + PartitionVisits(dirs, phase, Violins[v])
  {
    assert Violins[..v + 1][..v] == Violins[..v];
    AppendAssociative(before, ViolinVisits(dirs, phase, Violins[..v]), PartitionVisits(dirs, phase, Violins[v]));
  }

  /** The step of the file after a run that raised nothing: it raises for the whole listing, or extends the rows. */
  lemma GatherAt(before: seq<Visit>, part: seq<Visit>, i: nat, collected: seq<Measurement>)
    requires i < |part| && Gather(before + part[..i]) == Ok(collected)
    ensures Step(part[i]).Err? ==> Gather(before + part) == Err(Step(part[i]).error)
    ensures Step(part[i]).Ok? ==> Gather(before + part[..i + 1]) == Ok(collected + Step(part[i]).value)
  {
    AppendSlice(before, part, i);
    GatherNext(before + part[..i], part[i]);
    if Step(part[i]).Err? {
      GatherStops(before + part[..i + 1], before + part);
    }
  }

  /** Lines 87-104 for one non-empty listing: process its files in order. */
  method CollectFiles(phase: int, violin: string, files: seq<FileEntry>, ghost before: seq<Visit>, datasets: seq<Measurement>)
    returns (r: Result<seq<Measurement>, BuildError>)
    requires Gather(before) == Ok(datasets)
    ensures r == Gather(before + FileVisits(phase, violin, files))
  {
    ghost var part := FileVisits(phase, violin, files);
    var collected := datasets;
    assert before + part[..0] == before;
    for i := 0 to |files|
      invariant Gather(before + part[..i]) == Ok(collected)
    {
      GatherAt(before, part, i, collected);
      var result := ProcessFile(files[i].mat);
      assert part[i] == Visit(phase, violin, i + 1, files[i]);
      if result.MissingSpectrum? {
        assert Step(part[i]) == Err(SpectrumMissing(files[i].name));
        return Err(SpectrumMissing(files[i].name));
      }
      if result.Accepted? {
        var f, h := result.frequency, result.admittance;
        if |h| != |f| {
          assert Step(part[i]) == Err(ConflictingSizes(files[i].name));
          return Err(ConflictingSizes(files[i].name));
        }
        assert Step(part[i]) == Ok([RowOf(part[i], h)]);
        collected := collected + [Measurement(violin, phase, files[i].name, i + 1, h)];
      } else {
        assert Step(part[i]) == Ok([]);
        assert collected + [] == collected;
      }
    }
    assert part[..|files|] == part;
    return Ok(collected);
  }

  /** Lines 74-104 for one phase: the violins in order, skipping missing and empty directories. */
  method CollectPhase(dirs: Directories, phase: int, ghost before: seq<Visit>, datasets: seq<Measurement>)
    returns (r: Result<seq<Measurement>, BuildError>)
    requires Gather(before) == Ok(datasets)
    ensures r == Gather(before + ViolinVisits(dirs, phase, Violins))
  {
    var collected := datasets;
    assert before + ViolinVisits(dirs, phase, Violins[..0]) == before;
    for v := 0 to |Violins|
      invariant Gather(before + ViolinVisits(dirs, phase, Violins[..v])) == Ok(collected)
    {
      var violin := Violins[v];
      ghost var done := before + ViolinVisits(dirs, phase, Violins[..v]);
      ViolinVisitsNext(dirs, phase, before, v);
      if Partition(phase, violin) in dirs && |dirs[Partition(phase, violin)]| > 0 {
        var files := dirs[Partition(phase, violin)];
        var result := CollectFiles(phase, violin, files, done, collected);
        if result.Err? {
          assert done + PartitionVisits(dirs, phase, violin) <= before + ViolinVisits(dirs, phase, Violins) by {
            ViolinVisitsGrow(dirs, phase, Violins, v + 1);
            PrefixExtend(before, ViolinVisits(dirs, phase, Violins[..v + 1]), ViolinVisits(dirs, phase, Violins));
          }
          GatherStops(done + PartitionVisits(dirs, phase, violin), before + ViolinVisits(dirs, phase, Violins));
          return result;
        }
        collected := result.value;
      } else {
        assert PartitionVisits(dirs, phase, violin) == [];
        assert done + [] == done;
      }
    }
    assert Violins[..|Violins|] == Violins;
    return Ok(collected);
  }

  /** Lines 67-110: the loop over phases, then the check for an empty result. */
  method BuildDataset(dirs: Directories) returns (r: Result<Dataset, BuildError>)
    ensures r == Assembly(dirs)
  {
    var datasets: seq<Measurement> := [];
    for p := 0 to |Phases|
      invariant Gather(PhaseVisits(dirs, Phases[..p])) == Ok(datasets)
    {
      ghost var done := PhaseVisits(dirs, Phases[..p]);
      assert PhaseVisits(dirs, Phases[..p + 1]) == done + ViolinVisits(dirs, Phases[p], Violins) by {
        assert Phases[..p + 1][..p] == Phases[..p];
      }
      var result := CollectPhase(dirs, Phases[p], done, datasets);
      if result.Err? {
        PhaseVisitsGrow(dirs, Phases, p + 1);
        GatherStops(PhaseVisits(dirs, Phases[..p + 1]), Visits(dirs));
        return Err(result.error);
      }
      datasets := result.value;
    }
    assert Phases[..|Phases|] == Phases;
    if |datasets| == 0 {
      return Err(NoData);
    }
    return Ok(Dataset(Axis(), datasets));
  }

  // ---------------------------------------------------------------------
  // What the assembly promises

  /** A file whose step raises. */
  predicate Faulty(v: Visit)
  {
    Step(v).Err?
  }

  /** `m` is the measurement the accepted file of `v` contributes. */
  predicate Contributes(v: Visit, m: Measurement)
  {
    ProcessFile(v.file.mat).Accepted? && m == RowOf(v, ProcessFile(v.file.mat).admittance)
  }

  /** The number of files `process_file` accepts. */
  function CountAccepted(vs: seq<Visit>): nat
  {
    if |vs| == 0 then 0
    else CountAccepted(vs[..|vs| - 1]) + (if ProcessFile(vs[|vs| - 1].file.mat).Accepted? then 1 else 0)
  }

  lemma {:induction false} CountAcceptedZero(vs: seq<Visit>)
    ensures CountAccepted(vs) == 0 <==> forall i :: 0 <= i < |vs| ==> !ProcessFile(vs[i].file.mat).Accepted?
  {
    if |vs| > 0 {
      var front := vs[..|vs| - 1];
      CountAcceptedZero(front);
      assert forall i :: 0 <= i < |front| ==> front[i] == vs[i];
    }
  }

  /**
   * Without an exception, the collected measurements are one per accepted
   * file, each the measurement of some accepted file.
   */
  lemma {:induction false} GatherOk(vs: seq<Visit>)
    ensures Gather(vs).Ok? <==> forall i :: 0 <= i < |vs| ==> !Faulty(vs[i])
    ensures Gather(vs).Ok? ==> |Gather(vs).value| == CountAccepted(vs)
    ensures Gather(vs).Ok? ==> forall k :: 0 <= k < |Gather(vs).value| ==>
              exists i :: 0 <= i < |vs| && Contributes(vs[i], Gather(vs).value[k])
  {
    if |vs| > 0 {
      var front := vs[..|vs| - 1];
      var last := vs[|vs| - 1];
      GatherOk(front);
      assert forall i :: 0 <= i < |front| ==> front[i] == vs[i];
      if Gather(vs).Ok? {
        var rows := Gather(vs).value;
        var prev := Gather(front).value;
        forall k | 0 <= k < |rows|
          ensures exists i :: 0 <= i < |vs| && Contributes(vs[i], rows[k])
        {
          if k < |prev| {
            var i :| 0 <= i < |front| && Contributes(front[i], prev[k]);
            assert Contributes(vs[i], rows[k]);
          } else {
            assert Contributes(vs[|vs| - 1], rows[k]);
          }
        }
      }
    }
  }

  /** An exception is the one raised by the first faulty file. */
  lemma {:induction false} GatherFirstError(vs: seq<Visit>)
    requires Gather(vs).Err?
    ensures exists j :: 0 <= j < |vs| && Faulty(vs[j]) && Gather(vs).error == Step(vs[j]).error
                        && forall i :: 0 <= i < j ==> !Faulty(vs[i])
  {
    var front := vs[..|vs| - 1];
    assert forall i :: 0 <= i < |front| ==> front[i] == vs[i];
    if Gather(front).Err? {
      GatherFirstError(front);
      var j :| 0 <= j < |front| && Faulty(front[j]) && Gather(front).error == Step(front[j]).error
                && forall i :: 0 <= i < j ==> !Faulty(front[i]);
      assert Faulty(vs[j]);
    } else {
      GatherOk(front);
      assert Faulty(vs[|vs| - 1]);
    }
  }

  /**
   * `build_dataset` raises ValueError("No data found or processed.") exactly
   * when no file raised and none was accepted; otherwise, if nothing raised,
   * the dataset holds one measurement per accepted file on the 16385-point axis.
   */
  lemma AssemblyOutcome(dirs: Directories)
    ensures Assembly(dirs) == Err(NoData) <==>
              (forall i :: 0 <= i < |Visits(dirs)| ==> !Faulty(Visits(dirs)[i]))
              && forall i :: 0 <= i < |Visits(dirs)| ==> !ProcessFile(Visits(dirs)[i].file.mat).Accepted?
    ensures Assembly(dirs).Ok? ==>
              |Assembly(dirs).value.measurements| == CountAccepted(Visits(dirs)) > 0
              && Assembly(dirs).value.frequency == Axis()
    ensures Assembly(dirs).Err? && Assembly(dirs).error != NoData ==>
              exists j :: 0 <= j < |Visits(dirs)| && Faulty(Visits(dirs)[j]) && Assembly(dirs).error == Step(Visits(dirs)[j]).error
  {
    var vs := Visits(dirs);
    GatherOk(vs);
    CountAcceptedZero(vs);
    if Gather(vs).Err? {
      GatherFirstError(vs);
    }
  }

  // Where each visit comes from, and in which order

  /** The visit is file number `id` (from 1) of its partition's existing directory. */
  predicate Listed(dirs: Directories, v: Visit)
  {
    Partition(v.phase, v.violin) in dirs
    && 1 <= v.id <= |dirs[Partition(v.phase, v.violin)]|
    && dirs[Partition(v.phase, v.violin)][v.id - 1] == v.file
  }

  /** The position of a violin in the loop order. */
  function Rank(violin: string): (r: nat)
    ensures r <= |Violins|
    ensures r < |Violins| ==> Violins[r] == violin
  {
    if violin == Violins[0] then 0 else if violin == Violins[1] then 1 else if violin == Violins[2] then 2 else 3
  }

  /** Phase first, then violin in loop order, then position in the listing. */
  predicate Precedes(phase1: int, rank1: int, id1: int, phase2: int, rank2: int, id2: int)
  {
    phase1 < phase2 || (phase1 == phase2 && (rank1 < rank2 || (rank1 == rank2 && id1 < id2)))
  }

  predicate VisitsOrdered(vs: seq<Visit>)
  {
    forall i, j :: 0 <= i < j < |vs| ==>
      Precedes(vs[i].phase, Rank(vs[i].violin), vs[i].id, vs[j].phase, Rank(vs[j].violin), vs[j].id)
  }

  predicate RowsOrdered(ms: seq<Measurement>)
  {
    forall i, j :: 0 <= i < j < |ms| ==>
      Precedes(ms[i].phase, Rank(ms[i].violin), ms[i].measurementId, ms[j].phase, Rank(ms[j].violin), ms[j].measurementId)
  }

  lemma OrderedConcat(a: seq<Visit>, b: seq<Visit>)
    requires VisitsOrdered(a) && VisitsOrdered(b)
    requires forall i, j :: 0 <= i < |a| && 0 <= j < |b| ==>
      Precedes(a[i].phase, Rank(a[i].violin), a[i].id, b[j].phase, Rank(b[j].violin), b[j].id)
    ensures VisitsOrdered(a + b)
  {
    var c := a + b;
    forall i, j | 0 <= i < j < |c|
      ensures Precedes(c[i].phase, Rank(c[i].violin), c[i].id, c[j].phase, Rank(c[j].violin), c[j].id)
    {
      if j < |a| {
        assert c[i] == a[i] && c[j] == a[j];
      } else if i >= |a| {
        assert c[i] == b[i - |a|] && c[j] == b[j - |a|];
      } else {
        assert c[i] == a[i] && c[j] == b[j - |a|];
      }
    }
  }

  /** One partition: its files in listing order, all of that phase and violin, all listed. */
  lemma PartitionFacts(dirs: Directories, phase: int, violin: string)
    ensures var part := PartitionVisits(dirs, phase, violin);
            && VisitsOrdered(part)
            && forall i :: 0 <= i < |part| ==> part[i].phase == phase && part[i].violin == violin && Listed(dirs, part[i])
  {
  }

  /** Appending the partition of the v-th violin to the earlier ones of its phase keeps them ordered and listed. */
  lemma ViolinStep(dirs: Directories, phase: int, v: nat, prev: seq<Visit>, part: seq<Visit>)
    requires v > 0
    requires VisitsOrdered(prev)
    requires forall i :: 0 <= i < |prev| ==> prev[i].phase == phase && Rank(prev[i].violin) < v - 1 && Listed(dirs, prev[i])
    requires VisitsOrdered(part)
    requires forall i :: 0 <= i < |part| ==> part[i].phase == phase && Rank(part[i].violin) == v - 1 && Listed(dirs, part[i])
    ensures VisitsOrdered(prev + part)
    ensures forall i :: 0 <= i < |prev + part| ==>
      (prev + part)[i].phase == phase && Rank((prev + part)[i].violin) < v && Listed(dirs, (prev + part)[i])
  {
    forall i, j | 0 <= i < |prev| && 0 <= j < |part|
      ensures Precedes(prev[i].phase, Rank(prev[i].violin), prev[i].id, part[j].phase, Rank(part[j].violin), part[j].id)
    {
    }
    OrderedConcat(prev, part);
    var vs := prev + part;
    forall i | 0 <= i < |vs|
      ensures vs[i].phase == phase && Rank(vs[i].violin) < v && Listed(dirs, vs[i])
    {
      if i < |prev| {
        assert vs[i] == prev[i];
      } else {
        assert vs[i] == part[i - |prev|];
      }
    }
  }

  /** Within a phase: violin after violin, files in listing order, all listed. */
  lemma {:induction false} ViolinVisitsFacts(dirs: Directories, phase: int, v: nat)
    requires v <= |Violins|
    ensures var vs := ViolinVisits(dirs, phase, Violins[..v]);
            && VisitsOrdered(vs)
            && forall i :: 0 <= i < |vs| ==> vs[i].phase == phase && Rank(vs[i].violin) < v && Listed(dirs, vs[i])
  {
    if v > 0 {
      ViolinVisitsFacts(dirs, phase, v - 1);
      var prev := ViolinVisits(dirs, phase, Violins[..v - 1]);
      var violin := Violins[v - 1];
      var part := PartitionVisits(dirs, phase, violin);
      assert ViolinVisits(dirs, phase, Violins[..v]) == prev + part by {
        assert Violins[..v][..v - 1] == Violins[..v - 1];
      }
      assert Rank(violin) == v - 1;
      PartitionFacts(dirs, phase, violin);
      ViolinStep(dirs, phase, v, prev, part);
    }
  }

  /** Across phases: phase 1 before phase 2, all listed. */
  lemma {:induction false} PhaseVisitsFacts(dirs: Directories, p: nat)
    requires p <= |Phases|
    ensures var vs := PhaseVisits(dirs, Phases[..p]);
            && VisitsOrdered(vs)
            && forall i :: 0 <= i < |vs| ==> 1 <= vs[i].phase <= p && Rank(vs[i].violin) < |Violins| && Listed(dirs, vs[i])
  {
    if p > 0 {
      PhaseVisitsFacts(dirs, p - 1);
      assert Phases[..p][..p - 1] == Phases[..p - 1];
      var prev := PhaseVisits(dirs, Phases[..p - 1]);
      var phase := Phases[p - 1];
      assert phase == p;
      ViolinVisitsFacts(dirs, phase, |Violins|);
      assert Violins[..|Violins|] == Violins;
      var cur := ViolinVisits(dirs, phase, Violins);
      assert PhaseVisits(dirs, Phases[..p]) == prev + cur;
      OrderedConcat(prev, cur);
      var vs := prev + cur;
      forall i | 0 <= i < |vs|
        ensures 1 <= vs[i].phase <= p && Rank(vs[i].violin) < |Violins| && Listed(dirs, vs[i])
      {
        if i >= |prev| {
          assert vs[i] == cur[i - |prev|];
        }
      }
    }
  }

  lemma VisitsFacts(dirs: Directories)
    ensures VisitsOrdered(Visits(dirs))
    ensures forall i :: 0 <= i < |Visits(dirs)| ==>
      Visits(dirs)[i].phase in Phases && Visits(dirs)[i].violin in Violins && Listed(dirs, Visits(dirs)[i])
  {
    PhaseVisitsFacts(dirs, |Phases|);
    assert Phases[..|Phases|] == Phases;
    var vs := Visits(dirs);
    forall i | 0 <= i < |vs|
      ensures vs[i].phase in Phases && vs[i].violin in Violins
    {
      assert Violins[Rank(vs[i].violin)] == vs[i].violin;
    }
  }

  /** Collecting keeps the visiting order. */
  lemma {:induction false} GatherOrdered(vs: seq<Visit>)
    requires VisitsOrdered(vs) && Gather(vs).Ok?
    ensures RowsOrdered(Gather(vs).value)
  {
    if |vs| > 0 {
      var front := vs[..|vs| - 1];
      var last := vs[|vs| - 1];
      assert VisitsOrdered(front);
      GatherOrdered(front);
      GatherOk(front);
      var prev := Gather(front).value;
      var rows := Gather(vs).value;
      if |rows| > |prev| {
        assert rows == prev + [RowOf(last, ProcessFile(last.file.mat).admittance)];
        forall i, j | 0 <= i < j < |rows|
          ensures Precedes(rows[i].phase, Rank(rows[i].violin), rows[i].measurementId,
                           rows[j].phase, Rank(rows[j].violin), rows[j].measurementId)
        {
          if j == |prev| {
            var k :| 0 <= k < |front| && Contributes(front[k], prev[i]);
            assert front[k] == vs[k];
          }
        }
      }
    }
  }

  /**
   * Every measurement is the accepted file number `measurement_id` of its
   * (phase, violin) directory: ids are 1-based listing positions, so a
   * rejected file still uses up its number.
   */
  lemma AssemblyIds(dirs: Directories, k: nat)
    requires Assembly(dirs).Ok? && k < |Assembly(dirs).value.measurements|
    ensures var m := Assembly(dirs).value.measurements[k];
            var files := Listing(dirs, m.phase, m.violin);
            && m.phase in Phases && m.violin in Violins
            && Partition(m.phase, m.violin) in dirs
            && 1 <= m.measurementId <= |files|
            && files[m.measurementId - 1].name == m.filename
            && ProcessFile(files[m.measurementId - 1].mat).Accepted?
            && m.admittance == ProcessFile(files[m.measurementId - 1].mat).admittance
  {
    var vs := Visits(dirs);
    GatherOk(vs);
    VisitsFacts(dirs);
    var m := Assembly(dirs).value.measurements[k];
    var i :| 0 <= i < |vs| && Contributes(vs[i], m);
    assert Listed(dirs, vs[i]);
  }

  /**
   * Measurements come phase by phase, violin by violin in the order
   * klimke, levaggi, stoppani, and by increasing id within a directory.
   */
  lemma AssemblyOrdered(dirs: Directories)
    requires Assembly(dirs).Ok?
    ensures RowsOrdered(Assembly(dirs).value.measurements)
  {
    VisitsFacts(dirs);
    GatherOrdered(Visits(dirs));
  }

  /** Two directory maps that list the same files for every partition. */
  ghost predicate SameListings(d1: Directories, d2: Directories)
  {
    forall phase, violin :: Listing(d1, phase, violin) == Listing(d2, phase, violin)
  }

  lemma {:induction false} ViolinVisitsSame(d1: Directories, d2: Directories, phase: int, violins: seq<string>)
    requires SameListings(d1, d2)
    ensures ViolinVisits(d1, phase, violins) == ViolinVisits(d2, phase, violins)
  {
    if |violins| > 0 {
      ViolinVisitsSame(d1, d2, phase, violins[..|violins| - 1]);
      assert Listing(d1, phase, violins[|violins| - 1]) == Listing(d2, phase, violins[|violins| - 1]);
    }
  }

  lemma {:induction false} PhaseVisitsSame(d1: Directories, d2: Directories, phases: seq<int>)
    requires SameListings(d1, d2)
    ensures PhaseVisits(d1, phases) == PhaseVisits(d2, phases)
  {
    if |phases| > 0 {
      PhaseVisitsSame(d1, d2, phases[..|phases| - 1]);
      ViolinVisitsSame(d1, d2, phases[|phases| - 1], Violins);
    }
  }

  /** An existing directory without `*.mat` files is skipped just like a missing one. */
  lemma EmptyDirectorySkipped(dirs: Directories, part: Partition)
    requires part in dirs && dirs[part] == []
    ensures Assembly(dirs - {part}) == Assembly(dirs)
  {
    var smaller := dirs - {part};
    forall phase, violin
      ensures Listing(smaller, phase, violin) == Listing(dirs, phase, violin)
    {
    }
    PhaseVisitsSame(smaller, dirs, Phases);
  }

  // ---------------------------------------------------------------------
  // Plot reductions (lines 130-136 and 161-182)

  /** One measurement as the plot reads it: its group and one real value per frequency bin. */
  datatype Trace = Trace(violin: string, phase: int, values: seq<real>)

  predicate InGroup(t: Trace, violin: string, phase: int)
  {
    t.violin == violin && t.phase == phase
  }

  predicate HasGroup(traces: seq<Trace>, violin: string, phase: int)
  {
    exists j :: 0 <= j < |traces| && InGroup(traces[j], violin, phase)
  }

  /** Every trace spans the same n frequency bins (the shared axis). */
  predicate Uniform(traces: seq<Trace>, n: nat)
  {
    forall j :: 0 <= j < |traces| ==> |traces[j].values| == n
  }

  /** The group's values at bin k, in measurement order. */
  function Column(traces: seq<Trace>, violin: string, phase: int, k: nat): (c: seq<real>)
    requires forall j :: 0 <= j < |traces| ==> k < |traces[j].values|
    ensures |c| <= |traces|
  {
    if |traces| == 0 then []
    else
      (if InGroup(traces[0], violin, phase) then [traces[0].values[k]] else []) + Column(traces[1..], violin, phase, k)
  }

  /** The column holds the bin-k value of every measurement of the group, and nothing else. */
  lemma {:induction false} ColumnMembers(traces: seq<Trace>, violin: string, phase: int, k: nat)
    requires forall j :: 0 <= j < |traces| ==> k < |traces[j].values|
    ensures forall j :: 0 <= j < |traces| && InGroup(traces[j], violin, phase) ==> traces[j].values[k] in Column(traces, violin, phase, k)
    ensures forall i :: 0 <= i < |Column(traces, violin, phase, k)| ==>
      exists j :: 0 <= j < |traces| && InGroup(traces[j], violin, phase) && traces[j].values[k] == Column(traces, violin, phase, k)[i]
  {
    if |traces| > 0 {
      var tail := traces[1..];
      ColumnMembers(tail, violin, phase, k);
      var head := if InGroup(traces[0], violin, phase) then [traces[0].values[k]] else [];
      var rest := Column(tail, violin, phase, k);
      var c := Column(traces, violin, phase, k);
      assert c == head + rest;
      forall j | 0 <= j < |traces| && InGroup(traces[j], violin, phase)
        ensures traces[j].values[k] in c
      {
        if j > 0 {
          assert tail[j - 1] == traces[j];
          assert traces[j].values[k] in rest;
        }
      }
      forall i | 0 <= i < |c|
        ensures exists j :: 0 <= j < |traces| && InGroup(traces[j], violin, phase) && traces[j].values[k] == c[i]
      {
        if i < |head| {
          assert InGroup(traces[0], violin, phase) && traces[0].values[k] == c[i];
        } else {
          assert c[i] == rest[i - |head|];
          var j :| 0 <= j < |tail| && InGroup(tail[j], violin, phase) && tail[j].values[k] == rest[i - |head|];
          assert traces[j + 1] == tail[j];
        }
      }
    } else {
      assert |Column(traces, violin, phase, k)| == 0;
    }
  }

  lemma ColumnEmpty(traces: seq<Trace>, violin: string, phase: int, k: nat)
    requires forall j :: 0 <= j < |traces| ==> k < |traces[j].values|
    ensures |Column(traces, violin, phase, k)| == 0 <==> !HasGroup(traces, violin, phase)
  {
    var c := Column(traces, violin, phase, k);
    ColumnMembers(traces, violin, phase, k);
    if HasGroup(traces, violin, phase) {
      var j :| 0 <= j < |traces| && InGroup(traces[j], violin, phase);
      assert traces[j].values[k] in c;
    }
  }

  datatype Range = Range(low: real, high: real)

  /** One (violin, phase) panel of the plot. */
  datatype Group = Group(violin: string, phase: int)

  /**
   * Lines 161-182: per bin, the least and greatest value of the group.
   * `where(..., drop=True)` leaves an empty group with no measurement, and
   * the min/max reduction over an empty axis raises ValueError (the group
   * is returned).
   */
  function Envelope(traces: seq<Trace>, violin: string, phase: int, n: nat): (r: Result<seq<Range>, Group>)
    requires Uniform(traces, n)
    ensures r.Err? <==> !HasGroup(traces, violin, phase)
    ensures r.Err? ==> r.error == Group(violin, phase)
    ensures r.Ok? ==> |r.value| == n
  {
    if !HasGroup(traces, violin, phase) then Err(Group(violin, phase))
    else
      Ok(seq(n, k requires 0 <= k < n =>
        ColumnEmpty(traces, violin, phase, k);
        var c := Column(traces, violin, phase, k);
        Range(MinOf(c), MaxOf(c))))
  }

  /**
   * The envelope exists exactly when the group has a measurement; at each
   * bin it then encloses every measurement of the group, and both of its
   * edges are values of some measurement.
   */
  lemma EnvelopeBounds(traces: seq<Trace>, violin: string, phase: int, n: nat, k: nat)
    requires Uniform(traces, n) && k < n
    ensures Envelope(traces, violin, phase, n).Err? <==> !HasGroup(traces, violin, phase)
    ensures Envelope(traces, violin, phase, n).Ok? ==>
            var e := Envelope(traces, violin, phase, n).value[k];
            && e.low <= e.high
            && (forall j :: 0 <= j < |traces| && InGroup(traces[j], violin, phase) ==>
                  e.low <= traces[j].values[k] <= e.high)
            && (exists j :: 0 <= j < |traces| && InGroup(traces[j], violin, phase) && traces[j].values[k] == e.low)
            && (exists j :: 0 <= j < |traces| && InGroup(traces[j], violin, phase) && traces[j].values[k] == e.high)
  {
    var c := Column(traces, violin, phase, k);
    ColumnEmpty(traces, violin, phase, k);
    ColumnMembers(traces, violin, phase, k);
    if HasGroup(traces, violin, phase) {
      var e := Envelope(traces, violin, phase, n).value[k];
      assert e == Range(MinOf(c), MaxOf(c));
      var lo :| 0 <= lo < |c| && c[lo] == MinOf(c);
      var hi :| 0 <= hi < |c| && c[hi] == MaxOf(c);
      forall j | 0 <= j < |traces| && InGroup(traces[j], violin, phase)
        ensures MinOf(c) <= traces[j].values[k] <= MaxOf(c)
      {
        var i :| 0 <= i < |c| && c[i] == traces[j].values[k];
      }
    }
  }

  /** Lines 138 and 151-156: the panels in drawing order, each violin of `mean_db` with its phases in turn. */
  function PlotGroups(violins: seq<string>): (gs: seq<Group>)
    ensures |gs| == 2 * |violins|
    ensures forall i :: 0 <= i < |violins| ==>
      gs[2 * i] == Group(violins[i], Phases[0]) && gs[2 * i + 1] == Group(violins[i], Phases[1])
  {
    if |violins| == 0 then []
    else
      var rest := PlotGroups(violins[1..]);
      assert forall i :: 1 <= i < |violins| ==> violins[i] == violins[1..][i - 1];
      [Group(violins[0], Phases[0]), Group(violins[0], Phases[1])] + rest
  }

  /** The envelopes of the panels `gs`, drawn in turn: the first empty group raises. */
  function Envelopes(traces: seq<Trace>, gs: seq<Group>, n: nat): (r: Result<seq<seq<Range>>, Group>)
    requires Uniform(traces, n)
    ensures r.Ok? ==> |r.value| == |gs|
  {
    if |gs| == 0 then Ok([])
    else
      var head := Envelope(traces, gs[0].violin, gs[0].phase, n);
      if head.Err? then Err(head.error)
      else
        var rest := Envelopes(traces, gs[1..], n);
        if rest.Err? then Err(rest.error) else Ok([head.value] + rest.value)
  }

  /**
   * Drawing the panels succeeds exactly when every group has a measurement,
   * and then each panel has its group's envelope; otherwise the ValueError
   * names the first empty group in drawing order.
   */
  lemma {:induction false} EnvelopesOutcome(traces: seq<Trace>, gs: seq<Group>, n: nat)
    requires Uniform(traces, n)
    ensures Envelopes(traces, gs, n).Ok? <==> forall i :: 0 <= i < |gs| ==> HasGroup(traces, gs[i].violin, gs[i].phase)
    ensures Envelopes(traces, gs, n).Ok? ==>
      forall i :: 0 <= i < |gs| ==> Envelopes(traces, gs, n).value[i] == Envelope(traces, gs[i].violin, gs[i].phase, n).value
    ensures Envelopes(traces, gs, n).Err? ==>
      exists i: nat :: i < |gs| && gs[i] == Envelopes(traces, gs, n).error && !HasGroup(traces, gs[i].violin, gs[i].phase)
                       && forall j :: 0 <= j < i ==> HasGroup(traces, gs[j].violin, gs[j].phase)
  {
    if |gs| > 0 {
      var tail := gs[1..];
      EnvelopesOutcome(traces, tail, n);
      var head := Envelope(traces, gs[0].violin, gs[0].phase, n);
      var rest := Envelopes(traces, tail, n);
      var r := Envelopes(traces, gs, n);
      if head.Err? {
        assert r.error == gs[0];
        assert !HasGroup(traces, gs[0].violin, gs[0].phase);
      } else if rest.Err? {
        var i: nat :| i < |tail| && tail[i] == rest.error && !HasGroup(traces, tail[i].violin, tail[i].phase)
                       && forall j :: 0 <= j < i ==> HasGroup(traces, tail[j].violin, tail[j].phase);
        assert gs[i + 1] == tail[i];
        forall j | 0 <= j < i + 1
          ensures HasGroup(traces, gs[j].violin, gs[j].phase)
        {
          if j > 0 {
            assert gs[j] == tail[j - 1];
          }
        }
      } else {
        assert r.value == [head.value] + rest.value;
        forall i | 0 <= i < |gs|
          ensures HasGroup(traces, gs[i].violin, gs[i].phase)
          ensures r.value[i] == Envelope(traces, gs[i].violin, gs[i].phase, n).value
        {
          if i > 0 {
            assert gs[i] == tail[i - 1];
          }
        }
      }
      if forall i :: 0 <= i < |gs| ==> HasGroup(traces, gs[i].violin, gs[i].phase) {
        assert forall i :: 0 <= i < |tail| ==> tail[i] == gs[i + 1];
      }
    }
  }

  /** Every value multiplied by itself. */
  function Squares(c: seq<real>): (s: seq<real>)
    ensures |s| == |c|
    ensures forall i :: 0 <= i < |c| ==> s[i] == c[i] * c[i]
  {
    seq(|c|, i requires 0 <= i < |c| => c[i] * c[i])
  }

  /** Line 130: `dataset["H"] ** 2`, measurement by measurement. */
  function Powers(traces: seq<Trace>): (r: seq<Trace>)
    ensures |r| == |traces|
    ensures forall j :: 0 <= j < |traces| ==>
      r[j].violin == traces[j].violin && r[j].phase == traces[j].phase && |r[j].values| == |traces[j].values|
  {
    seq(|traces|, j requires 0 <= j < |traces| => Trace(traces[j].violin, traces[j].phase, Squares(traces[j].values)))
  }

  lemma PowersNonNegative(traces: seq<Trace>, j: nat, k: nat)
    requires j < |traces| && k < |traces[j].values|
    ensures Powers(traces)[j].values[k] >= 0.0
  {
    var x := traces[j].values[k];
    assert Powers(traces)[j].values[k] == x * x;
  }

  /** The mean of the group's values per bin; NaN for an empty group. */
  function GroupMean(traces: seq<Trace>, violin: string, phase: int, n: nat): (r: seq<Option<real>>)
    requires Uniform(traces, n)
    ensures |r| == n
  {
    seq(n, k requires 0 <= k < n =>
      var c := Column(traces, violin, phase, k);
      if |c| == 0 then None else Some(Mean(c)))
  }

  /** Lines 130-132 before the square root: the mean of H squared per bin and group. */
  function MeanPower(traces: seq<Trace>, violin: string, phase: int, n: nat): (r: seq<Option<real>>)
    requires Uniform(traces, n)
    ensures |r| == n
  {
    GroupMean(Powers(traces), violin, phase, n)
  }

  /**
   * The group mean at bin k exists exactly when the group has a
   * measurement, and lies between any bounds on the group's values there.
   */
  lemma GroupMeanBounds(traces: seq<Trace>, violin: string, phase: int, n: nat, k: nat, lo: real, hi: real)
    requires Uniform(traces, n) && k < n
    ensures var m := GroupMean(traces, violin, phase, n)[k];
            && (m.None? <==> !HasGroup(traces, violin, phase))
            && (m.Some? && (forall j :: 0 <= j < |traces| && InGroup(traces[j], violin, phase) ==> lo <= traces[j].values[k])
                ==> lo <= m.value)
            && (m.Some? && (forall j :: 0 <= j < |traces| && InGroup(traces[j], violin, phase) ==> traces[j].values[k] <= hi)
                ==> m.value <= hi)
  {
    var c := Column(traces, violin, phase, k);
    ColumnEmpty(traces, violin, phase, k);
    ColumnMembers(traces, violin, phase, k);
    if |c| > 0 {
      forall i | 0 <= i < |c|
        ensures exists j :: 0 <= j < |traces| && InGroup(traces[j], violin, phase) && traces[j].values[k] == c[i]
      {
      }
      if forall j :: 0 <= j < |traces| && InGroup(traces[j], violin, phase) ==> lo <= traces[j].values[k] {
        MeanBounds(c, lo, MaxOf(c));
      }
      if forall j :: 0 <= j < |traces| && InGroup(traces[j], violin, phase) ==> traces[j].values[k] <= hi {
        MeanBounds(c, MinOf(c), hi);
      }
    }
  }

  /** The mean power exists exactly when the group has a measurement, and is never negative. */
  lemma MeanPowerNonNegative(traces: seq<Trace>, violin: string, phase: int, n: nat, k: nat)
    requires Uniform(traces, n) && k < n
    ensures MeanPower(traces, violin, phase, n)[k].None? <==> !HasGroup(traces, violin, phase)
    ensures MeanPower(traces, violin, phase, n)[k].Some? ==> MeanPower(traces, violin, phase, n)[k].value >= 0.0
  {
    var p := Powers(traces);
    forall j | 0 <= j < |p| && InGroup(p[j], violin, phase)
      ensures 0.0 <= p[j].values[k]
    {
      PowersNonNegative(traces, j, k);
    }
    assert HasGroup(p, violin, phase) <==> HasGroup(traces, violin, phase) by {
      if HasGroup(p, violin, phase) {
        var j :| 0 <= j < |p| && InGroup(p[j], violin, phase);
        assert InGroup(traces[j], violin, phase);
      }
      if HasGroup(traces, violin, phase) {
        var j :| 0 <= j < |traces| && InGroup(traces[j], violin, phase);
        assert InGroup(p[j], violin, phase);
      }
    }
    GroupMeanBounds(p, violin, phase, n, k, 0.0, 0.0);
  }

  function Lift(toDb: real -> real, power: Option<real>): Option<real>
  {
    if power.None? then None else Some(toDb(power.value))
  }

  predicate HasPhase(traces: seq<Trace>, phase: int)
  {
    exists j :: 0 <= j < |traces| && traces[j].phase == phase
  }

  /**
   * Line 136: `mean_db.sel(phase=1) - mean_db.sel(phase=2)` for one violin,
   * per bin; selecting a phase no measurement has raises KeyError (the
   * phase is returned). `toDb` stands for 20 * log10(sqrt(.)) of lines
   * 130-133.
   */
  function DbDifference(traces: seq<Trace>, violin: string, n: nat, toDb: real -> real): (r: Result<seq<Option<real>>, int>)
    requires Uniform(traces, n)
    ensures r.Err? <==> !HasPhase(traces, 1) || !HasPhase(traces, 2)
    ensures r.Err? ==> r.error == (if HasPhase(traces, 1) then 2 else 1)
    ensures r.Ok? ==> |r.value| == n
  {
    if !HasPhase(traces, 1) then Err(1)
    else if !HasPhase(traces, 2) then Err(2)
    else
      var before := MeanPower(traces, violin, 1, n);
      var after := MeanPower(traces, violin, 2, n);
      Ok(seq(n, k requires 0 <= k < n => Sub(Lift(toDb, before[k]), Lift(toDb, after[k]))))
  }

  /**
   * Bin k of the difference is the dB level of phase 1 minus that of
   * phase 2, and is missing exactly when the violin lacks either phase.
   */
  lemma DbDifferenceAt(traces: seq<Trace>, violin: string, n: nat, toDb: real -> real, k: nat)
    requires Uniform(traces, n) && k < n
    requires DbDifference(traces, violin, n, toDb).Ok?
    ensures var d := DbDifference(traces, violin, n, toDb).value[k];
            var before := MeanPower(traces, violin, 1, n)[k];
            var after := MeanPower(traces, violin, 2, n)[k];
            && (d.None? <==> !HasGroup(traces, violin, 1) || !HasGroup(traces, violin, 2))
            && (d.Some? ==> d.value == toDb(before.value) - toDb(after.value))
  {
    MeanPowerNonNegative(traces, violin, 1, n, k);
    MeanPowerNonNegative(traces, violin, 2, n, k);
  }

  /** A lower bound on every power of a non-empty group bounds its mean power. */
  lemma MeanPowerAtLeast(traces: seq<Trace>, violin: string, phase: int, n: nat, k: nat, c: real)
    requires Uniform(traces, n) && k < n && HasGroup(traces, violin, phase)
    requires forall j :: 0 <= j < |traces| && InGroup(traces[j], violin, phase) ==> Powers(traces)[j].values[k] >= c
    ensures MeanPower(traces, violin, phase, n)[k].Some? && MeanPower(traces, violin, phase, n)[k].value >= c
  {
    var j :| 0 <= j < |traces| && InGroup(traces[j], violin, phase);
    var p := Powers(traces);
    assert InGroup(p[j], violin, phase);
    GroupMeanBounds(p, violin, phase, n, k, c, c);
  }

  /** An upper bound on every power of a non-empty group bounds its mean power. */
  lemma MeanPowerAtMost(traces: seq<Trace>, violin: string, phase: int, n: nat, k: nat, c: real)
    requires Uniform(traces, n) && k < n && HasGroup(traces, violin, phase)
    requires forall j :: 0 <= j < |traces| && InGroup(traces[j], violin, phase) ==> Powers(traces)[j].values[k] <= c
    ensures MeanPower(traces, violin, phase, n)[k].Some? && MeanPower(traces, violin, phase, n)[k].value <= c
  {
    var j :| 0 <= j < |traces| && InGroup(traces[j], violin, phase);
    var p := Powers(traces);
    assert InGroup(p[j], violin, phase);
    GroupMeanBounds(p, violin, phase, n, k, c, c);
  }

  /**
   * The difference at bin k is phase 1's level minus phase 2's (the
   * opposite sign of the other analyses): when every phase-1 measurement of
   * the violin is at least as strong as every phase-2 one, it is not negative.
   */
  lemma DbDifferenceSign(traces: seq<Trace>, violin: string, n: nat, toDb: real -> real, k: nat, c: real)
    requires Uniform(traces, n) && k < n
    requires forall x, y :: x <= y ==> toDb(x) <= toDb(y)
    requires HasGroup(traces, violin, 1) && HasGroup(traces, violin, 2)
    requires forall j :: 0 <= j < |traces| && InGroup(traces[j], violin, 1) ==> Powers(traces)[j].values[k] >= c
    requires forall j :: 0 <= j < |traces| && InGroup(traces[j], violin, 2) ==> Powers(traces)[j].values[k] <= c
    ensures DbDifference(traces, violin, n, toDb).Ok?
    ensures DbDifference(traces, violin, n, toDb).value[k].Some?
    ensures DbDifference(traces, violin, n, toDb).value[k].value >= 0.0
  {
    var j1 :| 0 <= j1 < |traces| && InGroup(traces[j1], violin, 1);
    var j2 :| 0 <= j2 < |traces| && InGroup(traces[j2], violin, 2);
    assert HasPhase(traces, 1) && HasPhase(traces, 2);
    MeanPowerAtLeast(traces, violin, 1, n, k, c);
    MeanPowerAtMost(traces, violin, 2, n, k, c);
    DbDifferenceAt(traces, violin, n, toDb, k);
  }
}
