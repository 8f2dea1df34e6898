/**
 * mocap.py: the bowing-descriptor dataset and its phase difference.
 *
 * `build_dataset` walks excerpt by excerpt, violin by violin, phase 1 then
 * phase 2, over the CSV takes of each directory. Takes on the bad list are
 * skipped. The first remaining take of an excerpt becomes that excerpt's
 * reference: every later take of the excerpt is aligned to it, and the
 * reference's frame numbers decide which samples lie in the excerpt's
 * validity window. Each take contributes one frame of rows (time, feature,
 * violin, excerpt, phase) with time re-based to k / 120 s. The frames are
 * then concatenated, and an inner merge pairs every phase-2 row with every
 * phase-1 row of the same (violin, excerpt, time).
 *
 * The motion-capture library (`Take`: loading, `align`, `compute_skewness`,
 * `warp`) is not part of this model: a `Descriptor` gives the warped
 * descriptor series of a take, aligned to the reference when there is one.
 */
module Mocap {
  import opened Frame

  /** Takes that are skipped by name. */
  const Bad: seq<string> := ["own_P1_open_strings_1.csv", "own_P1_glazounov_1.csv", "stoppani_P1_tchaikovsky_3.csv"]

  const Violins: seq<string> := ["klimke", "own", "stoppani"]
  const Excerpts: seq<string> := ["open_strings", "bach", "tchaikovsky", "glazounov"]
  const Phases: seq<int> := [1, 2]

  /** Capture rate: the re-based times are sample indices over 120. */
  const FrameRate: real := 120.0

  /** A validity window of frame numbers, both ends excluded. */
  datatype Window = Window(start: int, end: int)

  /** The `VALIDITY` table; an empty list there is no window. */
  const Validity: map<string, Option<Window>> := map[
    "long_sustained_note" := None,
    "open_strings" := Some(Window(170, 3000)),
    "bach" := Some(Window(100, 850)),
    "tchaikovsky" := Some(Window(100, 1860)),
    "glazounov" := Some(Window(170, 2600))
  ]

  /** A take file: its name and the frame numbers of its time column. */
  datatype TakeFile = TakeFile(name: string, frames: seq<int>)

  /**
   * The warped descriptor series of a take; the second argument is the
   * reference it is aligned to, or None for the reference itself.
   */
  type Descriptor = (TakeFile, Option<TakeFile>) -> seq<real>

  /** One row of the concatenated table. */
  datatype Row = Row(time: real, feature: real, violin: string, excerpt: string, phase: int)

  // ---------------------------------------------------------------------
  // One take (lines 73-92)

  /** Whether a frame number lies in the excerpt's validity window. */
  predicate InWindow(excerpt: string, frame: int)
    requires excerpt in Validity
  {
    match Validity[excerpt]
    case Some(w) => w.start < frame < w.end
    case None => frame > 0
  }

  /** The boolean mask `valid` over a sequence of frame numbers. */
  function Mask(excerpt: string, frames: seq<int>): (m: seq<bool>)
    requires excerpt in Validity
    ensures |m| == |frames|
    ensures forall i :: 0 <= i < |frames| ==> m[i] == InWindow(excerpt, frames[i])
  {
    seq(|frames|, i requires 0 <= i < |frames| => InWindow(excerpt, frames[i]))
  }

  /** The number of true entries of a mask. */
  function Count(mask: seq<bool>): (n: nat)
    ensures n <= |mask|
  {
    if |mask| == 0 then 0 else (if mask[0] then 1 else 0) + Count(mask[1..])
  }

  /** Boolean indexing `values[mask]`: the values whose mask entry is true, in order. */
  function Select<T>(values: seq<T>, mask: seq<bool>): (r: seq<T>)
    requires |values| == |mask|
    ensures |r| == Count(mask)
    ensures forall x :: x in r ==> exists i :: 0 <= i < |mask| && mask[i] && values[i] == x
    ensures (forall i :: 0 <= i < |mask| ==> mask[i]) ==> r == values
    ensures (forall i :: 0 <= i < |mask| ==> !mask[i]) ==> r == []
  {
    if |values| == 0 then []
    else
      var rest := Select(values[1..], mask[1..]);
      assert forall x :: x in rest ==> exists i :: 0 <= i < |mask| && mask[i] && values[i] == x by {
        forall x | x in rest
          ensures exists i :: 0 <= i < |mask| && mask[i] && values[i] == x
        {
          var j :| 0 <= j < |mask| - 1 && mask[1..][j] && values[1..][j] == x;
          assert mask[j + 1] && values[j + 1] == x;
        }
      }
      (if mask[0] then [values[0]] else []) + rest
  }

  /** Masking is done entry by entry: the kept values stay in order, each once. */
  lemma {:induction false} SelectAppend<T>(a: seq<T>, m: seq<bool>, b: seq<T>, n: seq<bool>)
    requires |a| == |m| && |b| == |n|
    ensures Select(a + b, m + n) == Select(a, m) + Select(b, n)
    ensures |a| == 1 ==> Select(a, m) == if m[0] then [a[0]] else []
  {
    if |a| == 0 {
      assert a + b == b && m + n == n;
    } else {
      var head := if m[0] then [a[0]] else [];
      assert Select(a + b, m + n) == head + Select(a[1..] + b, m[1..] + n) by {
        var v := a + b;
        var w := m + n;
        assert v[0] == a[0] && w[0] == m[0];
        assert v[1..] == a[1..] + b && w[1..] == m[1..] + n;
      }
      assert Select(a, m) == head + Select(a[1..], m[1..]);
      SelectAppend(a[1..], m[1..], b, n);
      AppendAssociative(head, Select(a[1..], m[1..]), Select(b, n));
      if |a| == 1 {
        assert a[1..] == [] && m[1..] == [];
      }
    }
  }

  /** The k-th selected value is the value at the k-th true entry of the mask. */
  lemma {:induction false} SelectNth<T>(values: seq<T>, mask: seq<bool>, k: nat)
    requires |values| == |mask| && k < Count(mask)
    ensures exists i :: 0 <= i < |mask| && mask[i] && Count(mask[..i]) == k && Select(values, mask)[k] == values[i]
  {
    var rest := Select(values[1..], mask[1..]);
    assert Select(values, mask) == (if mask[0] then [values[0]] else []) + rest;
    if mask[0] && k == 0 {
      assert mask[..0] == [];
      assert Count(mask[..0]) == 0;
    } else {
      var k' := if mask[0] then k - 1 else k;
      SelectNth(values[1..], mask[1..], k');
      var j :| 0 <= j < |mask| - 1 && mask[1..][j] && Count(mask[1..][..j]) == k' && rest[k'] == values[1..][j];
      var front := mask[..j + 1];
      assert front[0] == mask[0] && front[1..] == mask[1..][..j];
      assert Count(front) == (if mask[0] then 1 else 0) + Count(mask[1..][..j]);
      assert mask[j + 1] && values[j + 1] == rest[k'];
    }
  }

  /**
   * The rows one take contributes: the warped series masked by the
   * reference's window, against times 0, 1/120, 2/120, ...
   */
  function TakeRows(excerpt: string, violin: string, phase: int, reference: TakeFile, warped: seq<real>): seq<Row>
    requires excerpt in Validity && |warped| == |reference.frames|
  {
    var features := Select(warped, Mask(excerpt, reference.frames));
    seq(|features|, k requires 0 <= k < |features| => Row(k as real / FrameRate, features[k], violin, excerpt, phase))
  }

  /** The rows of a take: how many, their times, their tags and where their features come from. */
  lemma TakeRowsShape(excerpt: string, violin: string, phase: int, reference: TakeFile, warped: seq<real>, k: nat)
    requires excerpt in Validity && |warped| == |reference.frames|
    ensures |TakeRows(excerpt, violin, phase, reference, warped)| == Count(Mask(excerpt, reference.frames))
    ensures (forall i :: 0 <= i < |reference.frames| ==> InWindow(excerpt, reference.frames[i]))
            ==> |TakeRows(excerpt, violin, phase, reference, warped)| == |warped|
    ensures (forall i :: 0 <= i < |reference.frames| ==> !InWindow(excerpt, reference.frames[i]))
            ==> TakeRows(excerpt, violin, phase, reference, warped) == []
    ensures k < |TakeRows(excerpt, violin, phase, reference, warped)| ==>
      var row := TakeRows(excerpt, violin, phase, reference, warped)[k];
      && row.time == k as real / FrameRate
      && row.violin == violin && row.excerpt == excerpt && row.phase == phase
      && exists i :: 0 <= i < |warped| && InWindow(excerpt, reference.frames[i])
                     && Count(Mask(excerpt, reference.frames)[..i]) == k && warped[i] == row.feature
  {
    var mask := Mask(excerpt, reference.frames);
    var features := Select(warped, mask);
    if k < |features| {
      SelectNth(warped, mask, k);
    }
  }

  /** Every configured excerpt has a window, and its end frames are outside it. */
  lemma ExcerptWindows(i: nat)
    requires i < |Excerpts|
    ensures Excerpts[i] in Validity && Validity[Excerpts[i]].Some?
    ensures var w := Validity[Excerpts[i]].value;
      && 0 < w.start < w.end
      && !InWindow(Excerpts[i], w.start) && !InWindow(Excerpts[i], w.end)
      && InWindow(Excerpts[i], w.start + 1)
  {
  }

  // ---------------------------------------------------------------------
  // Specification of the loops (lines 50-94)

  /** A directory `phase_<phase>/<violin>/<excerpt>`. */
  datatype Partition = Partition(phase: int, violin: string, excerpt: string)

  /** The CSV files `glob` lists in each directory. */
  type Directories = map<Partition, seq<TakeFile>>

  /** A missing directory lists no file. */
  function Listing(dirs: Directories, phase: int, violin: string, excerpt: string): seq<TakeFile>
  {
    if Partition(phase, violin, excerpt) in dirs then dirs[Partition(phase, violin, excerpt)] else []
  }

  /** A take the loops reach within one excerpt. */
  datatype Visit = Visit(violin: string, phase: int, file: TakeFile)

  function FileVisits(violin: string, phase: int, files: seq<TakeFile>): (vs: seq<Visit>)
    ensures |vs| == |files|
    ensures forall i :: 0 <= i < |vs| ==> vs[i] == Visit(violin, phase, files[i])
  {
    seq(|files|, i requires 0 <= i < |files| => Visit(violin, phase, files[i]))
  }

  /** The takes of one violin over the given phases, phase after phase. */
  function PhaseVisits(dirs: Directories, excerpt: string, violin: string, phases: seq<int>): seq<Visit>
  {
    if |phases| == 0 then []
    else
      var phase := phases[|phases| - 1];
      PhaseVisits(dirs, excerpt, violin, phases[..|phases| - 1]) + FileVisits(violin, phase, Listing(dirs, phase, violin, excerpt))
  }

  /** The takes of the given violins, violin after violin. */
  function ViolinVisits(dirs: Directories, excerpt: string, violins: seq<string>): seq<Visit>
  {
    if |violins| == 0 then []
    else ViolinVisits(dirs, excerpt, violins[..|violins| - 1]) + PhaseVisits(dirs, excerpt, violins[|violins| - 1], Phases)
  }

  /** Every take of one excerpt, in the order the loops reach them. */
  function ExcerptVisits(dirs: Directories, excerpt: string): seq<Visit>
  {
    ViolinVisits(dirs, excerpt, Violins)
  }

  /** The loop state: `first_take` and `data_frames`. */
  datatype State = State(reference: Option<TakeFile>, frames: seq<seq<Row>>)

  /** The IndexError of a mask that does not fit the series, and the ValueError of an empty concat. */
  datatype BuildError = MaskMismatch(file: string) | NothingToConcatenate

  /** Lines 61-92 for one take. */
  function Step(excerpt: string, desc: Descriptor, s: State, v: Visit): Result<State, BuildError>
    requires excerpt in Validity
  {
    if v.file.name in Bad then Ok(s)
    else
      var reference := if s.reference.None? then v.file else s.reference.value;
      var warped := desc(v.file, s.reference);
      if |warped| != |reference.frames| then Err(MaskMismatch(v.file.name))
      else Ok(State(Some(reference), s.frames + [TakeRows(excerpt, v.violin, v.phase, reference, warped)]))
  }

  /** One excerpt's takes processed in order from `data_frames` = `start` and no reference. */
  function Scan(excerpt: string, desc: Descriptor, start: seq<seq<Row>>, vs: seq<Visit>): Result<State, BuildError>
    requires excerpt in Validity
  {
    if |vs| == 0 then Ok(State(None, start))
    else
      match Scan(excerpt, desc, start, vs[..|vs| - 1])
      case Err(e) => Err(e)
      case Ok(s) => Step(excerpt, desc, s, vs[|vs| - 1])
  }

  /** The first n excerpts processed in order; the reference is reset for each. */
  function Run(dirs: Directories, desc: Descriptor, n: nat): Result<seq<seq<Row>>, BuildError>
    requires n <= |Excerpts|
  {
    if n == 0 then Ok([])
    else
      var excerpt := Excerpts[n - 1];
      ExcerptWindows(n - 1);
      match Run(dirs, desc, n - 1)
      case Err(e) => Err(e)
      case Ok(frames) =>
        match Scan(excerpt, desc, frames, ExcerptVisits(dirs, excerpt))
        case Err(e) => Err(e)
        case Ok(s) => Ok(s.frames)
  }

  /** `pd.concat(data_frames, ignore_index=True)` on a non-empty list. */
  function Concat(frames: seq<seq<Row>>): seq<Row>
  {
    if |frames| == 0 then [] else Concat(frames[..|frames| - 1]) + frames[|frames| - 1]
  }

  /** The table `build_dataset` writes, or the exception it raises. */
  function Build(dirs: Directories, desc: Descriptor): Result<seq<Row>, BuildError>
  {
    match Run(dirs, desc, |Excerpts|)
    case Err(e) => Err(e)
    case Ok(frames) => if |frames| == 0 then Err(NothingToConcatenate) else Ok(Concat(frames))
  }

  // Proof helpers for the loops

  lemma ScanNext(excerpt: string, desc: Descriptor, start: seq<seq<Row>>, vs: seq<Visit>, v: Visit)
    requires excerpt in Validity && Scan(excerpt, desc, start, vs).Ok?
    ensures Scan(excerpt, desc, start, vs + [v]) == Step(excerpt, desc, Scan(excerpt, desc, start, vs).value, v)
  {
    assert (vs + [v])[..|vs|] == vs;
  }

  /** Once an exception is raised, later takes change nothing. */
  lemma {:induction false} ScanStops(excerpt: string, desc: Descriptor, start: seq<seq<Row>>, a: seq<Visit>, b: seq<Visit>)
    requires excerpt in Validity && a <= b && Scan(excerpt, desc, start, a).Err?
    ensures Scan(excerpt, desc, start, b) == Scan(excerpt, desc, start, a)
  {
    if |b| > |a| {
      var front := b[..|b| - 1];
      assert a <= front;
      ScanStops(excerpt, desc, start, a, front);
    } else {
      assert a == b;
    }
  }

  /** Once an excerpt raises, later excerpts change nothing. */
  lemma {:induction false} RunStops(dirs: Directories, desc: Descriptor, m: nat, n: nat)
    requires m <= n <= |Excerpts| && Run(dirs, desc, m).Err?
    ensures Run(dirs, desc, n) == Run(dirs, desc, m)
  {
    if n > m {
      RunStops(dirs, desc, m, n - 1);
    }
  }

  lemma {:induction false} PhaseVisitsGrow(dirs: Directories, excerpt: string, violin: string, phases: seq<int>, k: nat)
    requires k <= |phases|
    ensures PhaseVisits(dirs, excerpt, violin, phases[..k]) <= PhaseVisits(dirs, excerpt, violin, phases)
  {
    if k < |phases| {
      var front := phases[..|phases| - 1];
      PhaseVisitsGrow(dirs, excerpt, violin, front, k);
      assert front[..k] == phases[..k];
      PrefixTransitive(PhaseVisits(dirs, excerpt, violin, phases[..k]), PhaseVisits(dirs, excerpt, violin, front),
                       PhaseVisits(dirs, excerpt, violin, phases));
    } else {
      assert phases[..k] == phases;
    }
  }

  lemma {:induction false} ViolinVisitsGrow(dirs: Directories, excerpt: string, violins: seq<string>, k: nat)
    requires k <= |violins|
    ensures ViolinVisits(dirs, excerpt, violins[..k]) <= ViolinVisits(dirs, excerpt, violins)
  {
    if k < |violins| {
      var front := violins[..|violins| - 1];
      ViolinVisitsGrow(dirs, excerpt, front, k);
      assert front[..k] == violins[..k];
      PrefixTransitive(ViolinVisits(dirs, excerpt, violins[..k]), ViolinVisits(dirs, excerpt, front),
                       ViolinVisits(dirs, excerpt, violins));
    } else {
      assert violins[..k] == violins;
    }
  }

  lemma NextPhase(dirs: Directories, excerpt: string, violin: string, phases: seq<int>, p: nat)
    requires p < |phases|
    ensures PhaseVisits(dirs, excerpt, violin, phases[..p + 1])
            == PhaseVisits(dirs, excerpt, violin, phases[..p]) + FileVisits(violin, phases[p], Listing(dirs, phases[p], violin, excerpt))
  {
    assert phases[..p + 1][..p] == phases[..p];
  }

  lemma NextViolin(dirs: Directories, excerpt: string, violins: seq<string>, v: nat)
    requires v < |violins|
    ensures ViolinVisits(dirs, excerpt, violins[..v + 1])
            == ViolinVisits(dirs, excerpt, violins[..v]) + PhaseVisits(dirs, excerpt, violins[v], Phases[..|Phases|])
  {
    assert violins[..v + 1][..v] == violins[..v];
    assert Phases[..|Phases|] == Phases;
  }

  /** Every directory finished so far lies at the front of the excerpt's takes. */
  lemma VisitedPrefix(dirs: Directories, excerpt: string, v: nat, p: nat)
    requires v < |Violins| && p <= |Phases|
    ensures ViolinVisits(dirs, excerpt, Violins[..v]) + PhaseVisits(dirs, excerpt, Violins[v], Phases[..p]) <= ExcerptVisits(dirs, excerpt)
  {
    var done := ViolinVisits(dirs, excerpt, Violins[..v]);
    var upTo := PhaseVisits(dirs, excerpt, Violins[v], Phases[..p]);
    var whole := PhaseVisits(dirs, excerpt, Violins[v], Phases);
    PhaseVisitsGrow(dirs, excerpt, Violins[v], Phases, p);
    PrefixExtend(done, upTo, whole);
    NextViolin(dirs, excerpt, Violins, v);
    assert Phases[..|Phases|] == Phases;
    ViolinVisitsGrow(dirs, excerpt, Violins, v + 1);
    PrefixTransitive(done + upTo, ViolinVisits(dirs, excerpt, Violins[..v + 1]), ExcerptVisits(dirs, excerpt));
  }

  // ---------------------------------------------------------------------
  // The loops

  /** Lines 59-92 for the takes of one directory. */
  method CollectTakes(excerpt: string, violin: string, phase: int, files: seq<TakeFile>, desc: Descriptor,
                      ghost start: seq<seq<Row>>, ghost before: seq<Visit>, firstTake: Option<TakeFile>, dataFrames: seq<seq<Row>>)
    returns (r: Result<State, BuildError>)
    requires excerpt in Validity
    requires Scan(excerpt, desc, start, before) == Ok(State(firstTake, dataFrames))
    ensures r == Scan(excerpt, desc, start, before + FileVisits(violin, phase, files))
  {
    ghost var part := FileVisits(violin, phase, files);
    var reference := firstTake;
    var frames := dataFrames;
    assert before + part[..0] == before;
    for i := 0 to |files|
      invariant Scan(excerpt, desc, start, before + part[..i]) == Ok(State(reference, frames))
    {
      AppendSlice(before, part, i);
      ScanNext(excerpt, desc, start, before + part[..i], part[i]);
      var file := files[i];
      if file.name in Bad {
        continue;
      }
      var alignedTo := reference;
      if reference.None? {
        reference := Some(file);
      }
      var time := reference.value.frames;
      var valid := Mask(excerpt, time);
      var warped := desc(file, alignedTo);
      if |warped| != |valid| {
        ScanStops(excerpt, desc, start, before + part[..i + 1], before + part);
        assert part[..|files|] == part;
        return Err(MaskMismatch(file.name));
      }
      var fVals := Select(warped, valid);
      var dfTmp := seq(|fVals|, k requires 0 <= k < |fVals| => Row(k as real / FrameRate, fVals[k], violin, excerpt, phase));
      frames := frames + [dfTmp];
    }
    assert part[..|files|] == part;
    return Ok(State(reference, frames));
  }

  /** The takes of the violins before `v` and of violin `v` up to phase `p`. */
  function Visited(dirs: Directories, excerpt: string, v: nat, p: nat): seq<Visit>
    requires v < |Violins| && p <= |Phases|
  {
    ViolinVisits(dirs, excerpt, Violins[..v]) + PhaseVisits(dirs, excerpt, Violins[v], Phases[..p])
  }

  lemma VisitedStart(dirs: Directories, excerpt: string, v: nat)
    requires v < |Violins|
    ensures Visited(dirs, excerpt, v, 0) == ViolinVisits(dirs, excerpt, Violins[..v])
  {
    assert ViolinVisits(dirs, excerpt, Violins[..v]) + [] == ViolinVisits(dirs, excerpt, Violins[..v]);
  }

  lemma VisitedNext(dirs: Directories, excerpt: string, v: nat, p: nat)
    requires v < |Violins| && p < |Phases|
    ensures Visited(dirs, excerpt, v, p + 1)
            == Visited(dirs, excerpt, v, p) + FileVisits(Violins[v], Phases[p], Listing(dirs, Phases[p], Violins[v], excerpt))
  {
    NextPhase(dirs, excerpt, Violins[v], Phases, p);
  }

  lemma VisitedEnd(dirs: Directories, excerpt: string, v: nat)
    requires v < |Violins|
    ensures Visited(dirs, excerpt, v, |Phases|) == ViolinVisits(dirs, excerpt, Violins[..v + 1])
  {
    NextViolin(dirs, excerpt, Violins, v);
  }

  /** An exception inside an excerpt is the exception of the whole excerpt. */
  lemma ExcerptStops(dirs: Directories, excerpt: string, desc: Descriptor, start: seq<seq<Row>>, v: nat, p: nat)
    requires excerpt in Validity && v < |Violins| && p <= |Phases|
    requires Scan(excerpt, desc, start, Visited(dirs, excerpt, v, p)).Err?
    ensures Scan(excerpt, desc, start, ExcerptVisits(dirs, excerpt)) == Scan(excerpt, desc, start, Visited(dirs, excerpt, v, p))
  {
    VisitedPrefix(dirs, excerpt, v, p);
    ScanStops(excerpt, desc, start, Visited(dirs, excerpt, v, p), ExcerptVisits(dirs, excerpt));
  }

  /** Lines 53-92 for one excerpt: a fresh reference, then its violins and phases. */
  method CollectExcerpt(dirs: Directories, excerpt: string, desc: Descriptor, dataFrames: seq<seq<Row>>)
    returns (r: Result<State, BuildError>)
    requires excerpt in Validity
    ensures r == Scan(excerpt, desc, dataFrames, ExcerptVisits(dirs, excerpt))
  {
    var firstTake: Option<TakeFile> := None;
    var frames := dataFrames;
    for v := 0 to |Violins|
      invariant Scan(excerpt, desc, dataFrames, ViolinVisits(dirs, excerpt, Violins[..v])) == Ok(State(firstTake, frames))
    {
      var violin := Violins[v];
      VisitedStart(dirs, excerpt, v);
      for p := 0 to |Phases|
        invariant Scan(excerpt, desc, dataFrames, Visited(dirs, excerpt, v, p)) == Ok(State(firstTake, frames))
      {
        var phase := Phases[p];
        var files := Listing(dirs, phase, violin, excerpt);
        VisitedNext(dirs, excerpt, v, p);
        var result := CollectTakes(excerpt, violin, phase, files, desc, dataFrames, Visited(dirs, excerpt, v, p), firstTake, frames);
        if result.Err? {
          ExcerptStops(dirs, excerpt, desc, dataFrames, v, p + 1);
          return result;
        }
        firstTake, frames := result.value.reference, result.value.frames;
      }
      VisitedEnd(dirs, excerpt, v);
    }
    assert Violins[..|Violins|] == Violins;
    return Ok(State(firstTake, frames));
  }

  /** Lines 50-94: `build_dataset` up to the concatenated table. */
  method BuildDataset(dirs: Directories, desc: Descriptor) returns (r: Result<seq<Row>, BuildError>)
    ensures r == Build(dirs, desc)
  {
    var dataFrames: seq<seq<Row>> := [];
    for i := 0 to |Excerpts|
      invariant Run(dirs, desc, i) == Ok(dataFrames)
    {
      ExcerptWindows(i);
      var result := CollectExcerpt(dirs, Excerpts[i], desc, dataFrames);
      if result.Err? {
        RunStops(dirs, desc, i + 1, |Excerpts|);
        return Err(result.error);
      }
      dataFrames := result.value.frames;
    }
    if |dataFrames| == 0 {
      return Err(NothingToConcatenate);
    }
    return Ok(Concat(dataFrames));
  }

  // ---------------------------------------------------------------------
  // What the loops promise, stated without the loop state

  /** The takes of a run that are not on the bad list, in order. */
  function Good(vs: seq<Visit>): (g: seq<Visit>)
    ensures |g| <= |vs|
    ensures forall v :: v in g ==> v in vs && v.file.name !in Bad
    ensures (forall i :: 0 <= i < |vs| ==> vs[i].file.name !in Bad) ==> g == vs
  {
    if |vs| == 0 then []
    else
      var front := vs[..|vs| - 1];
      var last := vs[|vs| - 1];
      assert vs == front + [last];
      Good(front) + (if last.file.name in Bad then [] else [last])
  }

  /** The reference the k-th good take is aligned to: none for the first, the first otherwise. */
  function AlignedTo(g: seq<Visit>, k: nat): Option<TakeFile>
    requires k < |g|
  {
    if k == 0 then None else Some(g[0].file)
  }

  /** The k-th good take's series has one value per frame of the reference. */
  predicate FitsAt(desc: Descriptor, g: seq<Visit>, k: nat)
    requires k < |g|
  {
    |desc(g[k].file, AlignedTo(g, k))| == |g[0].file.frames|
  }

  predicate Fits(desc: Descriptor, g: seq<Visit>)
  {
    forall k :: 0 <= k < |g| ==> FitsAt(desc, g, k)
  }

  /** The frames the good takes of one excerpt contribute, all against the first good take. */
  function Expected(excerpt: string, desc: Descriptor, g: seq<Visit>): (e: seq<seq<Row>>)
    requires excerpt in Validity && Fits(desc, g)
    ensures |e| == |g|
  {
    seq(|g|, k requires 0 <= k < |g| =>
      assert FitsAt(desc, g, k);
      TakeRows(excerpt, g[k].violin, g[k].phase, g[0].file, desc(g[k].file, AlignedTo(g, k))))
  }

  /** One more good take adds its own frame and leaves the earlier ones as they were. */
  lemma ExpectedAppend(excerpt: string, desc: Descriptor, g: seq<Visit>, v: Visit)
    requires excerpt in Validity && Fits(desc, g) && Fits(desc, g + [v]) && FitsAt(desc, g + [v], |g|)
    ensures Expected(excerpt, desc, g + [v])
            == Expected(excerpt, desc, g)
               + [TakeRows(excerpt, v.violin, v.phase, (g + [v])[0].file, desc(v.file, AlignedTo(g + [v], |g|)))]
  {
    var h := g + [v];
    assert FitsAt(desc, h, |g|);
    forall k | 0 <= k < |g|
      ensures Expected(excerpt, desc, h)[k] == Expected(excerpt, desc, g)[k]
    {
      assert h[k] == g[k] && h[0] == g[0];
      assert AlignedTo(h, k) == AlignedTo(g, k);
      assert FitsAt(desc, h, k) && FitsAt(desc, g, k);
    }
  }

  lemma GoodPrefix(vs: seq<Visit>, v: Visit)
    ensures Good(vs + [v]) == Good(vs) + (if v.file.name in Bad then [] else [v])
  {
    assert (vs + [v])[..|vs|] == vs;
  }

  /** Take k is the first good take whose series does not fit. */
  predicate FirstMisfit(desc: Descriptor, g: seq<Visit>, k: nat)
  {
    k < |g| && !FitsAt(desc, g, k) && forall j :: 0 <= j < k ==> FitsAt(desc, g, j)
  }

  /**
   * An excerpt's outcome `s` as its good takes `g` determine it: the
   * reference is the first of them; each of them, and no other take, adds
   * one frame computed against that reference; it raises iff one of them
   * does not fit the reference's mask, naming the first that does not.
   */
  ghost predicate Describes(excerpt: string, desc: Descriptor, start: seq<seq<Row>>, s: Result<State, BuildError>, g: seq<Visit>)
    requires excerpt in Validity
  {
    && (s.Ok? <==> Fits(desc, g))
    && (s.Ok? ==> Fits(desc, g) && s.value == State(if |g| == 0 then None else Some(g[0].file), start + Expected(excerpt, desc, g)))
    && (s.Err? ==> exists k: nat :: FirstMisfit(desc, g, k) && s.error == MaskMismatch(g[k].file.name))
  }

  /** A raised exception stays raised after one more good take. */
  lemma DescribesAfterError(excerpt: string, desc: Descriptor, start: seq<seq<Row>>, s: Result<State, BuildError>, g: seq<Visit>, v: Visit)
    requires excerpt in Validity && s.Err? && Describes(excerpt, desc, start, s, g)
    ensures Describes(excerpt, desc, start, s, g + [v])
  {
    var h := g + [v];
    var k: nat :| FirstMisfit(desc, g, k) && s.error == MaskMismatch(g[k].file.name);
    assert h[k] == g[k] && h[0] == g[0];
    assert AlignedTo(h, k) == AlignedTo(g, k);
    forall j | 0 <= j < k
      ensures FitsAt(desc, h, j)
    {
      assert h[j] == g[j] && AlignedTo(h, j) == AlignedTo(g, j) && FitsAt(desc, g, j);
    }
    assert FirstMisfit(desc, h, k);
  }

  /** One more good take after a run that has not raised. */
  lemma DescribesGoodStep(excerpt: string, desc: Descriptor, start: seq<seq<Row>>, s: State, g: seq<Visit>, v: Visit)
    requires excerpt in Validity && v.file.name !in Bad && Describes(excerpt, desc, start, Ok(s), g)
    ensures Describes(excerpt, desc, start, Step(excerpt, desc, s, v), g + [v])
  {
    var h := g + [v];
    var n := |g|;
    assert h[n] == v && h[0] == (if n == 0 then v else g[0]);
    assert s.reference == AlignedTo(h, n);
    forall j | 0 <= j < n
      ensures FitsAt(desc, h, j) <==> FitsAt(desc, g, j)
    {
      assert h[j] == g[j] && AlignedTo(h, j) == AlignedTo(g, j);
    }
    if !FitsAt(desc, h, n) {
      assert FirstMisfit(desc, h, n);
    } else {
      assert Fits(desc, h);
      ExpectedAppend(excerpt, desc, g, v);
      var rows := TakeRows(excerpt, v.violin, v.phase, h[0].file, desc(v.file, AlignedTo(h, n)));
      AppendAssociative(start, Expected(excerpt, desc, g), [rows]);
    }
  }

  /** One excerpt in closed form: its outcome is described by its good takes. */
  lemma {:induction false} ScanMeaning(excerpt: string, desc: Descriptor, start: seq<seq<Row>>, vs: seq<Visit>)
    requires excerpt in Validity
    ensures Describes(excerpt, desc, start, Scan(excerpt, desc, start, vs), Good(vs))
  {
    if |vs| == 0 {
      assert start + [] == start;
      return;
    }
    var front := vs[..|vs| - 1];
    var v := vs[|vs| - 1];
    assert vs == front + [v];
    ScanMeaning(excerpt, desc, start, front);
    GoodPrefix(front, v);
    var prev := Scan(excerpt, desc, start, front);
    var g0 := Good(front);
    if prev.Err? {
      assert Scan(excerpt, desc, start, vs) == prev;
      if v.file.name in Bad {
        assert Good(vs) == g0 + [] == g0;
      } else {
        DescribesAfterError(excerpt, desc, start, prev, g0, v);
      }
    } else if v.file.name in Bad {
      assert Scan(excerpt, desc, start, vs) == prev;
      assert Good(vs) == g0 + [] == g0;
    } else {
      assert Scan(excerpt, desc, start, vs) == Step(excerpt, desc, prev.value, v);
      DescribesGoodStep(excerpt, desc, start, prev.value, g0, v);
    }
  }

  /** The good takes determine the outcome. */
  lemma DescribesUnique(excerpt: string, desc: Descriptor, start: seq<seq<Row>>, s1: Result<State, BuildError>, s2: Result<State, BuildError>, g: seq<Visit>)
    requires excerpt in Validity
    requires Describes(excerpt, desc, start, s1, g) && Describes(excerpt, desc, start, s2, g)
    ensures s1 == s2
  {
    if s1.Err? {
      var k1: nat :| FirstMisfit(desc, g, k1) && s1.error == MaskMismatch(g[k1].file.name);
      var k2: nat :| FirstMisfit(desc, g, k2) && s2.error == MaskMismatch(g[k2].file.name);
      if k1 != k2 {
        assert false;
      }
    }
  }

  lemma GoodIdempotent(vs: seq<Visit>)
    ensures Good(Good(vs)) == Good(vs)
  {
    var g := Good(vs);
    assert forall i :: 0 <= i < |g| ==> g[i] in g;
  }

  /** Takes on the bad list can be dropped beforehand: an excerpt's outcome is that of its other takes. */
  lemma ScanIgnoresBad(excerpt: string, desc: Descriptor, start: seq<seq<Row>>, vs: seq<Visit>)
    requires excerpt in Validity
    ensures Scan(excerpt, desc, start, vs) == Scan(excerpt, desc, start, Good(vs))
  {
    var g := Good(vs);
    ScanMeaning(excerpt, desc, start, vs);
    ScanMeaning(excerpt, desc, start, g);
    GoodIdempotent(vs);
    DescribesUnique(excerpt, desc, start, Scan(excerpt, desc, start, vs), Scan(excerpt, desc, start, g), g);
  }

  /** The good takes of the i-th excerpt. */
  function GoodTakes(dirs: Directories, i: nat): seq<Visit>
    requires i < |Excerpts|
  {
    Good(ExcerptVisits(dirs, Excerpts[i]))
  }

  /** Every good take of the first n excerpts fits its reference. */
  predicate AllFit(dirs: Directories, desc: Descriptor, n: nat)
    requires n <= |Excerpts|
  {
    forall i :: 0 <= i < n ==> Fits(desc, GoodTakes(dirs, i))
  }

  /** The frames of the first n excerpts, excerpt after excerpt. */
  function Expectation(dirs: Directories, desc: Descriptor, n: nat): seq<seq<Row>>
    requires n <= |Excerpts| && AllFit(dirs, desc, n)
  {
    if n == 0 then []
    else
      ExcerptWindows(n - 1);
      assert Fits(desc, GoodTakes(dirs, n - 1));
      Expectation(dirs, desc, n - 1) + Expected(Excerpts[n - 1], desc, GoodTakes(dirs, n - 1))
  }

  /** The excerpts in closed form: they raise iff some good take does not fit, and only with a mask error. */
  lemma {:induction false} RunMeaning(dirs: Directories, desc: Descriptor, n: nat)
    requires n <= |Excerpts|
    ensures Run(dirs, desc, n).Ok? <==> AllFit(dirs, desc, n)
    ensures Run(dirs, desc, n).Ok? ==> Run(dirs, desc, n).value == Expectation(dirs, desc, n)
    ensures Run(dirs, desc, n).Err? ==> Run(dirs, desc, n).error.MaskMismatch?
  {
    if n > 0 {
      RunMeaning(dirs, desc, n - 1);
      ExcerptWindows(n - 1);
      AllFitSplit(dirs, desc, n);
      var excerpt := Excerpts[n - 1];
      var prev := Run(dirs, desc, n - 1);
      if prev.Ok? {
        var vs := ExcerptVisits(dirs, excerpt);
        var s := Scan(excerpt, desc, prev.value, vs);
        assert Run(dirs, desc, n) == if s.Err? then Err(s.error) else Ok(s.value.frames);
        ScanMeaning(excerpt, desc, prev.value, vs);
      } else {
        assert Run(dirs, desc, n) == prev;
      }
    }
  }

  /** The first n excerpts fit iff the first n - 1 do and the last one does. */
  lemma AllFitSplit(dirs: Directories, desc: Descriptor, n: nat)
    requires 0 < n <= |Excerpts|
    ensures AllFit(dirs, desc, n) <==> AllFit(dirs, desc, n - 1) && Fits(desc, GoodTakes(dirs, n - 1))
  {
  }

  lemma ExpectationGrows(dirs: Directories, desc: Descriptor, n: nat)
    requires 0 < n <= |Excerpts| && AllFit(dirs, desc, n)
    ensures AllFit(dirs, desc, n - 1)
    ensures |Expectation(dirs, desc, n)| == |Expectation(dirs, desc, n - 1)| + |GoodTakes(dirs, n - 1)|
  {
    ExcerptWindows(n - 1);
  }

  lemma {:induction false} ExpectationEmpty(dirs: Directories, desc: Descriptor, n: nat)
    requires n <= |Excerpts| && AllFit(dirs, desc, n)
    ensures |Expectation(dirs, desc, n)| == 0 <==> forall i :: 0 <= i < n ==> |GoodTakes(dirs, i)| == 0
  {
    if n > 0 {
      ExpectationGrows(dirs, desc, n);
      ExpectationEmpty(dirs, desc, n - 1);
      NoTakesSplit(dirs, n);
    }
  }

  /** No good take among the first n excerpts iff none among the first n - 1 and none in the last. */
  lemma NoTakesSplit(dirs: Directories, n: nat)
    requires 0 < n <= |Excerpts|
    ensures (forall i :: 0 <= i < n ==> |GoodTakes(dirs, i)| == 0)
            <==> (forall i :: 0 <= i < n - 1 ==> |GoodTakes(dirs, i)| == 0) && |GoodTakes(dirs, n - 1)| == 0
  {
  }

  /**
   * `build_dataset` in closed form: the ValueError of an empty concat iff
   * no excerpt has a take off the bad list; the IndexError iff some such
   * take does not fit its reference's mask; otherwise the frames of every
   * excerpt, in order.
   */
  lemma BuildOutcome(dirs: Directories, desc: Descriptor)
    ensures Build(dirs, desc) == Err(NothingToConcatenate) <==> forall i :: 0 <= i < |Excerpts| ==> |GoodTakes(dirs, i)| == 0
    ensures Build(dirs, desc).Err? && Build(dirs, desc).error.MaskMismatch? <==> !AllFit(dirs, desc, |Excerpts|)
    ensures Build(dirs, desc).Ok? ==> Build(dirs, desc).value == Concat(Expectation(dirs, desc, |Excerpts|))
  {
    RunMeaning(dirs, desc, |Excerpts|);
    if forall i :: 0 <= i < |Excerpts| ==> |GoodTakes(dirs, i)| == 0 {
      assert AllFit(dirs, desc, |Excerpts|);
    }
    if AllFit(dirs, desc, |Excerpts|) {
      ExpectationEmpty(dirs, desc, |Excerpts|);
    }
  }

  // ---------------------------------------------------------------------
  // The phase difference (lines 101-108)

  /** The merge key `["violin", "excerpt", "time"]`. */
  datatype Key = Key(violin: string, excerpt: string, time: real)

  function KeyOf(r: Row): Key
  {
    Key(r.violin, r.excerpt, r.time)
  }

  /** A row of `df_diff`: the key, each side's feature and phase (suffixes _p2 and _p1), and the difference. */
  datatype Paired = Paired(violin: string, excerpt: string, time: real,
                           featureP2: real, phaseP2: int, featureP1: real, phaseP1: int, difference: real)

  function PairKey(m: Paired): Key
  {
    Key(m.violin, m.excerpt, m.time)
  }

  /** `df[df["phase"] == phase]`. */
  function PhaseRows(df: seq<Row>, phase: int): (r: seq<Row>)
    ensures |r| <= |df|
  {
    if |df| == 0 then []
    else PhaseRows(df[..|df| - 1], phase) + (if df[|df| - 1].phase == phase then [df[|df| - 1]] else [])
  }

  /** The filtered table holds exactly the rows of the phase. */
  lemma {:induction false} PhaseRowsMembers(df: seq<Row>, phase: int)
    ensures forall x :: x in PhaseRows(df, phase) <==> x in df && x.phase == phase
  {
    if |df| > 0 {
      var front := df[..|df| - 1];
      var last := df[|df| - 1];
      PhaseRowsMembers(front, phase);
      assert df == front + [last];
      assert PhaseRows(df, phase) == PhaseRows(front, phase) + (if last.phase == phase then [last] else []);
    }
  }

  /** A single row is kept iff it has the phase. */
  lemma PhaseRowsSingle(x: Row, phase: int)
    ensures PhaseRows([x], phase) == if x.phase == phase then [x] else []
  {
    assert [x][..0] == [];
  }

  /** Filtering is done row by row: the rows of the phase stay in order, each once. */
  lemma {:induction false} PhaseRowsAppend(a: seq<Row>, b: seq<Row>, phase: int)
    ensures PhaseRows(a + b, phase) == PhaseRows(a, phase) + PhaseRows(b, phase)
  {
    if |b| == 0 {
      assert a + b == a;
    } else {
      var w := a + b;
      var front := b[..|b| - 1];
      var last := b[|b| - 1];
      var tail := if last.phase == phase then [last] else [];
      PhaseRowsAppend(a, front, phase);
      assert PhaseRows(w, phase) == PhaseRows(a, phase) + PhaseRows(b, phase) by {
        assert w[..|w| - 1] == a + front && w[|w| - 1] == last;
        assert PhaseRows(w, phase) == PhaseRows(a + front, phase) + tail;
        assert PhaseRows(b, phase) == PhaseRows(front, phase) + tail;
      }
    }
  }

  /** A left row joined with a right row, with line 108's difference. */
  function Pair(l: Row, r: Row): Paired
  {
    Paired(l.violin, l.excerpt, l.time, l.feature, l.phase, r.feature, r.phase, l.feature - r.feature)
  }

  /** One left row joined with every right row of its key, in right order. */
  function Matches(l: Row, right: seq<Row>): (ms: seq<Paired>)
    ensures forall m :: m in ms <==> exists r :: r in right && KeyOf(r) == KeyOf(l) && m == Pair(l, r)
  {
    if |right| == 0 then []
    else
      var front := right[..|right| - 1];
      var last := right[|right| - 1];
      assert right == front + [last];
      Matches(l, front) + (if KeyOf(last) == KeyOf(l) then [Pair(l, last)] else [])
  }

  /** `pd.merge(left, right, on=[...])` with the default inner join: left-row major. */
  function InnerMerge(left: seq<Row>, right: seq<Row>): (ms: seq<Paired>)
    ensures forall m :: m in ms <==> exists l, r :: l in left && r in right && KeyOf(l) == KeyOf(r) && m == Pair(l, r)
  {
    if |left| == 0 then []
    else
      var front := left[..|left| - 1];
      var last := left[|left| - 1];
      assert left == front + [last];
      InnerMerge(front, right) + Matches(last, right)
  }

  /** Lines 102-108: phase-2 rows on the left, phase-1 rows on the right. */
  function PhaseDifference(df: seq<Row>): seq<Paired>
  {
    InnerMerge(PhaseRows(df, 2), PhaseRows(df, 1))
  }

  /** Rows of a given key. */
  function CountKey(rows: seq<Row>, key: Key): nat
  {
    if |rows| == 0 then 0
    else CountKey(rows[..|rows| - 1], key) + (if KeyOf(rows[|rows| - 1]) == key then 1 else 0)
  }

  /** Rows of a given key and phase in the table. */
  function Occurrences(df: seq<Row>, key: Key, phase: int): nat
  {
    if |df| == 0 then 0
    else
      var last := df[|df| - 1];
      Occurrences(df[..|df| - 1], key, phase) + (if KeyOf(last) == key && last.phase == phase then 1 else 0)
  }

  /** The filtered table holds every row of the key and phase, once each. */
  lemma {:induction false} PhaseRowsCount(df: seq<Row>, key: Key, phase: int)
    ensures CountKey(PhaseRows(df, phase), key) == Occurrences(df, key, phase)
  {
    if |df| > 0 {
      var front := df[..|df| - 1];
      var last := df[|df| - 1];
      PhaseRowsCount(front, key, phase);
      var p := PhaseRows(df, phase);
      if last.phase == phase {
        assert p == PhaseRows(front, phase) + [last];
        assert p[..|p| - 1] == PhaseRows(front, phase);
        assert p[|p| - 1] == last;
      } else {
        assert p == PhaseRows(front, phase) + [];
        assert p == PhaseRows(front, phase);
      }
    }
  }

  /** Merged rows of a given key. */
  function CountPairs(ms: seq<Paired>, key: Key): nat
  {
    if |ms| == 0 then 0
    else CountPairs(ms[..|ms| - 1], key) + (if PairKey(ms[|ms| - 1]) == key then 1 else 0)
  }

  lemma {:induction false} CountPairsAppend(a: seq<Paired>, b: seq<Paired>, key: Key)
    ensures CountPairs(a + b, key) == CountPairs(a, key) + CountPairs(b, key)
  {
    if |b| == 0 {
      assert a + b == a;
    } else {
      var front := b[..|b| - 1];
      CountPairsAppend(a, front, key);
      assert (a + b)[..|a + b| - 1] == a + front;
    }
  }

  lemma {:induction false} MatchesCount(l: Row, right: seq<Row>, key: Key)
    ensures CountPairs(Matches(l, right), key) == if KeyOf(l) == key then CountKey(right, key) else 0
  {
    if |right| > 0 {
      var front := right[..|right| - 1];
      var last := right[|right| - 1];
      MatchesCount(l, front, key);
      CountPairsAppend(Matches(l, front), if KeyOf(last) == KeyOf(l) then [Pair(l, last)] else [], key);
      assert PairKey(Pair(l, last)) == KeyOf(l);
      assert CountPairs([Pair(l, last)], key) == if KeyOf(l) == key then 1 else 0 by {
        assert [Pair(l, last)][..0] == [];
      }
    }
  }

  lemma MultiplyZero(a: nat, b: nat)
    ensures a == 0 || b == 0 ==> a * b == 0
  {
  }

  lemma MultiplySucc(a: nat, b: nat)
    ensures (a + 1) * b == a * b + b
  {
  }

  /** A key with a rows on the left and b rows on the right yields a * b merged rows. */
  lemma {:induction false} MergeCount(left: seq<Row>, right: seq<Row>, key: Key)
    ensures CountPairs(InnerMerge(left, right), key) == CountKey(left, key) * CountKey(right, key)
  {
    if |left| > 0 {
      var front := left[..|left| - 1];
      var last := left[|left| - 1];
      MergeCount(front, right, key);
      CountPairsAppend(InnerMerge(front, right), Matches(last, right), key);
      MatchesCount(last, right, key);
      if KeyOf(last) == key {
        MultiplySucc(CountKey(front, key), CountKey(right, key));
      }
    }
  }

  /**
   * Each (violin, excerpt, time) yields one difference row per pair of a
   * phase-2 and a phase-1 row of that key; a key seen in one phase only
   * yields none.
   */
  lemma PhaseDifferenceCount(df: seq<Row>, key: Key)
    ensures CountPairs(PhaseDifference(df), key) == Occurrences(df, key, 2) * Occurrences(df, key, 1)
    ensures Occurrences(df, key, 2) == 0 || Occurrences(df, key, 1) == 0 ==> CountPairs(PhaseDifference(df), key) == 0
  {
    var a := Occurrences(df, key, 2);
    var b := Occurrences(df, key, 1);
    MergeCount(PhaseRows(df, 2), PhaseRows(df, 1), key);
    PhaseRowsCount(df, key, 2);
    PhaseRowsCount(df, key, 1);
    MultiplyZero(a, b);
  }

  /**
   * The difference rows are exactly the pairs of a phase-2 and a phase-1
   * row with the same key, each carrying feature_p2 - feature_p1.
   */
  lemma PhaseDifferenceRows(df: seq<Row>, m: Paired)
    ensures m in PhaseDifference(df) <==>
      exists l, r :: l in df && r in df && l.phase == 2 && r.phase == 1 && KeyOf(l) == KeyOf(r) && m == Pair(l, r)
    ensures m in PhaseDifference(df) ==>
      m.phaseP2 == 2 && m.phaseP1 == 1 && m.difference == m.featureP2 - m.featureP1
  {
    PhaseRowsMembers(df, 2);
    PhaseRowsMembers(df, 1);
  }

}
