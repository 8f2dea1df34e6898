# playing-in: a verified model of the analysis core

The playing-in experiment measures three violins before and after a playing-in
period. It records bridge admittances, recorded scales, perceptual ratings,
listening-test scores and motion-capture bowing descriptors. The scripts of the
repository turn each of these into a dataset, then into "after minus before"
differences. Plotting takes up most of the scripts; this project models the logic
underneath it, in Dafny, and proves what that logic promises.

| file | module | models |
|---|---|---|
| `frame.dfy` | `Frame` | NaN as `Option<real>`, sums and means, NaN-propagating subtraction, `abs`, `min`/`max`, `numpy.linspace`, a two-column `melt` |
| `pivot.dfy` | `Pivot` | `pivot_table(aggfunc="mean")` followed by `pivoted[hi] - pivoted[lo]`, shared by the rating and recording scripts |
| `admittances.dfy` | `Admittances` | `process_file`, the `build_dataset` loops (as methods proved against a specification), the min/max envelope, the mean power per group and the phase 1 - phase 2 dB difference |
| `recordings.dfy` | `Recordings` | row selection and tagging of `build_dataset`, the band selection, the per-group normalisation and the phase 2 - phase 1 level difference |
| `ratings.dfy` | `Ratings` | the phase 2 - phase 1 rating difference of `ratings.py` |
| `ratings_blind.dfy` | `RatingsBlind` | the blind-only session 3 - session 1 difference of `ratings2.py` |
| `ratings_variability.dfy` | `RatingsVariability` | the "2-1" / "3-1" differences, `dropna`, `melt`, `difference_abs`, the player order and its tick labels |
| `mocap.dfy` | `Mocap` | the `build_dataset` loops (bad list, per-excerpt reference take, validity window, time re-basing) as methods proved against a specification, and the inner-merge phase difference |
| `listening.dfy` | `ListeningTest` | the scope overwrite and the melt of `test.py` |
| `config.dfy` | `Config` | `ci`, the 1.96 * std / sqrt(n) interval |

Floats are modelled as `real`. A pandas or numpy NaN is `None`. An exception is
the `Err` side of a `Result`. Directory listings, file contents and the
motion-capture library are inputs. The two square roots of `ci` are parameters
whose defining equations are preconditions of `Config.Ci`. The admittance level
20 * log10(sqrt(.)) is a function parameter `toDb`; only
`Admittances.DbDifferenceSign` assumes anything of it (that it is monotone).

Behaviour of the code that the model keeps:
- The admittance plot subtracts phase 2 from phase 1 (admittances.py:136), the
  opposite sign of the other analyses.
- A MAT file that passes validation but has no "yspec" raises KeyError
  (admittances.py:53-54); it is not skipped.
- An accepted file whose spectrum length differs from the 16385-point axis makes
  xarray raise when the data array is built (admittances.py:90-101).
- The min/max envelope of a (violin, phase) group without measurements raises
  ValueError (admittances.py:161-182), although the difference of line 136 is
  only NaN there.
- `ci` uses the population standard deviation (`np.std`, ddof 0, config.py:19).
- File order within a directory is the listing order of `glob`
  (admittances.py:80, mocap.py:58), taken as input.

## Model

| member | source | states |
|---|---|---|
| Frame.Linspace | admittances.py:59 | `num` points, the first `start`, the last exactly `stop`, evenly spaced |
| Frame.Sub | ratings.py:33 | NaN iff either side is NaN; otherwise `r + b == a` |
| Frame.SubAntisymmetric | ratings.py:33 | swapping the operands negates a difference, and NaN stays NaN |
| Frame.Abs | ratings-variability.py:62 | non-negative, equal to `x` or `-x`, and equal to `x` when `x >= 0` |
| Frame.AbsOpt | ratings-variability.py:62 | NaN stays NaN; otherwise the absolute value, non-negative |
| Frame.MinOf | admittances.py:178 | an element of the sample that is no greater than any element |
| Frame.MaxOf | admittances.py:179 | an element of the sample that is no less than any element |
| Frame.MeanBounds | ratings.py:27-32 | a mean lies between any lower and upper bound of its sample |
| Frame.MeanConstant | ratings.py:27-32 | the mean of a constant sample is that constant |
| Frame.MeltColumn | test.py:28-38 | one row per input row, in order, with the identifiers, the column name and that row's value |
| Frame.Melt2 | test.py:28-38 | 2n rows: row i is column 1 of input row i, row n + i is column 2 of input row i, identifiers copied |
| Pivot.Values | ratings.py:27-32 | a key and level never collect more values than there are rows (`ValuesFrom` says where each comes from) |
| Pivot.DistinctKeys | ratings.py:27-33 | every key with a row, each listed once, and nothing else |
| Pivot.Difference | ratings.py:33 | KeyError iff a requested level has no row (for `hi` first); otherwise one row per distinct key |
| Pivot.ValuesFrom | ratings.py:27-32 | every value of a cell comes from a row with that key and level |
| Pivot.CellMissing | ratings.py:27-32 | a cell is NaN iff no row has its key and level |
| Pivot.CellSingle | ratings.py:27-32 | a key with exactly one row in a level has that row's value as its cell |
| Pivot.CellWithin | ratings.py:27-32 | a cell lies between any bounds on the values it averages |
| Pivot.CellIgnoresOtherColumns | ratings2.py:38-44 | rows of other levels never change a cell |
| Pivot.DifferenceRow | ratings.py:33 | row i is the i-th key, its difference is cell[hi] - cell[lo], NaN iff the key lacks `hi` or `lo` |
| Pivot.ConstantDifference | recordings.py:119-128 | when every value of a key is x in `hi` and y in `lo`, its difference is exactly x - y |
| Pivot.DifferenceKeys | ratings.py:33 | a key has a difference row iff it has any row |
| Pivot.DifferenceAntisymmetric | ratings.py:33 | swapping `hi` and `lo` keeps the keys and negates every difference |
| Admittances.Axis | admittances.py:59 | 16385 points, from 0 to 25600 |
| Admittances.Admittance | admittances.py:56-62 | finite iff X != 0, +inf iff X = 0 and Y != 0; a finite value is non-negative and `H * abs(X * cx) == abs(Y * cy)` |
| Admittances.ProcessFile | admittances.py:36-64 | `None` iff the file is unreadable, lacks "freq" or "npts", or has the wrong rate or FFT size; KeyError iff otherwise valid but "yspec" is missing; an accepted file has the 16385-point axis and one admittance per spectrum line |
| Admittances.AdmittanceNonNegative | admittances.py:62 | every finite admittance of an accepted file is non-negative |
| Admittances.CollectFiles | admittances.py:87-104 | the inner loop's result equals the specification fold over the listing's files |
| Admittances.CollectPhase | admittances.py:74-104 | the loop over violins in one phase equals the specification fold over that phase's partitions, missing and empty directories contributing nothing |
| Admittances.BuildDataset | admittances.py:67-110 | the loops' result equals the specification `Assembly` |
| Admittances.CountAcceptedZero | admittances.py:89-104 | no accepted file iff no file is accepted by `process_file` |
| Admittances.GatherOk | admittances.py:87-104 | the collection succeeds iff no file raises; it then holds one measurement per accepted file, each from an accepted file |
| Admittances.GatherFirstError | admittances.py:88-104 | an exception is the one raised by the first faulty file |
| Admittances.AssemblyOutcome | admittances.py:104-109 | ValueError iff nothing raised and no file was accepted; otherwise as many measurements as accepted files, on the 16385-point axis; any other exception comes from a faulty file |
| Admittances.AssemblyIds | admittances.py:87-100 | each measurement is file number `measurement_id` (1-based, rejected files counted) of its own existing directory, accepted, with that file's name and admittance |
| Admittances.VisitsFacts | admittances.py:73-87 | files are reached phase by phase, violin by violin, in listing order, each from its own directory |
| Admittances.GatherOrdered | admittances.py:87-104 | collecting keeps the visiting order |
| Admittances.AssemblyOrdered | admittances.py:73-100 | measurements are ordered by phase, then violin in loop order, then increasing id |
| Admittances.EmptyDirectorySkipped | admittances.py:77-85 | an existing directory without files gives the same result as a missing one |
| Admittances.ColumnMembers | admittances.py:161-165 | a bin's column holds the value of every measurement of the group and only those |
| Admittances.ColumnEmpty | admittances.py:161-165 | a bin's column is empty iff the group has no measurement |
| Admittances.Envelope | admittances.py:161-182 | ValueError naming the group iff the group has no measurement; otherwise one range per bin |
| Admittances.EnvelopeBounds | admittances.py:161-182 | ValueError iff the group is empty; otherwise at every bin low <= high, both enclose every measurement of the group, and each is some measurement's value |
| Admittances.PlotGroups | admittances.py:151-156 | two panels per violin, in violin order: phase 1 then phase 2 |
| Admittances.Envelopes | admittances.py:151-182 | one envelope per panel when drawing succeeds |
| Admittances.EnvelopesOutcome | admittances.py:151-182 | drawing succeeds iff every panel's group has a measurement, each panel then holding its group's envelope; otherwise the ValueError names the first empty group in drawing order |
| Admittances.Powers | admittances.py:130 | squaring keeps each measurement's group and length |
| Admittances.PowersNonNegative | admittances.py:130 | every power is non-negative |
| Admittances.GroupMean | admittances.py:130 | one entry per bin |
| Admittances.MeanPower | admittances.py:130-132 | one entry per bin |
| Admittances.GroupMeanBounds | admittances.py:130 | NaN iff the group is empty; otherwise within any bounds on the group's values |
| Admittances.MeanPowerNonNegative | admittances.py:130-132 | NaN iff the group is empty; otherwise non-negative |
| Admittances.MeanPowerAtLeast | admittances.py:130 | a lower bound on every power of a non-empty group bounds its mean power |
| Admittances.MeanPowerAtMost | admittances.py:130 | an upper bound on every power of a non-empty group bounds its mean power |
| Admittances.DbDifference | admittances.py:136 | KeyError iff phase 1 or phase 2 has no measurement at all (naming phase 1 first); otherwise one entry per bin |
| Admittances.DbDifferenceAt | admittances.py:130-136 | NaN iff the violin lacks either phase; otherwise level(phase 1) - level(phase 2) |
| Admittances.DbDifferenceSign | admittances.py:136 | when phase 1 measurements are all at least as strong as phase 2 ones, the difference is defined and non-negative |
| Recordings.ViolinName | recordings.py:48 | A maps to klimke, B to levaggi, C to stoppani, and each name comes from that code only |
| Recordings.Select | recordings.py:45-48 | every kept row (violin in {A, B, C}, session in {1, 3}, extract "gamme") appears renamed, and only those |
| Recordings.SelectAppend | recordings.py:45-48 | selection works row by row: it distributes over concatenation and keeps a single row iff it is kept, renamed; so the kept rows stay in order, each once |
| Recordings.PhaseOf | recordings.py:56 | phase 2 iff session 3, otherwise phase 1 |
| Recordings.ScopeOf | recordings.py:57-59 | "test" iff the player is "SMD", otherwise "control" |
| Recordings.BuildDataset | recordings.py:52-79 | ValueError iff there are no rows or the feature lengths differ; otherwise one measurement per row on an axis of `n_features` points from 0 to 8000 |
| Recordings.BuildDatasetTags | recordings.py:56-72 | each measurement carries its row's violin, player, condition, features and the derived phase and scope |
| Recordings.Band | recordings.py:98 | at most the input's values; all of them when every bin is in 200 <= f <= 5000, none when none is |
| Recordings.BandAppend | recordings.py:98 | the band is taken bin by bin: it distributes over concatenation and keeps one bin iff 200 <= f <= 5000; so the kept values stay in axis order, each once |
| Recordings.GroupValuesPositive | recordings.py:101 | linear amplitudes stay positive in every group |
| Recordings.GroupMean | recordings.py:109 | a group's mean of positive amplitudes is positive, so dividing by it is defined |
| Recordings.GroupMeanTimesCount | recordings.py:109 | a group's mean times its count gives its sum |
| Recordings.Scaled | recordings.py:109 | a spectrum keeps its key and length and is divided by its group's mean |
| Recordings.DivideByGroupMean | recordings.py:104-111 | each spectrum is divided by its group's mean, order kept |
| Recordings.Normalise | recordings.py:104-111 | keys, order and lengths are kept |
| Recordings.DividedGroupValues | recordings.py:109 | a group's values after division are its values divided by the group mean |
| Recordings.NormalisedGroupMean | recordings.py:104-109 | every normalised group has mean exactly 1 |
| Recordings.PhaseDifferenceRow | recordings.py:119-131 | NaN iff the key lacks phase 1 or phase 2; otherwise mean(phase 2) - mean(phase 1) |
| Recordings.ConstantLevelsDifference | recordings.py:119-131 | when every level of a key is a in phase 1 and b in phase 2, its difference is exactly b - a |
| Ratings.PhaseDifference | ratings.py:27-33 | KeyError iff no rating has phase 2 or none has phase 1 |
| Ratings.ValuesAreRatings | ratings.py:27-32 | a cell averages exactly the ratings of its key and phase |
| Ratings.CellIsMeanRating | ratings.py:27-32 | a cell is NaN when the key has no rating in the phase, otherwise the mean of its ratings |
| Ratings.SingleRatingCell | ratings.py:27-32 | a key with exactly one rating in a phase has that rating as its cell |
| Ratings.PhaseDifferenceIsMeanChange | ratings.py:33 | defined iff the key has ratings in both phases, then mean(phase 2) - mean(phase 1) |
| Ratings.PhaseDifferenceKeys | ratings.py:33 | a key has a difference row iff it has any rating |
| RatingsBlind.BlindOnly | ratings2.py:35 | exactly the blind rows, order kept |
| RatingsBlind.BlindOnlyAppend | ratings2.py:35 | filtering distributes over concatenation |
| RatingsBlind.BlindOnlyOfNonBlind | ratings2.py:35 | non-blind rows are all filtered out |
| RatingsBlind.NonBlindIgnored | ratings2.py:35-44 | appending non-blind rows changes nothing |
| RatingsBlind.SessionTwoIgnored | ratings2.py:44 | session-2 ratings never change a key's difference |
| RatingsBlind.BlindRatedIsRated | ratings2.py:35-43 | a pivot row exists iff a blind rating of that key and session exists |
| RatingsBlind.BlindValuesAreRatings | ratings2.py:35-43 | a cell averages exactly the blind ratings of its key and session |
| RatingsBlind.BlindDifferenceIsMeanChange | ratings2.py:35-44 | a key's difference is defined iff it has blind ratings in sessions 1 and 3, then mean(session 3) - mean(session 1) |
| RatingsBlind.SessionDifferenceRow | ratings2.py:44 | each row holds its key's cell[3] - cell[1], NaN iff the key lacks a blind rating in session 1 or 3 |
| RatingsVariability.Wide | ratings-variability.py:46-54 | KeyError iff session 1, 2 or 3 has no rating at all; otherwise one row per key |
| RatingsVariability.DropNa | ratings-variability.py:55 | every complete row appears, and only complete rows of the input |
| RatingsVariability.DropNaAppend | ratings-variability.py:55 | rows are dropped one by one: it distributes over concatenation and keeps a single row iff it is complete; so order and multiplicity are kept |
| RatingsVariability.Melted | ratings-variability.py:56-62 | 2n rows: row i is "2-1" of wide row i, row n + i is "3-1", with the key and the absolute value |
| RatingsVariability.SessionRatedIsRated | ratings-variability.py:46-51 | a pivot row exists iff a rating of that key and session exists |
| RatingsVariability.DropNaKeys | ratings-variability.py:55 | a key survives iff one of its rows is complete |
| RatingsVariability.SurvivesIffAllSessions | ratings-variability.py:52-55 | a key survives iff it was rated in sessions 1, 2 and 3 |
| RatingsVariability.DifferencesShape | ratings-variability.py:56-62 | two rows per surviving key, all "2-1" rows then all "3-1" rows, each with its difference and absolute value |
| RatingsVariability.WideRowIsMeanChange | ratings-variability.py:46-53 | "2-1" = mean(session 2) - mean(session 1), "3-1" = mean(session 3) - mean(session 1), NaN iff a session is missing |
| RatingsVariability.AbsoluteDifference | ratings-variability.py:62 | `difference_abs` is non-negative and equals the difference when that is non-negative |
| RatingsVariability.StrLessIrreflexive | ratings-variability.py:64 | no string precedes itself |
| RatingsVariability.StrLessTransitive | ratings-variability.py:64 | string order is transitive |
| RatingsVariability.StrLessTotal | ratings-variability.py:64 | of two distinct strings, one precedes the other |
| RatingsVariability.Insert | ratings-variability.py:64 | inserting keeps the list strictly sorted and adds exactly the new name |
| RatingsVariability.SortedUnique | ratings-variability.py:64 | strictly sorted, with exactly the names of the input |
| RatingsVariability.SortedDistinct | ratings-variability.py:64 | a strictly sorted list has no repetition |
| RatingsVariability.Unique | ratings-variability.py:65 | exactly the names of the input, each once, in order of first appearance |
| RatingsVariability.PlayersIn | ratings-variability.py:64-65 | exactly the players of the rows in the scope |
| RatingsVariability.PlayersInAppend | ratings-variability.py:64-65 | players are read row by row: it distributes over concatenation and a single row gives its player iff it is in the scope; so row order is kept |
| RatingsVariability.PlayerOrder | ratings-variability.py:64-66 | the sorted distinct control players, then the distinct test players in order of appearance |
| RatingsVariability.DecimalString | ratings-variability.py:123 | non-empty, digits only, no leading zero |
| RatingsVariability.DecimalRoundTrip | ratings-variability.py:123 | reading `str(n)` back gives n |
| RatingsVariability.TickLabels | ratings-variability.py:123 | k + 1 labels: label i is `str(i + 1)` (canonical decimal, read back as i + 1), then "Test" |
| RatingsVariability.TickLabelsMatchPlayers | ratings-variability.py:123 | as many labels as players on the axis iff there is exactly one test player |
| Mocap.Select | mocap.py:82-84 | as many values as true mask entries, each a value at a true entry; all values under an all-true mask, none under an all-false one |
| Mocap.SelectAppend | mocap.py:82-84 | masking works entry by entry: it distributes over concatenation and keeps a single value iff its entry is true |
| Mocap.SelectNth | mocap.py:82-84 | the k-th selected value is the value at the k-th true mask entry |
| Mocap.TakeRowsShape | mocap.py:73-92 | one row per in-window reference frame; row k has time k / 120, the take's violin, excerpt and phase, and the warped sample at the k-th in-window frame |
| Mocap.ExcerptWindows | mocap.py:21-34 | every configured excerpt has a window whose end frames are excluded and whose first inner frame is included |
| Mocap.CollectTakes | mocap.py:59-92 | the take loop's result equals the specification fold over the directory's takes |
| Mocap.CollectExcerpt | mocap.py:53-92 | one excerpt's loops, from a fresh reference, equal the specification fold over its takes |
| Mocap.BuildDataset | mocap.py:50-94 | the loops' result equals the specification `Build` |
| Mocap.Good | mocap.py:59-63 | the takes off the bad list, in order |
| Mocap.Expected | mocap.py:65-92 | one frame per good take |
| Mocap.ScanMeaning | mocap.py:53-92 | one excerpt raises iff a good take does not fit the reference mask, naming the first such take; otherwise the reference is the first good take and each good take adds its frame against it |
| Mocap.ScanIgnoresBad | mocap.py:61-63 | bad takes can be dropped beforehand without changing the outcome |
| Mocap.RunMeaning | mocap.py:52-92 | the excerpts succeed iff every good take fits; the frames are then each excerpt's expected frames; any exception is a mask error |
| Mocap.ExpectationEmpty | mocap.py:52-92 | no frame iff no excerpt has a good take |
| Mocap.BuildOutcome | mocap.py:50-94 | the empty-concat ValueError iff no excerpt has a good take; an IndexError iff some good take does not fit; otherwise the concatenated frames |
| Mocap.PhaseRowsMembers | mocap.py:103-104 | a row is in the filtered table iff it is a row of the table with that phase |
| Mocap.PhaseRowsAppend | mocap.py:103-104 | filtering works row by row: it distributes over concatenation, so the kept rows stay in table order |
| Mocap.PhaseRowsSingle | mocap.py:103-104 | a single row is kept iff it has the phase; with `PhaseRowsAppend` this fixes the filtered table's order and multiplicity |
| Mocap.PhaseRowsCount | mocap.py:103-104 | the filtered table has as many rows of a key as the table has rows of that key and phase |
| Mocap.Matches | mocap.py:102-107 | one left row paired with every right row of its key |
| Mocap.InnerMerge | mocap.py:102-107 | exactly the pairs of a left and a right row with the same key |
| Mocap.MergeCount | mocap.py:102-107 | a key with a left rows and b right rows yields a * b merged rows |
| Mocap.PhaseDifferenceCount | mocap.py:102-107 | a key yields count(phase 2) * count(phase 1) rows, counted in the input table, none when either count is 0 |
| Mocap.PhaseDifferenceRows | mocap.py:102-108 | the rows are exactly the phase-2/phase-1 pairs of one key, each with feature_p2 - feature_p1 |
| ListeningTest.OverrideScope | test.py:25 | every scope is "Control"; every other column is kept |
| ListeningTest.OverrideScopeIdempotent | test.py:25 | overwriting twice equals overwriting once |
| ListeningTest.ScoresShape | test.py:28-38 | 2n rows: all "11" rows in input order, then all "12" rows, identifiers copied with scope "Control" |
| ListeningTest.ScoresPhase | test.py:35-37 | each phase is "11" or "12", scope "Control", and the score is that column of some input row |
| Config.SquaredDeviations | config.py:19 | one non-negative squared deviation per value |
| Config.Variance | config.py:19 | non-negative |
| Config.HalfWidth | config.py:19 | non-negative |
| Config.Ci | config.py:17-20 | NaN iff the sample is empty; otherwise symmetric about the mean, lower <= mean <= upper, and s^2 * n == 1.96^2 * var |
| Config.RootMonotone | config.py:19 | square roots are monotone |
| Config.ConstantVariance | config.py:19 | a constant sample has variance 0 |
| Config.ConstantSampleZeroWidth | config.py:19 | a single-value or constant sample gives lower = upper = the value |
| Config.HalfWidthGrowsWithStd | config.py:19 | for fixed n, the half-width grows with std |
| Config.HalfWidthShrinksWithN | config.py:19 | for fixed std, the half-width shrinks as n grows |
| Config.WiderForLargerVariance | config.py:19 | for the same n, the larger variance gives the wider interval |

## Left out

- Plotting (matplotlib, seaborn), figure saving, styles and colour and label maps: output only.
- File I/O is modelled as inputs. This covers `scipy.io.loadmat` (its outcome is a `MatFile` value), netCDF save and load, `read_pickle`, `read_csv`/`to_csv`, and the CSV round trip of mocap.py:96-101.
- Directory listings are inputs, in `glob` order.
- `warnings.warn` and `print` calls are not modelled.
- `identification.dataset.get_dataset` (recordings.py:50) is a foreign feature extractor. Its rows are an input.
- The motion-capture library (`Take`, `align`, `warp`, `compute_skewness`) is not part of this model. The `Descriptor` parameter stands for it and returns the warped series of a take aligned to the reference. A take's frame numbers are part of its input. The `getattr` lookup is replaced by this single fixed descriptor.
- Complex spectra: each "yspec" line is modelled as a pair of reals.
- float32 casting and rounding: values are exact reals.
- Logarithms, powers and square roots have no Dafny counterpart. The roots of `ci` are parameters tied by equations (`Config.Ci`); the admittance level is the parameter `toDb` of `Admittances.DbDifference`, unconstrained there and assumed monotone in `Admittances.DbDifferenceSign`.
- recordings.py:101 (`10 ** (features / 20)`) and recordings.py:117 (`20 * np.log10(norm_lin)` and `to_dataframe`) are not modelled: the normalisation takes positive linear amplitudes as its input, and the phase difference takes a table of levels as its input, so the model does not join the two halves of the recordings plot.
- The plot reductions of admittances.py:130-182 are modelled on finite real values (`Admittances.Trace`): xarray's NaN-skipping in the group mean and in min/max, an infinite admittance (X = 0) propagating through `H**2` and the mean, and the -inf level of a zero admittance are not modelled.
- Admittances.DbDifferenceSign: requires `toDb` to be monotone instead of being stated for 20 * log10(sqrt(.)) itself.
- `config.linear_mean` is not part of this model.
- pandas sorts the pivot index and the merge keys. The model keeps keys in order of first appearance, and merges left-row major. Contents and counts are proved; the row order of pandas' output is not.
- `Admittances.GroupMean`, `Admittances.MeanPower`: their own contracts only give the length; their per-bin meaning is in `GroupMeanBounds`, `MeanPowerNonNegative`, `MeanPowerAtLeast` and `MeanPowerAtMost`.
- The xarray `where(..., drop=True)` selection is modelled as taking the group's measurements directly. Its padding with NaN is not modelled.
- The command-line `main` functions are not modelled.
