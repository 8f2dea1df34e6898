/**
 * Perceptual ratings (data/processed/ratings.csv) and the phase 2 - phase 1
 * rating difference of ratings.py: pivot the ratings on the phase, keyed by
 * (scope, violin, player, criterion), averaging duplicates, then subtract.
 */
module Ratings {
  import opened Frame
  import Pivot

  /** One line of the ratings table. */
  datatype Rating = Rating(
    scope: string, violin: string, player: string, criterion: string,
    phase: int, session: int, condition: string, rating: real)

  /** The index columns of every ratings pivot. */
  datatype RatingKey = RatingKey(scope: string, violin: string, player: string, criterion: string)

  function KeyOf(r: Rating): RatingKey
  {
    RatingKey(r.scope, r.violin, r.player, r.criterion)
  }

  /** The long table the pivot reads when its columns are the phase. */
  function ByPhase(df: seq<Rating>): (rows: seq<Pivot.Row<RatingKey, int>>)
    ensures |rows| == |df|
    ensures forall i :: 0 <= i < |df| ==>
      rows[i].key == KeyOf(df[i]) && rows[i].column == df[i].phase && rows[i].value == df[i].rating
  {
    seq(|df|, i requires 0 <= i < |df| => Pivot.Row(KeyOf(df[i]), df[i].phase, df[i].rating))
  }

  /** The ratings a key received in a phase, in table order. */
  function PhaseRatings(df: seq<Rating>, key: RatingKey, phase: int): seq<real>
  {
    if |df| == 0 then []
    else
      (if KeyOf(df[0]) == key && df[0].phase == phase then [df[0].rating] else [])
      + PhaseRatings(df[1..], key, phase)
  }

  /** ratings.py: `(pivoted[2] - pivoted[1]).reset_index(name="difference")`. */
  function PhaseDifference(df: seq<Rating>): (r: Result<seq<Pivot.DiffRow<RatingKey>>, Pivot.Error<int>>)
    ensures r.Err? <==> (forall i :: 0 <= i < |df| ==> df[i].phase != 2) || (forall i :: 0 <= i < |df| ==> df[i].phase != 1)
  {
    var rows := ByPhase(df);
    assert (exists i :: 0 <= i < |df| && df[i].phase == 2) ==> Pivot.HasColumn(rows, 2);
    assert (exists i :: 0 <= i < |df| && df[i].phase == 1) ==> Pivot.HasColumn(rows, 1);
    Pivot.Difference(rows, 2, 1)
  }

  /** The pivot reads exactly the ratings of its key and phase. */
  lemma {:induction false} ValuesAreRatings(df: seq<Rating>, key: RatingKey, phase: int)
    ensures Pivot.Values(ByPhase(df), key, phase) == PhaseRatings(df, key, phase)
  {
    if |df| > 0 {
      assert ByPhase(df)[1..] == ByPhase(df[1..]);
      ValuesAreRatings(df[1..], key, phase);
    }
  }

  /**
   * Every pivot cell is the arithmetic mean of all ratings sharing its key
   * and phase; a key/phase with no rating has a missing cell.
   */
  lemma CellIsMeanRating(df: seq<Rating>, key: RatingKey, phase: int)
    ensures Pivot.Cell(ByPhase(df), key, phase)
            == if |PhaseRatings(df, key, phase)| == 0 then None else Some(Mean(PhaseRatings(df, key, phase)))
  {
    ValuesAreRatings(df, key, phase);
  }

  /** A key with exactly one rating in a phase has that rating as its cell. */
  lemma SingleRatingCell(df: seq<Rating>, i: nat)
    requires i < |df|
    requires forall j :: 0 <= j < |df| && j != i ==> !(KeyOf(df[j]) == KeyOf(df[i]) && df[j].phase == df[i].phase)
    ensures Pivot.Cell(ByPhase(df), KeyOf(df[i]), df[i].phase) == Some(df[i].rating)
  {
    Pivot.CellSingle(ByPhase(df), KeyOf(df[i]), df[i].phase, i);
  }

  /**
   * Row i of the difference: its difference is mean(phase 2) - mean(phase 1)
   * of its key, and is missing (not zero) when the key lacks either phase.
   */
  lemma PhaseDifferenceIsMeanChange(df: seq<Rating>, i: nat)
    requires PhaseDifference(df).Ok? && i < |PhaseDifference(df).value|
    ensures var row := PhaseDifference(df).value[i];
            var r2 := PhaseRatings(df, row.key, 2);
            var r1 := PhaseRatings(df, row.key, 1);
            && (row.difference.Some? <==> |r2| > 0 && |r1| > 0)
            && (row.difference.Some? ==> row.difference.value == Mean(r2) - Mean(r1))
  {
    var row := PhaseDifference(df).value[i];
    Pivot.DifferenceRow(ByPhase(df), 2, 1, i);
    CellIsMeanRating(df, row.key, 2);
    CellIsMeanRating(df, row.key, 1);
  }

  /** There is one difference row per key that has any rating. */
  lemma PhaseDifferenceKeys(df: seq<Rating>, key: RatingKey)
    requires PhaseDifference(df).Ok?
    ensures (exists i :: 0 <= i < |PhaseDifference(df).value| && PhaseDifference(df).value[i].key == key)
            <==> (exists j :: 0 <= j < |df| && KeyOf(df[j]) == key)
  {
    var rows := ByPhase(df);
    Pivot.DifferenceKeys(rows, 2, 1, key);
    if exists j :: 0 <= j < |rows| && rows[j].key == key {
      var j :| 0 <= j < |rows| && rows[j].key == key;
      assert KeyOf(df[j]) == key;
    }
  }
}
