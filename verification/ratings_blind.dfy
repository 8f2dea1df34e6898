/**
 * ratings2.py: the session 3 - session 1 rating difference computed on the
 * ratings given in the "blind" condition only, pivoted on the session.
 */
module RatingsBlind {
  import opened Frame
  import Pivot
  import opened Ratings

  const Blind := "blind"

  /** `df[df.condition == "blind"]`, row order kept. */
  function BlindOnly(df: seq<Rating>): (r: seq<Rating>)
    ensures |r| <= |df|
    ensures forall i :: 0 <= i < |r| ==> r[i].condition == Blind
    ensures forall i :: 0 <= i < |df| && df[i].condition == Blind ==> df[i] in r
    ensures forall x :: x in r ==> x in df
  {
    if |df| == 0 then []
    else (if df[0].condition == Blind then [df[0]] else []) + BlindOnly(df[1..])
  }

  /** The long table the pivot reads when its columns are the session. */
  function BySession(df: seq<Rating>): (rows: seq<Pivot.Row<RatingKey, int>>)
    ensures |rows| == |df|
    ensures forall i :: 0 <= i < |df| ==>
      rows[i].key == KeyOf(df[i]) && rows[i].column == df[i].session && rows[i].value == df[i].rating
  {
    seq(|df|, i requires 0 <= i < |df| => Pivot.Row(KeyOf(df[i]), df[i].session, df[i].rating))
  }

  /** The pivot table of blind ratings, long form. */
  function BlindRows(df: seq<Rating>): seq<Pivot.Row<RatingKey, int>>
  {
    BySession(BlindOnly(df))
  }

  /** ratings2.py: `(pivoted[3] - pivoted[1]).reset_index(name="difference")`. */
  function SessionDifference(df: seq<Rating>): Result<seq<Pivot.DiffRow<RatingKey>>, Pivot.Error<int>>
  {
    Pivot.Difference(BlindRows(df), 3, 1)
  }

  /** The difference one key receives: cell[session 3] - cell[session 1]. */
  function KeyDifference(df: seq<Rating>, key: RatingKey): Option<real>
  {
    Sub(Pivot.Cell(BlindRows(df), key, 3), Pivot.Cell(BlindRows(df), key, 1))
  }

  /** A blind rating of `key` in `session` exists. */
  predicate BlindRated(df: seq<Rating>, key: RatingKey, session: int)
  {
    exists i :: 0 <= i < |df| && df[i].condition == Blind && KeyOf(df[i]) == key && df[i].session == session
  }

  /** The blind ratings a key received in a session, in table order. */
  function BlindSessionRatings(df: seq<Rating>, key: RatingKey, session: int): seq<real>
  {
    if |df| == 0 then []
    else
      (if df[0].condition == Blind && KeyOf(df[0]) == key && df[0].session == session then [df[0].rating] else [])
      + BlindSessionRatings(df[1..], key, session)
  }

  /** The pivot of ratings2.py reads exactly the blind ratings of its key and session. */
  lemma {:induction false} BlindValuesAreRatings(df: seq<Rating>, key: RatingKey, session: int)
    ensures Pivot.Values(BlindRows(df), key, session) == BlindSessionRatings(df, key, session)
  {
    if |df| > 0 {
      BlindValuesAreRatings(df[1..], key, session);
      var rest := BlindOnly(df[1..]);
      if df[0].condition == Blind {
        assert BlindOnly(df) == [df[0]] + rest;
        var rows := BlindRows(df);
        assert rows[0] == Pivot.Row(KeyOf(df[0]), df[0].session, df[0].rating);
        assert rows[1..] == BySession(rest);
      } else {
        assert BlindOnly(df) == [] + rest;
        assert BlindOnly(df) == rest;
      }
    }
  }

  /**
   * A key's difference is the mean of its blind session-3 ratings minus the
   * mean of its blind session-1 ratings, and is missing when either is absent.
   */
  lemma BlindDifferenceIsMeanChange(df: seq<Rating>, key: RatingKey)
    ensures var r3 := BlindSessionRatings(df, key, 3);
            var r1 := BlindSessionRatings(df, key, 1);
            && (KeyDifference(df, key).Some? <==> |r3| > 0 && |r1| > 0)
            && (KeyDifference(df, key).Some? ==> KeyDifference(df, key).value == Mean(r3) - Mean(r1))
  {
    BlindValuesAreRatings(df, key, 3);
    BlindValuesAreRatings(df, key, 1);
  }

  lemma {:induction false} BlindOnlyAppend(a: seq<Rating>, b: seq<Rating>)
    ensures BlindOnly(a + b) == BlindOnly(a) + BlindOnly(b)
  {
    if |a| == 0 {
      assert a + b == b;
    } else {
      assert (a + b)[1..] == a[1..] + b;
      BlindOnlyAppend(a[1..], b);
    }
  }

  lemma {:induction false} BlindOnlyOfNonBlind(extra: seq<Rating>)
    requires forall i :: 0 <= i < |extra| ==> extra[i].condition != Blind
    ensures BlindOnly(extra) == []
  {
    if |extra| > 0 {
      BlindOnlyOfNonBlind(extra[1..]);
    }
  }

  /** Rows in another condition contribute to no cell: appending them changes nothing. */
  lemma NonBlindIgnored(df: seq<Rating>, extra: seq<Rating>)
    requires forall i :: 0 <= i < |extra| ==> extra[i].condition != Blind
    ensures SessionDifference(df + extra) == SessionDifference(df)
  {
    BlindOnlyAppend(df, extra);
    BlindOnlyOfNonBlind(extra);
    assert BlindOnly(df) + [] == BlindOnly(df);
  }

  /** Session-2 ratings never affect the session 3 - session 1 difference of any key. */
  lemma SessionTwoIgnored(df: seq<Rating>, extra: seq<Rating>, key: RatingKey)
    requires forall i :: 0 <= i < |extra| ==> extra[i].session == 2
    ensures KeyDifference(df + extra, key) == KeyDifference(df, key)
  {
    BlindOnlyAppend(df, extra);
    assert BySession(BlindOnly(df + extra)) == BySession(BlindOnly(df)) + BySession(BlindOnly(extra));
    var more := BySession(BlindOnly(extra));
    forall i | 0 <= i < |more|
      ensures more[i].column != 3 && more[i].column != 1
    {
      assert BlindOnly(extra)[i] in extra;
    }
    Pivot.CellIgnoresOtherColumns(BlindRows(df), more, key, 3);
    Pivot.CellIgnoresOtherColumns(BlindRows(df), more, key, 1);
  }

  /** A blind rating of the key in the session shows up as a pivot row. */
  lemma BlindRatedIsRated(df: seq<Rating>, key: RatingKey, session: int)
    ensures BlindRated(df, key, session) <==> Pivot.Rated(BlindRows(df), key, session)
  {
    var b := BlindOnly(df);
    if BlindRated(df, key, session) {
      var i :| 0 <= i < |df| && df[i].condition == Blind && KeyOf(df[i]) == key && df[i].session == session;
      assert df[i] in b;
      var j :| 0 <= j < |b| && b[j] == df[i];
      assert BlindRows(df)[j].key == key && BlindRows(df)[j].column == session;
    }
    if Pivot.Rated(BlindRows(df), key, session) {
      var j :| 0 <= j < |b| && BlindRows(df)[j].key == key && BlindRows(df)[j].column == session;
      assert b[j] in df;
      var i :| 0 <= i < |df| && df[i] == b[j];
      assert df[i].condition == Blind;
    }
  }

  /**
   * Row i of the difference holds its key's difference, which is missing
   * exactly when the key has no blind rating in session 1 or in session 3.
   */
  lemma SessionDifferenceRow(df: seq<Rating>, i: nat)
    requires SessionDifference(df).Ok? && i < |SessionDifference(df).value|
    ensures var row := SessionDifference(df).value[i];
            && row.difference == KeyDifference(df, row.key)
            && (row.difference.None? <==> !BlindRated(df, row.key, 3) || !BlindRated(df, row.key, 1))
  {
    var row := SessionDifference(df).value[i];
    Pivot.DifferenceRow(BlindRows(df), 3, 1, i);
    Pivot.CellMissing(BlindRows(df), row.key, 3);
    Pivot.CellMissing(BlindRows(df), row.key, 1);
    BlindRatedIsRated(df, row.key, 3);
    BlindRatedIsRated(df, row.key, 1);
  }
}
