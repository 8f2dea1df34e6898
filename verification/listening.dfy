/**
 * test.py: the listening-test table has its scope column overwritten with
 * "Control", then its two score columns "11" and "12" are melted into one
 * long table with a "phase" column naming the source column.
 */
module ListeningTest {
  import opened Frame

  const Control := "Control"
  const Column11 := "11"
  const Column12 := "12"

  /** One line of data/processed/listening_test.csv (the columns the script reads). */
  datatype Listening = Listening(
    scope: string, listener: string, violin: string, player: string,
    score11: Option<real>, score12: Option<real>, diff: Option<real>)

  /** The identifier columns kept by the melt. */
  datatype ListeningId = ListeningId(scope: string, listener: string, violin: string, player: string)

  /** Line 25: `df_diff["scope"] = "Control"`. */
  function OverrideScope(df: seq<Listening>): (r: seq<Listening>)
    ensures |r| == |df|
    ensures forall i :: 0 <= i < |r| ==> r[i].scope == Control
    ensures forall i :: 0 <= i < |r| ==>
      && r[i].listener == df[i].listener && r[i].violin == df[i].violin && r[i].player == df[i].player
      && r[i].score11 == df[i].score11 && r[i].score12 == df[i].score12 && r[i].diff == df[i].diff
  {
    seq(|df|, i requires 0 <= i < |df| => df[i].(scope := Control))
  }

  function IdOf(row: Listening): ListeningId
  {
    ListeningId(row.scope, row.listener, row.violin, row.player)
  }

  /** Lines 28-38: `melt(id_vars=[...], value_vars=["11", "12"], var_name="phase", value_name="score")`. */
  function MeltScores(df: seq<Listening>): seq<Melted<ListeningId, Option<real>>>
  {
    Melt2(seq(|df|, i requires 0 <= i < |df| => IdOf(df[i])),
          seq(|df|, i requires 0 <= i < |df| => df[i].score11),
          seq(|df|, i requires 0 <= i < |df| => df[i].score12),
          Column11, Column12)
  }

  /** The whole of lines 23-38. */
  function Scores(df: seq<Listening>): seq<Melted<ListeningId, Option<real>>>
  {
    MeltScores(OverrideScope(df))
  }

  /** Overwriting the scope twice is overwriting it once. */
  lemma OverrideScopeIdempotent(df: seq<Listening>)
    ensures OverrideScope(OverrideScope(df)) == OverrideScope(df)
  {
  }

  /**
   * n rows become 2n: first every row's "11" score in input order, then
   * every row's "12" score; each carries its row's identifiers, with the
   * scope overwritten, and the score of the column its phase names.
   */
  lemma ScoresShape(df: seq<Listening>, i: nat)
    requires i < |df|
    ensures |Scores(df)| == 2 * |df|
    ensures Scores(df)[i].id == ListeningId(Control, df[i].listener, df[i].violin, df[i].player)
    ensures Scores(df)[|df| + i].id == ListeningId(Control, df[i].listener, df[i].violin, df[i].player)
    ensures Scores(df)[i].variable == Column11 && Scores(df)[i].value == df[i].score11
    ensures Scores(df)[|df| + i].variable == Column12 && Scores(df)[|df| + i].value == df[i].score12
  {
  }

  /** Every melted row's phase is "11" or "12" and its score is that column of a source row. */
  lemma ScoresPhase(df: seq<Listening>, k: nat)
    requires k < |Scores(df)|
    ensures Scores(df)[k].variable in {Column11, Column12}
    ensures Scores(df)[k].id.scope == Control
    ensures exists i :: 0 <= i < |df| && Scores(df)[k].value == (if Scores(df)[k].variable == Column11 then df[i].score11 else df[i].score12)
  {
    var n := |df|;
    if k < n {
      ScoresShape(df, k);
    } else {
      ScoresShape(df, k - n);
      assert Column11 != Column12;
    }
  }
}
