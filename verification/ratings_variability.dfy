/**
 * ratings-variability.py: per rating key, the session 2 - session 1 and
 * session 3 - session 1 differences, rows lacking either dropped, melted
 * into a long table with their absolute values; then the order in which
 * players appear on the x axis and its tick labels.
 */
module RatingsVariability {
  import opened Frame
  import Pivot
  import opened Ratings
  import RatingsBlind

  const TwoMinusOne := "2-1"
  const ThreeMinusOne := "3-1"

  /** A row of the pivoted frame restricted to its two difference columns. */
  datatype WideRow = WideRow(key: RatingKey, d21: Option<real>, d31: Option<real>)

  /** A row of `df_diff` after melt and the absolute-value column. */
  datatype DiffRecord = DiffRecord(key: RatingKey, differenceType: string, difference: real, differenceAbs: real)

  /** Pivot rows keyed by rating key, one column per session (all conditions). */
  function Rows(df: seq<Rating>): seq<Pivot.Row<RatingKey, int>>
  {
    RatingsBlind.BySession(df)
  }

  /**
   * Lines 46-54: `pivoted["2-1"] = pivoted[2] - pivoted[1]`, then
   * `pivoted["3-1"] = pivoted[3] - pivoted[1]`, one row per key. Selecting a
   * session no rating has raises KeyError, in that order: 2, 1, then 3.
   */
  function Wide(df: seq<Rating>): (r: Result<seq<WideRow>, Pivot.Error<int>>)
    ensures r.Err? <==> exists s :: s in {1, 2, 3} && !Pivot.HasColumn(Rows(df), s)
    ensures r.Ok? ==> |r.value| == |Pivot.DistinctKeys(Rows(df))|
  {
    var rows := Rows(df);
    if !Pivot.HasColumn(rows, 2) then Err(Pivot.MissingColumn(2))
    else if !Pivot.HasColumn(rows, 1) then Err(Pivot.MissingColumn(1))
    else if !Pivot.HasColumn(rows, 3) then Err(Pivot.MissingColumn(3))
    else
      var keys := Pivot.DistinctKeys(rows);
      Ok(seq(|keys|, i requires 0 <= i < |keys| =>
        WideRow(keys[i],
                Sub(Pivot.Cell(rows, keys[i], 2), Pivot.Cell(rows, keys[i], 1)),
                Sub(Pivot.Cell(rows, keys[i], 3), Pivot.Cell(rows, keys[i], 1)))))
  }

  predicate Complete(w: WideRow)
  {
    w.d21.Some? && w.d31.Some?
  }

  /** `dropna(subset=["2-1", "3-1"])`: the complete rows, in order. */
  function DropNa(w: seq<WideRow>): (r: seq<WideRow>)
    ensures |r| <= |w|
    ensures forall i :: 0 <= i < |r| ==> Complete(r[i]) && r[i] in w
    ensures forall i :: 0 <= i < |w| && Complete(w[i]) ==> w[i] in r
  {
    if |w| == 0 then []
    else (if Complete(w[0]) then [w[0]] else []) + DropNa(w[1..])
  }

  /** Rows are dropped one by one: the complete rows stay in order, each once. */
  lemma {:induction false} DropNaAppend(a: seq<WideRow>, b: seq<WideRow>)
    ensures DropNa(a + b) == DropNa(a) + DropNa(b)
    ensures |a| == 1 ==> DropNa(a) == if Complete(a[0]) then [a[0]] else []
  {
    if |a| == 0 {
      assert a + b == b;
    } else {
      var w := a + b;
      var head := if Complete(a[0]) then [a[0]] else [];
      assert w[0] == a[0] && w[1..] == a[1..] + b;
      DropNaAppend(a[1..], b);
      assert DropNa(w) == head + DropNa(w[1..]);
      assert DropNa(a) == head + DropNa(a[1..]);
      if |a| == 1 {
        assert a[1..] == [];
      }
    }
  }

  /** `melt(value_vars=["2-1", "3-1"])` followed by `difference_abs = abs(difference)`. */
  function Melted(w: seq<WideRow>): (r: seq<DiffRecord>)
    requires forall i :: 0 <= i < |w| ==> Complete(w[i])
    ensures |r| == 2 * |w|
    ensures forall i :: 0 <= i < |w| ==>
      && Complete(w[i])
      && r[i] == DiffRecord(w[i].key, TwoMinusOne, w[i].d21.value, Abs(w[i].d21.value))
      && r[|w| + i] == DiffRecord(w[i].key, ThreeMinusOne, w[i].d31.value, Abs(w[i].d31.value))
  {
    forall i | 0 <= i < |w|
      ensures w[i].d21.Some? && w[i].d31.Some?
    {
      assert Complete(w[i]);
    }
    var long := Melt2(seq(|w|, i requires 0 <= i < |w| => w[i].key),
                      seq(|w|, i requires 0 <= i < |w| && w[i].d21.Some? => w[i].d21.value),
                      seq(|w|, i requires 0 <= i < |w| && w[i].d31.Some? => w[i].d31.value),
                      TwoMinusOne, ThreeMinusOne);
    seq(|long|, i requires 0 <= i < |long| =>
      DiffRecord(long[i].id, long[i].variable, long[i].value, AbsOpt(Some(long[i].value)).value))
  }

  /** The whole of lines 46-62: `df_diff`. */
  function Differences(df: seq<Rating>): Result<seq<DiffRecord>, Pivot.Error<int>>
  {
    match Wide(df)
    case Err(e) => Err(e)
    case Ok(w) => Ok(Melted(DropNa(w)))
  }

  // ---------------------------------------------------------------------
  // Properties of df_diff

  /** A rating of the key in the session exists. */
  predicate SessionRated(df: seq<Rating>, key: RatingKey, session: int)
  {
    exists i :: 0 <= i < |df| && KeyOf(df[i]) == key && df[i].session == session
  }

  lemma SessionRatedIsRated(df: seq<Rating>, key: RatingKey, session: int)
    ensures SessionRated(df, key, session) <==> Pivot.Rated(Rows(df), key, session)
  {
    if SessionRated(df, key, session) {
      var i :| 0 <= i < |df| && KeyOf(df[i]) == key && df[i].session == session;
      assert Rows(df)[i].key == key && Rows(df)[i].column == session;
    }
  }

  /** A key is among the complete rows exactly when one of its rows is complete. */
  lemma DropNaKeys(w: seq<WideRow>, key: RatingKey)
    ensures (exists i :: 0 <= i < |DropNa(w)| && DropNa(w)[i].key == key)
            <==> (exists j :: 0 <= j < |w| && w[j].key == key && Complete(w[j]))
  {
    var d := DropNa(w);
    forall i | 0 <= i < |d| && d[i].key == key
      ensures exists j :: 0 <= j < |w| && w[j].key == key && Complete(w[j])
    {
      assert d[i] in w && Complete(d[i]);
      var j :| 0 <= j < |w| && w[j] == d[i];
      assert w[j].key == key && Complete(w[j]);
    }
    forall j | 0 <= j < |w| && w[j].key == key && Complete(w[j])
      ensures exists i :: 0 <= i < |d| && d[i].key == key
    {
      assert w[j] in d;
      var k :| 0 <= k < |d| && d[k] == w[j];
      assert d[k].key == key;
    }
  }

  /** A key survives dropna exactly when it was rated in sessions 1, 2 and 3. */
  lemma SurvivesIffAllSessions(df: seq<Rating>, key: RatingKey)
    requires Wide(df).Ok?
    ensures (exists i :: 0 <= i < |DropNa(Wide(df).value)| && DropNa(Wide(df).value)[i].key == key)
            <==> SessionRated(df, key, 1) && SessionRated(df, key, 2) && SessionRated(df, key, 3)
  {
    var rows := Rows(df);
    var w := Wide(df).value;
    var keys := Pivot.DistinctKeys(rows);
    DropNaKeys(w, key);
    SessionRatedIsRated(df, key, 1);
    SessionRatedIsRated(df, key, 2);
    SessionRatedIsRated(df, key, 3);
    if exists j :: 0 <= j < |w| && w[j].key == key && Complete(w[j]) {
      var j :| 0 <= j < |w| && w[j].key == key && Complete(w[j]);
      WideRowIsMeanChange(df, j);
    }
    if SessionRated(df, key, 1) && SessionRated(df, key, 2) && SessionRated(df, key, 3) {
      var i :| 0 <= i < |df| && KeyOf(df[i]) == key && df[i].session == 1;
      assert rows[i].key == key;
      var j :| 0 <= j < |keys| && keys[j] == key;
      WideRowIsMeanChange(df, j);
      assert w[j].key == key && Complete(w[j]);
    }
  }

  /**
   * The melted table: the first half are the "2-1" rows, the second half the
   * "3-1" rows, row i and row n + i carrying the same complete wide row's key
   * and its two differences, each with its absolute value.
   */
  lemma DifferencesShape(df: seq<Rating>, i: nat)
    requires Wide(df).Ok?
    requires i < |DropNa(Wide(df).value)|
    ensures var d := DropNa(Wide(df).value);
            var r := Differences(df).value;
            && |r| == 2 * |d|
            && r[i] == DiffRecord(d[i].key, TwoMinusOne, d[i].d21.value, Abs(d[i].d21.value))
            && r[|d| + i] == DiffRecord(d[i].key, ThreeMinusOne, d[i].d31.value, Abs(d[i].d31.value))
  {
  }

  /**
   * Each complete wide row's differences are the session means' changes:
   * "2-1" = mean(session 2) - mean(session 1), "3-1" = mean(session 3) - mean(session 1).
   */
  lemma WideRowIsMeanChange(df: seq<Rating>, i: nat)
    requires Wide(df).Ok? && i < |Wide(df).value|
    ensures var w := Wide(df).value[i];
            var rows := Rows(df);
            && (w.d21.Some? ==> w.d21.value == Pivot.Cell(rows, w.key, 2).value - Pivot.Cell(rows, w.key, 1).value)
            && (w.d31.Some? ==> w.d31.value == Pivot.Cell(rows, w.key, 3).value - Pivot.Cell(rows, w.key, 1).value)
            && (Complete(w) <==> Pivot.Rated(rows, w.key, 1) && Pivot.Rated(rows, w.key, 2) && Pivot.Rated(rows, w.key, 3))
  {
    var w := Wide(df).value[i];
    Pivot.CellMissing(Rows(df), w.key, 1);
    Pivot.CellMissing(Rows(df), w.key, 2);
    Pivot.CellMissing(Rows(df), w.key, 3);
  }

  /** difference_abs is never negative and equals the difference when that is. */
  lemma AbsoluteDifference(df: seq<Rating>, i: nat)
    requires Differences(df).Ok? && i < |Differences(df).value|
    ensures var r := Differences(df).value[i];
            r.differenceAbs >= 0.0 && (r.difference >= 0.0 ==> r.differenceAbs == r.difference)
            && (r.differenceAbs == r.difference || r.differenceAbs == -r.difference)
  {
  }

  // ---------------------------------------------------------------------
  // Player order and tick labels (lines 64-66 and 123)

  /** Python's ordering of str: lexicographic by code point, a proper prefix first. */
  predicate StrLess(a: string, b: string)
  {
    if |a| == 0 then |b| > 0
    else if |b| == 0 then false
    else if a[0] != b[0] then a[0] < b[0]
    else StrLess(a[1..], b[1..])
  }

  lemma {:induction false} StrLessIrreflexive(a: string)
    ensures !StrLess(a, a)
  {
    if |a| > 0 {
      StrLessIrreflexive(a[1..]);
    }
  }

  lemma {:induction false} StrLessTransitive(a: string, b: string, c: string)
    requires StrLess(a, b) && StrLess(b, c)
    ensures StrLess(a, c)
  {
    if |a| > 0 && |b| > 0 && |c| > 0 && a[0] == b[0] && b[0] == c[0] {
      StrLessTransitive(a[1..], b[1..], c[1..]);
    }
  }

  lemma {:induction false} StrLessTotal(a: string, b: string)
    requires a != b
    ensures StrLess(a, b) || StrLess(b, a)
  {
    if |a| > 0 && |b| > 0 && a[0] == b[0] {
      assert a == [a[0]] + a[1..] && b == [b[0]] + b[1..];
      StrLessTotal(a[1..], b[1..]);
    }
  }

  predicate StrictlySorted(s: seq<string>)
  {
    forall i, j :: 0 <= i < j < |s| ==> StrLess(s[i], s[j])
  }

  /** Insert a name into a strictly sorted list of distinct names, unless present. */
  function Insert(x: string, s: seq<string>): (r: seq<string>)
    requires StrictlySorted(s)
    ensures StrictlySorted(r)
    ensures forall y :: y in r <==> y == x || y in s
  {
    if |s| == 0 then [x]
    else if x == s[0] then s
    else if StrLess(x, s[0]) then
      assert forall j :: 0 < j < |s| ==> StrLess(x, s[j]) by {
        forall j | 0 < j < |s| ensures StrLess(x, s[j]) {
          StrLessTransitive(x, s[0], s[j]);
        }
      }
      [x] + s
    else
      StrLessTotal(x, s[0]);
      var t := Insert(x, s[1..]);
      assert forall y :: y in s <==> y == s[0] || y in s[1..] by {
        assert s == [s[0]] + s[1..];
      }
      assert forall j :: 0 <= j < |t| ==> StrLess(s[0], t[j]) by {
        forall j | 0 <= j < |t| ensures StrLess(s[0], t[j]) {
          assert t[j] in t;
          if t[j] != x {
            var k :| 0 <= k < |s[1..]| && s[1..][k] == t[j];
            assert s[k + 1] == t[j];
          }
        }
      }
      [s[0]] + t
  }

  /** `sorted(xs.unique())`: the distinct names in ascending order. */
  function SortedUnique(s: seq<string>): (r: seq<string>)
    ensures StrictlySorted(r)
    ensures forall y :: y in r <==> y in s
  {
    if |s| == 0 then []
    else
      var front := s[..|s| - 1];
      var r := Insert(s[|s| - 1], SortedUnique(front));
      assert forall y :: y in s <==> y in front || y == s[|s| - 1] by {
        assert s == front + [s[|s| - 1]];
      }
      r
  }

  /** A strictly sorted list has no repetition. */
  lemma SortedDistinct(s: seq<string>)
    requires StrictlySorted(s)
    ensures forall i, j :: 0 <= i < j < |s| ==> s[i] != s[j]
  {
    forall i, j | 0 <= i < j < |s| ensures s[i] != s[j] {
      StrLessIrreflexive(s[i]);
    }
  }

  /** Position of the first occurrence of `x`. */
  function FirstIndex(s: seq<string>, x: string): (k: nat)
    requires x in s
    ensures k < |s| && s[k] == x && forall j :: 0 <= j < k ==> s[j] != x
  {
    if s[0] == x then 0 else 1 + FirstIndex(s[1..], x)
  }

  /** `xs.unique()`: the distinct names, each at its first appearance. */
  function Unique(s: seq<string>): (r: seq<string>)
    ensures forall i, j :: 0 <= i < j < |r| ==> r[i] != r[j]
    ensures forall y :: y in r <==> y in s
    ensures forall i, j :: 0 <= i < j < |r| ==> FirstIndex(s, r[i]) < FirstIndex(s, r[j])
  {
    if |s| == 0 then []
    else
      var front := s[..|s| - 1];
      var last := s[|s| - 1];
      var u := Unique(front);
      assert s == front + [last];
      assert forall y :: y in front ==> FirstIndex(s, y) == FirstIndex(front, y) by {
        forall y | y in front ensures FirstIndex(s, y) == FirstIndex(front, y) {
          FirstIndexPrefix(front, [last], y);
        }
      }
      if last in u then u
      else
        assert last !in front;
        assert FirstIndex(s, last) == |s| - 1;
        u + [last]
  }

  lemma {:induction false} FirstIndexPrefix(a: seq<string>, b: seq<string>, x: string)
    requires x in a
    ensures x in a + b && FirstIndex(a + b, x) == FirstIndex(a, x)
  {
    if a[0] != x {
      assert (a + b)[1..] == a[1..] + b;
      FirstIndexPrefix(a[1..], b, x);
    }
  }

  /** The players of the rows in a scope, row order kept (duplicates included). */
  function PlayersIn(records: seq<DiffRecord>, scope: string): (r: seq<string>)
    ensures forall y :: y in r <==> exists i :: 0 <= i < |records| && records[i].key.scope == scope && records[i].key.player == y
  {
    if |records| == 0 then []
    else
      var rest := PlayersIn(records[1..], scope);
      assert forall i :: 1 <= i < |records| ==> records[i] == records[1..][i - 1];
      (if records[0].key.scope == scope then [records[0].key.player] else []) + rest
  }

  /** Players are read row by row: the rows of the scope give their players in order, each row once. */
  lemma {:induction false} PlayersInAppend(a: seq<DiffRecord>, b: seq<DiffRecord>, scope: string)
    ensures PlayersIn(a + b, scope) == PlayersIn(a, scope) + PlayersIn(b, scope)
    ensures |a| == 1 ==> PlayersIn(a, scope) == if a[0].key.scope == scope then [a[0].key.player] else []
  {
    if |a| == 0 {
      assert a + b == b;
    } else {
      var w := a + b;
      var head := if a[0].key.scope == scope then [a[0].key.player] else [];
      assert w[0] == a[0] && w[1..] == a[1..] + b;
      PlayersInAppend(a[1..], b, scope);
      assert PlayersIn(w, scope) == head + PlayersIn(w[1..], scope);
      assert PlayersIn(a, scope) == head + PlayersIn(a[1..], scope);
      if |a| == 1 {
        assert a[1..] == [];
      }
    }
  }

  /** Lines 64-66: control players in ascending order, then test players in order of appearance. */
  function PlayerOrder(records: seq<DiffRecord>): (r: seq<string>)
    ensures var c := SortedUnique(PlayersIn(records, "control"));
            var t := Unique(PlayersIn(records, "test"));
            |r| == |c| + |t| && r[..|c|] == c && r[|c|..] == t
  {
    var c := SortedUnique(PlayersIn(records, "control"));
    var t := Unique(PlayersIn(records, "test"));
    assert (c + t)[..|c|] == c && (c + t)[|c|..] == t;
    c + t
  }

  /** The character of a decimal digit. */
  function Digit(d: nat): char
    requires d < 10
  {
    "0123456789"[d]
  }

  /** The value of a decimal digit character. */
  function DigitValue(c: char): nat
  {
    if '0' <= c <= '9' then (c as int - '0' as int) as nat else 0
  }

  /** `str(n)` for a natural number. */
  function DecimalString(n: nat): (s: string)
    ensures |s| > 0
    ensures forall i :: 0 <= i < |s| ==> '0' <= s[i] <= '9'
    ensures |s| > 1 ==> s[0] != '0'
  {
    if n < 10 then [Digit(n)] else DecimalString(n / 10) + [Digit(n % 10)]
  }

  /** Reading a decimal string back. */
  function DecimalValue(s: string): nat
  {
    if |s| == 0 then 0 else 10 * DecimalValue(s[..|s| - 1]) + DigitValue(s[|s| - 1])
  }

  /** `int(str(n)) == n`: the tick label names its position. */
  lemma {:induction false} DecimalRoundTrip(n: nat)
    ensures DecimalValue(DecimalString(n)) == n
  {
    var s := DecimalString(n);
    if n < 10 {
      assert s[..|s| - 1] == [];
    } else {
      assert s[..|s| - 1] == DecimalString(n / 10);
      DecimalRoundTrip(n / 10);
    }
  }

  /** Line 123: "1", ..., "k" for k control players, then "Test". */
  function TickLabels(controlCount: nat): (r: seq<string>)
    ensures |r| == controlCount + 1 && r[controlCount] == "Test"
    ensures forall i :: 0 <= i < controlCount ==> r[i] == DecimalString(i + 1) && DecimalValue(r[i]) == i + 1
  {
    var labels := seq(controlCount, i requires 0 <= i < controlCount => DecimalString(i + 1));
    assert forall i :: 0 <= i < controlCount ==> DecimalValue(labels[i]) == i + 1 by {
      forall i | 0 <= i < controlCount ensures DecimalValue(labels[i]) == i + 1 {
        DecimalRoundTrip(i + 1);
      }
    }
    labels + ["Test"]
  }

  /**
   * There are as many tick labels as players on the axis exactly when one
   * test player appears: the labels assume a single test violinist.
   */
  lemma TickLabelsMatchPlayers(records: seq<DiffRecord>)
    ensures var c := SortedUnique(PlayersIn(records, "control"));
            |TickLabels(|c|)| == |PlayerOrder(records)| <==> |Unique(PlayersIn(records, "test"))| == 1
  {
    var c := SortedUnique(PlayersIn(records, "control"));
    var r := PlayerOrder(records);
    assert |r| == |r[..|c|]| + |r[|c|..]|;
  }
}
