/** The score table of the refinement rounds and the two things src/data.py
    and src/util.py compute from it: the reassignment rule of
    `Data._improve` and the `get_rms` quality measure. */
module Scoring {
  import opened Wrappers
  import opened Seqs
  import opened Numeric
  import opened Detections

  /** The scorer's prediction for a table: one column per track ID the
      scorer was trained on (-1 included), and a score for every row label
      and column. The scorer predicts on the table it was trained on, so
      every lookup the tracker makes is defined; `at` is total. */
  datatype Scores = Scores(columns: seq<int>, at: (int, int) -> real)

  /** The scores of one row, as a function of the column. */
  function RowScore(s: Scores, name: int): int -> real
  {
    (c: int) => s.at(name, c)
  }

  // ---------------------------------------------------------------------------
  // Ranking the columns of a row (src/data.py:62-64)

  /** Position `i` comes first in a descending order obtained by reversing a
      stable ascending argsort: its score is maximal, and every later
      column scores strictly less. */
  predicate IsTop(cols: seq<int>, f: int -> real, i: int)
  {
    && 0 <= i < |cols|
    && (forall j :: 0 <= j < |cols| ==> f(cols[j]) <= f(cols[i]))
    && (forall j :: i < j < |cols| ==> f(cols[j]) < f(cols[i]))
  }

  /** Position `j` comes second when `i` comes first: the same rule applied
      to every position but `i`. */
  predicate IsSecond(cols: seq<int>, f: int -> real, i: int, j: int)
  {
    && 0 <= j < |cols| && j != i
    && (forall k :: 0 <= k < |cols| && k != i ==> f(cols[k]) <= f(cols[j]))
    && (forall k :: j < k < |cols| && k != i ==> f(cols[k]) < f(cols[j]))
  }

  /** The position of the maximal score, the last one on a tie. */
  function LastMax(cols: seq<int>, f: int -> real): (i: nat)
    requires |cols| > 0
    ensures IsTop(cols, f, i)
  {
    if |cols| == 1 then 0
    else
      var k := LastMax(cols[..|cols| - 1], f);
      if f(cols[|cols| - 1]) >= f(cols[k]) then |cols| - 1 else k
  }

  /** The first two positions of the reversed argsort. */
  function Ranks(cols: seq<int>, f: int -> real): (r: (nat, nat))
    requires |cols| >= 2
    ensures IsTop(cols, f, r.0)
    ensures IsSecond(cols, f, r.0, r.1)
  {
    var i := LastMax(cols, f);
    var others := cols[..i] + cols[i + 1..];
    var k := LastMax(others, f);
    var j := if k < i then k else k + 1;
    forall m | 0 <= m < |cols| && m != i
      ensures f(cols[m]) <= f(cols[j])
    {
      if m < i {
        assert others[m] == cols[m];
      } else {
        assert others[m - 1] == cols[m];
      }
    }
    forall m | j < m < |cols| && m != i
      ensures f(cols[m]) < f(cols[j])
    {
      if m < i {
        assert others[m] == cols[m];
      } else {
        assert others[m - 1] == cols[m];
      }
    }
    (i, j)
  }

  /** Only one position comes first. */
  lemma TopUnique(cols: seq<int>, f: int -> real, i: int, k: int)
    requires IsTop(cols, f, i) && IsTop(cols, f, k)
    ensures i == k
  {
    assert f(cols[k]) == f(cols[i]);
  }

  /** Only one position comes second after a given first. */
  lemma SecondUnique(cols: seq<int>, f: int -> real, i: int, j: int, k: int)
    requires IsSecond(cols, f, i, j) && IsSecond(cols, f, i, k)
    ensures j == k
  {
    assert f(cols[k]) == f(cols[j]);
  }

  // ---------------------------------------------------------------------------
  // The reassignment rule (src/data.py:66-71)

  /** The new ID of row `d`: the top column when its score exceeds 0.8 or it
      differs from the row's current ID, the second column otherwise. Every
      table with a first and a second column ranked as above gets the same
      answer. */
  function NewId(s: Scores, d: Detection): (r: int)
    requires |s.columns| >= 2
    ensures r in s.columns
    ensures forall i, j ::
      (IsTop(s.columns, RowScore(s, d.row), i) && IsSecond(s.columns, RowScore(s, d.row), i, j)) ==>
      r == if s.at(d.row, s.columns[i]) > 0.8 || s.columns[i] != d.id
           then s.columns[i] else s.columns[j]
  {
    var f := RowScore(s, d.row);
    var (i, j) := Ranks(s.columns, f);
    forall i', j' | IsTop(s.columns, f, i') && IsSecond(s.columns, f, i', j')
      ensures i' == i && j' == j
    {
      TopUnique(s.columns, f, i, i');
      SecondUnique(s.columns, f, i, j, j');
    }
    var first := s.columns[i];
    if s.at(d.row, first) > 0.8 || first != d.id then first else s.columns[j]
  }

  /** With distinct columns (the scorer's one-hot columns are), a row keeps
      its ID exactly when its ID is the top column and scores above 0.8;
      when the top column is its own ID at 0.8 or below, it moves to the
      second column. */
  lemma KeepsIdIff(s: Scores, d: Detection)
    requires |s.columns| >= 2 && Distinct(s.columns)
    ensures NewId(s, d) == d.id <==>
      exists i :: IsTop(s.columns, RowScore(s, d.row), i)
               && s.columns[i] == d.id && s.at(d.row, d.id) > 0.8
  {
    var f := RowScore(s, d.row);
    var (i, j) := Ranks(s.columns, f);
    if s.at(d.row, s.columns[i]) <= 0.8 && s.columns[i] == d.id {
      assert NewId(s, d) == s.columns[j];
      assert s.columns[j] != s.columns[i];
    }
    forall k | IsTop(s.columns, f, k)
      ensures k == i
    {
      TopUnique(s.columns, f, i, k);
    }
  }

  /** The rule applied to every row: a table needs at least two columns for
      the first and second ranks to exist (pandas refuses the one-column
      rank table). Only the ID column changes, and every new ID is a
      column. */
  function Reassign(rows: seq<Detection>, s: Scores): (r: Result<seq<Detection>>)
    ensures r.Err? <==> |s.columns| < 2
    ensures r.Ok? ==> SameButIds(rows, r.value)
    ensures r.Ok? ==> forall i :: 0 <= i < |rows| ==>
      r.value[i].id == NewId(s, rows[i]) && r.value[i].id in s.columns
  {
    if |s.columns| < 2 then Err(ValueError("Shape of passed values does not match indices"))
    else Ok(seq(|rows|, i requires 0 <= i < |rows| => rows[i].(id := NewId(s, rows[i]))))
  }

  // ---------------------------------------------------------------------------
  // get_rms (src/util.py:71-77)

  /** `sqrt` is an input: the non-negative square root on non-negative reals. */
  ghost predicate IsRoot(root: real -> real)
  {
    forall x :: x >= 0.0 ==> root(x) >= 0.0 && Sq(root(x)) == x
  }

  function NotRejectColumn(c: int): bool
  {
    c != Reject
  }

  function HasId(id: int): Detection -> bool
  {
    (d: Detection) => d.id == id
  }

  /** The rows currently holding the ID `id`. */
  function Members(rows: seq<Detection>, id: int): seq<Detection>
  {
    Filter(rows, HasId(id))
  }

  /** The squared miss `(1 - score)^2` of a row in column `c`. */
  function Miss(s: Scores, c: int): Detection -> real
  {
    (d: Detection) => Sq(1.0 - s.at(d.row, c))
  }

  function Misses(rows: seq<Detection>, s: Scores, c: int): seq<real>
  {
    Map(Members(rows, c), Miss(s, c))
  }

  /** The root mean squared miss of column `c` over the rows holding `c`;
      0 when there are none (a case `GetRms` reports as NaN itself). */
  function ColumnRms(rows: seq<Detection>, s: Scores, root: real -> real, c: int): real
  {
    var m := Misses(rows, s, c);
    if m == [] then 0.0 else root(Mean(m))
  }

  function ColumnRmsOf(rows: seq<Detection>, s: Scores, root: real -> real): int -> real
  {
    (c: int) => ColumnRms(rows, s, root, c)
  }

  /** The track columns: every column but -1. */
  function TrackColumns(s: Scores): (cs: seq<int>)
    ensures forall c :: c in cs <==> c in s.columns && c != Reject
  {
    Filter(s.columns, NotRejectColumn)
  }

  /** No track column is left exactly when every column is -1. */
  lemma NoTrackColumns(s: Scores)
    ensures TrackColumns(s) == [] <==> forall c :: c in s.columns ==> c == Reject
  {
    if TrackColumns(s) != [] {
      assert TrackColumns(s)[0] in TrackColumns(s);
    }
  }

  /** `get_rms`: the unweighted average over the track columns of the
      per-column root mean squared miss. No track column is a division by
      zero; a track column no row holds has a NaN mean, which makes the
      average NaN. */
  function GetRms(rows: seq<Detection>, s: Scores, root: real -> real): (r: Result<Ext>)
    ensures r.Err? <==> forall c :: c in s.columns ==> c == Reject
    ensures r.Err? ==> r.error == ZeroDivisionError
    ensures r == Ok(NaN) <==>
      (exists c :: c in s.columns && c != Reject) &&
      (exists c :: c in s.columns && c != Reject && Members(rows, c) == [])
    ensures r.Ok? ==> r.value.NaN? || r.value.Finite?
  {
    var cs := TrackColumns(s);
    NoTrackColumns(s);
    if cs == [] then Err(ZeroDivisionError)
    else if exists c :: c in cs && Members(rows, c) == [] then Ok(NaN)
    else Ok(Finite(RmsAverage(rows, s, root)))
  }

  /** The average of the per-column RMS values over the track columns. */
  function RmsAverage(rows: seq<Detection>, s: Scores, root: real -> real): real
    requires TrackColumns(s) != []
  {
    Mean(Map(TrackColumns(s), ColumnRmsOf(rows, s, root)))
  }

  // ---------------------------------------------------------------------------
  // Properties of get_rms

  lemma MissNonNegative(rows: seq<Detection>, s: Scores, c: int)
    ensures forall x :: x in Misses(rows, s, c) ==> x >= 0.0
  {
    var m := Misses(rows, s, c);
    forall x | x in m
      ensures x >= 0.0
    {
      var k :| 0 <= k < |m| && m[k] == x;
      SquarePositive(1.0 - s.at(Members(rows, c)[k].row, c));
    }
  }

  lemma ColumnRmsNonNegative(rows: seq<Detection>, s: Scores, root: real -> real, c: int)
    requires IsRoot(root)
    ensures ColumnRms(rows, s, root, c) >= 0.0
  {
    var m := Misses(rows, s, c);
    if m != [] {
      MissNonNegative(rows, s, c);
      SumNonNegative(m);
      MeanSign(m);
    }
  }

  /** A finite `get_rms` is non-negative. */
  lemma RmsNonNegative(rows: seq<Detection>, s: Scores, root: real -> real)
    requires IsRoot(root)
    ensures GetRms(rows, s, root).Ok? && GetRms(rows, s, root).value.Finite? ==>
      GetRms(rows, s, root).value.value >= 0.0
  {
    if TrackColumns(s) != [] {
      AverageNonNegative(rows, s, root);
    }
  }

  lemma PerColumnNonNegative(rows: seq<Detection>, s: Scores, root: real -> real)
    requires IsRoot(root)
    ensures forall x :: x in Map(TrackColumns(s), ColumnRmsOf(rows, s, root)) ==> x >= 0.0
  {
    var cs := TrackColumns(s);
    var per := Map(cs, ColumnRmsOf(rows, s, root));
    forall x | x in per
      ensures x >= 0.0
    {
      var k :| 0 <= k < |per| && per[k] == x;
      ColumnRmsNonNegative(rows, s, root, cs[k]);
    }
  }

  lemma AverageNonNegative(rows: seq<Detection>, s: Scores, root: real -> real)
    requires IsRoot(root) && TrackColumns(s) != []
    ensures RmsAverage(rows, s, root) >= 0.0
  {
    PerColumnNonNegative(rows, s, root);
    SumNonNegative(Map(TrackColumns(s), ColumnRmsOf(rows, s, root)));
    MeanSign(Map(TrackColumns(s), ColumnRmsOf(rows, s, root)));
  }

  /** Every row holding the track ID `c` scores exactly 1 in column `c`. */
  predicate PerfectColumn(rows: seq<Detection>, s: Scores, c: int)
  {
    forall d :: d in rows && d.id == c ==> s.at(d.row, c) == 1.0
  }

  lemma RootZeroIff(root: real -> real, m: real)
    requires IsRoot(root) && m >= 0.0
    ensures root(m) == 0.0 <==> m == 0.0
  {
    SquarePositive(root(m));
  }

  lemma MissesZeroIff(rows: seq<Detection>, s: Scores, c: int)
    ensures (forall x :: x in Misses(rows, s, c) ==> x == 0.0) <==> PerfectColumn(rows, s, c)
  {
    var ms := Members(rows, c);
    var m := Misses(rows, s, c);
    if forall x :: x in m ==> x == 0.0 {
      forall d | d in rows && d.id == c
        ensures s.at(d.row, c) == 1.0
      {
        assert d in ms;
        var k :| 0 <= k < |ms| && ms[k] == d;
        assert m[k] == Sq(1.0 - s.at(d.row, c));
        assert m[k] in m;
        SquarePositive(1.0 - s.at(d.row, c));
      }
    }
    if PerfectColumn(rows, s, c) {
      forall x | x in m
        ensures x == 0.0
      {
        var k :| 0 <= k < |m| && m[k] == x;
        assert ms[k] in ms;
      }
    }
  }

  /** A column's RMS is zero exactly when its rows all score 1 in it. */
  lemma ColumnRmsZeroIff(rows: seq<Detection>, s: Scores, root: real -> real, c: int)
    requires IsRoot(root)
    ensures ColumnRms(rows, s, root, c) == 0.0 <==> PerfectColumn(rows, s, c)
  {
    var m := Misses(rows, s, c);
    MissesZeroIff(rows, s, c);
    if m != [] {
      MissNonNegative(rows, s, c);
      SumZeroIff(m);
      SumNonNegative(m);
      MeanSign(m);
      RootZeroIff(root, Mean(m));
    }
  }

  /** A finite `get_rms` is zero exactly when every row holding a track ID
      scores exactly 1 in its own column. */
  lemma RmsZeroIff(rows: seq<Detection>, s: Scores, root: real -> real)
    requires IsRoot(root)
    requires GetRms(rows, s, root).Ok? && GetRms(rows, s, root).value.Finite?
    ensures GetRms(rows, s, root).value.value == 0.0 <==>
      forall c :: c in s.columns && c != Reject ==> PerfectColumn(rows, s, c)
  {
    assert TrackColumns(s) != [];
    assert GetRms(rows, s, root).value.value == RmsAverage(rows, s, root);
    AverageZeroIff(rows, s, root);
    forall c | c in s.columns && c != Reject
      ensures c in TrackColumns(s)
    {
      assert NotRejectColumn(c);
    }
  }

  lemma AverageZeroIff(rows: seq<Detection>, s: Scores, root: real -> real)
    requires IsRoot(root) && TrackColumns(s) != []
    ensures RmsAverage(rows, s, root) == 0.0 <==>
      forall c :: c in TrackColumns(s) ==> PerfectColumn(rows, s, c)
  {
    var cs := TrackColumns(s);
    var per := Map(cs, ColumnRmsOf(rows, s, root));
    PerColumnNonNegative(rows, s, root);
    SumZeroIff(per);
    MeanSign(per);
    forall c | c in cs
      ensures ColumnRms(rows, s, root, c) == 0.0 <==> PerfectColumn(rows, s, c)
    {
      ColumnRmsZeroIff(rows, s, root, c);
    }
    forall c | c in cs
      ensures ColumnRms(rows, s, root, c) in per
    {
      var k :| 0 <= k < |cs| && cs[k] == c;
      assert per[k] == ColumnRms(rows, s, root, c);
    }
    forall x | x in per
      ensures exists c :: c in cs && x == ColumnRms(rows, s, root, c)
    {
      var k :| 0 <= k < |per| && per[k] == x;
      assert cs[k] in cs;
    }
  }
}
