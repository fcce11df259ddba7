/** The rows of the tracker's table: one detected cell outline per row. */
module Detections {
  import opened Wrappers
  import opened Seqs
  import opened Numeric
  import opened Geometry

  /** The ID of the reject bucket: rows that belong to no track. */
  const Reject: int := -1

  /** One row of the table. `row` is the row label (the " " row-number
      column the tracker sorts by); `aspect` is the AspectRatio column and
      `time` the Time column, absent until `add_time` has run. */
  datatype Detection = Detection(
    row: int,
    slice: int,
    x: real,
    y: real,
    major: real,
    minor: real,
    angle: real,
    aspect: Ext,
    id: int,
    time: Option<real>)

  function Pos(d: Detection): Point
  {
    Point(d.x, d.y)
  }

  function MajorOf(d: Detection): real
  {
    d.major
  }

  function Majors(rows: seq<Detection>): seq<real>
  {
    Map(rows, MajorOf)
  }

  function LabelOf(d: Detection): int
  {
    d.row
  }

  function LabelKey(d: Detection): real
  {
    d.row as real
  }

  function LabelSet(rows: seq<Detection>): set<int>
  {
    set d | d in rows :: d.row
  }

  /** The rows stably ordered by row label (`sort_values(by=" ")`). */
  function SortByLabel(rows: seq<Detection>): seq<Detection>
  {
    SortBy(rows, LabelKey)
  }

  /** The row with its ID column cleared to the reject bucket: two rows that
      agree here differ at most in their ID. */
  function Anonymous(d: Detection): Detection
  {
    d.(id := Reject)
  }

  function WithId(d: Detection, id: int): Detection
  {
    d.(id := id)
  }

  /** Every row of `rows` given the ID `id` (`df["ID"] = id`). */
  function Relabel(rows: seq<Detection>, id: int): (r: seq<Detection>)
    ensures |r| == |rows|
    ensures forall i :: 0 <= i < |r| ==> r[i] == rows[i].(id := id)
  {
    seq(|rows|, i requires 0 <= i < |rows| => WithId(rows[i], id))
  }

  /** Row labels identify rows: the pandas index of the table is unique. */
  predicate DistinctLabels(rows: seq<Detection>)
  {
    forall i, j :: 0 <= i < j < |rows| ==> rows[i].row != rows[j].row
  }

  /** `b` differs from `a` at most in the ID column, row by row. */
  predicate SameButIds(a: seq<Detection>, b: seq<Detection>)
  {
    |a| == |b| && forall i :: 0 <= i < |a| ==> b[i] == a[i].(id := b[i].id)
  }

  lemma SameButIdsRefl(a: seq<Detection>)
    ensures SameButIds(a, a)
  {
  }

  /** Changing only IDs, twice, changes only IDs. */
  lemma SameButIdsTrans(a: seq<Detection>, b: seq<Detection>, c: seq<Detection>)
    requires SameButIds(a, b) && SameButIds(b, c)
    ensures SameButIds(a, c)
  {
    forall i | 0 <= i < |a|
      ensures c[i] == a[i].(id := c[i].id)
    {
      assert b[i] == a[i].(id := b[i].id);
    }
  }

  lemma SameLabelSameRow(rows: seq<Detection>, a: Detection, b: Detection)
    requires DistinctLabels(rows)
    requires a in rows && b in rows && a.row == b.row
    ensures a == b
  {
    var i :| 0 <= i < |rows| && rows[i] == a;
    var j :| 0 <= j < |rows| && rows[j] == b;
    assert rows[i].row == rows[j].row;
    assert i == j;
  }

  lemma DistinctTail(rows: seq<Detection>)
    requires rows != [] && DistinctLabels(rows)
    ensures DistinctLabels(rows[1..])
    ensures forall x :: x in rows[1..] ==> x.row != rows[0].row
  {
    var t := rows[1..];
    forall i, j | 0 <= i < j < |t|
      ensures t[i].row != t[j].row
    {
      assert t[i] == rows[i + 1] && t[j] == rows[j + 1];
    }
    forall x | x in t
      ensures x.row != rows[0].row
    {
      var k :| 0 <= k < |t| && t[k] == x;
      assert rows[k + 1] == x;
    }
  }

  lemma DistinctCons(x: Detection, t: seq<Detection>)
    requires DistinctLabels(t)
    requires forall y :: y in t ==> y.row != x.row
    ensures DistinctLabels([x] + t)
  {
    var r := [x] + t;
    forall i, j | 0 <= i < j < |r|
      ensures r[i].row != r[j].row
    {
      assert r[j] == t[j - 1];
      if i > 0 {
        assert r[i] == t[i - 1];
      }
    }
  }

  lemma {:induction false} FilterKeepsDistinct(rows: seq<Detection>, p: Detection -> bool)
    requires DistinctLabels(rows)
    ensures DistinctLabels(Filter(rows, p))
  {
    if rows != [] {
      var t := rows[1..];
      DistinctTail(rows);
      FilterKeepsDistinct(t, p);
      if p(rows[0]) {
        DistinctCons(rows[0], Filter(t, p));
      }
    }
  }

  /** In a table with unique labels every row occurs once. */
  lemma {:induction false} DistinctCount(rows: seq<Detection>, x: Detection)
    requires DistinctLabels(rows)
    ensures multiset(rows)[x] == if x in rows then 1 else 0
  {
    if rows != [] {
      var t := rows[1..];
      assert rows == [rows[0]] + t;
      DistinctTail(rows);
      DistinctCount(t, x);
    }
  }

  /** Two tables with unique labels holding the same rows are permutations
      of each other. */
  lemma SameRowsPermutation(a: seq<Detection>, b: seq<Detection>)
    requires DistinctLabels(a) && DistinctLabels(b)
    requires forall x :: x in a <==> x in b
    ensures multiset(a) == multiset(b)
  {
    forall x
      ensures multiset(a)[x] == multiset(b)[x]
    {
      DistinctCount(a, x);
      DistinctCount(b, x);
    }
  }
}
