/** The greedy grouper: `group` (src/util.py), which cuts one group of
    detections out of the pool around a seed, and `Data.sort`
    (src/data.py), which repeats it until the pool is empty and turns the
    groups into tracks and rejects. */
module Grouping {
  import opened Wrappers
  import opened Seqs
  import opened Numeric
  import opened Geometry
  import opened Detections

  // ---------------------------------------------------------------------------
  // One call of `group`

  /** `d` is at minimal distance from `c` among the rows of `pool` that share
      its frame (`groupby("Slice")["Distance"].transform(min) == Distance`);
      distances are compared through their squares. */
  predicate FrameNearest(pool: seq<Detection>, c: Point, d: Detection)
  {
    forall e :: e in pool && e.slice == d.slice ==> Dist2(c, Pos(d)) <= Dist2(c, Pos(e))
  }

  function IsFrameNearest(pool: seq<Detection>, c: Point): Detection -> bool
  {
    (d: Detection) => FrameNearest(pool, c, d)
  }

  /** Every row tied for the per-frame minimum distance from `c`. */
  function Nearest(pool: seq<Detection>, c: Point): (r: seq<Detection>)
    ensures forall d :: d in r ==> d in pool && FrameNearest(pool, c, d)
    ensures forall d :: d in pool && FrameNearest(pool, c, d) ==> d in r
    ensures |r| <= |pool|
    ensures DistinctLabels(pool) ==> DistinctLabels(r)
  {
    if DistinctLabels(pool) then
      FilterKeepsDistinct(pool, IsFrameNearest(pool, c));
      Filter(pool, IsFrameNearest(pool, c))
    else
      Filter(pool, IsFrameNearest(pool, c))
  }

  function CloseTo(c: Point, length: real): Detection -> bool
  {
    (d: Detection) => Within(c, Pos(d), length)
  }

  /** `distance(c, d) <= rows.Major.quantile(0.9)`; an empty `rows` has a NaN
      quantile, which no distance is below. */
  predicate WithinLength(rows: seq<Detection>, c: Point, d: Detection)
  {
    var q := Quantile(Majors(rows), 0.9);
    q.Some? && Within(c, Pos(d), q.value)
  }

  /** The proximity filter of src/util.py:33 and src/util.py:41. */
  function ProximityFilter(near: seq<Detection>, c: Point): (r: seq<Detection>)
    ensures forall d :: d in r <==> d in near && WithinLength(near, c, d)
    ensures |r| <= |near|
    ensures DistinctLabels(near) ==> DistinctLabels(r)
  {
    match Quantile(Majors(near), 0.9)
    case None => []
    case Some(length) =>
      if DistinctLabels(near) then
        FilterKeepsDistinct(near, CloseTo(c, length));
        Filter(near, CloseTo(c, length))
      else
        Filter(near, CloseTo(c, length))
  }

  function NotLarger(limit: real): Detection -> bool
  {
    (d: Detection) => d.major <= limit
  }

  /** `d.Major <= 1.3 * rows.Major.quantile(0.5)`, false for an empty `rows`. */
  predicate NotOversized(rows: seq<Detection>, d: Detection)
  {
    var m := Quantile(Majors(rows), 0.5);
    m.Some? && d.major <= 1.3 * m.value
  }

  /** The size filter of src/util.py:42. */
  function SizeFilter(rows: seq<Detection>): (r: seq<Detection>)
    ensures forall d :: d in r <==> d in rows && NotOversized(rows, d)
    ensures |r| <= |rows|
    ensures DistinctLabels(rows) ==> DistinctLabels(r)
  {
    match Quantile(Majors(rows), 0.5)
    case None => []
    case Some(median) =>
      if DistinctLabels(rows) then
        FilterKeepsDistinct(rows, NotLarger(1.3 * median));
        Filter(rows, NotLarger(1.3 * median))
      else
        Filter(rows, NotLarger(1.3 * median))
  }

  /** Pass 1: per-frame nearest rows to the seed (the pool's first row), then
      the proximity filter. */
  function FirstPass(pool: seq<Detection>): seq<Detection>
    requires |pool| > 0
  {
    var seed := Pos(pool[0]);
    ProximityFilter(Nearest(pool, seed), seed)
  }

  /** The centre of pass 2: the mean position of pass 1, or NaN coordinates
      (`None`) when pass 1 kept nothing. */
  function SecondCentre(pool: seq<Detection>): Option<Point>
    requires |pool| > 0
  {
    var first := FirstPass(pool);
    if first == [] then None else Some(Centroid(Map(first, Pos)))
  }

  /** The three conditions of pass 2 on a row `d` of the pool, with centre
      `c`: it is a per-frame nearest row to `c`; it lies within the
      0.9-quantile Major of those nearest rows; and its Major is at most 1.3
      times the median Major of the rows that passed the proximity filter. */
  predicate PassesFilters(pool: seq<Detection>, c: Point, d: Detection)
  {
    && d in pool
    && FrameNearest(pool, c, d)
    && WithinLength(Nearest(pool, c), c, d)
    && NotOversized(ProximityFilter(Nearest(pool, c), c), d)
  }

  /** Pass 2: per-frame nearest rows to the centre, the proximity filter and
      the size filter. NaN distances from a NaN centre are never a minimum,
      so a missing centre keeps nothing. */
  function SecondPass(pool: seq<Detection>): (r: seq<Detection>)
    requires |pool| > 0
    ensures SecondCentre(pool).None? ==> r == []
    ensures SecondCentre(pool).Some? ==>
      forall d :: d in r <==> PassesFilters(pool, SecondCentre(pool).value, d)
    ensures forall d :: d in r ==> d in pool
    ensures |r| <= |pool|
    ensures DistinctLabels(pool) ==> DistinctLabels(r)
  {
    match SecondCentre(pool)
    case None => []
    case Some(c) => SizeFilter(ProximityFilter(Nearest(pool, c), c))
  }

  function Inside(labels: set<int>): Detection -> bool
  {
    (d: Detection) => d.row in labels
  }

  function Outside(labels: set<int>): Detection -> bool
  {
    (d: Detection) => d.row !in labels
  }

  /** The result of `group`: the remaining pool and the new group. */
  datatype Split = Split(rest: seq<Detection>, group: seq<Detection>)

  /** `group(cells)`: pass 2's rows, or the first row alone when pass 2 kept
      nothing; the remaining pool drops the group's row labels. */
  function Group(pool: seq<Detection>): (r: Split)
    requires |pool| > 0
    ensures r.group != []
    ensures forall d :: d in r.group ==> d in pool
    ensures |r.group| <= |pool|
    ensures forall d :: d in r.rest <==> d in pool && d.row !in LabelSet(r.group)
    ensures |r.rest| < |pool|
  {
    var found := SecondPass(pool);
    var group := if found == [] then [pool[0]] else found;
    assert group[0] in pool && group[0].row in LabelSet(group);
    FilterShrinks(pool, Outside(LabelSet(group)), group[0]);
    Split(Filter(pool, Outside(LabelSet(group))), group)
  }

  /** The seed is a per-frame nearest row to itself: its distance is 0. */
  lemma SeedNearest(pool: seq<Detection>)
    requires |pool| > 0
    ensures pool[0] in Nearest(pool, Pos(pool[0]))
  {
    var seed := Pos(pool[0]);
    DistanceLaws(seed, seed);
    forall e | e in pool && e.slice == pool[0].slice
      ensures Dist2(seed, Pos(pool[0])) <= Dist2(seed, Pos(e))
    {
      DistanceLaws(seed, Pos(e));
    }
  }

  /** The 0.9-quantile of non-negative lengths is defined and non-negative. */
  lemma LengthNonNegative(rows: seq<Detection>)
    requires rows != []
    requires forall d :: d in rows ==> d.major >= 0.0
    ensures Quantile(Majors(rows), 0.9).Some?
    ensures Quantile(Majors(rows), 0.9).value >= 0.0
  {
    var q := Quantile(Majors(rows), 0.9);
    assert Majors(rows)[0] == rows[0].major;
    var x :| x in Majors(rows) && x <= q.value;
    var i :| 0 <= i < |rows| && Majors(rows)[i] == x;
    assert rows[i] in rows;
  }

  /** A point is within any non-negative length of itself. */
  lemma WithinItself(c: Point, length: real)
    requires length >= 0.0
    ensures Within(c, c, length)
  {
    DistanceLaws(c, c);
    SquarePositive(length);
  }

  /** With non-negative Major values, pass 1 keeps the seed: its distance 0 is
      a per-frame minimum and within the 0.9-quantile of non-negative
      lengths. So the centre of pass 2 always exists. */
  lemma SeedKept(pool: seq<Detection>)
    requires |pool| > 0
    requires forall d :: d in pool ==> d.major >= 0.0
    ensures pool[0] in FirstPass(pool)
    ensures SecondCentre(pool).Some?
  {
    var seed := Pos(pool[0]);
    var near := Nearest(pool, seed);
    SeedNearest(pool);
    LengthNonNegative(near);
    WithinItself(seed, Quantile(Majors(near), 0.9).value);
    assert WithinLength(near, seed, pool[0]);
  }

  /** The group is never empty. When some pool row passes the three
      conditions of pass 2 the group is exactly those rows; otherwise it is
      exactly the pool's first row. */
  lemma GroupShape(pool: seq<Detection>)
    requires |pool| > 0
    ensures var g := Group(pool).group;
      var centre := SecondCentre(pool);
      if centre.Some? && exists d :: PassesFilters(pool, centre.value, d)
      then forall d :: d in g <==> PassesFilters(pool, centre.value, d)
      else g == [pool[0]]
  {
    var found := SecondPass(pool);
    if found != [] {
      assert PassesFilters(pool, SecondCentre(pool).value, found[0]);
    }
  }

  /** `group` splits the pool: the remaining pool and the group share no row,
      and together hold exactly the rows of the input. */
  lemma GroupSplitsPool(pool: seq<Detection>)
    requires |pool| > 0 && DistinctLabels(pool)
    ensures var r := Group(pool);
      && multiset(r.group) + multiset(r.rest) == multiset(pool)
      && (forall d :: d in r.rest ==> d !in r.group)
      && DistinctLabels(r.rest)
      && DistinctLabels(r.group)
  {
    var r := Group(pool);
    var labels := LabelSet(r.group);
    var inside := Filter(pool, Inside(labels));
    FilterSplit(pool, Inside(labels), Outside(labels));
    FilterKeepsDistinct(pool, Inside(labels));
    FilterKeepsDistinct(pool, Outside(labels));
    forall x
      ensures x in inside <==> x in r.group
    {
      if x in inside {
        var y :| y in r.group && y.row == x.row;
        SameLabelSameRow(pool, x, y);
      }
    }
    SameRowsPermutation(inside, r.group);
  }

  // ---------------------------------------------------------------------------
  // The loop of `sort`

  /** The groups `sort` collects, in order: `group` applied to the pool until
      it is empty. The pool shrinks with every call, so the loop ends. */
  function Groups(pool: seq<Detection>): seq<seq<Detection>>
    decreases |pool|
  {
    if pool == [] then []
    else
      var r := Group(pool);
      [r.group] + Groups(r.rest)
  }

  /** Nothing is lost and nothing duplicated: the groups together hold exactly
      the rows of the pool. */
  lemma {:induction false} GroupsPartition(pool: seq<Detection>)
    requires DistinctLabels(pool)
    ensures multiset(Flatten(Groups(pool))) == multiset(pool)
    decreases |pool|
  {
    if pool != [] {
      var r := Group(pool);
      GroupSplitsPool(pool);
      GroupsPartition(r.rest);
      FlattenCons(r.group, Groups(r.rest));
    }
  }

  /** A pool of one row is one group. */
  lemma SingletonGroups(pool: seq<Detection>)
    requires |pool| == 1
    ensures Groups(pool) == [pool]
  {
    var r := GroupsStep(pool);
    SingletonSplit(pool, r);
  }

  lemma GroupsStep(pool: seq<Detection>) returns (r: Split)
    requires pool != []
    ensures Groups(pool) == [r.group] + Groups(r.rest)
    ensures r.group != [] && |r.group| <= |pool| && (forall d :: d in r.group ==> d in pool)
    ensures |r.rest| < |pool|
  {
    r := Group(pool);
  }

  /** A split of a one-row pool that keeps a non-empty group of its rows and
      strictly shrinks the pool takes the row and leaves nothing. */
  lemma SingletonSplit(pool: seq<Detection>, r: Split)
    requires |pool| == 1
    requires r.group != [] && |r.group| <= |pool| && (forall d :: d in r.group ==> d in pool)
    requires |r.rest| < |pool|
    ensures r.group == pool && r.rest == []
  {
    assert r.group[0] in pool;
  }

  lemma GroupsCons(pool: seq<Detection>)
    requires pool != []
    ensures Groups(pool) == [Group(pool).group] + Groups(Group(pool).rest)
  {
  }

  /** Every group `sort` collects holds at least one row. */
  lemma {:induction false} GroupsNonEmpty(pool: seq<Detection>)
    ensures forall i :: 0 <= i < |Groups(pool)| ==> |Groups(pool)[i]| > 0
    decreases |pool|
  {
    if pool != [] {
      var r := Group(pool);
      GroupsNonEmpty(r.rest);
      GroupsCons(pool);
      NonEmptyCons(r.group, Groups(r.rest));
    }
  }

  lemma NonEmptyCons(g: seq<Detection>, gs: seq<seq<Detection>>)
    requires |g| > 0
    requires forall i :: 0 <= i < |gs| ==> |gs[i]| > 0
    ensures forall i :: 0 <= i < |[g] + gs| ==> |([g] + gs)[i]| > 0
  {
    forall i | 0 <= i < |[g] + gs|
      ensures |([g] + gs)[i]| > 0
    {
      if i > 0 {
        assert ([g] + gs)[i] == gs[i - 1];
      }
    }
  }
}
