/** The two clean-up passes of a refinement round (src/data.py):
    `remove_distant`, which sends the outlying rows of every track to the
    reject bucket, and `remove_duplicates`, which resolves rows of one track
    in one frame by their scores. Both change nothing but the ID column, and
    only to -1. */
module Pruning {
  import opened Wrappers
  import opened Seqs
  import opened Numeric
  import opened Geometry
  import opened Detections
  import opened Scoring

  /** `df.loc[labels, "ID"] = -1`: every row whose label is in `labels`
      moves to the reject bucket. */
  function SendToReject(rows: seq<Detection>, labels: set<int>): (r: seq<Detection>)
    ensures |r| == |rows|
    ensures forall i :: 0 <= i < |rows| ==>
      r[i] == if rows[i].row in labels then rows[i].(id := Reject) else rows[i]
  {
    seq(|rows|, i requires 0 <= i < |rows| =>
      if rows[i].row in labels then rows[i].(id := Reject) else rows[i])
  }

  // ---------------------------------------------------------------------------
  // remove_distant (src/data.py:96-107)

  function DistFrom(c: Point): Detection -> real
  {
    (d: Detection) => Dist2(c, Pos(d))
  }

  /** `d` is at minimal distance from `c` among the rows of `track`. */
  predicate Innermost(track: seq<Detection>, c: Point, d: Detection)
  {
    forall e :: e in track ==> Dist2(c, Pos(d)) <= Dist2(c, Pos(e))
  }

  function IsInnermost(track: seq<Detection>, c: Point): Detection -> bool
  {
    (d: Detection) => Innermost(track, c, d)
  }

  /** The rows of a track tied for the minimal distance from `c`
      (`subset.Distance == subset.Distance.min()`); never empty. */
  function Core(track: seq<Detection>, c: Point): (r: seq<Detection>)
    requires track != []
    ensures r != []
    ensures forall d :: d in r <==> d in track && Innermost(track, c, d)
  {
    InnermostExists(track, c);
    Filter(track, IsInnermost(track, c))
  }

  /** A non-empty track has a row at minimal distance from any point. */
  lemma InnermostExists(track: seq<Detection>, c: Point)
    requires track != []
    ensures exists d :: d in track && Innermost(track, c, d)
  {
    var ds := Map(track, DistFrom(c));
    var m := MinOf(ds);
    var k :| 0 <= k < |ds| && ds[k] == m;
    forall e | e in track
      ensures Dist2(c, Pos(track[k])) <= Dist2(c, Pos(e))
    {
      var j :| 0 <= j < |track| && track[j] == e;
      assert ds[j] in ds;
    }
    assert track[k] in track;
  }

  /** The refined centre of a track: the mean position of its rows nearest
      to its centroid. */
  function RefinedCentre(track: seq<Detection>): Point
    requires track != []
  {
    var core := Core(track, Centroid(Map(track, Pos)));
    Centroid(Map(core, Pos))
  }

  /** 1.1 times the 0.9-quantile Major of a track. */
  function Reach(track: seq<Detection>): real
    requires track != []
  {
    assert |Majors(track)| == |track|;
    1.1 * Quantile(Majors(track), 0.9).value
  }

  /** A row lies farther from its track's refined centre than the track's
      reach. */
  predicate Stray(track: seq<Detection>, d: Detection)
    requires track != []
  {
    Beyond(RefinedCentre(track), Pos(d), Reach(track))
  }

  /** The rule `remove_distant` applies to a track: a row of a non-empty
      track is pruned when it is stray in it. */
  function StrayRule(): (seq<Detection>, Detection) -> bool
  {
    (track: seq<Detection>, d: Detection) => track != [] && Stray(track, d)
  }

  /** One iteration of the loop over IDs, for a pruning rule `rule`: the
      labels of the rows of track `id` the rule picks go to -1. A track with
      no rows has NaN centres, and no row goes. */
  function PruneTrack(rows: seq<Detection>, id: int, rule: (seq<Detection>, Detection) -> bool): seq<Detection>
  {
    var track := Members(rows, id);
    if track == [] then rows
    else SendToReject(rows, Picked(track, rule))
  }

  /** The labels of the rows of `track` the rule picks. */
  function Picked(track: seq<Detection>, rule: (seq<Detection>, Detection) -> bool): set<int>
  {
    set d | d in track && rule(track, d) :: d.row
  }

  /** The loop itself, over the IDs in the order `order`, skipping -1; each
      iteration sees the table the earlier ones left. */
  function PruneTracks(rows: seq<Detection>, order: seq<int>, rule: (seq<Detection>, Detection) -> bool): seq<Detection>
    decreases |order|
  {
    if order == [] then rows
    else
      var next := if order[0] == Reject then rows else PruneTrack(rows, order[0], rule);
      PruneTracks(next, order[1..], rule)
  }

  function IdSet(rows: seq<Detection>): set<int>
  {
    set d | d in rows :: d.id
  }

  /** `remove_distant` as written: the loop over `list(set(ID))`, which lists
      every ID of the table once in an order the set decides. */
  function RemoveDistantLoop(rows: seq<Detection>, order: seq<int>): seq<Detection>
    requires Distinct(order) && forall x :: x in order <==> x in IdSet(rows)
  {
    PruneTracks(rows, order, StrayRule())
  }

  /** The rule picks `d` within the track it holds in `rows`. */
  predicate PickedIn(rows: seq<Detection>, d: Detection, rule: (seq<Detection>, Detection) -> bool)
  {
    d.id != Reject && rule(Members(rows, d.id), d)
  }

  /** Every track pruned at once, each against the table as it was. */
  function PruneAll(rows: seq<Detection>, rule: (seq<Detection>, Detection) -> bool): (r: seq<Detection>)
    ensures |r| == |rows|
    ensures forall i :: 0 <= i < |rows| ==>
      r[i] == if PickedIn(rows, rows[i], rule) then rows[i].(id := Reject) else rows[i]
  {
    seq(|rows|, i requires 0 <= i < |rows| =>
      if PickedIn(rows, rows[i], rule) then rows[i].(id := Reject) else rows[i])
  }

  /** `remove_distant` with every track pruned against the table as it
      was: a row holding a track other than -1 goes to -1 exactly when it
      lies farther from its track's refined centre than the track's reach;
      nothing else changes. */
  function RemoveDistant(rows: seq<Detection>): (r: seq<Detection>)
    ensures SameButIds(rows, r)
    ensures forall i :: 0 <= i < |rows| ==> r[i].id == rows[i].id || r[i].id == Reject
    ensures forall i :: 0 <= i < |rows| ==>
      (r[i].id != rows[i].id <==>
         rows[i].id != Reject && Members(rows, rows[i].id) != [] &&
         Stray(Members(rows, rows[i].id), rows[i]))
  {
    var r := PruneAll(rows, StrayRule());
    forall i | 0 <= i < |rows|
      ensures rows[i] in Members(rows, rows[i].id)
    {
      assert HasId(rows[i].id)(rows[i]);
    }
    r
  }

  /** The table after the tracks in `done` have been pruned, each against
      the original table. */
  function PrunedFor(rows: seq<Detection>, done: set<int>, rule: (seq<Detection>, Detection) -> bool): (r: seq<Detection>)
    ensures |r| == |rows|
    ensures forall i :: 0 <= i < |rows| ==>
      r[i] == if rows[i].id in done && PickedIn(rows, rows[i], rule) then rows[i].(id := Reject) else rows[i]
  {
    seq(|rows|, i requires 0 <= i < |rows| =>
      if rows[i].id in done && PickedIn(rows, rows[i], rule) then rows[i].(id := Reject) else rows[i])
  }

  /** While track `id` has not been pruned, it holds the same rows as in the
      original table. */
  lemma TrackUntouched(rows: seq<Detection>, done: set<int>, id: int, rule: (seq<Detection>, Detection) -> bool)
    requires id !in done && id != Reject
    ensures Members(PrunedFor(rows, done, rule), id) == Members(rows, id)
  {
    var t := PrunedFor(rows, done, rule);
    forall i | 0 <= i < |rows|
      ensures HasId(id)(t[i]) == HasId(id)(rows[i])
      ensures HasId(id)(t[i]) ==> t[i] == rows[i]
    {
      if rows[i].id == id {
        assert t[i] == rows[i];
      } else if t[i] != rows[i] {
        assert t[i].id == Reject;
      }
    }
    FilterPointwise(t, rows, HasId(id));
  }

  /** The labels pruning track `id` sends to -1 are those of the rows that
      hold `id` and that the rule picks. */
  lemma PickedLabels(rows: seq<Detection>, id: int, rule: (seq<Detection>, Detection) -> bool, i: int)
    requires DistinctLabels(rows) && 0 <= i < |rows|
    ensures rows[i].row in Picked(Members(rows, id), rule)
        <==> rows[i].id == id && rule(Members(rows, id), rows[i])
  {
    var track := Members(rows, id);
    if rows[i].row in Picked(track, rule) {
      var e :| e in track && rule(track, e) && e.row == rows[i].row;
      SameLabelSameRow(rows, e, rows[i]);
    }
    if rows[i].id == id {
      assert HasId(id)(rows[i]);
    }
  }

  /** Pruning one more track of the original table. */
  lemma PruneStep(rows: seq<Detection>, done: set<int>, id: int, rule: (seq<Detection>, Detection) -> bool)
    requires DistinctLabels(rows) && id !in done && id != Reject
    ensures PruneTrack(PrunedFor(rows, done, rule), id, rule) == PrunedFor(rows, done + {id}, rule)
  {
    TrackUntouched(rows, done, id, rule);
    if Members(rows, id) == [] {
      EmptyTrackStep(rows, done, id, rule);
    } else {
      TrackStep(rows, done, id, rule);
    }
  }

  lemma EmptyTrackStep(rows: seq<Detection>, done: set<int>, id: int, rule: (seq<Detection>, Detection) -> bool)
    requires Members(rows, id) == []
    ensures PrunedFor(rows, done + {id}, rule) == PrunedFor(rows, done, rule)
  {
    var t := PrunedFor(rows, done, rule);
    var next := PrunedFor(rows, done + {id}, rule);
    forall i | 0 <= i < |rows|
      ensures next[i] == t[i]
    {
      EmptyTrackAt(rows, done, id, rule, i);
    }
  }

  lemma EmptyTrackAt(rows: seq<Detection>, done: set<int>, id: int, rule: (seq<Detection>, Detection) -> bool, i: int)
    requires Members(rows, id) == [] && 0 <= i < |rows|
    ensures PrunedFor(rows, done + {id}, rule)[i] == PrunedFor(rows, done, rule)[i]
  {
    assert rows[i] in rows;
    assert !HasId(id)(rows[i]);
    assert rows[i].id in done + {id} <==> rows[i].id in done;
  }

  lemma TrackStep(rows: seq<Detection>, done: set<int>, id: int, rule: (seq<Detection>, Detection) -> bool)
    requires DistinctLabels(rows) && id !in done && id != Reject
    ensures SendToReject(PrunedFor(rows, done, rule), Picked(Members(rows, id), rule))
         == PrunedFor(rows, done + {id}, rule)
  {
    var r := SendToReject(PrunedFor(rows, done, rule), Picked(Members(rows, id), rule));
    var next := PrunedFor(rows, done + {id}, rule);
    forall i | 0 <= i < |rows|
      ensures r[i] == next[i]
    {
      PruneStepAt(rows, done, id, rule, i);
    }
  }

  lemma PruneStepAt(rows: seq<Detection>, done: set<int>, id: int,
                    rule: (seq<Detection>, Detection) -> bool, i: int)
    requires DistinctLabels(rows) && id !in done && id != Reject && 0 <= i < |rows|
    ensures SendToReject(PrunedFor(rows, done, rule), Picked(Members(rows, id), rule))[i]
         == PrunedFor(rows, done + {id}, rule)[i]
  {
    PickedLabels(rows, id, rule, i);
    assert PrunedFor(rows, done, rule)[i].row == rows[i].row;
  }

  /** -1 is never pruned. */
  lemma SkipReject(rows: seq<Detection>, done: set<int>, rule: (seq<Detection>, Detection) -> bool)
    ensures PrunedFor(rows, done + {Reject}, rule) == PrunedFor(rows, done, rule)
  {
  }

  lemma DistinctRest(order: seq<int>)
    requires order != [] && Distinct(order)
    ensures Distinct(order[1..])
    ensures forall x :: x in order[1..] ==> x != order[0]
  {
    var rest := order[1..];
    forall i, j | 0 <= i < j < |rest|
      ensures rest[i] != rest[j]
    {
      assert rest[i] == order[i + 1] && rest[j] == order[j + 1];
    }
    forall x | x in rest
      ensures x != order[0]
    {
      var k :| 0 <= k < |rest| && rest[k] == x;
      assert order[k + 1] == x;
    }
  }

  /** The loop over a list of distinct IDs none of which is done yet prunes
      each of them against the original table. */
  lemma {:induction false} PruneTracksFrom(rows: seq<Detection>, done: set<int>, order: seq<int>,
                                           rule: (seq<Detection>, Detection) -> bool)
    requires DistinctLabels(rows) && Distinct(order)
    requires forall x :: x in order ==> x !in done
    ensures PruneTracks(PrunedFor(rows, done, rule), order, rule)
         == PrunedFor(rows, done + (set x | x in order), rule)
    decreases |order|
  {
    if order != [] {
      var id := order[0];
      var rest := order[1..];
      DistinctRest(order);
      if id == Reject {
        SkipReject(rows, done, rule);
      } else {
        PruneStep(rows, done, id, rule);
      }
      PruneTracksFrom(rows, done + {id}, rest, rule);
      DoneCons(done, order);
    }
  }

  /** Marking the head done and then the tail marks the whole list done. */
  lemma DoneCons(done: set<int>, order: seq<int>)
    requires order != []
    ensures (done + {order[0]}) + (set x | x in order[1..]) == done + (set x | x in order)
  {
    var l := (done + {order[0]}) + (set x | x in order[1..]);
    var r := done + (set x | x in order);
    forall x | x in r
      ensures x in l
    {
      if x !in done && x != order[0] {
        var k :| 0 <= k < |order| && order[k] == x;
        assert order[1..][k - 1] == x;
      }
    }
    forall x | x in l
      ensures x in r
    {
      if x in order[1..] {
        var k :| 0 <= k < |order[1..]| && order[1..][k] == x;
        assert order[k + 1] == x;
      }
    }
  }

  /** Once every ID of the table is done, the table is fully pruned. */
  lemma PrunedForAll(rows: seq<Detection>, done: set<int>, rule: (seq<Detection>, Detection) -> bool)
    requires IdSet(rows) <= done
    ensures PrunedFor(rows, done, rule) == PruneAll(rows, rule)
  {
    forall i | 0 <= i < |rows|
      ensures rows[i].id in done
    {
      assert rows[i].id in IdSet(rows);
    }
  }

  /** The loop of `remove_distant` does not depend on the order of the IDs:
      with unique row labels it equals pruning every track against the
      table as it was. */
  lemma RemoveDistantLoopIsSimultaneous(rows: seq<Detection>, order: seq<int>)
    requires DistinctLabels(rows)
    requires Distinct(order) && forall x :: x in order <==> x in IdSet(rows)
    ensures RemoveDistantLoop(rows, order) == RemoveDistant(rows)
  {
    var rule := StrayRule();
    assert PrunedFor(rows, {}, rule) == rows;
    PruneTracksFrom(rows, {}, order, rule);
    PrunedForAll(rows, {} + (set x | x in order), rule);
  }

  // ---------------------------------------------------------------------------
  // remove_duplicates (src/data.py:109-123)

  /** `e` shares `d`'s frame and track. */
  function SameKey(d: Detection): Detection -> bool
  {
    (e: Detection) => e.slice == d.slice && e.id == d.id
  }

  /** `duplicated(subset=["Slice", "ID"], keep=False)`: another row has the
      same frame and track. */
  predicate Duplicated(rows: seq<Detection>, d: Detection)
  {
    |Filter(rows, SameKey(d))| >= 2
  }

  /** Another row of `d`'s (Slice, ID) group scores strictly higher in the
      group's own column. */
  predicate Outscored(rows: seq<Detection>, s: Scores, d: Detection)
  {
    exists e :: e in rows && e.slice == d.slice && e.id == d.id && s.at(e.row, d.id) > s.at(d.row, d.id)
  }

  /** The labels sent to -1: rows of a track other than -1 whose score is
      not the maximum of their group (`!= score_pair.max()`). */
  function Losers(rows: seq<Detection>, s: Scores): set<int>
  {
    set d | d in rows && d.id != Reject && Outscored(rows, s, d) :: d.row
  }

  /** The table with the losers of every group sent to -1. */
  function Deduplicated(rows: seq<Detection>, s: Scores): seq<Detection>
  {
    SendToReject(rows, Losers(rows, s))
  }

  /** `remove_duplicates(score)`: a duplicated group whose track has no
      score column selects no column, and indexing its first column raises;
      otherwise the losers of every group go to -1. Only IDs change, and
      only to -1. */
  function RemoveDuplicates(rows: seq<Detection>, s: Scores): (r: Result<seq<Detection>>)
    ensures r.Err? <==>
      exists d :: d in rows && d.id != Reject && Duplicated(rows, d) && d.id !in s.columns
    ensures r.Err? ==> r.error.IndexError?
    ensures r.Ok? ==> r.value == Deduplicated(rows, s)
    ensures r.Ok? ==> SameButIds(rows, r.value)
    ensures r.Ok? ==> forall i :: 0 <= i < |rows| ==>
      r.value[i].id == rows[i].id || r.value[i].id == Reject
  {
    if exists d :: d in rows && d.id != Reject && Duplicated(rows, d) && d.id !in s.columns
    then Err(IndexError("single positional indexer is out-of-bounds"))
    else Ok(Deduplicated(rows, s))
  }

  /** With unique row labels, a row goes to -1 exactly when it holds a track
      and another row of its frame and track scores strictly higher. */
  lemma DuplicatesRule(rows: seq<Detection>, s: Scores)
    requires DistinctLabels(rows)
    ensures forall i :: 0 <= i < |rows| ==>
      (Deduplicated(rows, s)[i].id != rows[i].id <==>
         rows[i].id != Reject && Outscored(rows, s, rows[i]))
  {
    forall i | 0 <= i < |rows|
      ensures Deduplicated(rows, s)[i].id != rows[i].id <==>
                rows[i].id != Reject && Outscored(rows, s, rows[i])
    {
      LoserLabel(rows, s, i);
    }
  }

  lemma LoserLabel(rows: seq<Detection>, s: Scores, i: int)
    requires DistinctLabels(rows) && 0 <= i < |rows|
    ensures rows[i].row in Losers(rows, s) <==> rows[i].id != Reject && Outscored(rows, s, rows[i])
  {
    if rows[i].row in Losers(rows, s) {
      var e :| e in rows && e.id != Reject && Outscored(rows, s, e) && e.row == rows[i].row;
      SameLabelSameRow(rows, e, rows[i]);
    }
  }

  /** Rows of one frame that keep one track all tie on their score in it:
      duplicates survive exactly when their scores tie at the maximum. */
  lemma SurvivorsTie(rows: seq<Detection>, s: Scores)
    requires DistinctLabels(rows)
    ensures var r := Deduplicated(rows, s);
      forall i, j ::
        (0 <= i < |r| && 0 <= j < |r| && r[i].id != Reject &&
         r[i].slice == r[j].slice && r[i].id == r[j].id) ==>
        s.at(r[i].row, r[i].id) == s.at(r[j].row, r[j].id)
  {
    var r := Deduplicated(rows, s);
    forall i, j | 0 <= i < |r| && 0 <= j < |r| && r[i].id != Reject &&
        r[i].slice == r[j].slice && r[i].id == r[j].id
      ensures s.at(r[i].row, r[i].id) == s.at(r[j].row, r[j].id)
    {
      LoserLabel(rows, s, i);
      LoserLabel(rows, s, j);
      assert r[i] == rows[i] && r[j] == rows[j];
      assert rows[i] in rows && rows[j] in rows;
    }
  }

  function OwnScore(s: Scores, id: int): Detection -> real
  {
    (d: Detection) => s.at(d.row, id)
  }

  /** A best-scoring row of a group is outscored by no row. */
  lemma BestOfGroup(rows: seq<Detection>, s: Scores, d: Detection) returns (best: Detection)
    requires d in rows
    ensures best in rows && best.slice == d.slice && best.id == d.id
    ensures !Outscored(rows, s, best)
  {
    var group := Filter(rows, SameKey(d));
    assert d in group;
    var scores := Map(group, OwnScore(s, d.id));
    var m := MaxOf(scores);
    var k :| 0 <= k < |scores| && scores[k] == m;
    best := group[k];
    assert best in group;
    forall e | e in rows && e.slice == best.slice && e.id == best.id
      ensures s.at(e.row, best.id) <= s.at(best.row, best.id)
    {
      assert SameKey(d)(e);
      assert e in group;
      var h :| 0 <= h < |group| && group[h] == e;
      assert scores[h] in scores;
    }
  }

  /** Every (Slice, ID) group of a track keeps at least one row: a
      best-scoring one. */
  lemma GroupKeepsBest(rows: seq<Detection>, s: Scores, i: int)
    requires DistinctLabels(rows)
    requires 0 <= i < |rows| && rows[i].id != Reject
    ensures exists j ::
      0 <= j < |rows| && rows[j].slice == rows[i].slice && Deduplicated(rows, s)[j].id == rows[i].id
  {
    var best := BestOfGroup(rows, s, rows[i]);
    var j :| 0 <= j < |rows| && rows[j] == best;
    LoserLabel(rows, s, j);
    assert Deduplicated(rows, s)[j].id == rows[i].id;
  }
}
