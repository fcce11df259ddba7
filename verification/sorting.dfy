/** `Data.sort` (src/data.py): the groups of the greedy grouper become
    tracks with IDs `0..k-1` in shuffled order when they cover enough
    frames, and rejects (ID -1) otherwise. */
module Sorting {
  import opened Wrappers
  import opened Seqs
  import opened Detections
  import opened Grouping

  /** `random.shuffle` is an input: any function returning a permutation. */
  ghost predicate IsShuffle(shuffle: seq<int> -> seq<int>)
  {
    forall xs :: multiset(shuffle(xs)) == multiset(xs)
  }

  /** The coverage filter: a group with at least `slices * minCoverage` rows. */
  function Covering(slices: int, minCoverage: real): seq<Detection> -> bool
  {
    (g: seq<Detection>) => |g| as real >= slices as real * minCoverage
  }

  function Tracks(gs: seq<seq<Detection>>, slices: int, minCoverage: real): seq<seq<Detection>>
  {
    Filter(gs, Covering(slices, minCoverage))
  }

  function Rejects(gs: seq<seq<Detection>>, slices: int, minCoverage: real): seq<seq<Detection>>
  {
    Filter(gs, Not(Covering(slices, minCoverage)))
  }

  /** The shuffled IDs `0..k-1`. */
  function TrackIds(k: nat, shuffle: seq<int> -> seq<int>): (ids: seq<int>)
    requires IsShuffle(shuffle)
    ensures |ids| == k
    ensures multiset(ids) == multiset(Range(k))
    ensures Distinct(ids)
    ensures forall i :: 0 <= i < k ==> 0 <= ids[i] < k
  {
    var ids := shuffle(Range(k));
    assert |multiset(ids)| == |multiset(Range(k))|;
    PermutationKeepsDistinct(ids, Range(k));
    forall i | 0 <= i < k
      ensures 0 <= ids[i] < k
    {
      assert ids[i] in multiset(Range(k));
    }
    ids
  }

  /** The groups in order, the i-th given ID `ids[i]`, concatenated. */
  function AssignIds(gs: seq<seq<Detection>>, ids: seq<int>): seq<Detection>
    requires |ids| >= |gs|
  {
    if gs == [] then [] else Relabel(gs[0], ids[0]) + AssignIds(gs[1..], ids[1..])
  }

  /** The reject rows, ordered by row label, all with ID -1. */
  function RejectRows(bad: seq<seq<Detection>>): seq<Detection>
  {
    Relabel(SortByLabel(Flatten(bad)), Reject)
  }

  /** `sort` as written: `pd.concat(bad)` raises when no group is a reject. */
  function SortAsWritten(pool: seq<Detection>, slices: int, minCoverage: real,
                         shuffle: seq<int> -> seq<int>): (r: Result<seq<Detection>>)
    requires IsShuffle(shuffle)
    ensures r.Err? <==> Rejects(Groups(pool), slices, minCoverage) == []
    ensures r.Ok? ==> r.value == Sort(pool, slices, minCoverage, shuffle)
  {
    var gs := Groups(pool);
    var good := Tracks(gs, slices, minCoverage);
    var bad := Rejects(gs, slices, minCoverage);
    if bad == [] then Err(ValueError("No objects to concatenate"))
    else Ok(AssignIds(good, TrackIds(|good|, shuffle)) + RejectRows(bad))
  }

  /** `sort` with an empty reject list allowed: the table is the tracks
      followed by the rejects. */
  function Sort(pool: seq<Detection>, slices: int, minCoverage: real,
                shuffle: seq<int> -> seq<int>): seq<Detection>
    requires IsShuffle(shuffle)
  {
    var gs := Groups(pool);
    var good := Tracks(gs, slices, minCoverage);
    var bad := Rejects(gs, slices, minCoverage);
    AssignIds(good, TrackIds(|good|, shuffle)) + RejectRows(bad)
  }

  // ---------------------------------------------------------------------------
  // Properties

  lemma {:induction false} AssignIdsKeepsRows(gs: seq<seq<Detection>>, ids: seq<int>)
    requires |ids| >= |gs|
    ensures Map(AssignIds(gs, ids), Anonymous) == Map(Flatten(gs), Anonymous)
  {
    if gs != [] {
      var head := Relabel(gs[0], ids[0]);
      AssignIdsKeepsRows(gs[1..], ids[1..]);
      MapConcat(head, AssignIds(gs[1..], ids[1..]), Anonymous);
      MapConcat(gs[0], Flatten(gs[1..]), Anonymous);
      assert Map(head, Anonymous) == Map(gs[0], Anonymous);
    }
  }

  lemma {:induction false} AssignIdsMembers(gs: seq<seq<Detection>>, ids: seq<int>)
    requires |ids| >= |gs|
    ensures forall i, d :: 0 <= i < |gs| && d in gs[i] ==> d.(id := ids[i]) in AssignIds(gs, ids)
    ensures forall d :: d in AssignIds(gs, ids) ==> exists i :: 0 <= i < |gs| && d.id == ids[i]
  {
    if gs != [] {
      var head := Relabel(gs[0], ids[0]);
      var tail := AssignIds(gs[1..], ids[1..]);
      AssignIdsMembers(gs[1..], ids[1..]);
      assert AssignIds(gs, ids) == head + tail;
      forall i, d | 0 <= i < |gs| && d in gs[i]
        ensures d.(id := ids[i]) in AssignIds(gs, ids)
      {
        if i == 0 {
          var k :| 0 <= k < |gs[0]| && gs[0][k] == d;
          assert head[k] == d.(id := ids[0]);
        } else {
          assert gs[i] == gs[1..][i - 1] && ids[i] == ids[1..][i - 1];
        }
      }
      forall d | d in AssignIds(gs, ids)
        ensures exists i :: 0 <= i < |gs| && d.id == ids[i]
      {
        if d in head {
          var k :| 0 <= k < |head| && head[k] == d;
          assert d.id == ids[0];
        } else {
          var i :| 0 <= i < |gs[1..]| && d.id == ids[1..][i];
          assert d.id == ids[i + 1];
        }
      }
    }
  }

  /** Every input row appears exactly once in the sorted table, changed at
      most in its ID. */
  lemma SortKeepsRows(pool: seq<Detection>, slices: int, minCoverage: real,
                      shuffle: seq<int> -> seq<int>)
    requires IsShuffle(shuffle) && DistinctLabels(pool)
    ensures multiset(Map(Sort(pool, slices, minCoverage, shuffle), Anonymous))
         == multiset(Map(pool, Anonymous))
  {
    var gs := Groups(pool);
    var good := Tracks(gs, slices, minCoverage);
    var bad := Rejects(gs, slices, minCoverage);
    var ids := TrackIds(|good|, shuffle);
    var tracks := AssignIds(good, ids);
    var sorted := SortByLabel(Flatten(bad));
    AssignIdsKeepsRows(good, ids);
    assert Map(RejectRows(bad), Anonymous) == Map(sorted, Anonymous);
    MapConcat(tracks, RejectRows(bad), Anonymous);
    MapConcat(Flatten(good), sorted, Anonymous);
    GroupsPartition(pool);
    FlattenFilterSplit(gs, Covering(slices, minCoverage), Not(Covering(slices, minCoverage)));
    assert multiset(Flatten(good) + sorted) == multiset(pool);
    MapPermutation(Flatten(good) + sorted, pool, Anonymous);
  }

  /** The groups covering enough frames get the IDs `0..k-1`, one per group
      and distinct between groups; every row of the other groups gets -1; no
      row gets any other ID. */
  lemma SortIds(pool: seq<Detection>, slices: int, minCoverage: real,
                shuffle: seq<int> -> seq<int>)
    requires IsShuffle(shuffle)
    ensures var good := Tracks(Groups(pool), slices, minCoverage);
      var ids := TrackIds(|good|, shuffle);
      var r := Sort(pool, slices, minCoverage, shuffle);
      && (forall i, d :: 0 <= i < |good| && d in good[i] ==> d.(id := ids[i]) in r)
      && (forall g, d :: g in Rejects(Groups(pool), slices, minCoverage) && d in g ==> d.(id := Reject) in r)
      && (forall d :: d in r ==> d.id == Reject || 0 <= d.id < |good|)
  {
    var gs := Groups(pool);
    var good := Tracks(gs, slices, minCoverage);
    var bad := Rejects(gs, slices, minCoverage);
    var ids := TrackIds(|good|, shuffle);
    AssignIdsMembers(good, ids);
    RejectRowsMembers(bad);
  }

  lemma RejectRowsMembers(bad: seq<seq<Detection>>)
    ensures forall g, d :: g in bad && d in g ==> d.(id := Reject) in RejectRows(bad)
    ensures forall d :: d in RejectRows(bad) ==> d.id == Reject
  {
    var sorted := SortByLabel(Flatten(bad));
    forall g, d | g in bad && d in g
      ensures d.(id := Reject) in RejectRows(bad)
    {
      FlattenMember(bad, g, d);
      assert d in multiset(sorted);
      var k :| 0 <= k < |sorted| && sorted[k] == d;
      assert RejectRows(bad)[k] == d.(id := Reject);
    }
  }

  lemma {:induction false} FlattenMember(gs: seq<seq<Detection>>, g: seq<Detection>, d: Detection)
    requires g in gs && d in g
    ensures d in Flatten(gs)
  {
    if gs[0] != g {
      FlattenMember(gs[1..], g, d);
    }
  }

  /** A one-row table, whose single group covers its one frame: `sort` as
      written raises, while the corrected `Sort` makes the row track 0. */
  lemma SortAsWrittenFailsOnOneRow(pool: seq<Detection>, shuffle: seq<int> -> seq<int>)
    requires |pool| == 1 && pool[0].slice == 1 && IsShuffle(shuffle)
    ensures SortAsWritten(pool, 1, 0.25, shuffle).Err?
    ensures Sort(pool, 1, 0.25, shuffle) == [pool[0].(id := 0)]
  {
    SingletonGroups(pool);
    OneTrack(pool);
    OneRowSorted(pool, shuffle);
  }

  lemma OneRowSorted(pool: seq<Detection>, shuffle: seq<int> -> seq<int>)
    requires |pool| == 1 && IsShuffle(shuffle)
    requires Groups(pool) == [pool]
    requires Tracks([pool], 1, 0.25) == [pool] && Rejects([pool], 1, 0.25) == []
    ensures Sort(pool, 1, 0.25, shuffle) == [pool[0].(id := 0)]
  {
    var ids := TrackIds(1, shuffle);
    SingleTrackId(shuffle);
    assert ids == [0];
    SingleAssignment(pool, ids);
    assert Sort(pool, 1, 0.25, shuffle) == AssignIds([pool], ids) + RejectRows([]);
  }

  lemma SingleTrackId(shuffle: seq<int> -> seq<int>)
    requires IsShuffle(shuffle)
    ensures TrackIds(1, shuffle) == [0]
  {
    var ids := TrackIds(1, shuffle);
    assert ids[0] in multiset(Range(1));
  }

  lemma SingleAssignment(pool: seq<Detection>, ids: seq<int>)
    requires |pool| == 1 && ids == [0]
    ensures AssignIds([pool], ids) + RejectRows([]) == [pool[0].(id := 0)]
  {
    assert RejectRows([]) == [];
  }

  lemma OneTrack(pool: seq<Detection>)
    requires |pool| == 1
    ensures Tracks([pool], 1, 0.25) == [pool]
    ensures Rejects([pool], 1, 0.25) == []
  {
    assert Covering(1, 0.25)(pool);
  }
}
