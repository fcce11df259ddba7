/** The `Data` object of src/data.py around the refinement rounds: its
    constructor, the best-snapshot bookkeeping of `_improve` and `improve`,
    and `add_time`. */
module Refinement {
  import opened Wrappers
  import opened Seqs
  import opened Numeric
  import opened Detections
  import opened Scoring
  import opened Pruning

  /** The fields of `Data` the tracker's core uses: the working table, the
      best snapshot and the RMS it scored, the frame count (`Slice.max()`,
      NaN for an empty table) and the start time set by `add_time`. */
  datatype Data = Data(
    table: seq<Detection>,
    best: seq<Detection>,
    rms: real,
    slices: Option<int>,
    start: Option<real>)

  /** The largest frame index of a non-empty table. */
  function MaxSlice(rows: seq<Detection>): (m: int)
    requires rows != []
    ensures exists d :: d in rows && d.slice == m
    ensures forall d :: d in rows ==> d.slice <= m
  {
    if |rows| == 1 then rows[0].slice
    else
      var m := MaxSlice(rows[1..]);
      assert rows == [rows[0]] + rows[1..];
      if rows[0].slice >= m then rows[0].slice else m
  }

  /** `Slice.max()`: the largest frame index, NaN (`None`) for no rows. */
  function SliceCount(rows: seq<Detection>): (m: Option<int>)
    ensures m.None? <==> rows == []
    ensures m.Some? ==> exists d :: d in rows && d.slice == m.value
    ensures m.Some? ==> forall d :: d in rows ==> d.slice <= m.value
  {
    if rows == [] then None else Some(MaxSlice(rows))
  }

  /** The constructor's transform of a row read without an ID column:
      Angle becomes its supplement and AspectRatio becomes Major / Minor,
      the rest of the row is kept. */
  function Prepared(d: Detection): (e: Detection)
    ensures e.(angle := d.angle, aspect := d.aspect) == d
    ensures e.angle + d.angle == 180.0
    ensures e.aspect.Finite? <==> d.minor != 0.0
    ensures e.aspect.Finite? ==> e.aspect.value * d.minor == d.major
  {
    d.(angle := 180.0 - d.angle, aspect := Divide(d.major, d.minor))
  }

  /** `Data(table)`: `best` is a copy of the table taken before the
      transform, `rms` starts at 1, and a table without an ID column has
      each Angle replaced by its supplement and AspectRatio set to
      Major / Minor. */
  function Load(rows: seq<Detection>, hasIds: bool): (data: Data)
    ensures data.best == rows && data.rms == 1.0 && data.start == None
    ensures data.slices.None? <==> rows == []
    ensures data.slices.Some? ==>
      (exists d :: d in rows && d.slice == data.slices.value) &&
      (forall d :: d in rows ==> d.slice <= data.slices.value)
    ensures hasIds ==> data.table == rows
    ensures |data.table| == |rows|
    ensures !hasIds ==> forall i :: 0 <= i < |rows| ==> data.table[i] == Prepared(rows[i])
  {
    Data(if hasIds then rows else Map(rows, Prepared), rows, 1.0, SliceCount(rows), None)
  }

  // ---------------------------------------------------------------------------
  // Refinement rounds (src/data.py:52-94)

  /** `if rms < self.rms: self.rms = rms; self.best = table.copy()`: a
      strictly smaller RMS is remembered with the table that scored it; a
      NaN RMS compares false and changes nothing. */
  function Remember(data: Data, rms: Ext): (r: Data)
    ensures r.table == data.table && r.slices == data.slices && r.start == data.start
    ensures r.rms <= data.rms
    ensures r.best == data.best || r.best == data.table
    ensures r.best != data.best ==> r.rms < data.rms
    ensures rms.Finite? && rms.value < data.rms ==> r.rms == rms.value && r.best == data.table
    ensures !(rms.Finite? && rms.value < data.rms) ==> r == data
    ensures Improves(data, rms, r.rms, r.best)
  {
    if rms.Finite? && rms.value < data.rms then data.(rms := rms.value, best := data.table)
    else data
  }

  /** The bookkeeping after scoring `data.table` at `rms`: a finite RMS
      below the stored one becomes the stored RMS with the scored table as
      snapshot; otherwise both stay as they were. */
  predicate Improves(data: Data, rms: Ext, stored: real, best: seq<Detection>)
  {
    if rms.Finite? && rms.value < data.rms then stored == rms.value && best == data.table
    else stored == data.rms && best == data.best
  }

  /** One call of `_improve` with the score table `s` the scorer predicted
      for the current table: remember the table if its RMS improves, apply
      the reassignment rule, then `remove_distant` and `remove_duplicates`.
      The round changes IDs only, every ID it leaves is a score column or
      -1, and a table without track columns is a division by zero. */
  function ImproveRound(data: Data, s: Scores, root: real -> real): (r: Result<Data>)
    ensures (forall c :: c in s.columns ==> c == Reject) ==> r.Err?
    ensures r.Ok? ==> r.value.rms <= data.rms
    ensures r.Ok? ==> r.value.best == data.best || r.value.best == data.table
    ensures r.Ok? && r.value.best != data.best ==> r.value.rms < data.rms
    ensures r.Ok? ==> SameButIds(data.table, r.value.table)
    ensures r.Ok? ==> forall d :: d in r.value.table ==> d.id in s.columns || d.id == Reject
    ensures r.Ok? ==> r.value.slices == data.slices && r.value.start == data.start
    ensures r.Ok? ==> GetRms(data.table, s, root).Ok?
    ensures r.Ok? ==> Improves(data, GetRms(data.table, s, root).value, r.value.rms, r.value.best)
  {
    var rms :- GetRms(data.table, s, root);
    var kept := Remember(data, rms);
    var moved :- Reassign(data.table, s);
    var pruned := RemoveDistant(moved);
    var clean :- RemoveDuplicates(pruned, s);
    SameButIdsTrans(data.table, moved, pruned);
    SameButIdsTrans(data.table, pruned, clean);
    RoundIds(moved, pruned, clean, s.columns);
    Ok(kept.(table := clean))
  }

  /** Pruning only ever moves IDs to -1, so the IDs after it are the
      reassigned ones or -1. */
  lemma RoundIds(moved: seq<Detection>, pruned: seq<Detection>, clean: seq<Detection>, columns: seq<int>)
    requires forall d :: d in moved ==> d.id in columns
    requires |pruned| == |moved| && forall i :: 0 <= i < |moved| ==> pruned[i].id == moved[i].id || pruned[i].id == Reject
    requires |clean| == |pruned| && forall i :: 0 <= i < |pruned| ==> clean[i].id == pruned[i].id || clean[i].id == Reject
    ensures forall d :: d in clean ==> d.id in columns || d.id == Reject
  {
    forall d | d in clean
      ensures d.id in columns || d.id == Reject
    {
      var i :| 0 <= i < |clean| && clean[i] == d;
      assert moved[i] in moved;
    }
  }

  /** The score tables of successive predictions: the scorer is trained
      afresh on every call, so the call index is part of its input. */
  type Scorer = (nat, seq<Detection>) -> Scores

  /** Rounds `from` to `rounds - 1` of the loop of `improve`. */
  function Rounds(data: Data, from: nat, rounds: nat, scorer: Scorer, root: real -> real): (r: Result<Data>)
    ensures r.Ok? ==> r.value.rms <= data.rms
    ensures r.Ok? && r.value.best != data.best ==> r.value.rms < data.rms
    ensures r.Ok? ==> SameButIds(data.table, r.value.table)
    ensures r.Ok? ==> r.value.best == data.best || SameButIds(data.table, r.value.best)
    ensures r.Ok? ==> r.value.slices == data.slices && r.value.start == data.start
    decreases rounds - from
  {
    if from >= rounds then
      SameButIdsRefl(data.table);
      Ok(data)
    else
      var next :- ImproveRound(data, scorer(from, data.table), root);
      var r := Rounds(next, from + 1, rounds, scorer, root);
      if r.Err? then r
      else
        RoundsStep(data, next, r.value);
        r
  }

  /** One round followed by the rest keeps the bookkeeping of both. */
  lemma RoundsStep(data: Data, next: Data, last: Data)
    requires next.rms <= data.rms && (next.best == data.best || next.best == data.table)
    requires next.best != data.best ==> next.rms < data.rms
    requires SameButIds(data.table, next.table)
    requires last.rms <= next.rms && (last.best != next.best ==> last.rms < next.rms)
    requires SameButIds(next.table, last.table)
    requires last.best == next.best || SameButIds(next.table, last.best)
    ensures last.rms <= data.rms && (last.best != data.best ==> last.rms < data.rms)
    ensures SameButIds(data.table, last.table)
    ensures last.best == data.best || SameButIds(data.table, last.best)
  {
    SameButIdsTrans(data.table, next.table, last.table);
    if last.best != next.best {
      SameButIdsTrans(data.table, next.table, last.best);
    } else if next.best != data.best {
      SameButIdsRefl(data.table);
    }
  }

  /** `improve(rounds)`: nothing at all for `rounds < 1`; otherwise the
      rounds, one more prediction and RMS comparison, and the table restored
      from the best snapshot in row-label order. The stored RMS never grows,
      the snapshot changes only on a strict improvement, and it is either
      the snapshot held before or a table that differs from the input in
      IDs only. */
  function Improve(data: Data, rounds: int, scorer: Scorer, root: real -> real): (r: Result<Data>)
    ensures rounds < 1 ==> r == Ok(data)
    ensures r.Ok? ==> r.value.rms <= data.rms
    ensures r.Ok? && r.value.best != data.best ==> r.value.rms < data.rms
    ensures r.Ok? ==> r.value.best == data.best || SameButIds(data.table, r.value.best)
    ensures r.Ok? && rounds >= 1 ==> r.value.table == SortByLabel(r.value.best)
    ensures r.Ok? ==> r.value.slices == data.slices && r.value.start == data.start
  {
    if rounds < 1 then Ok(data)
    else
      var last :- Rounds(data, 0, rounds, scorer, root);
      var rms :- GetRms(last.table, scorer(rounds, last.table), root);
      var kept := Remember(last, rms);
      assert kept.best != last.best ==> kept.best == last.table;
      Ok(kept.(table := SortByLabel(kept.best)))
  }

  // ---------------------------------------------------------------------------
  // The best snapshot is the lowest RMS seen (src/data.py:56-59, 88-93)

  /** One RMS comparison of `improve`: the table scored and its RMS. */
  datatype Trial = Trial(table: seq<Detection>, rms: Ext)

  /** The tables rounds `from` to `rounds - 1` score, in order, with the RMS
      each scored; the list stops at a round that raises. */
  function Scored(data: Data, from: nat, rounds: nat, scorer: Scorer, root: real -> real): (t: seq<Trial>)
    ensures from + |t| <= rounds || t == []
    decreases rounds - from
  {
    if from >= rounds then []
    else
      var rms := GetRms(data.table, scorer(from, data.table), root);
      var step := ImproveRound(data, scorer(from, data.table), root);
      if rms.Err? || step.Err? then []
      else [Trial(data.table, rms.value)] + Scored(step.value, from + 1, rounds, scorer, root)
  }

  /** Every table `improve` scores, in order: those of the rounds, then the
      table of the final comparison. */
  function Tried(data: Data, rounds: int, scorer: Scorer, root: real -> real): (t: seq<Trial>)
  {
    if rounds < 1 then []
    else
      match Rounds(data, 0, rounds, scorer, root)
      case Err(_) => []
      case Ok(last) =>
        var rms := GetRms(last.table, scorer(rounds, last.table), root);
        var t := Scored(data, 0, rounds, scorer, root);
        if rms.Err? then t else t + [Trial(last.table, rms.value)]
  }

  /** The trial is the RMS the `k`-th call of the scorer gives its table. */
  predicate ScoredBy(scorer: Scorer, root: real -> real, k: nat, trial: Trial)
  {
    GetRms(trial.table, scorer(k, trial.table), root) == Ok(trial.rms)
  }

  /** Each trial of the rounds is the RMS its round's scorer gives the
      table. */
  lemma {:induction false} ScoredRms(data: Data, from: nat, rounds: nat, scorer: Scorer, root: real -> real)
    ensures AllFrom(Scored(data, from, rounds, scorer, root), from, (k, trial) => ScoredBy(scorer, root, k, trial))
    decreases rounds - from
  {
    if from < rounds {
      var rms := GetRms(data.table, scorer(from, data.table), root);
      var step := ImproveRound(data, scorer(from, data.table), root);
      if rms.Ok? && step.Ok? {
        ScoredRms(step.value, from + 1, rounds, scorer, root);
        var t := Scored(step.value, from + 1, rounds, scorer, root);
        assert Scored(data, from, rounds, scorer, root) == [Trial(data.table, rms.value)] + t;
        ScoredByCall(scorer, root, from, data.table);
        AllFromCons(Trial(data.table, rms.value), t, from, (k, trial) => ScoredBy(scorer, root, k, trial));
      }
    }
  }

  /** Each trial of `improve` is the RMS its call's scorer gives the
      table. */
  lemma TriedRms(data: Data, rounds: int, scorer: Scorer, root: real -> real)
    ensures AllFrom(Tried(data, rounds, scorer, root), 0, (k, trial) => ScoredBy(scorer, root, k, trial))
  {
    if rounds >= 1 && Rounds(data, 0, rounds, scorer, root).Ok? {
      var last := Rounds(data, 0, rounds, scorer, root).value;
      var rms := GetRms(last.table, scorer(rounds, last.table), root);
      ScoredRms(data, 0, rounds, scorer, root);
      RoundsLowest(data, 0, rounds, scorer, root);
      var t := Scored(data, 0, rounds, scorer, root);
      if rms.Ok? {
        var trial := Trial(last.table, rms.value);
        ScoredByCall(scorer, root, rounds, last.table);
        assert |t| == rounds;
        AllFromSnoc(t, trial, (k, trial) => ScoredBy(scorer, root, k, trial));
      }
    }
  }

  /** The RMS of a call that does not raise is a trial of that call. */
  lemma ScoredByCall(scorer: Scorer, root: real -> real, k: nat, table: seq<Detection>)
    requires GetRms(table, scorer(k, table), root).Ok?
    ensures ScoredBy(scorer, root, k, Trial(table, GetRms(table, scorer(k, table), root).value))
  {
  }

  /** `stored` and `best` are the lowest of the starting RMS and the finite
      RMS values of the trials, with the table that scored it; the starting
      snapshot stays when no trial beats the starting RMS. */
  predicate Lowest(data: Data, t: seq<Trial>, stored: real, best: seq<Detection>)
  {
    && stored <= data.rms
    && (forall k :: 0 <= k < |t| && t[k].rms.Finite? ==> stored <= t[k].rms.value)
    && ((stored == data.rms && best == data.best) ||
        (stored < data.rms && exists k :: 0 <= k < |t| && t[k] == Trial(best, Finite(stored))))
  }

  /** A comparison in front of the later ones keeps the lowest. */
  lemma LowestFront(data: Data, next: Data, trial: Trial, t: seq<Trial>, stored: real, best: seq<Detection>)
    requires trial.table == data.table && Improves(data, trial.rms, next.rms, next.best)
    requires Lowest(next, t, stored, best)
    ensures Lowest(data, [trial] + t, stored, best)
  {
    var u := [trial] + t;
    forall k | 0 <= k < |u| && u[k].rms.Finite?
      ensures stored <= u[k].rms.value
    {
      if k > 0 {
        assert u[k] == t[k - 1];
      }
    }
    if stored < next.rms {
      var k :| 0 <= k < |t| && t[k] == Trial(best, Finite(stored));
      assert u[k + 1] == t[k];
    } else if trial.rms.Finite? && trial.rms.value < data.rms {
      assert u[0] == Trial(best, Finite(stored));
    }
  }

  /** A comparison after the earlier ones keeps the lowest. */
  lemma LowestBack(data: Data, last: Data, t: seq<Trial>, trial: Trial, stored: real, best: seq<Detection>)
    requires Lowest(data, t, last.rms, last.best)
    requires trial.table == last.table && Improves(last, trial.rms, stored, best)
    ensures Lowest(data, t + [trial], stored, best)
  {
    var u := t + [trial];
    forall k | 0 <= k < |u| && u[k].rms.Finite?
      ensures stored <= u[k].rms.value
    {
      if k < |t| {
        assert u[k] == t[k];
      }
    }
    if trial.rms.Finite? && trial.rms.value < last.rms {
      assert u[|t|] == Trial(best, Finite(stored));
    } else if last.rms < data.rms {
      var k :| 0 <= k < |t| && t[k] == Trial(last.best, Finite(last.rms));
      assert u[k] == t[k];
    }
  }

  /** Over the rounds of `improve`, every round scores its table, and the
      stored RMS and snapshot end as the lowest RMS seen and the table that
      scored it. */
  lemma {:induction false} RoundsLowest(data: Data, from: nat, rounds: nat, scorer: Scorer, root: real -> real)
    requires from <= rounds && Rounds(data, from, rounds, scorer, root).Ok?
    ensures |Scored(data, from, rounds, scorer, root)| == rounds - from
    ensures Lowest(data, Scored(data, from, rounds, scorer, root),
                   Rounds(data, from, rounds, scorer, root).value.rms, Rounds(data, from, rounds, scorer, root).value.best)
    decreases rounds - from
  {
    if from < rounds {
      var step := ImproveRound(data, scorer(from, data.table), root);
      var next := step.value;
      var rms := GetRms(data.table, scorer(from, data.table), root);
      var r := Rounds(next, from + 1, rounds, scorer, root);
      assert Rounds(data, from, rounds, scorer, root) == r;
      RoundsLowest(next, from + 1, rounds, scorer, root);
      var t := Scored(next, from + 1, rounds, scorer, root);
      assert Scored(data, from, rounds, scorer, root) == [Trial(data.table, rms.value)] + t;
      LowestFront(data, next, Trial(data.table, rms.value), t, r.value.rms, r.value.best);
    } else {
      assert Scored(data, from, rounds, scorer, root) == [];
      assert Rounds(data, from, rounds, scorer, root) == Ok(data);
    }
  }

  /** `improve` scores one table per round and one more at the end, and
      leaves as stored RMS and snapshot the lowest RMS it saw and the table
      that scored it ("restore data that had the best rms score"). */
  lemma ImproveLowest(data: Data, rounds: int, scorer: Scorer, root: real -> real)
    requires Improve(data, rounds, scorer, root).Ok?
    ensures rounds >= 1 ==> |Tried(data, rounds, scorer, root)| == rounds + 1
    ensures Lowest(data, Tried(data, rounds, scorer, root),
                   Improve(data, rounds, scorer, root).value.rms, Improve(data, rounds, scorer, root).value.best)
  {
    if rounds >= 1 {
      var last := Rounds(data, 0, rounds, scorer, root).value;
      var rms := GetRms(last.table, scorer(rounds, last.table), root);
      RoundsLowest(data, 0, rounds, scorer, root);
      var t := Scored(data, 0, rounds, scorer, root);
      var kept := Remember(last, rms.value);
      assert Tried(data, rounds, scorer, root) == t + [Trial(last.table, rms.value)];
      assert Improve(data, rounds, scorer, root) == Ok(kept.(table := SortByLabel(kept.best)));
      LowestBack(data, last, t, Trial(last.table, rms.value), kept.rms, kept.best);
    }
  }

  /** A snapshot `improve` restores in place of the starting one is a table
      some call of the scorer gave exactly the stored RMS, which beats the
      starting RMS. */
  lemma ImproveBestScored(data: Data, rounds: int, scorer: Scorer, root: real -> real)
    requires Improve(data, rounds, scorer, root).Ok?
    requires Improve(data, rounds, scorer, root).value.best != data.best
    ensures var r := Improve(data, rounds, scorer, root).value;
      && r.rms < data.rms
      && exists k: nat :: GetRms(r.best, scorer(k, r.best), root) == Ok(Finite(r.rms))
  {
    var r := Improve(data, rounds, scorer, root).value;
    var t := Tried(data, rounds, scorer, root);
    ImproveLowest(data, rounds, scorer, root);
    TriedRms(data, rounds, scorer, root);
    var k :| 0 <= k < |t| && t[k] == Trial(r.best, Finite(r.rms));
    assert ScoredBy(scorer, root, k, t[k]);
  }

  // ---------------------------------------------------------------------------
  // add_time (src/data.py:125-127)

  /** Every row given the time of its frame, `time_dict[Slice]`, in table
      order; the first row whose frame has no time raises KeyError. */
  function WithTimes(rows: seq<Detection>, times: map<int, real>): (r: Result<seq<Detection>>)
    ensures r.Err? <==> exists d :: d in rows && d.slice !in times
    ensures r.Err? ==> r.error.KeyError? && r.error.key !in times
    ensures r.Err? ==> exists d :: d in rows && d.slice == r.error.key
    ensures r.Ok? ==> |r.value| == |rows| && forall i :: 0 <= i < |rows| ==>
      rows[i].slice in times && r.value[i] == rows[i].(time := Some(times[rows[i].slice]))
  {
    if rows == [] then Ok([])
    else if rows[0].slice !in times then Err(KeyError(rows[0].slice))
    else
      var rest := WithTimes(rows[1..], times);
      assert forall d :: d in rows[1..] ==> d in rows;
      if rest.Err? then rest
      else
        var head := rows[0].(time := Some(times[rows[0].slice]));
        assert forall d :: d in rows ==> d == rows[0] || d in rows[1..];
        Ok([head] + rest.value)
  }

  /** `add_time(fps)`: the Time column from the frame-time table, and the
      start time. */
  function AddTime(data: Data, times: map<int, real>, start: real): (r: Result<Data>)
    ensures r.Err? <==> exists d :: d in data.table && d.slice !in times
    ensures r.Ok? ==> r.value.start == Some(start) && r.value.best == data.best
    ensures r.Ok? ==> r.value == data.(table := r.value.table, start := Some(start))
    ensures r.Ok? ==> |r.value.table| == |data.table| && forall i :: 0 <= i < |data.table| ==>
      r.value.table[i] == data.table[i].(time := Some(times[data.table[i].slice]))
  {
    var table :- WithTimes(data.table, times);
    Ok(data.(table := table, start := Some(start)))
  }
}
