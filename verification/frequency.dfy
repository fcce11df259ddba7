/** `get_frequency` (src/util.py): the rotation of one tracked cell between
    frames, its running total and its rate in revolutions per second. */
module Frequency {
  import opened Wrappers
  import opened Numeric

  /** One row of a track: its Angle (degrees) and its Time (seconds). */
  datatype Sample = Sample(angle: real, time: real)

  /** The columns `get_frequency` adds to a row: Rotation (absolute, NaN on
      the first row), Rotation_cum and Frequency. */
  datatype Spin = Spin(rotation: Option<real>, cumulative: real, frequency: Ext)

  function Abs(x: real): (r: real)
    ensures r >= 0.0 && (r == x || r == -x)
  {
    if x < 0.0 then -x else x
  }

  /** The two in-place corrections of a rotation: above 90 degrees subtract
      180, then at or below -90 add 180. A change of orientation of an
      ellipse is only known up to half a turn, so the result is the same
      turn, taken in (-90, 90] for every difference of two angles in
      [0, 180]. */
  function Wrap(r: real): (w: real)
    ensures w == r || w == r - 180.0 || w == r + 180.0
    ensures -180.0 <= r <= 180.0 ==> -90.0 < w <= 90.0
    ensures -90.0 < r <= 90.0 ==> w == r
  {
    var once := if r > 90.0 then r - 180.0 else r;
    if once <= -90.0 then once + 180.0 else once
  }

  /** The wrapped `Angle.diff()` of rows 1, 2, ... (row 0 has no
      predecessor: its difference is NaN and is not part of this list). */
  function Turns(samples: seq<Sample>): (d: seq<real>)
    ensures |d| == if samples == [] then 0 else |samples| - 1
    ensures forall j :: 0 <= j < |d| ==> d[j] == Wrap(samples[j + 1].angle - samples[j].angle)
  {
    if |samples| < 2 then []
    else [Wrap(samples[1].angle - samples[0].angle)] + Turns(samples[1..])
  }

  /** `rolling(5).mean().shift(-2)`: the mean of the five turns centred on
      turn `j`, defined when all five exist (the NaN of row 0 makes the
      windows touching it undefined). */
  function Window(d: seq<real>, j: int): real
    requires 2 <= j && j + 2 < |d|
  {
    (d[j - 2] + d[j - 1] + d[j] + d[j + 1] + d[j + 2]) / 5.0
  }

  /** Every turn with a full window replaced by the window mean, computed
      from the unsmoothed turns; the two turns at either end are kept. */
  function Smooth(d: seq<real>): (s: seq<real>)
    ensures |s| == |d|
    ensures forall j :: 0 <= j < |d| && (j < 2 || j + 2 >= |d|) ==> s[j] == d[j]
    ensures forall j :: 2 <= j && j + 2 < |d| ==> s[j] == Window(d, j)
  {
    seq(|d|, j requires 0 <= j < |d| => if 2 <= j && j + 2 < |d| then Window(d, j) else d[j])
  }

  /** `cumsum()` with the first row set to 0: entry `k` is the sum of the
      first `k` turns. */
  function Cumulative(d: seq<real>): (c: seq<real>)
    ensures |c| == |d| + 1 && c[0] == 0.0
    ensures forall k {:trigger d[k]} :: 0 <= k < |d| ==> c[k + 1] == c[k] + d[k]
  {
    if d == [] then [0.0]
    else
      var c := Cumulative(d[..|d| - 1]);
      c + [c[|d| - 1] + d[|d| - 1]]
  }

  /** The columns of row `cur` given its turn and running total: the
      absolute turn, and that turn per second of elapsed time in
      revolutions (`Rotation / Time.diff() / 360`). */
  function SpinOf(prev: Sample, cur: Sample, turn: real, total: real): (s: Spin)
    ensures s.rotation == Some(Abs(turn)) && s.cumulative == total
    ensures s.frequency.Finite? <==> cur.time != prev.time
    ensures s.frequency.Finite? ==> Mul(s.frequency.value, 360.0 * (cur.time - prev.time)) == Abs(turn)
  {
    Spin(Some(Abs(turn)), total, Divide(Abs(turn), 360.0 * (cur.time - prev.time)))
  }

  /** `get_frequency(cells)` on a track with at least one row; the first
      row's cumulative rotation is written with `iloc[0]`, which raises on
      an empty track. One row of output per sample: the first has no
      rotation, a zero total and a NaN frequency; every later row has as
      rotation the absolute smoothed turn into it, a total that grows by
      that turn, and a frequency that is finite exactly when the time
      advances and then is the rotation in revolutions per second. */
  function GetFrequency(samples: seq<Sample>): (r: Result<seq<Spin>>)
    ensures r.Err? <==> samples == []
    ensures r.Err? ==> r.error.IndexError?
    ensures r.Ok? ==> |r.value| == |samples| && r.value[0] == Spin(None, 0.0, NaN)
    ensures r.Ok? ==> forall i :: 1 <= i < |samples| ==>
      var turn := Smooth(Turns(samples))[i - 1];
      && r.value[i].rotation == Some(Abs(turn))
      && r.value[i].cumulative == r.value[i - 1].cumulative + turn
      && (r.value[i].frequency.Finite? <==> samples[i].time != samples[i - 1].time)
      && (r.value[i].frequency.Finite? ==>
            Mul(r.value[i].frequency.value, 360.0 * (samples[i].time - samples[i - 1].time)) == Abs(turn))
  {
    if samples == [] then Err(IndexError("single positional indexer is out-of-bounds"))
    else
      var d := Smooth(Turns(samples));
      SpinsRows(samples, d);
      Ok(Spins(samples, d))
  }

  /** The meaning of the rows `Spins` builds from the turns `d`. */
  lemma SpinsRows(samples: seq<Sample>, d: seq<real>)
    requires |samples| > 0 && |d| == |samples| - 1
    ensures forall i :: 1 <= i < |samples| ==>
      var r := Spins(samples, d);
      && r[i].rotation == Some(Abs(d[i - 1]))
      && r[i].cumulative == r[i - 1].cumulative + d[i - 1]
      && (r[i].frequency.Finite? <==> samples[i].time != samples[i - 1].time)
      && (r[i].frequency.Finite? ==>
            Mul(r[i].frequency.value, 360.0 * (samples[i].time - samples[i - 1].time)) == Abs(d[i - 1]))
  {
    var r := Spins(samples, d);
    var c := Cumulative(d);
    forall i | 1 <= i < |samples|
      ensures r[i].cumulative == r[i - 1].cumulative + d[i - 1]
    {
      assert c[i] == c[i - 1] + d[i - 1];
    }
  }

  /** The three columns of every row, from the (smoothed) turns `d`. */
  function Spins(samples: seq<Sample>, d: seq<real>): (r: seq<Spin>)
    requires |samples| > 0 && |d| == |samples| - 1
    ensures |r| == |samples| && r[0] == Spin(None, 0.0, NaN)
    ensures forall i :: 1 <= i < |samples| ==> r[i] == SpinOf(samples[i - 1], samples[i], d[i - 1], Cumulative(d)[i])
  {
    var c := Cumulative(d);
    seq(|samples|, i requires 0 <= i < |samples| =>
      if i == 0 then Spin(None, 0.0, NaN) else SpinOf(samples[i - 1], samples[i], d[i - 1], c[i]))
  }

  // ---------------------------------------------------------------------------
  // Properties

  /** The running total of the unwrapped turns is the change of angle since
      the first frame; wrapping changes it by whole half turns only. */
  lemma {:induction false} WrappedTotal(samples: seq<Sample>, k: nat) returns (m: int)
    requires k < |samples|
    ensures Cumulative(Turns(samples))[k] == samples[k].angle - samples[0].angle + 180.0 * m as real
  {
    var c := Cumulative(Turns(samples));
    if k == 0 {
      m := 0;
    } else {
      var prev := WrappedTotal(samples, k - 1);
      var w := Turns(samples)[k - 1];
      assert c[k] == c[k - 1] + w;
      if w == samples[k].angle - samples[k - 1].angle {
        m := prev;
      } else if w == samples[k].angle - samples[k - 1].angle - 180.0 {
        m := prev - 1;
      } else {
        m := prev + 1;
      }
    }
  }

  /** A mean of five turns in (-90, 90] lies in (-90, 90]; so smoothing keeps
      every wrapped turn in that range. */
  lemma SmoothInRange(d: seq<real>)
    requires forall j :: 0 <= j < |d| ==> -90.0 < d[j] <= 90.0
    ensures forall j :: 0 <= j < |d| ==> -90.0 < Smooth(d)[j] <= 90.0
  {
  }

  /** For angles in [0, 180], as the constructor produces, every rotation
      is at most a quarter turn. */
  lemma RotationBounded(samples: seq<Sample>, i: nat)
    requires forall k :: 0 <= k < |samples| ==> 0.0 <= samples[k].angle <= 180.0
    requires 1 <= i < |samples|
    ensures GetFrequency(samples).value[i].rotation.value <= 90.0
  {
    var d := Turns(samples);
    forall j | 0 <= j < |d|
      ensures -90.0 < d[j] <= 90.0
    {
      assert d[j] == Wrap(samples[j + 1].angle - samples[j].angle);
    }
    SmoothInRange(d);
    var s := Smooth(d);
    assert -90.0 < s[i - 1] <= 90.0;
  }

  /** A track of at most five rows has no full window: its cumulative
      rotation differs from the change of angle by whole half turns. */
  lemma ShortTrackTotal(samples: seq<Sample>, k: nat) returns (m: int)
    requires 0 < |samples| <= 5 && k < |samples|
    ensures GetFrequency(samples).value[k].cumulative == samples[k].angle - samples[0].angle + 180.0 * m as real
  {
    var d := Turns(samples);
    assert Smooth(d) == d;
    m := WrappedTotal(samples, k);
  }
}
