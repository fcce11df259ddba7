/** `Fps` (src/getfps.py): the frame timing of an image series.  Each image
    carries the camera's "Image DateTime" stamp and a file name ending in
    `-<slice>.tif`; the images are ordered by slice, counted per second of
    the clock, the counts of the two partial edge seconds are corrected, and
    every slice gets the time at which it was taken, measured from the
    first one at the rate of its own second. */
module FrameTiming {
  import opened Wrappers
  import opened Seqs
  import opened Text
  import opened Numeric

  /** An image: its EXIF "Image DateTime" text and its file name. */
  datatype Image = Image(stamp: string, name: string)

  /** A row of the timestamp table while the clock is still text. */
  datatype Stamp = Stamp(clock: string, slice: int)

  /** A row of the timestamp table once the clock is read in seconds. */
  datatype Frame = Frame(second: int, slice: int)

  /** A row of the per-second table `fps_df`: a second and its frame count. */
  datatype Count = Count(second: int, frames: nat)

  /** What `Fps` keeps: the corrected start second, the frame counts of the
      full seconds, and the time of every slice. */
  datatype Fps = Fps(start: real, values: seq<nat>, times: map<int, real>)

  // ---------------------------------------------------------------------------
  // Reading every row, stopping at the first exception

  /** `[f(x) for x in xs]` where `f` may raise: the values, or the exception
      of the first element that raises. */
  function Collect<A, B>(xs: seq<A>, f: A -> Result<B>): (r: Result<seq<B>>)
    ensures r.Ok? <==> forall i :: 0 <= i < |xs| ==> f(xs[i]).Ok?
    ensures r.Ok? ==> |r.value| == |xs|
    ensures r.Ok? ==> forall i :: 0 <= i < |xs| ==> r.value[i] == f(xs[i]).value
  {
    if xs == [] then Ok([])
    else
      var head :- f(xs[0]);
      var tail :- Collect(xs[1..], f);
      Ok([head] + tail)
  }

  /** The exception is that of the first element that raises. */
  lemma {:induction false} CollectFirstError<A, B>(xs: seq<A>, f: A -> Result<B>)
    requires Collect(xs, f).Err?
    ensures exists i :: 0 <= i < |xs| && f(xs[i]).Err? && Collect(xs, f).error == f(xs[i]).error
                        && forall j :: 0 <= j < i ==> f(xs[j]).Ok?
  {
    if f(xs[0]).Err? {
      assert 0 <= 0 < |xs| && f(xs[0]).Err? && Collect(xs, f).error == f(xs[0]).error;
    } else {
      CollectFirstError(xs[1..], f);
      var i :| 0 <= i < |xs[1..]| && f(xs[1..][i]).Err? && Collect(xs[1..], f).error == f(xs[1..][i]).error
               && forall j :: 0 <= j < i ==> f(xs[1..][j]).Ok?;
      forall j | 0 <= j < i + 1
        ensures f(xs[j]).Ok?
      {
        if j > 0 {
          assert xs[j] == xs[1..][j - 1];
        }
      }
      assert f(xs[i + 1]).Err? && Collect(xs, f).error == f(xs[i + 1]).error;
    }
  }

  // ---------------------------------------------------------------------------
  // The slice number of a file name and the second of a clock stamp

  /** `int(name.replace(".tif", "").split("-")[-1])`. */
  function SliceOf(name: string): (r: Result<int>)
    ensures r.Err? ==> r.error.ValueError?
  {
    ParseInt(LastPiece(RemoveAll(name, ".tif"), '-'))
  }

  /** A name `<prefix>-<n>.tif` whose prefix holds no '.' has slice `n`. */
  lemma SliceOfNumbered(prefix: string, n: nat)
    requires '.' !in prefix
    ensures SliceOf(prefix + "-" + ShowNat(n) + ".tif") == Ok(n)
  {
    var num := ShowNat(n);
    var stem := prefix + "-" + num;
    assert '.' !in stem by {
      forall i | 0 <= i < |stem|
        ensures stem[i] != '.'
      {
        if i < |prefix| { assert stem[i] == prefix[i]; }
        else if i > |prefix| { assert stem[i] == num[i - |prefix| - 1]; }
      }
    }
    RemoveTrailing(stem, ".tif");
    assert prefix + "-" + num == prefix + ['-'] + num;
    LastPieceAfter(prefix, num, '-');
    ParseShowNat(n);
  }

  /** The `Stamp` row of an image, or the exception its name raises. */
  function Slicing(image: Image): (r: Result<Stamp>)
    ensures r.Ok? <==> SliceOf(image.name).Ok?
    ensures r.Ok? ==> r.value == Stamp(image.stamp, SliceOf(image.name).value)
  {
    var slice :- SliceOf(image.name);
    Ok(Stamp(image.stamp, slice))
  }

  /** The `hh:mm:ss` of a stamp in seconds: the text after the last space,
      split on ':'; the hours are read before the minutes are looked up, and
      the minutes before the seconds. */
  function SecondOf(clock: string): (r: Result<int>)
    ensures r.Ok? ==> |Split(LastPiece(clock, ' '), ':')| >= 3
    ensures r.Err? && |Split(LastPiece(clock, ' '), ':')| >= 3 ==> r.error.ValueError?
  {
    var hms := Split(LastPiece(clock, ' '), ':');
    var h :- ParseInt(hms[0]);
    var m :- if |hms| < 2 then Err(IndexError("list index out of range")) else ParseInt(hms[1]);
    var s :- if |hms| < 3 then Err(IndexError("list index out of range")) else ParseInt(hms[2]);
    Ok(h * 3600 + m * 60 + s)
  }

  /** The text `hh:mm:ss` of a time of day. */
  function ClockText(h: nat, m: nat, s: nat): string
  {
    ShowNat(h) + ":" + ShowNat(m) + ":" + ShowNat(s)
  }

  /** A stamp `<date> hh:mm:ss` reads as `hh * 3600 + mm * 60 + ss`. */
  lemma SecondOfClock(date: string, h: nat, m: nat, s: nat)
    ensures SecondOf(date + " " + ClockText(h, m, s)) == Ok(h * 3600 + m * 60 + s)
  {
    var clock := ClockText(h, m, s);
    var stamp := date + " " + clock;
    ClockPieces(h, m, s);
    assert stamp == date + [' '] + clock;
    LastPieceAfter(date, clock, ' ');
    ParseShowNat(h);
    ParseShowNat(m);
    ParseShowNat(s);
    SecondOfPieces(stamp, [ShowNat(h), ShowNat(m), ShowNat(s)], h, m, s);
  }

  lemma SecondOfPieces(stamp: string, hms: seq<string>, h: int, m: int, s: int)
    requires Split(LastPiece(stamp, ' '), ':') == hms && |hms| == 3
    requires ParseInt(hms[0]) == Ok(h) && ParseInt(hms[1]) == Ok(m) && ParseInt(hms[2]) == Ok(s)
    ensures SecondOf(stamp) == Ok(h * 3600 + m * 60 + s)
  {
    var pieces := Split(LastPiece(stamp, ' '), ':');
    assert !(|pieces| < 2) && !(|pieces| < 3);
    assert ParseInt(pieces[0]).value == h;
  }

  /** `hh:mm:ss` has no space and splits into its three numerals. */
  lemma ClockPieces(h: nat, m: nat, s: nat)
    ensures ' ' !in ClockText(h, m, s)
    ensures Split(ClockText(h, m, s), ':') == [ShowNat(h), ShowNat(m), ShowNat(s)]
  {
    var hms := [ShowNat(h), ShowNat(m), ShowNat(s)];
    NumeralLacks(h, ' ');
    NumeralLacks(m, ' ');
    NumeralLacks(s, ' ');
    NumeralLacks(h, ':');
    NumeralLacks(m, ':');
    NumeralLacks(s, ':');
    assert Join(hms[2..], ':') == ShowNat(s);
    assert Join(hms[1..], ':') == ShowNat(m) + ":" + ShowNat(s);
    assert Join(hms, ':') == ShowNat(h) + ":" + ShowNat(m) + ":" + ShowNat(s);
    SplitJoin(hms, ':');
  }

  /** The `Frame` row of a stamp, or the exception its clock raises. */
  function Timing(stamp: Stamp): (r: Result<Frame>)
    ensures r.Ok? <==> SecondOf(stamp.clock).Ok?
    ensures r.Ok? ==> r.value == Frame(SecondOf(stamp.clock).value, stamp.slice)
  {
    var second :- SecondOf(stamp.clock);
    Ok(Frame(second, stamp.slice))
  }

  function SliceKey(s: Stamp): real
  {
    s.slice as real
  }

  // ---------------------------------------------------------------------------
  // The per-second table: `groupby("Time").size()`

  function SecondsOf(frames: seq<Frame>): set<int>
  {
    set f | f in frames :: f.second
  }

  /** The smallest element of a non-empty sequence. */
  function Least(xs: seq<int>): (m: int)
    requires xs != []
    ensures m in xs
    ensures forall x :: x in xs ==> m <= x
  {
    if |xs| == 1 then xs[0]
    else
      var m := Least(xs[1..]);
      assert xs == [xs[0]] + xs[1..];
      if xs[0] < m then xs[0] else m
  }

  function Other(m: int): int -> bool
  {
    x => x != m
  }

  /** The distinct elements of a sequence in increasing order. */
  function Ascending(xs: seq<int>): (r: seq<int>)
    ensures forall x :: x in r <==> x in xs
    ensures forall i, j :: 0 <= i < j < |r| ==> r[i] < r[j]
    decreases |xs|
  {
    if xs == [] then []
    else
      var m := Least(xs);
      var rest := Filter(xs, Other(m));
      FilterShrinks(xs, Other(m), m);
      var t := Ascending(rest);
      AscendingStep(xs, m, rest, t);
      [m] + t
  }

  /** Putting the least element in front of the ascending rest. */
  lemma AscendingStep(xs: seq<int>, m: int, rest: seq<int>, t: seq<int>)
    requires m in xs && forall x :: x in xs ==> m <= x
    requires forall x :: x in rest <==> x in xs && x != m
    requires forall x :: x in t <==> x in rest
    requires forall i, j :: 0 <= i < j < |t| ==> t[i] < t[j]
    ensures forall x :: x in [m] + t <==> x in xs
    ensures forall i, j :: 0 <= i < j < |[m] + t| ==> ([m] + t)[i] < ([m] + t)[j]
  {
    var r := [m] + t;
    forall i, j | 0 <= i < j < |r|
      ensures r[i] < r[j]
    {
      assert r[j] == t[j - 1] && r[j] in t;
      if i > 0 {
        assert r[i] == t[i - 1];
      }
    }
  }

  function SecondOfFrame(f: Frame): int
  {
    f.second
  }

  /** How many frames fall in second `t`. */
  function CountOf(frames: seq<Frame>, t: int): (n: nat)
    ensures n <= |frames|
    ensures n > 0 <==> t in SecondsOf(frames)
  {
    if frames == [] then 0
    else
      assert SecondsOf(frames) == {frames[0].second} + SecondsOf(frames[1..]) by {
        assert frames == [frames[0]] + frames[1..];
      }
      (if frames[0].second == t then 1 else 0) + CountOf(frames[1..], t)
  }

  /** One row per listed second, with its frame count. */
  function Tabulate(seconds: seq<int>, frames: seq<Frame>): (cs: seq<Count>)
    ensures |cs| == |seconds|
    ensures forall k :: 0 <= k < |cs| ==> cs[k] == Count(seconds[k], CountOf(frames, seconds[k]))
  {
    if seconds == [] then []
    else [Count(seconds[0], CountOf(frames, seconds[0]))] + Tabulate(seconds[1..], frames)
  }

  /** Seconds strictly increasing down the table. */
  predicate Ascends(table: seq<Count>)
  {
    forall i, j :: 0 <= i < j < |table| ==> table[i].second < table[j].second
  }

  /** `fps_df`: one row per second in which some frame was taken, in
      increasing order, holding the number of frames of that second. */
  function Counts(frames: seq<Frame>): (table: seq<Count>)
    ensures Ascends(table)
    ensures forall k :: 0 <= k < |table| ==> table[k].frames > 0
    ensures forall i :: 0 <= i < |frames| ==> frames[i].second in Map(table, CountSecond)
  {
    var seconds := Ascending(Map(frames, SecondOfFrame));
    var table := Tabulate(seconds, frames);
    AscendingSeconds(frames);
    TableFacts(frames, seconds, table);
    table
  }

  /** Each row is a second in which frames were taken, with their number. */
  lemma CountsRows(frames: seq<Frame>)
    ensures forall k :: 0 <= k < |Counts(frames)| ==> Counts(frames)[k].second in SecondsOf(frames)
    ensures forall k :: 0 <= k < |Counts(frames)| ==>
      Counts(frames)[k].frames == CountOf(frames, Counts(frames)[k].second)
  {
    var seconds := Ascending(Map(frames, SecondOfFrame));
    AscendingSeconds(frames);
    TableFacts(frames, seconds, Tabulate(seconds, frames));
  }

  lemma TableFacts(frames: seq<Frame>, seconds: seq<int>, table: seq<Count>)
    requires forall i :: 0 <= i < |frames| ==> frames[i].second in seconds
    requires forall x :: x in seconds ==> x in SecondsOf(frames)
    requires forall i, j :: 0 <= i < j < |seconds| ==> seconds[i] < seconds[j]
    requires |table| == |seconds|
    requires forall k :: 0 <= k < |table| ==> table[k] == Count(seconds[k], CountOf(frames, seconds[k]))
    ensures Ascends(table)
    ensures forall k :: 0 <= k < |table| ==> table[k].second in SecondsOf(frames)
    ensures forall k :: 0 <= k < |table| ==> table[k].frames == CountOf(frames, table[k].second) > 0
    ensures forall i :: 0 <= i < |frames| ==> frames[i].second in Map(table, CountSecond)
  {
    assert forall k :: 0 <= k < |table| ==> seconds[k] in seconds;
    assert Map(table, CountSecond) == seconds;
  }

  lemma AscendingSeconds(frames: seq<Frame>)
    ensures forall i :: 0 <= i < |frames| ==> frames[i].second in Ascending(Map(frames, SecondOfFrame))
    ensures forall x :: x in Ascending(Map(frames, SecondOfFrame)) ==> x in SecondsOf(frames)
  {
    var all := Map(frames, SecondOfFrame);
    assert forall i :: 0 <= i < |frames| ==> all[i] == frames[i].second;
    forall x | x in Ascending(all)
      ensures x in SecondsOf(frames)
    {
      var i :| 0 <= i < |all| && all[i] == x;
      assert frames[i] in frames;
    }
  }

  /** The first row holds the earliest second, `Time.min()`. */
  lemma CountsStartEarliest(frames: seq<Frame>)
    requires frames != []
    ensures |Counts(frames)| > 0
    ensures forall i :: 0 <= i < |frames| ==> Counts(frames)[0].second <= frames[i].second
  {
    EarliestFirst(frames, Counts(frames));
  }

  lemma EarliestFirst(frames: seq<Frame>, table: seq<Count>)
    requires frames != [] && Ascends(table)
    requires forall i :: 0 <= i < |frames| ==> frames[i].second in Map(table, CountSecond)
    ensures |table| > 0
    ensures forall i :: 0 <= i < |frames| ==> table[0].second <= frames[i].second
  {
    assert frames[0].second in Map(table, CountSecond);
    forall i | 0 <= i < |frames|
      ensures table[0].second <= frames[i].second
    {
      var k :| 0 <= k < |table| && Map(table, CountSecond)[k] == frames[i].second;
      assert table[k].second == frames[i].second;
    }
  }

  function CountSecond(c: Count): int
  {
    c.second
  }

  function Total(table: seq<Count>): nat
  {
    if table == [] then 0 else table[0].frames + Total(table[1..])
  }

  /** Every frame is counted exactly once: the counts add up to the number
      of frames. */
  lemma CountsTotal(frames: seq<Frame>)
    ensures Total(Counts(frames)) == |frames|
  {
    var seconds := Ascending(Map(frames, SecondOfFrame));
    assert Distinct(seconds);
    AscendingSeconds(frames);
    forall i | 0 <= i < |frames|
      ensures multiset(seconds)[frames[i].second] == 1
    {
      DistinctAtMostOnce(seconds, frames[i].second);
    }
    TallyAll(seconds, frames);
  }

  lemma {:induction false} TallyAll(seconds: seq<int>, frames: seq<Frame>)
    requires forall i :: 0 <= i < |frames| ==> multiset(seconds)[frames[i].second] == 1
    ensures Total(Tabulate(seconds, frames)) == |frames|
  {
    TotalIsTally(seconds, frames);
    TallyCovers(seconds, frames);
  }

  /** The frames counted for the listed seconds. */
  function Tally(seconds: seq<int>, frames: seq<Frame>): nat
  {
    if seconds == [] then 0 else CountOf(frames, seconds[0]) + Tally(seconds[1..], frames)
  }

  lemma {:induction false} TotalIsTally(seconds: seq<int>, frames: seq<Frame>)
    ensures Total(Tabulate(seconds, frames)) == Tally(seconds, frames)
  {
    if seconds != [] {
      TotalIsTally(seconds[1..], frames);
      var table := Tabulate(seconds, frames);
      assert table[1..] == Tabulate(seconds[1..], frames);
    }
  }

  lemma {:induction false} TallyCovers(seconds: seq<int>, frames: seq<Frame>)
    requires forall i :: 0 <= i < |frames| ==> multiset(seconds)[frames[i].second] == 1
    ensures Tally(seconds, frames) == |frames|
  {
    if frames == [] {
      TallyEmpty(seconds, frames);
    } else {
      var rest := frames[1..];
      assert frames == [frames[0]] + rest;
      assert forall i :: 0 <= i < |rest| ==> rest[i] == frames[i + 1];
      TallyCovers(seconds, rest);
      TallyCons(seconds, frames[0], rest);
    }
  }

  lemma {:induction false} TallyEmpty(seconds: seq<int>, frames: seq<Frame>)
    requires frames == []
    ensures Tally(seconds, frames) == 0
  {
    if seconds != [] {
      TallyEmpty(seconds[1..], frames);
    }
  }

  /** One more frame adds one to the tally for each listing of its second. */
  lemma {:induction false} TallyCons(seconds: seq<int>, f: Frame, rest: seq<Frame>)
    ensures Tally(seconds, [f] + rest) == multiset(seconds)[f.second] + Tally(seconds, rest)
  {
    if seconds != [] {
      var t := seconds[0];
      var later := seconds[1..];
      TallyCons(later, f, rest);
      CountOfCons(f, rest, t);
      assert seconds == [t] + later;
      MultisetConsAt(t, later, f.second);
    }
  }

  lemma CountOfCons(f: Frame, rest: seq<Frame>, t: int)
    ensures CountOf([f] + rest, t) == (if f.second == t then 1 else 0) + CountOf(rest, t)
  {
    assert ([f] + rest)[1..] == rest;
  }

  lemma MultisetConsAt(t: int, later: seq<int>, x: int)
    ensures multiset([t] + later)[x] == (if t == x then 1 else 0) + multiset(later)[x]
  {
  }

  // ---------------------------------------------------------------------------
  // The start second and the edge correction

  function Larger(a: nat, b: nat): nat
  {
    if a >= b then a else b
  }

  /** `Time.min() + 1 - min(1, c0 / c1)`: the first second is taken to be
      partial, holding `c0` frames where a full one holds `c1`, so the
      recording starts that share of a second before its end. */
  function Start(first: int, c0: nat, c1: nat): (start: real)
    requires c1 > 0
    ensures first as real <= start <= first as real + 1.0
    ensures start == first as real <==> c0 >= c1
    ensures start == first as real + 1.0 <==> c0 == 0
  {
    var share := c0 as real / c1 as real;
    ShareBounds(c0, c1);
    first as real + 1.0 - (if share < 1.0 then share else 1.0)
  }

  lemma ShareBounds(c0: nat, c1: nat)
    requires c1 > 0
    ensures c0 as real / c1 as real >= 0.0
    ensures c0 as real / c1 as real >= 1.0 <==> c0 >= c1
    ensures c0 as real / c1 as real == 0.0 <==> c0 == 0
  {
    DivisionSign(c0 as real, c1 as real);
    DivisionSign((c0 - c1) as real, c1 as real);
    DivisionAdds(c0 as real, -(c1 as real), c1 as real);
    assert -(c1 as real) / c1 as real == -1.0;
  }

  /** The edge correction: the first second's count is raised to the
      second's when lower, then the last second's count to that of the one
      before it (as already corrected, which matters for two seconds). */
  function Edged(table: seq<Count>): (r: seq<Count>)
    requires |table| >= 2
    ensures |r| == |table|
    ensures forall k :: 0 <= k < |r| ==> r[k].second == table[k].second && r[k].frames >= table[k].frames
    ensures forall k :: 0 < k < |r| - 1 ==> r[k] == table[k]
    ensures r[0].frames == Larger(table[0].frames, table[1].frames)
    ensures |r| > 2 ==> r[|r| - 1].frames == Larger(table[|r| - 1].frames, table[|r| - 2].frames)
    ensures |r| == 2 ==> r[1].frames == r[0].frames
  {
    var n := |table|;
    var a := if table[0].frames < table[1].frames then table[0 := table[0].(frames := table[1].frames)] else table;
    if a[n - 1].frames < a[n - 2].frames then a[n - 1 := a[n - 1].(frames := a[n - 2].frames)] else a
  }

  /** After the correction neither edge second counts fewer frames than its
      neighbour, and correcting again changes nothing. */
  lemma EdgedSettled(table: seq<Count>)
    requires |table| >= 2
    ensures var r := Edged(table);
      r[0].frames >= r[1].frames && r[|r| - 1].frames >= r[|r| - 2].frames
    ensures Edged(Edged(table)) == Edged(table)
  {
  }

  // ---------------------------------------------------------------------------
  // Frame times

  /** `fps_df[fps_df.Time == t].fps.sum()`. */
  function RateOf(table: seq<Count>, t: int): nat
  {
    if table == [] then 0
    else (if table[0].second == t then table[0].frames else 0) + RateOf(table[1..], t)
  }

  /** In a table of distinct seconds, the sum picks the one row. */
  lemma {:induction false} RateOfRow(table: seq<Count>, k: int)
    requires Ascends(table) && 0 <= k < |table|
    ensures RateOf(table, table[k].second) == table[k].frames
  {
    if k == 0 {
      RateOfAbsent(table[1..], table[0].second);
    } else {
      assert table[0].second < table[k].second;
      assert table[1..][k - 1] == table[k];
      RateOfRow(table[1..], k - 1);
    }
  }

  lemma {:induction false} RateOfAbsent(table: seq<Count>, t: int)
    requires forall k :: 0 <= k < |table| ==> table[k].second > t
    ensures RateOf(table, t) == 0
  {
    if table != [] {
      assert table[0].second > t;
      RateOfAbsent(table[1..], t);
    }
  }

  function RateIn(table: seq<Count>): Frame -> nat
  {
    (f: Frame) => RateOf(table, f.second)
  }

  /** `fps_series`: each frame's rate is the (corrected) count of its second. */
  lemma FrameRates(frames: seq<Frame>, table: seq<Count>)
    requires Ascends(table)
    requires forall k :: 0 <= k < |table| ==> table[k].frames > 0
    requires forall i :: 0 <= i < |frames| ==> frames[i].second in Map(table, CountSecond)
    ensures forall i :: 0 <= i < |frames| ==> Map(frames, RateIn(table))[i] > 0
    ensures forall i, k :: 0 <= i < |frames| && 0 <= k < |table| && table[k].second == frames[i].second
                           ==> Map(frames, RateIn(table))[i] == table[k].frames
  {
    var rates := Map(frames, RateIn(table));
    forall i, k | 0 <= i < |frames| && 0 <= k < |table| && table[k].second == frames[i].second
      ensures rates[i] == table[k].frames
    {
      RateOfRow(table, k);
    }
    forall i | 0 <= i < |frames|
      ensures rates[i] > 0
    {
      var k :| 0 <= k < |table| && Map(table, CountSecond)[k] == frames[i].second;
      RateOfRow(table, k);
    }
  }

  /** `(fps_series.shift(1) ** -1).cumsum()` with the first time set to 0:
      each frame is taken one period of the previous frame's rate after it. */
  function Times(rates: seq<nat>): (t: seq<real>)
    requires forall i :: 0 <= i < |rates| ==> rates[i] > 0
    ensures |t| == |rates|
    ensures |t| > 0 ==> t[0] == 0.0
    ensures forall i :: 0 < i < |t| ==> t[i] == t[i - 1] + Period(rates[i - 1])
    decreases |rates|
  {
    if rates == [] then []
    else if |rates| == 1 then [0.0]
    else
      var p := Times(rates[..|rates| - 1]);
      p + [p[|p| - 1] + Period(rates[|rates| - 2])]
  }

  /** The time between a frame and the next at `rate` frames per second. */
  function Period(rate: nat): (p: real)
    requires rate > 0
    ensures 0.0 < p <= 1.0
  {
    var p := 1.0 / rate as real;
    assert p * rate as real == 1.0;
    p
  }

  /** Times strictly increase. */
  lemma {:induction false} TimesIncrease(rates: seq<nat>, i: int, j: int)
    requires forall k :: 0 <= k < |rates| ==> rates[k] > 0
    requires 0 <= i < j < |rates|
    ensures Times(rates)[i] < Times(rates)[j]
    decreases j
  {
    var t := Times(rates);
    assert t[j] == t[j - 1] + Period(rates[j - 1]);
    if i < j - 1 {
      TimesIncrease(rates, i, j - 1);
    }
  }

  /** No frame is later than its index in seconds: no second holds fewer
      than one frame. */
  lemma {:induction false} TimesBounded(rates: seq<nat>, j: int)
    requires forall k :: 0 <= k < |rates| ==> rates[k] > 0
    requires 0 <= j < |rates|
    ensures Times(rates)[j] <= j as real
  {
    if j > 0 {
      var t := Times(rates);
      assert t[j] == t[j - 1] + Period(rates[j - 1]);
      TimesBounded(rates, j - 1);
    }
  }

  /** At a steady rate the i-th frame is taken at `i / rate`. */
  lemma {:induction false} SteadyTimes(rates: seq<nat>, rate: nat, i: int)
    requires rate > 0 && forall k :: 0 <= k < |rates| ==> rates[k] == rate
    requires 0 <= i < |rates|
    ensures Times(rates)[i] == i as real / rate as real
  {
    var t := Times(rates);
    if i == 0 {
      DivisionSign(0.0, rate as real);
    } else {
      SteadyTimes(rates, rate, i - 1);
      assert t[i] == t[i - 1] + Period(rate);
      DivisionAdds((i - 1) as real, 1.0, rate as real);
      assert (i - 1) as real + 1.0 == i as real;
    }
  }

  // ---------------------------------------------------------------------------
  // Slice numbers and the time dictionary

  function SliceOfFrame(f: Frame): int
  {
    f.slice
  }

  function Shifted(low: int): Frame -> int
  {
    (f: Frame) => f.slice - low + 1
  }

  /** `Slice - Slice.min() + 1`: the slices renumbered to start from 1, gaps
      and order kept. */
  function Renumbered(frames: seq<Frame>): (slices: seq<int>)
    ensures |slices| == |frames|
    ensures forall i :: 0 <= i < |slices| ==> slices[i] >= 1
    ensures frames != [] ==> 1 in slices
    ensures forall i, j :: 0 <= i < |slices| && 0 <= j < |slices| ==> slices[i] - slices[j] == frames[i].slice - frames[j].slice
  {
    if frames == [] then []
    else
      var all := Map(frames, SliceOfFrame);
      var low := Least(all);
      var slices := Map(frames, Shifted(low));
      assert forall i :: 0 <= i < |frames| ==> all[i] == frames[i].slice && all[i] in all;
      var k :| 0 <= k < |all| && all[k] == low;
      assert slices[k] == 1;
      slices
  }

  /** `set_index("Slice").to_dict()["Time"]`: a dictionary from slice to
      time, in which a later row overwrites an earlier one with the same
      slice. */
  function TimeTable(slices: seq<int>, times: seq<real>): (m: map<int, real>)
    requires |slices| == |times|
    ensures forall s :: s in m <==> s in slices
    decreases |slices|
  {
    if slices == [] then map[]
    else
      var n := |slices| - 1;
      assert slices == slices[..n] + [slices[n]];
      TimeTable(slices[..n], times[..n])[slices[n] := times[n]]
  }

  /** A slice that no later row repeats maps to its own time. */
  lemma {:induction false} TimeTableAt(slices: seq<int>, times: seq<real>, i: int)
    requires |slices| == |times| && 0 <= i < |slices|
    requires forall j :: i < j < |slices| ==> slices[j] != slices[i]
    ensures slices[i] in TimeTable(slices, times)
    ensures TimeTable(slices, times)[slices[i]] == times[i]
    decreases |slices|
  {
    var n := |slices| - 1;
    if i < n {
      assert slices[n] != slices[i];
      TimeTableAt(slices[..n], times[..n], i);
    }
  }

  // ---------------------------------------------------------------------------
  // The whole computation

  /** The frame an image stands for (0 for what cannot be read). */
  function ImageFrame(image: Image): Frame
  {
    Frame(if SecondOf(image.stamp).Ok? then SecondOf(image.stamp).value else 0,
          if SliceOf(image.name).Ok? then SliceOf(image.name).value else 0)
  }

  function StampFrame(stamp: Stamp): Frame
  {
    Frame(if SecondOf(stamp.clock).Ok? then SecondOf(stamp.clock).value else 0, stamp.slice)
  }

  /** The timestamp table in slice order with its clocks read: every file
      name is read before any clock, and the clocks in slice order. */
  function Frames(images: seq<Image>): (r: Result<seq<Frame>>)
    ensures r.Ok? ==> |r.value| == |images|
    ensures r.Ok? ==> forall i, j :: 0 <= i < j < |r.value| ==> r.value[i].slice <= r.value[j].slice
  {
    var stamps :- Collect(images, Slicing);
    var sorted := SortBy(stamps, SliceKey);
    var frames :- Collect(sorted, Timing);
    assert forall i :: 0 <= i < |sorted| ==> frames[i].slice == sorted[i].slice;
    Ok(frames)
  }

  /** Every file name carries a slice number. */
  predicate NamesReadable(images: seq<Image>)
  {
    forall i :: 0 <= i < |images| ==> SliceOf(images[i].name).Ok?
  }

  /** Every stamp carries a clock time. */
  predicate StampsReadable(images: seq<Image>)
  {
    forall i :: 0 <= i < |images| ==> SecondOf(images[i].stamp).Ok?
  }

  predicate Readable(images: seq<Image>)
  {
    NamesReadable(images) && StampsReadable(images)
  }

  /** The table can be built exactly when every name and every stamp can be
      read, and it then holds one frame per image. */
  lemma FramesReadAll(images: seq<Image>)
    ensures Frames(images).Ok? <==> Readable(images)
    ensures Frames(images).Ok? ==> multiset(Frames(images).value) == multiset(Map(images, ImageFrame))
  {
    var named := Collect(images, Slicing);
    FramesStages(images);
    if named.Ok? {
      var stamps := named.value;
      var sorted := SortBy(stamps, SliceKey);
      ReadSorted(images, stamps, sorted);
      if Collect(sorted, Timing).Ok? {
        SortedContents(images, stamps, sorted);
      }
    } else {
      var i :| 0 <= i < |images| && Slicing(images[i]).Err?;
    }
  }

  /** The two reading passes of `Frames`. */
  lemma FramesStages(images: seq<Image>)
    ensures var named := Collect(images, Slicing);
      Frames(images).Ok? <==> named.Ok? && Collect(SortBy(named.value, SliceKey), Timing).Ok?
    ensures var named := Collect(images, Slicing);
      Frames(images).Ok? ==> Frames(images).value == Collect(SortBy(named.value, SliceKey), Timing).value
    ensures Collect(images, Slicing).Ok? <==> NamesReadable(images)
  {
  }

  /** Reading the clocks in slice order fails exactly when some image's
      clock cannot be read. */
  lemma ReadSorted(images: seq<Image>, stamps: seq<Stamp>, sorted: seq<Stamp>)
    requires |stamps| == |images|
    requires forall i :: 0 <= i < |images| ==> stamps[i].clock == images[i].stamp
    requires multiset(sorted) == multiset(stamps)
    ensures Collect(sorted, Timing).Ok? <==> StampsReadable(images)
  {
    SameMembers(sorted, stamps);
    if Collect(sorted, Timing).Ok? {
      forall i | 0 <= i < |images|
        ensures SecondOf(images[i].stamp).Ok?
      {
        assert stamps[i] in sorted;
        var j :| 0 <= j < |sorted| && sorted[j] == stamps[i];
        assert Timing(sorted[j]).Ok?;
      }
    } else {
      var j :| 0 <= j < |sorted| && Timing(sorted[j]).Err?;
      assert sorted[j] in stamps;
      var i :| 0 <= i < |stamps| && stamps[i] == sorted[j];
      assert SecondOf(images[i].stamp).Err?;
    }
  }

  /** The frames read in slice order are those of the images, rearranged. */
  lemma SortedContents(images: seq<Image>, stamps: seq<Stamp>, sorted: seq<Stamp>)
    requires |stamps| == |images|
    requires forall i :: 0 <= i < |images| ==> SliceOf(images[i].name).Ok?
    requires forall i :: 0 <= i < |images| ==> stamps[i] == Stamp(images[i].stamp, SliceOf(images[i].name).value)
    requires multiset(sorted) == multiset(stamps)
    requires Collect(sorted, Timing).Ok?
    ensures multiset(Collect(sorted, Timing).value) == multiset(Map(images, ImageFrame))
  {
    var read := Collect(sorted, Timing).value;
    assert read == Map(sorted, StampFrame);
    MapPermutation(sorted, stamps, StampFrame);
    assert Map(stamps, StampFrame) == Map(images, ImageFrame);
  }

  lemma SameMembers<T>(a: seq<T>, b: seq<T>)
    requires multiset(a) == multiset(b)
    ensures forall x :: x in a <==> x in b
  {
    forall x
      ensures x in a <==> x in b
    {
      assert x in a <==> x in multiset(a);
      assert x in b <==> x in multiset(b);
    }
  }

  function CountFrames(c: Count): nat
  {
    c.frames
  }

  /** Everything `Fps` computes from the timestamp table; with fewer than
      two seconds `fps_df.iloc[1, 1]` raises IndexError. */
  function Summarize(frames: seq<Frame>): (r: Result<Fps>)
    ensures r.Err? <==> |Counts(frames)| < 2
    ensures r.Err? ==> r.error.IndexError?
  {
    var table := Counts(frames);
    if |table| < 2 then Err(IndexError("single positional indexer is out-of-bounds"))
    else Ok(Fps(Start(table[0].second, table[0].frames, table[1].frames), Values(table), Dictionary(frames)))
  }

  /** `fps_df.fps.values[1:-1]`: the counts of all but the edge seconds. */
  function Values(table: seq<Count>): (values: seq<nat>)
    requires |table| >= 2
    ensures |values| == |table| - 2
    ensures forall k :: 0 <= k < |values| ==> values[k] == table[k + 1].frames
  {
    Map(table[1..|table| - 1], CountFrames)
  }

  /** `time_dict`: renumbered slice to time. */
  function Dictionary(frames: seq<Frame>): map<int, real>
    requires |Counts(frames)| >= 2
  {
    TimeTable(Renumbered(frames), Timeline(frames))
  }

  /** The time of every frame, from 0 for the first. */
  function Timeline(frames: seq<Frame>): (t: seq<real>)
    requires |Counts(frames)| >= 2
    ensures |t| == |frames|
  {
    Times(Rates(frames))
  }

  /** The frame rates behind the timeline. */
  function Rates(frames: seq<Frame>): (rates: seq<nat>)
    requires |Counts(frames)| >= 2
    ensures |rates| == |frames|
    ensures forall i :: 0 <= i < |frames| ==> rates[i] > 0
  {
    CountedRates(frames);
    Map(frames, RateIn(Edged(Counts(frames))))
  }

  lemma CountedRates(frames: seq<Frame>)
    requires |Counts(frames)| >= 2
    ensures forall i :: 0 <= i < |frames| ==> Map(frames, RateIn(Edged(Counts(frames))))[i] > 0
  {
    EdgedRates(frames, Counts(frames));
  }

  /** The corrected table keeps the seconds, so every frame finds a
      positive rate in it. */
  lemma EdgedRates(frames: seq<Frame>, table: seq<Count>)
    requires |table| >= 2 && Ascends(table)
    requires forall k :: 0 <= k < |table| ==> table[k].frames > 0
    requires forall i :: 0 <= i < |frames| ==> frames[i].second in Map(table, CountSecond)
    ensures forall i :: 0 <= i < |frames| ==> Map(frames, RateIn(Edged(table)))[i] > 0
    ensures forall i, k :: 0 <= i < |frames| && 0 <= k < |table| && table[k].second == frames[i].second
                           ==> Map(frames, RateIn(Edged(table)))[i] == Edged(table)[k].frames
  {
    var edged := Edged(table);
    assert Map(edged, CountSecond) == Map(table, CountSecond);
    assert Ascends(edged);
    FrameRates(frames, edged);
  }

  /** `Fps(images)`. */
  function GetFps(images: seq<Image>): (r: Result<Fps>)
    ensures images == [] ==> r.Err? && r.error.IndexError?
  {
    var frames :- Frames(images);
    Summarize(frames)
  }

  // ---------------------------------------------------------------------------
  // Properties of the whole computation

  /** There are two rows in `fps_df` exactly when two frames fall in
      different seconds. */
  lemma TwoSeconds(frames: seq<Frame>)
    ensures |Counts(frames)| >= 2 <==> Spread(frames)
  {
    var table := Counts(frames);
    CountsRows(frames);
    if |table| >= 2 {
      assert table[0].second in SecondsOf(frames) && table[1].second in SecondsOf(frames);
      var f :| f in frames && f.second == table[0].second;
      var g :| g in frames && g.second == table[1].second;
      var i :| 0 <= i < |frames| && frames[i] == f;
      var j :| 0 <= j < |frames| && frames[j] == g;
      assert frames[i].second != frames[j].second;
    }
    if Spread(frames) {
      var i, j :| 0 <= i < |frames| && 0 <= j < |frames| && frames[i].second != frames[j].second;
      DistinctRows(table, frames[i].second, frames[j].second);
    }
  }

  lemma DistinctRows(table: seq<Count>, a: int, b: int)
    requires a in Map(table, CountSecond) && b in Map(table, CountSecond) && a != b
    ensures |table| >= 2
  {
    var k :| 0 <= k < |table| && Map(table, CountSecond)[k] == a;
    var l :| 0 <= l < |table| && Map(table, CountSecond)[l] == b;
  }

  /** The start lies in the earliest second: at its beginning when that
      second holds at least as many frames as the next one, later the fewer
      frames it holds. */
  lemma SummarizeStart(frames: seq<Frame>)
    requires Summarize(frames).Ok?
    ensures frames != []
    ensures var t0 := Least(Map(frames, SecondOfFrame)) as real;
      t0 <= Summarize(frames).value.start < t0 + 1.0
    ensures (Summarize(frames).value.start == Least(Map(frames, SecondOfFrame)) as real)
        <==> Counts(frames)[0].frames >= Counts(frames)[1].frames
  {
    EarliestLeast(frames);
  }

  /** The first row of `fps_df` is the least second of any frame. */
  lemma EarliestLeast(frames: seq<Frame>)
    requires |Counts(frames)| > 0
    ensures frames != [] && Least(Map(frames, SecondOfFrame)) == Counts(frames)[0].second
  {
    CountsRows(frames);
    LeastSecond(frames, Counts(frames)[0].second);
    CountsStartEarliest(frames);
  }

  /** A second of some frame, no later than any frame's, is the least. */
  lemma LeastSecond(frames: seq<Frame>, t: int)
    requires t in SecondsOf(frames)
    ensures frames != []
    ensures (forall i :: 0 <= i < |frames| ==> t <= frames[i].second) ==> Least(Map(frames, SecondOfFrame)) == t
  {
    var f :| f in frames && f.second == t;
    var j :| 0 <= j < |frames| && frames[j] == f;
    var all := Map(frames, SecondOfFrame);
    assert all[j] == t;
    if forall i :: 0 <= i < |frames| ==> t <= frames[i].second {
      forall x | x in all
        ensures t <= x
      {
        var k :| 0 <= k < |all| && all[k] == x;
        assert all[k] == frames[k].second;
      }
      LeastIs(all, t);
    }
  }

  lemma LeastIs(xs: seq<int>, t: int)
    requires t in xs && forall x :: x in xs ==> t <= x
    ensures Least(xs) == t
  {
  }

  /** `values` holds the frame counts of the seconds strictly between the
      first and the last, uncorrected. */
  lemma SummarizeValues(frames: seq<Frame>)
    requires Summarize(frames).Ok?
    ensures Summarize(frames).value.values == Values(Counts(frames))
    ensures |Summarize(frames).value.values| == |Counts(frames)| - 2
  {
  }

  lemma ValuesInterior(frames: seq<Frame>)
    requires |Counts(frames)| >= 2
    ensures forall k :: 0 <= k < |Values(Counts(frames))| ==>
      Values(Counts(frames))[k] == CountOf(frames, Counts(frames)[k + 1].second)
    ensures forall j :: 0 < j < |Counts(frames)| - 1 ==>
      Counts(frames)[0].second < Counts(frames)[j].second < Counts(frames)[|Counts(frames)| - 1].second
  {
    CountsRows(frames);
    ValuesOf(Counts(frames), frames);
  }

  lemma ValuesOf(table: seq<Count>, frames: seq<Frame>)
    requires |table| >= 2 && Ascends(table)
    requires forall k :: 0 <= k < |table| ==> table[k].frames == CountOf(frames, table[k].second)
    ensures forall k :: 0 <= k < |Values(table)| ==> Values(table)[k] == CountOf(frames, table[k + 1].second)
    ensures forall j :: 0 < j < |table| - 1 ==> table[0].second < table[j].second < table[|table| - 1].second
  {
  }

  /** The first frame is at time 0, every later frame one period of the
      previous frame's rate after it, and times increase. */
  lemma TimelineSteps(frames: seq<Frame>, i: int)
    requires |Counts(frames)| >= 2 && 0 < i < |frames|
    ensures Timeline(frames)[0] == 0.0
    ensures Timeline(frames)[i] == Timeline(frames)[i - 1] + Period(Rates(frames)[i - 1])
    ensures Timeline(frames)[i - 1] < Timeline(frames)[i]
  {
    TimesIncrease(Rates(frames), i - 1, i);
  }

  /** A frame's rate is the corrected count of its second; inside the
      recording that is the plain number of frames taken in that second. */
  lemma RateOfFrame(frames: seq<Frame>, i: int, k: int)
    requires |Counts(frames)| >= 2
    requires 0 <= i < |frames| && 0 <= k < |Counts(frames)|
    requires Counts(frames)[k].second == frames[i].second
    ensures Rates(frames)[i] == Edged(Counts(frames))[k].frames
    ensures 0 < k < |Counts(frames)| - 1 ==> Rates(frames)[i] == CountOf(frames, frames[i].second)
  {
    var table := Counts(frames);
    EdgedRates(frames, table);
  }

  /** The dictionary maps each renumbered slice to its frame's time when no
      other frame has the same slice. */
  lemma SummarizeTimes(frames: seq<Frame>, i: int)
    requires Summarize(frames).Ok? && 0 <= i < |frames|
    requires forall j :: 0 <= j < |frames| && j != i ==> frames[j].slice != frames[i].slice
    ensures Renumbered(frames)[i] in Summarize(frames).value.times
    ensures Summarize(frames).value.times[Renumbered(frames)[i]] == Timeline(frames)[i]
  {
    assert Summarize(frames).value.times == Dictionary(frames);
    RenumberedAt(frames, Timeline(frames), i);
  }

  lemma RenumberedAt(frames: seq<Frame>, times: seq<real>, i: int)
    requires |times| == |frames| && 0 <= i < |frames|
    requires forall j :: 0 <= j < |frames| && j != i ==> frames[j].slice != frames[i].slice
    ensures Renumbered(frames)[i] in TimeTable(Renumbered(frames), times)
    ensures TimeTable(Renumbered(frames), times)[Renumbered(frames)[i]] == times[i]
  {
    var slices := Renumbered(frames);
    forall j | i < j < |slices|
      ensures slices[j] != slices[i]
    {
      assert slices[j] - slices[i] == frames[j].slice - frames[i].slice;
    }
    TimeTableAt(slices, times, i);
  }

  /** Two stamps read as different seconds. */
  predicate ClocksDiffer(images: seq<Image>)
  {
    exists i, j :: 0 <= i < |images| && 0 <= j < |images| && SecondOf(images[i].stamp) != SecondOf(images[j].stamp)
  }

  /** `Fps` succeeds exactly when every name and stamp can be read and the
      images span at least two seconds. */
  lemma GetFpsSucceeds(images: seq<Image>)
    ensures GetFps(images).Ok? <==> Readable(images) && ClocksDiffer(images)
  {
    FramesReadAll(images);
    GetFpsStages(images);
    if Frames(images).Ok? {
      SummarizeReadable(images);
    }
  }

  lemma GetFpsStages(images: seq<Image>)
    ensures GetFps(images).Ok? <==> Frames(images).Ok? && Summarize(Frames(images).value).Ok?
  {
  }

  lemma SummarizeReadable(images: seq<Image>)
    requires Frames(images).Ok?
    ensures Summarize(Frames(images).value).Ok? <==> ClocksDiffer(images)
  {
    var frames := Frames(images).value;
    FramesReadAll(images);
    TwoSeconds(frames);
    SpreadKept(frames, Map(images, ImageFrame));
    ImageSeconds(images);
  }

  predicate Spread(frames: seq<Frame>)
  {
    exists i, j :: 0 <= i < |frames| && 0 <= j < |frames| && frames[i].second != frames[j].second
  }

  lemma SpreadKept(a: seq<Frame>, b: seq<Frame>)
    requires multiset(a) == multiset(b)
    ensures Spread(a) <==> Spread(b)
  {
    SameMembers(a, b);
    if Spread(a) {
      var i, j :| 0 <= i < |a| && 0 <= j < |a| && a[i].second != a[j].second;
      assert a[i] in b && a[j] in b;
      var k :| 0 <= k < |b| && b[k] == a[i];
      var l :| 0 <= l < |b| && b[l] == a[j];
    }
    if Spread(b) {
      var i, j :| 0 <= i < |b| && 0 <= j < |b| && b[i].second != b[j].second;
      assert b[i] in a && b[j] in a;
      var k :| 0 <= k < |a| && a[k] == b[i];
      var l :| 0 <= l < |a| && a[l] == b[j];
    }
  }

  lemma ImageSeconds(images: seq<Image>)
    requires StampsReadable(images)
    ensures Spread(Map(images, ImageFrame)) <==> ClocksDiffer(images)
  {
    var mine := Map(images, ImageFrame);
    if Spread(mine) {
      var i, j :| 0 <= i < |mine| && 0 <= j < |mine| && mine[i].second != mine[j].second;
      ImageSecondAt(images, i);
      ImageSecondAt(images, j);
    }
    if ClocksDiffer(images) {
      var i, j :| 0 <= i < |images| && 0 <= j < |images| && SecondOf(images[i].stamp) != SecondOf(images[j].stamp);
      ImageSecondAt(images, i);
      ImageSecondAt(images, j);
    }
  }

  lemma ImageSecondAt(images: seq<Image>, i: int)
    requires 0 <= i < |images| && SecondOf(images[i].stamp).Ok?
    ensures SecondOf(images[i].stamp) == Ok(Map(images, ImageFrame)[i].second)
  {
  }
}
