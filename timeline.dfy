/** Rows of binary samples and the pure row edits the driver class performs. */
module Timeline {

  /** round(a / b) with Python's round-half-to-even, for exact rationals. */
  function RoundDiv(a: nat, b: nat): (r: nat)
    requires b > 0
    ensures a / b <= r <= a / b + 1
    ensures 2 * (a % b) < b ==> r == a / b
    ensures 2 * (a % b) > b ==> r == a / b + 1
    ensures 2 * (a % b) == b ==> r % 2 == 0
    ensures a % b == 0 ==> r * b == a
  {
    var q, m := a / b, a % b;
    if 2 * m < b then q
    else if 2 * m > b then q + 1
    else if q % 2 == 0 then q
    else q + 1
  }

  function Zeros(n: nat): (r: seq<bool>)
    ensures |r| == n && forall j :: 0 <= j < n ==> !r[j]
  {
    seq(n, _ => false)
  }

  function Ones(n: nat): (r: seq<bool>)
    ensures |r| == n && forall j :: 0 <= j < n ==> r[j]
  {
    seq(n, _ => true)
  }

  /** Python's row[stop:-1]: from index stop up to, not including, the last sample. */
  function PyTail(row: seq<bool>, stop: nat): (r: seq<bool>)
    ensures |r| == if stop + 1 < |row| then |row| - 1 - stop else 0
    ensures forall j :: 0 <= j < |r| ==> r[j] == row[stop + j]
  {
    if stop + 1 < |row| then row[stop..|row| - 1] else []
  }

  /** The length of the row _set writes: the old one, or one more when stop is
      the last index plus one (row[stop:-1] is then empty). */
  function SetLength(row: seq<bool>, stop: nat): nat
  {
    stop + 1 + (if stop + 1 < |row| then |row| - 1 - stop else 0)
  }

  /** Sample j of the row _set writes: samples before start are kept, start..stop
      take val, and every later sample is the old sample one position to its left. */
  function SetSample(row: seq<bool>, start: nat, stop: nat, val: bool, j: nat): bool
    requires start <= stop && start <= |row| && j < SetLength(row, stop)
  {
    if j < start then row[j] else if j <= stop then val else row[j - 1]
  }

  /** The first k samples of the row _set writes. */
  function SetPrefix(row: seq<bool>, start: nat, stop: nat, val: bool, k: nat): (r: seq<bool>)
    requires start <= stop && start <= |row| && k <= SetLength(row, stop)
    ensures |r| == k
  {
    if k == 0 then [] else SetPrefix(row, start, stop, val, k - 1) + [SetSample(row, start, stop, val, k - 1)]
  }

  /** Sample j of SetPrefix is SetSample j. */
  lemma {:induction false} SetPrefixSamples(row: seq<bool>, start: nat, stop: nat, val: bool, k: nat)
    requires start <= stop && start <= |row| && k <= SetLength(row, stop)
    ensures forall j :: 0 <= j < k ==> SetPrefix(row, start, stop, val, k)[j] == SetSample(row, start, stop, val, j)
  {
    if k > 0 {
      SetPrefixSamples(row, start, stop, val, k - 1);
    }
  }

  /** The row _set writes. */
  function SetRow(row: seq<bool>, start: nat, stop: nat, val: bool): (r: seq<bool>)
    requires start <= stop && start <= |row|
    ensures |r| == SetLength(row, stop)
    ensures stop < |row| ==> |r| == |row|
    ensures stop == |row| ==> |r| == |row| + 1
  {
    SetPrefix(row, start, stop, val, SetLength(row, stop))
  }

  /** Samples before start are kept, start..stop take val, and every later sample
      is the old sample one position to its left. */
  lemma {:induction false} SetRowSamples(row: seq<bool>, start: nat, stop: nat, val: bool)
    requires start <= stop && start <= |row|
    ensures var r := SetRow(row, start, stop, val);
            && (forall j :: 0 <= j < start ==> r[j] == row[j])
            && (forall j :: start <= j <= stop ==> r[j] == val)
            && (forall j :: stop < j < |r| ==> r[j] == row[j - 1])
  {
    SetPrefixSamples(row, start, stop, val, SetLength(row, stop));
  }

  /** SetRow is the concatenation _set builds: row[:start] + [val] * (stop - start + 1)
      + row[stop:-1]. */
  lemma {:induction false} SetRowSlices(row: seq<bool>, start: nat, stop: nat, val: bool)
    requires start <= stop && start <= |row|
    ensures SetRow(row, start, stop, val) == row[..start] + seq(stop - start + 1, _ => val) + PyTail(row, stop)
  {
    var r := SetRow(row, start, stop, val);
    var head, mid, tail := row[..start], seq(stop - start + 1, _ => val), PyTail(row, stop);
    var w := head + mid + tail;
    SetRowSamples(row, start, stop, val);
    assert |r| == |w|;
    forall j | 0 <= j < |r| ensures r[j] == w[j] {
      if j > stop {
        assert w[j] == tail[j - stop - 1];
      }
    }
  }

  /** The samples t clock periods of half-period h cover: 2 * h * t, built up one
      period at a time so that each step is a plain addition. */
  function ClockSpan(h: nat, t: nat): (n: nat)
    ensures h > 0 ==> n >= 2 * t
  {
    if t == 0 then 0 else ClockSpan(h, t - 1) + 2 * h
  }

  lemma {:induction false} ClockSpanIsProduct(h: nat, t: nat)
    ensures ClockSpan(h, t) == 2 * h * t
  {
    if t > 0 {
      ClockSpanIsProduct(h, t - 1);
      assert 2 * h * t == 2 * h * (t - 1) + 2 * h;
    }
  }

  /** The row after t periods of make_clock: each period is an `on` of h
      samples followed by an `off` of h samples. */
  function ClockRow(row: seq<bool>, h: nat, t: nat): (r: seq<bool>)
    requires h > 0 && ClockSpan(h, t) <= |row|
    ensures |r| == |row|
  {
    if t == 0 then row else ClockPeriod(ClockRow(row, h, t - 1), ClockSpan(h, t - 1), h)
  }

  /** One period of make_clock at sample c: an `on` over samples c..c+h-1, then
      an `off` over samples c+h..c+2h-1. */
  function ClockPeriod(row: seq<bool>, c: nat, h: nat): (r: seq<bool>)
    requires h > 0 && c + 2 * h <= |row|
    ensures |r| == |row|
  {
    SetRow(SetRow(row, c, c + h - 1, true), c + h, c + 2 * h - 1, false)
  }

  /** The row after t + 1 periods is one more period over the row after t. */
  lemma {:induction false} ClockRowNext(row: seq<bool>, h: nat, t: nat)
    requires h > 0 && ClockSpan(h, t + 1) <= |row|
    ensures ClockSpan(h, t + 1) == ClockSpan(h, t) + 2 * h
    ensures ClockRow(row, h, t + 1) == ClockPeriod(ClockRow(row, h, t), ClockSpan(h, t), h)
  {
  }

  /** A row that keeps the prefix p of prev and then holds one clock period. */
  lemma PrefixStep(r: seq<bool>, prev: seq<bool>, c: nat, h: nat, p: seq<bool>)
    requires c + 2 * h <= |r| && c <= |prev| && prev[..c] == p
    requires r[..c] == prev[..c] && r[c..c + 2 * h] == Ones(h) + Zeros(h)
    ensures r[..c + 2 * h] == p + Ones(h) + Zeros(h)
  {
    assert r[..c + 2 * h] == r[..c] + r[c..c + 2 * h];
  }

  /** One period written at sample c of any row: the samples before c are kept,
      c..c+2h-1 hold h highs and h lows, and every later sample is the old sample
      two places to its left (each of the two writes shifts the tail by one). */
  lemma {:induction false} PeriodShift(prev: seq<bool>, c: nat, h: nat)
    requires h > 0 && c + 2 * h <= |prev|
    ensures var r := ClockPeriod(prev, c, h);
            && r[..c] == prev[..c]
            && r[c..c + 2 * h] == Ones(h) + Zeros(h)
            && forall j :: c + 2 * h <= j < |prev| ==> r[j] == prev[j - 2]
  {
    var high := SetRow(prev, c, c + h - 1, true);
    var r := SetRow(high, c + h, c + 2 * h - 1, false);
    SetRowSamples(prev, c, c + h - 1, true);
    SetRowSamples(high, c + h, c + 2 * h - 1, false);
    assert r[..c] == prev[..c];
    assert r[c..c + 2 * h] == Ones(h) + Zeros(h) by {
      forall j | 0 <= j < 2 * h ensures r[c..c + 2 * h][j] == (Ones(h) + Zeros(h))[j] {
        assert r[c..c + 2 * h][j] == r[c + j];
      }
    }
    forall j | c + 2 * h <= j < |prev| ensures r[j] == prev[j - 2] {
      assert high[j - 1] == prev[j - 2];
    }
  }

  /** make_clock over any row: the first 2 * h * t samples hold the clock pattern,
      and every later sample is the old sample 2 * t places to its left, so an
      earlier pulse moves right by 2 * t samples and the last 2 * t samples are lost. */
  lemma {:induction false} ClockOverRow(row: seq<bool>, h: nat, t: nat)
    requires h > 0 && ClockSpan(h, t) <= |row|
    ensures var r := ClockRow(row, h, t);
            && r[..ClockSpan(h, t)] == ClockPattern(h, t)
            && forall j :: ClockSpan(h, t) <= j < |row| ==> r[j] == row[j - 2 * t]
  {
    ClockPrefix(row, h, t);
    ClockTail(row, h, t);
  }

  /** The first 2 * h * t samples after t periods are the clock pattern. */
  lemma {:induction false} ClockPrefix(row: seq<bool>, h: nat, t: nat)
    requires h > 0 && ClockSpan(h, t) <= |row|
    ensures ClockRow(row, h, t)[..ClockSpan(h, t)] == ClockPattern(h, t)
  {
    if t > 0 {
      assert ClockSpan(h, t) == ClockSpan(h, t - 1) + 2 * h;
      ClockPrefix(row, h, t - 1);
      var c := ClockSpan(h, t - 1);
      var prev := ClockRow(row, h, t - 1);
      PeriodShift(prev, c, h);
      PrefixStep(ClockPeriod(prev, c, h), prev, c, h, ClockPattern(h, t - 1));
    }
  }

  /** After t periods, every sample from 2 * h * t on is the old one 2 * t places to its left. */
  lemma {:induction false} ClockTail(row: seq<bool>, h: nat, t: nat)
    requires h > 0 && ClockSpan(h, t) <= |row|
    ensures forall j :: ClockSpan(h, t) <= j < |row| ==> ClockRow(row, h, t)[j] == row[j - 2 * t]
  {
    if t > 0 {
      ClockTail(row, h, t - 1);
      var c := ClockSpan(h, t - 1);
      var prev := ClockRow(row, h, t - 1);
      PeriodShift(prev, c, h);
      var r := ClockRow(row, h, t);
      assert r == ClockPeriod(prev, c, h);
      forall j | c + 2 * h <= j < |row| ensures r[j] == row[j - 2 * t] {
        assert r[j] == prev[j - 2];
      }
    }
  }

  /** t periods of a 50% duty-cycle clock of half-period h samples, high first. */
  function ClockPattern(h: nat, t: nat): (r: seq<bool>)
    ensures |r| == ClockSpan(h, t)
  {
    if t == 0 then [] else ClockPattern(h, t - 1) + Ones(h) + Zeros(h)
  }

  /** One clock period written at sample c of a row that is p (of length c) and then zero. */
  lemma {:induction false} PeriodWrite(prev: seq<bool>, p: seq<bool>, c: nat, e: nat, n: nat, h: nat)
    requires h > 0 && c == |p| && e == c + 2 * h <= n && prev == p + Zeros(n - c)
    ensures ClockPeriod(prev, c, h) == (p + Ones(h) + Zeros(h)) + Zeros(n - e)
  {
    var high := SetRow(prev, c, c + h - 1, true);
    var r := SetRow(high, c + h, c + 2 * h - 1, false);
    SetRowSamples(prev, c, c + h - 1, true);
    SetRowSamples(high, c + h, c + 2 * h - 1, false);
    var want := (p + Ones(h) + Zeros(h)) + Zeros(n - e);
    assert |r| == |want| == n;
    forall j | 0 <= j < n ensures r[j] == want[j] {
      if j >= c + 2 * h {
        assert high[j - 1] == prev[j - 2];
      }
    }
  }

  /** Period t of make_clock, written on a row that holds t - 1 periods and then zeros. */
  lemma {:induction false} ClockStep(n: nat, h: nat, t: nat, p: seq<bool>)
    requires h > 0 && t > 0 && ClockSpan(h, t) <= n && |p| == ClockSpan(h, t - 1)
    requires ClockRow(Zeros(n), h, t - 1) == p + Zeros(n - ClockSpan(h, t - 1))
    ensures ClockRow(Zeros(n), h, t) == (p + Ones(h) + Zeros(h)) + Zeros(n - ClockSpan(h, t))
  {
    var c := ClockSpan(h, t - 1);
    var prev := ClockRow(Zeros(n), h, t - 1);
    assert ClockSpan(h, t) == c + 2 * h;
    PeriodWrite(prev, p, c, ClockSpan(h, t), n, h);
  }

  /** On an all-zero row, make_clock writes exactly t clock periods from sample 0
      and leaves every later sample at 0, despite the tail shift of each write. */
  lemma {:induction false} ClockFromZeros(n: nat, h: nat, t: nat)
    requires h > 0 && ClockSpan(h, t) <= n
    ensures ClockRow(Zeros(n), h, t) == ClockPattern(h, t) + Zeros(n - ClockSpan(h, t))
  {
    if t > 0 {
      ClockFromZeros(n, h, t - 1);
      ClockStep(n, h, t, ClockPattern(h, t - 1));
    }
  }
}
