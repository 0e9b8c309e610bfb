/** The minimum-pulse rule the validator enforces, as a reference definition over runs. */
module Validation {
  import opened Wrappers
  import opened Errors
  import opened Runs
  import opened Instructions

  /** The first position of a smallest element: what a left-to-right scan
      that replaces its minimum only on a strictly smaller value finds. */
  function FirstMin(s: seq<nat>): (k: nat)
    requires |s| > 0
    ensures k < |s|
    ensures forall j :: 0 <= j < |s| ==> s[k] <= s[j]
    ensures forall j :: 0 <= j < k ==> s[k] < s[j]
  {
    if |s| == 1 then 0
    else
      var k := FirstMin(s[..|s| - 1]);
      if s[|s| - 1] < s[k] then |s| - 1 else k
  }

  /** FirstMin of a prefix grown by one element: the scan's strict-less-than step. */
  lemma {:induction false} FirstMinSnoc(s: seq<nat>, m: nat)
    requires m < |s|
    ensures m == 0 ==> FirstMin(s[..m + 1]) == 0
    ensures m > 0 ==>
              FirstMin(s[..m + 1]) == (if s[m] < s[FirstMin(s[..m])] then m else FirstMin(s[..m]))
  {
    if m > 0 {
      assert s[..m + 1][..m] == s[..m];
    }
  }

  /** A change point at sample i is the start of run m + 1, where m counts the
      change points below i. */
  lemma {:induction false} CloseRun(rows: seq<seq<bool>>, i: nat)
    requires Rect(rows) && 1 <= i < Width(rows) && IsChange(rows, i)
    ensures var m := |Changes(rows, i)|;
            && Changes(rows, i + 1) == Changes(rows, i) + [i]
            && m + 1 < |Starts(rows)| && Starts(rows)[m + 1] == i
  {
    var c, cw, st := Changes(rows, i), Changes(rows, Width(rows)), Starts(rows);
    var m := |c|;
    ChangeAt(rows, i);
    assert st == [0] + cw;
    assert st[m + 1] == cw[m] == i;
  }

  /** Run m, followed by a run starting at i, has length i - Starts[m] and ends
      with the rows that differ at i. */
  lemma {:induction false} RunClosedAt(rows: seq<seq<bool>>, i: nat, m: nat)
    requires Rect(rows) && Width(rows) > 0 && m + 1 < |Starts(rows)| && Starts(rows)[m + 1] == i
    ensures Streaks(rows)[m] == i - Starts(rows)[m]
    ensures EndChannels(rows, m) == ChangedRows(rows, i)
  {
  }

  /** Without a change at sample i, the runs so far are unchanged. */
  lemma {:induction false} ExtendRun(rows: seq<seq<bool>>, i: nat)
    requires Rect(rows) && 1 <= i < Width(rows) && !IsChange(rows, i)
    ensures Changes(rows, i + 1) == Changes(rows, i)
    ensures |Changes(rows, i + 1)| < |Starts(rows)|
  {
    ChangesPrefix(rows, i + 1, Width(rows));
  }

  /** The rows that changed where a run starts at sample `start`; none at sample 0. */
  function StartChannels(rows: seq<seq<bool>>, start: nat): seq<nat>
    requires Rect(rows) && (start > 0 ==> start < Width(rows))
  {
    if start > 0 then ChangedRows(rows, start) else []
  }

  /** The rows that changed where run j ends; none when it is the final run. */
  function EndChannels(rows: seq<seq<bool>>, j: nat): seq<nat>
    requires Rect(rows) && j < |Starts(rows)|
  {
    if j + 1 < |Starts(rows)| then
      var e := Starts(rows)[j + 1];
      ChangedRows(rows, e)
    else []
  }

  /** The variables of the validator's left-to-right scan. */
  datatype Scan = Scan(changes: seq<nat>, streakStart: nat, currentStreak: nat,
                       minStreak: ExtNat, minIndex: nat,
                       startChannels: seq<nat>, endChannels: seq<nat>)

  /** Where the scan stands after samples 1 .. i-1: the change points so far,
      and the start and length so far of the current run. */
  ghost predicate ScanPosition(rows: seq<seq<bool>>, i: nat, s: Scan)
    requires Rect(rows)
  {
    && 1 <= i && (i <= Width(rows) || (Width(rows) == 0 && i == 1))
    && s.changes == Changes(rows, if i <= Width(rows) then i else 0)
    && |s.changes| < |Starts(rows)|
    && s.streakStart == Starts(rows)[|s.changes|] && s.currentStreak == i - s.streakStart
  }

  /** The shortest of runs 0 .. m-1 as a left-to-right scan records it: none
      when m is 0, otherwise the first shortest, with its boundary channels. */
  datatype Shortest = Shortest(streak: ExtNat, index: nat, startChannels: seq<nat>, endChannels: seq<nat>)

  /** The record after runs 0 .. m-1: run k replaces it when there is none yet or
      run k is strictly shorter. */
  function ShortestOf(rows: seq<seq<bool>>, m: nat): Shortest
    requires Rect(rows) && m <= |Starts(rows)|
  {
    if m == 0 then Shortest(Inf, 0, [], [])
    else
      var b, k := ShortestOf(rows, m - 1), m - 1;
      var st := Starts(rows);
      if b.streak.Inf? || Streaks(rows)[k] < b.streak.n then
        Shortest(Fin(Streaks(rows)[k]), st[k], StartChannels(rows, st[k]), EndChannels(rows, k))
      else b
  }

  /** The record is the first shortest run among runs 0 .. m-1. */
  lemma {:induction false} ShortestIsFirstMin(rows: seq<seq<bool>>, m: nat)
    requires Rect(rows) && 0 < m <= |Starts(rows)|
    ensures var k := FirstMin(Streaks(rows)[..m]);
            ShortestOf(rows, m)
              == Shortest(Fin(Streaks(rows)[k]), Starts(rows)[k],
                          StartChannels(rows, Starts(rows)[k]), EndChannels(rows, k))
  {
    FirstMinSnoc(Streaks(rows), m - 1);
    if m > 1 {
      ShortestIsFirstMin(rows, m - 1);
    }
  }

  /** The minimum the scan holds once runs 0 .. m-1 are closed. */
  ghost predicate ScanMinimum(rows: seq<seq<bool>>, m: nat, s: Scan)
    requires Rect(rows) && m <= |Starts(rows)|
  {
    Shortest(s.minStreak, s.minIndex, s.startChannels, s.endChannels) == ShortestOf(rows, m)
  }

  /** Closing the current run at change point i and starting a new run there. */
  function ChangeStep(rows: seq<seq<bool>>, s: Scan, i: nat): Scan
    requires Rect(rows) && 1 <= i < Width(rows) && s.streakStart < i
  {
    Record(rows, s, ChangedRows(rows, i))
      .(changes := s.changes + [i], streakStart := i, currentStreak := 1)
  }

  /** The scan's variables after samples 1 .. i-1, one sample at a time. */
  ghost function ScanOf(rows: seq<seq<bool>>, i: nat): (s: Scan)
    requires Rect(rows) && 1 <= i && (i <= Width(rows) || (Width(rows) == 0 && i == 1))
    ensures s.streakStart < i
    decreases i
  {
    if i == 1 then Scan([], 0, 1, Inf, 0, [], [])
    else
      var s, j := ScanOf(rows, i - 1), i - 1;
      if IsChange(rows, j) then ChangeStep(rows, s, j)
      else s.(currentStreak := s.currentStreak + 1)
  }

  /** Every state the scan passes through has the change points and current run right. */
  lemma {:induction false} ScanOfPosition(rows: seq<seq<bool>>, i: nat)
    requires Rect(rows) && 1 <= i && (i <= Width(rows) || (Width(rows) == 0 && i == 1))
    ensures ScanPosition(rows, i, ScanOf(rows, i))
    decreases i
  {
    if i == 1 {
      if Width(rows) > 0 {
        assert Changes(rows, 1) == [];
      } else {
        assert Changes(rows, 0) == [];
      }
    } else {
      var j := i - 1;
      ScanOfPosition(rows, j);
      if IsChange(rows, j) {
        ChangePosition(rows, j, ScanOf(rows, j));
      } else {
        SamePosition(rows, j, ScanOf(rows, j));
      }
    }
  }

  /** Every state the scan passes through holds the first shortest of the runs it has closed. */
  lemma {:induction false} ScanOfMinimum(rows: seq<seq<bool>>, i: nat)
    requires Rect(rows) && 1 <= i && (i <= Width(rows) || (Width(rows) == 0 && i == 1))
    ensures |ScanOf(rows, i).changes| < |Starts(rows)|
    ensures ScanMinimum(rows, |ScanOf(rows, i).changes|, ScanOf(rows, i))
    decreases i
  {
    if i > 1 {
      ScanOfPosition(rows, i - 1);
      ScanOfMinimum(rows, i - 1);
      StepMinimum(rows, i);
    } else {
      ScanStartMinimum(rows);
    }
  }

  /** Before any sample is scanned, no run is closed and there is no minimum. */
  lemma {:induction false} ScanStartMinimum(rows: seq<seq<bool>>)
    requires Rect(rows)
    ensures |ScanOf(rows, 1).changes| == 0 < |Starts(rows)|
    ensures ScanMinimum(rows, 0, ScanOf(rows, 1))
  {
  }

  /** One step of the scan keeps the minimum right. */
  lemma {:induction false} StepMinimum(rows: seq<seq<bool>>, i: nat)
    requires Rect(rows) && 1 < i <= Width(rows)
    requires |ScanOf(rows, i - 1).changes| == |Changes(rows, i - 1)| < |Starts(rows)|
    requires ScanOf(rows, i - 1).streakStart == Starts(rows)[|ScanOf(rows, i - 1).changes|]
    requires ScanOf(rows, i - 1).currentStreak == i - 1 - ScanOf(rows, i - 1).streakStart
    requires ScanMinimum(rows, |ScanOf(rows, i - 1).changes|, ScanOf(rows, i - 1))
    ensures |ScanOf(rows, i).changes| < |Starts(rows)|
    ensures ScanMinimum(rows, |ScanOf(rows, i).changes|, ScanOf(rows, i))
  {
    var s := ScanOf(rows, i - 1);
    var m := |s.changes|;
    if IsChange(rows, i - 1) {
      var t := Record(rows, s, ChangedRows(rows, i - 1));
      ScanOfChange(rows, i);
      ChangeMinimum(rows, i - 1, m, s, t);
      MinimumKept(rows, m + 1, t, ScanOf(rows, i));
    } else {
      ScanOfSame(rows, i);
      MinimumKept(rows, m, s, ScanOf(rows, i));
    }
  }

  /** A change point closes the current run. */
  lemma {:induction false} ScanOfChange(rows: seq<seq<bool>>, i: nat)
    requires Rect(rows) && 1 < i <= Width(rows) && IsChange(rows, i - 1)
    ensures ScanOf(rows, i) == ChangeStep(rows, ScanOf(rows, i - 1), i - 1)
  {
  }

  /** Any other sample extends the current run. */
  lemma {:induction false} ScanOfSame(rows: seq<seq<bool>>, i: nat)
    requires Rect(rows) && 1 < i <= Width(rows) && !IsChange(rows, i - 1)
    ensures ScanOf(rows, i) == ScanOf(rows, i - 1).(currentStreak := ScanOf(rows, i - 1).currentStreak + 1)
  {
  }

  /** Closing the current run: it becomes the minimum when there is none yet or
      it is strictly shorter, with `endChannels` as its end list. */
  function Record(rows: seq<seq<bool>>, s: Scan, endChannels: seq<nat>): Scan
    requires Rect(rows) && (s.streakStart > 0 ==> s.streakStart < Width(rows))
  {
    if s.minStreak.Inf? || s.currentStreak < s.minStreak.n then
      s.(minStreak := Fin(s.currentStreak), minIndex := s.streakStart,
         startChannels := StartChannels(rows, s.streakStart), endChannels := endChannels)
    else s
  }

  /** Recording run m, whose start, length and end list the scan has right,
      keeps the minimum right for runs 0 .. m. */
  lemma {:induction false} RecordRun(rows: seq<seq<bool>>, m: nat, s: Scan, endChannels: seq<nat>, t: Scan)
    requires Rect(rows) && m < |Starts(rows)| && ScanMinimum(rows, m, s)
    requires s.streakStart == Starts(rows)[m] && s.currentStreak == Streaks(rows)[m]
    requires endChannels == EndChannels(rows, m)
    requires s.streakStart > 0 ==> s.streakStart < Width(rows)
    requires t.minStreak == Record(rows, s, endChannels).minStreak
    requires t.minIndex == Record(rows, s, endChannels).minIndex
    requires t.startChannels == Record(rows, s, endChannels).startChannels
    requires t.endChannels == Record(rows, s, endChannels).endChannels
    ensures ScanMinimum(rows, m + 1, t)
  {
  }

  /** The position part of a change step: change point i is appended and starts run m + 1. */
  lemma {:induction false} ChangePosition(rows: seq<seq<bool>>, i: nat, s: Scan)
    requires Rect(rows) && ScanPosition(rows, i, s) && i < Width(rows) && s.streakStart < i
    requires IsChange(rows, i)
    ensures ScanPosition(rows, i + 1, ChangeStep(rows, s, i))
  {
    CloseRun(rows, i);
  }

  /** Without a change at sample i the current run grows by one sample. */
  lemma {:induction false} SamePosition(rows: seq<seq<bool>>, i: nat, s: Scan)
    requires Rect(rows) && ScanPosition(rows, i, s) && i < Width(rows)
    requires !IsChange(rows, i)
    ensures ScanPosition(rows, i + 1, s.(currentStreak := s.currentStreak + 1))
  {
    ExtendRun(rows, i);
  }

  /** When run m closes at change point i, its length and end list are the ones the scan holds. */
  lemma {:induction false} ClosedRun(rows: seq<seq<bool>>, i: nat, m: nat, s: Scan)
    requires Rect(rows) && 1 <= i < Width(rows) && IsChange(rows, i)
    requires m == |Changes(rows, i)| && m < |Starts(rows)|
    requires s.streakStart == Starts(rows)[m] && s.currentStreak == i - s.streakStart
    ensures m + 1 < |Starts(rows)|
    ensures s.currentStreak == Streaks(rows)[m]
    ensures ChangedRows(rows, i) == EndChannels(rows, m)
  {
    CloseRun(rows, i);
    RunClosedAt(rows, i, m);
  }

  /** The minimum part of a change step: run m, now closed, is recorded. */
  lemma {:induction false} ChangeMinimum(rows: seq<seq<bool>>, i: nat, m: nat, s: Scan, t: Scan)
    requires Rect(rows) && 1 <= i < Width(rows) && IsChange(rows, i)
    requires m == |Changes(rows, i)| && m < |Starts(rows)|
    requires s.streakStart == Starts(rows)[m] && s.currentStreak == i - s.streakStart
    requires ScanMinimum(rows, m, s)
    requires t == Record(rows, s, ChangedRows(rows, i))
    ensures m + 1 < |Starts(rows)|
    ensures ScanMinimum(rows, m + 1, t)
  {
    ClosedRun(rows, i, m, s);
    RecordRun(rows, m, s, ChangedRows(rows, i), t);
  }

  /** The minimum depends only on the fields that hold it. */
  lemma {:induction false} MinimumKept(rows: seq<seq<bool>>, m: nat, s: Scan, t: Scan)
    requires Rect(rows) && m <= |Starts(rows)| && ScanMinimum(rows, m, s)
    requires t.minStreak == s.minStreak && t.minIndex == s.minIndex
    requires t.startChannels == s.startChannels && t.endChannels == s.endChannels
    ensures ScanMinimum(rows, m, t)
  {
  }

  /** After the last sample, closing the final run with no end list gives the
      diagnostic of the first shortest run. */
  lemma {:induction false} ScanDone(rows: seq<seq<bool>>, i: nat)
    requires Rect(rows) && 1 <= i && (i == Width(rows) || (Width(rows) == 0 && i == 1))
    ensures var s := ScanOf(rows, i);
            var t := Record(rows, s, []);
            && t.minStreak == Fin(Diagnose(rows).streak)
            && Diagnostic(t.minStreak.n, t.minIndex, s.changes, t.startChannels, t.endChannels)
               == Diagnose(rows)
  {
    var s := ScanOf(rows, i);
    ScanOfPosition(rows, i);
    ScanOfMinimum(rows, i);
    var t := Record(rows, s, []);
    var m := |s.changes|;
    assert s.streakStart == Starts(rows)[m] && s.currentStreak == i - s.streakStart;
    assert m + 1 == |Starts(rows)|;
    if Width(rows) > 0 {
      assert i == Width(rows) == RunEnd(rows, m);
    } else {
      assert i == 1 && s.streakStart == 0;
    }
    assert Streaks(rows)[m] == s.currentStreak;
    assert s.changes == Changes(rows, Width(rows));
    assert ScanMinimum(rows, m + 1, t) by {
      RecordRun(rows, m, s, [], t);
    }
    MinimumComplete(rows, t);
  }

  /** Once every run is recorded, the minimum is the one Diagnose reports. */
  lemma {:induction false} MinimumComplete(rows: seq<seq<bool>>, t: Scan)
    requires Rect(rows) && ScanMinimum(rows, |Starts(rows)|, t)
    ensures t.minStreak == Fin(Diagnose(rows).streak)
    ensures t.minIndex == Diagnose(rows).index
    ensures t.startChannels == Diagnose(rows).startChannels
    ensures t.endChannels == Diagnose(rows).endChannels
  {
    var streaks := Streaks(rows);
    ShortestIsFirstMin(rows, |Starts(rows)|);
    assert streaks[..|Starts(rows)|] == streaks;
  }

  /** The diagnostic for the first shortest run. */
  function Diagnose(rows: seq<seq<bool>>): Diagnostic
    requires Rect(rows)
  {
    var st := Starts(rows);
    var j := FirstMin(Streaks(rows));
    Diagnostic(Streaks(rows)[j], st[j], Changes(rows, Width(rows)),
               StartChannels(rows, st[j]), EndChannels(rows, j))
  }

  /** The validator's verdict for a required span of `span` samples. */
  function ValidateSpec(rows: seq<seq<bool>>, span: nat): Outcome<Error>
  {
    if !Rect(rows) then Fail(MalformedTimeline)
    else
      var d := Diagnose(rows);
      if d.streak < span then Fail(PulseTooShort(d)) else Pass
  }

  /** A timeline is rejected exactly when some run, the final one included, is
      shorter than the span; otherwise the only rejection is a malformed matrix. */
  lemma {:induction false} RejectsIffShortRun(rows: seq<seq<bool>>, span: nat)
    requires Rect(rows)
    ensures ValidateSpec(rows, span).Fail? <==>
              exists j :: 0 <= j < |Streaks(rows)| && Streaks(rows)[j] < span
    ensures ValidateSpec(rows, span).Fail? ==> ValidateSpec(rows, span).error.PulseTooShort?
  {
    var j := FirstMin(Streaks(rows));
    if Streaks(rows)[j] < span {
      assert 0 <= j < |Streaks(rows)| && Streaks(rows)[j] < span;
    }
  }

  /** The reported run is a shortest one and every earlier run is strictly longer;
      the change list is every change point, in increasing order. */
  lemma {:induction false} DiagnosticIsFirstShortest(rows: seq<seq<bool>>)
    requires Rect(rows)
    ensures var d := Diagnose(rows);
            exists j :: 0 <= j < |Starts(rows)| && Starts(rows)[j] == d.index && Streaks(rows)[j] == d.streak
              && (forall l :: 0 <= l < |Streaks(rows)| ==> Streaks(rows)[l] >= d.streak)
              && (forall l :: 0 <= l < j ==> Streaks(rows)[l] > d.streak)
    ensures var c := Diagnose(rows).changes;
            (forall k, l :: 0 <= k < l < |c| ==> c[k] < c[l])
            && forall e :: 1 <= e < Width(rows) ==> (e in c <==> IsChange(rows, e))
    ensures forall k :: 0 <= k < |Diagnose(rows).changes| ==> 1 <= Diagnose(rows).changes[k] < Width(rows)
  {
    var j := FirstMin(Streaks(rows));
    assert Starts(rows)[j] == Diagnose(rows).index;
    var c := Changes(rows, Width(rows));
    assert Diagnose(rows).changes == c;
    ChangesIncreasing(rows, Width(rows));
    forall e | 1 <= e < Width(rows) ensures e in c <==> IsChange(rows, e) {
    }
  }

  lemma {:induction false} DiffNonEmpty(a: seq<bool>, b: seq<bool>)
    requires |a| == |b|
    ensures Diff(a, b) == [] <==> a == b
  {
    if a != b {
      var p :| 0 <= p < |a| && a[p] != b[p];
      assert p in Diff(a, b);
    } else {
      DiffSame(a);
    }
  }

  lemma {:induction false} DiffSame(a: seq<bool>)
    ensures Diff(a, a) == []
  {
    if |a| > 0 {
      DiffSame(a[..|a| - 1]);
    }
  }

  /** The rows whose state differs between sample e and the one before: never none,
      since e is a change point. */
  lemma {:induction false} ChannelsAt(rows: seq<seq<bool>>, e: nat, r: seq<nat>)
    requires Rect(rows) && 1 <= e < Width(rows) && IsChange(rows, e)
    requires r == ChangedRows(rows, e)
    ensures r != []
    ensures forall p {:trigger p in r} :: 0 <= p < |rows| ==> (p in r <==> rows[p][e] != rows[p][e - 1])
  {
    DiffNonEmpty(Col(rows, e), Col(rows, e - 1));
  }

  /** The start list of run j: empty exactly when the run starts at sample 0,
      otherwise the rows that differ between its first sample and the one before. */
  lemma {:induction false} RunStartChannels(rows: seq<seq<bool>>, j: nat)
    requires Rect(rows) && j < |Starts(rows)|
    ensures Starts(rows)[j] > 0 ==> Starts(rows)[j] < Width(rows)
    ensures StartChannels(rows, Starts(rows)[j]) == [] <==> Starts(rows)[j] == 0
    ensures Starts(rows)[j] > 0 ==>
              forall p :: 0 <= p < |rows| ==>
                (p in StartChannels(rows, Starts(rows)[j]) <==> rows[p][Starts(rows)[j]] != rows[p][Starts(rows)[j] - 1])
  {
    var st := Starts(rows);
    if j > 0 {
      StartIsChange(rows, j);
      ChannelsAt(rows, st[j], StartChannels(rows, st[j]));
    }
  }

  /** The end list of run j: empty exactly when the run reaches the end of the
      timeline, otherwise the rows that differ between the sample after the run
      and its last sample. */
  lemma {:induction false} RunEndChannels(rows: seq<seq<bool>>, j: nat)
    requires Rect(rows) && j < |Starts(rows)|
    ensures var e := Starts(rows)[j] + Streaks(rows)[j];
            (EndChannels(rows, j) == [] <==> e >= Width(rows))
            && (e < Width(rows) ==>
                  && e >= 1
                  && forall p :: 0 <= p < |rows| ==> (p in EndChannels(rows, j) <==> rows[p][e] != rows[p][e - 1]))
  {
    var st := Starts(rows);
    if j + 1 < |st| {
      StartIsChange(rows, j + 1);
      ChannelsAt(rows, st[j + 1], EndChannels(rows, j));
    }
  }

  /** The start list is empty exactly when the run starts at sample 0; otherwise
      it lists the row positions (not pin numbers) whose state differs between
      the run's first sample and the sample before it. */
  lemma {:induction false} DiagnosticStartChannels(rows: seq<seq<bool>>)
    requires Rect(rows)
    ensures var d := Diagnose(rows);
            (d.startChannels == [] <==> d.index == 0)
            && (d.index > 0 ==>
                  && d.index < Width(rows)
                  && forall p :: 0 <= p < |rows| ==>
                       (p in d.startChannels <==> rows[p][d.index] != rows[p][d.index - 1]))
  {
    var j := FirstMin(Streaks(rows));
    assert Diagnose(rows).index == Starts(rows)[j];
    assert Diagnose(rows).startChannels == StartChannels(rows, Starts(rows)[j]);
    RunStartChannels(rows, j);
  }

  /** The end list is empty exactly when the run reaches the end of the timeline;
      otherwise it lists the row positions whose state differs between the sample
      after the run and the run's last sample. */
  lemma {:induction false} DiagnosticEndChannels(rows: seq<seq<bool>>)
    requires Rect(rows)
    ensures var d := Diagnose(rows);
            var e := d.index + d.streak;
            (d.endChannels == [] <==> e >= Width(rows))
            && (e < Width(rows) ==>
                  && e >= 1
                  && forall p :: 0 <= p < |rows| ==> (p in d.endChannels <==> rows[p][e] != rows[p][e - 1]))
  {
    var j := FirstMin(Streaks(rows));
    assert Diagnose(rows).index == Starts(rows)[j] && Diagnose(rows).streak == Streaks(rows)[j];
    assert Diagnose(rows).endChannels == EndChannels(rows, j);
    RunEndChannels(rows, j);
  }

  /** A timeline whose columns never change is one run, of the whole cycle
      (of length 1 when the cycle has no samples). */
  lemma {:induction false} HomogeneousVerdict(rows: seq<seq<bool>>, span: nat)
    requires Rect(rows)
    requires forall d :: 0 <= d < Width(rows) ==> Col(rows, d) == Col(rows, 0)
    ensures Changes(rows, Width(rows)) == [] && Starts(rows) == [0]
    ensures var n := if Width(rows) == 0 then 1 else Width(rows);
            Diagnose(rows) == Diagnostic(n, 0, [], [], [])
            && (ValidateSpec(rows, span).Fail? <==> n < span)
  {
    forall e | 1 <= e < Width(rows) ensures !IsChange(rows, e) {
      assert Col(rows, e) == Col(rows, 0) == Col(rows, e - 1);
    }
    NoChanges(rows, Width(rows));
    var st := Starts(rows);
    assert st == [0];
    var n := if Width(rows) == 0 then 1 else Width(rows);
    assert Streaks(rows) == [n];
    assert FirstMin(Streaks(rows)) == 0;
    assert StartChannels(rows, 0) == [];
    assert EndChannels(rows, 0) == [];
  }

  /** A single-sample glitch makes validation fail when the span is at least 2
      samples: the shortest run has length 1, the glitch is a change point, and the
      reported index is the first length-1 run, which starts at or before the glitch. */
  lemma {:induction false} GlitchRejected(rows: seq<seq<bool>>, span: nat, g: nat)
    requires Rect(rows) && 0 < g && g + 1 < Width(rows) && span >= 2
    requires IsChange(rows, g) && IsChange(rows, g + 1)
    ensures ValidateSpec(rows, span).Fail? && ValidateSpec(rows, span).error.PulseTooShort?
    ensures var d := ValidateSpec(rows, span).error.diagnostic;
            d.streak == 1 && g in d.changes && d.index <= g
  {
    var k := UnitRun(rows, g);
    var j := FirstMin(Streaks(rows));
    assert j <= k;
    StartsIncreasing(rows);
    assert Starts(rows)[j] <= Starts(rows)[k];
  }

  /** The run that starts at change point g. */
  lemma {:induction false} RunAt(rows: seq<seq<bool>>, g: nat) returns (k: nat)
    requires Rect(rows) && 1 <= g < Width(rows) && IsChange(rows, g)
    ensures 0 < k < |Starts(rows)| && Starts(rows)[k] == g
  {
    var ch := Changes(rows, Width(rows));
    assert g in ch;
    var l :| 0 <= l < |ch| && ch[l] == g;
    k := l + 1;
  }

  /** Change points at g and g + 1 make the run starting at g one sample long. */
  lemma {:induction false} UnitRun(rows: seq<seq<bool>>, g: nat) returns (k: nat)
    requires Rect(rows) && 1 <= g && g + 1 < Width(rows)
    requires IsChange(rows, g) && IsChange(rows, g + 1)
    ensures 0 < k < |Starts(rows)| && Starts(rows)[k] == g && Streaks(rows)[k] == 1
  {
    k := RunAt(rows, g);
    var k2 := RunAt(rows, g + 1);
    var st := Starts(rows);
    StartsIncreasing(rows);
    assert k < k2;
    var next := st[k + 1];
    assert k2 == k + 1;
    assert RunEnd(rows, k) == g + 1;
  }
}
