/** The timeline as a matrix of columns, and its maximal runs of identical columns. */
module Runs {

  /** A matrix numpy can take: at least one row, and all rows of one length. */
  predicate Rect(rows: seq<seq<bool>>)
  {
    |rows| > 0 && forall i :: 0 <= i < |rows| ==> |rows[i]| == |rows[0]|
  }

  /** The number of samples (columns) of a rectangular timeline. */
  function Width(rows: seq<seq<bool>>): nat
    requires Rect(rows)
  {
    |rows[0]|
  }

  /** Column d: the state of every row at sample d. */
  function Col(rows: seq<seq<bool>>, d: nat): (c: seq<bool>)
    requires Rect(rows) && d < Width(rows)
    ensures |c| == |rows| && forall i {:trigger c[i]} :: 0 <= i < |rows| ==> c[i] == rows[i][d]
  {
    seq(|rows|, i requires 0 <= i < |rows| => rows[i][d])
  }

  /** Sample e is a change point: its column differs from the column before it. */
  predicate IsChange(rows: seq<seq<bool>>, e: nat)
    requires Rect(rows) && 1 <= e < Width(rows)
  {
    Col(rows, e) != Col(rows, e - 1)
  }

  /** The rows whose state at sample e differs from the sample before, in increasing order. */
  function ChangedRows(rows: seq<seq<bool>>, e: nat): seq<nat>
    requires Rect(rows) && 1 <= e < Width(rows)
  {
    Diff(Col(rows, e), Col(rows, e - 1))
  }

  /** The change points below i: in increasing order, every column in 1..i-1
      that differs from the column before it. */
  function Changes(rows: seq<seq<bool>>, i: nat): (r: seq<nat>)
    requires Rect(rows) && i <= Width(rows)
    ensures forall k :: 0 <= k < |r| ==> 1 <= r[k] < i
    ensures forall e {:trigger e in r} :: 1 <= e < i ==> (e in r <==> IsChange(rows, e))
  {
    if i <= 1 then []
    else Changes(rows, i - 1) + (if IsChange(rows, i - 1) then [i - 1] else [])
  }

  /** The change points come in increasing order. */
  lemma {:induction false} ChangesIncreasing(rows: seq<seq<bool>>, i: nat)
    requires Rect(rows) && i <= Width(rows)
    ensures forall k, l :: 0 <= k < l < |Changes(rows, i)| ==> Changes(rows, i)[k] < Changes(rows, i)[l]
  {
    if i > 1 {
      ChangesIncreasing(rows, i - 1);
      var p, r := Changes(rows, i - 1), Changes(rows, i);
      forall k, l | 0 <= k < l < |r| ensures r[k] < r[l] {
        assert r[k] == p[k];
        if l < |p| {
          assert r[l] == p[l];
          assert p[k] < p[l];
        } else {
          assert r[l] == i - 1;
          assert p[k] < i - 1;
        }
      }
    }
  }

  /** Extending the horizon only appends change points, all of them at or past the old horizon. */
  lemma {:induction false} ChangesPrefix(rows: seq<seq<bool>>, i: nat, k: nat)
    requires Rect(rows) && i <= k <= Width(rows)
    ensures |Changes(rows, i)| <= |Changes(rows, k)|
    ensures Changes(rows, i) == Changes(rows, k)[..|Changes(rows, i)|]
    ensures forall l :: |Changes(rows, i)| <= l < |Changes(rows, k)| ==> Changes(rows, k)[l] >= i
    decreases k - i
  {
    if i < k {
      ChangesPrefix(rows, i, k - 1);
      if k > 1 {
        assert Changes(rows, k - 1) == Changes(rows, k)[..|Changes(rows, k - 1)|];
      }
    }
  }

  /** When column i is a change point, it is the next change point after those below i. */
  lemma {:induction false} ChangeAt(rows: seq<seq<bool>>, i: nat)
    requires Rect(rows) && 1 <= i < Width(rows) && IsChange(rows, i)
    ensures Changes(rows, i + 1) == Changes(rows, i) + [i]
    ensures |Changes(rows, i)| < |Changes(rows, Width(rows))|
    ensures Changes(rows, Width(rows))[|Changes(rows, i)|] == i
  {
    var c, c1 := Changes(rows, i), Changes(rows, i + 1);
    var cw := Changes(rows, Width(rows));
    assert c1 == c + [i];
    ChangesPrefix(rows, i + 1, Width(rows));
    assert cw[..|c1|] == c1;
    assert cw[|c|] == c1[|c|];
  }

  /** When column i is not a change point, nothing is added. */
  lemma {:induction false} NoChangeAt(rows: seq<seq<bool>>, i: nat)
    requires Rect(rows) && 1 <= i < Width(rows) && !IsChange(rows, i)
    ensures Changes(rows, i + 1) == Changes(rows, i)
  {
  }

  /** Without any column that differs from its predecessor there are no change points. */
  lemma {:induction false} NoChanges(rows: seq<seq<bool>>, i: nat)
    requires Rect(rows) && i <= Width(rows)
    requires forall e :: 1 <= e < i ==> !IsChange(rows, e)
    ensures Changes(rows, i) == []
  {
    if i > 1 {
      NoChanges(rows, i - 1);
    }
  }

  /** The start of every run: sample 0 and then every change point. */
  function Starts(rows: seq<seq<bool>>): (s: seq<nat>)
    requires Rect(rows)
    ensures |s| >= 1 && s[0] == 0
    ensures forall k :: 0 <= k < |s| ==> s[k] < Width(rows) || (Width(rows) == 0 && s == [0])
  {
    [0] + Changes(rows, Width(rows))
  }

  /** The run starts come in increasing order. */
  lemma {:induction false} StartsIncreasing(rows: seq<seq<bool>>)
    requires Rect(rows)
    ensures forall k, l :: 0 <= k < l < |Starts(rows)| ==> Starts(rows)[k] < Starts(rows)[l]
  {
    var s, c := Starts(rows), Changes(rows, Width(rows));
    ChangesIncreasing(rows, Width(rows));
    forall k, l | 0 <= k < l < |s| ensures s[k] < s[l] {
      assert s[l] == c[l - 1];
      if k > 0 {
        assert s[k] == c[k - 1];
      }
    }
  }

  /** Where run j ends (exclusive): the next start, or the end of the timeline. */
  function RunEnd(rows: seq<seq<bool>>, j: nat): (e: nat)
    requires Rect(rows) && j < |Starts(rows)|
    ensures Width(rows) > 0 ==> Starts(rows)[j] < e <= Width(rows)
  {
    StartsIncreasing(rows);
    if j + 1 < |Starts(rows)| then Starts(rows)[j + 1] else Width(rows)
  }

  /** The lengths the validator measures, run by run. A timeline of zero
      samples counts as one run of length 1, as the source's counter starts at 1. */
  function Streaks(rows: seq<seq<bool>>): (s: seq<nat>)
    requires Rect(rows)
    ensures |s| == |Starts(rows)|
    ensures forall j :: 0 <= j < |s| ==> s[j] >= 1
    ensures Width(rows) > 0 ==> forall j {:trigger s[j]} :: 0 <= j < |s| ==> s[j] == RunEnd(rows, j) - Starts(rows)[j]
  {
    var st := Starts(rows);
    seq(|st|, j requires 0 <= j < |st| =>
      if Width(rows) == 0 then 1 else RunEnd(rows, j) - st[j])
  }

  /** Every column of run j equals the column at the run's start. */
  lemma {:induction false} RunConstant(rows: seq<seq<bool>>, j: nat, e: nat)
    requires Rect(rows) && Width(rows) > 0 && j < |Starts(rows)|
    requires Starts(rows)[j] <= e < RunEnd(rows, j)
    ensures Col(rows, e) == Col(rows, Starts(rows)[j])
    decreases e
  {
    var st := Starts(rows);
    var ch := Changes(rows, Width(rows));
    StartsIncreasing(rows);
    if e > st[j] {
      forall l | 0 <= l < |ch| ensures ch[l] != e {
        assert st[l + 1] == ch[l];
        if l + 1 < j {
          assert st[l + 1] < st[j];
        } else if l + 1 > j {
          assert st[j + 1] <= st[l + 1];
        }
      }
      assert e !in ch;
      RunConstant(rows, j, e - 1);
    }
  }

  /** Each start after the first is a change point: its column differs from the one before. */
  lemma {:induction false} StartIsChange(rows: seq<seq<bool>>, j: nat)
    requires Rect(rows) && 0 < j < |Starts(rows)|
    ensures Starts(rows)[j] >= 1 && IsChange(rows, Starts(rows)[j])
  {
    assert Starts(rows)[j] in Changes(rows, Width(rows));
  }

  /** np.where(a != b): in increasing order, the positions where a and b differ. */
  function Diff(a: seq<bool>, b: seq<bool>): (r: seq<nat>)
    requires |a| == |b|
    ensures forall k :: 0 <= k < |r| ==> r[k] < |a|
    ensures forall p {:trigger p in r} :: 0 <= p < |a| ==> (p in r <==> a[p] != b[p])
  {
    if |a| == 0 then []
    else
      var n := |a| - 1;
      Diff(a[..n], b[..n]) + (if a[n] != b[n] then [n] else [])
  }

  /** The positions `Diff` lists come in increasing order. */
  lemma {:induction false} DiffIncreasing(a: seq<bool>, b: seq<bool>)
    requires |a| == |b|
    ensures forall k, l :: 0 <= k < l < |Diff(a, b)| ==> Diff(a, b)[k] < Diff(a, b)[l]
  {
    if |a| > 0 {
      var n := |a| - 1;
      DiffIncreasing(a[..n], b[..n]);
      var p, r := Diff(a[..n], b[..n]), Diff(a, b);
      forall k, l | 0 <= k < l < |r| ensures r[k] < r[l] {
        assert r[k] == p[k];
        if l < |p| {
          assert r[l] == p[l];
        } else {
          assert r[l] == n;
        }
      }
    }
  }
}
