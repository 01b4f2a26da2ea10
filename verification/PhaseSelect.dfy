/** Choice of the sampling phase from the table of phases that passed (sdhci_msm.c).

    The phases form a ring of N.  The table is cut into rows of consecutive phases, the last row is
    continued by the first when the ring closes, and the phase three quarters into the longest row
    is returned.  The contract of `FindAppropriatePhase` speaks only of the ring. */
module PhaseSelect {

  ghost predicate Increasing(t: seq<nat>) {
    forall i, j :: 0 <= i < j < |t| ==> t[i] < t[j]
  }

  /** A table of passing phases on a ring of n. */
  ghost predicate PhaseTable(t: seq<nat>, n: nat) {
    |t| > 0 && Increasing(t) && forall i :: 0 <= i < |t| ==> t[i] < n
  }

  /** The `len` phases from `start` on, going round the ring, all passed. */
  ghost predicate CyclicRun(t: seq<nat>, n: nat, start: nat, len: nat) {
    start < n && 0 < len <= n && forall k :: 0 <= k < len ==> Around(start, k, n) in t
  }

  function Around(start: nat, k: nat, n: nat): nat
    requires start < n && k <= n
  {
    if start + k < n then start + k else start + k - n
  }

  ghost predicate LongestRun(t: seq<nat>, n: nat, start: nat, len: nat) {
    && CyclicRun(t, n, start, len)
    && forall s: nat, l: nat :: CyclicRun(t, n, s, l) ==> l <= len
  }

  /** Of several longest runs, the one that starts first. */
  ghost predicate FirstLongestRun(t: seq<nat>, n: nat, start: nat, len: nat) {
    LongestRun(t, n, start, len) && forall s: nat :: CyclicRun(t, n, s, len) ==> start <= s
  }

  /** A phase three quarters into the first longest cyclic run of passing phases. */
  ghost predicate WellChosen(t: seq<nat>, n: nat, phase: nat) {
    exists start: nat, len: nat ::
      FirstLongestRun(t, n, start, len) && phase == Around(start, ThreeQuarters(len), n)
  }

  /** No table leaves a choice. */
  lemma WellChosenIsUnique(t: seq<nat>, n: nat, x: nat, y: nat)
    requires WellChosen(t, n, x) && WellChosen(t, n, y)
    ensures x == y
  {
    var s: nat, l: nat :| FirstLongestRun(t, n, s, l) && x == Around(s, ThreeQuarters(l), n);
    var s': nat, l': nat :| FirstLongestRun(t, n, s', l') && y == Around(s', ThreeQuarters(l'), n);
    hide CyclicRun, ThreeQuarters, Around;
    assert l <= l' && l' <= l;
  }

  /** Three quarters into a row of `len`, counted as the source does. */
  function ThreeQuarters(len: nat): (i: nat)
    ensures len > 0 ==> i < len
    ensures if len < 2 then i == 0 else 4 * (i + 1) <= 3 * len < 4 * (i + 2)
  {
    var q := len * 3 / 4;
    if q > 0 then q - 1 else 0
  }

  // ----- rows of consecutive phases

  function Last<T>(s: seq<T>): T
    requires |s| > 0
  {
    s[|s| - 1]
  }

  /** The next passing phase joins the last row when it is consecutive, and opens a row otherwise. */
  function AddPhase(rows: seq<seq<nat>>, x: nat, joins: bool): seq<seq<nat>>
    requires joins ==> |rows| > 0
  {
    if joins then rows[..|rows| - 1] + [Last(rows) + [x]] else rows + [[x]]
  }

  /** Rows are never empty, and one phase lengthens one row by one. */
  lemma AddPhaseShape(rows: seq<seq<nat>>, x: nat, joins: bool, m: nat)
    requires joins ==> |rows| > 0
    requires forall j :: 0 <= j < |rows| ==> 0 < |rows[j]| <= m
    ensures var after := AddPhase(rows, x, joins);
            && 0 < |after| <= |rows| + 1 && (forall j :: 0 <= j < |after| ==> 0 < |after[j]| <= m + 1)
            && Last(Last(after)) == x
  {
  }

  function Rows(t: seq<nat>): (rows: seq<seq<nat>>)
    ensures |t| > 0 ==> |rows| > 0
    ensures |rows| <= |t|
    ensures forall j :: 0 <= j < |rows| ==> 0 < |rows[j]| <= |t|
    ensures |t| > 0 ==> Last(Last(rows)) == Last(t)
  {
    if t == [] then []
    else
      hide AddPhase;
      var n := |t| - 1;
      AddPhaseShape(Rows(t[..n]), t[n], n > 0 && t[n - 1] + 1 == t[n], n);
      AddPhase(Rows(t[..n]), t[n], n > 0 && t[n - 1] + 1 == t[n])
  }

  ghost predicate InRow(x: nat, row: seq<nat>) {
    |row| > 0 && row[0] <= x < row[0] + |row|
  }

  ghost predicate Consecutive(row: seq<nat>) {
    forall k :: 0 <= k < |row| ==> row[k] == row[0] + k
  }

  /** Rows are runs of consecutive numbers with a gap after each. */
  ghost predicate Separated(rows: seq<seq<nat>>) {
    && (forall j :: 0 <= j < |rows| ==> |rows[j]| > 0 && Consecutive(rows[j]))
    && forall i, j :: 0 <= i < j < |rows| ==> rows[i][0] + |rows[i]| < rows[j][0]
  }

  ghost predicate Covers(rows: seq<seq<nat>>, t: seq<nat>) {
    && (forall x :: x in t ==> exists j :: 0 <= j < |rows| && InRow(x, rows[j]))
    && forall j, x :: 0 <= j < |rows| && InRow(x, rows[j]) ==> x in t
  }

  lemma AddSeparated(rows: seq<seq<nat>>, x: nat, joins: bool)
    requires Separated(rows) && (joins ==> |rows| > 0)
    requires |rows| > 0 ==> Last(rows)[0] + |Last(rows)| <= x && (joins <==> Last(rows)[0] + |Last(rows)| == x)
    ensures Separated(AddPhase(rows, x, joins))
  {
    var after := AddPhase(rows, x, joins);
    var z := |rows| - 1;
    forall j | 0 <= j < |after|
      ensures |after[j]| > 0 && Consecutive(after[j])
    {
      if joins && j == z { assert after[j] == rows[z] + [x]; }
    }
    forall i, j | 0 <= i < j < |after|
      ensures after[i][0] + |after[i]| < after[j][0]
    {
      assert after[i] == rows[i];
      if joins && j == z { assert after[j][0] == rows[z][0]; }
      if j == |rows| && i < z { assert rows[i][0] + |rows[i]| < rows[z][0]; }
    }
  }

  lemma AddCovers(rows: seq<seq<nat>>, t: seq<nat>, x: nat, joins: bool)
    requires Separated(rows) && Covers(rows, t) && (joins ==> |rows| > 0)
    requires joins ==> Last(rows)[0] + |Last(rows)| == x
    ensures Covers(AddPhase(rows, x, joins), t + [x])
  {
    var after := AddPhase(rows, x, joins);
    var z := |after| - 1;
    assert InRow(x, after[z]);
    forall y | y in t + [x]
      ensures exists j :: 0 <= j < |after| && InRow(y, after[j])
    {
      if y in t {
        var j :| 0 <= j < |rows| && InRow(y, rows[j]);
        assert InRow(y, after[j]);
      }
    }
    forall j, y | 0 <= j < |after| && InRow(y, after[j])
      ensures y in t + [x]
    {
      if y != x { assert InRow(y, rows[j]); }
    }
  }

  lemma LastPhaseEndsLastRow(t: seq<nat>)
    requires |t| > 0 && Separated(Rows(t))
    ensures Last(Rows(t))[0] + |Last(Rows(t))| == Last(t) + 1
  {
    assert Consecutive(Last(Rows(t)));
  }

  lemma {:induction false} FirstPhaseOpensFirstRow(t: seq<nat>)
    requires |t| > 0
    ensures Rows(t)[0][0] == t[0]
  {
    if |t| > 1 {
      FirstPhaseOpensFirstRow(t[..|t| - 1]);
    }
  }

  lemma {:induction false} RowsSeparate(t: seq<nat>)
    requires Increasing(t)
    ensures Separated(Rows(t))
  {
    hide Separated, AddPhase;
    if t == [] {
      NoRowsSeparate();
    } else {
      var n := |t| - 1;
      RowsSeparate(t[..n]);
      if n > 0 {
        LastPhaseEndsLastRow(t[..n]);
        assert t[n - 1] < t[n];
      }
      AddSeparated(Rows(t[..n]), t[n], n > 0 && t[n - 1] + 1 == t[n]);
    }
  }

  lemma NoRowsSeparate()
    ensures Separated([])
  {
  }

  lemma {:induction false} RowsCover(t: seq<nat>)
    requires Increasing(t)
    ensures Covers(Rows(t), t)
  {
    hide Separated, Covers, AddPhase;
    if t == [] {
      NoRowsCover();
    } else {
      var n := |t| - 1;
      RowsCover(t[..n]);
      RowsSeparate(t[..n]);
      if n > 0 {
        LastPhaseEndsLastRow(t[..n]);
      }
      AddCovers(Rows(t[..n]), t[..n], t[n], n > 0 && t[n - 1] + 1 == t[n]);
      SplitLast(t, n);
    }
  }

  lemma SplitLast(t: seq<nat>, n: nat)
    requires n + 1 == |t|
    ensures t[..n] + [t[n]] == t
  {
  }

  lemma NoRowsCover()
    ensures Covers([], [])
  {
  }

  /** Numbers a, .., b-1 that all belong to the table lie in one row. */
  lemma {:induction false} IntervalInRow(rows: seq<seq<nat>>, t: seq<nat>, a: nat, b: nat) returns (j: nat)
    requires Separated(rows) && Covers(rows, t)
    requires a < b && forall x :: a <= x < b ==> x in t
    ensures j < |rows| && InRow(a, rows[j]) && b <= rows[j][0] + |rows[j]|
  {
    assert a in t;
    j :| 0 <= j < |rows| && InRow(a, rows[j]);
    var e := rows[j][0] + |rows[j]|;
    assert e < b ==> e in t;
  }

  // ----- closing the ring

  ghost predicate RingCloses(t: seq<nat>, n: nat)
    requires |t| > 0
  {
    t[0] == 0 && t[|t| - 1] == n - 1 && |t| < n
  }

  function Merged(rows: seq<seq<nat>>): (merged: seq<seq<nat>>)
    requires |rows| > 0
    ensures |merged| == |rows|
  {
    var z := |rows| - 1;
    rows[z := rows[z] + rows[0]][0 := []]
  }

  ghost function RingRows(t: seq<nat>, n: nat): seq<seq<nat>>
    requires |t| > 0
  {
    if RingCloses(t, n) then Merged(Rows(t)) else Rows(t)
  }

  /** Index of the first longest row. */
  ghost predicate FirstLongest(rows: seq<seq<nat>>, r: nat) {
    && r < |rows|
    && (forall j :: 0 <= j < |rows| ==> |rows[j]| <= |rows[r]|)
    && forall j :: 0 <= j < r ==> |rows[j]| < |rows[r]|
  }

  /** The index of the first longest row. */
  function LongestIndex(rows: seq<seq<nat>>): (r: nat)
    requires |rows| > 0
    ensures FirstLongest(rows, r)
  {
    var z := |rows| - 1;
    if z == 0 then 0
    else
      var r := LongestIndex(rows[..z]);
      assert forall j :: 0 <= j < z ==> rows[..z][j] == rows[j];
      if |rows[z]| > |rows[r]| then z else r
  }

  lemma FirstLongestIsUnique(rows: seq<seq<nat>>, r: nat, q: nat)
    requires FirstLongest(rows, r) && FirstLongest(rows, q)
    ensures r == q
  {
    NotAfter(rows, r, q);
    NotAfter(rows, q, r);
  }

  lemma NotAfter(rows: seq<seq<nat>>, r: nat, q: nat)
    requires FirstLongest(rows, r) && q < |rows| && |rows[q]| >= |rows[r]|
    ensures r <= q
  {
  }

  /** The phase the source chooses: three quarters into the first longest row of the ring. */
  ghost function ChosenPhase(t: seq<nat>, n: nat): (phase: nat)
    requires PhaseTable(t, n)
    ensures phase in t && phase < n
  {
    var rows := RingRows(t, n);
    var r := LongestIndex(rows);
    LongestRowIsLongestRun(t, n, r);
    RunMember(t, n, rows[r][0], |rows[r]|, ThreeQuarters(|rows[r]|));
    rows[r][ThreeQuarters(|rows[r]|)]
  }

  /** Seen from the ring: it lies three quarters into the longest cyclic run that starts first. */
  lemma ChosenPhaseIsWellChosen(t: seq<nat>, n: nat)
    requires PhaseTable(t, n)
    ensures WellChosen(t, n, ChosenPhase(t, n))
  {
    hide Rows, RingCloses;
    var rows := RingRows(t, n);
    var r := LongestIndex(rows);
    LongestRowIsLongestRun(t, n, r);
    LongestRowStartsFirst(t, n, r);
    assert FirstLongestRun(t, n, rows[r][0], |rows[r]|);
    assert ChosenPhase(t, n) == Around(rows[r][0], ThreeQuarters(|rows[r]|), n);
  }

  /** Whoever finds the first longest row finds that phase. */
  lemma ChosenFromRow(t: seq<nat>, n: nat, m: nat)
    requires PhaseTable(t, n) && FirstLongest(RingRows(t, n), m)
    ensures var row := RingRows(t, n)[m]; |row| > 0 && row[ThreeQuarters(|row|)] == ChosenPhase(t, n)
    ensures WellChosen(t, n, ChosenPhase(t, n))
  {
    FirstLongestIsUnique(RingRows(t, n), m, LongestIndex(RingRows(t, n)));
    LongestRowIsRun(t, n, m);
    ChosenPhaseIsWellChosen(t, n);
  }

  lemma SpanOfIncreasing(t: seq<nat>, n: nat)
    requires PhaseTable(t, n)
    ensures |t| <= n
    ensures |t| == n ==> forall i :: 0 <= i < n ==> t[i] == i
  {
    forall i | 0 <= i < |t|
      ensures i <= t[i] <= n - |t| + i
    {
      AtLeastIndex(t, i);
      AtMostIndex(t, n, i);
    }
    assert 0 <= t[0] <= n - |t|;
  }

  lemma {:induction false} AtLeastIndex(t: seq<nat>, i: nat)
    requires Increasing(t) && i < |t|
    ensures i <= t[i]
  {
    if i > 0 {
      AtLeastIndex(t, i - 1);
      assert t[i - 1] < t[i];
    }
  }

  lemma {:induction false} AtMostIndex(t: seq<nat>, n: nat, i: nat)
    requires PhaseTable(t, n) && i < |t|
    ensures t[i] <= n - |t| + i
    decreases |t| - i
  {
    if i + 1 < |t| {
      AtMostIndex(t, n, i + 1);
      assert t[i] < t[i + 1];
    }
  }

  /** When the ring closes, phase 0 and phase n-1 are in different rows. */
  lemma ClosedRingHasTwoRows(t: seq<nat>, n: nat)
    requires PhaseTable(t, n) && RingCloses(t, n)
    ensures var rows := Rows(t); var z := |rows| - 1;
            z > 0 && rows[0][0] == 0 && rows[z][0] + |rows[z]| == n && |rows[0]| + |rows[z]| < n
  {
    FirstPhaseOpensFirstRow(t);
    RowsSeparate(t);
    RowsCover(t);
    var rows := Rows(t);
    var z := |rows| - 1;
    assert Consecutive(rows[z]) && Last(rows[z]) == n - 1;
    assert |rows[z]| <= |t|;
  }

  /** The longest row is a longest cyclic run of passing phases. */
  lemma LongestRowIsLongestRun(t: seq<nat>, n: nat, r: nat)
    requires PhaseTable(t, n) && FirstLongest(RingRows(t, n), r)
    ensures var row := RingRows(t, n)[r];
            |row| > 0 && LongestRun(t, n, row[0], |row|)
            && forall k :: 0 <= k < |row| ==> row[k] == Around(row[0], k, n)
  {
    RowsSeparate(t);
    RowsCover(t);
    SpanOfIncreasing(t, n);
    LongestRowIsRun(t, n, r);
    var row := RingRows(t, n)[r];
    forall s: nat, l: nat | CyclicRun(t, n, s, l)
      ensures l <= |row|
    {
      RunFitsRow(t, n, r, s, l);
    }
  }

  /** No other run of that length starts before it. */
  lemma LongestRowStartsFirst(t: seq<nat>, n: nat, r: nat)
    requires PhaseTable(t, n) && FirstLongest(RingRows(t, n), r)
    ensures |RingRows(t, n)[r]| > 0
    ensures forall s: nat :: CyclicRun(t, n, s, |RingRows(t, n)[r]|) ==> RingRows(t, n)[r][0] <= s
  {
    LongestRowIsRun(t, n, r);
    forall s: nat | CyclicRun(t, n, s, |RingRows(t, n)[r]|) ensures RingRows(t, n)[r][0] <= s {
      RunStartsLater(t, n, r, s);
    }
  }

  lemma LongestRowIsRun(t: seq<nat>, n: nat, r: nat)
    requires PhaseTable(t, n) && FirstLongest(RingRows(t, n), r)
    ensures var row := RingRows(t, n)[r];
            |row| > 0 && CyclicRun(t, n, row[0], |row|)
            && forall k :: 0 <= k < |row| ==> row[k] == Around(row[0], k, n)
  {
    FirstPhaseOpensFirstRow(t);
    RowsSeparate(t);
    RowsCover(t);
    SpanOfIncreasing(t, n);
    var rows := Rows(t);
    var z := |rows| - 1;
    if !RingCloses(t, n) {
      PlainRowIsRun(rows, t, n, r);
    } else {
      ClosedRingHasTwoRows(t, n);
      var ring := Merged(rows);
      assert |ring[z]| == |rows[z]| + |rows[0]|;
      if r == z {
        MergedRowIsRun(rows, t, n);
      } else {
        assert r != 0;
        PlainRowIsRun(rows, t, n, r);
      }
    }
  }

  lemma PlainRowIsRun(rows: seq<seq<nat>>, t: seq<nat>, n: nat, r: nat)
    requires Separated(rows) && Covers(rows, t) && r < |rows| && |rows[r]| <= n
    requires forall x :: x in t ==> x < n
    ensures CyclicRun(t, n, rows[r][0], |rows[r]|)
    ensures forall k :: 0 <= k < |rows[r]| ==> rows[r][k] == Around(rows[r][0], k, n)
  {
    var row := rows[r];
    assert Consecutive(row);
    assert InRow(row[0], rows[r]);
    forall k | 0 <= k < |row|
      ensures row[k] in t && row[k] == Around(row[0], k, n)
    {
      assert InRow(row[k], rows[r]);
    }
  }

  lemma MergedRowIsRun(rows: seq<seq<nat>>, t: seq<nat>, n: nat)
    requires Separated(rows) && Covers(rows, t) && |rows| > 1
    requires rows[0][0] == 0 && Last(rows)[0] + |Last(rows)| == n && |rows[0]| + |Last(rows)| < n
    ensures var row := Last(rows) + rows[0];
            CyclicRun(t, n, row[0], |row|) && forall k :: 0 <= k < |row| ==> row[k] == Around(row[0], k, n)
  {
    var row, z := Last(rows) + rows[0], |rows| - 1;
    assert Consecutive(rows[0]) && Consecutive(rows[z]);
    forall k | 0 <= k < |row|
      ensures row[k] == Around(row[0], k, n) && row[k] in t
    {
      if k < |rows[z]| {
        assert InRow(row[k], rows[z]);
      } else {
        assert InRow(row[k], rows[0]);
      }
    }
  }

  lemma RunFitsRow(t: seq<nat>, n: nat, r: nat, s: nat, l: nat)
    requires PhaseTable(t, n) && FirstLongest(RingRows(t, n), r)
    requires CyclicRun(t, n, s, l)
    ensures l <= |RingRows(t, n)[r]|
  {
    RowsSeparate(t);
    RowsCover(t);
    var rows, ring := Rows(t), RingRows(t, n);
    var z := |rows| - 1;
    if s + l <= n {
      forall x | s <= x < s + l
        ensures x in t
      {
        assert Around(s, x - s, n) == x;
      }
      var j := IntervalInRow(rows, t, s, s + l);
      if RingCloses(t, n) && j == 0 {
        ClosedRingHasTwoRows(t, n);
        assert |ring[z]| >= |rows[0]|;
      } else {
        assert |ring[j]| >= |rows[j]|;
      }
    } else {
      WrappingRunFits(t, n, s, l);
      assert |ring[r]| >= |ring[z]|;
    }
  }

  /** A run as long as the first longest row does not start before it. */
  lemma RunStartsLater(t: seq<nat>, n: nat, r: nat, s: nat)
    requires PhaseTable(t, n) && FirstLongest(RingRows(t, n), r)
    requires CyclicRun(t, n, s, |RingRows(t, n)[r]|)
    ensures RingRows(t, n)[r][0] <= s
  {
    RowsSeparate(t);
    RowsCover(t);
    var rows, ring := Rows(t), RingRows(t, n);
    var z, l := |rows| - 1, |ring[r]|;
    if RingCloses(t, n) { ClosedRingHasTwoRows(t, n); }
    if s + l <= n {
      forall x | s <= x < s + l
        ensures x in t
      {
        assert Around(s, x - s, n) == x;
      }
      var j := IntervalInRow(rows, t, s, s + l);
      LongestComesBefore(rows, ring, r, j, RingCloses(t, n));
      StartsIncrease(rows, ring, r, j, RingCloses(t, n));
    } else {
      WrappingRunFits(t, n, s, l);
      StartsIncrease(rows, ring, r, z, RingCloses(t, n));
    }
  }

  /** A row of the table as long as the first longest row of the ring is not before it. */
  lemma LongestComesBefore(rows: seq<seq<nat>>, ring: seq<seq<nat>>, r: nat, j: nat, closes: bool)
    requires Separated(rows) && j < |rows| && (closes ==> |rows| > 1)
    requires ring == (if closes then Merged(rows) else rows) && FirstLongest(ring, r)
    requires |rows[j]| >= |ring[r]|
    ensures r <= j
  {
    if closes {
      var z := |rows| - 1;
      assert |ring[z]| == |rows[z]| + |rows[0]|;
      assert j > 0;
    }
    assert |ring[j]| >= |rows[j]|;
  }

  lemma StartsIncrease(rows: seq<seq<nat>>, ring: seq<seq<nat>>, r: nat, j: nat, closes: bool)
    requires Separated(rows) && r <= j < |rows| && (closes ==> |rows| > 1)
    requires ring == (if closes then Merged(rows) else rows) && FirstLongest(ring, r)
    ensures |ring[r]| > 0 && ring[r][0] <= rows[j][0]
  {
    var z := |rows| - 1;
    if closes {
      assert |ring[z]| == |rows[z]| + |rows[0]|;
      assert r > 0;
    }
    assert ring[r][0] == rows[r][0];
  }

  lemma WrappingRunFits(t: seq<nat>, n: nat, s: nat, l: nat)
    requires PhaseTable(t, n) && CyclicRun(t, n, s, l) && s + l > n
    ensures var ring := RingRows(t, n); l <= |ring[|ring| - 1]| && ring[|ring| - 1][0] <= s
  {
    RowsSeparate(t);
    RowsCover(t);
    SpanOfIncreasing(t, n);
    var rows := Rows(t);
    var z := |rows| - 1;
    var w := s + l - n;
    forall x | s <= x < n
      ensures x in t
    {
      assert Around(s, x - s, n) == x;
    }
    forall x | 0 <= x < w
      ensures x in t
    {
      assert Around(s, x + n - s, n) == x;
    }
    EndsInTable(t, n);
    if RingCloses(t, n) {
      ClosedRingHasTwoRows(t, n);
      EndRows(rows, t, n, s, w);
    } else {
      forall x | 0 <= x < n
        ensures x in t
      {
        assert t[x] == x;
      }
      LastPhaseEndsLastRow(t);
      var f := IntervalInRow(rows, t, 0, n);
      assert f == z;
    }
  }

  lemma EndRows(rows: seq<seq<nat>>, t: seq<nat>, n: nat, s: nat, w: nat)
    requires Separated(rows) && Covers(rows, t) && |rows| > 1
    requires rows[0][0] == 0 && Last(rows)[0] + |Last(rows)| == n
    requires 0 < w && s < n && (forall x :: s <= x < n ==> x in t) && (forall x :: 0 <= x < w ==> x in t)
    ensures n - s <= |Last(rows)| && w <= |rows[0]|
  {
    var jz := IntervalInRow(rows, t, s, n);
    var j0 := IntervalInRow(rows, t, 0, w);
  }

  lemma EndsInTable(t: seq<nat>, n: nat)
    requires PhaseTable(t, n) && 0 in t && n - 1 in t
    ensures t[0] == 0 && t[|t| - 1] == n - 1
  {
    var i :| 0 <= i < |t| && t[i] == 0;
    var j :| 0 <= j < |t| && t[j] == n - 1;
  }

  // ----- the algorithm on its arrays

  /** The two arrays hold `rows`; unused rows have length zero. */
  ghost predicate Layout(sub: array2<nat>, perRow: array<nat>, rows: seq<seq<nat>>)
    reads sub, perRow
  {
    && |rows| <= perRow.Length == sub.Length0
    && (forall j :: 0 <= j < |rows| ==> perRow[j] == |rows[j]| <= sub.Length1)
    && (forall j :: |rows| <= j < perRow.Length ==> perRow[j] == 0)
    && forall j, c :: 0 <= j < |rows| && 0 <= c < |rows[j]| ==> sub[j, c] == rows[j][c]
  }

  ghost predicate Joins(t: seq<nat>, i: nat)
    requires i < |t|
  {
    i > 0 && t[i - 1] + 1 == t[i]
  }

  /** The cell the next phase goes to. */
  ghost predicate NextCell(rows: seq<seq<nat>>, joins: bool, row: nat, col: nat) {
    if joins then |rows| > 0 && row == |rows| - 1 && col == |Last(rows)|
    else row == |rows| && col == 0
  }

  /** One phase goes into the current cell of the two-dimensional array, and its row is counted up. */
  method StorePhase(sub: array2<nat>, perRow: array<nat>, row: nat, col: nat, x: nat,
                    ghost rows: seq<seq<nat>>, ghost joins: bool)
    requires Layout(sub, perRow, rows) && NextCell(rows, joins, row, col)
    requires row < perRow.Length == sub.Length0 && col < sub.Length1
    modifies sub, perRow
    ensures Layout(sub, perRow, AddPhase(rows, x, joins))
  {
    sub[row, col] := x;
    perRow[row] := perRow[row] + 1;
    ghost var after := AddPhase(rows, x, joins);
    assert forall j, c :: 0 <= j < |after| && 0 <= c < |after[j]| && (j != row || c != col) ==>
        j < |rows| && c < |rows[j]| && after[j][c] == rows[j][c];
  }

  lemma EmptyLayout(sub: array2<nat>, perRow: array<nat>)
    requires perRow.Length == sub.Length0 && forall j :: 0 <= j < perRow.Length ==> perRow[j] == 0
    ensures Layout(sub, perRow, Rows([]))
  {
  }

  lemma RowsStep(t: seq<nat>, i: nat)
    requires i < |t|
    ensures Joins(t, i) ==> |Rows(t[..i])| > 0
    ensures Rows(t[..i + 1]) == AddPhase(Rows(t[..i]), t[i], Joins(t, i))
  {
    assert t[..i + 1][..i] == t[..i];
  }

  method SplitRows(phaseTable: array<nat>, total: nat, n: nat, sub: array2<nat>, perRow: array<nat>)
    returns (rowIndex: nat)
    requires 0 < total <= phaseTable.Length && total <= n
    requires sub.Length0 == sub.Length1 == perRow.Length == n
    requires phaseTable != perRow && forall j :: 0 <= j < n ==> perRow[j] == 0
    modifies sub, perRow
    ensures Layout(sub, perRow, Rows(phaseTable[..total])) && rowIndex == |Rows(phaseTable[..total])| - 1
  {
    hide AddPhase, Rows, Layout;
    ghost var t := phaseTable[..total];
    rowIndex := 0;
    var colIndex := 0;
    EmptyLayout(sub, perRow);
    for i := 0 to total
      invariant phaseTable[..total] == t
      invariant Layout(sub, perRow, Rows(t[..i]))
      invariant i < total ==> NextCell(Rows(t[..i]), Joins(t, i), rowIndex, colIndex)
      invariant i == total ==> rowIndex == |Rows(t[..i])| - 1
    {
      RowsStep(t, i);
      assert rowIndex < n && colIndex < n;
      assert phaseTable[i] == t[i];
      StorePhase(sub, perRow, rowIndex, colIndex, phaseTable[i], Rows(t[..i]), Joins(t, i));
      CellFollows(t, i, rowIndex, colIndex);
      colIndex := colIndex + 1;
      if i + 1 == total { break; }
      if phaseTable[i] + 1 != phaseTable[i + 1] {
        rowIndex := rowIndex + 1;
        colIndex := 0;
      }
    }
    assert t[..total] == t;
  }

  lemma CellFollows(t: seq<nat>, i: nat, row: nat, col: nat)
    requires i < |t| && NextCell(Rows(t[..i]), Joins(t, i), row, col)
    ensures var rows := Rows(t[..i + 1]); row == |rows| - 1 && col + 1 == |Last(rows)|
  {
    RowsStep(t, i);
  }

  method MergeEnds(sub: array2<nat>, perRow: array<nat>, z: nat, n: nat, ghost rows: seq<seq<nat>>)
    requires sub.Length0 == sub.Length1 == perRow.Length == n
    requires 0 < z < n && |rows| == z + 1 && Layout(sub, perRow, rows)
    requires |rows[0]| > 0 && |rows[0]| + |rows[z]| <= n
    modifies sub, perRow
    ensures Layout(sub, perRow, Merged(rows))
  {
    var j := 0;
    var i := perRow[z];
    while i < n
      invariant j < |rows[0]| && i == |rows[z]| + j
      invariant Layout(sub, perRow, rows)
      invariant forall c :: 0 <= c < j ==> sub[z, |rows[z]| + c] == rows[0][c]
      decreases n - i
    {
      sub[z, i] := sub[0, j];
      j := j + 1;
      if j >= perRow[0] { break; }
      i := i + 1;
    }
    perRow[z] := perRow[z] + perRow[0];
    perRow[0] := 0;
  }

  method FindAppropriatePhase(phaseTable: array<nat>, total: nat, n: nat) returns (selected: nat)
    requires 0 < total <= phaseTable.Length && PhaseTable(phaseTable[..total], n)
    ensures selected == ChosenPhase(phaseTable[..total], n)
    ensures WellChosen(phaseTable[..total], n, selected) && selected in phaseTable[..total]
  {
    hide Rows, Merged, WellChosen, ChosenPhase, Increasing, Layout, FirstLongest;
    ghost var t := phaseTable[..total];
    SpanOfIncreasing(t, n);
    var sub := new nat[n, n]((_, _) => 0);
    var perRow := new nat[n](_ => 0);
    var foundLoop := phaseTable[0] == 0 && phaseTable[total - 1] == n - 1;
    var rowIndex := SplitRows(phaseTable, total, n, sub, perRow);
    if foundLoop && total < n {
      ClosedRingHasTwoRows(t, n);
      MergeEnds(sub, perRow, rowIndex, n, Rows(t));
    }
    ghost var rows := RingRows(t, n);
    assert Layout(sub, perRow, rows) && |rows| == rowIndex + 1;
    LayoutFits(sub, perRow, rows);
    var maxRow := LongestRow(perRow, rowIndex);
    LongestOfArray(sub, perRow, rows, maxRow);
    ChosenFromRow(t, n, maxRow);
    var i := ThreeQuarters(perRow[maxRow]);
    selected := sub[maxRow, i];
  }

  lemma LayoutFits(sub: array2<nat>, perRow: array<nat>, rows: seq<seq<nat>>)
    requires Layout(sub, perRow, rows)
    ensures |rows| <= perRow.Length
  {
  }

  lemma LongestOfArray(sub: array2<nat>, perRow: array<nat>, rows: seq<seq<nat>>, m: nat)
    requires Layout(sub, perRow, rows) && m < |rows| <= perRow.Length
    requires forall j :: 0 <= j < |rows| ==> perRow[j] <= perRow[m]
    requires forall j :: 0 <= j < m ==> perRow[j] < perRow[m]
    ensures FirstLongest(rows, m) && m < sub.Length0 && perRow[m] == |rows[m]| <= sub.Length1
    ensures forall c :: 0 <= c < |rows[m]| ==> sub[m, c] == rows[m][c]
  {
  }

  lemma RunMember(t: seq<nat>, n: nat, start: nat, len: nat, k: nat)
    requires CyclicRun(t, n, start, len) && k < len
    ensures Around(start, k, n) in t
  {
  }

  /** The loop over the row lengths: the first row of greatest length. */
  method LongestRow(perRow: array<nat>, rowIndex: nat) returns (maxRow: nat)
    requires rowIndex < perRow.Length
    ensures maxRow <= rowIndex
    ensures forall j :: 0 <= j <= rowIndex ==> perRow[j] <= perRow[maxRow]
    ensures forall j :: 0 <= j < maxRow ==> perRow[j] < perRow[maxRow]
  {
    var maxPhases := 0;
    maxRow := 0;
    for i := 0 to rowIndex + 1
      invariant maxRow <= rowIndex && (i > 0 ==> maxPhases == perRow[maxRow])
      invariant i == 0 ==> maxRow == 0 && maxPhases == 0
      invariant forall j :: 0 <= j < i ==> perRow[j] <= maxPhases
      invariant forall j :: 0 <= j < maxRow ==> perRow[j] < maxPhases
    {
      if perRow[i] > maxPhases {
        maxPhases := perRow[i];
        maxRow := i;
      }
    }
  }
}
