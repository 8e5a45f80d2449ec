/** Cutting an ordered sequence into runs, as the loop of parseCsvdata in
    src/libWalkTrack.js does: each new element joins the open run when it is
    `near` the element before it and opens a new run otherwise. Stated for
    any relation `near`; module WalkTrack instantiates it with the time-gap
    rule. */
module Segmentation {

  /** The runs formed from the first `n` elements of `rows`, one element at
      a time as the loop meets them: element `n - 1` joins the open (last)
      run when it is near element `n - 2`, and opens a run of its own
      otherwise. */
  function Groups<T>(near: (T, T) -> bool, rows: seq<T>, n: nat): (gs: seq<seq<T>>)
    requires 1 <= n <= |rows|
    ensures |gs| >= 1
    decreases n
  {
    if n == 1 then [[rows[0]]]
    else
      var before := Groups(near, rows, n - 1);
      var k := |before|;
      if near(rows[n - 2], rows[n - 1])
      then before[..k - 1] + [before[k - 1] + [rows[n - 1]]]
      else before + [[rows[n - 1]]]
  }

  /** The last element of a non-empty sequence. */
  function Last<T>(s: seq<T>): T
    requires |s| >= 1
  {
    s[|s| - 1]
  }

  /** The runs concatenated in order. */
  function Flatten<T>(gs: seq<seq<T>>): seq<T>
    decreases |gs|
  {
    if |gs| == 0 then [] else Flatten(gs[..|gs| - 1]) + gs[|gs| - 1]
  }

  predicate NonEmptyGroups<T>(gs: seq<seq<T>>)
  {
    forall i :: 0 <= i < |gs| ==> |gs[i]| >= 1
  }

  /** Adjacent elements of one run are near each other. */
  predicate GapsWithin<T>(near: (T, T) -> bool, gs: seq<seq<T>>)
  {
    forall i, k :: 0 <= i < |gs| && 1 <= k < |gs[i]| ==> near(gs[i][k - 1], gs[i][k])
  }

  /** The last element of a run is not near the first element of the next run. */
  predicate GapsBetween<T>(near: (T, T) -> bool, gs: seq<seq<T>>)
    requires NonEmptyGroups(gs)
  {
    forall i :: 1 <= i < |gs| ==> !near(Last(gs[i - 1]), gs[i][0])
  }

  /** `gs` cuts `rows` into non-empty runs exactly where `near` fails. */
  ghost predicate IsRunPartition<T>(near: (T, T) -> bool, rows: seq<T>, gs: seq<seq<T>>)
  {
    NonEmptyGroups(gs) && Flatten(gs) == rows && GapsWithin(near, gs) && GapsBetween(near, gs)
  }

  /** The number of adjacent pairs among the first `n` elements that are not near. */
  function Breaks<T>(near: (T, T) -> bool, rows: seq<T>, n: nat): nat
    requires n <= |rows|
    decreases n
  {
    if n <= 1 then 0
    else Breaks(near, rows, n - 1) + (if near(rows[n - 2], rows[n - 1]) then 0 else 1)
  }

  /** The last run is non-empty and ends with the newest element. */
  lemma GroupsLast<T>(near: (T, T) -> bool, rows: seq<T>, n: nat)
    requires 1 <= n <= |rows|
    ensures |Last(Groups(near, rows, n))| >= 1
    ensures Last(Last(Groups(near, rows, n))) == rows[n - 1]
  {
  }

  /** Every run is non-empty. */
  lemma {:induction false} GroupsNonEmpty<T>(near: (T, T) -> bool, rows: seq<T>, n: nat)
    requires 1 <= n <= |rows|
    ensures NonEmptyGroups(Groups(near, rows, n))
    decreases n
  {
    if n > 1 {
      GroupsNonEmpty(near, rows, n - 1);
      var before := Groups(near, rows, n - 1);
      var gs := Groups(near, rows, n);
      forall i | 0 <= i < |gs| ensures |gs[i]| >= 1 {
        if i < |before| - 1 || (!near(rows[n - 2], rows[n - 1]) && i < |before|) {
          assert gs[i] == before[i];
        }
      }
    }
  }

  /** Flatten after the last run grows by one element. */
  lemma FlattenExtend<T>(gs: seq<seq<T>>, next: T)
    requires |gs| >= 1
    ensures Flatten(gs[..|gs| - 1] + [Last(gs) + [next]]) == Flatten(gs) + [next]
  {
  }

  /** Flatten after a new one-element run. */
  lemma FlattenAppend<T>(gs: seq<seq<T>>, next: T)
    ensures Flatten(gs + [[next]]) == Flatten(gs) + [next]
  {
  }

  lemma {:induction false} FlattenLength<T>(gs: seq<seq<T>>)
    requires NonEmptyGroups(gs)
    ensures |Flatten(gs)| >= |gs|
    decreases |gs|
  {
    if |gs| > 0 {
      FlattenLength(gs[..|gs| - 1]);
    }
  }

  /** Partition: concatenating the runs gives back the elements, in order,
      none dropped or repeated. */
  lemma {:induction false} GroupsPartition<T>(near: (T, T) -> bool, rows: seq<T>, n: nat)
    requires 1 <= n <= |rows|
    ensures Flatten(Groups(near, rows, n)) == rows[..n]
    decreases n
  {
    if n == 1 {
      assert Flatten([[rows[0]]]) == Flatten([]) + [rows[0]];
    } else {
      GroupsPartition(near, rows, n - 1);
      assert rows[..n] == rows[..n - 1] + [rows[n - 1]];
      if near(rows[n - 2], rows[n - 1]) {
        FlattenExtend(Groups(near, rows, n - 1), rows[n - 1]);
      } else {
        FlattenAppend(Groups(near, rows, n - 1), rows[n - 1]);
      }
    }
  }

  /** One more element keeps every run's neighbours near. */
  lemma GapsWithinStep<T>(near: (T, T) -> bool, gs: seq<seq<T>>, prev: T, next: T)
    requires |gs| >= 1 && |Last(gs)| >= 1 && GapsWithin(near, gs)
    requires Last(Last(gs)) == prev
    ensures near(prev, next) ==> GapsWithin(near, gs[..|gs| - 1] + [Last(gs) + [next]])
    ensures !near(prev, next) ==> GapsWithin(near, gs + [[next]])
  {
  }

  /** Within a run every pair of neighbours is near. */
  lemma {:induction false} GroupsGapsWithin<T>(near: (T, T) -> bool, rows: seq<T>, n: nat)
    requires 1 <= n <= |rows|
    ensures GapsWithin(near, Groups(near, rows, n))
    decreases n
  {
    if n > 1 {
      GroupsGapsWithin(near, rows, n - 1);
      GroupsLast(near, rows, n - 1);
      GapsWithinStep(near, Groups(near, rows, n - 1), rows[n - 2], rows[n - 1]);
    }
  }

  /** One more element keeps the runs' boundaries apart. */
  lemma GapsBetweenStep<T>(near: (T, T) -> bool, gs: seq<seq<T>>, prev: T, next: T)
    requires |gs| >= 1 && NonEmptyGroups(gs) && GapsBetween(near, gs)
    requires Last(Last(gs)) == prev
    ensures near(prev, next) ==>
              var gs' := gs[..|gs| - 1] + [Last(gs) + [next]];
              NonEmptyGroups(gs') && GapsBetween(near, gs')
    ensures !near(prev, next) ==>
              var gs' := gs + [[next]];
              NonEmptyGroups(gs') && GapsBetween(near, gs')
  {
  }

  /** Between consecutive runs the neighbours are not near. */
  lemma {:induction false} GroupsGapsBetween<T>(near: (T, T) -> bool, rows: seq<T>, n: nat)
    requires 1 <= n <= |rows|
    ensures NonEmptyGroups(Groups(near, rows, n))
    ensures GapsBetween(near, Groups(near, rows, n))
    decreases n
  {
    GroupsNonEmpty(near, rows, n);
    if n > 1 {
      GroupsGapsBetween(near, rows, n - 1);
      GroupsLast(near, rows, n - 1);
      GapsBetweenStep(near, Groups(near, rows, n - 1), rows[n - 2], rows[n - 1]);
    }
  }

  /** There is one run more than there are breaks. */
  lemma {:induction false} GroupsCount<T>(near: (T, T) -> bool, rows: seq<T>, n: nat)
    requires 1 <= n <= |rows|
    ensures |Groups(near, rows, n)| == 1 + Breaks(near, rows, n)
    decreases n
  {
    if n > 1 {
      GroupsCount(near, rows, n - 1);
    }
  }

  /** The runs of the pass are a run partition of the elements. */
  lemma GroupsIsRunPartition<T>(near: (T, T) -> bool, rows: seq<T>, n: nat)
    requires 1 <= n <= |rows|
    ensures IsRunPartition(near, rows[..n], Groups(near, rows, n))
  {
    GroupsPartition(near, rows, n);
    GroupsGapsWithin(near, rows, n);
    GroupsGapsBetween(near, rows, n);
  }

  /** The last element of a flattened sequence of runs is that of its last run. */
  lemma FlattenLast<T>(gs: seq<seq<T>>)
    requires |gs| >= 1 && NonEmptyGroups(gs)
    ensures |Flatten(gs)| >= 1 && Last(Flatten(gs)) == Last(Last(gs))
  {
  }

  /** A run partition of `rows` whose last run is the single last element:
      the other runs partition the elements before it, and that element is
      not near its predecessor. */
  lemma DropLastGroup<T>(near: (T, T) -> bool, rows: seq<T>, gs: seq<seq<T>>)
    requires |rows| >= 2
    requires IsRunPartition(near, rows, gs)
    requires |gs| >= 1 && |gs[|gs| - 1]| == 1
    ensures IsRunPartition(near, rows[..|rows| - 1], gs[..|gs| - 1])
    ensures !near(rows[|rows| - 2], rows[|rows| - 1])
    ensures gs == gs[..|gs| - 1] + [[rows[|rows| - 1]]]
  {
    var n, k := |rows|, |gs|;
    var init, last := gs[..k - 1], gs[k - 1];
    assert gs == init + [last];
    assert rows == Flatten(init) + last;
    assert rows[..n - 1] == Flatten(init);
    assert last == [rows[n - 1]];
    assert NonEmptyGroups(init);
    FlattenLength(init);
    FlattenLast(init);
    assert GapsWithin(near, init);
    assert GapsBetween(near, init);
    assert !near(Last(gs[k - 2]), gs[k - 1][0]);
  }

  /** A run partition of `rows` whose last run has two or more elements:
      with the last element taken off that run it partitions the elements
      before it, and the last element is near its predecessor. */
  lemma DropLastRow<T>(near: (T, T) -> bool, rows: seq<T>, gs: seq<seq<T>>)
    requires |rows| >= 2
    requires IsRunPartition(near, rows, gs)
    requires |gs| >= 1 && |gs[|gs| - 1]| >= 2
    ensures var last := gs[|gs| - 1];
            var gs' := gs[..|gs| - 1] + [last[..|last| - 1]];
            IsRunPartition(near, rows[..|rows| - 1], gs')
            && gs == gs'[..|gs| - 1] + [gs'[|gs| - 1] + [rows[|rows| - 1]]]
    ensures near(rows[|rows| - 2], rows[|rows| - 1])
  {
    var n, k := |rows|, |gs|;
    var init, last := gs[..k - 1], gs[k - 1];
    var shorter := last[..|last| - 1];
    var gs' := init + [shorter];
    assert gs == init + [last];
    assert rows == Flatten(init) + last;
    assert gs'[..k - 1] == init;
    assert rows[..n - 1] == Flatten(init) + shorter;
    assert NonEmptyGroups(gs');
    assert GapsWithin(near, gs') by {
      forall i, j | 0 <= i < |gs'| && 1 <= j < |gs'[i]|
        ensures near(gs'[i][j - 1], gs'[i][j])
      {
        assert gs'[i][j] == gs[i][j] && gs'[i][j - 1] == gs[i][j - 1];
      }
    }
    assert GapsBetween(near, gs') by {
      forall i | 1 <= i < |gs'|
        ensures !near(Last(gs'[i - 1]), gs'[i][0])
      {
        assert gs'[i - 1] == gs[i - 1];
        assert gs'[i][0] == gs[i][0];
      }
    }
    assert near(last[|last| - 2], last[|last| - 1]);
    assert last[|last| - 2] == rows[n - 2] && last[|last| - 1] == rows[n - 1];
    assert shorter + [rows[n - 1]] == last;
  }

  /** The rule decides the runs: any partition of the first `n` elements
      into non-empty runs whose neighbours are near inside a run and not
      near across a boundary is the one the pass builds. */
  lemma {:induction false} RunPartitionUnique<T>(near: (T, T) -> bool, rows: seq<T>, n: nat,
                                                 gs: seq<seq<T>>)
    requires 1 <= n <= |rows|
    requires IsRunPartition(near, rows[..n], gs)
    ensures gs == Groups(near, rows, n)
    decreases n
  {
    var k := |gs|;
    var prefix := rows[..n];
    assert prefix[..n - 1] == rows[..n - 1];
    if k == 0 {
      assert false;
    } else if n == 1 {
      var init := gs[..k - 1];
      assert gs == init + [gs[k - 1]];
      assert Flatten(gs) == Flatten(init) + gs[k - 1];
      assert NonEmptyGroups(init);
      FlattenLength(init);
      assert init == [];
      assert gs[k - 1] == [rows[0]];
    } else if |gs[k - 1]| == 1 {
      DropLastGroup(near, prefix, gs);
      RunPartitionUnique(near, rows, n - 1, gs[..k - 1]);
    } else {
      DropLastRow(near, prefix, gs);
      var last := gs[k - 1];
      RunPartitionUnique(near, rows, n - 1, gs[..k - 1] + [last[..|last| - 1]]);
    }
  }
}
