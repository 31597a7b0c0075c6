/** The rule for hidden rows told without runs and lengths: a row hides if three rows or more stand
    between it and each change, and another row hides with it (src/review_diff.rs:588-652). */
module ReviewRule {
  import opened ReviewRows

  /** A row of context in a file with a change, with three rows of context towards the changes before it
      and three towards those behind it. */
  predicate IsFar(lines: seq<Line>, i: nat) {
    var before, behind := ChangeIn(lines, 0, i), ChangeIn(lines, i, |lines|);
    && ContextAt(lines, i) && (before || behind)
    && (before ==> ContextAt(lines, i - 1) && ContextAt(lines, i - 2) && ContextAt(lines, i - 3))
    && (behind ==> ContextAt(lines, i + 1) && ContextAt(lines, i + 2) && ContextAt(lines, i + 3))
  }

  /** Nothing but context lies between the two rows. */
  ghost predicate InOneRun(lines: seq<Line>, i: nat, j: nat) {
    forall k :: (i <= k <= j || j <= k <= i) ==> ContextAt(lines, k)
  }

  /** A row is far from the changes exactly if it is inside the margins of its run. */
  lemma FarIff(lines: seq<Line>, i: nat)
    requires ContextAt(lines, i)
    ensures var a, b := RunStart(lines, i), RunEnd(lines, i);
            var saw, later := ChangeIn(lines, 0, a), ChangeIn(lines, b, |lines|);
            && a <= i < b && saw == ChangeIn(lines, 0, i) && later == ChangeIn(lines, i, |lines|)
            && (IsFar(lines, i) <==> (saw || later) && (saw ==> a + 3 <= i) && (later ==> i + 3 < b))
  {
    hide ChangeIn, RunStart, RunEnd;
    RunHasNoChange(lines, i, RunStart(lines, i), RunEnd(lines, i));
    MarginBefore(lines, i);
    MarginBehind(lines, i);
  }

  lemma MarginBefore(lines: seq<Line>, i: nat)
    requires ContextAt(lines, i)
    ensures ContextAt(lines, i - 1) && ContextAt(lines, i - 2) && ContextAt(lines, i - 3)
            <==> RunStart(lines, i) + 3 <= i
  {
    hide RunStart;
    var a: int := RunStart(lines, i);
    assert !ContextAt(lines, a - 1) && forall k :: a <= k < i ==> ContextAt(lines, k);
    assert i < a + 3 ==> i - 1 == a - 1 || i - 2 == a - 1 || i - 3 == a - 1;
  }

  lemma MarginBehind(lines: seq<Line>, i: nat)
    requires ContextAt(lines, i)
    ensures ContextAt(lines, i + 1) && ContextAt(lines, i + 2) && ContextAt(lines, i + 3)
            <==> i + 3 < RunEnd(lines, i)
    ensures i < RunEnd(lines, i)
  {
    hide RunEnd;
    var b := RunEnd(lines, i);
    assert !ContextAt(lines, b) && forall k :: i <= k < b ==> ContextAt(lines, k);
    assert b <= i + 3 ==> b == i || b == i + 1 || b == i + 2 || b == i + 3;
  }

  lemma RunHasNoChange(lines: seq<Line>, i: nat, a: nat, b: nat)
    requires a <= i <= b <= |lines| && forall k :: a <= k < b ==> ContextAt(lines, k)
    ensures ChangeIn(lines, 0, a) == ChangeIn(lines, 0, i)
    ensures ChangeIn(lines, b, |lines|) == ChangeIn(lines, i, |lines|)
  {
    forall k | a <= k < b
      ensures !lines[k].IsChange()
    {
      assert ContextAt(lines, k);
    }
  }

  lemma SameRun(lines: seq<Line>, i: nat, j: nat)
    requires InOneRun(lines, i, j) && i <= |lines| && j <= |lines|
    ensures RunStart(lines, i) == RunStart(lines, j) && RunEnd(lines, i) == RunEnd(lines, j)
  {
    hide RunStart, RunEnd;
    StartsNoLater(lines, i, j);
    StartsNoLater(lines, j, i);
    EndsNoSooner(lines, i, j);
    EndsNoSooner(lines, j, i);
  }

  lemma StartsNoLater(lines: seq<Line>, i: nat, j: nat)
    requires InOneRun(lines, i, j) && i <= |lines| && j <= |lines|
    ensures RunStart(lines, j) <= RunStart(lines, i)
  {
    hide RunStart;
    var a: int, b: int := RunStart(lines, i), RunStart(lines, j);
    assert forall k :: a <= k <= j ==> ContextAt(lines, k);
    assert !ContextAt(lines, b - 1);
  }

  lemma EndsNoSooner(lines: seq<Line>, i: nat, j: nat)
    requires InOneRun(lines, i, j) && i <= |lines| && j <= |lines|
    ensures RunEnd(lines, i) <= RunEnd(lines, j)
  {
    hide RunEnd;
    var a, b := RunEnd(lines, i), RunEnd(lines, j);
    assert forall k :: j <= k < a ==> ContextAt(lines, k);
    assert !ContextAt(lines, b);
  }

  /** A row of a file hides exactly if it is far from the changes and so is another row of its run. */
  lemma HiddenIff(lines: seq<Line>, i: nat)
    requires i < |lines|
    ensures HiddenAt(lines, i)
            <==> IsFar(lines, i) && exists j: nat :: j != i && InOneRun(lines, i, j) && IsFar(lines, j)
  {
    hide IsFar, ChangeIn, RunStart, RunEnd;
    if ContextAt(lines, i) {
      FarIff(lines, i);
      if HiddenAt(lines, i) {
        var j := AnotherIsFar(lines, i);
      }
      if j: nat :| IsFar(lines, i) && j != i && InOneRun(lines, i, j) && IsFar(lines, j) {
        assert ContextAt(lines, j);
        SameRun(lines, i, j);
        FarIff(lines, j);
      }
    } else {
      FarIsContext(lines, i);
    }
  }

  lemma FarIsContext(lines: seq<Line>, i: nat)
    ensures IsFar(lines, i) ==> ContextAt(lines, i)
  {}

  lemma AnotherIsFar(lines: seq<Line>, i: nat) returns (j: nat)
    requires i < |lines| && HiddenAt(lines, i)
    ensures j != i && InOneRun(lines, i, j) && IsFar(lines, j)
  {
    hide IsFar, ChangeIn, RunStart, RunEnd;
    var a, b := RunStart(lines, i), RunEnd(lines, i);
    FarIff(lines, i);
    var first := a + (if ChangeIn(lines, 0, a) then 3 else 0);
    j := if i == first then i + 1 else first;
    assert a <= j < b && ContextAt(lines, j);
    assert InOneRun(lines, i, j);
    SameRun(lines, i, j);
    FarIff(lines, j);
  }
}
