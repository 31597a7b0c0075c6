/** Where opening gaps ends: whether every row can be brought out (src/review_diff.rs:156-188). */
module ReviewEnds {
  import opened ReviewCollapse
  import opened ReviewExpansion
  import opened ReviewParse
  import opened ReviewRows
  import opened ReviewRuns

  /** Every line stands for a row at least. */
  lemma {:induction false} LinesAreFewer(lines: seq<Line>)
    ensures |lines| <= |Unfolded(lines)|
  {
    if lines != [] {
      LinesAreFewer(lines[1..]);
    }
  }

  lemma WithoutGapsNothingFolds(lines: seq<Line>)
    requires NoGaps(lines)
    ensures Flatten(lines) == lines
  {
    UnfoldedWithoutGaps(lines);
  }

  /** No request can be met any more. */
  ghost predicate AtRest(d: Diff) {
    forall i: nat :: !Opens(d, i)
  }

  /** Within the cap every gap can be opened, so at rest there is none. */
  lemma RestHasNoGaps(d: Diff)
    requires AllHideContext(d.lines) && |d.lines| <= MAX_RENDERED_DIFF_LINES
    ensures AtRest(d) <==> NoGaps(d.lines)
  {
    if AtRest(d) {
      forall line | line in d.lines
        ensures !line.kind.Folded?
      {
        var i: nat :| i < |d.lines| && d.lines[i] == line;
        assert !Opens(d, i) && HidesContext(d.lines[i]);
      }
    }
  }

  lemma RestIffAllShown(d: Diff, rows: seq<Line>)
    requires Sound(d) && NoGaps(rows) && Flatten(d.lines) == rows && |rows| <= MAX_RENDERED_DIFF_LINES
    ensures AtRest(d) <==> d.lines == rows
  {
    hide Flatten, NoGaps, AtRest, Indexed, AllHideContext;
    LinesAreFewer(d.lines);
    RestHasNoGaps(d);
    if AtRest(d) {
      WithoutGapsNothingFolds(d.lines);
    }
  }

  /** Opening whatever can be opened comes to rest. */
  lemma {:induction false} ComesToRest(d: Diff) returns (requests: seq<Request>)
    requires Sound(d)
    ensures AtRest(AfterAll(d, requests))
    decreases HiddenRows(d.lines)
  {
    hide Sound, Opens, HiddenRows, Expanded;
    if i: nat :| Opens(d, i) {
      AfterOne(d, i, All);
      var later := ComesToRest(Expanded(d, i, All).0);
      requests := [Request(i, All)] + later;
      assert requests[1..] == later;
    } else {
      requests := [];
    }
  }

  /** Above the cap there are lines only while a gap is left. */
  predicate CapOrGap(lines: seq<Line>) {
    |lines| <= MAX_RENDERED_DIFF_LINES || !NoGaps(lines)
  }

  lemma ExpandKeepsCapOrGap(d: Diff, i: nat, direction: Direction)
    requires CapOrGap(d.lines) && AllHideContext(d.lines)
    ensures CapOrGap(Expanded(d, i, direction).0.lines)
  {
    hide NoGaps, Unfolded, HiddenRows, GapIds, RevealsFromStart, Reveals, HidesContext;
    if Opens(d, i) {
      var a, r, c := OpensTo(d, i, direction);
      RevealsWithinCap(d, i, direction);
      if Reveals(d, i, direction) < |HiddenAtGap(d, i)| {
        if NoGaps(r) {
          NothingHides(r);
        }
        GapInside(a, r, c);
      } else {
        LinesAreFewer(r);
      }
    } else {
      assert Expanded(d, i, direction).0.lines == d.lines;
    }
  }

  lemma RevealsWithinCap(d: Diff, i: nat, direction: Direction)
    requires Opens(d, i)
    ensures Reveals(d, i, direction) <= |HiddenAtGap(d, i)|
    ensures |d.lines| - 1 + Reveals(d, i, direction) <= MAX_RENDERED_DIFF_LINES
  {}

  lemma {:induction false} NothingHides(lines: seq<Line>)
    requires NoGaps(lines)
    ensures HiddenRows(lines) == 0
  {
    if lines != [] {
      NothingHides(lines[1..]);
    }
  }

  lemma GapInside(a: seq<Line>, b: seq<Line>, c: seq<Line>)
    requires !NoGaps(b)
    ensures !NoGaps(a + b + c)
  {
    var line :| line in b && line.kind.Folded?;
    assert line in a + b + c;
  }

  lemma {:induction false} RunKeepsCapOrGap(d: Diff, requests: seq<Request>)
    requires Sound(d) && CapOrGap(d.lines)
    ensures CapOrGap(AfterAll(d, requests).lines)
    decreases |requests|
  {
    hide Expanded, CapOrGap, Indexed, GapIds;
    if requests != [] {
      var i, direction := requests[0].row, requests[0].direction;
      ExpandKeepsCapOrGap(d, i, direction);
      ExpandKeepsSound(d, i, direction);
      RunKeepsCapOrGap(Expanded(d, i, direction).0, requests[1..]);
    }
  }

  /** As many rows as the cap allows are too few for a count that does not fit. */
  lemma CappedCountsFit(rows: seq<Line>)
    requires |rows| <= MAX_RENDERED_DIFF_LINES
    ensures GapsFit(rows, 0)
  {
    hide HiddenAt, FileStart, FileEnd, RunStart, RunEnd, ChangeIn;
    forall k | 0 <= k < |rows| && HiddenRow(rows, k)
      ensures HiddenBeside(rows, k) <= U32_MAX
    {
      assert |FileOf(rows, k)| <= |rows|;
    }
  }

  /** Every row of a patch with full context can be brought out exactly when the rows are within the
      cap. Then whatever is opened in whatever order, the lines are the rows as soon as nothing is left
      to be opened, and not before. */
  lemma EveryRowCanShowIff(d: Diff, numstat: seq<File>, patch: seq<Raw>, s: Setup)
    requires s.completeContext && Opened(d, FedAll(AtStart(numstat), patch, s).lines)
    ensures var rows := FedAll(AtStart(numstat), patch, s).lines;
            && ((exists requests :: AfterAll(d, requests).lines == rows) <==> |rows| <= MAX_RENDERED_DIFF_LINES)
            && (|rows| <= MAX_RENDERED_DIFF_LINES ==>
                  forall requests :: AtRest(AfterAll(d, requests)) <==> AfterAll(d, requests).lines == rows)
  {
    hide FedAll, NoGaps, AfterAll, AtRest, Opened;
    var rows := FedAll(AtStart(numstat), patch, s).lines;
    PatchHasNoGaps(numstat, patch, s);
    if requests :| AfterAll(d, requests).lines == rows {
      ShownIsWithinCap(d, rows, requests);
    }
    if |rows| <= MAX_RENDERED_DIFF_LINES {
      forall requests
        ensures AtRest(AfterAll(d, requests)) <==> AfterAll(d, requests).lines == rows
      {
        RestOfRows(d, rows, requests);
      }
      OpenedIsSound(d, rows);
      var requests := ComesToRest(d);
      assert AfterAll(d, requests).lines == rows;
    }
  }

  lemma ShownIsWithinCap(d: Diff, rows: seq<Line>, requests: seq<Request>)
    requires NoGaps(rows) && Opened(d, rows) && AfterAll(d, requests).lines == rows
    ensures |rows| <= MAX_RENDERED_DIFF_LINES
  {
    hide NoGaps, AfterAll, Sound, Collapsed;
    OpenedIsSound(d, rows);
    RunKeepsCapOrGap(d, requests);
  }

  lemma RestOfRows(d: Diff, rows: seq<Line>, requests: seq<Request>)
    requires NoGaps(rows) && Opened(d, rows) && |rows| <= MAX_RENDERED_DIFF_LINES
    ensures AtRest(AfterAll(d, requests)) <==> AfterAll(d, requests).lines == rows
  {
    hide NoGaps, AfterAll, Sound, Collapsed, Flatten, AtRest, GapsFit;
    CappedCountsFit(rows);
    CollapsedShowsEveryRow(rows);
    LinesAreFewer(Collapsed(rows));
    ParsedRowsSurvive(d, rows, requests);
    RestIffAllShown(AfterAll(d, requests), rows);
  }
}
