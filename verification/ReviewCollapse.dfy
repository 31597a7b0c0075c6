/** What folding context keeps: every row in its place, hidden exactly when the rule hides it
    (src/review_diff.rs:568-693). */
module ReviewCollapse {
  import opened Options
  import opened ReviewRows

  // ---- One run ----

  function RunRows(run: seq<Line>, saw: bool, later: bool): (rows: seq<Row>)
    ensures |rows| == |run|
  {
    seq(|run|, k requires 0 <= k < |run| => Row(run[k], GapInRun(|run|, saw, later, k)))
  }

  predicate AllContext(lines: seq<Line>) {
    forall k :: 0 <= k < |lines| ==> lines[k].kind.Context?
  }

  lemma ShownRows(lines: seq<Line>)
    requires AllContext(lines)
    ensures Unfolded(lines) == RunRows(lines, false, false) && GapIds(lines) == []
  {
    UnfoldedWithoutGaps(lines);
  }

  lemma UnfoldedGap(hidden: seq<Line>, position: GapPosition, id: U64)
    requires hidden != []
    ensures var rows := Unfolded([GapFor(hidden, position, id)]);
            && |rows| == (if |hidden| <= U32_MAX then |hidden| else U32_MAX)
            && forall k :: 0 <= k < |rows| ==> rows[k] == Row(hidden[k], Some(position))
  {
    var gap := GapFor(hidden, position, id);
    assert Unfolded([gap]) == RowsOf(gap) + Unfolded([]);
  }

  /** A run shows all its rows, unless it hides more than a 32-bit count can tell. */
  lemma RunShows(c: Collapsing, run: seq<Line>, saw: bool, later: bool)
    requires AllContext(run)
    ensures var rows := Unfolded(RunInto(c, run, saw, later).lines);
            if HiddenLength(|run|, saw, later) <= U32_MAX then rows == Unfolded(c.lines) + RunRows(run, saw, later)
            else |rows| < |Unfolded(c.lines)| + |run|
  {
    hide Unfolded, RowsOf, GapFor, RunRows, GapIds;
    var length := HiddenLength(|run|, saw, later);
    if length <= COLLAPSED_CONTEXT_THRESHOLD {
      UnfoldedConcat(c.lines, run);
      ShownRows(run);
      ShortRun(run, saw, later);
    } else {
      var kept := if saw then COLLAPSED_CONTEXT_LINES else 0;
      var position := if !saw then Leading else if later then Between else Trailing;
      var before, hidden, after := run[..kept], run[kept..kept + length], run[kept + length..];
      var gap := GapFor(hidden, position, c.nextGapId);
      UnfoldedConcat(c.lines + before + [gap], after);
      UnfoldedConcat(c.lines + before, [gap]);
      UnfoldedConcat(c.lines, before);
      ShownRows(before);
      ShownRows(after);
      UnfoldedGap(hidden, position, c.nextGapId);
      if length <= U32_MAX {
        RunPieces(run, saw, later, Unfolded([gap]));
        Associate(Unfolded(c.lines), RunRows(before, false, false), Unfolded([gap]), RunRows(after, false, false));
      }
    }
  }

  lemma ShortRun(run: seq<Line>, saw: bool, later: bool)
    requires HiddenLength(|run|, saw, later) <= COLLAPSED_CONTEXT_THRESHOLD
    ensures RunRows(run, saw, later) == RunRows(run, false, false)
  {}

  lemma RunPieces(run: seq<Line>, saw: bool, later: bool, middle: seq<Row>)
    requires HiddenLength(|run|, saw, later) > COLLAPSED_CONTEXT_THRESHOLD
    requires var kept := if saw then COLLAPSED_CONTEXT_LINES else 0;
             && |middle| == HiddenLength(|run|, saw, later)
             && forall k :: 0 <= k < |middle| ==>
                  middle[k] == Row(run[kept..kept + |middle|][k], Some(GapBeside(saw, later)))
    ensures var kept := if saw then COLLAPSED_CONTEXT_LINES else 0;
            RunRows(run, saw, later)
            == RunRows(run[..kept], false, false) + middle + RunRows(run[kept + |middle|..], false, false)
  {}

  lemma Associate<T>(a: seq<T>, b: seq<T>, c: seq<T>, d: seq<T>)
    ensures a + b + c + d == a + (b + c + d)
  {}

  // ---- One file ----

  predicate Boundary(lines: seq<Line>, i: nat) {
    i <= |lines| && !(ContextAt(lines, i - 1) && ContextAt(lines, i))
  }

  function FileRows(lines: seq<Line>, i: nat): (rows: seq<Row>)
    requires i <= |lines|
    ensures |rows| == |lines| - i
  {
    seq(|lines| - i, k requires 0 <= k < |lines| - i => Row(lines[i + k], GapAt(lines, i + k)))
  }

  /** No run hides more rows than a 32-bit count can tell. */
  predicate CountsFit(lines: seq<Line>, i: nat) {
    forall k :: i <= k < |lines| && HiddenAt(lines, k) ==> HiddenAround(lines, k) <= U32_MAX
  }

  lemma RunBounds(lines: seq<Line>, i: nat, j: nat, k: nat)
    requires Boundary(lines, i) && i <= k < j <= |lines| && !ContextAt(lines, j)
    requires forall m :: i <= m < j ==> ContextAt(lines, m)
    ensures RunStart(lines, k) == i && RunEnd(lines, k) == j
  {}

  lemma {:induction false} FileShows(c: Collapsing, lines: seq<Line>, i: nat)
    requires NoGaps(lines) && Boundary(lines, i)
    ensures var rows := Unfolded(FileInto(c, lines, i).lines);
            if CountsFit(lines, i) then rows == Unfolded(c.lines) + FileRows(lines, i)
            else |rows| < |Unfolded(c.lines)| + |lines| - i
    decreases |lines| - i
  {
    hide Unfolded, RunInto, FileRows, RunRows, CountsFit, HiddenLength;
    if i == |lines| {
      NoFileRows(lines);
    } else if !lines[i].kind.Context? {
      var next := c.(lines := c.lines + [lines[i]]);
      FileShows(next, lines, i + 1);
      UnfoldedConcat(c.lines, [lines[i]]);
      UnfoldedWithoutGaps([lines[i]]);
      SkipsVisible(lines, i);
    } else {
      var j := RunEnd(lines, i + 1);
      var saw, later := ChangeIn(lines, 0, i), ChangeIn(lines, j, |lines|);
      assert forall m :: i <= m < j ==> ContextAt(lines, m);
      RunIsContext(lines, i, j);
      RunShows(c, lines[i..j], saw, later);
      FileShows(RunInto(c, lines[i..j], saw, later), lines, j);
      SkipsRun(lines, i, j);
    }
  }

  lemma NoFileRows(lines: seq<Line>)
    ensures FileRows(lines, |lines|) == [] && CountsFit(lines, |lines|)
  {}

  lemma RunIsContext(lines: seq<Line>, i: nat, j: nat)
    requires i <= j <= |lines| && forall m :: i <= m < j ==> ContextAt(lines, m)
    ensures AllContext(lines[i..j])
  {
    forall k | 0 <= k < j - i
      ensures lines[i..j][k].kind.Context?
    {
      assert ContextAt(lines, i + k);
    }
  }

  lemma SkipsVisible(lines: seq<Line>, i: nat)
    requires i < |lines| && !lines[i].kind.Context?
    ensures CountsFit(lines, i) == CountsFit(lines, i + 1)
    ensures FileRows(lines, i) == [Row(lines[i], None)] + FileRows(lines, i + 1)
  {
    hide HiddenAround, HiddenInRun;
    NotInGap(lines, i);
    FirstFileRow(lines, i);
  }

  lemma NotInGap(lines: seq<Line>, i: nat)
    requires i < |lines| && !lines[i].kind.Context?
    ensures GapAt(lines, i) == None
  {}

  lemma FirstFileRow(lines: seq<Line>, i: nat)
    requires i < |lines|
    ensures FileRows(lines, i) == [Row(lines[i], GapAt(lines, i))] + FileRows(lines, i + 1)
  {
    hide GapAt;
  }

  lemma SkipsRun(lines: seq<Line>, i: nat, j: nat)
    requires Boundary(lines, i) && i < j <= |lines| && !ContextAt(lines, j)
    requires forall m :: i <= m < j ==> ContextAt(lines, m)
    ensures var saw, later := ChangeIn(lines, 0, i), ChangeIn(lines, j, |lines|);
            && CountsFit(lines, i) == (HiddenLength(j - i, saw, later) <= U32_MAX && CountsFit(lines, j))
            && FileRows(lines, i) == RunRows(lines[i..j], saw, later) + FileRows(lines, j)
  {
    hide ChangeIn, RunStart, RunEnd, HiddenAt, HiddenAround, HiddenInRun, HiddenLength, U32_MAX, GapAt, GapInRun;
    var saw, later := ChangeIn(lines, 0, i), ChangeIn(lines, j, |lines|);
    var length := HiddenLength(j - i, saw, later);
    forall k | i <= k < j
      ensures HiddenAt(lines, k) == HiddenInRun(j - i, saw, later, k - i) && HiddenAround(lines, k) == length
      ensures GapAt(lines, k) == GapInRun(j - i, saw, later, k - i)
    {
      RunBounds(lines, i, j, k);
      HiddenByRun(lines, i, j, k);
    }
    if length > U32_MAX {
      var k := LongRunHides(j - i, saw, later);
      assert HiddenAt(lines, i + k) && HiddenAround(lines, i + k) > U32_MAX;
    }
    SameRows(lines, i, j, saw, later);
  }

  lemma SameRows(lines: seq<Line>, i: nat, j: nat, saw: bool, later: bool)
    requires i <= j <= |lines|
    requires forall k :: i <= k < j ==> GapAt(lines, k) == GapInRun(j - i, saw, later, k - i)
    ensures FileRows(lines, i) == RunRows(lines[i..j], saw, later) + FileRows(lines, j)
  {
    hide GapAt, GapInRun;
  }

  lemma HiddenByRun(lines: seq<Line>, i: nat, j: nat, k: nat)
    requires i <= k < j <= |lines| && ContextAt(lines, k) && RunStart(lines, k) == i && RunEnd(lines, k) == j
    ensures var saw, later := ChangeIn(lines, 0, i), ChangeIn(lines, j, |lines|);
            && HiddenAt(lines, k) == HiddenInRun(j - i, saw, later, k - i)
            && HiddenAround(lines, k) == HiddenLength(j - i, saw, later)
            && GapAt(lines, k) == GapInRun(j - i, saw, later, k - i)
  {}

  lemma LongRunHides(run: nat, saw: bool, later: bool) returns (k: nat)
    requires HiddenLength(run, saw, later) > U32_MAX
    ensures k < run && HiddenInRun(run, saw, later, k)
  {
    k := if saw then COLLAPSED_CONTEXT_LINES else 0;
  }

  // ---- The whole diff ----

  /** The rows of the file that row `i` belongs to, and the row's place among them. */
  function FileOf(lines: seq<Line>, i: nat): seq<Line>
    requires i < |lines|
  {
    lines[FileStart(lines, i)..FileEnd(lines, i)]
  }

  function PlaceInFile(lines: seq<Line>, i: nat): (place: nat)
    requires i < |lines|
    ensures place < |FileOf(lines, i)|
  {
    i - FileStart(lines, i)
  }

  /** Whether a row of the diff is hidden: the rule looks at the rows of its own file only. */
  predicate HiddenRow(lines: seq<Line>, i: nat)
    requires i < |lines|
  {
    HiddenAt(FileOf(lines, i), PlaceInFile(lines, i))
  }

  /** The kind of gap that hides a row of the diff, if one does. */
  function GapOfRow(lines: seq<Line>, i: nat): (gap: Option<GapPosition>)
    requires i < |lines|
    ensures gap.Some? == HiddenRow(lines, i)
  {
    GapAt(FileOf(lines, i), PlaceInFile(lines, i))
  }

  /** How many rows the run around a row hides. */
  function HiddenBeside(lines: seq<Line>, i: nat): int
    requires i < |lines|
  {
    HiddenAround(FileOf(lines, i), PlaceInFile(lines, i))
  }

  /** No run of the diff, from row `i` on, hides more rows than a 32-bit count can tell. */
  predicate GapsFit(lines: seq<Line>, i: nat) {
    forall k :: i <= k < |lines| && HiddenRow(lines, k) ==> HiddenBeside(lines, k) <= U32_MAX
  }

  function DiffRows(lines: seq<Line>, i: nat): (rows: seq<Row>)
    requires i <= |lines|
    ensures |rows| == |lines| - i
  {
    seq(|lines| - i, k requires 0 <= k < |lines| - i => Row(lines[i + k], GapOfRow(lines, i + k)))
  }

  predicate FileBoundary(lines: seq<Line>, i: nat) {
    i <= |lines| && (0 < i < |lines| ==> lines[i - 1].file != lines[i].file)
  }

  lemma FileBounds(lines: seq<Line>, i: nat, k: nat)
    requires i < |lines| && FileBoundary(lines, i) && i <= k < FileEnd(lines, i)
    ensures FileStart(lines, k) == i && FileEnd(lines, k) == FileEnd(lines, i)
  {
    assert lines[k].file == lines[i].file;
  }

  lemma SkipsFile(lines: seq<Line>, i: nat)
    requires i < |lines| && FileBoundary(lines, i)
    ensures var j := FileEnd(lines, i);
            && GapsFit(lines, i) == (CountsFit(lines[i..j], 0) && GapsFit(lines, j))
            && DiffRows(lines, i) == FileRows(lines[i..j], 0) + DiffRows(lines, j)
  {
    hide HiddenAt, HiddenAround, U32_MAX, GapAt;
    var j := FileEnd(lines, i);
    forall k | i <= k < j
      ensures HiddenRow(lines, k) == HiddenAt(lines[i..j], k - i)
      ensures GapOfRow(lines, k) == GapAt(lines[i..j], k - i)
      ensures HiddenBeside(lines, k) == HiddenAround(lines[i..j], k - i)
    {
      FileBounds(lines, i, k);
    }
    FileFits(lines, i, j);
  }

  lemma FileFits(lines: seq<Line>, i: nat, j: nat)
    requires i <= j <= |lines|
    requires forall k :: i <= k < j ==> HiddenRow(lines, k) == HiddenAt(lines[i..j], k - i)
    requires forall k :: i <= k < j ==> GapOfRow(lines, k) == GapAt(lines[i..j], k - i)
    requires forall k :: i <= k < j ==> HiddenBeside(lines, k) == HiddenAround(lines[i..j], k - i)
    ensures GapsFit(lines, i) == (CountsFit(lines[i..j], 0) && GapsFit(lines, j))
    ensures DiffRows(lines, i) == FileRows(lines[i..j], 0) + DiffRows(lines, j)
  {
    hide HiddenAt, HiddenAround, HiddenRow, HiddenBeside, U32_MAX, GapAt, GapOfRow;
    if GapsFit(lines, i) {
      forall k | 0 <= k < j - i && HiddenAt(lines[i..j], k)
        ensures HiddenAround(lines[i..j], k) <= U32_MAX
      {
        assert HiddenRow(lines, i + k);
      }
    }
  }

  lemma {:induction false} DiffShows(c: Collapsing, lines: seq<Line>, i: nat)
    requires NoGaps(lines) && FileBoundary(lines, i)
    ensures var rows := Unfolded(DiffInto(c, lines, i).lines);
            if GapsFit(lines, i) then rows == Unfolded(c.lines) + DiffRows(lines, i)
            else |rows| < |Unfolded(c.lines)| + |lines| - i
    decreases |lines| - i
  {
    hide Unfolded, FileInto, HiddenRow, HiddenBeside, CountsFit, HiddenAt;
    if i < |lines| {
      var j := FileEnd(lines, i);
      var file := lines[i..j];
      FileShows(c, file, 0);
      DiffShows(FileInto(c, file, 0), lines, j);
      SkipsFile(lines, i);
    }
  }

  /** Folding shows every row in its place, hidden exactly when the rule hides it and in a gap of the
      kind that the changes of its file make it, and loses rows exactly when one run hides more than a
      32-bit count can tell. */
  lemma CollapsedShowsEveryRow(lines: seq<Line>)
    requires NoGaps(lines)
    ensures GapsFit(lines, 0) ==> Unfolded(Collapsed(lines)) == DiffRows(lines, 0)
    ensures Flatten(Collapsed(lines)) == lines <==> GapsFit(lines, 0)
  {
    hide Unfolded, HiddenRow, HiddenBeside, DiffInto;
    DiffShows(Collapsing([], 0), lines, 0);
    assert Unfolded([]) == [] by {
      UnfoldedWithoutGaps([]);
    }
  }

  // ---- The gaps that folding leaves ----

  lemma RunGapsAreSound(c: Collapsing, run: seq<Line>, saw: bool, later: bool)
    requires AllContext(run) && GapsAreSound(c.lines)
    ensures GapsAreSound(RunInto(c, run, saw, later).lines)
  {
  }

  lemma {:induction false} FileGapsAreSound(c: Collapsing, lines: seq<Line>, i: nat)
    requires NoGaps(lines) && GapsAreSound(c.lines) && i <= |lines|
    ensures GapsAreSound(FileInto(c, lines, i).lines)
    decreases |lines| - i
  {
    hide RunInto;
    if i == |lines| {
    } else if !lines[i].kind.Context? {
      FileGapsAreSound(c.(lines := c.lines + [lines[i]]), lines, i + 1);
    } else {
      var j := RunEnd(lines, i + 1);
      RunIsContext(lines, i, j);
      RunGapsAreSound(c, lines[i..j], ChangeIn(lines, 0, i), ChangeIn(lines, j, |lines|));
      FileGapsAreSound(RunInto(c, lines[i..j], ChangeIn(lines, 0, i), ChangeIn(lines, j, |lines|)), lines, j);
    }
  }

  lemma {:induction false} DiffGapsAreSound(c: Collapsing, lines: seq<Line>, i: nat)
    requires NoGaps(lines) && GapsAreSound(c.lines) && i <= |lines|
    ensures GapsAreSound(DiffInto(c, lines, i).lines)
    decreases |lines| - i
  {
    hide FileInto;
    if i < |lines| {
      var j := FileEnd(lines, i);
      FileGapsAreSound(c, lines[i..j], 0);
      DiffGapsAreSound(FileInto(c, lines[i..j], 0), lines, j);
    }
  }

  /** Gaps are numbered in order, from zero, as far as 64 bits reach. */
  predicate Numbered(c: Collapsing) {
    && c.nextGapId == |GapIds(c.lines)| % U64_SIZE
    && forall k :: 0 <= k < |GapIds(c.lines)| ==> GapIds(c.lines)[k] == k % U64_SIZE
  }

  lemma RunIsNumbered(c: Collapsing, run: seq<Line>, saw: bool, later: bool)
    requires AllContext(run) && Numbered(c)
    ensures Numbered(RunInto(c, run, saw, later))
  {
    hide GapIds, GapFor;
    RunIds(c, run, saw, later);
  }

  lemma RunIds(c: Collapsing, run: seq<Line>, saw: bool, later: bool)
    requires AllContext(run)
    ensures GapIds(RunInto(c, run, saw, later).lines)
         == GapIds(c.lines)
            + (if HiddenLength(|run|, saw, later) > COLLAPSED_CONTEXT_THRESHOLD then [c.nextGapId] else [])
  {
    hide GapIds, GapFor, RunRows, Unfolded;
    var length := HiddenLength(|run|, saw, later);
    if length <= COLLAPSED_CONTEXT_THRESHOLD {
      GapIdsConcat(c.lines, run);
      ShownRows(run);
    } else {
      var kept := if saw then COLLAPSED_CONTEXT_LINES else 0;
      var position := if !saw then Leading else if later then Between else Trailing;
      var before, hidden, after := run[..kept], run[kept..kept + length], run[kept + length..];
      var gap := GapFor(hidden, position, c.nextGapId);
      GapIdsConcat(c.lines + before + [gap], after);
      GapIdsConcat(c.lines + before, [gap]);
      GapIdsConcat(c.lines, before);
      ShownRows(before);
      ShownRows(after);
      IdOfGap(hidden, position, c.nextGapId);
    }
  }

  lemma IdOfGap(hidden: seq<Line>, position: GapPosition, id: U64)
    requires hidden != []
    ensures GapIds([GapFor(hidden, position, id)]) == [id]
  {
    var gap := GapFor(hidden, position, id);
    assert GapIds([gap]) == IdOf(gap) + GapIds([]);
  }

  lemma {:induction false} FileIsNumbered(c: Collapsing, lines: seq<Line>, i: nat)
    requires NoGaps(lines) && Numbered(c) && i <= |lines|
    ensures Numbered(FileInto(c, lines, i))
    decreases |lines| - i
  {
    hide RunInto;
    if i == |lines| {
    } else if !lines[i].kind.Context? {
      GapIdsConcat(c.lines, [lines[i]]);
      UnfoldedWithoutGaps([lines[i]]);
      FileIsNumbered(c.(lines := c.lines + [lines[i]]), lines, i + 1);
    } else {
      var j := RunEnd(lines, i + 1);
      RunIsContext(lines, i, j);
      RunIsNumbered(c, lines[i..j], ChangeIn(lines, 0, i), ChangeIn(lines, j, |lines|));
      FileIsNumbered(RunInto(c, lines[i..j], ChangeIn(lines, 0, i), ChangeIn(lines, j, |lines|)), lines, j);
    }
  }

  lemma {:induction false} DiffIsNumbered(c: Collapsing, lines: seq<Line>, i: nat)
    requires NoGaps(lines) && Numbered(c) && i <= |lines|
    ensures Numbered(DiffInto(c, lines, i))
    decreases |lines| - i
  {
    hide FileInto;
    if i < |lines| {
      var j := FileEnd(lines, i);
      FileIsNumbered(c, lines[i..j], 0);
      DiffIsNumbered(FileInto(c, lines[i..j], 0), lines, j);
    }
  }

  predicate Distinct(ids: seq<U64>) {
    forall i, j :: 0 <= i < j < |ids| ==> ids[i] != ids[j]
  }

  /** Every gap that folding leaves hides at least two rows, all of them context; the gaps are
      numbered in order, so no two share an id unless there are more than 64 bits can tell. */
  lemma CollapsedGapsAreSound(lines: seq<Line>)
    requires NoGaps(lines)
    ensures GapsAreSound(Collapsed(lines))
    ensures var ids := GapIds(Collapsed(lines));
            && (forall k :: 0 <= k < |ids| ==> ids[k] == k % U64_SIZE)
            && (Distinct(ids) <==> |ids| <= U64_SIZE)
  {
    hide DiffInto;
    DiffGapsAreSound(Collapsing([], 0), lines, 0);
    DiffIsNumbered(Collapsing([], 0), lines, 0);
    var ids := GapIds(Collapsed(lines));
    if |ids| > U64_SIZE {
      assert ids[0] == ids[U64_SIZE];
    }
  }
}
