/** The rows of a review diff and how context is folded into gaps
    (src/review_diff.rs:16-126, 568-693). */
module ReviewRows {
  import opened Options

  const COLLAPSED_CONTEXT_LINES: nat := 3
  const COLLAPSED_CONTEXT_THRESHOLD: nat := 1
  const MAX_RENDERED_DIFF_LINES: nat := 50_000
  const U32_MAX: nat := 0xFFFF_FFFF
  const U64_SIZE: nat := 0x1_0000_0000_0000_0000

  type U32 = n: int | 0 <= n <= U32_MAX
  type U64 = n: int | 0 <= n < U64_SIZE

  datatype GapPosition = Leading | Between | Trailing

  /** A coloured span of a row; nothing here looks inside. */
  datatype Token = Token(start: nat, end: nat, kind: nat)

  datatype Gap = Gap(id: U64, count: U32, hidden: seq<Line>, position: GapPosition) {
    predicate IsExpandable() {
      count > 0 && |hidden| == count
    }
  }

  datatype LineKind = FileHeader | Folded(gap: Gap) | HunkHeader | Context | Addition | Deletion | Meta

  datatype Line = Line(file: nat, oldLine: Option<nat>, newLine: Option<nat>, kind: LineKind,
                       content: string, tokens: seq<Token>) {
    predicate IsChange() {
      kind.Addition? || kind.Deletion?
    }
  }

  datatype FileStatus = Added | Modified | Deleted | Binary

  /** A changed file and the first row of it in the diff. */
  datatype File = File(path: string, additions: nat, deletions: nat, status: FileStatus, diffLine: Option<nat>)

  /** A separator row that stands for a gap. */
  function GapLine(file: nat, gap: Gap): Line {
    Line(file, None, None, Folded(gap), "", [])
  }

  // ---- What rows stand for ----

  /** A row of the diff and, if a gap hides it, what kind of gap. */
  datatype Row = Row(line: Line, gap: Option<GapPosition>)

  function RowsOf(line: Line): seq<Row> {
    if line.kind.Folded? && line.kind.gap.IsExpandable() then
      var hidden := line.kind.gap.hidden;
      seq(|hidden|, i requires 0 <= i < |hidden| => Row(hidden[i], Some(line.kind.gap.position)))
    else [Row(line, None)]
  }

  /** The lines with every gap replaced by the rows it hides. */
  function Unfolded(lines: seq<Line>): seq<Row> {
    if lines == [] then [] else RowsOf(lines[0]) + Unfolded(lines[1..])
  }

  function Flatten(lines: seq<Line>): (rows: seq<Line>)
    ensures |rows| == |Unfolded(lines)|
  {
    var rows := Unfolded(lines);
    seq(|rows|, i requires 0 <= i < |rows| => rows[i].line)
  }

  predicate NoGaps(lines: seq<Line>) {
    forall line <- lines :: !line.kind.Folded?
  }

  /** A gap that `collapse_context` may leave: at least two rows, all of them context. */
  predicate GapIsSound(line: Line) {
    line.kind.Folded? ==>
      var gap := line.kind.gap;
      gap.count == |gap.hidden| && 2 <= gap.count && forall row <- gap.hidden :: row.kind.Context?
  }

  predicate GapsAreSound(lines: seq<Line>) {
    forall line <- lines :: GapIsSound(line)
  }

  function GapIds(lines: seq<Line>): (ids: seq<U64>)
    ensures |ids| <= |lines|
  {
    if lines == [] then [] else IdOf(lines[0]) + GapIds(lines[1..])
  }

  function IdOf(line: Line): (ids: seq<U64>)
    ensures |ids| <= 1
  {
    if line.kind.Folded? then [line.kind.gap.id] else []
  }

  lemma {:induction false} UnfoldedConcat(a: seq<Line>, b: seq<Line>)
    ensures Unfolded(a + b) == Unfolded(a) + Unfolded(b)
  {
    hide RowsOf;
    if a == [] {
      assert a + b == b;
    } else {
      assert (a + b)[1..] == a[1..] + b;
      UnfoldedConcat(a[1..], b);
    }
  }

  lemma {:induction false} GapIdsConcat(a: seq<Line>, b: seq<Line>)
    ensures GapIds(a + b) == GapIds(a) + GapIds(b)
  {
    hide IdOf;
    if a == [] {
      assert a + b == b;
    } else {
      assert (a + b)[1..] == a[1..] + b;
      GapIdsConcat(a[1..], b);
    }
  }

  lemma FlattenConcat(a: seq<Line>, b: seq<Line>)
    ensures Flatten(a + b) == Flatten(a) + Flatten(b)
  {
    UnfoldedConcat(a, b);
  }

  lemma {:induction false} UnfoldedWithoutGaps(lines: seq<Line>)
    requires NoGaps(lines)
    ensures Unfolded(lines) == seq(|lines|, i requires 0 <= i < |lines| => Row(lines[i], None))
    ensures GapIds(lines) == []
  {
    hide RowsOf;
    if lines != [] {
      RowOfShown(lines[0]);
      UnfoldedWithoutGaps(lines[1..]);
    }
  }

  lemma RowOfShown(line: Line)
    requires !line.kind.Folded?
    ensures RowsOf(line) == [Row(line, None)]
  {}

  // ---- Which rows are hidden ----

  predicate ContextAt(lines: seq<Line>, i: int) {
    0 <= i < |lines| && lines[i].kind.Context?
  }

  /** Where the run of context rows that holds row `i` starts and ends. */
  function RunStart(lines: seq<Line>, i: nat): (a: nat)
    requires i <= |lines|
    ensures a <= i && !ContextAt(lines, a - 1) && forall k :: a <= k < i ==> ContextAt(lines, k)
  {
    if ContextAt(lines, i - 1) then RunStart(lines, i - 1) else i
  }

  function RunEnd(lines: seq<Line>, i: nat): (b: nat)
    requires i <= |lines|
    ensures i <= b <= |lines| && !ContextAt(lines, b) && forall k :: i <= k < b ==> ContextAt(lines, k)
    decreases |lines| - i
  {
    if ContextAt(lines, i) then RunEnd(lines, i + 1) else i
  }

  predicate ChangeIn(lines: seq<Line>, lo: nat, hi: nat) {
    exists k :: lo <= k < hi && k < |lines| && lines[k].IsChange()
  }

  /** How many rows a run of context hides: all but three beside each change. */
  function HiddenLength(run: nat, saw: bool, later: bool): int {
    if !saw && !later then 0
    else run - (if saw then COLLAPSED_CONTEXT_LINES else 0) - (if later then COLLAPSED_CONTEXT_LINES else 0)
  }

  /** Whether the `k`th row of a run is hidden. */
  predicate HiddenInRun(run: nat, saw: bool, later: bool, k: int) {
    && HiddenLength(run, saw, later) > COLLAPSED_CONTEXT_THRESHOLD
    && (if saw then COLLAPSED_CONTEXT_LINES else 0) <= k
    && k < run - (if later then COLLAPSED_CONTEXT_LINES else 0)
  }

  /** How many rows the run around a context row of a file hides. */
  function HiddenAround(lines: seq<Line>, i: nat): int
    requires i < |lines|
  {
    var a, b := RunStart(lines, i), RunEnd(lines, i);
    HiddenLength(b - a, ChangeIn(lines, 0, a), ChangeIn(lines, b, |lines|))
  }

  /** Whether a row of a file is hidden. */
  predicate HiddenAt(lines: seq<Line>, i: nat)
    requires i < |lines|
  {
    && ContextAt(lines, i)
    && var a, b := RunStart(lines, i), RunEnd(lines, i);
       HiddenInRun(b - a, ChangeIn(lines, 0, a), ChangeIn(lines, b, |lines|), i - a)
  }

  /** A gap comes before the first change of its file, behind the last, or between two. */
  function GapBeside(saw: bool, later: bool): GapPosition {
    if saw && later then Between else if saw then Trailing else Leading
  }

  /** The kind of gap that hides the `k`th row of a run, if one does. */
  function GapInRun(run: nat, saw: bool, later: bool, k: int): Option<GapPosition> {
    if HiddenInRun(run, saw, later, k) then Some(GapBeside(saw, later)) else None
  }

  /** The kind of gap that hides a row of a file, if one does. */
  function GapAt(lines: seq<Line>, i: nat): Option<GapPosition>
    requires i < |lines|
  {
    if !HiddenAt(lines, i) then None
    else Some(GapBeside(ChangeIn(lines, 0, RunStart(lines, i)), ChangeIn(lines, RunEnd(lines, i), |lines|)))
  }

  // ---- Folding ----

  /** The rows so far and the next gap's id. */
  datatype Collapsing = Collapsing(lines: seq<Line>, nextGapId: U64)

  function GapFor(hidden: seq<Line>, position: GapPosition, id: U64): Line
    requires hidden != []
  {
    var count := if |hidden| <= U32_MAX then |hidden| else U32_MAX;
    GapLine(hidden[0].file, Gap(id, count, hidden[..count], position))
  }

  /** One run of context after the rows so far. */
  function RunInto(c: Collapsing, run: seq<Line>, saw: bool, later: bool): Collapsing {
    var length := HiddenLength(|run|, saw, later);
    if length <= COLLAPSED_CONTEXT_THRESHOLD then c.(lines := c.lines + run)
    else
      var keptStart := if saw then COLLAPSED_CONTEXT_LINES else 0;
      var position := if !saw then Leading else if later then Between else Trailing;
      var gap := GapFor(run[keptStart..keptStart + length], position, c.nextGapId);
      Collapsing(c.lines + run[..keptStart] + [gap] + run[keptStart + length..], (c.nextGapId + 1) % U64_SIZE)
  }

  /** The rows of a file from row `i` after the rows so far. */
  function FileInto(c: Collapsing, lines: seq<Line>, i: nat): Collapsing
    requires i <= |lines|
    decreases |lines| - i
  {
    if i == |lines| then c
    else if !lines[i].kind.Context? then FileInto(c.(lines := c.lines + [lines[i]]), lines, i + 1)
    else
      var j := RunEnd(lines, i + 1);
      FileInto(RunInto(c, lines[i..j], ChangeIn(lines, 0, i), ChangeIn(lines, j, |lines|)), lines, j)
  }

  /** Where the block of rows of one file that holds row `i` starts and ends. */
  function FileStart(lines: seq<Line>, i: nat): (lo: nat)
    requires i < |lines|
    ensures lo <= i && (lo == 0 || lines[lo - 1].file != lines[lo].file)
    ensures forall k :: lo <= k <= i ==> lines[k].file == lines[i].file
  {
    if 0 < i && lines[i - 1].file == lines[i].file then FileStart(lines, i - 1) else i
  }

  function FileEnd(lines: seq<Line>, i: nat): (hi: nat)
    requires i < |lines|
    ensures i < hi <= |lines| && (hi == |lines| || lines[hi].file != lines[i].file)
    ensures forall k :: i <= k < hi ==> lines[k].file == lines[i].file
    decreases |lines| - i
  {
    if i + 1 < |lines| && lines[i + 1].file == lines[i].file then FileEnd(lines, i + 1) else i + 1
  }

  function DiffInto(c: Collapsing, lines: seq<Line>, i: nat): Collapsing
    requires i <= |lines|
    decreases |lines| - i
  {
    if i == |lines| then c
    else
      var j := FileEnd(lines, i);
      DiffInto(FileInto(c, lines[i..j], 0), lines, j)
  }

  function Collapsed(lines: seq<Line>): seq<Line> {
    DiffInto(Collapsing([], 0), lines, 0).lines
  }

  method PushContextGap(output: seq<Line>, hidden: seq<Line>, position: GapPosition, nextGapId: U64)
    returns (c: Collapsing)
    ensures c == if hidden == [] then Collapsing(output, nextGapId)
                 else Collapsing(output + [GapFor(hidden, position, nextGapId)], (nextGapId + 1) % U64_SIZE)
  {
    if hidden == [] {
      return Collapsing(output, nextGapId);
    }
    var count := if |hidden| <= U32_MAX then |hidden| else U32_MAX;
    var gap := Gap(nextGapId, count, hidden[..count], position);
    c := Collapsing(output + [Line(hidden[0].file, None, None, Folded(gap), "", [])], (nextGapId + 1) % U64_SIZE);
  }

  method CollapseLeadingContext(lines: seq<Line>, output: seq<Line>, nextGapId: U64) returns (c: Collapsing)
    ensures c == RunInto(Collapsing(output, nextGapId), lines, false, true)
  {
    var kept := if COLLAPSED_CONTEXT_LINES <= |lines| then COLLAPSED_CONTEXT_LINES else |lines|;
    var hidden := lines[..|lines| - kept];
    if |hidden| <= COLLAPSED_CONTEXT_THRESHOLD {
      return Collapsing(output + lines, nextGapId);
    }
    c := PushContextGap(output, hidden, Leading, nextGapId);
    c := c.(lines := c.lines + lines[|lines| - kept..]);
    assert output + lines[..0] == output;
    assert lines[0..|lines| - kept] == hidden;
  }

  method CollapseTrailingContext(lines: seq<Line>, output: seq<Line>, nextGapId: U64) returns (c: Collapsing)
    ensures c == RunInto(Collapsing(output, nextGapId), lines, true, false)
  {
    var kept := if COLLAPSED_CONTEXT_LINES <= |lines| then COLLAPSED_CONTEXT_LINES else |lines|;
    var hidden := lines[kept..];
    if |hidden| <= COLLAPSED_CONTEXT_THRESHOLD {
      return Collapsing(output + lines, nextGapId);
    }
    c := PushContextGap(output + lines[..kept], hidden, Trailing, nextGapId);
    assert c.lines + lines[|lines|..] == c.lines;
    assert lines[kept..|lines|] == hidden;
  }

  method CollapseBetweenContext(lines: seq<Line>, output: seq<Line>, nextGapId: U64) returns (c: Collapsing)
    ensures c == RunInto(Collapsing(output, nextGapId), lines, true, true)
  {
    var keptStart := if COLLAPSED_CONTEXT_LINES <= |lines| then COLLAPSED_CONTEXT_LINES else |lines|;
    var left := |lines| - keptStart;
    var keptEnd := if COLLAPSED_CONTEXT_LINES <= left then COLLAPSED_CONTEXT_LINES else left;
    var hidden := lines[keptStart..|lines| - keptEnd];
    if |hidden| <= COLLAPSED_CONTEXT_THRESHOLD {
      return Collapsing(output + lines, nextGapId);
    }
    c := PushContextGap(output + lines[..keptStart], hidden, Between, nextGapId);
    c := c.(lines := c.lines + lines[|lines| - keptEnd..]);
  }

  method CollapseFileContext(lines: seq<Line>, output: seq<Line>, nextGapId: U64) returns (c: Collapsing)
    ensures c == FileInto(Collapsing(output, nextGapId), lines, 0)
  {
    hide RunInto;
    var changeAfter := seq(|lines| + 1, _ => false);
    var n := |lines|;
    while n > 0
      invariant 0 <= n <= |lines| && |changeAfter| == |lines| + 1
      invariant forall k :: n <= k <= |lines| ==> changeAfter[k] == ChangeIn(lines, k, |lines|)
    {
      n := n - 1;
      changeAfter := changeAfter[n := changeAfter[n + 1] || lines[n].IsChange()];
      ChangeFrom(lines, n);
    }

    var sawChange := false;
    var index := 0;
    c := Collapsing(output, nextGapId);
    while index < |lines|
      invariant 0 <= index <= |lines|
      invariant sawChange == ChangeIn(lines, 0, index)
      invariant FileInto(c, lines, index) == FileInto(Collapsing(output, nextGapId), lines, 0)
    {
      ChangeUpTo(lines, index);
      if !lines[index].kind.Context? {
        sawChange := sawChange || lines[index].IsChange();
        c := c.(lines := c.lines + [lines[index]]);
        index := index + 1;
        continue;
      }
      var runStart := index;
      index := index + 1;
      while index < |lines| && lines[index].kind.Context?
        invariant runStart < index <= |lines|
        invariant sawChange == ChangeIn(lines, 0, index) == ChangeIn(lines, 0, runStart)
        invariant RunEnd(lines, index) == RunEnd(lines, runStart + 1)
      {
        ChangeUpTo(lines, index);
        index := index + 1;
      }
      var run := lines[runStart..index];
      var hasLaterChange := changeAfter[index];
      if !sawChange && hasLaterChange {
        c := CollapseLeadingContext(run, c.lines, c.nextGapId);
      } else if sawChange && !hasLaterChange {
        c := CollapseTrailingContext(run, c.lines, c.nextGapId);
      } else if sawChange {
        c := CollapseBetweenContext(run, c.lines, c.nextGapId);
      } else {
        RunWithoutChanges(c, run);
        c := c.(lines := c.lines + run);
      }
    }
  }

  lemma RunWithoutChanges(c: Collapsing, run: seq<Line>)
    ensures RunInto(c, run, false, false) == c.(lines := c.lines + run)
  {}

  lemma ChangeFrom(lines: seq<Line>, n: nat)
    requires n < |lines|
    ensures ChangeIn(lines, n, |lines|) == (ChangeIn(lines, n + 1, |lines|) || lines[n].IsChange())
  {}

  lemma ChangeUpTo(lines: seq<Line>, n: nat)
    requires n < |lines|
    ensures ChangeIn(lines, 0, n + 1) == (ChangeIn(lines, 0, n) || lines[n].IsChange())
  {}

  method CollapseContext(lines: seq<Line>) returns (collapsed: seq<Line>)
    ensures collapsed == Collapsed(lines)
  {
    hide FileInto;
    var c := Collapsing([], 0);
    var fileStart := 0;
    while fileStart < |lines|
      invariant 0 <= fileStart <= |lines|
      invariant DiffInto(c, lines, fileStart) == DiffInto(Collapsing([], 0), lines, 0)
    {
      var file := lines[fileStart].file;
      var fileEnd := fileStart + 1;
      while fileEnd < |lines| && lines[fileEnd].file == file
        invariant fileStart < fileEnd <= |lines| && lines[fileEnd - 1].file == file
        invariant FileEnd(lines, fileEnd - 1) == FileEnd(lines, fileStart)
      {
        fileEnd := fileEnd + 1;
      }
      c := CollapseFileContext(lines[fileStart..fileEnd], c.lines, c.nextGapId);
      fileStart := fileEnd;
    }
    return c.lines;
  }
}
