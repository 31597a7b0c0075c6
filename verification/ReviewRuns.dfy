/** What opening gaps keeps, step by step and over whole runs (src/review_diff.rs:142-273, 568-709). */
module ReviewRuns {
  import opened Options
  import opened ReviewCollapse
  import opened ReviewExpansion
  import opened ReviewParse
  import opened ReviewRows

  // ---- The rows ----

  /** A gap of a snapshot with full context: it counts what it hides, and hides context only. */
  predicate HidesContext(line: Line) {
    line.kind.Folded? ==>
      var gap := line.kind.gap;
      gap.count == |gap.hidden| && 1 <= gap.count && AllContext(gap.hidden)
  }

  predicate AllHideContext(lines: seq<Line>) {
    forall k :: 0 <= k < |lines| ==> HidesContext(lines[k])
  }

  /** How many rows the gaps hide. */
  function HiddenRows(lines: seq<Line>): nat {
    if lines == [] then 0 else HiddenIn(lines[0]) + HiddenRows(lines[1..])
  }

  function HiddenIn(line: Line): nat {
    if line.kind.Folded? then |line.kind.gap.hidden| else 0
  }

  lemma {:induction false} HiddenRowsConcat(a: seq<Line>, b: seq<Line>)
    ensures HiddenRows(a + b) == HiddenRows(a) + HiddenRows(b)
  {
    hide HiddenIn;
    if a == [] {
      assert a + b == b;
    } else {
      assert (a + b)[1..] == a[1..] + b;
      HiddenRowsConcat(a[1..], b);
    }
  }

  lemma {:induction false} NothingHidden(lines: seq<Line>)
    requires AllContext(lines)
    ensures HiddenRows(lines) == 0
  {
    if lines != [] {
      NothingHidden(lines[1..]);
    }
  }

  /** The rows of a gap after `fromStart` rows at its start and `fromEnd` rows at its end came out. */
  function OpenedRows(hidden: seq<Line>, position: GapPosition, fromStart: nat, fromEnd: nat): (rows: seq<Row>)
    ensures |rows| == |hidden|
  {
    seq(|hidden|, k requires 0 <= k < |hidden| => 
      Row(hidden[k], if fromStart <= k < |hidden| - fromEnd then Some(position) else None))
  }

  /** What holds of the lines that replace a separator. */
  lemma ReplacementShows(file: nat, gap: Gap, fromStart: nat, fromEnd: nat)
    requires gap.count == |gap.hidden| && AllContext(gap.hidden) && fromStart + fromEnd <= |gap.hidden|
    ensures var r := Replacement(file, gap, fromStart, fromEnd);
            && Unfolded(r) == OpenedRows(gap.hidden, gap.position, fromStart, fromEnd)
            && HiddenRows(r) == |gap.hidden| - fromStart - fromEnd
            && GapIds(r) == (if fromStart + fromEnd < |gap.hidden| then [gap.id] else [])
            && AllHideContext(r) && forall k :: 0 <= k < |r| ==> !r[k].kind.FileHeader?
  {
    hide Unfolded, HiddenRows, GapIds, RemainingGap;
    var n := |gap.hidden|;
    var before, rest, after := gap.hidden[..fromStart], gap.hidden[fromStart..n - fromEnd], gap.hidden[n - fromEnd..];
    var middle := RemainingGap(file, gap.(hidden := rest));
    RemainingShows(file, gap, rest);
    ShownRows(before);
    ShownRows(after);
    NothingHidden(before);
    NothingHidden(after);
    UnfoldedConcat(before + middle, after);
    UnfoldedConcat(before, middle);
    HiddenRowsConcat(before + middle, after);
    HiddenRowsConcat(before, middle);
    GapIdsConcat(before + middle, after);
    GapIdsConcat(before, middle);
  }

  lemma RemainingShows(file: nat, gap: Gap, rest: seq<Line>)
    requires |rest| <= U32_MAX && AllContext(rest)
    ensures var middle := RemainingGap(file, gap.(hidden := rest));
            && Unfolded(middle) == OpenedRows(rest, gap.position, 0, 0)
            && HiddenRows(middle) == |rest|
            && GapIds(middle) == (if rest == [] then [] else [gap.id])
            && AllHideContext(middle) && forall k :: 0 <= k < |middle| ==> !middle[k].kind.FileHeader?
  {
    var middle := RemainingGap(file, gap.(hidden := rest));
    if rest != [] {
      assert Unfolded(middle) == RowsOf(middle[0]) + Unfolded([]);
      assert HiddenRows(middle) == HiddenIn(middle[0]) + HiddenRows([]);
      assert GapIds(middle) == IdOf(middle[0]) + GapIds([]);
    }
  }

  /** Where the rows of a line begin among all the rows. */
  function RowsBefore(d: Diff, i: nat): nat
    requires i < |d.lines|
  {
    |Unfolded(d.lines[..i])|
  }

  function HiddenAtGap(d: Diff, i: nat): seq<Line>
    requires IsOpenable(d, i)
  {
    d.lines[i].kind.gap.hidden
  }

  function Reveals(d: Diff, i: nat, direction: Direction): nat
    requires IsOpenable(d, i)
  {
    RevealCount(direction, |HiddenAtGap(d, i)|, |d.lines|)
  }

  function RevealsFromStart(d: Diff, i: nat, direction: Direction): (n: nat)
    requires IsOpenable(d, i)
    ensures n <= Reveals(d, i, direction)
  {
    FromStart(direction, d.lines[i].kind.gap.position, Reveals(d, i, direction))
  }

  /** Whether a request to open a gap is met. */
  predicate Opens(d: Diff, i: nat) {
    IsOpenable(d, i) && |d.lines| <= MAX_RENDERED_DIFF_LINES
  }

  /** A request is met exactly when the gap can be opened and the rows are within the cap; it then
      shows at least one row more, and at most one row more than the cap is left. */
  lemma OpensExactly(d: Diff, i: nat, direction: Direction)
    requires |d.lines| <= MAX_RENDERED_DIFF_LINES + 1
    ensures var (d', expansion) := Expanded(d, i, direction);
            && expansion.Some? == Opens(d, i)
            && |d'.lines| <= MAX_RENDERED_DIFF_LINES + 1
            && (if expansion.Some? then 1 <= Reveals(d, i, direction) && |d'.lines| + 1 == |d.lines| + expansion.value
                else d' == d.(truncated := d'.truncated) && (d'.truncated == (d.truncated || IsOpenable(d, i))))
  {}

  /** A met request, as a change of the lines: `r` takes the place of the separator. */
  lemma OpensTo(d: Diff, i: nat, direction: Direction) returns (a: seq<Line>, r: seq<Line>, c: seq<Line>)
    requires Opens(d, i) && AllHideContext(d.lines)
    ensures a == d.lines[..i] && |a| == i && d.lines == a + [d.lines[i]] + c
    ensures var d' := Expanded(d, i, direction).0;
            && d'.lines == a + r + c && r != []
            && d'.files == ShiftedFiles(d.files, i, |r| - 1) && d'.headers == ShiftedPositions(d.headers, i, |r| - 1)
    ensures var hidden, shown := HiddenAtGap(d, i), Reveals(d, i, direction);
            var s := RevealsFromStart(d, i, direction);
            && shown <= |hidden|
            && Unfolded([d.lines[i]]) == OpenedRows(hidden, d.lines[i].kind.gap.position, 0, 0)
            && Unfolded(r) == OpenedRows(hidden, d.lines[i].kind.gap.position, s, shown - s)
            && HiddenRows([d.lines[i]]) == |hidden| && HiddenRows(r) == |hidden| - shown
            && (GapsHideTwo(r) <==> |hidden| - shown != 1)
            && GapIds([d.lines[i]]) == [d.lines[i].kind.gap.id]
            && GapIds(r) == (if shown < |hidden| then [d.lines[i].kind.gap.id] else [])
            && AllHideContext(r) && forall k :: 0 <= k < |r| ==> !r[k].kind.FileHeader?
  {
    hide Unfolded, HiddenRows, GapIds, Replacement, OpenedRows;
    assert HidesContext(d.lines[i]);
    var gap, shown := d.lines[i].kind.gap, Reveals(d, i, direction);
    var s := RevealsFromStart(d, i, direction);
    a, c := d.lines[..i], d.lines[i + 1..];
    r := Replacement(d.lines[i].file, gap, s, shown - s);
    ReplacementShows(d.lines[i].file, gap, s, shown - s);
    GapsInReplacement(d.lines[i].file, gap, s, shown - s);
    SeparatorShows(d.lines[i]);
  }

  /** Rows with some of them brought out. */
  predicate BroughtOut(before: seq<Row>, after: seq<Row>, from: nat, fromStart: nat, fromEnd: nat, hidden: nat) {
    && |after| == |before|
    && forall k :: 0 <= k < |before| ==>
         after[k] == if from <= k < from + fromStart || from + hidden - fromEnd <= k < from + hidden
                     then Row(before[k].line, None) else before[k]
  }

  /** Opening a gap changes no row and moves none: it brings out rows from the two ends of the gap. */
  lemma ExpandBringsOutEnds(d: Diff, i: nat, direction: Direction)
    requires Opens(d, i) && AllHideContext(d.lines)
    ensures var s := RevealsFromStart(d, i, direction);
            BroughtOut(Unfolded(d.lines), Unfolded(Expanded(d, i, direction).0.lines),
                       RowsBefore(d, i), s, Reveals(d, i, direction) - s, |HiddenAtGap(d, i)|)
  {
    hide Unfolded, Expanded, Reveals, RevealsFromStart, OpenedRows, HiddenRows, GapIds, BroughtOut;
    var a, r, c := OpensTo(d, i, direction);
    var s := RevealsFromStart(d, i, direction);
    UnfoldedAround(a, [d.lines[i]], c);
    UnfoldedAround(a, r, c);
    MiddleBroughtOut(Unfolded(a), HiddenAtGap(d, i), d.lines[i].kind.gap.position,
                     s, Reveals(d, i, direction) - s, Unfolded(c));
  }

  /** How many rows a request brings out of the start and of the end of a gap that hides `hidden`, where
      `room` more fit: one hundred of one end, two hundred of both, or all; where not all fit, those next
      to the change that the gap lies beside, or from both ends of one between changes. */
  predicate BringsOut(
    direction: Direction, position: GapPosition, hidden: nat, room: nat, fromStart: nat, fromEnd: nat)
  {
    match direction
    case Start => fromStart == Min(Min(100, hidden), room) && fromEnd == 0
    case End => fromStart == 0 && fromEnd == Min(Min(100, hidden), room)
    case Both =>
      fromStart + fromEnd == Min(Min(200, hidden), room) && (fromStart == fromEnd || fromStart == fromEnd + 1)
    case All =>
      && fromStart + fromEnd == Min(hidden, room)
      && (room < hidden ==>
            match position
            case Leading => fromStart == 0
            case Trailing => fromEnd == 0
            case Between => fromStart == fromEnd || fromStart == fromEnd + 1)
  }

  /** A met request brings out rows of the end it asks for; what is left stays behind one separator with
      the same id and place, and the diff counts as cut where all was asked for and does not fit. */
  lemma OpeningShows(d: Diff, i: nat, direction: Direction) returns (fromStart: nat, fromEnd: nat)
    requires Opens(d, i) && AllHideContext(d.lines)
    ensures var d', gap, room := Expanded(d, i, direction).0, d.lines[i].kind.gap, 50_001 - |d.lines|;
            var n := |gap.hidden|;
            && BringsOut(direction, gap.position, n, room, fromStart, fromEnd) && fromStart + fromEnd <= n
            && BroughtOut(Unfolded(d.lines), Unfolded(d'.lines), RowsBefore(d, i), fromStart, fromEnd, n)
            && d'.lines == d.lines[..i] + (gap.hidden[..fromStart]
                 + (if fromStart + fromEnd == n then []
                    else [Line(d.lines[i].file, None, None,
                               Folded(Gap(gap.id, n - fromStart - fromEnd, gap.hidden[fromStart..n - fromEnd],
                                          gap.position)), "", [])])
                 + gap.hidden[n - fromEnd..]) + d.lines[i + 1..]
            && d'.truncated == (d.truncated || (direction.All? && room < n))
  {
    hide Unfolded, BroughtOut, Expanded, BringsOut, Reveals, RevealsFromStart;
    assert HidesContext(d.lines[i]);
    fromStart := RevealsFromStart(d, i, direction);
    fromEnd := Reveals(d, i, direction) - fromStart;
    ExpandBringsOutEnds(d, i, direction);
    RequestBringsOut(d, i, direction);
    OpenedLines(d, i, direction);
  }

  lemma RequestBringsOut(d: Diff, i: nat, direction: Direction)
    requires Opens(d, i)
    ensures var n, fromStart := |HiddenAtGap(d, i)|, RevealsFromStart(d, i, direction);
            && Reveals(d, i, direction) <= n
            && BringsOut(direction, d.lines[i].kind.gap.position, n, 50_001 - |d.lines|,
                         fromStart, Reveals(d, i, direction) - fromStart)
  {}

  lemma OpenedLines(d: Diff, i: nat, direction: Direction)
    requires Opens(d, i) && |HiddenAtGap(d, i)| <= U32_MAX && Reveals(d, i, direction) <= |HiddenAtGap(d, i)|
    ensures var d', gap, n := Expanded(d, i, direction).0, d.lines[i].kind.gap, |HiddenAtGap(d, i)|;
            var fromStart := RevealsFromStart(d, i, direction);
            var fromEnd := Reveals(d, i, direction) - fromStart;
            && d'.lines == d.lines[..i] + (gap.hidden[..fromStart]
                 + (if fromStart + fromEnd == n then []
                    else [Line(d.lines[i].file, None, None,
                               Folded(Gap(gap.id, n - fromStart - fromEnd, gap.hidden[fromStart..n - fromEnd],
                                          gap.position)), "", [])])
                 + gap.hidden[n - fromEnd..]) + d.lines[i + 1..]
            && d'.truncated == (d.truncated || (direction.All? && 50_001 - |d.lines| < n))
  {
    hide FromStart, ShiftedFiles, ShiftedPositions;
  }

  lemma SeparatorShows(line: Line)
    requires line.kind.Folded? && line.kind.gap.IsExpandable()
    ensures Unfolded([line]) == OpenedRows(line.kind.gap.hidden, line.kind.gap.position, 0, 0)
    ensures HiddenRows([line]) == |line.kind.gap.hidden| && GapIds([line]) == [line.kind.gap.id]
  {
    assert Unfolded([line]) == RowsOf(line) + Unfolded([]);
    assert HiddenRows([line]) == HiddenIn(line) + HiddenRows([]);
    assert GapIds([line]) == IdOf(line) + GapIds([]);
  }

  lemma HiddenRowsAround(a: seq<Line>, b: seq<Line>, c: seq<Line>)
    ensures HiddenRows(a + b + c) == HiddenRows(a) + HiddenRows(b) + HiddenRows(c)
  {
    HiddenRowsConcat(a + b, c);
    HiddenRowsConcat(a, b);
  }

  lemma ContextAround(a: seq<Line>, b: seq<Line>, c: seq<Line>)
    ensures AllHideContext(a + b + c) <==> AllHideContext(a) && AllHideContext(b) && AllHideContext(c)
  {
    hide HidesContext;
    var all := a + b + c;
    assert forall k :: 0 <= k < |a| ==> all[k] == a[k];
    assert forall k :: 0 <= k < |b| ==> all[|a| + k] == b[k];
    assert forall k :: 0 <= k < |c| ==> all[|a| + |b| + k] == c[k];
  }

  lemma UnfoldedAround(a: seq<Line>, b: seq<Line>, c: seq<Line>)
    ensures Unfolded(a + b + c) == Unfolded(a) + Unfolded(b) + Unfolded(c)
  {
    UnfoldedConcat(a + b, c);
    UnfoldedConcat(a, b);
  }

  lemma MiddleBroughtOut(
    before: seq<Row>, hidden: seq<Line>, position: GapPosition, s: nat, e: nat, after: seq<Row>)
    requires s + e <= |hidden|
    ensures BroughtOut(before + OpenedRows(hidden, position, 0, 0) + after,
                       before + OpenedRows(hidden, position, s, e) + after, |before|, s, e, |hidden|)
  {}

  /** Opening a gap keeps the rows. */
  lemma ExpandKeepsRows(d: Diff, i: nat, direction: Direction)
    requires AllHideContext(d.lines) && |d.lines| <= MAX_RENDERED_DIFF_LINES + 1
    ensures Flatten(Expanded(d, i, direction).0.lines) == Flatten(d.lines)
  {
    hide Unfolded, Expanded;
    OpensExactly(d, i, direction);
    if Opens(d, i) {
      ExpandBringsOutEnds(d, i, direction);
    }
  }

  /** Every met request leaves fewer rows hidden, by as many as it shows. */
  lemma ExpandHidesFewer(d: Diff, i: nat, direction: Direction)
    requires Opens(d, i) && AllHideContext(d.lines)
    ensures HiddenRows(Expanded(d, i, direction).0.lines) + Reveals(d, i, direction) == HiddenRows(d.lines)
  {
    hide Unfolded, HiddenRows, Expanded, Reveals, RevealsFromStart, GapIds;
    var a, r, c := OpensTo(d, i, direction);
    HiddenRowsAround(a, [d.lines[i]], c);
    HiddenRowsAround(a, r, c);
  }

  /** The gaps that are left count and hide context only, and no two share an id. */
  lemma ExpandKeepsGaps(d: Diff, i: nat, direction: Direction)
    requires Opens(d, i) && AllHideContext(d.lines) && Distinct(GapIds(d.lines))
    ensures AllHideContext(Expanded(d, i, direction).0.lines) && Distinct(GapIds(Expanded(d, i, direction).0.lines))
  {
    hide Unfolded, HiddenRows, Expanded, Reveals, RevealsFromStart, GapIds, HidesContext;
    var a, r, c := OpensTo(d, i, direction);
    IdsAround(a, [d.lines[i]], c);
    IdsAround(a, r, c);
    DistinctWithout(GapIds(a), d.lines[i].kind.gap.id, GapIds(c));
    ContextAround(a, [d.lines[i]], c);
    ContextAround(a, r, c);
  }

  lemma IdsAround(a: seq<Line>, b: seq<Line>, c: seq<Line>)
    ensures GapIds(a + b + c) == GapIds(a) + GapIds(b) + GapIds(c)
  {
    GapIdsConcat(a + b, c);
    GapIdsConcat(a, b);
  }

  lemma DistinctWithout(a: seq<U64>, id: U64, b: seq<U64>)
    requires Distinct(a + [id] + b)
    ensures Distinct(a + [] + b)
  {
    var ids := a + [id] + b;
    forall j, k | 0 <= j < k < |a + b|
      ensures (a + b)[j] != (a + b)[k]
    {
      var j', k' := if j < |a| then j else j + 1, if k < |a| then k else k + 1;
      assert ids[j'] != ids[k'];
    }
    assert a + [] + b == a + b;
  }

  // ---- Gaps of one row ----

  /** No gap hides a single row, as folding promises. */
  predicate GapsHideTwo(lines: seq<Line>) {
    forall k :: 0 <= k < |lines| && lines[k].kind.Folded? ==> |lines[k].kind.gap.hidden| >= 2
  }

  /** Opening a gap keeps that promise exactly when it does not leave one row behind. */
  lemma ExpandKeepsPairs(d: Diff, i: nat, direction: Direction)
    requires Opens(d, i) && AllHideContext(d.lines) && GapsHideTwo(d.lines)
    ensures GapsHideTwo(Expanded(d, i, direction).0.lines) <==> |HiddenAtGap(d, i)| - Reveals(d, i, direction) != 1
  {
    hide Unfolded, HiddenRows, Expanded, Reveals, RevealsFromStart, GapIds, HidesContext, GapsHideTwo;
    var a, r, c := OpensTo(d, i, direction);
    GapsAround(a, [d.lines[i]], c);
    GapsAround(a, r, c);
  }

  lemma GapsAround(a: seq<Line>, b: seq<Line>, c: seq<Line>)
    ensures GapsHideTwo(a + b + c) <==> GapsHideTwo(a) && GapsHideTwo(b) && GapsHideTwo(c)
  {
    var all := a + b + c;
    assert forall k :: 0 <= k < |a| ==> all[k] == a[k];
    assert forall k :: 0 <= k < |b| ==> all[|a| + k] == b[k];
    assert forall k :: 0 <= k < |c| ==> all[|a| + |b| + k] == c[k];
  }

  lemma GapsInReplacement(file: nat, gap: Gap, fromStart: nat, fromEnd: nat)
    requires AllContext(gap.hidden) && fromStart + fromEnd <= |gap.hidden|
    ensures GapsHideTwo(Replacement(file, gap, fromStart, fromEnd)) <==> |gap.hidden| - fromStart - fromEnd != 1
  {
    var n := |gap.hidden|;
    var middle := RemainingGap(file, gap.(hidden := gap.hidden[fromStart..n - fromEnd]));
    GapsAround(gap.hidden[..fromStart], middle, gap.hidden[n - fromEnd..]);
    if fromStart + fromEnd < n {
      assert middle[0].kind.gap.hidden == gap.hidden[fromStart..n - fromEnd];
    }
  }

  // ---- The indexes ----

  function Offset(h: seq<nat>, n: nat): (r: seq<nat>)
    ensures |r| == |h|
  {
    seq(|h|, k requires 0 <= k < |h| => h[k] + n)
  }

  lemma {:induction false} HeadersConcat(a: seq<Line>, b: seq<Line>, files: nat)
    ensures HeaderPositions(a + b, files) == HeaderPositions(a, files) + Offset(HeaderPositions(b, files), |a|)
  {
    hide IsHeader;
    if b == [] {
      assert a + b == a;
    } else {
      var n := |b| - 1;
      assert (a + b)[..|a| + n] == a + b[..n];
      HeadersConcat(a, b[..n], files);
    }
  }

  function OffsetOption(p: Option<nat>, n: nat): Option<nat> {
    match p
    case None => None
    case Some(at) => Some(at + n)
  }

  lemma {:induction false} FirstHeaderConcat(a: seq<Line>, b: seq<Line>, file: nat)
    ensures FirstHeader(a + b, file)
         == if FirstHeader(a, file).Some? then FirstHeader(a, file) else OffsetOption(FirstHeader(b, file), |a|)
  {
    if b == [] {
      assert a + b == a;
    } else {
      var n := |b| - 1;
      assert (a + b)[..|a| + n] == a + b[..n];
      FirstHeaderConcat(a, b[..n], file);
    }
  }

  lemma {:induction false} NoHeaders(lines: seq<Line>, files: nat, file: nat)
    requires forall k :: 0 <= k < |lines| ==> !lines[k].kind.FileHeader?
    ensures HeaderPositions(lines, files) == [] && FirstHeader(lines, file) == None
  {
    if lines != [] {
      NoHeaders(lines[..|lines| - 1], files, file);
    }
  }

  /** Rows that are not headers in place of one that is not. */
  lemma HeadersAround(a: seq<Line>, b: seq<Line>, c: seq<Line>, files: nat, file: nat)
    requires forall k :: 0 <= k < |b| ==> !b[k].kind.FileHeader?
    ensures HeaderPositions(a + b + c, files)
         == HeaderPositions(a, files) + Offset(HeaderPositions(c, files), |a| + |b|)
    ensures FirstHeader(a + b + c, file)
         == if FirstHeader(a, file).Some? then FirstHeader(a, file) else OffsetOption(FirstHeader(c, file), |a| + |b|)
  {
    hide HeaderPositions, FirstHeader;
    NoHeaders(b, files, file);
    HeadersConcat(a + b, c, files);
    HeadersConcat(a, b, files);
    FirstHeaderConcat(a + b, c, file);
    FirstHeaderConcat(a, b, file);
    assert HeaderPositions(a, files) + [] == HeaderPositions(a, files);
  }

  /** Positions in the old lines, shifted, are positions in the new ones. */
  lemma PositionsShift(before: seq<nat>, after: seq<nat>, i: nat, length: nat)
    requires 1 <= length && forall k :: 0 <= k < |before| ==> before[k] < i
    ensures ShiftedPositions(before + Offset(after, i + 1), i, length - 1) == before + Offset(after, i + length)
  {}

  /** The shifted indexes are the indexes of the new lines. */
  lemma ExpandKeepsIndexes(d: Diff, i: nat, direction: Direction)
    requires Opens(d, i) && Indexed(d) && AllHideContext(d.lines)
    ensures Indexed(Expanded(d, i, direction).0)
  {
    hide Unfolded, HiddenRows, Expanded, Reveals, RevealsFromStart, GapIds, HidesContext;
    hide HeaderPositions, FirstHeader, ShiftedPositions;
    var a, r, c := OpensTo(d, i, direction);
    HeadersShift(a, d.lines[i], r, c, |d.files|);
    forall f | 0 <= f < |d.files|
      ensures ShiftedFile(d.files[f], i, |r| - 1).diffLine == FirstHeader(a + r + c, f)
    {
      FirstHeaderShifts(a, d.lines[i], r, c, d.files[f], f);
    }
  }

  lemma HeadersShift(a: seq<Line>, line: Line, r: seq<Line>, c: seq<Line>, files: nat)
    requires !line.kind.FileHeader? && r != [] && forall k :: 0 <= k < |r| ==> !r[k].kind.FileHeader?
    ensures ShiftedPositions(HeaderPositions(a + [line] + c, files), |a|, |r| - 1) == HeaderPositions(a + r + c, files)
  {
    hide HeaderPositions, FirstHeader, ShiftedPositions;
    HeadersAround(a, [line], c, files, 0);
    HeadersAround(a, r, c, files, 0);
    PositionsBefore(a, files);
    PositionsShift(HeaderPositions(a, files), HeaderPositions(c, files), |a|, |r|);
  }

  lemma FirstHeaderShifts(a: seq<Line>, line: Line, r: seq<Line>, c: seq<Line>, file: File, f: nat)
    requires !line.kind.FileHeader? && r != [] && forall k :: 0 <= k < |r| ==> !r[k].kind.FileHeader?
    requires file.diffLine == FirstHeader(a + [line] + c, f)
    ensures ShiftedFile(file, |a|, |r| - 1).diffLine == FirstHeader(a + r + c, f)
  {
    hide HeaderPositions, FirstHeader;
    HeadersAround(a, [line], c, 0, f);
    HeadersAround(a, r, c, 0, f);
    FirstHeaderIsLeast(a, f);
  }

  lemma PositionsBefore(lines: seq<Line>, files: nat)
    ensures var h := HeaderPositions(lines, files); forall k :: 0 <= k < |h| ==> h[k] < |lines|
  {
    HeaderPositionsAreExact(lines, files);
    var h := HeaderPositions(lines, files);
    assert forall k :: 0 <= k < |h| ==> h[k] in h;
  }

  // ---- Whole runs ----

  /** A snapshot as parsing with full context makes it and opening gaps keeps it. */
  predicate Sound(d: Diff) {
    && Indexed(d) && AllHideContext(d.lines) && Distinct(GapIds(d.lines))
    && |d.lines| <= MAX_RENDERED_DIFF_LINES + 1
  }

  lemma ExpandKeepsSound(d: Diff, i: nat, direction: Direction)
    requires Sound(d)
    ensures Sound(Expanded(d, i, direction).0)
  {
    hide Expanded, GapIds, HidesContext, HeaderPositions, FirstHeader;
    OpensExactly(d, i, direction);
    if Opens(d, i) {
      ExpandKeepsIndexes(d, i, direction);
      ExpandKeepsGaps(d, i, direction);
    }
  }

  /** A request: the row that was clicked and the direction. */
  datatype Request = Request(row: nat, direction: Direction)

  function AfterAll(d: Diff, requests: seq<Request>): Diff
    decreases |requests|
  {
    if requests == [] then d
    else AfterAll(Expanded(d, requests[0].row, requests[0].direction).0, requests[1..])
  }

  /** How many of the requests were met. */
  function Met(d: Diff, requests: seq<Request>): nat
    decreases |requests|
  {
    if requests == [] then 0
    else
      (if Opens(d, requests[0].row) then 1 else 0)
        + Met(Expanded(d, requests[0].row, requests[0].direction).0, requests[1..])
  }

  /** Whatever gaps are opened in whatever direction, the rows stay the rows; every met request
      hides at least one row fewer. */
  lemma {:induction false} AnyRunKeepsRows(d: Diff, requests: seq<Request>)
    requires Sound(d)
    ensures var d' := AfterAll(d, requests);
            && Sound(d') && Flatten(d'.lines) == Flatten(d.lines)
            && HiddenRows(d'.lines) + Met(d, requests) <= HiddenRows(d.lines)
    decreases |requests|
  {
    hide Flatten, Expanded, Sound;
    if requests != [] {
      var i, direction := requests[0].row, requests[0].direction;
      AfterOne(d, i, direction);
      AnyRunKeepsRows(Expanded(d, i, direction).0, requests[1..]);
    }
  }

  lemma AfterOne(d: Diff, i: nat, direction: Direction)
    requires Sound(d)
    ensures var d' := Expanded(d, i, direction).0;
            && Sound(d') && Flatten(d'.lines) == Flatten(d.lines)
            && HiddenRows(d'.lines) + (if Opens(d, i) then 1 else 0) <= HiddenRows(d.lines)
  {
    hide Flatten, Expanded, HiddenRows, HidesContext, GapIds, HeaderPositions, FirstHeader;
    ExpandKeepsSound(d, i, direction);
    ExpandKeepsRows(d, i, direction);
    OpensExactly(d, i, direction);
    if Opens(d, i) {
      ExpandHidesFewer(d, i, direction);
    }
  }

  /** A snapshot as the end of parsing makes it: folded, capped and indexed. */
  ghost predicate Opened(d: Diff, rows: seq<Line>) {
    d.lines == Capped(Collapsed(rows)) && Indexed(d)
  }

  /** From parsing on, the flattened lines are the parsed rows, or a start of them when the cap cut
      them off. */
  lemma ParsedRowsSurvive(d: Diff, rows: seq<Line>, requests: seq<Request>)
    requires NoGaps(rows) && GapsFit(rows, 0) && Opened(d, rows)
    ensures var d' := AfterAll(d, requests);
            && Sound(d') && Flatten(d'.lines) <= rows
            && (|Collapsed(rows)| <= MAX_RENDERED_DIFF_LINES ==> Flatten(d'.lines) == rows)
  {
    hide Flatten, Collapsed, AfterAll, NoGaps, GapsFit;
    CollapsedShowsEveryRow(rows);
    OpenedIsSound(d, rows);
    AnyRunKeepsRows(d, requests);
    var all := Collapsed(rows);
    var n := |Capped(all)|;
    assert all == all[..n] + all[n..];
    FlattenConcat(all[..n], all[n..]);
  }

  /** The same for a patch with full context: its rows are those the parser made. */
  lemma ParsedPatchSurvives(d: Diff, numstat: seq<File>, patch: seq<Raw>, s: Setup, requests: seq<Request>)
    requires s.completeContext
    requires var rows := FedAll(AtStart(numstat), patch, s).lines; GapsFit(rows, 0) && Opened(d, rows)
    ensures var d' := AfterAll(d, requests);
            var rows := FedAll(AtStart(numstat), patch, s).lines;
            && Sound(d') && Flatten(d'.lines) <= rows
            && (|Collapsed(rows)| <= MAX_RENDERED_DIFF_LINES ==> Flatten(d'.lines) == rows)
  {
    hide Flatten, Collapsed, AfterAll, GapsFit, Sound, FedAll, Opened;
    PatchHasNoGaps(numstat, patch, s);
    ParsedRowsSurvive(d, FedAll(AtStart(numstat), patch, s).lines, requests);
  }

  lemma OpenedIsSound(d: Diff, rows: seq<Line>)
    requires NoGaps(rows) && Opened(d, rows)
    ensures Sound(d)
  {
    hide Collapsed, NoGaps, Indexed, GapIds;
    CollapsedGapsAreSound(rows);
    var all := Collapsed(rows);
    var n := |Capped(all)|;
    assert all == all[..n] + all[n..];
    GapIdsConcat(all[..n], all[n..]);
    assert forall k :: 0 <= k < |GapIds(all[..n])| ==> GapIds(all[..n])[k] == GapIds(all)[k];
    forall k | 0 <= k < |d.lines|
      ensures HidesContext(d.lines[k])
    {
      assert d.lines[k] in all;
    }
  }
}
