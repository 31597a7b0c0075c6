/** Opening gaps again, and the two indexes that must follow the rows
    (src/review_diff.rs:118-273, 671-718). */
module ReviewExpansion {
  import opened Options
  import opened ReviewFiles
  import opened ReviewParse
  import opened ReviewRows

  const DEFAULT_EXPANSION_LINE_COUNT: nat := 100

  datatype Direction = Start | End | Both | All

  datatype Diff = Diff(files: seq<File>, lines: seq<Line>, truncated: bool, headers: seq<nat>)

  // ---- The indexes ----

  predicate IsHeader(line: Line, files: nat) {
    line.kind.FileHeader? && line.file < files
  }

  /** Where the headers of the known files are. */
  function HeaderPositions(lines: seq<Line>, files: nat): seq<nat> {
    if lines == [] then [] else
      var n := |lines| - 1;
      HeaderPositions(lines[..n], files) + (if IsHeader(lines[n], files) then [n] else [])
  }

  /** Where the first header of a file is. */
  function FirstHeader(lines: seq<Line>, file: nat): Option<nat> {
    if lines == [] then None else
      var n := |lines| - 1;
      var before := FirstHeader(lines[..n], file);
      if before.None? && lines[n].kind.FileHeader? && lines[n].file == file then Some(n) else before
  }

  predicate Indexed(d: Diff) {
    && d.headers == HeaderPositions(d.lines, |d.files|)
    && forall f :: 0 <= f < |d.files| ==> d.files[f].diffLine == FirstHeader(d.lines, f)
  }

  /** The list of headers holds exactly the positions of headers, in order. */
  lemma {:induction false} HeaderPositionsAreExact(lines: seq<Line>, files: nat)
    ensures var h := HeaderPositions(lines, files);
            && (forall p :: p in h <==> 0 <= p < |lines| && IsHeader(lines[p], files))
            && (forall i, j :: 0 <= i < j < |h| ==> h[i] < h[j])
  {
    if lines != [] {
      var n := |lines| - 1;
      HeaderPositionsAreExact(lines[..n], files);
      var before := HeaderPositions(lines[..n], files);
      forall p: int
        ensures p in HeaderPositions(lines, files) <==> 0 <= p < |lines| && IsHeader(lines[p], files)
      {
        assert p < n ==> (p in before <==> 0 <= p && IsHeader(lines[..n][p], files));
      }
      assert forall i :: 0 <= i < |before| ==> before[i] in before;
    }
  }

  lemma {:induction false} FirstHeaderIsLeast(lines: seq<Line>, file: nat)
    ensures match FirstHeader(lines, file)
            case None => forall p :: 0 <= p < |lines| && lines[p].kind.FileHeader? ==> lines[p].file != file
            case Some(at) =>
              && at < |lines| && lines[at].kind.FileHeader? && lines[at].file == file
              && forall p :: 0 <= p < at && lines[p].kind.FileHeader? ==> lines[p].file != file
  {
    if lines != [] {
      FirstHeaderIsLeast(lines[..|lines| - 1], file);
    }
  }

  method RecomputeDiffLines(files: seq<File>, lines: seq<Line>) returns (files': seq<File>, headers: seq<nat>)
    ensures |files'| == |files|
    ensures forall f :: 0 <= f < |files| ==> files'[f] == files[f].(diffLine := FirstHeader(lines, f))
    ensures headers == HeaderPositions(lines, |files|)
  {
    files' := seq(|files|, f requires 0 <= f < |files| => files[f].(diffLine := None));
    headers := [];
    var lineIndex := 0;
    while lineIndex < |lines|
      invariant 0 <= lineIndex <= |lines| && |files'| == |files|
      invariant headers == HeaderPositions(lines[..lineIndex], |files|)
      invariant forall f :: 0 <= f < |files| ==>
        files'[f] == files[f].(diffLine := FirstHeader(lines[..lineIndex], f))
    {
      var line := lines[lineIndex];
      assert lines[..lineIndex + 1][..lineIndex] == lines[..lineIndex];
      if line.kind.FileHeader? && line.file < |files'| {
        if files'[line.file].diffLine.None? {
          files' := files'[line.file := files'[line.file].(diffLine := Some(lineIndex))];
        }
        headers := headers + [lineIndex];
      }
      lineIndex := lineIndex + 1;
    }
    assert lines[..lineIndex] == lines;
  }

  /** A position after `inserted` rows came in behind row `i`. */
  function ShiftedPosition(p: nat, i: nat, inserted: nat): nat {
    if p > i then p + inserted else p
  }

  function ShiftedPositions(h: seq<nat>, i: nat, inserted: nat): (r: seq<nat>)
    ensures |r| == |h|
  {
    seq(|h|, k requires 0 <= k < |h| => ShiftedPosition(h[k], i, inserted))
  }

  function ShiftedFiles(files: seq<File>, i: nat, inserted: nat): (r: seq<File>)
    ensures |r| == |files|
  {
    seq(|files|, f requires 0 <= f < |files| => ShiftedFile(files[f], i, inserted))
  }

  function ShiftedFile(file: File, i: nat, inserted: nat): File {
    match file.diffLine
    case None => file
    case Some(p) => file.(diffLine := Some(ShiftedPosition(p, i, inserted)))
  }

  /** What the header at or before row `i` and the header after it are. */
  predicate AroundRow(lines: seq<Line>, files: nat, i: nat, around: Option<(nat, Option<nat>)>) {
    match around
    case None => forall p :: 0 <= p <= i && p < |lines| ==> !IsHeader(lines[p], files)
    case Some(pair) =>
      && pair.0 <= i && pair.0 < |lines| && IsHeader(lines[pair.0], files)
      && (forall p :: pair.0 < p <= i && p < |lines| ==> !IsHeader(lines[p], files))
      && match pair.1
         case None => forall p :: i < p < |lines| ==> !IsHeader(lines[p], files)
         case Some(next) =>
           && i < next < |lines| && IsHeader(lines[next], files)
           && forall p :: i < p < next ==> !IsHeader(lines[p], files)
  }

  // ---- Opening a gap ----

  /** How many rows may still come in. */
  function Available(lines: nat): nat {
    var visible := if lines == 0 then 0 else lines - 1;
    if visible <= MAX_RENDERED_DIFF_LINES then MAX_RENDERED_DIFF_LINES - visible else 0
  }

  function Requested(direction: Direction, hidden: nat): (n: nat)
    ensures hidden > 0 ==> n > 0
  {
    match direction
    case Start | End => DEFAULT_EXPANSION_LINE_COUNT
    case Both => DEFAULT_EXPANSION_LINE_COUNT * 2
    case All => hidden
  }

  function Min(a: nat, b: nat): nat {
    if a <= b then a else b
  }

  /** How many rows come in. */
  function RevealCount(direction: Direction, hidden: nat, lines: nat): nat {
    Min(Min(Requested(direction, hidden), hidden), Available(lines))
  }

  /** How many of them come from the start of the gap; the others come from its end. */
  function FromStart(direction: Direction, position: GapPosition, revealed: nat): (n: nat)
    ensures n <= revealed
  {
    match direction
    case Start => revealed
    case End => 0
    case Both => (revealed + 1) / 2
    case All => if position.Leading? then 0 else if position.Trailing? then revealed else (revealed + 1) / 2
  }

  /** The separator that is left, if the gap still hides rows. */
  function RemainingGap(file: nat, gap: Gap): seq<Line> {
    if gap.hidden == [] then [] else [GapLine(file, gap.(count := |gap.hidden| % (U32_MAX + 1)))]
  }

  /** What takes the place of the separator. */
  function Replacement(file: nat, gap: Gap, fromStart: nat, fromEnd: nat): (r: seq<Line>)
    requires fromStart + fromEnd <= |gap.hidden|
    ensures |r| == fromStart + fromEnd + (if fromStart + fromEnd < |gap.hidden| then 1 else 0)
  {
    var n := |gap.hidden|;
    gap.hidden[..fromStart]
      + RemainingGap(file, gap.(hidden := gap.hidden[fromStart..n - fromEnd]))
      + gap.hidden[n - fromEnd..]
  }

  function Replaced(d: Diff, i: nat, replacement: seq<Line>): Diff
    requires i < |d.lines| && replacement != []
  {
    var inserted := |replacement| - 1;
    Diff(ShiftedFiles(d.files, i, inserted), d.lines[..i] + replacement + d.lines[i + 1..], d.truncated,
         ShiftedPositions(d.headers, i, inserted))
  }

  /** Whether the row is a separator that can be opened. */
  predicate IsOpenable(d: Diff, i: nat) {
    i < |d.lines| && d.lines[i].kind.Folded? && d.lines[i].kind.gap.IsExpandable()
  }

  /** The diff after a request to open a gap, and the number of rows that took its place. */
  function Expanded(d: Diff, i: nat, direction: Direction): (Diff, Option<nat>) {
    if !IsOpenable(d, i) then (d, None)
    else if Available(|d.lines|) == 0 then (d.(truncated := true), None)
    else
      var gap := d.lines[i].kind.gap;
      var n := |gap.hidden|;
      var revealed := RevealCount(direction, n, |d.lines|);
      var fromStart := FromStart(direction, gap.position, revealed);
      var replacement := Replacement(d.lines[i].file, gap, fromStart, revealed - fromStart);
      var cut := direction.All? && revealed < n;
      (Replaced(d, i, replacement).(truncated := d.truncated || cut), Some(|replacement|))
  }

  // ---- The snapshot ----

  class Snapshot {
    var files: seq<File>
    var lines: seq<Line>
    var additions: nat
    var deletions: nat
    var truncated: bool
    var fileHeaderLines: seq<nat>

    function View(): Diff
      reads this
    {
      Diff(files, lines, truncated, fileHeaderLines)
    }

    /** Parses a patch: its rows are folded if their context is complete, then capped and indexed. */
    constructor (numstat: seq<File>, patch: seq<Raw>, s: Setup)
      ensures var p := FedAll(AtStart(numstat), patch, s);
              var rows := if s.completeContext then Collapsed(p.lines) else p.lines;
              && View().lines == Capped(rows) && Indexed(View())
              && truncated == (|rows| > MAX_RENDERED_DIFF_LINES)
              && |files| == |p.files|
              && (forall f :: 0 <= f < |files| ==> files[f] == p.files[f].(diffLine := files[f].diffLine))
              && additions == Additions(numstat) && deletions == Deletions(numstat)
    {
      hide FedAll, Collapsed, Additions, Deletions, HeaderPositions, FirstHeader;
      var parsed, rows := ParseLines(numstat, patch, s);
      ParsedFilesAreExact(numstat, patch, s);
      if s.completeContext {
        rows := CollapseContext(rows);
      }
      var visible, cut := CapVisibleLines(rows);
      var files', headers := RecomputeDiffLines(parsed, visible);
      SameCounts(parsed, files');
      files := files';
      lines := visible;
      additions := Additions(files');
      deletions := Deletions(files');
      truncated := cut;
      fileHeaderLines := headers;
    }

    method ExpandGap(lineIndex: nat, direction: Direction) returns (expansion: Option<nat>)
      modifies this
      ensures (View(), expansion) == Expanded(old(View()), lineIndex, direction)
      ensures additions == old(additions) && deletions == old(deletions)
    {
      hide Replacement, ShiftedFiles, ShiftedPositions, FromStart, Requested;
      if lineIndex >= |lines| {
        return None;
      }
      var line := lines[lineIndex];
      if !line.kind.Folded? {
        return None;
      }
      var gap := line.kind.gap;
      if !gap.IsExpandable() {
        return None;
      }
      var visibleWithoutGap := |lines| - 1;
      var available := if visibleWithoutGap <= MAX_RENDERED_DIFF_LINES
                       then MAX_RENDERED_DIFF_LINES - visibleWithoutGap else 0;
      if available == 0 {
        truncated := true;
        return None;
      }
      var requested := Requested(direction, |gap.hidden|);
      var revealCount := Min(Min(requested, |gap.hidden|), available);
      // The gap hides a row and one row may come in, so the early exit for a count of zero is never taken.
      assert revealCount > 0;
      if direction.All? && revealCount < |gap.hidden| {
        truncated := true;
      }
      var replacement := OpenGap(line.file, gap, direction, revealCount);
      lines := lines[..lineIndex] + replacement + lines[lineIndex + 1..];
      var inserted := |replacement| - 1;
      if inserted > 0 {
        ShiftIndexes(lineIndex, inserted);
      } else {
        NothingShifts(files, fileHeaderLines, lineIndex);
      }
      expansion := Some(|replacement|);
    }

    method ShiftIndexes(lineIndex: nat, inserted: nat)
      modifies `files, `fileHeaderLines
      ensures files == ShiftedFiles(old(files), lineIndex, inserted)
      ensures fileHeaderLines == ShiftedPositions(old(fileHeaderLines), lineIndex, inserted)
    {
      var f := 0;
      while f < |files|
        invariant 0 <= f <= |files| == |old(files)| && fileHeaderLines == old(fileHeaderLines)
        invariant forall k :: 0 <= k < |files| ==>
          files[k] == if k < f then ShiftedFile(old(files[k]), lineIndex, inserted) else old(files[k])
      {
        var diffLine := files[f].diffLine;
        if diffLine.Some? && diffLine.value > lineIndex {
          files := files[f := files[f].(diffLine := Some(diffLine.value + inserted))];
        }
        f := f + 1;
      }
      var h := 0;
      while h < |fileHeaderLines|
        invariant 0 <= h <= |fileHeaderLines| == |old(fileHeaderLines)|
        invariant files == ShiftedFiles(old(files), lineIndex, inserted)
        invariant forall k :: 0 <= k < |fileHeaderLines| ==>
          fileHeaderLines[k] == if k < h then ShiftedPosition(old(fileHeaderLines[k]), lineIndex, inserted)
                                else old(fileHeaderLines[k])
      {
        if fileHeaderLines[h] > lineIndex {
          fileHeaderLines := fileHeaderLines[h := fileHeaderLines[h] + inserted];
        }
        h := h + 1;
      }
    }

    /** The header at or before a row and the header after it. */
    method FileHeadersAround(lineIndex: nat) returns (r: Option<(nat, Option<nat>)>)
      requires Indexed(View())
      ensures AroundRow(lines, |files|, lineIndex, r)
    {
      hide HeaderPositions, AroundRow;
      HeaderPositionsAreExact(lines, |files|);
      var lo, hi := 0, |fileHeaderLines|;
      while lo < hi
        invariant 0 <= lo <= hi <= |fileHeaderLines|
        invariant forall k :: 0 <= k < lo ==> fileHeaderLines[k] <= lineIndex
        invariant forall k :: hi <= k < |fileHeaderLines| ==> fileHeaderLines[k] > lineIndex
      {
        var mid := (lo + hi) / 2;
        assert forall k :: 0 <= k < mid ==> fileHeaderLines[k] < fileHeaderLines[mid];
        assert forall k :: mid < k < |fileHeaderLines| ==> fileHeaderLines[mid] < fileHeaderLines[k];
        if fileHeaderLines[mid] <= lineIndex {
          lo := mid + 1;
        } else {
          hi := mid;
        }
      }
      AroundPlace(lines, |files|, lineIndex, lo);
      if lo == 0 {
        return None;
      }
      return Some((fileHeaderLines[lo - 1], if lo < |fileHeaderLines| then Some(fileHeaderLines[lo]) else None));
    }
  }

  /** The lines that take the separator's place. */
  method OpenGap(file: nat, gap: Gap, direction: Direction, revealCount: nat) returns (replacement: seq<Line>)
    requires 0 < revealCount <= |gap.hidden|
    ensures var fromStart := FromStart(direction, gap.position, revealCount);
            replacement == Replacement(file, gap, fromStart, revealCount - fromStart)
  {
    hide Replacement;
    match direction
    case Start => replacement := OpenStart(file, gap, revealCount);
    case End => replacement := OpenEnd(file, gap, revealCount);
    case Both =>
      if revealCount == |gap.hidden| {
        WholeGap(file, gap, (revealCount + 1) / 2);
        replacement := gap.hidden;
      } else {
        replacement := OpenBothEnds(file, gap, revealCount);
      }
    case All =>
      if revealCount == |gap.hidden| {
        WholeGap(file, gap, FromStart(direction, gap.position, revealCount));
        replacement := gap.hidden;
      } else {
        match gap.position
        case Leading => replacement := OpenEnd(file, gap, revealCount);
        case Trailing => replacement := OpenStart(file, gap, revealCount);
        case Between => replacement := OpenBothEnds(file, gap, revealCount);
      }
  }

  lemma WholeGap(file: nat, gap: Gap, fromStart: nat)
    requires fromStart <= |gap.hidden|
    ensures Replacement(file, gap, fromStart, |gap.hidden| - fromStart) == gap.hidden
  {
    assert gap.hidden[..fromStart] + [] + gap.hidden[fromStart..] == gap.hidden;
  }

  method OpenStart(file: nat, gap: Gap, revealCount: nat) returns (replacement: seq<Line>)
    requires revealCount <= |gap.hidden|
    ensures replacement == Replacement(file, gap, revealCount, 0)
  {
    hide RemainingGap;
    var n := |gap.hidden|;
    replacement := PushRemainingGap(gap.hidden[..revealCount], file, gap.(hidden := gap.hidden[revealCount..]));
    assert gap.hidden[revealCount..n] == gap.hidden[revealCount..];
    assert replacement + gap.hidden[n..] == replacement;
  }

  method OpenEnd(file: nat, gap: Gap, revealCount: nat) returns (replacement: seq<Line>)
    requires revealCount <= |gap.hidden|
    ensures replacement == Replacement(file, gap, 0, revealCount)
  {
    hide RemainingGap;
    var n := |gap.hidden|;
    replacement := PushRemainingGap([], file, gap.(hidden := gap.hidden[..n - revealCount]));
    replacement := replacement + gap.hidden[n - revealCount..];
    assert gap.hidden[..n - revealCount] == gap.hidden[0..n - revealCount];
  }

  method OpenBothEnds(file: nat, gap: Gap, revealCount: nat) returns (replacement: seq<Line>)
    requires revealCount < |gap.hidden|
    ensures replacement == Replacement(file, gap, (revealCount + 1) / 2, revealCount / 2)
  {
    hide RemainingGap;
    var fromStart := (revealCount + 1) / 2;
    var fromEnd := revealCount - fromStart;
    var left := gap.hidden[fromStart..];
    var revealedEnd := left[|left| - fromEnd..];
    replacement := PushRemainingGap(gap.hidden[..fromStart], file, gap.(hidden := left[..|left| - fromEnd]));
    replacement := replacement + revealedEnd;
    assert left[..|left| - fromEnd] == gap.hidden[fromStart..|gap.hidden| - fromEnd];
  }

  lemma NothingShifts(files: seq<File>, headers: seq<nat>, i: nat)
    ensures ShiftedFiles(files, i, 0) == files && ShiftedPositions(headers, i, 0) == headers
  {}

  /** A place in the list of headers, as places in the rows. */
  lemma AroundPlace(lines: seq<Line>, files: nat, i: nat, place: nat)
    requires var h := HeaderPositions(lines, files);
             && place <= |h|
             && (forall k :: 0 <= k < place ==> h[k] <= i)
             && (forall k :: place <= k < |h| ==> h[k] > i)
    ensures var h := HeaderPositions(lines, files);
            var next := if place < |h| then Some(h[place]) else None;
            AroundRow(lines, files, i, if place == 0 then None else Some((h[place - 1], next)))
  {
    hide HeaderPositions, IsHeader;
    HeaderPositionsAreExact(lines, files);
    var h := HeaderPositions(lines, files);
    if place > 0 {
      assert h[place - 1] in h;
    }
    if place < |h| {
      assert h[place] in h;
    }
  }

  method PushRemainingGap(replacement: seq<Line>, file: nat, gap: Gap) returns (r: seq<Line>)
    ensures r == replacement + RemainingGap(file, gap)
  {
    if gap.hidden == [] {
      return replacement;
    }
    var left := gap.(count := |gap.hidden| % (U32_MAX + 1));
    return replacement + [Line(file, None, None, Folded(left), "", [])];
  }

  function Capped(lines: seq<Line>): seq<Line> {
    lines[..Min(|lines|, MAX_RENDERED_DIFF_LINES)]
  }

  method CapVisibleLines(lines: seq<Line>) returns (visible: seq<Line>, truncated: bool)
    ensures visible == Capped(lines) && truncated == (|lines| > MAX_RENDERED_DIFF_LINES)
  {
    truncated := |lines| > MAX_RENDERED_DIFF_LINES;
    visible := [];
    var i := 0;
    while i < |lines|
      invariant 0 <= i <= |lines| && visible == lines[..i] && i <= MAX_RENDERED_DIFF_LINES
    {
      if |visible| >= MAX_RENDERED_DIFF_LINES {
        break;
      }
      visible := visible + [lines[i]];
      i := i + 1;
    }
  }
}
