/** What the lines under a header do to its file, and the gaps between the hunks of a compact patch
    (src/review_diff.rs:405-498). */
module ReviewBlocks {
  import opened Options
  import opened ReviewHunks
  import opened ReviewParse
  import opened ReviewRows

  // ---- The status of a file ----

  /** The status that a line says its file has. */
  function SaidBy(raw: string): Option<FileStatus> {
    if "new file mode " <= raw then Some(Added)
    else if "deleted file mode " <= raw then Some(Deleted)
    else if "Binary files " <= raw || raw == "GIT binary patch" then Some(Binary)
    else None
  }

  /** The last status said, or the one before. */
  function LastSaid(block: seq<Raw>, before: FileStatus): FileStatus
    decreases |block|
  {
    if block == [] then before
    else if block[0].Text? && SaidBy(block[0].raw).Some? then LastSaid(block[1..], SaidBy(block[0].raw).value)
    else LastSaid(block[1..], before)
  }

  lemma CodedMarksNothing(p: Parser, file: nat, raw: string, s: Setup)
    requires raw != ""
    ensures Coded(p, file, raw, s).files == p.files && Coded(p, file, raw, s).currentFile == p.currentFile
  {}

  lemma LineMarksFile(p: Parser, raw: Raw, s: Setup)
    requires p.currentFile.Some? && p.currentFile.value < |p.files| && !raw.FileStarts?
    ensures var f, p' := p.currentFile.value, Fed(p, raw, s);
            && p'.currentFile == p.currentFile
            && p'.files == p.files[f := p.files[f].(status := LastSaid([raw], p.files[f].status))]
  {
    hide Coded;
    assert [raw][1..] == [];
    if raw.Text? && raw.raw != "" {
      CodedMarksNothing(p, p.currentFile.value, raw.raw, s);
    }
  }

  lemma SaidInTurn(block: seq<Raw>, before: FileStatus)
    requires block != []
    ensures LastSaid(block, before) == LastSaid(block[1..], LastSaid([block[0]], before))
  {
    assert [block[0]][1..] == [];
  }

  /** The lines up to the next header give their file the status that the last of them says, if any says
      one, and change no other file. */
  lemma {:induction false} BlockMarksFile(p: Parser, block: seq<Raw>, s: Setup)
    requires p.currentFile.Some? && p.currentFile.value < |p.files|
    requires forall raw <- block :: !raw.FileStarts?
    ensures var f, p' := p.currentFile.value, FedAll(p, block, s);
            && p'.currentFile == p.currentFile
            && p'.files == p.files[f := p.files[f].(status := LastSaid(block, p.files[f].status))]
    decreases |block|
  {
    hide Fed, LastSaid;
    var f := p.currentFile.value;
    if block == [] {
      NothingSaid(p.files[f].status);
      assert p.files[f := p.files[f]] == p.files;
    } else {
      LineMarksFile(p, block[0], s);
      SaidInTurn(block, p.files[f].status);
      BlockMarksFile(Fed(p, block[0], s), block[1..], s);
    }
  }

  lemma NothingSaid(before: FileStatus)
    ensures LastSaid([], before) == before
  {}

  // ---- The gaps of a compact patch ----

  /** The number behind `n` lines from `start` on, the largest at most. */
  function NumberBehind(start: U32, n: nat): U32 {
    if start + n <= U32_MAX then start + n else U32_MAX
  }

  /** How many lines lie between `next`, the first that was not shown, and `start`. */
  function LeftOut(next: U32, start: U32): nat {
    if next < start then start - next else 0
  }

  function Larger(m: nat, n: nat): nat {
    if m < n then n else m
  }

  /** Behind a hunk the parser knows the first line of each side that was not shown. */
  lemma {:induction false} BodyCounts(p: Parser, body: seq<string>, s: Setup)
    requires InHunk(p) && IsHunkBody(body)
    ensures var p' := FedAll(p, AsText(body), s);
            && p'.currentFile == p.currentFile && p'.nextGapId == p.nextGapId
            && p'.oldLine == NumberBehind(p.oldLine, |Side(Kept(body), '-')|)
            && p'.newLine == NumberBehind(p.newLine, |Side(Kept(body), '+')|)
            && (if Kept(body) == [] then
                  p'.previousOldNext == p.previousOldNext && p'.previousNewNext == p.previousNewNext
                else p'.previousOldNext == p'.oldLine && p'.previousNewNext == p'.newLine)
    decreases |body|
  {
    hide Fed, OnSide, IsSkipped, Side, Kept, Later, AsText, TextOf, NumberBehind, IsHunkLine;
    EmptyBody();
    if body == [] {
      NothingBehind(p);
      assert Kept(body) == [] && Side(Kept(body), '-') == [] && Side(Kept(body), '+') == [];
    } else {
      TextOfBody(body);
      NothingBehind(Fed(p, Text(body[0]), s));
      assert IsHunkLine(body[0]) && forall k :: 0 <= k < |body| - 1 ==> body[1..][k] == body[k + 1];
      LineCounts(p, body[0], s);
      KeptSide(body, '-');
      KeptSide(body, '+');
      KeptFirst(body);
      BodyCounts(Fed(p, Text(body[0]), s), body[1..], s);
      OneBehind(p.oldLine, OnSide(body[0], '-') && !IsSkipped(body[0]), |Side(Kept(body[1..]), '-')|);
      OneBehind(p.newLine, OnSide(body[0], '+') && !IsSkipped(body[0]), |Side(Kept(body[1..]), '+')|);
    }
  }

  lemma NothingBehind(p: Parser)
    ensures NumberBehind(p.oldLine, 0) == p.oldLine && NumberBehind(p.newLine, 0) == p.newLine
  {}

  lemma OneBehind(start: U32, on: bool, n: nat)
    ensures NumberBehind(if on then Later(start) else start, n) == NumberBehind(start, (if on then 1 else 0) + n)
  {}

  lemma KeptFirst(body: seq<string>)
    requires body != []
    ensures IsSkipped(body[0]) ==> Kept(body) == Kept(body[1..])
    ensures !IsSkipped(body[0]) ==> Kept(body) != []
  {
    hide IsSkipped;
  }

  lemma LineCounts(p: Parser, raw: string, s: Setup)
    requires InHunk(p) && IsHunkLine(raw)
    ensures var p' := Fed(p, Text(raw), s);
            && InHunk(p') && p'.currentFile == p.currentFile && p'.nextGapId == p.nextGapId
            && p'.oldLine == (if OnSide(raw, '-') && !IsSkipped(raw) then Later(p.oldLine) else p.oldLine)
            && p'.newLine == (if OnSide(raw, '+') && !IsSkipped(raw) then Later(p.newLine) else p.newLine)
            && (if IsSkipped(raw) then
                  p'.previousOldNext == p.previousOldNext && p'.previousNewNext == p.previousNewNext
                else p'.previousOldNext == p'.oldLine && p'.previousNewNext == p'.newLine)
  {
    hide Fed, LooksLikeName, Later;
    HunkLineIsCode(p, raw, s);
  }

  /** Before the first hunk of a file, a compact patch leaves out the lines before its start, on the side
      that has more of them. */
  lemma FirstHunkGap(p: Parser, path: string, header: string, starts: (U32, U32), s: Setup)
    requires !s.completeContext
    ensures var q := Fed(p, FileStarts(path), s);
            var q' := Fed(q, HunkStarts(header, Some(starts)), s);
            var count := Larger(LeftOut(1, starts.0), LeftOut(1, starts.1));
            && q.currentFile.Some?
            && q'.lines == q.lines
                 + (if count == 0 then []
                    else [GapLine(q.currentFile.value, Gap(q.nextGapId, count, [], Leading))])
  {}

  /** What stands between the end of a hunk and the next: a gap for the lines left out, on the side that
      has more of them, and a bare header where none is; where nothing was shown before, as at the start
      of a file. */
  function BetweenHunks(
    file: nat, id: U64, oldNext: U32, newNext: U32, next: string, starts: (U32, U32)): seq<Line>
  {
    var count := Larger(LeftOut(oldNext, starts.0), LeftOut(newNext, starts.1));
    if oldNext == 1 && newNext == 1 then (if count == 0 then [] else [GapLine(file, Gap(id, count, [], Leading))])
    else [if count == 0 then Separator(file, HunkHeader, next) else GapLine(file, Gap(id, count, [], Between))]
  }

  /** Between two hunks a compact patch leaves out the lines between the end of the one and the start of
      the other. */
  lemma NextHunkGap(
    p: Parser, header: string, starts: (U32, U32), body: seq<string>, next: string, starts': (U32, U32), s: Setup)
    requires !s.completeContext && p.currentFile.Some? && IsHunkBody(body) && Kept(body) != []
    ensures var q := FedAll(p, Hunk(header, starts, body), s);
            var q' := Fed(q, HunkStarts(next, Some(starts')), s);
            var oldNext := NumberBehind(starts.0, |Side(Kept(body), '-')|);
            var newNext := NumberBehind(starts.1, |Side(Kept(body), '+')|);
            && q.currentFile == p.currentFile
            && q'.lines
               == q.lines + BetweenHunks(p.currentFile.value, q.nextGapId, oldNext, newNext, next, starts')
  {
    hide FedAll, Fed, Side, Kept, AsText, NumberBehind, BetweenHunks, IsHunkBody;
    HeaderIsPlaced(p, header, starts, s);
    BodyCounts(Fed(p, HunkStarts(header, Some(starts)), s), body, s);
    HunkUnrolled(p, header, starts, body, s);
    NextHeader(FedAll(p, Hunk(header, starts, body), s), next, starts', s);
  }

  lemma HeaderIsPlaced(p: Parser, header: string, starts: (U32, U32), s: Setup)
    requires p.currentFile.Some?
    ensures var p' := Fed(p, HunkStarts(header, Some(starts)), s);
            InHunk(p') && p'.currentFile == p.currentFile && p'.oldLine == starts.0 && p'.newLine == starts.1
  {}

  lemma NextHeader(q: Parser, header: string, starts: (U32, U32), s: Setup)
    requires !s.completeContext && q.currentFile.Some?
    ensures var q' := Fed(q, HunkStarts(header, Some(starts)), s);
            q'.lines == q.lines + BetweenHunks(q.currentFile.value, q.nextGapId, q.previousOldNext, q.previousNewNext,
                                               header, starts)
  {}

  lemma HunkUnrolled(p: Parser, header: string, starts: (U32, U32), body: seq<string>, s: Setup)
    ensures FedAll(p, Hunk(header, starts, body), s)
         == FedAll(Fed(p, HunkStarts(header, Some(starts)), s), AsText(body), s)
  {
    hide Fed, AsText;
    assert Hunk(header, starts, body)[1..] == AsText(body);
  }

  // ---- The order of the rows ----

  /** A row as the patch spells it: its marker and its text. */
  function Spelled(line: Line): seq<string> {
    match line.kind
    case Context => [" " + line.content]
    case Deletion => ["-" + line.content]
    case Addition => ["+" + line.content]
    case Meta => ["\\" + line.content]
    case _ => []
  }

  function AllSpelled(lines: seq<Line>): seq<string> {
    if lines == [] then [] else AllSpelled(lines[..|lines| - 1]) + Spelled(lines[|lines| - 1])
  }

  lemma SpelledAfter(lines: seq<Line>, line: Line)
    ensures AllSpelled(lines + [line]) == AllSpelled(lines) + Spelled(line)
  {
    assert (lines + [line])[..|lines|] == lines;
  }

  lemma LineIsSpelled(p: Parser, raw: string, s: Setup)
    requires p.currentFile.Some? && IsHunkLine(raw)
    ensures var p' := Fed(p, Text(raw), s);
            && p'.currentFile.Some?
            && AllSpelled(p'.lines) == AllSpelled(p.lines) + (if IsSkipped(raw) then [] else [raw])
  {
    hide Fed, LooksLikeName, AllSpelled;
    HunkLineIsCode(p, raw, s);
    var p' := Fed(p, Text(raw), s);
    if !IsSkipped(raw) {
      assert [raw[0]] + raw[1..] == raw;
      SpelledAfter(p.lines, p'.lines[|p.lines|]);
    }
  }

  lemma {:induction false} BodyIsSpelled(p: Parser, body: seq<string>, s: Setup)
    requires p.currentFile.Some? && IsHunkBody(body)
    ensures AllSpelled(FedAll(p, AsText(body), s).lines) == AllSpelled(p.lines) + Kept(body)
    decreases |body|
  {
    hide Fed, AllSpelled, IsSkipped, AsText, IsHunkLine;
    EmptyBody();
    if body != [] {
      TextOfBody(body);
      assert IsHunkLine(body[0]) && forall k :: 0 <= k < |body| - 1 ==> body[1..][k] == body[k + 1];
      LineIsSpelled(p, body[0], s);
      BodyIsSpelled(Fed(p, Text(body[0]), s), body[1..], s);
    }
  }

  /** The rows of a hunk are its kept lines, in order, each with the marker and the text that it had. */
  lemma HunkIsSpelled(p: Parser, header: string, starts: (U32, U32), body: seq<string>, s: Setup)
    requires p.currentFile.Some? && IsHunkBody(body)
    ensures AllSpelled(FedAll(p, Hunk(header, starts, body), s).lines) == AllSpelled(p.lines) + Kept(body)
  {
    hide Fed, FedAll, AllSpelled, AsText, Kept, IsHunkBody;
    HeaderIsUnspelled(p, header, starts, s);
    HunkUnrolled(p, header, starts, body, s);
    BodyIsSpelled(Fed(p, HunkStarts(header, Some(starts)), s), body, s);
  }

  lemma HeaderIsUnspelled(p: Parser, header: string, starts: (U32, U32), s: Setup)
    requires p.currentFile.Some?
    ensures var p' := Fed(p, HunkStarts(header, Some(starts)), s);
            p'.currentFile.Some? && AllSpelled(p'.lines) == AllSpelled(p.lines)
  {
    hide AllSpelled;
    var p' := Fed(p, HunkStarts(header, Some(starts)), s);
    if p'.lines != p.lines {
      SpelledAfter(p.lines, p'.lines[|p.lines|]);
    }
  }

  // ---- Hunks without a place ----

  lemma TextHasNoNumber(p: Parser, text: string, s: Setup)
    requires p.currentFile.Some? && !p.positioned
    ensures var p' := Fed(p, Text(text), s);
            && p'.currentFile == p.currentFile && !p'.positioned && p.lines <= p'.lines
            && forall k :: |p.lines| <= k < |p'.lines| ==> p'.lines[k].oldLine == p'.lines[k].newLine == None
  {
    hide IsMetadata, IsBinaryNote, IsAdded, IsDeleted;
  }

  lemma {:induction false} UnplacedBodyHasNoNumbers(p: Parser, body: seq<string>, s: Setup)
    requires p.currentFile.Some? && !p.positioned
    ensures var p' := FedAll(p, AsText(body), s);
            && p.lines <= p'.lines
            && forall k :: |p.lines| <= k < |p'.lines| ==> p'.lines[k].oldLine == p'.lines[k].newLine == None
    decreases |body|
  {
    hide Fed;
    if body != [] {
      TextOfBody(body);
      TextHasNoNumber(p, body[0], s);
      UnplacedBodyHasNoNumbers(Fed(p, Text(body[0]), s), body[1..], s);
    }
  }

  lemma HeaderWithoutPlace(p: Parser, header: string, s: Setup)
    requires p.currentFile.Some?
    ensures var p' := Fed(p, HunkStarts(header, None), s);
            && p'.currentFile == p.currentFile && !p'.positioned && p.lines <= p'.lines
            && forall k :: |p.lines| <= k < |p'.lines| ==> p'.lines[k].oldLine == p'.lines[k].newLine == None
  {}

  /** A hunk whose header tells no place has no number in its rows. */
  lemma UnplacedHunkHasNoNumbers(p: Parser, header: string, body: seq<string>, s: Setup)
    requires p.currentFile.Some?
    ensures var p' := FedAll(p, [HunkStarts(header, None)] + AsText(body), s);
            && p.lines <= p'.lines
            && forall k :: |p.lines| <= k < |p'.lines| ==> p'.lines[k].oldLine == p'.lines[k].newLine == None
  {
    hide Fed, AsText;
    var p1 := Fed(p, HunkStarts(header, None), s);
    HeaderWithoutPlace(p, header, s);
    UnplacedBodyHasNoNumbers(p1, body, s);
    var hunk := [HunkStarts(header, None)] + AsText(body);
    assert hunk[1..] == AsText(body);
    assert FedAll(p, hunk, s) == FedAll(p1, AsText(body), s);
  }
}
