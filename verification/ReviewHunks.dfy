/** What the rows of a hunk show of the text before and after its change
    (src/review_diff.rs:425-546). */
module ReviewHunks {
  import opened Options
  import opened ReviewParse
  import opened ReviewRows

  // ---- Inside one hunk ----

  /** A line of a hunk: it has a marker, or is empty, as Git writes an empty line that stays where
      `diff.suppressBlankEmpty` is set. */
  predicate IsHunkLine(raw: string) {
    raw == "" || raw[0] in " -+\\"
  }

  predicate IsHunkBody(body: seq<string>) {
    forall k :: 0 <= k < |body| ==> IsHunkLine(body[k])
  }

  function AsText(body: seq<string>): (patch: seq<Raw>)
    ensures |patch| == |body|
  {
    seq(|body|, k requires 0 <= k < |body| => Text(body[k]))
  }

  /** A header and the lines behind it. */
  function Hunk(header: string, starts: (U32, U32), body: seq<string>): seq<Raw> {
    [HunkStarts(header, Some(starts))] + AsText(body)
  }

  /** Whether a line of a hunk is on a side, and its text there. */
  predicate OnSide(raw: string, marker: char) {
    raw == "" || raw[0] == ' ' || raw[0] == marker
  }

  function TextOf(raw: string): string {
    if raw == "" then "" else raw[1..]
  }

  /** The text before and after the change that a hunk tells. */
  function Side(body: seq<string>, marker: char): seq<string> {
    if body == [] then [] else
      (if OnSide(body[0], marker) then [TextOf(body[0])] else []) + Side(body[1..], marker)
  }

  /** A row of one side: its number and its text. */
  datatype Numbering = Numbering(number: Option<nat>, text: string)

  function OldRow(line: Line): seq<Numbering> {
    if line.kind.Context? || line.kind.Deletion? then [Numbering(line.oldLine, line.content)] else []
  }

  function NewRow(line: Line): seq<Numbering> {
    if line.kind.Context? || line.kind.Addition? then [Numbering(line.newLine, line.content)] else []
  }

  function OldRows(lines: seq<Line>): seq<Numbering> {
    if lines == [] then [] else OldRows(lines[..|lines| - 1]) + OldRow(lines[|lines| - 1])
  }

  function NewRows(lines: seq<Line>): seq<Numbering> {
    if lines == [] then [] else NewRows(lines[..|lines| - 1]) + NewRow(lines[|lines| - 1])
  }

  /** Texts numbered in order from a start. */
  function NumberedFrom(texts: seq<string>, start: nat): (rows: seq<Numbering>)
    ensures |rows| == |texts|
  {
    seq(|texts|, k requires 0 <= k < |texts| => Numbering(Some(start + k), texts[k]))
  }

  /** The same, where numbers stop at the largest. */
  function CountedFrom(texts: seq<string>, start: U32): (rows: seq<Numbering>)
    ensures |rows| == |texts|
  {
    seq(|texts|, k requires 0 <= k < |texts| =>
      Numbering(Some(if start + k <= U32_MAX then start + k else U32_MAX), texts[k]))
  }

  /** A line of a hunk that reads like the name line of a file. */
  predicate LooksLikeName(raw: string) {
    StartsWith(raw, "--- ") || StartsWith(raw, "+++ ")
  }

  /** The lines of a hunk that make no row. */
  predicate IsSkipped(raw: string) {
    raw == "" || LooksLikeName(raw)
  }

  function Kept(body: seq<string>): seq<string> {
    if body == [] then [] else (if IsSkipped(body[0]) then [] else [body[0]]) + Kept(body[1..])
  }

  predicate InHunk(p: Parser) {
    p.currentFile.Some? && p.positioned
  }

  /** No line of a hunk is taken for metadata but those that look like a file name. */
  lemma MarkedMetadata(raw: string)
    requires IsHunkLine(raw)
    ensures !IsBinaryNote(raw) && !IsAdded(raw) && !IsDeleted(raw) && (IsMetadata(raw) <==> LooksLikeName(raw))
  {}

  lemma HunkLineIsCode(p: Parser, raw: string, s: Setup)
    requires p.currentFile.Some? && IsHunkLine(raw)
    ensures Fed(p, Text(raw), s) == if IsSkipped(raw) then p else Coded(p, p.currentFile.value, raw, s)
  {
    hide IsMetadata, IsBinaryNote, IsAdded, IsDeleted, LooksLikeName, Coded;
    MarkedMetadata(raw);
  }

  lemma RowsAfter(lines: seq<Line>, line: Line)
    ensures OldRows(lines + [line]) == OldRows(lines) + OldRow(line)
    ensures NewRows(lines + [line]) == NewRows(lines) + NewRow(line)
  {
    assert (lines + [line])[..|lines|] == lines;
  }

  /** A header starts the numbers and adds no row to a side. */
  lemma HeaderStartsNumbers(p: Parser, header: string, starts: (U32, U32), s: Setup)
    requires p.currentFile.Some?
    ensures var p' := Fed(p, HunkStarts(header, Some(starts)), s);
            && InHunk(p') && p'.oldLine == starts.0 && p'.newLine == starts.1
            && OldRows(p'.lines) == OldRows(p.lines) && NewRows(p'.lines) == NewRows(p.lines)
  {
    hide OldRows, NewRows;
    var p' := Fed(p, HunkStarts(header, Some(starts)), s);
    if p'.lines != p.lines {
      RowsAfter(p.lines, p'.lines[|p.lines|]);
    }
  }

  function IfOn(on: bool, number: U32, text: string): seq<Numbering> {
    if on then [Numbering(Some(number), text)] else []
  }

  /** What one hunk line does to the two sides. */
  lemma HunkLine(p: Parser, raw: string, s: Setup)
    requires InHunk(p) && IsHunkLine(raw)
    ensures var p' := Fed(p, Text(raw), s);
            var old', new' := OnSide(raw, '-') && !IsSkipped(raw), OnSide(raw, '+') && !IsSkipped(raw);
            && InHunk(p')
            && OldRows(p'.lines) == OldRows(p.lines) + IfOn(old', p.oldLine, TextOf(raw))
            && NewRows(p'.lines) == NewRows(p.lines) + IfOn(new', p.newLine, TextOf(raw))
            && p'.oldLine == (if old' then Later(p.oldLine) else p.oldLine)
            && p'.newLine == (if new' then Later(p.newLine) else p.newLine)
  {
    hide Fed, LooksLikeName, OldRows, NewRows;
    HunkLineIsCode(p, raw, s);
    var p' := Fed(p, Text(raw), s);
    if p'.lines != p.lines {
      RowsAfter(p.lines, p'.lines[|p.lines|]);
    }
  }

  /** Behind its header, a hunk adds to each side its kept lines, numbered in order and no further
      than the largest number. */
  lemma {:induction false} BodyAdds(p: Parser, body: seq<string>, s: Setup)
    requires InHunk(p) && IsHunkBody(body)
    ensures var p' := FedAll(p, AsText(body), s);
            && OldRows(p'.lines) == OldRows(p.lines) + CountedFrom(Side(Kept(body), '-'), p.oldLine)
            && NewRows(p'.lines) == NewRows(p.lines) + CountedFrom(Side(Kept(body), '+'), p.newLine)
    decreases |body|
  {
    hide Fed, OldRows, NewRows, OnSide, IsSkipped, Side, Kept, CountedFrom, IfOn, Later, AsText, TextOf;
    if body == [] {
      EmptyBody();
    } else {
      var p1 := Fed(p, Text(body[0]), s);
      TextOfBody(body);
      assert IsHunkLine(body[0]) && forall k :: 0 <= k < |body| - 1 ==> body[1..][k] == body[k + 1];
      HunkLine(p, body[0], s);
      KeptSide(body, '-');
      KeptSide(body, '+');
      BodyAdds(p1, body[1..], s);
      CountedNext(OnSide(body[0], '-') && !IsSkipped(body[0]), TextOf(body[0]), Side(Kept(body[1..]), '-'), p.oldLine);
      CountedNext(OnSide(body[0], '+') && !IsSkipped(body[0]), TextOf(body[0]), Side(Kept(body[1..]), '+'), p.newLine);
    }
  }

  lemma EmptyBody()
    ensures AsText([]) == [] && Kept([]) == [] && forall m :: Side([], m) == []
    ensures forall start :: CountedFrom([], start) == []
  {}

  lemma TextOfBody(body: seq<string>)
    requires body != []
    ensures AsText(body) != [] && AsText(body)[0] == Text(body[0]) && AsText(body)[1..] == AsText(body[1..])
  {}

  lemma KeptSide(body: seq<string>, marker: char)
    requires body != []
    ensures Side(Kept(body), marker)
         == (if OnSide(body[0], marker) && !IsSkipped(body[0]) then [TextOf(body[0])] else [])
            + Side(Kept(body[1..]), marker)
  {
    hide IsSkipped;
    if !IsSkipped(body[0]) {
      assert ([body[0]] + Kept(body[1..]))[1..] == Kept(body[1..]);
    } else {
      assert Kept(body) == Kept(body[1..]);
    }
  }

  lemma CountedNext(on: bool, text: string, texts: seq<string>, start: U32)
    ensures CountedFrom((if on then [text] else []) + texts, start)
         == IfOn(on, start, text) + CountedFrom(texts, if on then Later(start) else start)
  {}

  /** A hunk adds to each side its kept lines, numbered in order from what its header tells. */
  lemma HunkAdds(p: Parser, header: string, starts: (U32, U32), body: seq<string>, s: Setup)
    requires p.currentFile.Some? && IsHunkBody(body)
    ensures var p' := FedAll(p, Hunk(header, starts, body), s);
            && OldRows(p'.lines) == OldRows(p.lines) + CountedFrom(Side(Kept(body), '-'), starts.0)
            && NewRows(p'.lines) == NewRows(p.lines) + CountedFrom(Side(Kept(body), '+'), starts.1)
  {
    hide Fed, OldRows, NewRows, CountedFrom, Side, Kept;
    HeaderStartsNumbers(p, header, starts, s);
    BodyAdds(Fed(p, HunkStarts(header, Some(starts)), s), body, s);
    assert Hunk(header, starts, body)[1..] == AsText(body);
  }

  /** Skipping shortens a side: a skipped line would be on one. */
  lemma {:induction false} KeptIsShorter(body: seq<string>)
    requires IsHunkBody(body)
    ensures |Side(Kept(body), '-')| <= |Side(body, '-')| && |Side(Kept(body), '+')| <= |Side(body, '+')|
    ensures (exists k :: 0 <= k < |body| && IsSkipped(body[k]))
            ==> |Side(Kept(body), '-')| + |Side(Kept(body), '+')| < |Side(body, '-')| + |Side(body, '+')|
    ensures (forall k :: 0 <= k < |body| ==> !IsSkipped(body[k])) ==> Kept(body) == body
  {
    if body != [] {
      assert IsHunkLine(body[0]) && forall k :: 0 <= k < |body| - 1 ==> body[1..][k] == body[k + 1];
      KeptIsShorter(body[1..]);
      KeptSide(body, '-');
      KeptSide(body, '+');
      if k :| 0 <= k < |body| && IsSkipped(body[k]) {
        assert k > 0 ==> IsSkipped(body[1..][k - 1]);
      }
    }
  }

  /** Numbers are told apart from those of texts in order exactly when they do not fit. */
  lemma CountedIffFits(texts: seq<string>, start: U32)
    ensures CountedFrom(texts, start) == NumberedFrom(texts, start) <==> start + |texts| <= U32_MAX + 1
  {
    var counted, numbered := CountedFrom(texts, start), NumberedFrom(texts, start);
    if start + |texts| > U32_MAX + 1 {
      var k := U32_MAX + 1 - start;
      assert counted[k].number != numbered[k].number;
    } else {
      assert forall k :: 0 <= k < |texts| ==> counted[k] == numbered[k];
    }
  }

  /** Both sides of a hunk come out whole and numbered in order from its header, exactly when no line
      of it is empty or reads like the name line of a file and the numbers fit 32 bits. */
  lemma HunkShowsBothSidesIff(
    p: Parser, header: string, starts: (U32, U32), body: seq<string>, s: Setup)
    requires p.currentFile.Some? && IsHunkBody(body)
    ensures var p' := FedAll(p, Hunk(header, starts, body), s);
            (&& OldRows(p'.lines) == OldRows(p.lines) + NumberedFrom(Side(body, '-'), starts.0)
             && NewRows(p'.lines) == NewRows(p.lines) + NumberedFrom(Side(body, '+'), starts.1))
            <==>
            && (forall k :: 0 <= k < |body| ==> body[k] != "" && !LooksLikeName(body[k]))
            && starts.0 + |Side(body, '-')| <= U32_MAX + 1 && starts.1 + |Side(body, '+')| <= U32_MAX + 1
  {
    hide Fed, OldRows, NewRows, LooksLikeName, Side, Kept, FedAll, CountedFrom, NumberedFrom;
    HunkAdds(p, header, starts, body, s);
    KeptIsShorter(body);
    CountedIffFits(Side(body, '-'), starts.0);
    CountedIffFits(Side(body, '+'), starts.1);
    SameIffSameEnd(OldRows(p.lines), CountedFrom(Side(Kept(body), '-'), starts.0),
                   NumberedFrom(Side(body, '-'), starts.0));
    SameIffSameEnd(NewRows(p.lines), CountedFrom(Side(Kept(body), '+'), starts.1),
                   NumberedFrom(Side(body, '+'), starts.1));
  }

  lemma SameIffSameEnd<T>(a: seq<T>, b: seq<T>, c: seq<T>)
    ensures a + b == a + c <==> b == c
  {
    if a + b == a + c {
      assert b == (a + b)[|a|..] == (a + c)[|a|..] == c;
    }
  }

  // ---- Colours ----

  /** The tokens of the rows of the new side, and of the deleted rows. */
  function NewTokens(lines: seq<Line>): seq<seq<Token>> {
    if lines == [] then [] else
      var last := lines[|lines| - 1];
      NewTokens(lines[..|lines| - 1]) + (if last.kind.Context? || last.kind.Addition? then [last.tokens] else [])
  }

  function DeletedTokens(lines: seq<Line>): seq<seq<Token>> {
    if lines == [] then [] else
      var last := lines[|lines| - 1];
      DeletedTokens(lines[..|lines| - 1]) + (if last.kind.Deletion? then [last.tokens] else [])
  }

  /** The tokens of texts that follow each other. */
  function Coloured(texts: seq<string>, path: string, carry: Carry, s: Setup): seq<seq<Token>>
    decreases |texts|
  {
    if texts == [] then [] else
      var (tokens, next) := s.tokenize(path, texts[0], carry);
      [tokens] + Coloured(texts[1..], path, next, s)
  }

  /** The tokens of the deleted lines in the text before the change. */
  function ColouredDeletions(body: seq<string>, path: string, carry: Carry, s: Setup): seq<seq<Token>>
    decreases |body|
  {
    if body == [] then []
    else if !OnSide(body[0], '-') then ColouredDeletions(body[1..], path, carry, s)
    else
      var (tokens, next) := s.tokenize(path, TextOf(body[0]), carry);
      (if IsDeletion(body[0]) then [tokens] else []) + ColouredDeletions(body[1..], path, next, s)
  }

  predicate IsDeletion(raw: string) {
    raw != "" && raw[0] == '-'
  }

  lemma TokensAfter(lines: seq<Line>, line: Line)
    ensures NewTokens(lines + [line])
         == NewTokens(lines) + (if line.kind.Context? || line.kind.Addition? then [line.tokens] else [])
    ensures DeletedTokens(lines + [line]) == DeletedTokens(lines) + (if line.kind.Deletion? then [line.tokens] else [])
  {
    assert (lines + [line])[..|lines|] == lines;
  }

  function IfSo<T>(so: bool, x: T): seq<T> {
    if so then [x] else []
  }

  lemma LineIsColoured(p: Parser, raw: string, s: Setup)
    requires p.currentFile.Some? && IsHunkLine(raw)
    ensures var p' := Fed(p, Text(raw), s);
            var path, kept := PathOf(p.files, p.currentFile.value), !IsSkipped(raw);
            var (oldTokens, oldCarry) := s.tokenize(path, TextOf(raw), p.oldCarry);
            var (newTokens, newCarry) := s.tokenize(path, TextOf(raw), p.newCarry);
            && p'.currentFile == p.currentFile && p'.files == p.files
            && NewTokens(p'.lines) == NewTokens(p.lines) + IfSo(kept && OnSide(raw, '+'), newTokens)
            && DeletedTokens(p'.lines) == DeletedTokens(p.lines) + IfSo(kept && IsDeletion(raw), oldTokens)
            && p'.newCarry == (if kept && OnSide(raw, '+') then newCarry else p.newCarry)
            && p'.oldCarry == (if kept && OnSide(raw, '-') then oldCarry else p.oldCarry)
  {
    hide Fed, LooksLikeName, NewTokens, DeletedTokens;
    HunkLineIsCode(p, raw, s);
    var p' := Fed(p, Text(raw), s);
    if p'.lines != p.lines {
      TokensAfter(p.lines, p'.lines[|p.lines|]);
    }
  }

  lemma ColouredNext(body: seq<string>, path: string, newCarry: Carry, oldCarry: Carry, s: Setup)
    requires body != []
    ensures var kept, rest := !IsSkipped(body[0]), Kept(body[1..]);
            var (oldTokens, oldNext) := s.tokenize(path, TextOf(body[0]), oldCarry);
            var (newTokens, newNext) := s.tokenize(path, TextOf(body[0]), newCarry);
            && Coloured(Side(Kept(body), '+'), path, newCarry, s)
               == IfSo(kept && OnSide(body[0], '+'), newTokens)
                  + Coloured(Side(rest, '+'), path, if kept && OnSide(body[0], '+') then newNext else newCarry, s)
            && ColouredDeletions(Kept(body), path, oldCarry, s)
               == IfSo(kept && IsDeletion(body[0]), oldTokens)
                  + ColouredDeletions(rest, path, if kept && OnSide(body[0], '-') then oldNext else oldCarry, s)
  {
    hide IsSkipped;
    var rest := Kept(body[1..]);
    KeptSide(body, '+');
    if !IsSkipped(body[0]) {
      assert Kept(body) == [body[0]] + rest && Kept(body)[1..] == rest;
      if OnSide(body[0], '+') {
        var side := Side(Kept(body), '+');
        assert side == [TextOf(body[0])] + Side(rest, '+') && side[1..] == Side(rest, '+');
      } else {
        assert Side(Kept(body), '+') == Side(rest, '+');
      }
    } else {
      assert Kept(body) == rest;
    }
  }

  lemma {:induction false} BodyIsColoured(p: Parser, body: seq<string>, s: Setup)
    requires p.currentFile.Some? && IsHunkBody(body)
    ensures var p', path := FedAll(p, AsText(body), s), PathOf(p.files, p.currentFile.value);
            && p'.files == p.files
            && NewTokens(p'.lines) == NewTokens(p.lines) + Coloured(Side(Kept(body), '+'), path, p.newCarry, s)
            && DeletedTokens(p'.lines)
               == DeletedTokens(p.lines) + ColouredDeletions(Kept(body), path, p.oldCarry, s)
    decreases |body|
  {
    hide Fed, NewTokens, DeletedTokens, OnSide, IsSkipped, IsDeletion, Side, Kept, AsText, TextOf, PathOf;
    hide Coloured, ColouredDeletions, IsHunkLine;
    if body == [] {
      EmptyBody();
      NothingIsColoured(PathOf(p.files, p.currentFile.value), p.newCarry, p.oldCarry, s);
    } else {
      TextOfBody(body);
      assert IsHunkLine(body[0]) && forall k :: 0 <= k < |body| - 1 ==> body[1..][k] == body[k + 1];
      LineIsColoured(p, body[0], s);
      ColouredNext(body, PathOf(p.files, p.currentFile.value), p.newCarry, p.oldCarry, s);
      BodyIsColoured(Fed(p, Text(body[0]), s), body[1..], s);
    }
  }

  lemma NothingIsColoured(path: string, newCarry: Carry, oldCarry: Carry, s: Setup)
    ensures Coloured([], path, newCarry, s) == [] && ColouredDeletions([], path, oldCarry, s) == []
  {}

  /** Each side of a hunk is coloured as if it stood alone: the rows of the new side as its kept lines
      are from the start of the hunk on, and the deleted rows as they are among the kept lines of the
      old side. A hunk changes nothing about its file. */
  lemma HunkIsColoured(p: Parser, header: string, starts: (U32, U32), body: seq<string>, s: Setup)
    requires p.currentFile.Some? && IsHunkBody(body)
    ensures var p', path := FedAll(p, Hunk(header, starts, body), s), PathOf(p.files, p.currentFile.value);
            && p'.files == p.files
            && NewTokens(p'.lines) == NewTokens(p.lines) + Coloured(Side(Kept(body), '+'), path, NoCarry, s)
            && DeletedTokens(p'.lines) == DeletedTokens(p.lines) + ColouredDeletions(Kept(body), path, NoCarry, s)
  {
    hide Fed, NewTokens, DeletedTokens, Side, Kept, PathOf, Coloured, ColouredDeletions, AsText;
    HeaderIsColourless(p, header, starts, s);
    BodyIsColoured(Fed(p, HunkStarts(header, Some(starts)), s), body, s);
    assert Hunk(header, starts, body)[1..] == AsText(body);
  }

  lemma HeaderIsColourless(p: Parser, header: string, starts: (U32, U32), s: Setup)
    requires p.currentFile.Some?
    ensures var p' := Fed(p, HunkStarts(header, Some(starts)), s);
            && p'.currentFile == p.currentFile && p'.files == p.files
            && p'.oldCarry == p'.newCarry == NoCarry
            && NewTokens(p'.lines) == NewTokens(p.lines) && DeletedTokens(p'.lines) == DeletedTokens(p.lines)
  {
    hide NewTokens, DeletedTokens;
    var p' := Fed(p, HunkStarts(header, Some(starts)), s);
    if p'.lines != p.lines {
      TokensAfter(p.lines, p'.lines[|p.lines|]);
    }
  }

  // ---- Two inputs that lose a line ----

  /** A deleted `-- note` is taken for a file name: its row is missing and the next takes its number. */
  lemma DeletedDashesVanish(p: Parser, s: Setup)
    requires p.currentFile.Some?
    ensures var p' := FedAll(p, Hunk("@@ -1,2 +0,0 @@", (1, 0), ["--- note", "-x"]), s);
            OldRows(p'.lines) == OldRows(p.lines) + [Numbering(Some(1), "x")]
  {
    hide Fed, OldRows, NewRows, FedAll;
    var body := ["--- note", "-x"];
    assert body[1..] == ["-x"] && body[1..][1..] == [];
    assert Kept(["-x"]) == ["-x"];
    assert Kept(body) == ["-x"];
    HunkAdds(p, "@@ -1,2 +0,0 @@", (1, 0), body, s);
  }

  /** An empty line that stays is skipped: both sides miss its row, and the next takes its numbers. */
  lemma EmptyLineVanishes(p: Parser, s: Setup)
    requires p.currentFile.Some?
    ensures var p' := FedAll(p, Hunk("@@ -1,2 +1,2 @@", (1, 1), ["", " x"]), s);
            && OldRows(p'.lines) == OldRows(p.lines) + [Numbering(Some(1), "x")]
            && NewRows(p'.lines) == NewRows(p.lines) + [Numbering(Some(1), "x")]
  {
    hide Fed, OldRows, NewRows, FedAll;
    var body := ["", " x"];
    assert body[1..] == [" x"] && body[1..][1..] == [];
    assert Kept([" x"]) == [" x"];
    assert Kept(body) == [" x"];
    HunkAdds(p, "@@ -1,2 +1,2 @@", (1, 1), body, s);
  }
}
