/** How a patch becomes rows (src/review_diff.rs:350-550): the loop over its lines, with headers
    already told apart from text. */
module ReviewParse {
  import opened Options
  import opened ReviewRows

  /** A line of the patch: a `diff --git` header with its path, a line that starts with `@@` and the
      old and new starts it tells, or any other text. */
  datatype Raw = FileStarts(path: string) | HunkStarts(raw: string, starts: Option<(U32, U32)>) | Text(raw: string)

  /** What the tokenizer carries from one line to the next. */
  datatype Carry = NoCarry | Inside(state: nat)

  /** What a parse is given beside files and patch; the tokenizer finds the language by the path. */
  datatype Setup = Setup(completeContext: bool, tokenize: (string, string, Carry) -> (seq<Token>, Carry))

  datatype Parser = Parser(
    files: seq<File>, pathIndexes: map<string, nat>, lines: seq<Line>, currentFile: Option<nat>,
    oldLine: U32, newLine: U32, previousOldNext: U32, previousNewNext: U32,
    oldCarry: Carry, newCarry: Carry, nextGapId: U64, positioned: bool)

  /** The index of each path, the last for a path that comes twice. */
  function IndexesOf(files: seq<File>): map<string, nat> {
    if files == [] then map[]
    else IndexesOf(files[..|files| - 1])[files[|files| - 1].path := |files| - 1]
  }

  function AtStart(files: seq<File>): Parser {
    Parser(files, IndexesOf(files), [], None, 0, 0, 1, 1, NoCarry, NoCarry, 0, true)
  }

  function Later(n: U32): U32 {
    if n == U32_MAX then n else n + 1
  }

  function Skip(n: U32, from: U32): U32 {
    if n > from then n - from else 0
  }

  predicate StartsWith(s: string, prefix: string) {
    prefix <= s
  }

  predicate IsBinaryNote(raw: string) {
    StartsWith(raw, "Binary files ") || raw == "GIT binary patch"
  }

  predicate IsAdded(raw: string) {
    StartsWith(raw, "new file mode ")
  }

  predicate IsDeleted(raw: string) {
    StartsWith(raw, "deleted file mode ")
  }

  predicate IsMetadata(raw: string) {
    || StartsWith(raw, "index ") || StartsWith(raw, "--- ") || StartsWith(raw, "+++ ")
    || StartsWith(raw, "old mode ") || StartsWith(raw, "new mode ")
  }

  function Separator(file: nat, kind: LineKind, content: string): Line {
    Line(file, None, None, kind, content, [])
  }

  function Shown(positioned: bool, n: U32): Option<nat> {
    if positioned then Some(n) else None
  }

  function NewFile(path: string): File {
    File(path, 0, 0, Modified, None)
  }

  function Marked(files: seq<File>, file: nat, status: FileStatus): (r: seq<File>)
    ensures |r| == |files|
  {
    if file < |files| then files[file := files[file].(status := status)] else files
  }

  function PathOf(files: seq<File>, file: nat): string {
    if file < |files| then files[file].path else ""
  }

  /** A header starts its file, a new one if the path is not known yet. */
  function FileStarted(p: Parser, path: string): Parser {
    var known := path in p.pathIndexes;
    var file := if known then p.pathIndexes[path] else |p.files|;
    Parser(if known then p.files else p.files + [NewFile(path)],
           if known then p.pathIndexes else p.pathIndexes[path := file],
           p.lines + [Separator(file, FileHeader, "")], Some(file), 0, 0, 1, 1, NoCarry, NoCarry, p.nextGapId, true)
  }

  /** A code row, or a note such as `\ No newline at end of file`. */
  function Coded(p: Parser, file: nat, raw: string, s: Setup): Parser
    requires raw != ""
  {
    var old', new' := Shown(p.positioned, p.oldLine), Shown(p.positioned, p.newLine);
    var path, content := PathOf(p.files, file), raw[1..];
    var (oldTokens, oldCarry) := s.tokenize(path, content, p.oldCarry);
    var (newTokens, newCarry) := s.tokenize(path, content, p.newCarry);
    match raw[0]
    case ' ' =>
      Numbered(p, Line(file, old', new', Context, content, newTokens), Later(p.oldLine), Later(p.newLine))
        .(oldCarry := oldCarry, newCarry := newCarry)
    case '-' =>
      Numbered(p, Line(file, old', None, Deletion, content, oldTokens), Later(p.oldLine), p.newLine)
        .(oldCarry := oldCarry)
    case '+' =>
      Numbered(p, Line(file, None, new', Addition, content, newTokens), p.oldLine, Later(p.newLine))
        .(newCarry := newCarry)
    case '\\' => Numbered(p, Line(file, None, None, Meta, content, []), p.oldLine, p.newLine)
    case _ => p
  }

  function Numbered(p: Parser, line: Line, oldLine: U32, newLine: U32): Parser {
    p.(lines := p.lines + [line], oldLine := oldLine, newLine := newLine,
       previousOldNext := oldLine, previousNewNext := newLine)
  }

  function HunkStarted(p: Parser, file: nat, raw: string, starts: (U32, U32), completeContext: bool): Parser {
    var oldGap, newGap := Skip(starts.0, p.previousOldNext), Skip(starts.1, p.previousNewNext);
    var gap := if oldGap >= newGap then oldGap else newGap;
    var first := p.previousOldNext == 1 && p.previousNewNext == 1;
    var p' :=
      if !completeContext && gap > 0 then
        p.(lines := p.lines + [GapLine(file, Gap(p.nextGapId, gap, [], if first then Leading else Between))],
           nextGapId := (p.nextGapId + 1) % U64_SIZE)
      else if !completeContext && !first then p.(lines := p.lines + [Separator(file, HunkHeader, raw)])
      else p;
    p'.(oldLine := starts.0, newLine := starts.1, oldCarry := NoCarry, newCarry := NoCarry, positioned := true)
  }

  function UnpositionedHunk(p: Parser, file: nat): Parser {
    var afterHeader := p.lines == [] || p.lines[|p.lines| - 1].kind.FileHeader?;
    p.(lines := if afterHeader then p.lines else p.lines + [Separator(file, HunkHeader, "")],
       oldCarry := NoCarry, newCarry := NoCarry, positioned := false)
  }

  function TextFed(p: Parser, file: nat, text: string, s: Setup): Parser {
    if IsAdded(text) then p.(files := Marked(p.files, file, Added))
    else if IsDeleted(text) then p.(files := Marked(p.files, file, Deleted))
    else if IsBinaryNote(text) then
      p.(files := Marked(p.files, file, Binary), lines := p.lines + [Separator(file, Meta, "Binary file changed")])
    else if IsMetadata(text) || text == "" then p
    else Coded(p, file, text, s)
  }

  function Fed(p: Parser, raw: Raw, s: Setup): Parser {
    if raw.FileStarts? then FileStarted(p, raw.path)
    else if p.currentFile.None? then p
    else
      var file := p.currentFile.value;
      match raw
      case HunkStarts(text, starts) =>
        if starts.None? then UnpositionedHunk(p, file)
        else HunkStarted(p, file, text, starts.value, s.completeContext)
      case Text(text) => TextFed(p, file, text, s)
  }

  function FedAll(p: Parser, patch: seq<Raw>, s: Setup): Parser
    decreases |patch|
  {
    if patch == [] then p else FedAll(Fed(p, patch[0], s), patch[1..], s)
  }

  lemma FedNext(p: Parser, patch: seq<Raw>, i: nat, s: Setup)
    requires i < |patch|
    ensures FedAll(p, patch[i..], s) == FedAll(Fed(p, patch[i], s), patch[i + 1..], s)
  {
    hide Fed;
    assert patch[i..][1..] == patch[i + 1..];
  }

  method ParseLines(numstat: seq<File>, patch: seq<Raw>, s: Setup) returns (files: seq<File>, lines: seq<Line>)
    ensures var p := FedAll(AtStart(numstat), patch, s); files == p.files && lines == p.lines
  {
    hide IsMetadata, IsBinaryNote, IsAdded, IsDeleted, FedAll, Known, IndexesOf;
    files, lines := numstat, [];
    var pathIndexes: map<string, nat> := IndexesOf(numstat);
    var currentFile: Option<nat> := None;
    var oldLine: U32, newLine: U32 := 0, 0;
    var previousOldNext: U32, previousNewNext: U32 := 1, 1;
    var oldCarry, newCarry := NoCarry, NoCarry;
    var nextGapId: U64 := 0;
    var positioned := true;
    ghost var p := AtStart(numstat);
    StartIsKnown(numstat);
    var i := 0;
    while i < |patch|
      invariant 0 <= i <= |patch| && Known(p)
      invariant p == Parser(files, pathIndexes, lines, currentFile, oldLine, newLine, previousOldNext,
                            previousNewNext, oldCarry, newCarry, nextGapId, positioned)
      invariant FedAll(p, patch[i..], s) == FedAll(AtStart(numstat), patch, s)
    {
      FedNext(p, patch, i, s);
      CurrentIsKnown(p);
      FedKeepsKnown(p, patch[i], s);
      p := Fed(p, patch[i], s);
      var raw := patch[i];
      i := i + 1;
      if raw.FileStarts? {
        var fileIndex := |files|;
        if raw.path in pathIndexes {
          fileIndex := pathIndexes[raw.path];
        } else {
          files := files + [NewFile(raw.path)];
          pathIndexes := pathIndexes[raw.path := fileIndex];
        }
        currentFile := Some(fileIndex);
        oldLine, newLine := 0, 0;
        previousOldNext, previousNewNext := 1, 1;
        oldCarry, newCarry := NoCarry, NoCarry;
        positioned := true;
        lines := lines + [Line(fileIndex, None, None, FileHeader, "", [])];
        continue;
      }
      if currentFile.None? {
        continue;
      }
      var file := currentFile.value;
      if raw.Text? && IsAdded(raw.raw) {
        files := files[file := files[file].(status := Added)];
        continue;
      }
      if raw.Text? && IsDeleted(raw.raw) {
        files := files[file := files[file].(status := Deleted)];
        continue;
      }
      if raw.Text? && IsBinaryNote(raw.raw) {
        files := files[file := files[file].(status := Binary)];
        lines := lines + [Line(file, None, None, Meta, "Binary file changed", [])];
        continue;
      }
      if raw.Text? && IsMetadata(raw.raw) {
        continue;
      }
      if raw.HunkStarts? && raw.starts.None? {
        positioned := false;
        if !(lines == [] || lines[|lines| - 1].kind.FileHeader?) {
          lines := lines + [Line(file, None, None, HunkHeader, "", [])];
        }
        oldCarry, newCarry := NoCarry, NoCarry;
        continue;
      }
      if raw.HunkStarts? {
        var nextOld, nextNew := raw.starts.value.0, raw.starts.value.1;
        positioned := true;
        var oldGap, newGap := Skip(nextOld, previousOldNext), Skip(nextNew, previousNewNext);
        var gap := if oldGap >= newGap then oldGap else newGap;
        if !s.completeContext && gap > 0 {
          var firstHunk := previousOldNext == 1 && previousNewNext == 1;
          var position := if firstHunk then Leading else Between;
          lines := lines + [Line(file, None, None, Folded(Gap(nextGapId, gap, [], position)), "", [])];
          nextGapId := (nextGapId + 1) % U64_SIZE;
        } else if !s.completeContext && (previousOldNext != 1 || previousNewNext != 1) {
          lines := lines + [Line(file, None, None, HunkHeader, raw.raw, [])];
        }
        oldLine, newLine := nextOld, nextNew;
        oldCarry, newCarry := NoCarry, NoCarry;
        continue;
      }
      if raw.raw == "" {
        continue;
      }
      var marker, content := raw.raw[0], raw.raw[1..];
      var path := files[file].path;
      var line: Line;
      if marker == ' ' {
        var (tokens, nextNewCarry) := s.tokenize(path, content, newCarry);
        var (_, nextOldCarry) := s.tokenize(path, content, oldCarry);
        line := Line(file, Shown(positioned, oldLine), Shown(positioned, newLine), Context, content, tokens);
        oldLine, newLine := Later(oldLine), Later(newLine);
        oldCarry, newCarry := nextOldCarry, nextNewCarry;
      } else if marker == '-' {
        var (tokens, carry) := s.tokenize(path, content, oldCarry);
        line := Line(file, Shown(positioned, oldLine), None, Deletion, content, tokens);
        oldLine, oldCarry := Later(oldLine), carry;
      } else if marker == '+' {
        var (tokens, carry) := s.tokenize(path, content, newCarry);
        line := Line(file, None, Shown(positioned, newLine), Addition, content, tokens);
        newLine, newCarry := Later(newLine), carry;
      } else if marker == '\\' {
        line := Line(file, None, None, Meta, content, []);
      } else {
        continue;
      }
      previousOldNext, previousNewNext := oldLine, newLine;
      lines := lines + [line];
    }
    FedNothing(p, patch, s);
  }

  lemma FedNothing(p: Parser, patch: seq<Raw>, s: Setup)
    ensures FedAll(p, patch[|patch|..], s) == p
  {}

  // ---- Files and their rows ----

  /** The index holds a file for each path and nothing else, and rows belong to files. */
  ghost predicate Known(p: Parser) {
    && IndexIsExact(p.pathIndexes, p.files)
    && (p.currentFile.Some? ==> p.currentFile.value < |p.files|)
    && (forall k :: 0 <= k < |p.lines| ==> p.lines[k].file < |p.files|)
  }

  ghost predicate IndexIsExact(indexes: map<string, nat>, files: seq<File>) {
    && (forall path <- indexes :: indexes[path] < |files| && files[indexes[path]].path == path)
    && (forall f :: 0 <= f < |files| ==> files[f].path in indexes)
  }

  lemma CurrentIsKnown(p: Parser)
    requires Known(p)
    ensures p.currentFile.Some? ==> p.currentFile.value < |p.files|
  {}

  lemma StartIsKnown(files: seq<File>)
    ensures Known(AtStart(files))
  {
    IndexesAreExact(files);
  }

  lemma {:induction false} IndexesAreExact(files: seq<File>)
    ensures IndexIsExact(IndexesOf(files), files)
  {
    if files != [] {
      var n := |files| - 1;
      IndexesAreExact(files[..n]);
      LastIsIndexed(IndexesOf(files[..n]), files[..n], files[n]);
      assert files[..n] + [files[n]] == files;
    }
  }

  lemma LastIsIndexed(indexes: map<string, nat>, files: seq<File>, last: File)
    requires IndexIsExact(indexes, files)
    ensures IndexIsExact(indexes[last.path := |files|], files + [last])
  {
    assert forall f :: 0 <= f < |files| ==> (files + [last])[f] == files[f];
    assert (files + [last])[|files|] == last;
  }

  /** The same files but for their status. */
  predicate SameFiles(a: seq<File>, b: seq<File>) {
    |a| == |b| && forall f :: 0 <= f < |a| ==> b[f] == a[f].(status := b[f].status)
  }

  /** From `p` to `p'` only rows of `file` were added, none of them a header, and a gap only where the
      context is not complete. */
  predicate Grows(p: Parser, p': Parser, file: nat, s: Setup) {
    && p'.currentFile == p.currentFile && p'.pathIndexes == p.pathIndexes && SameFiles(p.files, p'.files)
    && p.lines <= p'.lines
    && forall k :: |p.lines| <= k < |p'.lines| ==>
         && p'.lines[k].file == file && !p'.lines[k].kind.FileHeader?
         && (s.completeContext ==> !p'.lines[k].kind.Folded?)
  }

  lemma CodedGrows(p: Parser, file: nat, raw: string, s: Setup)
    requires raw != ""
    ensures Grows(p, Coded(p, file, raw, s), file, s)
  {}

  lemma TextGrows(p: Parser, file: nat, text: string, s: Setup)
    ensures Grows(p, TextFed(p, file, text, s), file, s)
  {
    hide IsMetadata, IsBinaryNote, IsAdded, IsDeleted, Coded;
    if text != "" {
      CodedGrows(p, file, text, s);
    }
  }

  lemma FedGrows(p: Parser, raw: Raw, s: Setup)
    requires !raw.FileStarts? && p.currentFile.Some?
    ensures Grows(p, Fed(p, raw, s), p.currentFile.value, s)
  {
    hide TextFed;
    if raw.Text? {
      TextGrows(p, p.currentFile.value, raw.raw, s);
    }
  }

  lemma GrowingKeepsKnown(p: Parser, p': Parser, s: Setup)
    requires Known(p) && p.currentFile.Some? && Grows(p, p', p.currentFile.value, s)
    ensures Known(p')
  {
    assert forall k :: 0 <= k < |p.lines| ==> p'.lines[k] == p.lines[k];
  }

  lemma FileKeepsKnown(p: Parser, path: string)
    requires Known(p)
    ensures Known(FileStarted(p, path))
  {
    hide IndexIsExact;
    if path in p.pathIndexes {
      IndexIsKnown(p.pathIndexes, p.files, path);
    } else {
      LastIsIndexed(p.pathIndexes, p.files, NewFile(path));
    }
    var lines := FileStarted(p, path).lines;
    assert forall k :: 0 <= k < |p.lines| ==> lines[k] == p.lines[k];
  }

  lemma IndexIsKnown(indexes: map<string, nat>, files: seq<File>, path: string)
    requires IndexIsExact(indexes, files) && path in indexes
    ensures indexes[path] < |files| && files[indexes[path]].path == path
  {}

  lemma FedKeepsKnown(p: Parser, raw: Raw, s: Setup)
    requires Known(p)
    ensures Known(Fed(p, raw, s))
  {
    hide Known, Grows, FileStarted, TextFed, HunkStarted, UnpositionedHunk;
    if raw.FileStarts? {
      FileKeepsKnown(p, raw.path);
    } else if p.currentFile.Some? {
      FedGrows(p, raw, s);
      GrowingKeepsKnown(p, Fed(p, raw, s), s);
    }
  }

  // ---- Full context leaves no gap to the parser ----

  lemma FedMakesNoGap(p: Parser, raw: Raw, s: Setup)
    requires NoGaps(p.lines) && s.completeContext
    ensures NoGaps(Fed(p, raw, s).lines)
  {
    hide TextFed, HunkStarted, UnpositionedHunk;
    if !raw.FileStarts? && p.currentFile.Some? {
      FedGrows(p, raw, s);
      var lines := Fed(p, raw, s).lines;
      assert forall k :: 0 <= k < |p.lines| ==> lines[k] == p.lines[k];
    }
  }

  lemma {:induction false} FullContextHasNoGaps(p: Parser, patch: seq<Raw>, s: Setup)
    requires NoGaps(p.lines) && s.completeContext
    ensures NoGaps(FedAll(p, patch, s).lines)
    decreases |patch|
  {
    hide Fed, NoGaps;
    if patch != [] {
      FedMakesNoGap(p, patch[0], s);
      FullContextHasNoGaps(Fed(p, patch[0], s), patch[1..], s);
    }
  }

  lemma PatchHasNoGaps(numstat: seq<File>, patch: seq<Raw>, s: Setup)
    requires s.completeContext
    ensures NoGaps(FedAll(AtStart(numstat), patch, s).lines)
  {
    hide FedAll;
    FullContextHasNoGaps(AtStart(numstat), patch, s);
  }
}
