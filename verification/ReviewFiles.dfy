/** The files of a parsed patch and the rows that belong to them (src/review_diff.rs:357-412, 551-552). */
module ReviewFiles {
  import opened ReviewParse
  import opened ReviewRows

  /** The paths that the headers of the patch name, in order. */
  function PathsIn(patch: seq<Raw>): seq<string> {
    if patch == [] then [] else (if patch[0].FileStarts? then [patch[0].path] else []) + PathsIn(patch[1..])
  }

  /** The paths of the files that the header rows belong to, in order. */
  function HeaderPaths(lines: seq<Line>, files: seq<File>): seq<string> {
    if lines == [] then [] else
      var n := |lines| - 1;
      HeaderPaths(lines[..n], files)
        + (if lines[n].kind.FileHeader? then [PathOf(files, lines[n].file)] else [])
  }

  /** Files that were there keep all but their status; others came with their path only. */
  predicate ComeFrom(numstat: seq<File>, files: seq<File>) {
    && |numstat| <= |files|
    && (forall f :: 0 <= f < |numstat| ==> files[f] == numstat[f].(status := files[f].status))
    && (forall f :: |numstat| <= f < |files| ==> files[f] == NewFile(files[f].path).(status := files[f].status))
    && (forall e, f :: 0 <= e < f && |numstat| <= f < |files| ==> files[e].path != files[f].path)
  }

  function Additions(files: seq<File>): nat {
    if files == [] then 0 else Additions(files[..|files| - 1]) + files[|files| - 1].additions
  }

  function Deletions(files: seq<File>): nat {
    if files == [] then 0 else Deletions(files[..|files| - 1]) + files[|files| - 1].deletions
  }

  // ---- One line of the patch ----

  lemma {:induction false} SamePaths(lines: seq<Line>, files: seq<File>, files': seq<File>)
    requires |files| <= |files'| && forall f :: 0 <= f < |files| ==> files'[f].path == files[f].path
    requires forall k :: 0 <= k < |lines| ==> lines[k].file < |files|
    ensures HeaderPaths(lines, files') == HeaderPaths(lines, files)
  {
    if lines != [] {
      SamePaths(lines[..|lines| - 1], files, files');
    }
  }

  lemma {:induction false} NoHeaderNoPath(lines: seq<Line>, lines': seq<Line>, files: seq<File>)
    requires lines <= lines' && forall k :: |lines| <= k < |lines'| ==> !lines'[k].kind.FileHeader?
    ensures HeaderPaths(lines', files) == HeaderPaths(lines, files)
    decreases |lines'|
  {
    if |lines| < |lines'| {
      NoHeaderNoPath(lines, lines'[..|lines'| - 1], files);
    } else {
      assert lines == lines';
    }
  }

  lemma {:induction false} SameTotals(a: seq<File>, b: seq<File>)
    requires SameFiles(a, b)
    ensures Additions(a) == Additions(b) && Deletions(a) == Deletions(b)
    decreases |a|
  {
    if a != [] {
      SameTotals(a[..|a| - 1], b[..|b| - 1]);
    }
  }

  /** Totals do not look at the place of a file. */
  lemma {:induction false} SameCounts(a: seq<File>, b: seq<File>)
    requires |a| == |b| && forall f :: 0 <= f < |a| ==> b[f] == a[f].(diffLine := b[f].diffLine)
    ensures Additions(a) == Additions(b) && Deletions(a) == Deletions(b)
    decreases |a|
  {
    if a != [] {
      SameCounts(a[..|a| - 1], b[..|b| - 1]);
    }
  }

  lemma NewFileAddsNothing(files: seq<File>, path: string)
    ensures Additions(files + [NewFile(path)]) == Additions(files)
    ensures Deletions(files + [NewFile(path)]) == Deletions(files)
  {
    assert (files + [NewFile(path)])[..|files|] == files;
  }

  lemma FileKeepsTotals(p: Parser, path: string)
    ensures var p' := FileStarted(p, path);
            Additions(p'.files) == Additions(p.files) && Deletions(p'.files) == Deletions(p.files)
  {
    NewFileAddsNothing(p.files, path);
  }

  lemma FileKeepsFiles(numstat: seq<File>, p: Parser, path: string)
    requires Known(p) && ComeFrom(numstat, p.files)
    ensures ComeFrom(numstat, FileStarted(p, path).files)
  {
    var files := FileStarted(p, path).files;
    if path !in p.pathIndexes {
      assert forall e :: 0 <= e < |p.files| ==> p.files[e].path != path;
    }
  }

  lemma FileNamesItsPath(p: Parser, path: string)
    requires Known(p)
    ensures var p' := FileStarted(p, path);
            HeaderPaths(p'.lines, p'.files) == HeaderPaths(p.lines, p.files) + [path]
  {
    var p' := FileStarted(p, path);
    SamePaths(p.lines, p.files, p'.files);
    assert p'.lines[..|p.lines|] == p.lines;
  }

  lemma TextKeepsFiles(numstat: seq<File>, p: Parser, raw: Raw, s: Setup)
    requires Known(p) && ComeFrom(numstat, p.files) && !raw.FileStarts?
    ensures var p' := Fed(p, raw, s);
            && ComeFrom(numstat, p'.files) && HeaderPaths(p'.lines, p'.files) == HeaderPaths(p.lines, p.files)
            && Additions(p'.files) == Additions(p.files) && Deletions(p'.files) == Deletions(p.files)
  {
    hide TextFed, HunkStarted, UnpositionedHunk, HeaderPaths, Additions, Deletions;
    if p.currentFile.Some? {
      var p' := Fed(p, raw, s);
      FedGrows(p, raw, s);
      SameTotals(p.files, p'.files);
      SamePaths(p.lines, p.files, p'.files);
      NoHeaderNoPath(p.lines, p'.lines, p'.files);
    }
  }

  lemma FedKeepsFiles(numstat: seq<File>, p: Parser, raw: Raw, s: Setup)
    requires Known(p) && ComeFrom(numstat, p.files)
    ensures var p' := Fed(p, raw, s);
            && ComeFrom(numstat, p'.files)
            && HeaderPaths(p'.lines, p'.files)
               == HeaderPaths(p.lines, p.files) + (if raw.FileStarts? then [raw.path] else [])
            && Additions(p'.files) == Additions(p.files) && Deletions(p'.files) == Deletions(p.files)
  {
    hide Known, ComeFrom, FileStarted, TextFed, HunkStarted, UnpositionedHunk, HeaderPaths, Additions, Deletions;
    if raw.FileStarts? {
      FileKeepsFiles(numstat, p, raw.path);
      FileKeepsTotals(p, raw.path);
      FileNamesItsPath(p, raw.path);
    } else {
      TextKeepsFiles(numstat, p, raw, s);
    }
  }

  // ---- The whole patch ----

  lemma {:induction false} FedAllKeepsFiles(numstat: seq<File>, p: Parser, patch: seq<Raw>, s: Setup)
    requires Known(p) && ComeFrom(numstat, p.files)
    ensures var p' := FedAll(p, patch, s);
            && Known(p') && ComeFrom(numstat, p'.files)
            && HeaderPaths(p'.lines, p'.files) == HeaderPaths(p.lines, p.files) + PathsIn(patch)
            && Additions(p'.files) == Additions(p.files) && Deletions(p'.files) == Deletions(p.files)
    decreases |patch|
  {
    hide Known, ComeFrom, Fed, HeaderPaths, Additions, Deletions;
    if patch != [] {
      FedKeepsKnown(p, patch[0], s);
      FedKeepsFiles(numstat, p, patch[0], s);
      FedAllKeepsFiles(numstat, Fed(p, patch[0], s), patch[1..], s);
    }
  }

  /** Every row of a parsed patch belongs to a file; the header rows name the paths of the patch's
      headers in order; the files are those of the summary with their counts, and one more for each
      path that it does not tell, without counts. So the totals are those of the summary. */
  lemma ParsedFilesAreExact(numstat: seq<File>, patch: seq<Raw>, s: Setup)
    ensures var p := FedAll(AtStart(numstat), patch, s);
            && (forall k :: 0 <= k < |p.lines| ==> p.lines[k].file < |p.files|)
            && HeaderPaths(p.lines, p.files) == PathsIn(patch)
            && ComeFrom(numstat, p.files)
            && Additions(p.files) == Additions(numstat) && Deletions(p.files) == Deletions(numstat)
  {
    hide FedAll, IndexesOf, Additions, Deletions;
    StartIsKnown(numstat);
    FedAllKeepsFiles(numstat, AtStart(numstat), patch, s);
  }
}
