/** A patch with one long run of context before its only change, and what it shows that folding and
    opening do not keep (src/review_diff.rs:156-183, 619-678). */
module ReviewExamples {
  import opened Options
  import opened ReviewCollapse
  import opened ReviewExpansion
  import opened ReviewParse
  import opened ReviewRows
  import opened ReviewRuns

  // ---- The patch and its rows ----

  /** A file without a name that tells its language has no tokens. */
  function WithoutTokens(path: string, content: string, carry: Carry): (seq<Token>, Carry) {
    ([], NoCarry)
  }

  const PLAIN: Setup := Setup(true, WithoutTokens)
  const NUMSTAT: seq<File> := [File("x", 1, 0, Modified, None)]

  /** The rows that the parser makes of a patch to this file. */
  function RowsOfPatch(patch: seq<Raw>): seq<Line> {
    FedAll(AtStart(NUMSTAT), patch, PLAIN).lines
  }

  function ContextLines(n: nat): (patch: seq<Raw>)
    ensures |patch| == n
  {
    seq(n, _ => Text(" "))
  }

  /** One file with one hunk: `n` empty lines that stay and an added "x". */
  function LongPatch(n: nat): seq<Raw> {
    [FileStarts("x"), HunkStarts("@@ -1 +1 @@", Some((1, 1)))] + ContextLines(n) + [Text("+x")]
  }

  const HEADER: Line := Line(0, None, None, FileHeader, "", [])

  /** Line numbers count up from one and stop at the largest. */
  function Numbered(k: nat): U32 {
    if k < U32_MAX then k + 1 else U32_MAX
  }

  function ContextRow(k: nat): Line {
    Line(0, Some(Numbered(k)), Some(Numbered(k)), Context, "", [])
  }

  function ContextRows(n: nat): (rows: seq<Line>)
    ensures |rows| == n
  {
    seq(n, k requires 0 <= k < n => ContextRow(k))
  }

  function AddedRow(n: nat): Line {
    Line(0, None, Some(Numbered(n)), Addition, "x", [])
  }

  function LongRows(n: nat): seq<Line> {
    [HEADER] + ContextRows(n) + [AddedRow(n)]
  }

  /** The parser after the header, the hunk and `n` lines of context. */
  function AfterContext(n: nat): Parser {
    Parser(NUMSTAT, map["x" := 0], [HEADER] + ContextRows(n), Some(0),
           Numbered(n), Numbered(n), Numbered(n), Numbered(n), NoCarry, NoCarry, 0, true)
  }

  lemma {:induction false} FedInTwo(p: Parser, a: seq<Raw>, b: seq<Raw>)
    ensures FedAll(p, a + b, PLAIN) == FedAll(FedAll(p, a, PLAIN), b, PLAIN)
    decreases |a|
  {
    hide Fed;
    if a == [] {
      assert a + b == b;
    } else {
      assert (a + b)[1..] == a[1..] + b;
      FedInTwo(Fed(p, a[0], PLAIN), a[1..], b);
    }
  }

  lemma FedOne(p: Parser, raw: Raw)
    ensures FedAll(p, [raw], PLAIN) == Fed(p, raw, PLAIN)
  {
    hide Fed;
    assert FedAll(p, [raw], PLAIN) == FedAll(Fed(p, raw, PLAIN), [raw][1..], PLAIN);
  }

  lemma OneContextLine(n: nat)
    ensures Fed(AfterContext(n), Text(" "), PLAIN) == AfterContext(n + 1)
  {
    assert ContextRows(n + 1) == ContextRows(n) + [ContextRow(n)];
    assert " "[1..] == "";
  }

  lemma {:induction false} ContextIsParsed(n: nat)
    ensures FedAll(AfterContext(0), ContextLines(n), PLAIN) == AfterContext(n)
  {
    hide Fed, AfterContext;
    if n > 0 {
      ContextIsParsed(n - 1);
      assert ContextLines(n) == ContextLines(n - 1) + [Text(" ")];
      FedInTwo(AfterContext(0), ContextLines(n - 1), [Text(" ")]);
      FedOne(AfterContext(n - 1), Text(" "));
      OneContextLine(n - 1);
    }
  }

  lemma HeaderIsParsed()
    ensures FedAll(AtStart(NUMSTAT), [FileStarts("x"), HunkStarts("@@ -1 +1 @@", Some((1, 1)))], PLAIN)
         == AfterContext(0)
  {
    var head := [FileStarts("x"), HunkStarts("@@ -1 +1 @@", Some((1, 1)))];
    assert head[1..] == [head[1]] && head[1..][1..] == [];
    assert [HEADER] + ContextRows(0) == [HEADER];
  }

  lemma AddedIsParsed(n: nat)
    ensures Fed(AfterContext(n), Text("+x"), PLAIN).lines == LongRows(n)
  {
    assert "+x"[1..] == "x";
  }

  /** The rows are what the parser makes of the patch. */
  lemma LongPatchIsParsed(n: nat)
    ensures RowsOfPatch(LongPatch(n)) == LongRows(n)
  {
    hide FedAll, Fed, AfterContext, LongRows;
    var head := [FileStarts("x"), HunkStarts("@@ -1 +1 @@", Some((1, 1)))];
    FedInTwo(AtStart(NUMSTAT), head + ContextLines(n), [Text("+x")]);
    FedInTwo(AtStart(NUMSTAT), head, ContextLines(n));
    HeaderIsParsed();
    ContextIsParsed(n);
    FedOne(AfterContext(n), Text("+x"));
    AddedIsParsed(n);
  }

  // ---- Its run of context ----

  lemma RunOfLongRows(n: nat)
    requires 1 <= n
    ensures var rows := LongRows(n);
            && NoGaps(rows) && FileStart(rows, 1) == 0 && FileEnd(rows, 0) == FileEnd(rows, 1) == |rows|
            && RunStart(rows, 1) == 1 && RunEnd(rows, 1) == RunEnd(rows, 2) == n + 1
            && !ChangeIn(rows, 0, 1) && ChangeIn(rows, n + 1, |rows|)
            && rows[1..n + 1] == ContextRows(n)
  {
    var rows := LongRows(n);
    assert forall k :: 1 <= k <= n ==> rows[k] == ContextRow(k - 1);
    assert rows[n + 1] == AddedRow(n) && rows[0] == HEADER;
    assert forall k :: 0 <= k < |rows| ==> rows[k].file == 0;
    assert ContextAt(rows, 1) && !ContextAt(rows, 0) && !ContextAt(rows, n + 1);
    assert forall k :: 1 <= k <= n ==> ContextAt(rows, k);
    assert rows[n + 1].IsChange();
  }

  // ---- Folding loses rows that a count cannot tell ----

  /** Of 2^32 + 4 lines of context before a change folding hides 2^32 + 1 in one gap, which keeps as
      many as a 32-bit count can tell, and two are lost. */
  lemma FoldingCanLoseRows()
    ensures var rows := RowsOfPatch(LongPatch(U32_MAX + 5));
            NoGaps(rows) && !GapsFit(rows, 0) && Flatten(Collapsed(rows)) != rows
  {
    hide RowsOfPatch, LongPatch, LongRows, Flatten, Collapsed, RunStart, RunEnd, ChangeIn, FileStart, FileEnd;
    var n := U32_MAX + 5;
    LongPatchIsParsed(n);
    RunOfLongRows(n);
    LongRowsLength(n);
    var rows := LongRows(n);
    assert FileOf(rows, 1) == rows && PlaceInFile(rows, 1) == 1;
    assert HiddenRow(rows, 1) && HiddenBeside(rows, 1) == n - 3;
    CollapsedShowsEveryRow(rows);
  }

  lemma LongRowsLength(n: nat)
    ensures |LongRows(n)| == n + 2 && (n >= 1 ==> ContextAt(LongRows(n), 1))
  {
    assert n >= 1 ==> LongRows(n)[1] == ContextRow(0);
  }

  // ---- Opening can leave one row hidden ----

  /** The folded rows: the last three lines of context show. */
  function FoldedRows(n: nat): seq<Line>
    requires 5 <= n
  {
    [HEADER, GapFor(ContextRows(n)[..n - 3], Leading, 0)] + ContextRows(n)[n - 3..] + [AddedRow(n)]
  }

  lemma LongRowsFold(n: nat)
    requires 5 <= n
    ensures Collapsed(LongRows(n)) == FoldedRows(n)
  {
    hide LongRows, RunStart, RunEnd, ChangeIn, FileStart, FileEnd, FoldedRows, FileInto;
    var rows := LongRows(n);
    RunOfLongRows(n);
    LongRowsLength(n);
    assert rows[0..|rows|] == rows;
    var c := FileInto(Collapsing([], 0), rows, 0);
    assert DiffInto(Collapsing([], 0), rows, 0) == DiffInto(c, rows, |rows|) == c;
    FileOfLongRows(n);
  }

  lemma FileOfLongRows(n: nat)
    requires 5 <= n
    ensures FileInto(Collapsing([], 0), LongRows(n), 0).lines == FoldedRows(n)
  {
    hide RunStart, RunEnd, ChangeIn, FileStart, FileEnd, GapFor;
    var rows := LongRows(n);
    RunOfLongRows(n);
    var c1 := Collapsing([HEADER], 0);
    assert [] + [HEADER] == [HEADER];
    assert FileInto(Collapsing([], 0), rows, 0) == FileInto(c1, rows, 1);
    var c2 := RunInto(c1, ContextRows(n), false, true);
    assert FileInto(c1, rows, 1) == FileInto(c2, rows, n + 1);
    assert FileInto(c2, rows, n + 1) == FileInto(c2.(lines := c2.lines + [AddedRow(n)]), rows, n + 2);
    assert ContextRows(n)[0..n - 3] == ContextRows(n)[..n - 3] && [HEADER] + ContextRows(n)[..0] == [HEADER];
    assert [HEADER] + [GapFor(ContextRows(n)[..n - 3], Leading, 0)]
        == [HEADER, GapFor(ContextRows(n)[..n - 3], Leading, 0)];
  }

  /** The snapshot of the patch with 104 lines of context. */
  function LongDiff(): Diff {
    Diff([NUMSTAT[0].(diffLine := Some(0))], FoldedRows(104), false, [0])
  }

  lemma LongDiffIsOpened()
    ensures Opened(LongDiff(), RowsOfPatch(LongPatch(104)))
  {
    hide RowsOfPatch, LongPatch, LongRows, Collapsed, HeaderPositions, FirstHeader, FoldedRows;
    LongPatchIsParsed(104);
    LongRowsFold(104);
    FoldedHeaders();
  }

  lemma FoldedHeaders()
    ensures |FoldedRows(104)| == 6
    ensures HeaderPositions(FoldedRows(104), 1) == [0] && FirstHeader(FoldedRows(104), 0) == Some(0)
  {
    hide HeaderPositions, FirstHeader;
    var rest := FoldedRows(104)[1..];
    assert FoldedRows(104) == [HEADER] + rest;
    NoHeaders(rest, 1, 0);
    HeadersConcat([HEADER], rest, 1);
    FirstHeaderConcat([HEADER], rest, 0);
    OneHeader();
  }

  lemma OneHeader()
    ensures HeaderPositions([HEADER], 1) == [0] && FirstHeader([HEADER], 0) == Some(0)
  {
    assert [HEADER][..0] == [];
  }

  /** 101 of the 104 lines hide; opened from the start, they leave a gap of one. */
  lemma OneRowCanStayHidden()
    ensures var d := LongDiff();
            && Opened(d, RowsOfPatch(LongPatch(104)))
            && Opens(d, 1) && GapsHideTwo(d.lines)
            && !GapsHideTwo(Expanded(d, 1, Start).0.lines)
  {
    hide Expanded, RowsOfPatch, LongPatch, Opened;
    LongDiffIsOpened();
    ExpandKeepsPairs(LongDiff(), 1, Start);
  }
}
