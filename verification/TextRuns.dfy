/** How the field cuts its text into painted runs (src/input.rs:2500-2606). */
module TextRuns {
  import opened Options
  import opened Splices

  type Color = nat

  /** What a run or a byte looks like. */
  datatype Style = Style(color: Color, background: Option<Color>, underlined: bool)

  datatype Run = Run(length: nat, style: Style)

  /** Everything that bears on the painting of `length` bytes; a token carries its colour. */
  datatype Paint = Paint(
    length: nat, baseColor: Color,
    selected: Option<Range>, extra: seq<Range>, marked: Option<Range>, selectionColor: Color,
    tokens: seq<(Range, Color)>,
    matches: seq<Range>, active: Option<Range>, matchColor: Color, activeColor: Color)

  // ---- Boundaries ----

  function Clipped(at: nat, length: nat): nat {
    if at <= length then at else length
  }

  function EdgesOf(r: Range, length: nat): seq<nat> {
    [Clipped(r.start, length), Clipped(r.end, length)]
  }

  function EdgesOfAll(ranges: seq<Range>, length: nat): seq<nat> {
    if ranges == [] then [] else EdgesOf(ranges[0], length) + EdgesOfAll(ranges[1..], length)
  }

  function Maybe(r: Option<Range>): seq<Range> {
    if r.Some? then [r.value] else []
  }

  function TokenRanges(tokens: seq<(Range, Color)>): (r: seq<Range>)
    ensures |r| == |tokens|
  {
    seq(|tokens|, i requires 0 <= i < |tokens| => tokens[i].0)
  }

  /** All the ranges whose edges are boundaries. */
  function Cutting(p: Paint): seq<Range> {
    Maybe(p.selected) + Maybe(p.marked) + p.extra + TokenRanges(p.tokens) + p.matches
  }

  function Edges(p: Paint): seq<nat> {
    [0, p.length] + EdgesOfAll(Cutting(p), p.length)
  }

  /** A number at its place, unless it is there. */
  function Inserted(sorted: seq<nat>, n: nat): seq<nat> {
    if sorted == [] || sorted[|sorted| - 1] < n then sorted + [n]
    else if sorted[|sorted| - 1] == n then sorted
    else Inserted(sorted[..|sorted| - 1], n) + [sorted[|sorted| - 1]]
  }

  /** The sorted list without repetitions. */
  function SortedOnce(ns: seq<nat>): seq<nat> {
    if ns == [] then [] else Inserted(SortedOnce(ns[..|ns| - 1]), ns[|ns| - 1])
  }

  function Boundaries(p: Paint): seq<nat> {
    SortedOnce(Edges(p))
  }

  // ---- Runs ----

  /** The first range that ends behind `start`: `partition_point` on sorted ranges. */
  function FirstEndingAfter(ranges: seq<Range>, start: nat): (i: nat)
    ensures i <= |ranges| && (i < |ranges| ==> ranges[i].end > start)
    ensures forall k :: 0 <= k < i ==> ranges[k].end <= start
  {
    if ranges == [] || ranges[0].end > start then 0 else 1 + FirstEndingAfter(ranges[1..], start)
  }

  predicate Spans(r: Range, start: nat, end: nat) {
    r.start <= start && r.end >= end
  }

  predicate Touches(r: Range, start: nat, end: nat) {
    r.start < end && r.end > start
  }

  function StyleOf(p: Paint, start: nat, end: nat): Style {
    var token := FirstEndingAfter(TokenRanges(p.tokens), start);
    var found := FirstEndingAfter(p.matches, start);
    var color := if token < |p.tokens| && Spans(p.tokens[token].0, start, end) then p.tokens[token].1 else p.baseColor;
    var background :=
      if p.active.Some? && Spans(p.active.value, start, end) then Some(p.activeColor)
      else if (p.selected.Some? && Touches(p.selected.value, start, end))
              || exists r <- p.extra :: Touches(r, start, end)
      then Some(p.selectionColor)
      else if found < |p.matches| && Spans(p.matches[found], start, end) then Some(p.matchColor)
      else None;
    Style(color, background, p.marked.Some? && Touches(p.marked.value, start, end))
  }

  /** The runs between neighbouring boundaries. */
  function RunsBetween(p: Paint, boundaries: seq<nat>): seq<Run> {
    if |boundaries| < 2 then []
    else
      var start, end := boundaries[0], boundaries[1];
      (if start < end then [Run(end - start, StyleOf(p, start, end))] else []) + RunsBetween(p, boundaries[1..])
  }

  function InputTextRuns(p: Paint): seq<Run> {
    RunsBetween(p, Boundaries(p))
  }

  // ---- What each byte should look like ----

  predicate CoveredBySome(ranges: seq<Range>, at: nat) {
    exists r <- ranges :: Covers(r, at)
  }

  /** The rule for one byte: the active match over a selection over a match; the colour of its token
      or the base colour; underlined in marked text. */
  ghost predicate Looks(p: Paint, at: nat, style: Style) {
    && (forall t <- p.tokens :: Covers(t.0, at) ==> style.color == t.1)
    && ((forall t <- p.tokens :: !Covers(t.0, at)) ==> style.color == p.baseColor)
    && style.background == (
         if p.active.Some? && Covers(p.active.value, at) then Some(p.activeColor)
         else if (p.selected.Some? && Covers(p.selected.value, at)) || CoveredBySome(p.extra, at) then
           Some(p.selectionColor)
         else if CoveredBySome(p.matches, at) then Some(p.matchColor)
         else None)
    && style.underlined == (p.marked.Some? && Covers(p.marked.value, at))
  }

  /** The style of each byte, run after run. */
  function Painted(runs: seq<Run>): seq<Style> {
    if runs == [] then [] else seq(runs[0].length, _ => runs[0].style) + Painted(runs[1..])
  }

  predicate Disjoint(ranges: seq<Range>) {
    && (forall i :: 0 <= i < |ranges| ==> ranges[i].start <= ranges[i].end)
    && forall i, j :: 0 <= i < j < |ranges| ==> ranges[i].end <= ranges[j].start
  }

  /** What callers provide: tokens and matches in order and apart, and an active match that is one of
      the matches. */
  predicate WellFormed(p: Paint) {
    Disjoint(TokenRanges(p.tokens)) && Disjoint(p.matches) && (p.active.Some? ==> p.active.value in p.matches)
  }

  predicate Increasing(ns: seq<nat>) {
    forall i, j :: 0 <= i < j < |ns| ==> ns[i] < ns[j]
  }

  lemma {:induction false} InsertedKeepsOrder(sorted: seq<nat>, n: nat)
    requires Increasing(sorted)
    ensures Increasing(Inserted(sorted, n)) && forall m :: m in Inserted(sorted, n) <==> m in sorted || m == n
  {
    if sorted != [] && sorted[|sorted| - 1] > n {
      var last := sorted[|sorted| - 1];
      InsertedKeepsOrder(sorted[..|sorted| - 1], n);
      assert sorted == sorted[..|sorted| - 1] + [last];
      assert forall m :: m in sorted <==> m in sorted[..|sorted| - 1] || m == last;
      var before := Inserted(sorted[..|sorted| - 1], n);
      assert forall m <- before :: m < last;
      assert forall i :: 0 <= i < |before| ==> before[i] in before;
    }
  }

  lemma {:induction false} SortedOnceSorts(ns: seq<nat>)
    ensures Increasing(SortedOnce(ns)) && forall m :: m in SortedOnce(ns) <==> m in ns
  {
    if ns != [] {
      SortedOnceSorts(ns[..|ns| - 1]);
      InsertedKeepsOrder(SortedOnce(ns[..|ns| - 1]), ns[|ns| - 1]);
      assert ns == ns[..|ns| - 1] + [ns[|ns| - 1]];
      assert forall m :: m in ns <==> m in ns[..|ns| - 1] || m == ns[|ns| - 1];
    }
  }

  /** No edge of the range lies strictly between two boundaries. */
  predicate Whole(r: Range, start: nat, end: nat) {
    !(start < r.start < end) && !(start < r.end < end)
  }

  lemma {:induction false} EdgesAreAll(ranges: seq<Range>, length: nat, r: Range)
    requires r in ranges
    ensures Clipped(r.start, length) in EdgesOfAll(ranges, length)
    ensures Clipped(r.end, length) in EdgesOfAll(ranges, length)
  {
    if ranges[0] != r {
      EdgesAreAll(ranges[1..], length, r);
    } else {
      assert EdgesOf(r, length)[0] == Clipped(r.start, length) && EdgesOf(r, length)[1] == Clipped(r.end, length);
    }
  }

  lemma {:induction false} EdgesWithin(ranges: seq<Range>, length: nat)
    ensures forall e <- EdgesOfAll(ranges, length) :: e <= length
  {
    if ranges != [] {
      EdgesWithin(ranges[1..], length);
    }
  }

  /** Neighbouring boundaries cut none of the ranges. */
  lemma NeighboursCutNothing(p: Paint, i: nat, r: Range)
    requires i + 1 < |Boundaries(p)| && r in Cutting(p)
    ensures Boundaries(p)[i] < Boundaries(p)[i + 1] <= p.length
    ensures Whole(r, Boundaries(p)[i], Boundaries(p)[i + 1])
  {
    var b := Boundaries(p);
    SortedOnceSorts(Edges(p));
    EdgesAreAll(Cutting(p), p.length, r);
    EdgesWithin(Cutting(p), p.length);
    assert b[i + 1] in b;
    forall e | e in b
      ensures !(b[i] < e < b[i + 1])
    {
      var k :| 0 <= k < |b| && b[k] == e;
    }
    assert Clipped(r.start, p.length) in Edges(p) && Clipped(r.end, p.length) in Edges(p);
  }

  // ---- The runs follow the rule ----

  /** A range with no edge inside covers one byte exactly when it covers them all. */
  lemma WholeCovers(r: Range, start: nat, end: nat, at: nat)
    requires Whole(r, start, end) && start <= at < end
    ensures Spans(r, start, end) <==> Covers(r, at)
    ensures Touches(r, start, end) <==> Covers(r, at)
  {}

  /** Among disjoint ranges only the first that ends behind `start` can cover what follows. */
  lemma OnlyFirstCovers(ranges: seq<Range>, start: nat, end: nat, at: nat)
    requires Disjoint(ranges) && start <= at < end && forall r <- ranges :: Whole(r, start, end)
    ensures var i := FirstEndingAfter(ranges, start);
            && (i < |ranges| ==> (Spans(ranges[i], start, end) <==> Covers(ranges[i], at)))
            && (forall k :: 0 <= k < |ranges| && Covers(ranges[k], at) ==> k == i)
  {
    var i := FirstEndingAfter(ranges, start);
    if i < |ranges| {
      assert ranges[i] in ranges;
      WholeCovers(ranges[i], start, end, at);
    }
  }

  /** Every range that bears on the painting cuts the text; so does the active match. */
  lemma AllCut(p: Paint)
    requires WellFormed(p)
    ensures forall r <- TokenRanges(p.tokens) :: r in Cutting(p)
    ensures forall r <- p.matches :: r in Cutting(p)
    ensures forall r <- p.extra :: r in Cutting(p)
    ensures p.selected.Some? ==> p.selected.value in Cutting(p)
    ensures p.marked.Some? ==> p.marked.value in Cutting(p)
    ensures p.active.Some? ==> p.active.value in Cutting(p)
  {}

  predicate AllWhole(p: Paint, start: nat, end: nat) {
    forall r <- Cutting(p) :: Whole(r, start, end)
  }

  lemma ColorLooks(p: Paint, start: nat, end: nat, at: nat)
    requires WellFormed(p) && start <= at < end && AllWhole(p, start, end)
    ensures forall t <- p.tokens :: Covers(t.0, at) ==> StyleOf(p, start, end).color == t.1
    ensures (forall t <- p.tokens :: !Covers(t.0, at)) ==> StyleOf(p, start, end).color == p.baseColor
  {
    hide Cutting, Covers, Spans, Whole;
    AllCut(p);
    var ranges := TokenRanges(p.tokens);
    OnlyFirstCovers(ranges, start, end, at);
    var i := FirstEndingAfter(ranges, start);
    forall k | 0 <= k < |p.tokens| && Covers(p.tokens[k].0, at)
      ensures k == i && Spans(p.tokens[i].0, start, end)
    {
      assert ranges[k] == p.tokens[k].0;
    }
    assert i < |p.tokens| ==> p.tokens[i] in p.tokens;
  }

  lemma SelectionLooks(p: Paint, start: nat, end: nat, at: nat)
    requires WellFormed(p) && start <= at < end && AllWhole(p, start, end)
    ensures p.active.Some? ==> Spans(p.active.value, start, end) == Covers(p.active.value, at)
    ensures p.selected.Some? ==> Touches(p.selected.value, start, end) == Covers(p.selected.value, at)
    ensures p.marked.Some? ==> Touches(p.marked.value, start, end) == Covers(p.marked.value, at)
    ensures (exists r <- p.extra :: Touches(r, start, end)) == CoveredBySome(p.extra, at)
  {
    hide Cutting, WellFormed;
    AllCut(p);
  }

  lemma MatchLooks(p: Paint, start: nat, end: nat, at: nat)
    requires WellFormed(p) && start <= at < end && AllWhole(p, start, end)
    ensures var found := FirstEndingAfter(p.matches, start);
            (found < |p.matches| && Spans(p.matches[found], start, end)) == CoveredBySome(p.matches, at)
  {
    hide Cutting, Covers, Spans, Whole;
    AllCut(p);
    OnlyFirstCovers(p.matches, start, end, at);
  }

  lemma StyleLooks(p: Paint, start: nat, end: nat, at: nat)
    requires WellFormed(p) && start <= at < end && AllWhole(p, start, end)
    ensures Looks(p, at, StyleOf(p, start, end))
  {
    hide WellFormed, AllWhole, Covers, Spans, Touches, CoveredBySome;
    ColorLooks(p, start, end, at);
    SelectionLooks(p, start, end, at);
    MatchLooks(p, start, end, at);
  }

  /** The runs of text that is cut at boundaries. */
  lemma {:induction false} RunsPaint(p: Paint, b: seq<nat>)
    requires WellFormed(p) && b != [] && Increasing(b)
    requires forall i, r :: 0 <= i < |b| - 1 && r in Cutting(p) ==> Whole(r, b[i], b[i + 1])
    ensures var runs := RunsBetween(p, b);
            && |Painted(runs)| == b[|b| - 1] - b[0]
            && (forall k :: 0 <= k < |Painted(runs)| ==> Looks(p, b[0] + k, Painted(runs)[k]))
            && (forall i :: 0 <= i < |runs| ==> runs[i].length > 0)
  {
    hide StyleOf, Looks, Whole, WellFormed, Cutting;
    if |b| >= 2 {
      assert AllWhole(p, b[0], b[1]);
      var run := Run(b[1] - b[0], StyleOf(p, b[0], b[1]));
      var rest := RunsBetween(p, b[1..]);
      RunsPaint(p, b[1..]);
      assert RunsBetween(p, b) == [run] + rest;
      PaintedCons(run, rest);
      assert forall k :: 0 <= k < |Painted(rest)| ==> Looks(p, b[0] + (run.length + k), Painted(rest)[k]);
      forall at | b[0] <= at < b[1]
        ensures Looks(p, at, run.style)
      {
        StyleLooks(p, b[0], b[1], at);
      }
    }
  }

  lemma PaintedCons(run: Run, rest: seq<Run>)
    ensures Painted([run] + rest) == seq(run.length, _ => run.style) + Painted(rest)
  {}

  /** The runs tile the text: every run has bytes, together they have as many as the text, and each
      byte looks as the rule says. */
  lemma RunsFollowTheRule(p: Paint)
    requires WellFormed(p)
    ensures var runs := InputTextRuns(p);
            && (forall i :: 0 <= i < |runs| ==> runs[i].length > 0)
            && |Painted(runs)| == p.length
            && forall at :: 0 <= at < p.length ==> Looks(p, at, Painted(runs)[at])
  {
    hide Looks, Painted, Cutting, WellFormed;
    var b := Boundaries(p);
    SortedOnceSorts(Edges(p));
    EdgesWithin(Cutting(p), p.length);
    FirstAndLast(p);
    forall i, r | 0 <= i < |b| - 1 && r in Cutting(p)
      ensures Whole(r, b[i], b[i + 1])
    {
      NeighboursCutNothing(p, i, r);
    }
    RunsPaint(p, b);
  }

  lemma FirstAndLast(p: Paint)
    ensures var b := Boundaries(p); b != [] && b[0] == 0 && b[|b| - 1] == p.length
  {
    hide Cutting;
    var b := Boundaries(p);
    SortedOnceSorts(Edges(p));
    EdgesWithin(Cutting(p), p.length);
    assert Edges(p)[0] == 0 && Edges(p)[1] == p.length;
    assert 0 in b && p.length in b;
    assert b[0] in b && b[|b| - 1] in b;
    assert b[0] in Edges(p) && b[|b| - 1] in Edges(p);
  }

  /** The first byte is in an active range that is none of the matches. */
  const STRAY: Paint := Paint(2, 0, None, [], None, 1, [], [], Some(Range(0, 1)), 2, 3)

  lemma StrayBoundaries()
    ensures Boundaries(STRAY) == [0, 2]
  {
    hide SortedOnce;
    assert Cutting(STRAY) == [];
    assert Edges(STRAY) == [0, 2];
    TwoInOrder(0, 2);
  }

  lemma TwoInOrder(m: nat, n: nat)
    requires m < n
    ensures SortedOnce([m, n]) == [m, n]
  {
    assert [m, n][..1] == [m] && [m][..0] == [];
    assert SortedOnce([m]) == Inserted([], m) == [m];
    assert SortedOnce([m, n]) == Inserted([m], n) == [m, n];
  }

  /** An active match that is none of the matches may be painted nowhere. */
  lemma ActiveMustBeAMatch()
    ensures Covers(STRAY.active.value, 0) && InputTextRuns(STRAY) == [Run(2, Style(0, None, false))]
  {
    hide Boundaries;
    StrayBoundaries();
    assert RunsBetween(STRAY, [0, 2]) == [Run(2, StyleOf(STRAY, 0, 2))] + RunsBetween(STRAY, [0, 2][1..]);
  }
}
