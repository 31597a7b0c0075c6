/** Selected snippets of a file: their bounds and how they merge (src/app.rs:747-803). */
module Snippets {
  import opened Splices
  import opened Utf8

  const NEWLINE: byte := 10

  datatype Snippet = Snippet(startLine: nat, endLine: nat, text: Bytes, range: Range)

  function Newlines(s: Bytes): nat {
    if s == [] then 0 else Newlines(s[..|s| - 1]) + (if s[|s| - 1] == NEWLINE then 1 else 0)
  }

  /** The greatest boundary up to `i`. */
  function BoundaryUpTo(s: Bytes, i: nat): (r: nat)
    requires i <= |s|
    ensures r <= i && IsBoundary(s, r) && forall j :: r < j <= i ==> !IsBoundary(s, j)
  {
    if IsBoundary(s, i) then i else BoundaryUpTo(s, i - 1)
  }

  /** The least boundary from `i` on. */
  function BoundaryFrom(s: Bytes, i: nat): (r: nat)
    requires i <= |s|
    ensures i <= r <= |s| && IsBoundary(s, r) && forall j :: i <= j < r ==> !IsBoundary(s, j)
    decreases |s| - i
  {
    if IsBoundary(s, i) then i else BoundaryFrom(s, i + 1)
  }

  function Max(a: nat, b: nat): nat {
    if a >= b then a else b
  }

  /** `FileEditorSnippet::from_range`. */
  function FromRange(range: Range, content: Bytes): Snippet {
    var start := BoundaryUpTo(content, Least(range.start, |content|));
    var end := BoundaryFrom(content, Max(Least(range.end, |content|), start));
    var startLine := Newlines(content[..start]) + 1;
    var prefix := content[..end];
    var endsWithNewline := prefix != [] && prefix[|prefix| - 1] == NEWLINE;
    var endLine := Newlines(prefix) + (if !endsWithNewline && start != end then 1 else 0);
    Snippet(startLine, Max(endLine, startLine), content[start..end], Range(start, end))
  }

  // ---- One snippet ----

  /** The line that byte `i` is on, counted from one. */
  function LineOf(content: Bytes, i: nat): nat
    requires i <= |content|
  {
    Newlines(content[..i]) + 1
  }

  /** A range that fits is taken as it is; any other grows to the nearest boundaries. */
  lemma FromRangeFits(range: Range, content: Bytes)
    ensures var snippet := FromRange(range, content);
            && Fits(content, snippet.range)
            && snippet.text == content[snippet.range.start..snippet.range.end]
            && (Fits(content, range) ==> snippet.range == range)
            && FromRange(snippet.range, content) == snippet
  {
    var snippet := FromRange(range, content);
    BoundariesStay(content, snippet.range);
    if Fits(content, range) {
      BoundariesStay(content, range);
    }
  }

  lemma BoundariesStay(content: Bytes, range: Range)
    requires Fits(content, range)
    ensures BoundaryUpTo(content, range.start) == range.start && BoundaryFrom(content, range.end) == range.end
  {}

  /** Any byte of the content that the range covers is in the snippet. */
  lemma FromRangeCovers(range: Range, content: Bytes, b: nat)
    requires range.start <= b < range.end && b < |content|
    ensures var r := FromRange(range, content).range; r.start <= b < r.end
  {}

  /** A snippet starts at the last boundary up to the start of the range, as far as that is inside the
      content, and ends at the first boundary from its end on, which is not before the start. */
  lemma FromRangeIsNearest(range: Range, content: Bytes)
    ensures var r := FromRange(range, content).range;
            var start, end := Least(range.start, |content|), Max(Least(range.end, |content|), r.start);
            && r.start <= start && (forall b: nat :: r.start < b <= start ==> !IsBoundary(content, b))
            && end <= r.end && (forall b: nat :: end <= b < r.end ==> !IsBoundary(content, b))
  {}

  /** The line of a byte is one more than the newlines before it. */
  lemma {:induction false} LineCountsNewlines(content: Bytes, i: nat)
    requires i <= |content|
    ensures LineOf(content, i) == |set k: nat | k < i && content[k] == 0x0A| + 1
  {
    var before := set k: nat | k < i && content[k] == 0x0A;
    if i > 0 {
      LineCountsNewlines(content, i - 1);
      var fewer := set k: nat | k < i - 1 && content[k] == 0x0A;
      assert before == fewer + (if content[i - 1] == 0x0A then {i - 1} else {});
      assert content[..i][..i - 1] == content[..i - 1];
    } else {
      assert before == {};
    }
  }

  /** The lines of a snippet are those of its first and last bytes. */
  lemma FromRangeLines(range: Range, content: Bytes)
    ensures var snippet := FromRange(range, content);
            var r := snippet.range;
            && r.start <= r.end <= |content|
            && snippet.startLine == LineOf(content, r.start)
            && snippet.endLine == (if r.start == r.end then snippet.startLine else LineOf(content, r.end - 1))
  {
    var r := FromRange(range, content).range;
    if r.start < r.end {
      assert content[..r.end][..r.end - 1] == content[..r.end - 1];
      NewlinesGrow(content, r.start, r.end - 1);
    } else {
      assert content[..r.end] == content[..r.start];
    }
  }

  lemma {:induction false} NewlinesGrow(s: Bytes, i: nat, j: nat)
    requires i <= j <= |s|
    ensures Newlines(s[..i]) <= Newlines(s[..j])
  {
    if i < j {
      assert s[..j][..j - 1] == s[..j - 1];
      NewlinesGrow(s, i, j - 1);
    }
  }

  // ---- Merging ----

  predicate InOrder(snippets: seq<Snippet>) {
    forall i, j :: 0 <= i < j < |snippets| ==> snippets[i].range.start <= snippets[j].range.start
  }

  /** A snippet behind those that start no later. */
  function Inserted(snippets: seq<Snippet>, s: Snippet): seq<Snippet> {
    if snippets == [] || snippets[|snippets| - 1].range.start <= s.range.start then snippets + [s]
    else Inserted(snippets[..|snippets| - 1], s) + [snippets[|snippets| - 1]]
  }

  /** The stable sort by start. */
  function ByStart(snippets: seq<Snippet>): seq<Snippet> {
    if snippets == [] then [] else Inserted(ByStart(snippets[..|snippets| - 1]), snippets[|snippets| - 1])
  }

  /** One range after those merged so far. */
  function MergedInto(merged: seq<Range>, r: Range): seq<Range> {
    var last := |merged| - 1;
    if merged != [] && r.start <= merged[last].end then
      merged[last := Range(merged[last].start, Max(merged[last].end, r.end))]
    else merged + [r]
  }

  function Merged(snippets: seq<Snippet>): seq<Range> {
    if snippets == [] then [] else MergedInto(Merged(snippets[..|snippets| - 1]), snippets[|snippets| - 1].range)
  }

  function Remade(ranges: seq<Range>, content: Bytes): (r: seq<Snippet>)
    ensures |r| == |ranges|
  {
    seq(|ranges|, i requires 0 <= i < |ranges| => FromRange(ranges[i], content))
  }

  function Normalized(snippets: seq<Snippet>, content: Bytes): seq<Snippet> {
    Remade(Merged(ByStart(snippets)), content)
  }

  method NormalizeSnippets(snippets: seq<Snippet>, content: Bytes) returns (r: seq<Snippet>)
    ensures r == Normalized(snippets, content)
  {
    hide FromRange, ByStart, Merged;
    if snippets == [] {
      NothingMerged(ByStart(snippets));
      return snippets;
    }
    var sorted := ByStart(snippets);
    var merged: seq<Range> := [];
    var i := 0;
    NothingMerged(sorted[..i]);
    while i < |sorted|
      invariant 0 <= i <= |sorted| && merged == Merged(sorted[..i])
    {
      MergedStep(sorted, i);
      var range := sorted[i].range;
      i := i + 1;
      if merged != [] {
        var last := |merged| - 1;
        if range.start <= merged[last].end {
          merged := merged[last := Range(merged[last].start, Max(merged[last].end, range.end))];
          continue;
        }
      }
      merged := merged + [range];
    }
    assert sorted[..i] == sorted;
    return Remade(merged, content);
  }

  lemma NothingMerged(snippets: seq<Snippet>)
    ensures |snippets| == 0 ==> Merged(snippets) == []
    ensures ByStart([]) == []
  {}

  lemma MergedStep(snippets: seq<Snippet>, i: nat)
    requires i < |snippets|
    ensures Merged(snippets[..i + 1]) == MergedInto(Merged(snippets[..i]), snippets[i].range)
  {
    assert snippets[..i + 1][..i] == snippets[..i];
  }

  /** Half steps along the content: `2 * i` is the place before byte `i`, and `2 * i + 1` is the byte.
      A range reaches its bytes and the places before, between and behind them; an empty one reaches
      one place. */
  predicate Reaches(r: Range, at: nat) {
    2 * r.start <= at <= 2 * r.end
  }

  predicate Reached(ranges: seq<Range>, b: nat) {
    exists i :: 0 <= i < |ranges| && Reaches(ranges[i], b)
  }

  predicate ReachedBySome(snippets: seq<Snippet>, b: nat) {
    exists i :: 0 <= i < |snippets| && Reaches(snippets[i].range, b)
  }

  /** Some snippet covers byte `b`. */
  predicate CoveredBySome(snippets: seq<Snippet>, b: nat) {
    exists i :: 0 <= i < |snippets| && Covers(snippets[i].range, b)
  }

  lemma BytesAreReached(snippets: seq<Snippet>, b: nat)
    ensures CoveredBySome(snippets, b) <==> ReachedBySome(snippets, 2 * b + 1)
  {
    if i :| 0 <= i < |snippets| && Covers(snippets[i].range, b) {
      assert Reaches(snippets[i].range, 2 * b + 1);
    }
    if i :| 0 <= i < |snippets| && Reaches(snippets[i].range, 2 * b + 1) {
      assert Covers(snippets[i].range, b);
    }
  }

  /** Ranges one after the other that neither overlap nor touch. */
  predicate Separated(ranges: seq<Range>) {
    && (forall i :: 0 <= i < |ranges| ==> ranges[i].start <= ranges[i].end)
    && forall i, j :: 0 <= i < j < |ranges| ==> ranges[i].end < ranges[j].start
  }

  predicate AllFit(snippets: seq<Snippet>, content: Bytes) {
    forall i :: 0 <= i < |snippets| ==> Fits(content, snippets[i].range)
  }

  lemma {:induction false} InsertedIsInOrder(snippets: seq<Snippet>, s: Snippet)
    requires InOrder(snippets)
    ensures InOrder(Inserted(snippets, s))
    ensures forall x :: x in Inserted(snippets, s) <==> x in snippets || x == s
  {
    if snippets != [] && snippets[|snippets| - 1].range.start > s.range.start {
      var last := snippets[|snippets| - 1];
      InsertedIsInOrder(snippets[..|snippets| - 1], s);
      assert forall x :: x in snippets <==> x in snippets[..|snippets| - 1] || x == last by {
        assert snippets == snippets[..|snippets| - 1] + [last];
      }
      assert forall x <- snippets :: x.range.start <= last.range.start;
    }
  }

  lemma {:induction false} ByStartSorts(snippets: seq<Snippet>)
    ensures InOrder(ByStart(snippets))
    ensures forall x :: x in ByStart(snippets) <==> x in snippets
  {
    if snippets != [] {
      var last := snippets[|snippets| - 1];
      ByStartSorts(snippets[..|snippets| - 1]);
      InsertedIsInOrder(ByStart(snippets[..|snippets| - 1]), last);
      assert forall x :: x in snippets <==> x in snippets[..|snippets| - 1] || x == last by {
        assert snippets == snippets[..|snippets| - 1] + [last];
      }
    }
  }

  lemma {:induction false} InOrderStays(snippets: seq<Snippet>)
    requires InOrder(snippets)
    ensures ByStart(snippets) == snippets
  {
    if snippets != [] {
      InOrderStays(snippets[..|snippets| - 1]);
    }
  }

  /** What merging keeps: the ranges stay apart, fit, cover the same bytes, and the last one starts
      no later than the next range will. */
  lemma {:induction false} MergedIsExact(snippets: seq<Snippet>, content: Bytes)
    requires InOrder(snippets) && AllFit(snippets, content)
    ensures var m := Merged(snippets);
            && Separated(m) && (forall i :: 0 <= i < |m| ==> Fits(content, m[i]))
            && (forall b: nat :: Reached(m, b) <==> ReachedBySome(snippets, b))
            && (snippets != [] ==> m != [] && m[|m| - 1].start <= snippets[|snippets| - 1].range.start)
  {
    if snippets != [] {
      var before, r := snippets[..|snippets| - 1], snippets[|snippets| - 1].range;
      MergedIsExact(before, content);
      var m := Merged(before);
      MergedIntoKeeps(m, r, content);
      forall b: nat
        ensures Reached(MergedInto(m, r), b) <==> ReachedBySome(snippets, b)
      {
        assert ReachedBySome(snippets, b) <==> ReachedBySome(before, b) || Reaches(r, b) by {
          if k :| 0 <= k < |snippets| && Reaches(snippets[k].range, b) {
            assert k < |before| ==> Reaches(before[k].range, b);
          }
          if k :| 0 <= k < |before| && Reaches(before[k].range, b) {
            assert Reaches(snippets[k].range, b);
          }
          assert Reaches(snippets[|snippets| - 1].range, b) == Reaches(r, b);
        }
      }
    }
  }

  lemma MergedIntoKeeps(m: seq<Range>, r: Range, content: Bytes)
    requires Separated(m) && (forall i :: 0 <= i < |m| ==> Fits(content, m[i])) && Fits(content, r)
    requires m != [] ==> m[|m| - 1].start <= r.start
    ensures var m' := MergedInto(m, r);
            && Separated(m') && (forall i :: 0 <= i < |m'| ==> Fits(content, m'[i]))
            && m' != [] && m'[|m'| - 1].start <= r.start
            && forall at: nat :: Reached(m', at) <==> Reached(m, at) || Reaches(r, at)
  {
    hide IsBoundary;
    forall at: nat
      ensures Reached(MergedInto(m, r), at) <==> Reached(m, at) || Reaches(r, at)
    {
      MergedIntoReaches(m, r, at);
    }
  }

  lemma MergedIntoReaches(m: seq<Range>, r: Range, at: nat)
    requires r.start <= r.end && forall i :: 0 <= i < |m| ==> m[i].start <= m[i].end
    requires m != [] ==> m[|m| - 1].start <= r.start
    ensures Reached(MergedInto(m, r), at) <==> Reached(m, at) || Reaches(r, at)
  {
    var m' := MergedInto(m, r);
    if k :| 0 <= k < |m| && Reaches(m[k], at) {
      assert Reaches(m'[k], at);
    }
    assert Reaches(r, at) ==> Reaches(m'[|m'| - 1], at);
    if k :| 0 <= k < |m'| && Reaches(m'[k], at) {
      assert k < |m| - 1 ==> Reaches(m[k], at);
      assert k == |m| - 1 ==> Reaches(m[k], at) || Reaches(r, at);
    }
  }

  /** Normalizing leaves snippets in order that neither overlap nor touch, cover the same bytes, and
      are what `from_range` makes of their ranges. */
  lemma NormalizedIsExact(snippets: seq<Snippet>, content: Bytes)
    requires AllFit(snippets, content)
    ensures var n := Normalized(snippets, content);
            && AllFit(n, content) && InOrder(n)
            && (forall i, j :: 0 <= i < j < |n| ==> n[i].range.end < n[j].range.start)
            && (forall i :: 0 <= i < |n| ==> n[i] == FromRange(n[i].range, content))
            && (forall at: nat :: ReachedBySome(n, at) <==> ReachedBySome(snippets, at))
            && (forall b: nat :: CoveredBySome(n, b) <==> CoveredBySome(snippets, b))
  {
    hide FromRange, Fits, Merged, ByStart, Remade, Reached, ReachedBySome, CoveredBySome, Separated;
    var sorted := ByStart(snippets);
    ByStartSorts(snippets);
    SameFit(sorted, snippets, content);
    MergedIsExact(sorted, content);
    RemadeAre(Merged(sorted), content);
    forall b: nat
      ensures ReachedBySome(sorted, b) <==> ReachedBySome(snippets, b)
    {
      SameReach(sorted, snippets, b);
    }
    forall b: nat
      ensures CoveredBySome(Normalized(snippets, content), b) <==> CoveredBySome(snippets, b)
    {
      BytesAreReached(Normalized(snippets, content), b);
      BytesAreReached(snippets, b);
    }
  }

  lemma RemadeAre(m: seq<Range>, content: Bytes)
    requires Separated(m) && forall i :: 0 <= i < |m| ==> Fits(content, m[i])
    ensures var n := Remade(m, content);
            && AllFit(n, content) && InOrder(n)
            && (forall i :: 0 <= i < |n| ==> n[i] == FromRange(n[i].range, content))
            && (forall i, j :: 0 <= i < j < |n| ==> n[i].range.end < n[j].range.start)
            && (forall b: nat :: ReachedBySome(n, b) <==> Reached(m, b))
  {
    hide FromRange, Fits;
    var n := Remade(m, content);
    forall i | 0 <= i < |n|
      ensures n[i].range == m[i] && n[i] == FromRange(m[i], content)
    {
      FromRangeFits(m[i], content);
    }
  }

  lemma SameFit(a: seq<Snippet>, b: seq<Snippet>, content: Bytes)
    requires AllFit(b, content) && forall x <- a :: x in b
    ensures AllFit(a, content)
  {
    forall i | 0 <= i < |a|
      ensures Fits(content, a[i].range)
    {
      assert a[i] in b;
    }
  }

  lemma SameReach(a: seq<Snippet>, b: seq<Snippet>, at: nat)
    requires forall x :: x in a <==> x in b
    ensures ReachedBySome(a, at) <==> ReachedBySome(b, at)
  {
    if k :| 0 <= k < |a| && Reaches(a[k].range, at) {
      assert a[k] in b;
    }
    if k :| 0 <= k < |b| && Reaches(b[k].range, at) {
      assert b[k] in a;
    }
  }

  lemma {:induction false} SeparatedStay(snippets: seq<Snippet>)
    requires forall i, j :: 0 <= i < j < |snippets| ==> snippets[i].range.end < snippets[j].range.start
    ensures Merged(snippets) == seq(|snippets|, i requires 0 <= i < |snippets| => snippets[i].range)
  {
    if snippets != [] {
      SeparatedStay(snippets[..|snippets| - 1]);
    }
  }

  /** Normalizing twice is normalizing once. */
  lemma NormalizedStays(snippets: seq<Snippet>, content: Bytes)
    requires AllFit(snippets, content)
    ensures Normalized(Normalized(snippets, content), content) == Normalized(snippets, content)
  {
    var n := Normalized(snippets, content);
    NormalizedIsExact(snippets, content);
    InOrderStays(n);
    SeparatedStay(n);
  }

  /** Only one list of separate ranges reaches given half steps. */
  lemma {:induction false} SeparatedIsUnique(a: seq<Range>, b: seq<Range>)
    requires Separated(a) && Separated(b)
    requires forall at: nat :: Reached(a, at) <==> Reached(b, at)
    ensures a == b
    decreases |a|
  {
    assert a != [] ==> Reaches(a[0], 2 * a[0].start) && Reached(a, 2 * a[0].start) && Reached(b, 2 * a[0].start);
    assert b != [] ==> Reaches(b[0], 2 * b[0].start) && Reached(b, 2 * b[0].start) && Reached(a, 2 * b[0].start);
    if a != [] && b != [] {
      assert a[0].start == b[0].start;
      assert a[0].end < b[0].end ==> Reaches(b[0], 2 * a[0].end + 1);
      assert b[0].end < a[0].end ==> Reaches(a[0], 2 * b[0].end + 1);
      assert !Reached(a, 2 * a[0].end + 1) && !Reached(b, 2 * b[0].end + 1);
      forall at: nat
        ensures Reached(a[1..], at) <==> Reached(b[1..], at)
      {
        ReachedLater(a, at);
        ReachedLater(b, at);
      }
      SeparatedIsUnique(a[1..], b[1..]);
    }
  }

  lemma ReachedLater(a: seq<Range>, at: nat)
    requires Separated(a) && a != []
    ensures Reached(a[1..], at) <==> Reached(a, at) && at > 2 * a[0].end
  {
    if k :| 0 <= k < |a[1..]| && Reaches(a[1..][k], at) {
      assert Reaches(a[k + 1], at);
    }
    if k :| 0 <= k < |a| && Reaches(a[k], at) {
      assert k > 0 ==> Reaches(a[1..][k - 1], at);
    }
  }

  /** The order in which snippets were picked does not matter. */
  lemma NormalizedIgnoresOrder(s: seq<Snippet>, t: seq<Snippet>, content: Bytes)
    requires AllFit(s, content) && forall x :: x in s <==> x in t
    ensures Normalized(s, content) == Normalized(t, content)
  {
    var a, b := ByStart(s), ByStart(t);
    ByStartSorts(s);
    ByStartSorts(t);
    SameFit(a, s, content);
    SameFit(b, s, content);
    MergedIsExact(a, content);
    MergedIsExact(b, content);
    forall at: nat
      ensures Reached(Merged(a), at) <==> Reached(Merged(b), at)
    {
      SameReach(a, b, at);
    }
    SeparatedIsUnique(Merged(a), Merged(b));
  }
}
