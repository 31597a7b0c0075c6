/** The undo history of a text field (src/input.rs:291-494), and the simple history it stands for:
    the moments an undo can go back to and those a redo can go forward to. */
module UndoHistory {
  import opened Options
  import opened Splices
  import opened Utf8

  /** In milliseconds. */
  const UNDO_GROUP_INTERVAL: nat := 300
  const UNDO_HISTORY_CAP: nat := 1000

  /** The text at `start` was `removed` and is now `inserted`. */
  datatype EditRecord = EditRecord(
    start: nat, removed: Bytes, inserted: Bytes,
    selectionBefore: Range, reversedBefore: bool,
    editedAt: nat, isSealed: bool, composing: bool)

  datatype History = History(undo: seq<EditRecord>, redo: seq<EditRecord>)

  /** What a field shows: its content and its selection. */
  datatype Moment = Moment(content: Bytes, selection: Range, reversed: bool)

  function Top<T>(s: seq<T>): T
    requires s != []
  {
    s[|s| - 1]
  }

  function Below<T>(s: seq<T>): seq<T>
    requires s != []
  {
    s[..|s| - 1]
  }

  // ---- The operations ----

  /** `Instant::duration_since`, which is zero for an instant in the future. */
  function Elapsed(now: nat, since: nat): nat {
    if now < since then 0 else now - since
  }

  /** The newest step grown by `edit`, where the two read as one gesture. */
  function Coalesced(last: EditRecord, edit: Edit, now: nat): Option<EditRecord> {
    if last.isSealed || last.composing || Elapsed(now, last.editedAt) >= UNDO_GROUP_INTERVAL then None
    else if edit.removed == [] && last.inserted != [] && edit.start == last.start + |last.inserted| then
      Some(last.(inserted := last.inserted + edit.inserted, editedAt := now))
    else if edit.inserted == [] && last.inserted == [] && last.removed != [] then
      if edit.start + |edit.removed| == last.start then
        Some(last.(start := edit.start, removed := edit.removed + last.removed, editedAt := now))
      else if edit.start == last.start then
        Some(last.(removed := last.removed + edit.removed, editedAt := now))
      else None
    else None
  }

  function Capped<T>(steps: seq<T>): seq<T> {
    if |steps| > UNDO_HISTORY_CAP then steps[|steps| - UNDO_HISTORY_CAP..] else steps
  }

  function Recorded(h: History, edit: Edit, selection: Range, reversed: bool, now: nat): History {
    if edit.removed == [] && edit.inserted == [] then h
    else if h.undo != [] && Coalesced(Top(h.undo), edit, now).Some? then
      History(Below(h.undo) + [Coalesced(Top(h.undo), edit, now).value], [])
    else
      var record := EditRecord(edit.start, edit.removed, edit.inserted, selection, reversed, now, false, false);
      History(Capped(h.undo + [record]), [])
  }

  function Amended(last: EditRecord, range: Range, text: Bytes, now: nat): EditRecord
    requires last.start <= range.start <= range.end <= last.start + |last.inserted|
  {
    var inner := Range(range.start - last.start, range.end - last.start);
    last.(inserted := Splice(last.inserted, inner, text), editedAt := now)
  }

  function Closed(undo: seq<EditRecord>): seq<EditRecord> {
    if undo != [] && Top(undo).composing then Below(undo) + [Top(undo).(composing := false, isSealed := true)] else undo
  }

  function RecordedComposition(
    h: History, content: Bytes, range: Range, text: Bytes, selection: Range, reversed: bool, now: nat)
    : History
    requires range.start <= range.end <= |content|
  {
    if h.undo != [] && Top(h.undo).composing
       && Top(h.undo).start <= range.start && range.end <= Top(h.undo).start + |Top(h.undo).inserted| then
      History(Below(h.undo) + [Amended(Top(h.undo), range, text, now)], [])
    else
      var removed := content[range.start..range.end];
      var record := EditRecord(range.start, removed, text, selection, reversed, now, false, true);
      History(Capped(Closed(h.undo) + [record]), [])
  }

  function Finalized(h: History): History {
    if h.undo != [] && Top(h.undo).composing then
      if Top(h.undo).removed == Top(h.undo).inserted then h.(undo := Below(h.undo)) else h.(undo := Closed(h.undo))
    else h
  }

  function Sealed(h: History): History {
    if h.undo == [] then h else h.(undo := Below(h.undo) + [Top(h.undo).(isSealed := true)])
  }

  /** `content.get(start..start + |text|) == Some(text)`. */
  predicate Holds(content: Bytes, start: nat, text: Bytes) {
    && start + |text| <= |content|
    && Fits(content, Range(start, start + |text|))
    && content[start..start + |text|] == text
  }

  function Clamped(range: Range, limit: nat): Range {
    Range(Least(range.start, limit), Least(range.end, limit))
  }

  function Undone(h: History, content: Bytes): (History, Option<Moment>) {
    if h.undo == [] then (h, None)
    else
      var record := Top(h.undo);
      if !Holds(content, record.start, record.inserted) then (History([], []), None)
      else
        var restored := Before(content, record);
        (History(Below(h.undo), h.redo + [record]),
         Some(Moment(restored, Clamped(record.selectionBefore, |restored|), record.reversedBefore)))
  }

  function Redone(h: History, content: Bytes): (History, Option<Moment>) {
    if h.redo == [] then (h, None)
    else
      var record := Top(h.redo);
      if !Holds(content, record.start, record.removed) then (History([], []), None)
      else
        var caret := record.start + |record.inserted|;
        (History(h.undo + [record], Below(h.redo)),
         Some(Moment(After(content, record), Range(caret, caret), false)))
  }

  // ---- What a history stands for ----

  /** The content before and after a step; the content itself where the step cannot apply. */
  function Before(content: Bytes, record: EditRecord): Bytes {
    if record.start + |record.inserted| <= |content| then
      Splice(content, Range(record.start, record.start + |record.inserted|), record.removed)
    else content
  }

  function After(content: Bytes, record: EditRecord): Bytes {
    if record.start + |record.removed| <= |content| then
      Splice(content, Range(record.start, record.start + |record.removed|), record.inserted)
    else content
  }

  /** The moments that undoing restores, oldest first. */
  function Past(content: Bytes, undo: seq<EditRecord>): (past: seq<Moment>)
    ensures |past| == |undo|
    decreases |undo|
  {
    if undo == [] then []
    else
      var record, content' := Top(undo), Before(content, Top(undo));
      Past(content', Below(undo)) + [Moment(content', record.selectionBefore, record.reversedBefore)]
  }

  /** The moments that were undone, each with the selection its step would restore; next redo last. */
  function Ahead(content: Bytes, redo: seq<EditRecord>): (ahead: seq<Moment>)
    ensures |ahead| == |redo|
    decreases |redo|
  {
    if redo == [] then []
    else
      var record := Top(redo);
      Ahead(After(content, record), Below(redo)) + [Moment(content, record.selectionBefore, record.reversedBefore)]
  }

  /** The newest step describes `content`, the next one the content it restores, and so on. */
  ghost predicate UndoChain(content: Bytes, undo: seq<EditRecord>)
    decreases |undo|
  {
    undo == [] ||
    var record := Top(undo);
    && Holds(content, record.start, record.inserted) && Valid(record.removed)
    && Fits(Before(content, record), record.selectionBefore)
    && UndoChain(Before(content, record), Below(undo))
  }

  ghost predicate RedoChain(content: Bytes, redo: seq<EditRecord>)
    decreases |redo|
  {
    redo == [] ||
    var record := Top(redo);
    && Holds(content, record.start, record.removed) && Valid(record.inserted)
    && Fits(content, record.selectionBefore)
    && RedoChain(After(content, record), Below(redo))
  }

  ghost predicate Consistent(h: History, content: Bytes) {
    && Valid(content)
    && UndoChain(content, h.undo) && RedoChain(content, h.redo)
    && |h.undo| + |h.redo| <= UNDO_HISTORY_CAP
  }

  // ---- Splices of splices ----

  /** A splice is undone by splicing back. */
  lemma SpliceBack<T>(c: seq<T>, i: nat, j: nat, t: seq<T>)
    requires i <= j <= |c|
    ensures var c' := c[..i] + t + c[j..];
            c'[i..i + |t|] == t && c'[..i] + c[i..j] + c'[i + |t|..] == c
  {
    var c' := c[..i] + t + c[j..];
    assert c'[..i] == c[..i] && c'[i + |t|..] == c[j..];
  }

  /** A splice inside the text that a step inserted changes what the step inserted and not what it
      replaced. */
  lemma SpliceWithin<T>(c: seq<T>, s: nat, n: nat, i: nat, j: nat, t: seq<T>)
    requires s <= i <= j <= s + n <= |c|
    ensures var c' := c[..i] + t + c[j..];
            var n' := n - (j - i) + |t|;
            && c'[s..s + n'] == c[s..s + n][..i - s] + t + c[s..s + n][j - s..]
            && c'[..s] == c[..s] && c'[s + n'..] == c[s + n..]
  {
    var c' := c[..i] + t + c[j..];
    assert c[..i] == c[..s] + c[s..s + n][..i - s];
    assert c[j..] == c[s..s + n][j - s..] + c[s + n..];
    assert c' == c[..s] + (c[s..s + n][..i - s] + t + c[s..s + n][j - s..]) + c[s + n..];
  }

  // ---- How the operations move through the moments ----

  lemma TopOfPushed<T>(s: seq<T>, x: T)
    ensures Top(s + [x]) == x && Below(s + [x]) == s
  {}

  lemma TopAndBelow<T>(s: seq<T>)
    requires s != []
    ensures Below(s) + [Top(s)] == s
  {}

  /** A step pushed on top of a chain: the content it replaced is a new moment to go back to. */
  lemma PushStep(content: Bytes, undo: seq<EditRecord>, content': Bytes, record: EditRecord)
    requires UndoChain(content, undo) && Before(content', record) == content
    requires Holds(content', record.start, record.inserted) && Valid(record.removed)
    requires Fits(content, record.selectionBefore)
    ensures UndoChain(content', undo + [record])
    ensures Past(content', undo + [record])
            == Past(content, undo) + [Moment(content, record.selectionBefore, record.reversedBefore)]
  {
    TopOfPushed(undo, record);
  }

  /** A step that grew in place still goes back to where it began. */
  lemma GrowStep(content: Bytes, undo: seq<EditRecord>, content': Bytes, record: EditRecord)
    requires undo != [] && UndoChain(content, undo)
    requires Before(content', record) == Before(content, Top(undo))
    requires Holds(content', record.start, record.inserted) && Valid(record.removed)
    requires record.selectionBefore == Top(undo).selectionBefore && record.reversedBefore == Top(undo).reversedBefore
    ensures UndoChain(content', Below(undo) + [record])
    ensures Past(content', Below(undo) + [record]) == Past(content, undo)
  {
    PushStep(Before(content, Top(undo)), Below(undo), content', record);
  }

  /** Forgetting the oldest steps forgets the oldest moments. */
  lemma {:induction false} ForgetOldest(content: Bytes, undo: seq<EditRecord>, k: nat)
    requires UndoChain(content, undo) && k <= |undo|
    ensures UndoChain(content, undo[k..]) && Past(content, undo[k..]) == Past(content, undo)[k..]
    decreases |undo|
  {
    hide Before, Holds, Fits, Valid;
    if k < |undo| {
      ForgetOldest(Before(content, Top(undo)), Below(undo), k);
      assert Below(undo[k..]) == Below(undo)[k..];
    }
  }

  lemma CapHolds<T>(steps: seq<T>)
    ensures |Capped(steps)| <= UNDO_HISTORY_CAP && |Capped(steps)| <= |steps|
    ensures Capped(steps) == steps[|steps| - |Capped(steps)|..]
  {}

  lemma CappedChain(content: Bytes, undo: seq<EditRecord>)
    requires UndoChain(content, undo)
    ensures UndoChain(content, Capped(undo)) && Past(content, Capped(undo)) == Capped(Past(content, undo))
  {
    hide Past, UndoChain;
    if |undo| > UNDO_HISTORY_CAP {
      ForgetOldest(content, undo, |undo| - UNDO_HISTORY_CAP);
    }
  }

  /** Flags do not matter to what a step describes. */
  lemma ReflagTop(content: Bytes, undo: seq<EditRecord>, isSealed: bool, composing: bool)
    requires undo != [] && UndoChain(content, undo)
    ensures var undo' := Below(undo) + [Top(undo).(isSealed := isSealed, composing := composing)];
            UndoChain(content, undo') && Past(content, undo') == Past(content, undo)
  {
    GrowStep(content, undo, content, Top(undo).(isSealed := isSealed, composing := composing));
  }

  // ---- Recording ----

  /** What the field's content becomes when `edit` is applied. */
  function Applied(content: Bytes, edit: Edit): Bytes
    requires edit.start + |edit.removed| <= |content|
  {
    Splice(content, Range(edit.start, edit.start + |edit.removed|), edit.inserted)
  }

  /** A fresh step for an applied edit describes the new content and goes back to the old. */
  lemma FreshStep(content: Bytes, record: EditRecord)
    requires Valid(content) && Holds(content, record.start, record.removed) && Valid(record.inserted)
    ensures Valid(record.removed) && Valid(After(content, record))
    ensures Holds(After(content, record), record.start, record.inserted)
    ensures Before(After(content, record), record) == content
  {
    hide Valid, IsBoundary, Before, Splice;
    var range := Range(record.start, record.start + |record.removed|);
    SliceIsValid(content, range);
    SpliceKeepsUtf8(content, range, record.inserted);
    BeforeUndoesAfter(content, record);
  }

  lemma BeforeUndoesAfter(content: Bytes, record: EditRecord)
    requires record.start + |record.removed| <= |content|
    requires content[record.start..record.start + |record.removed|] == record.removed
    ensures var content' := After(content, record);
            && record.start + |record.inserted| <= |content'|
            && content'[record.start..record.start + |record.inserted|] == record.inserted
            && Before(content', record) == content
  {
    SpliceBack(content, record.start, record.start + |record.removed|, record.inserted);
  }

  lemma AfterUndoesBefore(content: Bytes, record: EditRecord)
    requires record.start + |record.inserted| <= |content|
    requires content[record.start..record.start + |record.inserted|] == record.inserted
    ensures var content' := Before(content, record);
            && record.start + |record.removed| <= |content'|
            && content'[record.start..record.start + |record.removed|] == record.removed
            && After(content', record) == content
  {
    SpliceBack(content, record.start, record.start + |record.inserted|, record.removed);
  }

  /** Text spliced into what the newest step inserted. */
  lemma AmendedStep(content: Bytes, last: EditRecord, range: Range, text: Bytes, now: nat)
    requires Valid(content) && Holds(content, last.start, last.inserted)
    requires last.start <= range.start <= range.end <= last.start + |last.inserted|
    requires Fits(content, range) && Valid(text)
    ensures var content' := Splice(content, range, text);
            var last' := Amended(last, range, text, now);
            Holds(content', last'.start, last'.inserted) && Before(content', last') == Before(content, last)
  {
    hide IsBoundary, Splice, Before;
    AmendedContent(content, last, range, text, now);
    AmendedBoundaries(content, last, range, text);
  }

  lemma AmendedContent(content: Bytes, last: EditRecord, range: Range, text: Bytes, now: nat)
    requires last.start <= range.start <= range.end <= last.start + |last.inserted| <= |content|
    requires content[last.start..last.start + |last.inserted|] == last.inserted
    ensures var content' := Splice(content, range, text);
            var last' := Amended(last, range, text, now);
            && |last'.inserted| == |last.inserted| - (range.end - range.start) + |text|
            && last.start + |last'.inserted| <= |content'|
            && content'[last.start..last.start + |last'.inserted|] == last'.inserted
            && Before(content', last') == Before(content, last)
  {
    SpliceWithin(content, last.start, |last.inserted|, range.start, range.end, text);
  }

  lemma AmendedBoundaries(content: Bytes, last: EditRecord, range: Range, text: Bytes)
    requires Valid(content) && Holds(content, last.start, last.inserted)
    requires last.start <= range.start <= range.end <= last.start + |last.inserted|
    requires Fits(content, range) && Valid(text)
    ensures var content' := Splice(content, range, text);
            Fits(content', Range(last.start, last.start + |last.inserted| - (range.end - range.start) + |text|))
  {
    hide Valid;
    SpliceKeepsBoundaryBefore(content, range, text, last.start);
    SpliceKeepsBoundaryAfter(content, range, text, last.start + |last.inserted|);
  }

  lemma SpliceKeepsBoundaryBefore(content: Bytes, range: Range, text: Bytes, i: nat)
    requires Valid(content) && Fits(content, range) && Valid(text)
    requires i <= range.start && IsBoundary(content, i)
    ensures IsBoundary(Splice(content, range, text), i)
  {
    SpliceKeepsUtf8(content, range, text);
    if i < range.start {
      assert Splice(content, range, text)[i] == content[i];
    }
  }

  lemma SpliceKeepsBoundaryAfter(content: Bytes, range: Range, text: Bytes, i: nat)
    requires Valid(content) && Fits(content, range) && Valid(text)
    requires range.end <= i <= |content| && IsBoundary(content, i)
    ensures IsBoundary(Splice(content, range, text), i - range.end + range.start + |text|)
  {
    SpliceKeepsUtf8(content, range, text);
    if range.end < i < |content| {
      assert Splice(content, range, text)[i - range.end + range.start + |text|] == content[i];
    }
  }

  /** `last'` describes the content that `edit` leaves, and goes back to where `last` went. */
  ghost predicate Continues(content: Bytes, last: EditRecord, edit: Edit, last': EditRecord) {
    && edit.start + |edit.removed| <= |content|
    && Holds(Applied(content, edit), last'.start, last'.inserted) && Valid(last'.removed)
    && Before(Applied(content, edit), last') == Before(content, last)
  }

  /** Each of the three ways an edit joins the newest step continues it. */
  lemma CoalescedStep(content: Bytes, last: EditRecord, edit: Edit, now: nat)
    requires Valid(content) && Holds(content, last.start, last.inserted) && Valid(last.removed)
    requires Holds(content, edit.start, edit.removed) && Valid(edit.inserted)
    requires Coalesced(last, edit, now).Some?
    ensures Continues(content, last, edit, Coalesced(last, edit, now).value)
  {
    hide Holds, Valid, Continues;
    if edit.removed == [] && last.inserted != [] {
      TypedStep(content, last, edit, now);
    } else if edit.start + |edit.removed| == last.start {
      BackspacedStep(content, last, edit, now);
    } else {
      ForwardDeletedStep(content, last, edit, now);
    }
  }

  lemma TypedStep(content: Bytes, last: EditRecord, edit: Edit, now: nat)
    requires Valid(content) && Holds(content, last.start, last.inserted) && Valid(last.removed)
    requires Holds(content, edit.start, edit.removed) && Valid(edit.inserted)
    requires edit.removed == [] && edit.start == last.start + |last.inserted|
    ensures Continues(content, last, edit, last.(inserted := last.inserted + edit.inserted, editedAt := now))
  {
    hide Valid, IsBoundary, Before;
    AmendedStep(content, last, Range(edit.start, edit.start), edit.inserted, now);
    AppendedAtEnd(last.inserted, edit.inserted);
  }

  lemma BackspacedStep(content: Bytes, last: EditRecord, edit: Edit, now: nat)
    requires Valid(content) && Holds(content, last.start, last.inserted) && Valid(last.removed)
    requires Holds(content, edit.start, edit.removed) && edit.inserted == last.inserted == []
    requires edit.start + |edit.removed| == last.start
    ensures Continues(
              content, last, edit, last.(start := edit.start, removed := edit.removed + last.removed, editedAt := now))
  {
    hide Valid, IsBoundary, Before, Applied;
    DeletionKeepsUtf8(content, edit);
    Concat(edit.removed, last.removed);
    BackspacedBefore(content, last, edit, now);
  }

  lemma BackspacedBefore(content: Bytes, last: EditRecord, edit: Edit, now: nat)
    requires edit.start + |edit.removed| <= |content| && edit.inserted == last.inserted == []
    requires content[edit.start..edit.start + |edit.removed|] == edit.removed
    requires edit.start + |edit.removed| == last.start
    ensures var last' := last.(start := edit.start, removed := edit.removed + last.removed, editedAt := now);
            Before(Applied(content, edit), last') == Before(content, last)
  {
    BackspacedContent(content, edit.start, edit.removed, last.removed);
  }

  lemma ForwardDeletedStep(content: Bytes, last: EditRecord, edit: Edit, now: nat)
    requires Valid(content) && Holds(content, last.start, last.inserted) && Valid(last.removed)
    requires Holds(content, edit.start, edit.removed) && edit.inserted == last.inserted == []
    requires edit.start == last.start
    ensures Continues(content, last, edit, last.(removed := last.removed + edit.removed, editedAt := now))
  {
    hide Valid, IsBoundary, Before, Applied;
    DeletionKeepsUtf8(content, edit);
    Concat(last.removed, edit.removed);
    ForwardDeletedBefore(content, last, edit, now);
  }

  lemma ForwardDeletedBefore(content: Bytes, last: EditRecord, edit: Edit, now: nat)
    requires edit.start + |edit.removed| <= |content| && edit.inserted == last.inserted == []
    requires content[edit.start..edit.start + |edit.removed|] == edit.removed && edit.start == last.start
    ensures Before(Applied(content, edit), last.(removed := last.removed + edit.removed, editedAt := now))
         == Before(content, last)
  {
    ForwardDeletedContent(content, edit.start, edit.removed, last.removed);
  }

  lemma DeletionKeepsUtf8(content: Bytes, edit: Edit)
    requires Valid(content) && Holds(content, edit.start, edit.removed) && edit.inserted == []
    ensures Valid(edit.removed) && Holds(Applied(content, edit), edit.start, [])
  {
    hide Valid, IsBoundary;
    var range := Range(edit.start, edit.start + |edit.removed|);
    SliceIsValid(content, range);
    assert Valid([]) by { ValidEmpty(); }
    SpliceKeepsUtf8(content, range, []);
  }

  lemma ValidEmpty()
    ensures Valid([])
  {}

  lemma AppendedAtEnd(a: Bytes, t: Bytes)
    ensures Splice(a, Range(|a|, |a|), t) == a + t
  {}

  lemma BackspacedContent<T>(c: seq<T>, i: nat, d: seq<T>, o: seq<T>)
    requires i + |d| <= |c| && c[i..i + |d|] == d
    ensures var c' := c[..i] + [] + c[i + |d|..];
            c'[..i] + (d + o) + c'[i..] == c[..i + |d|] + o + c[i + |d|..]
  {
    assert c[..i + |d|] == c[..i] + c[i..i + |d|];
  }

  lemma ForwardDeletedContent<T>(c: seq<T>, i: nat, d: seq<T>, o: seq<T>)
    requires i + |d| <= |c| && c[i..i + |d|] == d
    ensures var c' := c[..i] + [] + c[i + |d|..];
            c'[..i] + (o + d) + c'[i..] == c[..i] + o + c[i..]
  {
    assert c[i..] == c[i..i + |d|] + c[i + |d|..];
  }

  // ---- The main results ----

  /** The range lies inside what a composing step that is still open inserted. */
  predicate Amends(h: History, range: Range) {
    && h.undo != [] && Top(h.undo).composing
    && Top(h.undo).start <= range.start <= range.end <= Top(h.undo).start + |Top(h.undo).inserted|
  }

  /** The newest step can still grow: it is no composition, nothing sealed it, and it grew last less
      than the interval ago. */
  predicate CanGrow(last: EditRecord, now: nat) {
    !last.isSealed && !last.composing && now < last.editedAt + UNDO_GROUP_INTERVAL
  }

  /** Text inserted where the text that the step inserted ends. */
  predicate TypesOn(last: EditRecord, edit: Edit) {
    edit.removed == [] && last.inserted != [] && edit.start == last.start + |last.inserted|
  }

  /** A deletion that ends, or starts, where a deletion starts. */
  predicate DeletesOn(last: EditRecord, edit: Edit) {
    && edit.inserted == [] && last.inserted == [] && last.removed != []
    && (edit.start + |edit.removed| == last.start || edit.start == last.start)
  }

  /** The edit continues the gesture of the newest step. */
  predicate Joins(h: History, edit: Edit, now: nat) {
    && h.undo != [] && CanGrow(Top(h.undo), now)
    && (TypesOn(Top(h.undo), edit) || DeletesOn(Top(h.undo), edit))
  }

  lemma CoalescesIff(last: EditRecord, edit: Edit, now: nat)
    ensures Coalesced(last, edit, now).Some? <==> CanGrow(last, now) && (TypesOn(last, edit) || DeletesOn(last, edit))
    ensures Coalesced(last, edit, now).Some? ==>
              var grown := Coalesced(last, edit, now).value;
              grown.selectionBefore == last.selectionBefore && grown.reversedBefore == last.reversedBefore
  {}

  /** Recording a splice is saving a snapshot, unless the splice changes nothing or continues the
      newest gesture: then the moments to go back to stay as they are. */
  lemma RecordSavesSnapshot(
    h: History, content: Bytes, range: Range, text: Bytes, selection: Range, reversed: bool, now: nat)
    requires Consistent(h, content) && Fits(content, range) && Valid(text) && Fits(content, selection)
    ensures var edit := Trimmed(content, range, text);
            var h', content' := Recorded(h, edit, selection, reversed, now), Splice(content, range, text);
            && Consistent(h', content')
            && (content[range.start..range.end] == text ==> h' == h && content' == content)
            && (content[range.start..range.end] != text ==>
                  && h'.redo == []
                  && Past(content', h'.undo) ==
                     if Joins(h, edit, now) then Past(content, h.undo)
                     else Capped(Past(content, h.undo) + [Moment(content, selection, reversed)]))
  {
    hide Valid, IsBoundary, Coalesced, UndoChain, RedoChain, Past, Trimmed;
    var edit := Trimmed(content, range, text);
    TrimmedIsSameEdit(content, range, text);
    TrimmedIsEmptyIffUnchanged(content, range, text);
    SpliceKeepsUtf8(content, range, text);
    if h.undo != [] {
      CoalescesIff(Top(h.undo), edit, now);
    }
    if edit.removed == [] && edit.inserted == [] {
      SpliceOfItself(content, range);
    } else if Joins(h, edit, now) {
      RecordJoins(h, content, edit, now);
    } else {
      RecordPushes(h, content, edit, selection, reversed, now);
    }
  }

  lemma SpliceOfItself(content: Bytes, range: Range)
    requires range.start <= range.end <= |content|
    ensures Splice(content, range, content[range.start..range.end]) == content
  {}

  lemma RecordJoins(h: History, content: Bytes, edit: Edit, now: nat)
    requires Consistent(h, content) && AppliesTo(content, edit) && Valid(edit.inserted)
    requires Joins(h, edit, now)
    ensures Coalesced(Top(h.undo), edit, now).Some?
    ensures var undo' := Below(h.undo) + [Coalesced(Top(h.undo), edit, now).value];
            && UndoChain(Applied(content, edit), undo') && |undo'| == |h.undo|
            && RedoChain(Applied(content, edit), [])
            && Past(Applied(content, edit), undo') == Past(content, h.undo)
  {
    hide Valid, IsBoundary, Past, Before, Coalesced;
    CoalescesIff(Top(h.undo), edit, now);
    CoalescedStep(content, Top(h.undo), edit, now);
    GrowStep(content, h.undo, Applied(content, edit), Coalesced(Top(h.undo), edit, now).value);
  }

  lemma RecordPushes(h: History, content: Bytes, edit: Edit, selection: Range, reversed: bool, now: nat)
    requires Consistent(h, content) && AppliesTo(content, edit) && Valid(edit.inserted) && Fits(content, selection)
    ensures var record := EditRecord(edit.start, edit.removed, edit.inserted, selection, reversed, now, false, false);
            var undo' := Capped(h.undo + [record]);
            && UndoChain(Applied(content, edit), undo') && |undo'| <= UNDO_HISTORY_CAP
            && RedoChain(Applied(content, edit), [])
            && Past(Applied(content, edit), undo')
               == Capped(Past(content, h.undo) + [Moment(content, selection, reversed)])
  {
    hide UndoChain, Past, Valid, IsBoundary, Before, Splice, Capped;
    var record := EditRecord(edit.start, edit.removed, edit.inserted, selection, reversed, now, false, false);
    PushFresh(content, h.undo, record);
    CapHolds(h.undo + [record]);
  }

  lemma PushFresh(content: Bytes, undo: seq<EditRecord>, record: EditRecord)
    requires Valid(content) && UndoChain(content, undo)
    requires Holds(content, record.start, record.removed) && Valid(record.inserted)
    requires Fits(content, record.selectionBefore)
    ensures UndoChain(After(content, record), Capped(undo + [record]))
    ensures Past(After(content, record), Capped(undo + [record]))
            == Capped(Past(content, undo) + [Moment(content, record.selectionBefore, record.reversedBefore)])
  {
    hide UndoChain, Past, Valid, IsBoundary, Before, After;
    FreshStep(content, record);
    PushStep(content, undo, After(content, record), record);
    CappedChain(After(content, record), undo + [record]);
  }

  /** A composition splice amends the open step where it lies inside it, and otherwise closes that
      step and saves a snapshot. Either way its text now lies inside the open step. */
  lemma CompositionSavesOneSnapshot(
    h: History, content: Bytes, range: Range, text: Bytes, selection: Range, reversed: bool, now: nat)
    requires Consistent(h, content) && Fits(content, range) && Valid(text) && Fits(content, selection)
    ensures var h' := RecordedComposition(h, content, range, text, selection, reversed, now);
            var content' := Splice(content, range, text);
            && Consistent(h', content') && h'.redo == []
            && Amends(h', Range(range.start, range.start + |text|))
            && Past(content', h'.undo) ==
               if Amends(h, range) then Past(content, h.undo)
               else Capped(Past(content, h.undo) + [Moment(content, selection, reversed)])
  {
    hide Valid, IsBoundary, UndoChain, Past, Splice, Before, Amended;
    SpliceKeepsUtf8(content, range, text);
    if Amends(h, range) {
      CompositionAmends(h, content, range, text, now);
    } else {
      CompositionPushes(h, content, range, text, selection, reversed, now);
    }
  }

  lemma CompositionPushes(
    h: History, content: Bytes, range: Range, text: Bytes, selection: Range, reversed: bool, now: nat)
    requires Consistent(h, content) && Fits(content, range) && Valid(text) && Fits(content, selection)
    ensures var removed := content[range.start..range.end];
            var record := EditRecord(range.start, removed, text, selection, reversed, now, false, true);
            var undo' := Capped(Closed(h.undo) + [record]);
            && UndoChain(Splice(content, range, text), undo') && 0 < |undo'| <= UNDO_HISTORY_CAP && Top(undo') == record
            && Past(Splice(content, range, text), undo')
               == Capped(Past(content, h.undo) + [Moment(content, selection, reversed)])
  {
    hide UndoChain, Past, Valid, IsBoundary, Before, Splice, Capped;
    var record := EditRecord(range.start, content[range.start..range.end], text, selection, reversed, now, false, true);
    if Closed(h.undo) != h.undo {
      ReflagTop(content, h.undo, true, false);
    }
    PushFresh(content, Closed(h.undo), record);
    CappedKeepsTop(Closed(h.undo), record);
  }

  lemma CappedKeepsTop<T>(steps: seq<T>, x: T)
    ensures 0 < |Capped(steps + [x])| <= UNDO_HISTORY_CAP && Top(Capped(steps + [x])) == x
  {}

  lemma CompositionAmends(h: History, content: Bytes, range: Range, text: Bytes, now: nat)
    requires Consistent(h, content) && Fits(content, range) && Valid(text) && Amends(h, range)
    ensures var undo' := Below(h.undo) + [Amended(Top(h.undo), range, text, now)];
            && UndoChain(Splice(content, range, text), undo') && |undo'| == |h.undo|
            && Amends(History(undo', []), Range(range.start, range.start + |text|))
            && Past(Splice(content, range, text), undo') == Past(content, h.undo)
  {
    hide Valid, IsBoundary, Past, Before, Splice;
    AmendedStep(content, Top(h.undo), range, text, now);
    AmendedContent(content, Top(h.undo), range, text, now);
    GrowStep(content, h.undo, Splice(content, range, text), Amended(Top(h.undo), range, text, now));
  }

  /** A step changes something exactly when it replaced its text by another. */
  lemma NoOpIff(content: Bytes, record: EditRecord)
    requires record.start + |record.inserted| <= |content|
    requires content[record.start..record.start + |record.inserted|] == record.inserted
    ensures record.removed == record.inserted <==> Before(content, record) == content
  {
    var before := Before(content, record);
    assert before[record.start..record.start + |record.removed|] == record.removed;
    assert |before| == |content| - |record.inserted| + |record.removed|;
    SpliceOfItself(content, Range(record.start, record.start + |record.inserted|));
  }

  /** The newest step is open and its moment shows what is there now. */
  predicate IsIdle(h: History, content: Bytes) {
    h.undo != [] && Top(h.undo).composing && Top(Past(content, h.undo)).content == content
  }

  /** Closing a composition forgets its moment exactly when that moment shows what is there now; nothing
      joins a step that is closed. */
  lemma FinalizeForgetsOnlyNoOps(h: History, content: Bytes)
    requires Consistent(h, content)
    ensures var h' := Finalized(h);
            && Consistent(h', content) && h'.redo == h.redo
            && (h'.undo != [] ==> !Top(h'.undo).composing || h' == h.(undo := Below(h.undo)))
            && Past(content, h'.undo)
               == (if IsIdle(h, content) then Below(Past(content, h.undo)) else Past(content, h.undo))
            && (h.undo != [] && Top(h.undo).composing && !IsIdle(h, content) ==>
                  forall edit, now :: !Joins(h', edit, now))
  {
    if h.undo != [] && Top(h.undo).composing {
      NoOpIff(content, Top(h.undo));
      if Top(h.undo).removed != Top(h.undo).inserted {
        ReflagTop(content, h.undo, true, false);
      }
    }
  }

  lemma SealKeepsMoments(h: History, content: Bytes)
    requires Consistent(h, content)
    ensures Consistent(Sealed(h), content) && Sealed(h).redo == h.redo
    ensures Past(content, Sealed(h).undo) == Past(content, h.undo)
    ensures forall edit, now :: !Joins(Sealed(h), edit, now)
  {
    if h.undo != [] {
      ReflagTop(content, h.undo, true, Top(h.undo).composing);
    }
  }

  /** Undo goes back to the newest moment exactly: the clamps on its selection change nothing and
      the history is never found corrupt. The moment is where the next redo starts from. */
  lemma UndoRestoresNewestMoment(h: History, content: Bytes)
    requires Consistent(h, content)
    ensures var (h', shown) := Undone(h, content);
            && (h.undo == [] ==> h' == h && shown == None)
            && (h.undo != [] ==>
                  && shown == Some(Top(Past(content, h.undo)))
                  && Consistent(h', shown.value.content) && Fits(shown.value.content, shown.value.selection)
                  && Past(shown.value.content, h'.undo) == Below(Past(content, h.undo))
                  && Ahead(shown.value.content, h'.redo) == Ahead(content, h.redo) + [shown.value])
  {
    if h.undo != [] {
      var record := Top(h.undo);
      StepBack(content, record);
      TopOfPushed(h.redo, record);
    }
  }

  /** Going back over a step leaves a content that the step can be redone on. */
  lemma StepBack(content: Bytes, record: EditRecord)
    requires Valid(content) && Holds(content, record.start, record.inserted) && Valid(record.removed)
    ensures Valid(record.inserted) && Valid(Before(content, record))
    ensures Holds(Before(content, record), record.start, record.removed)
    ensures After(Before(content, record), record) == content
  {
    hide Valid, IsBoundary, After, Splice;
    var range := Range(record.start, record.start + |record.inserted|);
    SliceIsValid(content, range);
    SpliceKeepsUtf8(content, range, record.removed);
    AfterUndoesBefore(content, record);
  }

  predicate IsCaret(m: Moment, offset: nat) {
    m.selection == Range(offset, offset) && !m.reversed
  }

  /** Redo reverses the newest undo: it starts from the moment that undo went back to, makes it a
      moment to go back to again, and puts the caret after the text it inserts. */
  lemma RedoReturns(h: History, content: Bytes)
    requires Consistent(h, content)
    ensures var (h', shown) := Redone(h, content);
            && (h.redo == [] ==> h' == h && shown == None)
            && (h.redo != [] ==>
                  && shown.Some? && Top(Ahead(content, h.redo)).content == content
                  && Consistent(h', shown.value.content) && Fits(shown.value.content, shown.value.selection)
                  && IsCaret(shown.value, Top(h.redo).start + |Top(h.redo).inserted|)
                  && Past(shown.value.content, h'.undo) == Past(content, h.undo) + [Top(Ahead(content, h.redo))]
                  && Ahead(shown.value.content, h'.redo) == Below(Ahead(content, h.redo)))
  {
    hide Valid, IsBoundary, Past, Before, After, UndoChain;
    if h.redo != [] {
      var record := Top(h.redo);
      FreshStep(content, record);
      PushStep(content, h.undo, After(content, record), record);
    }
  }

  /** An undo followed by a redo leaves content and history as they were. */
  lemma RedoUndoesUndo(h: History, content: Bytes)
    requires Consistent(h, content) && h.undo != []
    ensures var (back, shown) := Undone(h, content);
            shown.Some? && Redone(back, shown.value.content).0 == h
            && Redone(back, shown.value.content).1.Some?
            && Redone(back, shown.value.content).1.value.content == content
            && IsCaret(Redone(back, shown.value.content).1.value, Top(h.undo).start + |Top(h.undo).inserted|)
  {
    var record := Top(h.undo);
    StepBack(content, record);
    TopOfPushed(h.redo, record);
    TopAndBelow(h.undo);
  }

  function UndoTimes(h: History, content: Bytes, k: nat): (History, Bytes)
    decreases k
  {
    if k == 0 then (h, content)
    else
      var (h', shown) := Undone(h, content);
      UndoTimes(h', if shown.Some? then shown.value.content else content, k - 1)
  }

  function RedoTimes(h: History, content: Bytes, k: nat): (History, Bytes)
    decreases k
  {
    if k == 0 then (h, content)
    else
      var (h', content') := RedoTimes(h, content, k - 1);
      var (h'', shown) := Redone(h', content');
      (h'', if shown.Some? then shown.value.content else content')
  }

  /** k undos reach the content of the k-th newest moment, and k redos bring everything back. */
  lemma {:induction false} UndosThenRedos(h: History, content: Bytes, k: nat)
    requires Consistent(h, content) && k <= |h.undo|
    ensures var (back, content') := UndoTimes(h, content, k);
            && Consistent(back, content') && RedoTimes(back, content', k) == (h, content)
            && (k > 0 ==> content' == Past(content, h.undo)[|h.undo| - k].content)
    decreases k
  {
    hide Undone, Redone, Past, Consistent;
    if k > 0 {
      OneUndoThenRedo(h, content);
      var h', shown := Undone(h, content).0, Undone(h, content).1.value;
      assert UndoTimes(h, content, k) == UndoTimes(h', shown.content, k - 1);
      UndosThenRedos(h', shown.content, k - 1);
    }
  }

  lemma OneUndoThenRedo(h: History, content: Bytes)
    requires Consistent(h, content) && h.undo != []
    ensures var (h', shown) := Undone(h, content);
            && shown.Some? && Consistent(h', shown.value.content) && |h'.undo| == |h.undo| - 1
            && shown.value == Past(content, h.undo)[|h.undo| - 1]
            && Past(shown.value.content, h'.undo) == Past(content, h.undo)[..|h.undo| - 1]
            && Redone(h', shown.value.content).0 == h
            && Redone(h', shown.value.content).1.Some?
            && Redone(h', shown.value.content).1.value.content == content
  {
    hide Undone, Redone, Past, Consistent;
    UndoRestoresNewestMoment(h, content);
    RedoUndoesUndo(h, content);
  }

  // ---- The caret after a redo ----

  /** What replaced text and its replacement share at their ends beyond what they share at their
      starts. */
  function SharedEnd(a: Bytes, b: Bytes): nat {
    SharedSuffix(a, b, Least(|a|, |b|) - SharedPrefix(a, b, |a|))
  }

  /** The newest step ends before what the text of the edit shares at its end with the text it
      replaced. */
  lemma RecordedCaret(
    h: History, content: Bytes, range: Range, text: Bytes, selection: Range, reversed: bool, now: nat)
    requires Consistent(h, content) && Fits(content, range) && Valid(text)
    requires content[range.start..range.end] != text
    ensures var recorded := Recorded(h, Trimmed(content, range, text), selection, reversed, now);
            var end := SharedEnd(content[range.start..range.end], text);
            && recorded.undo != [] && end <= |text|
            && Top(recorded.undo).start + |Top(recorded.undo).inserted| == range.start + |text| - end
  {
    hide Valid, IsBoundary, Consistent, Trimmed, Recorded, SharedEnd;
    var edit := Trimmed(content, range, text);
    ConsistentIsValid(h, content);
    TrimmedIsEmptyIffUnchanged(content, range, text);
    RecordedEnd(h, edit, selection, reversed, now);
    TrimmedEnd(content, range, text);
  }

  lemma ConsistentIsValid(h: History, content: Bytes)
    requires Consistent(h, content)
    ensures Valid(content)
  {}

  /** The newest step ends where the edit did, whether it joined or not. */
  lemma RecordedEnd(h: History, edit: Edit, selection: Range, reversed: bool, now: nat)
    requires edit.removed != [] || edit.inserted != []
    ensures var h' := Recorded(h, edit, selection, reversed, now);
            && h'.undo != []
            && Top(h'.undo).start + |Top(h'.undo).inserted| == edit.start + |edit.inserted|
  {}

  lemma TrimmedEnd(content: Bytes, range: Range, text: Bytes)
    requires range.start <= range.end <= |content|
    ensures var edit := Trimmed(content, range, text);
            var end := SharedEnd(content[range.start..range.end], text);
            end <= |text| && edit.start + |edit.inserted| == range.start + |text| - end
  {}

  // ---- Runs of typing ----

  /** The newest step is typing that ends at `caret`, last added to at `since`. */
  predicate IsTyping(h: History, caret: nat, since: nat) {
    && h.undo != []
    && var last := Top(h.undo);
       && !last.isSealed && !last.composing && last.inserted != []
       && caret == last.start + |last.inserted| && since == last.editedAt
  }

  /** After a pause nothing joins. */
  lemma PauseSeparates(h: History, edit: Edit, now: nat)
    requires h.undo != [] && now >= Top(h.undo).editedAt + UNDO_GROUP_INTERVAL
    ensures !Joins(h, edit, now)
  {}

  /** Text typed in time at the end of typing joins it and can be joined in turn. */
  lemma KeystrokeJoins(h: History, caret: nat, since: nat, text: Bytes, selection: Range, reversed: bool, now: nat)
    requires IsTyping(h, caret, since) && text != [] && now < since + UNDO_GROUP_INTERVAL
    ensures Joins(h, Edit(caret, [], text), now)
    ensures IsTyping(Recorded(h, Edit(caret, [], text), selection, reversed, now), caret + |text|, now)
  {
    TopOfPushed(Below(h.undo), Coalesced(Top(h.undo), Edit(caret, [], text), now).value);
  }

  lemma InsertionIsNotTrimmed(content: Bytes, caret: nat, text: Bytes)
    requires caret <= |content|
    ensures Trimmed(content, Range(caret, caret), text) == Edit(caret, [], text)
  {
    assert content[caret..caret] == [];
    assert text[0..|text|] == text;
  }

  /** Text typed at a caret, and when. */
  datatype Keystroke = Keystroke(text: Bytes, selection: Range, reversed: bool, at: nat)

  /** Content and history after keystrokes at a caret that moves behind each. */
  function TypedOn(h: History, content: Bytes, caret: nat, keys: seq<Keystroke>): (History, Bytes)
    requires caret <= |content|
    decreases |keys|
  {
    if keys == [] then (h, content)
    else
      var key := keys[0];
      TypedOn(Recorded(h, Trimmed(content, Range(caret, caret), key.text), key.selection, key.reversed, key.at),
              Splice(content, Range(caret, caret), key.text), caret + |key.text|, keys[1..])
  }

  /** Each keystroke types something, with the selection in the content, soon after the one before. */
  ghost predicate IsSteady(content: Bytes, caret: nat, since: nat, keys: seq<Keystroke>)
    requires caret <= |content|
    decreases |keys|
  {
    keys == [] ||
    var key := keys[0];
    && key.text != [] && Valid(key.text) && Fits(content, Range(caret, caret)) && Fits(content, key.selection)
    && key.at < since + UNDO_GROUP_INTERVAL
    && IsSteady(Splice(content, Range(caret, caret), key.text), caret + |key.text|, key.at, keys[1..])
  }

  /** Steady typing, however long, adds nothing to go back to: it all undoes with the step it
      joined. */
  lemma {:induction false} SteadyTypingIsOneStep(
    h: History, content: Bytes, caret: nat, since: nat, keys: seq<Keystroke>)
    requires Consistent(h, content) && IsTyping(h, caret, since) && caret <= |content|
    requires IsSteady(content, caret, since, keys)
    ensures var (h', content') := TypedOn(h, content, caret, keys);
            Consistent(h', content') && Past(content', h'.undo) == Past(content, h.undo)
    decreases |keys|
  {
    hide Consistent, Past, Valid, Recorded, Joins, IsTyping, Trimmed;
    if keys != [] {
      var key := keys[0];
      InsertionIsNotTrimmed(content, caret, key.text);
      RecordSavesSnapshot(h, content, Range(caret, caret), key.text, key.selection, key.reversed, key.at);
      KeystrokeJoins(h, caret, since, key.text, key.selection, key.reversed, key.at);
      SteadyTypingIsOneStep(
        Recorded(h, Edit(caret, [], key.text), key.selection, key.reversed, key.at),
        Splice(content, Range(caret, caret), key.text), caret + |key.text|, key.at, keys[1..]);
    }
  }

  // ---- Runs of deleting ----

  /** The newest step is a deletion at `caret`, last added to at `since`. */
  predicate IsDeleting(h: History, caret: nat, since: nat) {
    && h.undo != []
    && var last := Top(h.undo);
       && !last.isSealed && !last.composing && last.inserted == [] && last.removed != []
       && caret == last.start && since == last.editedAt
  }

  lemma DeletionIsNotTrimmed(content: Bytes, range: Range)
    requires range.start <= range.end <= |content|
    ensures Trimmed(content, range, []) == Edit(range.start, content[range.start..range.end], [])
  {
    var a := content[range.start..range.end];
    assert a[0..|a|] == a;
  }

  /** A deletion that ends or starts where the newest step deletes, soon after, adds no moment and can
      be joined in turn. */
  lemma DeletionJoins(
    h: History, content: Bytes, caret: nat, since: nat, range: Range, selection: Range, reversed: bool, now: nat)
    requires Consistent(h, content) && IsDeleting(h, caret, since) && now < since + UNDO_GROUP_INTERVAL
    requires Fits(content, range) && range.start < range.end && (range.end == caret || range.start == caret)
    requires Fits(content, selection)
    ensures var h', content' := Recorded(h, Trimmed(content, range, []), selection, reversed, now),
                                Splice(content, range, []);
            && Consistent(h', content') && Past(content', h'.undo) == Past(content, h.undo)
            && IsDeleting(h', range.start, now)
  {
    hide Consistent, Past, Valid, IsBoundary, Trimmed;
    assert Valid([]) by { EmptyTextIsValid(); }
    DeletionIsNotTrimmed(content, range);
    RecordSavesSnapshot(h, content, range, [], selection, reversed, now);
    var edit := Edit(range.start, content[range.start..range.end], []);
    CoalescesIff(Top(h.undo), edit, now);
    TopOfPushed(Below(h.undo), Coalesced(Top(h.undo), edit, now).value);
  }

  lemma EmptyTextIsValid()
    ensures Valid([])
  {}

  /** A backspace or a forward delete of some bytes, and when. */
  datatype Deletion = Deletion(backwards: bool, length: nat, selection: Range, reversed: bool, at: nat)

  /** What a deletion at the caret takes out. */
  function Deleted(caret: nat, key: Deletion): Range {
    if !key.backwards then Range(caret, caret + key.length)
    else if key.length <= caret then Range(caret - key.length, caret)
    else Range(0, caret)
  }

  /** Each deletion takes out whole characters next to the caret, soon after the one before. */
  ghost predicate IsSteadyDeleting(content: Bytes, caret: nat, since: nat, keys: seq<Deletion>)
    decreases |keys|
  {
    keys == [] ||
    var key := keys[0];
    var range := Deleted(caret, key);
    && range.start < range.end && Fits(content, range) && Fits(content, key.selection)
    && key.at < since + UNDO_GROUP_INTERVAL
    && IsSteadyDeleting(Splice(content, range, []), range.start, key.at, keys[1..])
  }

  /** Content and history after deletions at a caret that stays at what is left. */
  ghost function DeletedOn(h: History, content: Bytes, caret: nat, since: nat, keys: seq<Deletion>): (History, Bytes)
    requires IsSteadyDeleting(content, caret, since, keys)
    decreases |keys|
  {
    if keys == [] then (h, content)
    else
      var key := keys[0];
      var range := Deleted(caret, key);
      DeletedOn(Recorded(h, Trimmed(content, range, []), key.selection, key.reversed, key.at),
                Splice(content, range, []), range.start, key.at, keys[1..])
  }

  /** Steady deleting, backwards, forwards or both in any order and however long, adds nothing to go
      back to: it all undoes with the step it joined. */
  lemma {:induction false} SteadyDeletingIsOneStep(
    h: History, content: Bytes, caret: nat, since: nat, keys: seq<Deletion>)
    requires Consistent(h, content) && IsDeleting(h, caret, since)
    requires IsSteadyDeleting(content, caret, since, keys)
    ensures var (h', content') := DeletedOn(h, content, caret, since, keys);
            Consistent(h', content') && Past(content', h'.undo) == Past(content, h.undo)
    decreases |keys|
  {
    hide Consistent, Past, Valid, IsBoundary, Recorded, Joins, IsDeleting, Trimmed;
    if keys != [] {
      var key := keys[0];
      var range := Deleted(caret, key);
      DeletionJoins(h, content, caret, since, range, key.selection, key.reversed, key.at);
      SteadyDeletingIsOneStep(
        Recorded(h, Trimmed(content, range, []), key.selection, key.reversed, key.at),
        Splice(content, range, []), range.start, key.at, keys[1..]);
    }
  }
}
