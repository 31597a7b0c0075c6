/** What each event does to a text field (src/input.rs:987-1014, 1059-1163, 1849-1889, 1891-1975,
    2006-2019, 2142-2237), and what holds of the field after every run of events. */
module TextFields {
  import opened Options
  import opened Sequences
  import opened Splices
  import opened UndoHistory
  import opened Utf16Offsets
  import opened Utf8

  datatype Field = Field(
    content: Bytes, selected: Range, reversed: bool, marked: Option<Range>,
    /** The word that a double click armed, while the button is held. */
    word: Option<Range>,
    readOnly: bool, history: History)

  const EMPTY_HISTORY := History([], [])

  function Now(f: Field): Moment {
    Moment(f.content, f.selected, f.reversed)
  }

  ghost predicate Inv(f: Field) {
    && Consistent(f.history, f.content)
    && Fits(f.content, f.selected)
    && (f.marked.Some? ==> Fits(f.content, f.marked.value) && Amends(f.history, f.marked.value))
  }

  // ---- Edits ----

  function Caret(offset: nat): Range {
    Range(offset, offset)
  }

  ghost function RecordedEdit(f: Field, range: Range, text: Bytes, composing: bool, now: nat): History
    requires range.start <= range.end <= |f.content|
  {
    if composing then RecordedComposition(f.history, f.content, range, text, f.selected, f.reversed, now)
    else Recorded(f.history, Trimmed(f.content, range, text), f.selected, f.reversed, now)
  }

  /** The autocompletion insert: byte offsets, refused unless they are character boundaries. */
  ghost function ReplaceRange(f: Field, given: Range, text: Bytes, now: nat): Field {
    var range := Clamped(given, |f.content|);
    if f.readOnly || !Fits(f.content, range) then f
    else
      f.(history := Sealed(RecordedEdit(f.(history := Sealed(f.history)), range, text, false, now)),
         content := Splice(f.content, range, text),
         selected := Caret(range.start + |text|), reversed := false, marked := None)
  }

  function SetContent(f: Field, content: Bytes): Field {
    f.(content := content, selected := Caret(|content|), reversed := false, marked := None,
       history := if f.content != content then EMPTY_HISTORY else f.history)
  }

  function Clear(f: Field): Field {
    f.(content := [], selected := Caret(0), reversed := false, marked := None,
       history := if f.content != [] then EMPTY_HISTORY else f.history)
  }

  /** Where typed text goes: over the marked text, else over the given range, else the selection. */
  function TypingTarget(f: Field, range16: Option<Range>): Range {
    if f.marked.Some? then f.marked.value
    else if range16.Some? then RangeFromUtf16(f.content, range16.value)
    else f.selected
  }

  ghost function ReplaceText(f: Field, range16: Option<Range>, text: Bytes, now: nat): Field
    requires f.readOnly || (TypingTarget(f, range16).start <= TypingTarget(f, range16).end <= |f.content|)
  {
    if f.readOnly then f
    else
      var range := TypingTarget(f, range16);
      var recorded := RecordedEdit(f, range, text, f.marked.Some?, now);
      f.(history := if f.marked.Some? then Finalized(recorded) else recorded,
         content := Splice(f.content, range, text),
         selected := Caret(range.start + |text|), marked := None)
  }

  function Clamp(offset: nat, range: Range): nat {
    if offset < range.start then range.start else Least(offset, range.end)
  }

  /** Where composed text goes: a range given while text is marked is relative to it and clipped. */
  function MarkingTarget(f: Field, range16: Option<Range>): Range {
    if range16.Some? && f.marked.Some? then
      var absolute := RangeFromRelativeUtf16(f.content, f.marked.value.start, range16.value);
      Range(Clamp(absolute.start, f.marked.value), Clamp(absolute.end, f.marked.value))
    else if range16.Some? then RangeFromUtf16(f.content, range16.value)
    else if f.marked.Some? then f.marked.value
    else f.selected
  }

  ghost function ReplaceAndMark(f: Field, range16: Option<Range>, text: Bytes, selection16: Option<Range>, now: nat)
    : Field
    requires f.readOnly || (MarkingTarget(f, range16).start <= MarkingTarget(f, range16).end <= |f.content|)
  {
    if f.readOnly then f
    else
      var range := MarkingTarget(f, range16);
      var recorded := RecordedEdit(f, range, text, true, now);
      var content := Splice(f.content, range, text);
      f.(history := if text == [] then Finalized(recorded) else recorded,
         content := content,
         marked := if text == [] then None else Some(Range(range.start, range.start + |text|)),
         selected := if selection16.Some? then RangeFromRelativeUtf16(content, range.start, selection16.value)
                     else Caret(range.start + |text|))
  }

  function Unmark(f: Field): Field {
    f.(marked := None, history := Finalized(f.history))
  }

  function ShowStep(f: Field, step: (History, Option<Moment>)): Field {
    if step.1.None? then f.(history := step.0)
    else f.(history := step.0, content := step.1.value.content, selected := step.1.value.selection,
            reversed := step.1.value.reversed, marked := None)
  }

  function Undo(f: Field): Field {
    if f.readOnly || f.marked.Some? then f else ShowStep(f, Undone(f.history, f.content))
  }

  function Redo(f: Field): Field {
    if f.readOnly || f.marked.Some? then f else ShowStep(f, Redone(f.history, f.content))
  }

  // ---- Selections ----

  function Select(f: Field, range: Range): Field {
    if Fits(f.content, range) then f.(selected := range, reversed := false) else f
  }

  /** Moves the live end of the selection, flipping it when the ends cross, and keeps an armed word
      selected. */
  function ExtendTo(f: Field, offset: nat): Field {
    var moved := if f.reversed then Range(offset, f.selected.end) else Range(f.selected.start, offset);
    var ordered := if moved.end < moved.start then Range(moved.end, moved.start) else moved;
    f.(reversed := if moved.end < moved.start then !f.reversed else f.reversed,
       selected := if f.word.None? then ordered
                   else Range(Least(ordered.start, f.word.value.start), Most(ordered.end, f.word.value.end)))
  }

  function Most(m: nat, n: nat): nat {
    if m < n then n else m
  }

  function SelectWord(f: Field, range: Range): Field {
    f.(selected := range, reversed := false, word := if range.start == range.end then None else Some(range))
  }

  function SelectAllByClick(f: Field): Field {
    f.(selected := Range(0, |f.content|), reversed := false, word := Some(Range(0, |f.content|)))
  }

  // ---- Events ----

  datatype Event =
    | EvReplaceRange(range: Range, text: Bytes, now: nat)
    | EvSetContent(content: Bytes)
    | EvClear
    | EvReplaceText(range16: Option<Range>, text: Bytes, now: nat)
    | EvReplaceAndMark(range16: Option<Range>, text: Bytes, selection16: Option<Range>, now: nat)
    | EvUnmark
    | EvUndo
    | EvRedo
    /** Focus, and the two ends of a cut or a paste. */
    | EvSeal
    | EvSelect(range: Range)
    | EvMoveTo(offset: nat)
    | EvExtendTo(offset: nat)
    /** A double click, a triple click, and the end of either. */
    | EvSelectWord(range: Range)
    | EvSelectAllByClick
    | EvRelease
    | EvSetReadOnly(readOnly: bool)

  predicate Ordered(range: Option<Range>) {
    range.Some? ==> range.value.start <= range.value.end
  }

  /** Where the armed word sticks out of a selection that is extended to `offset`, its ends are still
      character boundaries of the content. */
  predicate ArmedWordFits(f: Field, offset: nat) {
    var anchor := if f.reversed then f.selected.end else f.selected.start;
    f.word.Some? ==>
      && (f.word.value.start < Least(anchor, offset) ==> IsBoundary(f.content, f.word.value.start))
      && (Most(anchor, offset) < f.word.value.end ==>
            f.word.value.end <= |f.content| && IsBoundary(f.content, f.word.value.end))
  }

  /** What the environment owes the field: well-formed text, ordered ranges, offsets that the layout
      took from the current content; and, for the one event that can leave the text, that it does
      not. */
  ghost predicate Enabled(f: Field, e: Event) {
    match e
    case EvReplaceRange(_, text, _) => Valid(text)
    case EvSetContent(content) => Valid(content)
    case EvReplaceText(range16, text, _) => Valid(text) && Ordered(range16)
    case EvReplaceAndMark(range16, text, selection16, _) => Valid(text) && Ordered(range16) && Ordered(selection16)
    case EvMoveTo(offset) => Fits(f.content, Caret(offset))
    case EvExtendTo(offset) => Fits(f.content, Caret(offset)) && ArmedWordFits(f, offset)
    case EvSelectWord(range) => Fits(f.content, range)
    case _ => true
  }

  // ---- Every event keeps the invariant ----

  /** The moments that undos and redos go through, oldest first. */
  function Offered(content: Bytes, h: History): seq<Moment> {
    Past(content, h.undo) + Reversed(Ahead(content, h.redo))
  }

  function Timeline(f: Field): seq<Moment> {
    Offered(f.content, f.history)
  }

  /** `g` goes through moments of `f` in the same order and after them, if at all, what `f` shows. */
  ghost predicate KeepsOrder(f: Field, g: Field) {
    IsPart(Timeline(g), Timeline(f) + [Now(f)])
  }

  lemma SameTimeline(f: Field, g: Field)
    requires Timeline(g) == Timeline(f)
    ensures KeepsOrder(f, g)
  {
    PartOfItself(Timeline(f));
    PartOfLonger(Timeline(f), Timeline(f), [Now(f)]);
  }

  lemma TargetsFit(f: Field, range16: Option<Range>)
    requires Inv(f) && Ordered(range16)
    ensures Fits(f.content, TypingTarget(f, range16))
    ensures Fits(f.content, MarkingTarget(f, range16))
    ensures f.marked.Some? ==> Amends(f.history, MarkingTarget(f, range16))
  {
    if range16.Some? {
      RangeFromUtf16Fits(f.content, range16.value);
      if f.marked.Some? {
        RelativeRangeStartsAtBase(f.content, f.marked.value.start, range16.value);
      }
    }
  }

  /** The moments that remain after recording over `past`, in order and with no new one but `now`. */
  lemma SnapshotComesLast(past: seq<Moment>, ahead: seq<Moment>, now: Moment, past': seq<Moment>)
    requires past' == past || past' == Capped(past + [now])
    ensures IsPart(past', past + ahead + [now])
  {
    hide IsPart, Capped;
    PartOfItself(past);
    PartOfLonger(past, past, ahead);
    if past' == past {
      PartOfLonger(past, past + ahead, [now]);
    } else {
      PartsWithSameEnd(past, past + ahead, [now]);
      CappedIsPart(past + [now]);
      PartOfPart(past', past + [now], past + ahead + [now]);
    }
  }

  lemma CappedIsPart(past: seq<Moment>)
    ensures IsPart(Capped(past), past)
  {
    hide IsPart, Capped;
    CapHolds(past);
    EndIsPart(past, |past| - |Capped(past)|);
  }

  lemma ReplaceRangeKeeps(f: Field, given: Range, text: Bytes, now: nat)
    requires Inv(f) && Valid(text)
    ensures Inv(ReplaceRange(f, given, text, now)) && KeepsOrder(f, ReplaceRange(f, given, text, now))
  {
    hide Consistent, Sealed, RecordedEdit, Splice, Valid, IsBoundary, Offered, IsPart;
    var range := Clamped(given, |f.content|);
    if !f.readOnly && Fits(f.content, range) {
      var sealed := f.(history := Sealed(f.history));
      SealKeepsMoments(f.history, f.content);
      SealingOffers(f.history, f.content);
      RecordingKeeps(sealed.(marked := None), range, text, false, now);
      RecordingIgnoresMark(sealed, range, text, now);
      SealingKeeps(f, RecordedEdit(sealed, range, text, false, now), Splice(f.content, range, text));
      SpliceKeepsUtf8(f.content, range, text);
    } else {
      SameTimeline(f, f);
    }
  }

  lemma RecordingIgnoresMark(f: Field, range: Range, text: Bytes, now: nat)
    requires range.start <= range.end <= |f.content|
    ensures RecordedEdit(f.(marked := None), range, text, false, now) == RecordedEdit(f, range, text, false, now)
  {}

  lemma SealingOffers(h: History, content: Bytes)
    requires Consistent(h, content)
    ensures Consistent(Sealed(h), content) && Offered(content, Sealed(h)) == Offered(content, h)
  {
    hide Consistent, Past, Ahead, Sealed;
    SealKeepsMoments(h, content);
  }

  lemma SealingKeeps(f: Field, h: History, content: Bytes)
    requires Follows(f, h, content)
    ensures Follows(f, Sealed(h), content)
  {
    hide Consistent, Offered, Sealed;
    SealingOffers(h, content);
  }

  lemma NothingAhead(content: Bytes, h: History)
    requires h.redo == []
    ensures Offered(content, h) == Past(content, h.undo)
  {}

  lemma ReplaceTextKeeps(f: Field, range16: Option<Range>, text: Bytes, now: nat)
    requires Inv(f) && Valid(text) && Ordered(range16)
    ensures f.readOnly || Fits(f.content, TypingTarget(f, range16))
    ensures Inv(ReplaceText(f, range16, text, now)) && KeepsOrder(f, ReplaceText(f, range16, text, now))
  {
    hide IsPart, Reversed;
    hide Valid, IsBoundary, Past, Ahead, UndoChain, RedoChain, Coalesced, Trimmed, Splice;
    TargetsFit(f, range16);
    if !f.readOnly {
      var range := TypingTarget(f, range16);
      RecordingKeeps(f, range, text, f.marked.Some?, now);
      var recorded := RecordedEdit(f, range, text, f.marked.Some?, now);
      FinalizingKeeps(f, recorded, Splice(f.content, range, text));
      SpliceKeepsUtf8(f.content, range, text);
    } else {
      SameTimeline(f, f);
    }
  }

  /** The moments that `h` gives to `content` are those of `f` in order, and then what `f` shows. */
  ghost predicate Follows(f: Field, h: History, content: Bytes) {
    Consistent(h, content) && IsPart(Offered(content, h), Timeline(f) + [Now(f)])
  }

  lemma RecordingKeeps(f: Field, range: Range, text: Bytes, composing: bool, now: nat)
    requires Inv(f) && Valid(text) && Fits(f.content, range)
    ensures Follows(f, RecordedEdit(f, range, text, composing, now), Splice(f.content, range, text))
    ensures composing ==>
              Amends(RecordedEdit(f, range, text, composing, now), Range(range.start, range.start + |text|))
  {
    hide Valid, IsBoundary, Past, Ahead, UndoChain, RedoChain, Coalesced, Trimmed, Splice, IsPart, Reversed;
    var h, content := RecordedEdit(f, range, text, composing, now), Splice(f.content, range, text);
    if composing {
      CompositionSavesOneSnapshot(f.history, f.content, range, text, f.selected, f.reversed, now);
    } else {
      RecordSavesSnapshot(f.history, f.content, range, text, f.selected, f.reversed, now);
    }
    if h == f.history && content == f.content {
      SameTimeline(f, f);
    } else {
      NothingAhead(content, h);
      SnapshotComesLast(Past(f.content, f.history.undo), Reversed(Ahead(f.content, f.history.redo)), Now(f),
                        Past(content, h.undo));
    }
  }

  /** Closing a composition takes out one moment at most. */
  lemma FinalizedIsPart(h: History, content: Bytes)
    requires Consistent(h, content)
    ensures Consistent(Finalized(h), content) && IsPart(Offered(content, Finalized(h)), Offered(content, h))
  {
    hide Consistent, Past, Ahead, Finalized, Joins;
    FinalizeForgetsOnlyNoOps(h, content);
    var past, ahead := Past(content, h.undo), Reversed(Ahead(content, h.redo));
    if IsIdle(h, content) {
      PartOfItself(Below(past));
      TopAndBelow(past);
      PartOfLonger(Below(past), Below(past), [Top(past)]);
      PartsWithSameEnd(Below(past), past, ahead);
    } else {
      PartOfItself(past + ahead);
    }
  }

  lemma FinalizingKeeps(f: Field, h: History, content: Bytes)
    requires Follows(f, h, content)
    ensures Follows(f, Finalized(h), content)
  {
    hide Consistent, Offered, Finalized;
    FinalizedIsPart(h, content);
    PartOfPart(Offered(content, Finalized(h)), Offered(content, h), Timeline(f) + [Now(f)]);
  }

  lemma ReplaceAndMarkKeeps(f: Field, range16: Option<Range>, text: Bytes, selection16: Option<Range>, now: nat)
    requires Inv(f) && Valid(text) && Ordered(range16) && Ordered(selection16)
    ensures f.readOnly || Fits(f.content, MarkingTarget(f, range16))
    ensures var g := ReplaceAndMark(f, range16, text, selection16, now); Inv(g) && KeepsOrder(f, g)
  {
    hide IsPart, Reversed;
    hide Valid, IsBoundary, Past, Ahead, UndoChain, RedoChain, Coalesced, Trimmed, Splice, RangeFromRelativeUtf16;
    TargetsFit(f, range16);
    if !f.readOnly {
      var range := MarkingTarget(f, range16);
      RecordingKeeps(f, range, text, true, now);
      var recorded := RecordedEdit(f, range, text, true, now);
      var content := Splice(f.content, range, text);
      FinalizingKeeps(f, recorded, content);
      SpliceKeepsUtf8(f.content, range, text);
      if selection16.Some? {
        RelativeRangeStartsAtBase(content, range.start, selection16.value);
      }
    } else {
      SameTimeline(f, f);
    }
  }

  lemma UnmarkKeeps(f: Field)
    requires Inv(f)
    ensures Inv(Unmark(f)) && KeepsOrder(f, Unmark(f))
  {
    hide Consistent, Offered, Finalized;
    SameTimeline(f, f);
    FinalizingKeeps(f, f.history, f.content);
  }

  /** Undo moves along the moments and changes none of them. */
  lemma UndoKeeps(f: Field)
    requires Inv(f)
    ensures Inv(Undo(f)) && Timeline(Undo(f)) == Timeline(f) && KeepsOrder(f, Undo(f))
  {
    hide Valid, IsBoundary, Past, Ahead, UndoChain, RedoChain, Undone, Reversed;
    UndoRestoresNewestMoment(f.history, f.content);
    if f.history.undo != [] {
      MovesAhead(Past(f.content, f.history.undo), Ahead(f.content, f.history.redo));
    }
    SameTimeline(f, Undo(f));
  }

  lemma RedoKeeps(f: Field)
    requires Inv(f)
    ensures Inv(Redo(f)) && Timeline(Redo(f)) == Timeline(f) && KeepsOrder(f, Redo(f))
  {
    hide Valid, IsBoundary, Past, Ahead, UndoChain, RedoChain, Redone, Reversed;
    RedoReturns(f.history, f.content);
    if f.history.redo != [] {
      var past, ahead := Past(f.content, f.history.undo), Ahead(f.content, f.history.redo);
      TopAndBelow(ahead);
      TopOfPushed(past, Top(ahead));
      MovesAhead(past + [Top(ahead)], Below(ahead));
    }
    SameTimeline(f, Redo(f));
  }

  lemma MovesAhead(past: seq<Moment>, ahead: seq<Moment>)
    requires past != []
    ensures Below(past) + Reversed(ahead + [Top(past)]) == past + Reversed(ahead)
  {
    TopOfPushed(ahead, Top(past));
    TopAndBelow(past);
  }

  // ---- Runs ----

  ghost function Step(f: Field, e: Event): (g: Field)
    requires Inv(f) && Enabled(f, e)
    ensures Inv(g) && KeepsOrder(f, g)
  {
    hide Consistent, Past, Ahead, KeepsOrder, Reversed;
    match e
    case EvReplaceRange(range, text, now) =>
      ReplaceRangeKeeps(f, range, text, now);
      ReplaceRange(f, range, text, now)
    case EvSetContent(content) =>
      NewBaseline(f, SetContent(f, content));
      SetContent(f, content)
    case EvClear =>
      NewBaseline(f, Clear(f));
      Clear(f)
    case EvReplaceText(range16, text, now) =>
      ReplaceTextKeeps(f, range16, text, now);
      ReplaceText(f, range16, text, now)
    case EvReplaceAndMark(range16, text, selection16, now) =>
      ReplaceAndMarkKeeps(f, range16, text, selection16, now);
      ReplaceAndMark(f, range16, text, selection16, now)
    case EvUnmark =>
      UnmarkKeeps(f);
      Unmark(f)
    case EvUndo =>
      UndoKeeps(f);
      Undo(f)
    case EvRedo =>
      RedoKeeps(f);
      Redo(f)
    case EvSeal =>
      SealKeepsMoments(f.history, f.content);
      SameTimeline(f, f.(history := Sealed(f.history)));
      f.(history := Sealed(f.history))
    case EvSelect(range) =>
      SameTimeline(f, Select(f, range));
      Select(f, range)
    case EvMoveTo(offset) =>
      SameTimeline(f, f.(selected := Caret(offset), reversed := false));
      f.(selected := Caret(offset), reversed := false)
    case EvExtendTo(offset) =>
      ExtendStaysInsideIff(f, offset);
      SameTimeline(f, ExtendTo(f, offset));
      ExtendTo(f, offset)
    case EvSelectWord(range) =>
      SameTimeline(f, SelectWord(f, range));
      SelectWord(f, range)
    case EvSelectAllByClick =>
      SameTimeline(f, SelectAllByClick(f));
      SelectAllByClick(f)
    case EvRelease =>
      SameTimeline(f, f.(word := None));
      f.(word := None)
    case EvSetReadOnly(readOnly) =>
      SameTimeline(f, f.(readOnly := readOnly));
      f.(readOnly := readOnly)
  }

  /** New content drops the history; content that did not change keeps it. */
  lemma NewBaseline(f: Field, g: Field)
    requires Inv(f) && Valid(g.content) && g.marked == None && Fits(g.content, g.selected)
    requires g.history == if f.content != g.content then EMPTY_HISTORY else f.history
    ensures Inv(g) && KeepsOrder(f, g)
  {
    if f.content == g.content {
      SameTimeline(f, g);
    } else {
      assert Timeline(g) == [];
    }
  }

  /** Extending the selection leaves the text exactly when an end of the armed word that lies
      outside the selection is no longer a character boundary of the content. */
  lemma ExtendStaysInsideIff(f: Field, offset: nat)
    requires Fits(f.content, f.selected) && Fits(f.content, Caret(offset))
    ensures Fits(f.content, ExtendTo(f, offset).selected) <==> ArmedWordFits(f, offset)
  {}

  /** It can: a word armed by a double click outlives the content it was found in. */
  lemma StaleWordLeavesTheText()
    ensures var f := SelectWord(SetContent(EMPTY_FIELD, [0x61, 0x62]), Range(0, 2));
            var g := SetContent(f, []);
            Fits(g.content, Caret(0)) && !Fits(g.content, ExtendTo(g, 0).selected)
  {}

  const EMPTY_FIELD := Field([], Range(0, 0), false, None, None, false, EMPTY_HISTORY)

  /** The field after `events`, where an event that cannot occur is skipped. */
  ghost function Run(f: Field, events: seq<Event>): (g: Field)
    requires Inv(f)
    ensures Inv(g)
    decreases |events|
  {
    if events == [] then f else Run(Next(f, events[0]), events[1..])
  }

  ghost function Next(f: Field, e: Event): (g: Field)
    requires Inv(f)
    ensures Inv(g) && KeepsOrder(f, g)
  {
    hide Inv, KeepsOrder;
    if Enabled(f, e) then Step(f, e)
    else
      SameTimeline(f, f);
      f
  }

  /** What the field showed before each event of a run. */
  ghost function Seen(f: Field, events: seq<Event>): seq<Moment>
    requires Inv(f)
    decreases |events|
  {
    if events == [] then [] else [Now(f)] + Seen(Next(f, events[0]), events[1..])
  }

  /** In any run undos and redos go through moments offered before it and then moments shown in it,
      in the order in which they were shown. */
  lemma {:induction false} RunKeepsOrder(f: Field, events: seq<Event>)
    requires Inv(f)
    ensures IsPart(Timeline(Run(f, events)), Timeline(f) + Seen(f, events))
    decreases |events|
  {
    hide Inv, Next, Timeline;
    if events == [] {
      PartOfItself(Timeline(f));
      assert Timeline(f) + [] == Timeline(f);
    } else {
      var g := Next(f, events[0]);
      var later := Seen(g, events[1..]);
      RunKeepsOrder(g, events[1..]);
      PartsWithSameEnd(Timeline(g), Timeline(f) + [Now(f)], later);
      PartOfPart(Timeline(Run(f, events)), Timeline(g) + later, Timeline(f) + [Now(f)] + later);
      assert Timeline(f) + [Now(f)] + later == Timeline(f) + Seen(f, events);
    }
  }

  /** After any run, undo is never refused as corrupt: it takes one step off the history and shows,
      content and selection, the newest of the moments that it goes through. These are moments that
      the field showed during the run, in that order, so undoing again goes strictly back. */
  lemma UndoGoesStrictlyBack(events: seq<Event>) returns (places: seq<nat>)
    ensures Inv(EMPTY_FIELD)
    ensures var f, seen := Run(EMPTY_FIELD, events), Seen(EMPTY_FIELD, events);
            var past := Past(f.content, f.history.undo);
            && |places| == |past| == |f.history.undo|
            && (forall i :: 0 <= i < |past| ==> places[i] < |seen| && past[i] == seen[places[i]])
            && (forall i, j :: 0 <= i < j < |past| ==> places[i] < places[j])
            && (past != [] && !f.readOnly && f.marked == None ==>
                  && Now(Undo(f)) == past[|past| - 1]
                  && Past(Undo(f).content, Undo(f).history.undo) == past[..|past| - 1])
  {
    hide Consistent, Past, Ahead, Step, Next, IsPart, Undone;
    EmptyFieldIsConsistent();
    var f := Run(EMPTY_FIELD, events);
    RunKeepsOrder(EMPTY_FIELD, events);
    NoMomentsAtFirst(Seen(EMPTY_FIELD, events));
    var past, ahead := Past(f.content, f.history.undo), Reversed(Ahead(f.content, f.history.redo));
    PartOfItself(past);
    PartOfLonger(past, past, ahead);
    PartOfPart(past, past + ahead, Seen(EMPTY_FIELD, events));
    places := PlacesInWhole(past, Seen(EMPTY_FIELD, events));
    UndoRestoresNewestMoment(f.history, f.content);
  }

  lemma EmptyFieldIsConsistent()
    ensures Inv(EMPTY_FIELD)
  {}

  lemma NoMomentsAtFirst(seen: seq<Moment>)
    ensures Timeline(EMPTY_FIELD) + seen == seen
  {}

  // ---- Compositions ----

  predicate IsRevision(e: Event) {
    e.EvReplaceAndMark? && e.text != []
  }

  /** While text is marked, another revision amends the open step. */
  lemma RevisionKeepsTheStep(f: Field, e: Event)
    requires Inv(f) && f.marked.Some? && !f.readOnly && IsRevision(e)
    ensures var g := Next(f, e);
            && g.marked.Some? && !g.readOnly
            && Past(g.content, g.history.undo) == Past(f.content, f.history.undo)
  {
    hide Consistent, Past, Ahead, Trimmed, Splice, RecordedComposition, RangeFromRelativeUtf16, MarkingTarget;
    if Enabled(f, e) {
      TargetsFit(f, e.range16);
      CompositionSavesOneSnapshot(
        f.history, f.content, MarkingTarget(f, e.range16), e.text, f.selected, f.reversed, e.now);
    }
  }

  lemma {:induction false} RevisionsKeepTheStep(f: Field, events: seq<Event>)
    requires Inv(f) && f.marked.Some? && !f.readOnly && forall e :: e in events ==> IsRevision(e)
    ensures var g := Run(f, events);
            && g.marked.Some? && !g.readOnly
            && Past(g.content, g.history.undo) == Past(f.content, f.history.undo)
    decreases |events|
  {
    hide Inv, Next, Past;
    if events != [] {
      RevisionKeepsTheStep(f, events[0]);
      RevisionsKeepTheStep(Next(f, events[0]), events[1..]);
    }
  }

  /** From `f`, where text is marked, to `g`, where none is: the open step is closed, or forgotten if
      nothing changed over all. */
  ghost predicate EndsTheStep(f: Field, g: Field) {
    var past := Past(f.content, f.history.undo);
    && Inv(g) && g.marked == None && !g.readOnly && past != []
    && Past(g.content, g.history.undo) == if Top(past).content == g.content then Below(past) else past
  }

  lemma CommitEndsTheStep(f: Field, range16: Option<Range>, text: Bytes, now: nat)
    requires Inv(f) && f.marked.Some? && !f.readOnly && Valid(text) && Ordered(range16)
    ensures TypingTarget(f, range16).start <= TypingTarget(f, range16).end <= |f.content|
    ensures EndsTheStep(f, ReplaceText(f, range16, text, now))
  {
    hide Consistent, Past, Ahead, Trimmed, Splice, RecordedComposition, Finalized, Joins;
    TargetsFit(f, range16);
    ReplaceTextKeeps(f, range16, text, now);
    var range := f.marked.value;
    CompositionSavesOneSnapshot(f.history, f.content, range, text, f.selected, f.reversed, now);
    FinalizeForgetsOnlyNoOps(
      RecordedComposition(f.history, f.content, range, text, f.selected, f.reversed, now),
      Splice(f.content, range, text));
  }

  /** What ends a composition: committing text, taking the mark off, or composing to nothing. */
  ghost predicate EndsComposition(e: Event) {
    || (e.EvReplaceText? && Valid(e.text) && Ordered(e.range16))
    || e.EvUnmark?
    || (e.EvReplaceAndMark? && e.text == [] && Ordered(e.range16) && Ordered(e.selection16))
  }

  lemma UnmarkEndsTheStep(f: Field)
    requires Inv(f) && f.marked.Some? && !f.readOnly
    ensures EndsTheStep(f, Unmark(f))
  {
    hide Consistent, Past, Ahead, Finalized, Joins;
    UnmarkKeeps(f);
    FinalizeForgetsOnlyNoOps(f.history, f.content);
  }

  lemma NothingEndsTheStep(f: Field, range16: Option<Range>, selection16: Option<Range>, now: nat)
    requires Inv(f) && f.marked.Some? && !f.readOnly && Ordered(range16) && Ordered(selection16)
    ensures MarkingTarget(f, range16).start <= MarkingTarget(f, range16).end <= |f.content|
    ensures EndsTheStep(f, ReplaceAndMark(f, range16, [], selection16, now))
  {
    hide Consistent, Past, Ahead, Trimmed, Splice, RecordedComposition, Finalized, Joins;
    hide RangeFromRelativeUtf16, MarkingTarget;
    assert Valid([]);
    TargetsFit(f, range16);
    ReplaceAndMarkKeeps(f, range16, [], selection16, now);
    var range := MarkingTarget(f, range16);
    CompositionSavesOneSnapshot(f.history, f.content, range, [], f.selected, f.reversed, now);
    FinalizeForgetsOnlyNoOps(
      RecordedComposition(f.history, f.content, range, [], f.selected, f.reversed, now),
      Splice(f.content, range, []));
  }

  /** However a composition ends, that ends its step, and forgets it exactly when nothing changed over
      all. */
  lemma AnyEndClosesTheStep(f: Field, e: Event)
    requires Inv(f) && f.marked.Some? && !f.readOnly && EndsComposition(e)
    ensures EndsTheStep(f, Next(f, e))
  {
    hide Inv, EndsTheStep, ReplaceText, ReplaceAndMark, Unmark, MarkingTarget, TypingTarget;
    match e {
      case EvReplaceText(range16, text, now) =>
        CommitEndsTheStep(f, range16, text, now);
      case EvUnmark => UnmarkEndsTheStep(f);
      case EvReplaceAndMark(range16, _, selection16, now) =>
        assert Valid([]);
        NothingEndsTheStep(f, range16, selection16, now);
    }
  }

  /** Whether a composition at `range` goes on inside a step that an earlier one left open. */
  predicate StartsInside(f: Field, range: Range) {
    Amends(f.history, range)
  }

  /** The moments up to the one that a composition at `range` goes back to: what the field shows, or
      the start of the step left open. */
  function PastOfComposition(f: Field, range: Range): (past: seq<Moment>)
    ensures past != []
  {
    if StartsInside(f, range) then Past(f.content, f.history.undo)
    else Capped(Past(f.content, f.history.undo) + [Now(f)])
  }

  lemma TopOfComposition(f: Field, range: Range)
    ensures Top(PastOfComposition(f, range))
         == if StartsInside(f, range) then Top(Past(f.content, f.history.undo)) else Now(f)
  {}

  /** A whole composition - its first marked text, every revision and its end - is one step, and none
      when it leaves the content as that step found it. Undo goes back to the content and selection it
      began with, exactly unless it began inside a step that an earlier composition left open: then
      that step's beginning is what undo shows. */
  lemma CompositionUndoesInOneStep(
    f: Field, range16: Option<Range>, text: Bytes, selection16: Option<Range>, now: nat,
    revisions: seq<Event>, end: Event)
    requires Inv(f) && f.marked == None && !f.readOnly
    requires Valid(text) && text != [] && Ordered(range16) && Ordered(selection16)
    requires (forall e :: e in revisions ==> IsRevision(e)) && EndsComposition(end)
    ensures MarkingTarget(f, range16).start <= MarkingTarget(f, range16).end <= |f.content|
    ensures var composing := ReplaceAndMark(f, range16, text, selection16, now);
            && Inv(composing)
            && var done := Next(Run(composing, revisions), end);
               var range, past := MarkingTarget(f, range16), PastOfComposition(f, MarkingTarget(f, range16));
            && Past(done.content, done.history.undo)
               == (if Top(past).content == done.content then Below(past) else past)
            && (!StartsInside(f, range) && done.content != f.content ==> Now(Undo(done)) == Now(f))
            && (StartsInside(f, range) && done.content != Top(past).content ==>
                  && Now(Undo(done)) == Top(Past(f.content, f.history.undo))
                  && (Now(Undo(done)) == Now(f) <==> Top(Past(f.content, f.history.undo)) == Now(f)))
  {
    hide Consistent, Past, Ahead, Trimmed, Splice, RecordedComposition, Undone, Run, Next, Capped;
    TargetsFit(f, range16);
    ReplaceAndMarkKeeps(f, range16, text, selection16, now);
    CompositionSavesOneSnapshot(f.history, f.content, MarkingTarget(f, range16), text, f.selected, f.reversed, now);
    TopOfComposition(f, MarkingTarget(f, range16));
    var composing := ReplaceAndMark(f, range16, text, selection16, now);
    RevisionsKeepTheStep(composing, revisions);
    AnyEndClosesTheStep(Run(composing, revisions), end);
    var done := Next(Run(composing, revisions), end);
    UndoRestoresNewestMoment(done.history, done.content);
  }

  // ---- The caret after a redo ----

  /** Where the text of the newest step ends. */
  function StepEnd(f: Field): nat
    requires f.history.undo != []
  {
    Top(f.history.undo).start + |Top(f.history.undo).inserted|
  }

  /** Whatever the newest step is, undone and redone it gives back content and history, and the caret
      exactly if it stood behind the text of the step. */
  lemma RedoCaretIff(f: Field)
    requires Inv(f) && !f.readOnly && f.marked == None && f.history.undo != []
    ensures var g := Redo(Undo(f));
            && g.content == f.content && g.history == f.history && g.marked == None
            && g.selected == Caret(StepEnd(f)) && !g.reversed
            && (g.selected == f.selected <==> f.selected == Caret(StepEnd(f)))
  {
    hide Consistent, Undone, Redone;
    UndoRestoresNewestMoment(f.history, f.content);
    RedoUndoesUndo(f.history, f.content);
  }

  /** Typing leaves the caret behind its text, and a redo of it brings the caret back exactly when the
      text shares no end with what it replaced. */
  lemma TypedCaretIff(f: Field, range16: Option<Range>, text: Bytes, now: nat)
    requires Inv(f) && !f.readOnly && f.marked == None && Valid(text) && Ordered(range16)
    ensures TypingTarget(f, range16).start <= TypingTarget(f, range16).end <= |f.content|
    ensures var range, g := TypingTarget(f, range16), ReplaceText(f, range16, text, now);
            var replaced := f.content[range.start..range.end];
            && g.selected == Caret(range.start + |text|)
            && (replaced != text ==> (Redo(Undo(g)).selected == g.selected <==> SharedEnd(replaced, text) == 0))
  {
    hide Consistent, Splice, Trimmed, Recorded, Undone, Redone, SharedEnd, TypingTarget;
    TargetsFit(f, range16);
    var range, g := TypingTarget(f, range16), ReplaceText(f, range16, text, now);
    ReplaceTextKeeps(f, range16, text, now);
    if f.content[range.start..range.end] != text {
      RecordedCaret(f.history, f.content, range, text, f.selected, f.reversed, now);
      RedoCaretIff(g);
    }
  }

  lemma CommittedStepEnd(f: Field, text: Bytes, now: nat)
    requires Inv(f) && !f.readOnly && f.marked.Some? && Valid(text)
    ensures f.marked.value.start <= f.marked.value.end <= |f.content| && f.history.undo != []
    ensures var g := ReplaceText(f, None, text, now);
            Top(Past(f.content, f.history.undo)).content != g.content ==>
              g.history.undo != [] && StepEnd(g) == StepEnd(f) - (f.marked.value.end - f.marked.value.start) + |text|
  {
    hide Consistent, Past, Splice;
    var range, content := f.marked.value, Splice(f.content, f.marked.value, text);
    CompositionSavesOneSnapshot(f.history, f.content, range, text, f.selected, f.reversed, now);
    var h := RecordedComposition(f.history, f.content, range, text, f.selected, f.reversed, now);
    ForgottenIfIdle(h, content);
    AmendedLength(Top(f.history.undo), range, text, now);
  }

  lemma AmendedLength(last: EditRecord, range: Range, text: Bytes, now: nat)
    requires last.start <= range.start <= range.end <= last.start + |last.inserted|
    ensures |Amended(last, range, text, now).inserted| == |last.inserted| - (range.end - range.start) + |text|
  {}

  /** A step that is forgotten shows what is there now. */
  lemma ForgottenIfIdle(h: History, content: Bytes)
    requires Consistent(h, content) && h.undo != [] && Top(h.undo).composing
    ensures Top(h.undo).removed == Top(h.undo).inserted ==> Top(Past(content, h.undo)).content == content
  {
    hide Past, UndoChain, RedoChain;
    OpenStepHolds(h, content);
    NoOpIff(content, Top(h.undo));
  }

  lemma OpenStepHolds(h: History, content: Bytes)
    requires Consistent(h, content) && h.undo != []
    ensures Holds(content, Top(h.undo).start, Top(h.undo).inserted)
    ensures Top(Past(content, h.undo)).content == Before(content, Top(h.undo))
  {}

  /** Committing marked text leaves the caret behind it, and a redo of its step brings the caret back
      exactly when the marked text was the end of what the step composed. */
  lemma CommittedCaretIff(f: Field, text: Bytes, now: nat)
    requires Inv(f) && !f.readOnly && f.marked.Some? && Valid(text)
    ensures f.marked.value.start <= f.marked.value.end <= |f.content| && f.history.undo != []
    ensures var g := ReplaceText(f, None, text, now);
            && g.selected == Caret(f.marked.value.start + |text|)
            && (g.content != Top(Past(f.content, f.history.undo)).content ==>
                  (Redo(Undo(g)).selected == g.selected <==> f.marked.value.end == StepEnd(f)))
  {
    hide Consistent, Splice, Undone, Redone, Past;
    CommitEndsTheStep(f, None, text, now);
    var g := ReplaceText(f, None, text, now);
    if g.content != Top(Past(f.content, f.history.undo)).content {
      CommittedStepEnd(f, text, now);
      RedoCaretIff(g);
    }
  }
}
