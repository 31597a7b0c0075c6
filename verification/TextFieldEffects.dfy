/** What a text field holds after each event, told from what it held before: content, selection and
    mark (src/input.rs:987-1014, 1059-1159, 2006-2063, 2147-2237). */
module TextFieldEffects {
  import opened Options
  import opened Splices
  import opened TextFields
  import opened UndoHistory
  import opened Utf16Offsets
  import opened Utf8

  /** `g` holds the content of `f` with `text` in place of its bytes from `start` to `end`. */
  predicate HasInPlace(f: Field, g: Field, start: nat, end: nat, text: Bytes) {
    start <= end <= |f.content| && g.content == f.content[..start] + text + f.content[end..]
  }

  predicate HasCaret(g: Field, offset: nat) {
    g.selected == Range(offset, offset)
  }

  // ---- Edits ----

  /** A completion puts its text in place of the given bytes, as far as they are inside the content,
      and leaves the caret behind it; one undo takes it back and no typing joins it. It is refused where
      the field is read-only or the bytes do not start and end characters. */
  lemma CompletionShows(f: Field, given: Range, text: Bytes, now: nat)
    requires Inv(f) && Valid(text)
    ensures var g := ReplaceRange(f, given, text, now);
            var start, end := Least(given.start, |f.content|), Least(given.end, |f.content|);
            if !f.readOnly && start <= end && IsBoundary(f.content, start) && IsBoundary(f.content, end) then
              && HasInPlace(f, g, start, end, text) && HasCaret(g, start + |text|) && !g.reversed
              && g.marked == None && g.word == f.word && !g.readOnly
              && (g.content != f.content ==> Now(Undo(g)) == Now(f))
              && forall edit, later :: !Joins(g.history, edit, later)
            else g == f
  {
    hide Consistent, Splice, Trimmed, Recorded, Sealed, Valid, IsBoundary, Past, Undone, Joins;
    var range := Clamped(given, |f.content|);
    if !f.readOnly && Fits(f.content, range) {
      var sealed := Sealed(f.history);
      SealKeepsMoments(f.history, f.content);
      RecordSavesSnapshot(sealed, f.content, range, text, f.selected, f.reversed, now);
      var recorded := Recorded(sealed, Trimmed(f.content, range, text), f.selected, f.reversed, now);
      SealKeepsMoments(recorded, Splice(f.content, range, text));
      SpliceIs(f.content, range, text);
      UndoRestoresNewestMoment(Sealed(recorded), Splice(f.content, range, text));
      TopOfCapped(Past(f.content, sealed.undo), Now(f));
    }
  }

  lemma SpliceIs(content: Bytes, range: Range, text: Bytes)
    requires range.start <= range.end <= |content|
    ensures Splice(content, range, text) == content[..range.start] + text + content[range.end..]
    ensures content[range.start..range.end] == text ==> Splice(content, range, text) == content
  {}

  lemma TopOfCapped(past: seq<Moment>, now: Moment)
    ensures Capped(past + [now]) != [] && Top(Capped(past + [now])) == now
  {}

  /** Typing puts its text over the marked text, else over what the given units denote, else over the
      selection, and leaves the caret behind it and nothing marked. */
  lemma TypingShows(f: Field, range16: Option<Range>, text: Bytes, now: nat) returns (start: nat, end: nat)
    requires Inv(f) && Valid(text) && Ordered(range16)
    ensures f.readOnly || TypingTarget(f, range16).start <= TypingTarget(f, range16).end <= |f.content|
    ensures if f.marked.Some? then Range(start, end) == f.marked.value
            else if range16.Some? then
              Denotes(f.content, range16.value.start, start) && Denotes(f.content, range16.value.end, end)
            else Range(start, end) == f.selected
    ensures var g := ReplaceText(f, range16, text, now);
            if f.readOnly then g == f
            else
              && HasInPlace(f, g, start, end, text) && HasCaret(g, start + |text|)
              && g.marked == None && g.reversed == f.reversed && g.word == f.word && !g.readOnly
  {
    hide Consistent, Trimmed, Recorded, RecordedComposition, Finalized, Valid, IsBoundary, Denotes, FromUtf16, Amends;
    TargetsFit(f, range16);
    var range := TypingTarget(f, range16);
    start, end := range.start, range.end;
    if f.marked.None? && range16.Some? {
      ConsistentIsValid(f.history, f.content);
      RangeFromUtf16Denotes(f.content, range16.value);
    }
  }

  /** An offset moved into a range. */
  predicate IsMovedInto(at: nat, range: Range, moved: nat) {
    if at < range.start then moved == range.start
    else if at > range.end then moved == range.end
    else moved == at
  }

  /** Where composed text goes: units given while text is marked are counted from its start, and what
      they denote is moved into it. */
  ghost predicate IsMarkingTarget(f: Field, range16: Option<Range>, start: nat, end: nat) {
    if f.marked.Some? && range16.Some? then
      var mark := f.marked.value;
      && mark.start <= |f.content|
      && var base := Utf16Length(f.content, mark.start);
         && (exists at: nat :: Denotes(f.content, base + range16.value.start, at) && IsMovedInto(at, mark, start))
         && (exists at: nat :: Denotes(f.content, base + range16.value.end, at) && IsMovedInto(at, mark, end))
    else if range16.Some? then
      Denotes(f.content, range16.value.start, start) && Denotes(f.content, range16.value.end, end)
    else Range(start, end) == if f.marked.Some? then f.marked.value else f.selected
  }

  lemma TargetIsMarkingTarget(f: Field, range16: Option<Range>)
    requires Inv(f) && Ordered(range16)
    ensures var range := MarkingTarget(f, range16); IsMarkingTarget(f, range16, range.start, range.end)
  {
    hide Consistent, Valid, Denotes, FromUtf16, ToUtf16, Amends, Utf16Length;
    ConsistentIsValid(f.history, f.content);
    if range16.Some? {
      if f.marked.Some? {
        var mark := f.marked.value;
        RelativeRangeDenotes(f.content, mark.start, range16.value);
        var absolute := RangeFromRelativeUtf16(f.content, mark.start, range16.value);
        assert IsMovedInto(absolute.start, mark, Clamp(absolute.start, mark));
        assert IsMovedInto(absolute.end, mark, Clamp(absolute.end, mark));
      } else {
        RangeFromUtf16Denotes(f.content, range16.value);
      }
    }
  }

  /** Composing puts its text over its target and marks it, unless there is none; the selection is what
      the given units denote, counted from the start of the text, or the caret behind it. */
  lemma ComposingShows(f: Field, range16: Option<Range>, text: Bytes, selection16: Option<Range>, now: nat)
    returns (start: nat, end: nat)
    requires Inv(f) && Valid(text) && Ordered(range16) && Ordered(selection16)
    ensures f.readOnly || MarkingTarget(f, range16).start <= MarkingTarget(f, range16).end <= |f.content|
    ensures IsMarkingTarget(f, range16, start, end)
    ensures var g := ReplaceAndMark(f, range16, text, selection16, now);
            if f.readOnly then g == f
            else
              && HasInPlace(f, g, start, end, text)
              && g.marked == (if text == [] then None else Some(Range(start, start + |text|)))
              && (if selection16.None? then HasCaret(g, start + |text|)
                  else
                    && Denotes(g.content, Utf16Length(g.content, start) + selection16.value.start, g.selected.start)
                    && Denotes(g.content, Utf16Length(g.content, start) + selection16.value.end, g.selected.end))
              && g.reversed == f.reversed && g.word == f.word && !g.readOnly
  {
    hide Consistent, Trimmed, Recorded, RecordedComposition, Finalized, Valid, IsBoundary, Denotes, FromUtf16, Amends;
    hide IsMarkingTarget, MarkingTarget, Utf16Length, RangeFromRelativeUtf16;
    TargetsFit(f, range16);
    TargetIsMarkingTarget(f, range16);
    var range := MarkingTarget(f, range16);
    start, end := range.start, range.end;
    if !f.readOnly && selection16.Some? {
      ConsistentIsValid(f.history, f.content);
      SpliceKeepsUtf8(f.content, range, text);
      RelativeRangeDenotes(Splice(f.content, range, text), start, selection16.value);
    }
  }

  /** Loading leaves the caret at the end and nothing marked; undo goes back over it only if it brought
      nothing new. Clearing is loading nothing. */
  lemma LoadingShows(f: Field, content: Bytes)
    ensures var g := SetContent(f, content);
            && g.content == content && HasCaret(g, |content|) && !g.reversed && g.marked == None
            && (if content == f.content then g.history == f.history else g.history.undo == g.history.redo == [])
    ensures Clear(f) == SetContent(f, [])
  {}

  // ---- Going back and forward ----

  /** Undo and redo do nothing where the field is read-only, text is marked or there is nothing to go to;
      else undo shows the newest moment to go back to, and redo the content that was undone last with the
      caret behind what it put back. */
  lemma UndoAndRedoShow(f: Field)
    requires Inv(f)
    ensures if f.readOnly || f.marked.Some? || f.history.undo == [] then Undo(f) == f
            else
              && Now(Undo(f)) == Top(Past(f.content, f.history.undo)) && Undo(f).marked == None
              && Undo(f).word == f.word && !Undo(f).readOnly
    ensures if f.readOnly || f.marked.Some? || f.history.redo == [] then Redo(f) == f
            else
              && Undo(Redo(f)).content == f.content && HasCaret(Redo(f), StepEnd(Redo(f))) && !Redo(f).reversed
              && Redo(f).marked == None && Redo(f).word == f.word && !Redo(f).readOnly
  {
    hide Consistent, Undone, Redone, Past, Ahead;
    UndoRestoresNewestMoment(f.history, f.content);
    RedoReturns(f.history, f.content);
    if !f.readOnly && f.marked.None? && f.history.redo != [] {
      RedoneStep(f.history, f.content);
      UndoRestoresNewestMoment(Redo(f).history, Redo(f).content);
      TopOfPushed(Past(f.content, f.history.undo), Top(Ahead(f.content, f.history.redo)));
    }
  }

  lemma RedoneStep(h: History, content: Bytes)
    requires Consistent(h, content) && h.redo != []
    ensures Redone(h, content).1.Some? && Redone(h, content).0.undo != []
    ensures Top(Redone(h, content).0.undo) == Top(h.redo)
  {}

  /** Taking the mark off changes nothing that shows. */
  lemma UnmarkShows(f: Field)
    ensures var g := Unmark(f); Now(g) == Now(f) && g.marked == None && g.word == f.word && g.readOnly == f.readOnly
  {}

  // ---- Selecting ----

  /** A range is selected if it is in order, inside the content and starts and ends characters; any other
      changes nothing. */
  lemma SelectingShows(f: Field, range: Range)
    ensures var g := Select(f, range);
            if range.start <= range.end <= |f.content|
               && IsBoundary(f.content, range.start) && IsBoundary(f.content, range.end)
            then g.selected == range && !g.reversed && g.history == f.history && g.content == f.content
            else g == f
  {}

  /** The end of the selection that stays when the other is moved. */
  function Anchor(f: Field): nat {
    if f.reversed then f.selected.end else f.selected.start
  }

  /** Moving the live end to `offset` selects what lies between it and the end that stays, and the armed
      word with it; the live end is in front exactly when it is moved to before the other. */
  lemma ExtendingShows(f: Field, offset: nat)
    ensures var g, anchor := ExtendTo(f, offset), Anchor(f);
            && g.selected.start
               == (if f.word.Some? then Least(Least(anchor, offset), f.word.value.start) else Least(anchor, offset))
            && g.selected.end
               == (if f.word.Some? then Most(Most(anchor, offset), f.word.value.end) else Most(anchor, offset))
            && (offset < anchor ==> g.reversed) && (anchor < offset ==> !g.reversed)
            && g == f.(selected := g.selected, reversed := g.reversed)
  {}

  function Dragged(f: Field, offsets: seq<nat>): Field
    decreases |offsets|
  {
    if offsets == [] then f else Dragged(ExtendTo(f, offsets[0]), offsets[1..])
  }

  /** A drag with an armed word keeps one edge of the word as the end that stays. */
  predicate HoldsWord(f: Field, word: Range) {
    && f.word == Some(word) && word.start <= word.end
    && (if f.reversed then f.selected.end == word.end else f.selected.start == word.start)
  }

  /** Only where a drag ends counts: it selects from where it began to there. */
  lemma {:induction false} DragSelects(f: Field, offsets: seq<nat>)
    requires f.word == None && f.selected.start <= f.selected.end && offsets != []
    ensures var g, last := Dragged(f, offsets), offsets[|offsets| - 1];
            g.selected == Range(Least(Anchor(f), last), Most(Anchor(f), last))
    decreases |offsets|
  {
    hide ExtendTo;
    ExtendingShows(f, offsets[0]);
    if |offsets| > 1 {
      DragSelects(ExtendTo(f, offsets[0]), offsets[1..]);
    } else {
      assert Dragged(f, offsets) == Dragged(ExtendTo(f, offsets[0]), []);
    }
  }

  lemma ExtendingHoldsWord(f: Field, word: Range, offset: nat)
    requires HoldsWord(f, word)
    ensures var g := ExtendTo(f, offset);
            && HoldsWord(g, word)
            && g.selected == Range(Least(word.start, offset), Most(word.end, offset))
  {}

  /** A double click and a drag select from the word to where the drag ends, the whole word included on
      either side. */
  lemma {:induction false} DragKeepsWord(f: Field, word: Range, offsets: seq<nat>)
    requires HoldsWord(f, word) && offsets != []
    ensures var g, last := Dragged(f, offsets), offsets[|offsets| - 1];
            g.selected == Range(Least(word.start, last), Most(word.end, last))
    decreases |offsets|
  {
    hide ExtendTo, HoldsWord;
    ExtendingHoldsWord(f, word, offsets[0]);
    if |offsets| > 1 {
      DragKeepsWord(ExtendTo(f, offsets[0]), word, offsets[1..]);
    } else {
      assert Dragged(f, offsets) == Dragged(ExtendTo(f, offsets[0]), []);
    }
  }

  /** A double click on a word starts such a drag, and a triple click one with all of the content. */
  lemma ClicksHoldWord(f: Field, word: Range)
    requires word.start < word.end
    ensures HoldsWord(SelectWord(f, word), word)
    ensures HoldsWord(SelectAllByClick(f), Range(0, |f.content|))
    ensures SelectAllByClick(f).selected == Range(0, |f.content|)
  {}
}
