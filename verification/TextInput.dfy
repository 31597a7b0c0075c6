/** `TextInput` as the source keeps it: fields changed in place by each handler, and a history
    object of its own (src/input.rs:669-704 and the handlers cited in `TextFields`). Each handler
    is proved to take the field where `TextFields` says. */
module TextInputs {
  import opened EditHistories
  import opened Options
  import opened Splices
  import opened TextFields
  import opened UndoHistory
  import opened Utf16Offsets
  import opened Utf8

  class TextInput {
    var content: Bytes
    var selectedRange: Range
    var selectionReversed: bool
    var markedRange: Option<Range>
    var selectedWordRange: Option<Range>
    var readOnly: bool
    var history: EditHistory

    ghost function State(): Field
      reads this, history
    {
      Field(content, selectedRange, selectionReversed, markedRange, selectedWordRange, readOnly, history.View())
    }

    constructor ()
      ensures State() == EMPTY_FIELD && Inv(State()) && fresh(history)
    {
      content, selectedRange, selectionReversed := [], Range(0, 0), false;
      markedRange, selectedWordRange, readOnly := None, None, false;
      history := new EditHistory();
      new;
      EmptyFieldIsConsistent();
    }

    method RecordEditHistory(range: Range, text: Bytes, composing: bool, now: nat)
      requires Valid(content) && Fits(content, range) && Valid(text)
      modifies history
      ensures history.View() == RecordedEdit(old(State()), range, text, composing, now)
    {
      if composing {
        history.RecordComposition(content, range, text, selectedRange, selectionReversed, now);
      } else {
        history.Record(content, range, text, selectedRange, selectionReversed, now);
      }
    }

    method ReplaceByteRange(given: Range, text: Bytes, now: nat)
      requires Inv(State()) && Valid(text)
      modifies this, history
      ensures history == old(history)
      ensures State() == ReplaceRange(old(State()), given, text, now) && Inv(State())
    {
      hide UndoChain, RedoChain, IsBoundary, Valid, Trimmed, RecordedComposition, Recorded, KeepsOrder, Amends;
      ReplaceRangeKeeps(State(), given, text, now);
      if readOnly {
        return;
      }
      var range := Range(Least(given.start, |content|), Least(given.end, |content|));
      if !IsBoundary(content, range.start) || !IsBoundary(content, range.end) || range.start > range.end {
        return;
      }
      history.Seal();
      RecordEditHistory(range, text, false, now);
      content := content[..range.start] + text + content[range.end..];
      var offset := range.start + |text|;
      selectedRange := Range(offset, offset);
      selectionReversed := false;
      markedRange := None;
      history.Seal();
    }

    method ClearAll()
      requires Inv(State())
      modifies this
      ensures history == old(history) || fresh(history)
      ensures State() == Clear(old(State())) && Inv(State())
    {
      ghost var before := State();
      var changed := content != [];
      content := [];
      selectedRange := Range(0, 0);
      selectionReversed := false;
      markedRange := None;
      if changed {
        history := new EditHistory();
      }
      NewBaseline(before, State());
    }

    method Load(text: Bytes)
      requires Inv(State()) && Valid(text)
      modifies this
      ensures history == old(history) || fresh(history)
      ensures State() == SetContent(old(State()), text) && Inv(State())
    {
      ghost var before := State();
      var changed := content != text;
      content := text;
      var offset := |content|;
      selectedRange := Range(offset, offset);
      selectionReversed := false;
      markedRange := None;
      if changed {
        history := new EditHistory();
      }
      NewBaseline(before, State());
    }

    method ReplaceTextInRange(range16: Option<Range>, text: Bytes, now: nat)
      requires Inv(State()) && Valid(text) && Ordered(range16)
      modifies this, history
      ensures history == old(history)
      ensures old(readOnly) ||
              old(TypingTarget(State(), range16).start <= TypingTarget(State(), range16).end <= |content|)
      ensures State() == ReplaceText(old(State()), range16, text, now) && Inv(State())
    {
      hide UndoChain, RedoChain, IsBoundary, Valid, Trimmed, RecordedComposition, Recorded, KeepsOrder, Amends;
      ReplaceTextKeeps(State(), range16, text, now);
      TargetsFit(State(), range16);
      if readOnly {
        return;
      }
      var composing := markedRange.Some?;
      var range := selectedRange;
      if composing {
        range := markedRange.value;
      } else if range16.Some? {
        var start := OffsetFromUtf16(content, range16.value.start);
        var end := OffsetFromUtf16(content, range16.value.end);
        range := Range(start, end);
      }
      RecordEditHistory(range, text, composing, now);
      content := content[..range.start] + text + content[range.end..];
      var offset := range.start + |text|;
      selectedRange := Range(offset, offset);
      markedRange := None;
      if composing {
        history.FinalizeComposition();
      }
    }

    method RelativeRange(base: nat, range: Range) returns (r: Range)
      ensures r == RangeFromRelativeUtf16(content, base, range)
    {
      var base16 := OffsetToUtf16(content, base);
      var start := OffsetFromUtf16(content, base16 + range.start);
      var end := OffsetFromUtf16(content, base16 + range.end);
      r := Range(start, end);
    }

    method ReplaceAndMarkTextInRange(range16: Option<Range>, text: Bytes, selection16: Option<Range>, now: nat)
      requires Inv(State()) && Valid(text) && Ordered(range16) && Ordered(selection16)
      modifies this, history
      ensures history == old(history)
      ensures old(readOnly) ||
              old(MarkingTarget(State(), range16).start <= MarkingTarget(State(), range16).end <= |content|)
      ensures State() == ReplaceAndMark(old(State()), range16, text, selection16, now) && Inv(State())
    {
      hide UndoChain, RedoChain, IsBoundary, Valid, Trimmed, RecordedComposition, Recorded, KeepsOrder, Amends;
      ReplaceAndMarkKeeps(State(), range16, text, selection16, now);
      TargetsFit(State(), range16);
      if readOnly {
        return;
      }
      var range := selectedRange;
      if range16.Some? && markedRange.Some? {
        var marked := markedRange.value;
        var absolute := RelativeRange(marked.start, range16.value);
        range := Range(Clamp(absolute.start, marked), Clamp(absolute.end, marked));
      } else if range16.Some? {
        var start := OffsetFromUtf16(content, range16.value.start);
        var end := OffsetFromUtf16(content, range16.value.end);
        range := Range(start, end);
      } else if markedRange.Some? {
        range := markedRange.value;
      }
      RecordEditHistory(range, text, true, now);
      content := content[..range.start] + text + content[range.end..];
      markedRange := if text == [] then None else Some(Range(range.start, range.start + |text|));
      if markedRange.None? {
        history.FinalizeComposition();
      }
      if selection16.Some? {
        selectedRange := RelativeRange(range.start, selection16.value);
      } else {
        var offset := range.start + |text|;
        selectedRange := Range(offset, offset);
      }
    }

    method UnmarkText()
      requires Inv(State())
      modifies this, history
      ensures history == old(history)
      ensures State() == Unmark(old(State())) && Inv(State())
    {
      UnmarkKeeps(State());
      markedRange := None;
      history.FinalizeComposition();
    }

    method ApplyHistoryStep(shown: Moment)
      modifies this
      ensures history == old(history)
      ensures State() == ShowStep(old(State()), (old(history.View()), Some(shown)))
    {
      content := shown.content;
      selectedRange := shown.selection;
      selectionReversed := shown.reversed;
      markedRange := None;
    }

    method UndoStep()
      requires Inv(State())
      modifies this, history
      ensures history == old(history)
      ensures State() == Undo(old(State())) && Inv(State())
    {
      UndoKeeps(State());
      if readOnly || markedRange.Some? {
        return;
      }
      var shown := history.Undo(content);
      if shown.Some? {
        ApplyHistoryStep(shown.value);
      }
    }

    method RedoStep()
      requires Inv(State())
      modifies this, history
      ensures history == old(history)
      ensures State() == Redo(old(State())) && Inv(State())
    {
      RedoKeeps(State());
      if readOnly || markedRange.Some? {
        return;
      }
      var shown := history.Redo(content);
      if shown.Some? {
        ApplyHistoryStep(shown.value);
      }
    }

    method SelectRange(range: Range)
      modifies this
      ensures history == old(history)
      ensures State() == Select(old(State()), range)
    {
      if range.start > range.end || range.end > |content|
         || !IsBoundary(content, range.start) || !IsBoundary(content, range.end) {
        return;
      }
      selectedRange := range;
      selectionReversed := false;
    }

    method ExtendSelectionTo(offset: nat)
      modifies this
      ensures history == old(history)
      ensures State() == ExtendTo(old(State()), offset)
    {
      if selectionReversed {
        selectedRange := Range(offset, selectedRange.end);
      } else {
        selectedRange := Range(selectedRange.start, offset);
      }
      if selectedRange.end < selectedRange.start {
        selectionReversed := !selectionReversed;
        selectedRange := Range(selectedRange.end, selectedRange.start);
      }
      if selectedWordRange.Some? {
        selectedRange := Range(Least(selectedRange.start, selectedWordRange.value.start), selectedRange.end);
        selectedRange := Range(selectedRange.start, Most(selectedRange.end, selectedWordRange.value.end));
      }
    }
  }
}
