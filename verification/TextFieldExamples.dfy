/** Runs of a text field from the empty one, in which one undo takes back two compositions and a redo
    moves the caret (src/input.rs:402-411, 479-493). */
module TextFieldExamples {
  import opened Options
  import opened Splices
  import opened TextFields
  import opened UndoHistory
  import Utf16Offsets
  import opened Utf8

  // ---- A composition inside a step left open ----

  const A: Bytes := [0x61]
  const B: Bytes := [0x62]
  const AB: Bytes := [0x61, 0x62]

  const MARK_A: Event := EvReplaceAndMark(None, A, None, 0)
  const LOAD_A: Event := EvSetContent(A)
  const MARK_B: Event := EvReplaceAndMark(None, B, None, 1)
  const COMMIT_B: Event := EvReplaceText(None, B, 2)

  const STEP_A := EditRecord(0, [], A, Range(0, 0), false, 0, false, true)
  const MARKED_A := Field(A, Range(1, 1), false, Some(Range(0, 1)), None, false, History([STEP_A], []))
  const LOADED_A := MARKED_A.(marked := None)
  const STEP_AB := STEP_A.(inserted := AB, editedAt := 1)
  const MARKED_AB := Field(AB, Range(2, 2), false, Some(Range(1, 2)), None, false, History([STEP_AB], []))
  const CLOSED_AB := STEP_AB.(editedAt := 2, isSealed := true, composing := false)
  const COMMITTED_AB := MARKED_AB.(marked := None, history := History([CLOSED_AB], []))

  lemma AIsMarked()
    ensures ReplaceAndMark(EMPTY_FIELD, None, A, None, 0) == MARKED_A
  {
    var none: Bytes := [];
    assert none[0..0] == none && Splice([], Range(0, 0), A) == A;
    assert Closed([]) + [STEP_A] == [STEP_A];
  }

  lemma BIsMarked()
    ensures ReplaceAndMark(LOADED_A, None, B, None, 1) == MARKED_AB
  {
    assert Splice(A, Range(1, 1), B) == AB;
    assert Below([STEP_A]) + [STEP_AB] == [STEP_AB];
  }

  lemma BIsCommitted()
    ensures ReplaceText(MARKED_AB, None, B, 2) == COMMITTED_AB
  {
    assert Splice(AB, Range(1, 2), B) == AB;
    assert Below([STEP_AB]) + [STEP_AB.(editedAt := 2)] == [STEP_AB.(editedAt := 2)];
    assert Below([STEP_AB.(editedAt := 2)]) + [CLOSED_AB] == [CLOSED_AB];
  }

  lemma LettersAreValid()
    ensures Valid(A) && Valid(B)
  {}

  /** "a" is marked, and loading the content that is there takes the mark off and leaves its step
      open; "b" is composed behind it. One undo takes back both, not just "b". */
  lemma CompositionsCanUndoTogether()
    ensures Inv(EMPTY_FIELD)
    ensures Run(EMPTY_FIELD, [MARK_A, LOAD_A]) == LOADED_A && LOADED_A.content == A
    ensures LOADED_A.marked == None && StartsInside(LOADED_A, MarkingTarget(LOADED_A, None))
    ensures Run(EMPTY_FIELD, [MARK_A, LOAD_A, MARK_B, COMMIT_B]) == COMMITTED_AB && COMMITTED_AB.content == AB
    ensures Now(Undo(COMMITTED_AB)).content == []
  {
    EmptyFieldIsConsistent();
    FirstTwo();
    LastTwo();
    RunInTwo(EMPTY_FIELD, [MARK_A, LOAD_A], [MARK_B, COMMIT_B]);
    assert [MARK_A, LOAD_A] + [MARK_B, COMMIT_B] == [MARK_A, LOAD_A, MARK_B, COMMIT_B];
    assert Splice(AB, Range(0, 2), []) == [];
  }

  lemma FirstTwo()
    requires Inv(EMPTY_FIELD)
    ensures Run(EMPTY_FIELD, [MARK_A, LOAD_A]) == LOADED_A
  {
    hide Inv, ReplaceAndMark, Valid;
    LettersAreValid();
    AIsMarked();
    assert [MARK_A, LOAD_A][1..] == [LOAD_A];
    assert Next(EMPTY_FIELD, MARK_A) == MARKED_A;
    assert Next(MARKED_A, LOAD_A) == LOADED_A;
    assert Run(MARKED_A, [LOAD_A]) == Run(LOADED_A, [LOAD_A][1..]);
  }

  lemma LastTwo()
    requires Inv(LOADED_A)
    ensures Run(LOADED_A, [MARK_B, COMMIT_B]) == COMMITTED_AB
  {
    hide Inv, ReplaceAndMark, ReplaceText, Valid;
    LettersAreValid();
    BIsMarked();
    BIsCommitted();
    assert [MARK_B, COMMIT_B][1..] == [COMMIT_B];
    assert Next(LOADED_A, MARK_B) == MARKED_AB;
    assert Next(MARKED_AB, COMMIT_B) == COMMITTED_AB;
    assert Run(MARKED_AB, [COMMIT_B]) == Run(COMMITTED_AB, [COMMIT_B][1..]);
  }

  lemma {:induction false} RunInTwo(f: Field, first: seq<Event>, second: seq<Event>)
    requires Inv(f)
    ensures Run(f, first + second) == Run(Run(f, first), second)
    decreases |first|
  {
    hide Inv, Next;
    if first == [] {
      assert first + second == second;
    } else {
      assert (first + second)[1..] == first[1..] + second;
      RunInTwo(Next(f, first[0]), first[1..], second);
    }
  }

  // ---- Typing that shares its end with what it replaces ----

  const XB: Bytes := [0x78, 0x62]

  const TYPE_AB: Event := EvReplaceText(None, AB, 0)
  const SELECT_AB: Event := EvSelect(Range(0, 2))
  const TYPE_XB: Event := EvReplaceText(None, XB, 1)

  const TYPED_STEP := EditRecord(0, [], AB, Range(0, 0), false, 0, false, false)
  const TYPED_AB := Field(AB, Range(2, 2), false, None, None, false, History([TYPED_STEP], []))
  const SELECTED_AB := TYPED_AB.(selected := Range(0, 2))
  const X_STEP := EditRecord(0, A, [0x78], Range(0, 2), false, 1, false, false)
  const TYPED_XB := Field(XB, Range(2, 2), false, None, None, false, History([TYPED_STEP, X_STEP], []))

  lemma AbIsTyped()
    ensures ReplaceText(EMPTY_FIELD, None, AB, 0) == TYPED_AB
  {
    hide Trimmed;
    InsertionIsNotTrimmed([], 0, AB);
    assert Splice([], Range(0, 0), AB) == AB;
    assert [] + [TYPED_STEP] == [TYPED_STEP];
  }

  lemma OnlyTheStartDiffers()
    ensures SharedEnd(AB, XB) == 1 && Trim(AB, XB) == Edit(0, A, [0x78])
  {
    assert AB[..1][0] != XB[..1][0] && AB[..2][0] != XB[..2][0] && AB[0..][0] != XB[0..][0];
    assert !SharesPrefix(AB, XB, 1) && !SharesPrefix(AB, XB, 2);
    assert AB[1..] == XB[1..] && SharesSuffix(AB, XB, 1) && !SharesSuffix(AB, XB, 2);
    assert AB[0..1] == A && XB[0..1] == [0x78];
  }

  lemma XbIsTyped()
    ensures ReplaceText(SELECTED_AB, None, XB, 1) == TYPED_XB
  {
    hide Trim;
    OnlyTheStartDiffers();
    assert AB[0..2] == AB;
    assert Splice(AB, Range(0, 2), XB) == XB;
    assert [TYPED_STEP] + [X_STEP] == [TYPED_STEP, X_STEP];
  }

  /** "ab" is typed and selected, and "xb" typed over it leaves the caret behind "b"; undone and
      redone, it is before. */
  lemma RedoCanMoveTheCaret()
    ensures Inv(EMPTY_FIELD)
    ensures var f := Run(EMPTY_FIELD, [TYPE_AB, SELECT_AB, TYPE_XB]);
            var g := Run(EMPTY_FIELD, [TYPE_AB, SELECT_AB, TYPE_XB, EvUndo, EvRedo]);
            && f.content == g.content == XB && f.selected == Range(2, 2) && g.selected == Range(1, 1)
  {
    hide Inv, ReplaceText, Run, Next;
    EmptyFieldIsConsistent();
    XbAfterThree();
    RunInTwo(EMPTY_FIELD, [TYPE_AB, SELECT_AB, TYPE_XB], [EvUndo, EvRedo]);
    assert [TYPE_AB, SELECT_AB, TYPE_XB] + [EvUndo, EvRedo] == [TYPE_AB, SELECT_AB, TYPE_XB, EvUndo, EvRedo];
    UndoneAndRedone(TYPED_XB);
    RedoCaretIff(TYPED_XB);
  }

  lemma UndoneAndRedone(f: Field)
    requires Inv(f)
    ensures Run(f, [EvUndo, EvRedo]) == Redo(Undo(f))
  {
    hide Inv, Next, Run, Undo, Redo;
    TwoEvents(f, EvUndo, EvRedo);
    UndoHappens(f);
    RedoHappens(Undo(f));
  }

  lemma UndoHappens(f: Field)
    requires Inv(f)
    ensures Next(f, EvUndo) == Undo(f)
  {
    hide Inv, Undo, Redo, Unmark, SetContent, Clear, Select, ExtendTo, SelectWord, SelectAllByClick;
  }

  lemma RedoHappens(f: Field)
    requires Inv(f)
    ensures Next(f, EvRedo) == Redo(f)
  {
    hide Inv, Undo, Redo, Unmark, SetContent, Clear, Select, ExtendTo, SelectWord, SelectAllByClick;
  }

  lemma TypingHappens(f: Field, text: Bytes, now: nat)
    requires Inv(f) && Valid(text)
    ensures f.readOnly || Fits(f.content, TypingTarget(f, None))
    ensures Next(f, EvReplaceText(None, text, now)) == ReplaceText(f, None, text, now)
  {
    hide Inv, Valid, Fits, Undo, Redo, Unmark, SetContent, Clear, Select, ExtendTo, SelectWord, SelectAllByClick;
    TargetsFit(f, None);
  }

  lemma SelectHappens(f: Field, range: Range)
    requires Inv(f)
    ensures Next(f, EvSelect(range)) == Select(f, range)
  {
    hide Inv, Undo, Redo, Unmark, SetContent, Clear, Select, ExtendTo, SelectWord, SelectAllByClick;
  }

  lemma TwoEvents(f: Field, d: Event, e: Event)
    requires Inv(f)
    ensures Run(f, [d, e]) == Next(Next(f, d), e)
  {
    hide Inv, Next;
    assert [d, e][1..] == [e] && [e][1..] == [];
    assert Run(f, [d, e]) == Run(Next(f, d), [e]) == Run(Next(Next(f, d), e), []);
  }

  lemma WordsAreValid()
    ensures Valid(AB) && Valid(XB)
  {}

  lemma XbAfterThree()
    requires Inv(EMPTY_FIELD)
    ensures Run(EMPTY_FIELD, [TYPE_AB, SELECT_AB, TYPE_XB]) == TYPED_XB
  {
    hide Inv, ReplaceText, Next, Valid;
    WordsAreValid();
    AbIsTyped();
    TypingHappens(EMPTY_FIELD, AB, 0);
    SelectHappens(TYPED_AB, Range(0, 2));
    XbIsTyped();
    TypingHappens(SELECTED_AB, XB, 1);
    TwoEvents(TYPED_AB, SELECT_AB, TYPE_XB);
    assert [TYPE_AB, SELECT_AB, TYPE_XB][1..] == [SELECT_AB, TYPE_XB];
    assert Run(EMPTY_FIELD, [TYPE_AB, SELECT_AB, TYPE_XB]) == Run(TYPED_AB, [SELECT_AB, TYPE_XB]);
  }

  // ---- A composition that leaves the caret before its text ----

  const MARK_AB: Event := EvReplaceAndMark(None, AB, Some(Range(0, 0)), 0)

  const COMPOSED_STEP := EditRecord(0, [], AB, Range(0, 0), false, 0, true, false)
  const COMPOSED_AB := Field(AB, Range(0, 0), false, None, None, false, History([COMPOSED_STEP], []))
  const COMPOSING_AB := COMPOSED_AB.(
    marked := Some(Range(0, 2)), history := History([COMPOSED_STEP.(isSealed := false, composing := true)], []))

  lemma AbIsMarked()
    ensures ReplaceAndMark(EMPTY_FIELD, None, AB, Some(Range(0, 0)), 0) == COMPOSING_AB
  {
    var none: Bytes := [];
    assert none[0..0] == none && Splice([], Range(0, 0), AB) == AB;
    var open := COMPOSED_STEP.(isSealed := false, composing := true);
    assert Closed([]) + [open] == [open];
    assert Utf16Offsets.RangeFromRelativeUtf16(AB, 0, Range(0, 0)) == Range(0, 0);
  }

  lemma MarkIsTakenOff()
    ensures Unmark(COMPOSING_AB) == COMPOSED_AB
  {
    var open := COMPOSED_STEP.(isSealed := false, composing := true);
    assert Below([open]) + [COMPOSED_STEP] == [COMPOSED_STEP];
  }

  /** An input method composes "ab" with the caret before it and takes the mark off: the caret stays,
      but undone and redone it is behind the text, which shares no end with the nothing it replaced. */
  lemma ComposedCaretCanMove()
    ensures Inv(EMPTY_FIELD) && SharedEnd([], AB) == 0
    ensures var f := Run(EMPTY_FIELD, [MARK_AB, EvUnmark]);
            var g := Run(EMPTY_FIELD, [MARK_AB, EvUnmark, EvUndo, EvRedo]);
            && f.content == g.content == AB && f.selected == Range(0, 0) && g.selected == Range(2, 2)
  {
    hide Inv, ReplaceAndMark, Unmark, Run, Next;
    EmptyFieldIsConsistent();
    ComposedAfterTwo();
    RunInTwo(EMPTY_FIELD, [MARK_AB, EvUnmark], [EvUndo, EvRedo]);
    assert [MARK_AB, EvUnmark] + [EvUndo, EvRedo] == [MARK_AB, EvUnmark, EvUndo, EvRedo];
    UndoneAndRedone(COMPOSED_AB);
    RedoCaretIff(COMPOSED_AB);
  }

  lemma ComposedAfterTwo()
    requires Inv(EMPTY_FIELD)
    ensures Run(EMPTY_FIELD, [MARK_AB, EvUnmark]) == COMPOSED_AB
  {
    hide Inv, ReplaceAndMark, Unmark, Valid;
    AbIsMarked();
    MarkIsTakenOff();
    WordsAreValid();
    assert Next(EMPTY_FIELD, MARK_AB) == COMPOSING_AB;
    assert Next(COMPOSING_AB, EvUnmark) == COMPOSED_AB;
    TwoEvents(EMPTY_FIELD, MARK_AB, EvUnmark);
  }
}
