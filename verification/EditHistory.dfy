/** `EditHistory` as the source keeps it: two stacks of steps, changed in place
    (src/input.rs:321-494). Each method is proved to be the operation of the same name in
    `UndoHistory`, whose lemmas say what it means for the text. */
module EditHistories {
  import opened Options
  import opened Splices
  import opened UndoHistory
  import opened Utf8

  class EditHistory {
    var undo: seq<EditRecord>
    var redo: seq<EditRecord>

    ghost function View(): History
      reads this
    {
      History(undo, redo)
    }

    constructor ()
      ensures View() == History([], [])
    {
      undo, redo := [], [];
    }

    method Record(content: Bytes, range: Range, text: Bytes, selection: Range, reversed: bool, now: nat)
      requires Valid(content) && Fits(content, range) && Valid(text)
      modifies this
      ensures View() == Recorded(old(View()), Trimmed(content, range, text), selection, reversed, now)
    {
      hide Valid, IsBoundary, Trimmed;
      var edit := TrimmedSplice(content, range, text);
      if edit.removed == [] && edit.inserted == [] {
        return;
      }
      redo := [];
      if undo != [] {
        var last := undo[|undo| - 1];
        if !last.isSealed && !last.composing && Elapsed(now, last.editedAt) < UNDO_GROUP_INTERVAL {
          if edit.removed == [] && last.inserted != [] && edit.start == last.start + |last.inserted| {
            undo := undo[..|undo| - 1] + [last.(inserted := last.inserted + edit.inserted, editedAt := now)];
            return;
          }
          if edit.inserted == [] && last.inserted == [] && last.removed != [] {
            if edit.start + |edit.removed| == last.start {
              undo := undo[..|undo| - 1]
                + [last.(start := edit.start, removed := edit.removed + last.removed, editedAt := now)];
              return;
            }
            if edit.start == last.start {
              undo := undo[..|undo| - 1] + [last.(removed := last.removed + edit.removed, editedAt := now)];
              return;
            }
          }
        }
      }
      Push(EditRecord(edit.start, edit.removed, edit.inserted, selection, reversed, now, false, false));
    }

    method RecordComposition(content: Bytes, range: Range, text: Bytes, selection: Range, reversed: bool, now: nat)
      requires range.start <= range.end <= |content|
      modifies this
      ensures View() == RecordedComposition(old(View()), content, range, text, selection, reversed, now)
    {
      redo := [];
      if undo != [] && undo[|undo| - 1].composing {
        var last := undo[|undo| - 1];
        if last.start <= range.start && range.end <= last.start + |last.inserted| {
          var inserted := last.inserted[..range.start - last.start] + text + last.inserted[range.end - last.start..];
          undo := undo[..|undo| - 1] + [last.(inserted := inserted, editedAt := now)];
          return;
        }
        undo := undo[..|undo| - 1] + [last.(composing := false, isSealed := true)];
      }
      Push(EditRecord(range.start, content[range.start..range.end], text, selection, reversed, now, false, true));
    }

    method FinalizeComposition()
      modifies this
      ensures View() == Finalized(old(View()))
    {
      if undo != [] && undo[|undo| - 1].composing {
        var last := undo[|undo| - 1];
        undo := undo[..|undo| - 1] + [last.(composing := false, isSealed := true)];
        if last.removed == last.inserted {
          undo := undo[..|undo| - 1];
        }
      }
    }

    method Seal()
      modifies this
      ensures View() == Sealed(old(View()))
    {
      if undo != [] {
        undo := undo[..|undo| - 1] + [undo[|undo| - 1].(isSealed := true)];
      }
    }

    method Push(record: EditRecord)
      modifies this`undo
      ensures undo == Capped(old(undo) + [record])
    {
      undo := undo + [record];
      if |undo| > UNDO_HISTORY_CAP {
        var excess := |undo| - UNDO_HISTORY_CAP;
        undo := undo[excess..];
      }
    }

    method Undo(content: Bytes) returns (shown: Option<Moment>)
      modifies this
      ensures (View(), shown) == Undone(old(View()), content)
    {
      if undo == [] {
        return None;
      }
      var record := undo[|undo| - 1];
      undo := undo[..|undo| - 1];
      if !Holds(content, record.start, record.inserted) {
        undo, redo := [], [];
        return None;
      }
      var restored := content[..record.start] + record.removed + content[record.start + |record.inserted|..];
      var before := record.selectionBefore;
      var selection := Range(Least(before.start, |restored|), Least(before.end, |restored|));
      redo := redo + [record];
      return Some(Moment(restored, selection, record.reversedBefore));
    }

    method Redo(content: Bytes) returns (shown: Option<Moment>)
      modifies this
      ensures (View(), shown) == Redone(old(View()), content)
    {
      if redo == [] {
        return None;
      }
      var record := redo[|redo| - 1];
      redo := redo[..|redo| - 1];
      if !Holds(content, record.start, record.removed) {
        undo, redo := [], [];
        return None;
      }
      var applied := content[..record.start] + record.inserted + content[record.start + |record.removed|..];
      var caret := record.start + |record.inserted|;
      undo := undo + [record];
      return Some(Moment(applied, Range(caret, caret), false));
    }
  }
}
