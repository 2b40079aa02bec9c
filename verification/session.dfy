/**
 The editing session: the widget's text, the undo and redo stacks and the
 current file path, all updated in place by the editor's handlers. Each
 handler is proved to take exactly the step the `History` module describes,
 so the lemmas proved there (bounds, round trips, no-ops) hold of the object.
 */
module Session {
  import opened History
  import Brackets
  import Locate

  class Editor {
    /** The text shown in the multi-line entry widget. */
    var text: string
    /** Snapshots to undo to, most recent last. */
    var undo: seq<string>
    /** Snapshots to redo to, most recent last. */
    var redo: seq<string>
    /** The file the buffer was opened from or saved to; empty when there is none. */
    var path: string

    /** The history part of the session, as a value. */
    function State(): History
      reads this
    {
      History(text, undo, redo)
    }

    /** The session invariant: the redo stack holds at most six snapshots. */
    ghost predicate Valid()
      reads this
    {
      Bounded(State())
    }

    /** A fresh session: empty text, no history, no path. */
    constructor ()
      ensures Valid() && State() == Initial && path == []
    {
      text, undo, redo, path := [], [], [], [];
    }

    /** Pushes `s` onto the undo stack, evicting the oldest snapshot when six or more are held. */
    method RecordEdit(s: string)
      modifies this`undo
      ensures State() == AfterRecord(old(State()), s)
    {
      if |undo| < Capacity {
        undo := undo + [s];
      } else {
        undo := undo[1..] + [s];
      }
    }

    /**
     The change handler, run after the user's edit left `s` in the widget:
     an opening bracket at the end gets its closer, and a non-empty `s` is
     recorded for undo.
     */
    method Edit(s: string)
      requires Valid()
      modifies this`text, this`undo
      ensures Valid() && State() == AfterChange(old(State()), s)
    {
      text := s;
      if |s| > 0 {
        text := Brackets.AutoClose(s);
        RecordEdit(s);
      }
    }

    /**
     Undo: when there is something to undo, the current text goes onto the
     redo stack (evicting its oldest snapshot when it holds six) and the most
     recent undo snapshot becomes the text.
     */
    method Undo()
      requires Valid()
      modifies this`text, this`undo, this`redo
      ensures Valid() && State() == AfterUndo(old(State()))
    {
      if |undo| > 0 {
        if |redo| < Capacity {
          redo := redo + [text];
        } else {
          redo := redo[1..];
          redo := redo + [text];
        }
        text := undo[|undo| - 1];
        undo := undo[..|undo| - 1];
      }
    }

    /**
     Redo: when there is something to redo, the current text goes onto the
     undo stack, with no eviction, and the most recent redo snapshot becomes
     the text.
     */
    method Redo()
      requires Valid()
      modifies this`text, this`undo, this`redo
      ensures Valid() && State() == AfterRedo(old(State()))
    {
      if |redo| > 0 {
        undo := undo + [text];
        text := redo[|redo| - 1];
        redo := redo[..|redo| - 1];
      }
    }

    /** New file: forgets the path and empties the redo stack; the undo stack is kept. */
    method New()
      requires Valid()
      modifies this`path, this`redo
      ensures Valid() && path == [] && State() == AfterNew(old(State()))
    {
      path := [];
      redo := [];
    }

    /**
     Replace: when `s` occurs in the text, its first occurrence is replaced
     by `s2`; `found` tells whether it occurred.
     */
    method Replace(s: string, s2: string) returns (found: bool)
      requires Valid()
      modifies this`text
      ensures Valid() && State() == AfterReplace(old(State()), s, s2)
      ensures found <==> exists j: nat :: Locate.OccursAt(old(text), s, j)
    {
      var index := Locate.Index(text, s);
      found := index != -1;
      if found {
        text := Locate.ReplaceFirst(text, s, s2);
      }
    }
  }
}
