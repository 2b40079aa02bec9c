# Fyne text editor: history, find, replace and auto-close

A Dafny model of the logic inside a small desktop text editor written in Go on
the Fyne toolkit (`src/main.go`). Once the windows, dialogs, menus and
shortcuts are set aside, the editor holds four pieces of logic:

- **History.** The widget's text lives beside two package-level slices of
  whole-text snapshots, `undoText` and `redoText`, most recent last.
  - Every non-empty change records the new text on the undo stack. Once the
    stack holds six or more snapshots, the oldest one is dropped.
  - `undo` pushes the current text onto the redo stack, with the same
    eviction, and pops the latest undo snapshot into the widget.
  - `redo` pushes the current text onto the undo stack, with no eviction,
    and pops the latest redo snapshot into the widget.
  - `new` empties the redo stack and forgets the current path.
- **Find.** The first occurrence of the needle (`strings.Index`), with the
  row (`strings.Count` of newlines before it) and the column (the length of
  the last `strings.Split` segment of the prefix).
- **Replace.** When the needle occurs, its first occurrence is substituted
  (`strings.Replace` with a count of one).
- **Auto-close.** A change whose last byte is `{`, `(` or `[` gets `}`, `)`
  or `]` appended.

Go strings are byte strings. Here a `string` stands for one, one `char` per
byte, and every offset and length is in bytes.

Modules:

- `Locate` (`locate.dfy`) holds the pure search, row/column and replace
  functions, with their lemmas.
- `Brackets` (`brackets.dfy`) holds auto-close.
- `History` (`history.dfy`) holds the history as a value.
  - The `History` datatype is the text plus the two stacks.
  - One function per handler gives the state after it: `AfterRecord`,
    `AfterChange`, `AfterUndo`, `AfterRedo`, `AfterNew`, `AfterReplace`.
  - `Step` and `Run` apply single commands and command sequences.
  - The lemmas state the bounds, the no-op cases and the round trips.
- `Session` (`session.dfy`) holds the `Editor` class. Its fields are the
  text, the two stacks and the path. Its methods update them in place. Each
  method is proved to take exactly the corresponding `History` step, so the
  `History` lemmas carry over to the object.

Recording an edit evicts the oldest undo snapshot once six are held, but
`redo` appends to `undoText` without that check (src/main.go:81). So only
the redo stack stays within six, and `History.UndoStackCanExceedCapacity`
exhibits a run from the initial state that leaves seven undo snapshots.

## Model

| member | source | states |
|---|---|---|
| `Locate.IndexFrom` | src/main.go:89 | the result is -1 or an offset at or after the start where the needle occurs; -1 exactly when nothing occurs from the start on; otherwise no earlier occurrence from the start |
| `Locate.Index` | src/main.go:89 | `strings.Index`: -1 exactly when the needle occurs nowhere; otherwise the needle occurs at the result and at no smaller offset (an empty needle gives 0) |
| `Locate.NewlineCount` | src/main.go:91 | `strings.Count(prefix, "\n")`: a count of newline bytes, never more than the length of the text (its exact value is stated by the next row) |
| `Locate.NewlineCountIsMultiplicity` | src/main.go:91 | the `strings.Count` of `"\n"` equals the number of newline bytes in the text (its multiset multiplicity) |
| `Locate.Split` | src/main.go:92 | `strings.Split` on `"\n"` yields one more segment than there are newlines, so indexing it by the row cannot fail, and no segment holds a newline |
| `Locate.JoinSplit` | src/main.go:92 | joining the segments with newlines gives back the text: `Split` loses nothing |
| `Locate.SplitLast` | src/main.go:92-93 | the segment at index `row`, the last one, is the text after the last newline |
| `Locate.LastSegment` | src/main.go:92-93 | that last segment is a suffix of the text without newlines that is either the whole text or preceded by a newline |
| `Locate.Find` | src/main.go:89-93 | `None` exactly when the needle occurs nowhere; otherwise the reported index is the first occurrence |
| `Locate.FindRowCol` | src/main.go:91-93 | when found: the row is the number of newline bytes before the index; the column is at most the index, the column bytes before the index hold no newline, and the byte before them is a newline unless the column reaches the start |
| `Locate.FindExample` | src/main.go:89-93 | "abc" in "xxabcxx" is found at offset 2, row 0, column 2 |
| `Locate.ReplaceFirst` | src/main.go:110 | `strings.Replace(text, s, s2, 1)`: unchanged when `s` is absent; otherwise the text before the first occurrence is kept, `s2` stands in place of `s`, the rest follows unchanged, and the length changes by `|s2| - |s|` |
| `Locate.LaterOccurrencesKept` | src/main.go:110 | every occurrence of the needle after the first one (not overlapping it) is still there in the result, shifted by `|s2| - |s|` |
| `Locate.ReplaceBySelf` | src/main.go:110 | replacing the needle by itself leaves the text unchanged |
| `Locate.ReplaceExample` | src/main.go:107-110 | replacing "ab" by "cd" in "ab ab" gives "cd ab" |
| `Brackets.AutoClose` | src/main.go:147-157 | the result extends the text by at most one byte; it grows exactly when the text is non-empty and its last byte is an opening bracket, and the added byte is that bracket's closer |
| `Brackets.AutoCloseCases` | src/main.go:147-157 | `{`, `(` and `[` at the end get `}`, `)` and `]` appended; an empty text or any other last byte is left as it is |
| `Brackets.AutoCloseEndsClosed` | src/main.go:148-156 | a non-empty auto-closed text never ends in an opening bracket |
| `Brackets.AutoCloseIdempotent` | src/main.go:148-156 | auto-closing an auto-closed text changes nothing |
| `History.PushBounded` | src/main.go:68-73 | the pushed entry is last; below six entries the stack grows by one and keeps its entries; from six on it drops the oldest and keeps its size; a stack within six stays within six |
| `History.AfterRecord` | src/main.go:158-162 | the reference step `Session.Editor.RecordEdit` is proved equal to: the text and the redo stack are kept, and `s` becomes the latest undo snapshot |
| `History.AfterChange` | src/main.go:146-164 | the reference step `Session.Editor.Edit` is proved equal to: the redo stack is kept; an empty edit becomes the text and is not recorded; a non-empty edit becomes the text auto-closed and is pushed, unclosed, onto the undo stack with eviction |
| `History.AfterUndo` | src/main.go:66-77 | the reference step `Session.Editor.Undo` is proved equal to: nothing changes when the undo stack is empty; otherwise the latest undo snapshot is popped into the text and the old text is pushed onto the redo stack with eviction |
| `History.AfterRedo` | src/main.go:79-85 | the reference step `Session.Editor.Redo` is proved equal to: nothing changes when the redo stack is empty; otherwise the latest redo snapshot is popped into the text and the old text is appended to the undo stack without eviction |
| `History.AfterNew` | src/main.go:118-120 | the reference step `Session.Editor.New` is proved equal to: the redo stack is emptied, and the text and the undo stack are kept |
| `History.AfterReplace` | src/main.go:105-111 | the reference step `Session.Editor.Replace` is proved equal to: both stacks are kept and the text becomes its first-occurrence replacement, which is the text itself when the needle is absent |
| `History.RecordPushes` | src/main.go:158-162 | recording `s` makes `s` the latest undo snapshot, appended below six entries and with the oldest dropped from six on; the text and the redo stack are untouched |
| `History.EmptyStacksAreNoOps` | src/main.go:66-85 | undo with an empty undo stack and redo with an empty redo stack leave the text and both stacks unchanged |
| `History.StepKeepsBounded` | src/main.go:66-120 | record, undo, redo, new and replace each keep the redo stack within six entries |
| `History.RunKeepsBounded` | src/main.go:66-120 | after any sequence of those commands the redo stack holds at most six entries |
| `History.UndoThenRedo` | src/main.go:66-85 | undo then redo restores the text and the undo stack, and the redo stack unless it held six or more, in which case it loses its oldest entry |
| `History.RedoThenUndo` | src/main.go:66-85 | redo then undo restores the text and both stacks when the redo stack holds at most six |
| `History.RedoAfterEditIsStale` | src/main.go:66-85 | after any undo that pops a snapshot, an edit (empty or not) leaves the redo stack as the undo left it, so a following redo brings back the text from before the undo |
| `History.UndoStackCanExceedCapacity` | src/main.go:79-85 | some command sequence from the initial state leaves seven snapshots on the undo stack, because redo pushes without eviction |
| `Session.Editor.constructor` | src/main.go:18-20 | a new session has an empty path, empty stacks and an empty text |
| `Session.Editor.RecordEdit` | src/main.go:158-162 | the undo stack becomes the bounded push of the recorded text; nothing else changes |
| `Session.Editor.Edit` | src/main.go:146-164 | the change handler: the text becomes the auto-closed edit; a non-empty edit is recorded; the redo stack and the path do not change |
| `Session.Editor.Undo` | src/main.go:66-77 | the session takes the undo step and keeps its redo stack within six |
| `Session.Editor.Redo` | src/main.go:79-85 | the session takes the redo step and keeps its redo stack within six |
| `Session.Editor.New` | src/main.go:118-120 | the path and the redo stack are emptied; the text and the undo stack are kept |
| `Session.Editor.Replace` | src/main.go:105-111 | `found` holds exactly when the needle occurs; the text becomes the first-occurrence replacement when found and stays as it was otherwise |

## Left out

- File I/O: `save` and `open` (src/main.go:22-63) write and read whole files. They call `log.Fatal` on errors and set the path from dialog results. None of this is modelled.
- Dialogs, shortcuts, menus, window title and quit confirmation (src/main.go:139-297) are toolkit glue and are left out. This includes the file-save dialog that `new` opens, which may later set the path. `Session.Editor.New` models only the two resets before it.
- The menu and shortcut handlers for a new file clear the widget's text before calling `new` (src/main.go:175, src/main.go:260). That call sits in the toolkit glue; `Session.Editor.New` does not touch the text.
- The cursor move and refresh after a find (src/main.go:94-97) are widget side effects. `Locate.Find` returns the row and column instead. The "Found" and "Not found" messages are left out as well.
- Whether `SetText` fires the change handler again is toolkit behaviour that is not visible in this code. Record, auto-close, undo, redo and replace are modelled as separate steps. So the second recording that a re-fired handler would make after auto-close, undo, redo or replace is not modelled.
- The replacement text comes from a second dialog, which the user may cancel. `Session.Editor.Replace` takes it as a parameter and always applies it when the needle occurs.
- The unused `Char` struct (src/main.go:133-137) and any UTF-8 or rune semantics are left out. The code indexes bytes throughout.
