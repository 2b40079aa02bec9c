/**
 The editor's history: the current text with an undo stack and a redo stack of
 whole-text snapshots, most recent last. Recording an edit and undoing evict
 the oldest entry of the stack they push onto once it holds six; redoing
 pushes onto the undo stack without that check.

 This module states each step as a function of the state before it; the
 `Session` module runs the same steps in place on an `Editor` object.
 */
module History {
  import Brackets
  import Locate

  /** The depth at which recording and undoing start to evict. */
  const Capacity: nat := 6

  /**
   Pushes `x` onto a stack, first dropping the oldest entry when the stack
   already holds `Capacity` or more.
   */
  function PushBounded(stack: seq<string>, x: string): (r: seq<string>)
    ensures |r| > 0 && r[|r| - 1] == x
    ensures |stack| < Capacity ==> |r| == |stack| + 1 && r[..|stack|] == stack
    ensures |stack| >= Capacity ==> |r| == |stack| && r[..|r| - 1] == stack[1..]
    ensures |stack| <= Capacity ==> |r| <= Capacity
  {
    if |stack| < Capacity then stack + [x] else stack[1..] + [x]
  }

  /** The text in the widget and the two snapshot stacks. */
  datatype History = History(text: string, undo: seq<string>, redo: seq<string>)

  /** The state the editor starts in: empty text, empty stacks. */
  const Initial := History([], [], [])

  /** The one invariant the history keeps: the redo stack holds at most six. */
  predicate Bounded(h: History)
  {
    |h.redo| <= Capacity
  }

  /** Records `s` as the latest undo snapshot. */
  function AfterRecord(h: History, s: string): (r: History)
    ensures r.text == h.text && r.redo == h.redo
    ensures |r.undo| > 0 && r.undo[|r.undo| - 1] == s
  {
    h.(undo := PushBounded(h.undo, s))
  }

  /**
   The change handler after the user's edit left `s` in the widget: a
   non-empty `s` is auto-closed and recorded; an empty one is neither.
   */
  function AfterChange(h: History, s: string): (r: History)
    ensures r.redo == h.redo
    ensures |s| == 0 ==> r.text == s && r.undo == h.undo
    ensures |s| > 0 ==> r.text == Brackets.AutoClose(s) && r.undo == PushBounded(h.undo, s)
  {
    if |s| > 0 then AfterRecord(h, s).(text := Brackets.AutoClose(s))
    else h.(text := s)
  }

  /**
   Undo: when there is an undo snapshot, the current text goes onto the redo
   stack (bounded), and the latest undo snapshot is popped into the text.
   */
  function AfterUndo(h: History): (r: History)
    ensures h.undo == [] ==> r == h
    ensures h.undo != [] ==> r.undo + [r.text] == h.undo
    ensures h.undo != [] ==> r.redo == PushBounded(h.redo, h.text)
  {
    if h.undo == [] then h
    else History(h.undo[|h.undo| - 1], h.undo[..|h.undo| - 1], PushBounded(h.redo, h.text))
  }

  /**
   Redo: when there is a redo snapshot, the current text goes onto the undo
   stack (unbounded), and the latest redo snapshot is popped into the text.
   */
  function AfterRedo(h: History): (r: History)
    ensures h.redo == [] ==> r == h
    ensures h.redo != [] ==> r.redo + [r.text] == h.redo && r.undo == h.undo + [h.text]
  {
    if h.redo == [] then h
    else History(h.redo[|h.redo| - 1], h.undo + [h.text], h.redo[..|h.redo| - 1])
  }

  /** New file: the redo stack is emptied; the text and the undo stack stay. */
  function AfterNew(h: History): (r: History)
    ensures r.text == h.text && r.undo == h.undo && r.redo == []
  {
    h.(redo := [])
  }

  /** Replace: the first occurrence of `s` becomes `s2` when `s` occurs. */
  function AfterReplace(h: History, s: string, s2: string): (r: History)
    ensures r.undo == h.undo && r.redo == h.redo
    ensures r.text == Locate.ReplaceFirst(h.text, s, s2)
  {
    if Locate.Index(h.text, s) != -1 then h.(text := Locate.ReplaceFirst(h.text, s, s2)) else h
  }

  /** The commands that act on the history. */
  datatype Command =
    | Change(typed: string)
    | Undo
    | Redo
    | New
    | Replace(needle: string, with: string)

  function Step(h: History, cmd: Command): History
  {
    match cmd
    case Change(s) => AfterChange(h, s)
    case Undo => AfterUndo(h)
    case Redo => AfterRedo(h)
    case New => AfterNew(h)
    case Replace(s, s2) => AfterReplace(h, s, s2)
  }

  /** The state after running `cmds` in order from `h`. */
  function Run(h: History, cmds: seq<Command>): History
    decreases |cmds|
  {
    if cmds == [] then h else Run(Step(h, cmds[0]), cmds[1..])
  }

  /** Every command keeps the redo stack within six entries. */
  lemma StepKeepsBounded(h: History, cmd: Command)
    requires Bounded(h)
    ensures Bounded(Step(h, cmd))
  {
  }

  /**
   Whatever commands run from a state whose redo stack holds at most six
   (the initial state among them), the redo stack never holds more than six.
   */
  lemma {:induction false} RunKeepsBounded(h: History, cmds: seq<Command>)
    requires Bounded(h)
    ensures Bounded(Run(h, cmds))
    decreases |cmds|
  {
    if cmds != [] {
      StepKeepsBounded(h, cmds[0]);
      RunKeepsBounded(Step(h, cmds[0]), cmds[1..]);
    }
  }

  /** Undo with an empty undo stack, and redo with an empty redo stack, change nothing. */
  lemma EmptyStacksAreNoOps(h: History)
    ensures h.undo == [] ==> AfterUndo(h) == h
    ensures h.redo == [] ==> AfterRedo(h) == h
  {
  }

  /**
   Recording `s` makes it the latest undo snapshot; below six entries the
   stack grows by one, from six on the oldest entry is dropped and the size
   stays. The text and the redo stack are not touched.
   */
  lemma RecordPushes(h: History, s: string)
    ensures var h' := AfterRecord(h, s);
            h'.text == h.text && h'.redo == h.redo &&
            |h'.undo| > 0 && h'.undo[|h'.undo| - 1] == s &&
            (|h.undo| < Capacity ==> h'.undo == h.undo + [s]) &&
            (|h.undo| >= Capacity ==> h'.undo == h.undo[1..] + [s])
  {
    var u := AfterRecord(h, s).undo;
    if |h.undo| < Capacity {
      assert u == u[..|h.undo|] + [s];
    } else {
      assert u == u[..|u| - 1] + [s];
    }
  }

  /**
   Undo then redo gives back the text and the undo stack; the redo stack too
   unless it was full, in which case its oldest entry is lost.
   */
  lemma UndoThenRedo(h: History)
    requires h.undo != []
    ensures var h' := AfterRedo(AfterUndo(h));
            h'.text == h.text && h'.undo == h.undo &&
            h'.redo == if |h.redo| < Capacity then h.redo else h.redo[1..]
  {
    var u := AfterUndo(h);
    assert u.undo + [u.text] == h.undo;
    var r := u.redo;
    assert r == r[..|r| - 1] + [h.text];
  }

  /** Redo then undo gives back the whole state, as long as the redo stack is within bound. */
  lemma RedoThenUndo(h: History)
    requires h.redo != []
    requires Bounded(h)
    ensures AfterUndo(AfterRedo(h)) == h
  {
    var r := AfterRedo(h);
    assert r.undo[..|r.undo| - 1] == h.undo;
    assert r.redo + [r.text] == h.redo;
  }

  /**
   Edits made after an undo leave the redo stack in place, so a redo that
   follows brings back the text from before the undo and drops the edit.
   */
  lemma RedoAfterEditIsStale(h: History, s: string)
    requires h.undo != []
    ensures AfterChange(AfterUndo(h), s).redo == AfterUndo(h).redo
    ensures AfterRedo(AfterChange(AfterUndo(h), s)).text == h.text
  {
  }

  /** Running two command lists one after the other is running their concatenation. */
  lemma {:induction false} RunAppend(h: History, a: seq<Command>, b: seq<Command>)
    ensures Run(h, a + b) == Run(Run(h, a), b)
    decreases |a|
  {
    if a != [] {
      assert (a + b)[1..] == a[1..] + b;
      RunAppend(Step(h, a[0]), a[1..], b);
    } else {
      assert a + b == b;
    }
  }

  /** Running a single command is taking its step. */
  lemma RunOne(h: History, cmd: Command)
    ensures Run(h, [cmd]) == Step(h, cmd)
  {
    assert [cmd][1..] == [];
  }

  /**
   The undo stack has no bound of its own: from the initial state, six edits,
   an undo, one more edit and a redo leave seven entries on it.
   */
  lemma UndoStackCanExceedCapacity()
    ensures exists cmds :: |Run(Initial, cmds).undo| == Capacity + 1
  {
    var c := Change("a");
    var cmds: seq<Command> := [];
    var h := Initial;
    while |cmds| < Capacity
      invariant |cmds| <= Capacity
      invariant |h.undo| == |cmds| && h.redo == []
      invariant h == Run(Initial, cmds)
    {
      RunAppend(Initial, cmds, [c]);
      RunOne(h, c);
      h, cmds := Step(h, c), cmds + [c];
    }
    var h1, h2 := Step(h, Undo), Step(Step(h, Undo), c);
    assert |h1.undo| == Capacity - 1 && |h1.redo| == 1;
    assert |h2.undo| == Capacity && |h2.redo| == 1;
    RunAppend(Initial, cmds, [Undo]);
    RunOne(h, Undo);
    RunAppend(Initial, cmds + [Undo], [c]);
    RunOne(h1, c);
    RunAppend(Initial, cmds + [Undo] + [c], [Redo]);
    RunOne(h2, Redo);
    assert |Run(Initial, cmds + [Undo] + [c] + [Redo]).undo| == Capacity + 1;
  }
}
