/**
  An undo history: the commands done so far, oldest first, and the commands
  undone since, most recently undone last. Pushing a command drops everything
  undone; a push may instead merge the new command into the last one done
  when the merge rule of the command kind accepts it. Undo and redo on an
  empty side do nothing.
 */
module History {
  import opened Wrappers

  datatype History<C> = History(done: seq<C>, undone: seq<C>)

  function Empty<C>(): (h: History<C>)
    ensures h.done == [] && h.undone == []
  {
    History([], [])
  }

  /** A sequence backwards. */
  function Reverse<C>(s: seq<C>): (r: seq<C>)
    ensures |r| == |s|
    ensures forall i :: 0 <= i < |s| ==> r[i] == s[|s| - 1 - i]
  {
    if s == [] then [] else Reverse(s[1..]) + [s[0]]
  }

  /**
    Every command the history knows, in the order they were first done: the
    done commands and then the undone ones, the next to be redone first.
   */
  function Timeline<C>(h: History<C>): (t: seq<C>)
    ensures |t| == |h.done| + |h.undone|
    ensures t[..|h.done|] == h.done
  {
    h.done + Reverse(h.undone)
  }

  /**
    Records a command. When something has been done and `merge` fuses the last
    command done with the new one, the fused command replaces the last one;
    otherwise the new command goes on top. Either way nothing stays undone.
   */
  function Push<C>(h: History<C>, cmd: C, merge: (C, C) -> Option<C>): (r: History<C>)
    ensures r.undone == []
    ensures |h.done| > 0 && merge(h.done[|h.done| - 1], cmd).Some? ==>
              |r.done| == |h.done| && r.done[..|h.done| - 1] == h.done[..|h.done| - 1]
              && r.done[|h.done| - 1] == merge(h.done[|h.done| - 1], cmd).value
    ensures !(|h.done| > 0 && merge(h.done[|h.done| - 1], cmd).Some?) ==>
              |r.done| == |h.done| + 1 && r.done[..|h.done|] == h.done && r.done[|h.done|] == cmd
  {
    if |h.done| > 0 && merge(h.done[|h.done| - 1], cmd).Some?
    then History(h.done[..|h.done| - 1] + [merge(h.done[|h.done| - 1], cmd).value], [])
    else History(h.done + [cmd], [])
  }

  /** The merge rule of a command kind that declares none. */
  function NoMerge<C>(prev: C, next: C): (r: Option<C>)
    ensures r.None?
  {
    None
  }

  /** Moves the last command done over to the undone side. */
  function Undo<C>(h: History<C>): (r: History<C>)
    ensures |h.done| == 0 ==> r == h
    ensures |h.done| > 0 ==> |r.done| == |h.done| - 1 && |r.undone| == |h.undone| + 1
                             && r.undone[|h.undone|] == h.done[|h.done| - 1]
  {
    if |h.done| == 0 then h
    else History(h.done[..|h.done| - 1], h.undone + [h.done[|h.done| - 1]])
  }

  /** Moves the last command undone back to the done side. */
  function Redo<C>(h: History<C>): (r: History<C>)
    ensures |h.undone| == 0 ==> r == h
    ensures |h.undone| > 0 ==> |r.done| == |h.done| + 1 && |r.undone| == |h.undone| - 1
                               && r.done[|h.done|] == h.undone[|h.undone| - 1]
  {
    if |h.undone| == 0 then h
    else History(h.done + [h.undone[|h.undone| - 1]], h.undone[..|h.undone| - 1])
  }

  /** Forgets everything. */
  function Clear<C>(h: History<C>): (r: History<C>)
    ensures r.done == [] && r.undone == []
  {
    Empty()
  }

  lemma ReverseSnoc<C>(s: seq<C>, x: C)
    ensures Reverse(s + [x]) == [x] + Reverse(s)
  {
    var a, b := Reverse(s + [x]), [x] + Reverse(s);
    assert |a| == |b|;
    forall i | 0 <= i < |a| ensures a[i] == b[i] {
      if i > 0 {
        assert a[i] == (s + [x])[|s| - i];
      }
    }
  }

  /** Undo and redo move the cursor through the timeline without changing it. */
  lemma UndoRedoKeepTimeline<C>(h: History<C>)
    ensures Timeline(Undo(h)) == Timeline(h)
    ensures Timeline(Redo(h)) == Timeline(h)
  {
    if |h.done| > 0 {
      var last := h.done[|h.done| - 1];
      ReverseSnoc(h.undone, last);
      assert h.done == h.done[..|h.done| - 1] + [last];
    }
    if |h.undone| > 0 {
      var last := h.undone[|h.undone| - 1];
      ReverseSnoc(h.undone[..|h.undone| - 1], last);
      assert h.undone == h.undone[..|h.undone| - 1] + [last];
    }
  }

  /** Redo right after an undo gives back the history as it was. */
  lemma RedoAfterUndo<C>(h: History<C>)
    requires |h.done| > 0
    ensures Redo(Undo(h)) == h
  {
    assert h.done[..|h.done| - 1] + [h.done[|h.done| - 1]] == h.done;
  }

  /** Undo right after a redo gives back the history as it was. */
  lemma UndoAfterRedo<C>(h: History<C>)
    requires |h.undone| > 0
    ensures Undo(Redo(h)) == h
  {
    assert h.undone[..|h.undone| - 1] + [h.undone[|h.undone| - 1]] == h.undone;
  }

  /**
    After a push that does not merge, one undo puts exactly the pushed command
    on the undone side and leaves the earlier done commands as they were: the
    commands that were waiting to be redone are gone for good.
   */
  lemma UndoAfterPush<C>(h: History<C>, cmd: C, merge: (C, C) -> Option<C>)
    requires !(|h.done| > 0 && merge(h.done[|h.done| - 1], cmd).Some?)
    ensures Undo(Push(h, cmd, merge)) == History(h.done, [cmd])
  {
    var p := Push(h, cmd, merge);
    assert p.done[..|p.done| - 1] == h.done;
  }

  /**
    A merging push does not lengthen the history, so the fused command is
    undone in one step: one undo leaves the commands before it.
   */
  lemma UndoAfterMergingPush<C>(h: History<C>, cmd: C, merge: (C, C) -> Option<C>)
    requires |h.done| > 0 && merge(h.done[|h.done| - 1], cmd).Some?
    ensures Undo(Push(h, cmd, merge)).done == h.done[..|h.done| - 1]
    ensures Undo(Push(h, cmd, merge)).undone == [merge(h.done[|h.done| - 1], cmd).value]
  {
  }
}
