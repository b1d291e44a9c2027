/**
  Deep-cloning an instrument into a free slot. The command records only two
  slot numbers, the new one and the source one, and no instrument contents:
  apply copies the source into the new slot, and revert removes the new slot
  again, so it works at slot granularity. Apply and revert report success as a
  flag, and no merge is declared, so every clone is its own history entry.
 */
module DeepCloneInstrument {

  datatype DeepCloneCommand = DeepCloneCommand(cloneInstNum: int, refInstNum: int)

  /** The instrument table seen at slot granularity: slot number to instrument contents. */
  type Slots<I> = map<int, I>

  /** Apply succeeds when the source exists and the target slot is free; the target gets a copy. */
  function Redo<I>(slots: Slots<I>, cmd: DeepCloneCommand): (r: (Slots<I>, bool))
    ensures r.1 <==> cmd.refInstNum in slots && cmd.cloneInstNum !in slots
    ensures r.1 ==> r.0.Keys == slots.Keys + {cmd.cloneInstNum} && r.0[cmd.cloneInstNum] == slots[cmd.refInstNum]
    ensures r.1 ==> forall n :: n in slots ==> r.0[n] == slots[n]
    ensures !r.1 ==> r.0 == slots
  {
    if cmd.refInstNum in slots && cmd.cloneInstNum !in slots
    then (slots[cmd.cloneInstNum := slots[cmd.refInstNum]], true)
    else (slots, false)
  }

  /** Revert succeeds when the cloned slot is occupied, and frees it. */
  function Undo<I>(slots: Slots<I>, cmd: DeepCloneCommand): (r: (Slots<I>, bool))
    ensures r.1 <==> cmd.cloneInstNum in slots
    ensures r.1 ==> r.0.Keys == slots.Keys - {cmd.cloneInstNum}
    ensures r.1 ==> forall n :: n in r.0 ==> r.0[n] == slots[n]
    ensures !r.1 ==> r.0 == slots
  {
    if cmd.cloneInstNum in slots then (slots - {cmd.cloneInstNum}, true) else (slots, false)
  }

  /** A successful clone is undone exactly, whatever the instruments hold. */
  lemma UndoAfterRedo<I>(slots: Slots<I>, cmd: DeepCloneCommand)
    requires Redo(slots, cmd).1
    ensures Undo(Redo(slots, cmd).0, cmd) == (slots, true)
  {
    var done := Redo(slots, cmd).0;
    var r := Undo(done, cmd).0;
    assert r.Keys == slots.Keys;
    assert forall n :: n in r ==> r[n] == done[n] == slots[n];
    assert r == slots;
  }

  /** Redo after undo gives back the cloned table. */
  lemma RedoAfterUndo<I>(slots: Slots<I>, cmd: DeepCloneCommand)
    requires Redo(slots, cmd).1
    ensures var done := Redo(slots, cmd).0;
            Redo(Undo(done, cmd).0, cmd) == (done, true)
  {
    var done := Redo(slots, cmd).0;
    var undone := Undo(done, cmd).0;
    var again := Redo(undone, cmd).0;
    assert again.Keys == done.Keys;
    assert again[cmd.cloneInstNum] == undone[cmd.refInstNum] == done[cmd.refInstNum] == done[cmd.cloneInstNum];
    assert forall n :: n in again ==> again[n] == done[n];
    assert again == done;
  }
}
