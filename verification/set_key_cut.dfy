/**
  Setting a key cut at one step. The command remembers the target position
  (song, track, order, step) and the whole step as it was: note, instrument,
  volume and every effect slot.
 */
module SetKeyCut {
  import opened Steps
  import opened Songs

  datatype SetKeyCutCommand = SetKeyCutCommand(
    song: nat, track: nat, order: nat, step: nat,
    prevNote: int, prevInst: int, prevVol: int, prevEff: EffectSlots)

  /** The step exists in the song. */
  predicate ValidTarget(sh: Shape, track: nat, order: nat, step: nat) {
    && WellFormed(sh)
    && track < TrackCount(sh)
    && order < OrderCount(sh)
    && step < SizeAt(sh, track, order)
  }

  /** The step that track `track` plays at order `order`, step `step`. */
  function TargetStep(song: Song, track: nat, order: nat, step: nat): Step
    requires ValidTarget(ShapeOf(song), track, order, step)
  {
    song.tracks[track].patterns[PatternAt(ShapeOf(song), track, order)][step]
  }

  /** The eleven cell addresses of the target step. */
  function StepAddrs(sh: Shape, track: nat, order: nat, step: nat): (addrs: seq<Addr>)
    requires ValidTarget(sh, track, order, step)
    ensures |addrs| == N_COLUMN && AllValid(sh, addrs)
    ensures forall c :: 0 <= c < N_COLUMN ==> addrs[c] == AddrAt(sh, track, order, step, c)
  {
    seq(N_COLUMN, c requires 0 <= c < N_COLUMN => AddrAt(sh, track, order, step, c))
  }

  /** A step spelled out as its eleven cells. */
  function StepCells(st: Step): (cells: seq<Cell>)
    ensures |cells| == N_COLUMN
    ensures forall c :: 0 <= c < N_COLUMN ==> cells[c] == GetCell(st, c)
  {
    seq(N_COLUMN, c requires 0 <= c < N_COLUMN => GetCell(st, c))
  }

  /** The step the command's snapshot describes. */
  function PreviousStep(cmd: SetKeyCutCommand): Step {
    Step(cmd.prevNote, cmd.prevInst, cmd.prevVol, cmd.prevEff)
  }

  /** The command as constructed: the target and a snapshot of every field of the step there. */
  function NewSetKeyCut(song: Song, songNum: nat, track: nat, order: nat, step: nat): (cmd: SetKeyCutCommand)
    requires ValidTarget(ShapeOf(song), track, order, step)
    ensures cmd.song == songNum && cmd.track == track && cmd.order == order && cmd.step == step
    ensures PreviousStep(cmd) == TargetStep(song, track, order, step)
  {
    var st := TargetStep(song, track, order, step);
    SetKeyCutCommand(songNum, track, order, step, st.note, st.instrument, st.volume, st.effects)
  }

  /** Two songs give the same command exactly when the target steps agree: the snapshot misses no field. */
  lemma SnapshotIsComplete(s1: Song, s2: Song, songNum: nat, track: nat, order: nat, step: nat)
    requires ValidTarget(ShapeOf(s1), track, order, step) && ValidTarget(ShapeOf(s2), track, order, step)
    ensures NewSetKeyCut(s1, songNum, track, order, step) == NewSetKeyCut(s2, songNum, track, order, step)
            <==> TargetStep(s1, track, order, step) == TargetStep(s2, track, order, step)
  {}

  /** Writes the snapshot back over the target step. */
  function RestoreStep(song: Song, cmd: SetKeyCutCommand): (r: Song)
    requires ValidTarget(ShapeOf(song), cmd.track, cmd.order, cmd.step)
    ensures ShapeOf(r) == ShapeOf(song)
  {
    var addrs := StepAddrs(ShapeOf(song), cmd.track, cmd.order, cmd.step);
    WriteAll(song, addrs, StepCells(PreviousStep(cmd)))
  }

  /**
    Writing the snapshot back undoes any change confined to the target step:
    the song returns to the one the command was made on.
   */
  lemma RestoreStepUndoes(orig: Song, cur: Song, songNum: nat, track: nat, order: nat, step: nat)
    requires ValidTarget(ShapeOf(orig), track, order, step) && ShapeOf(cur) == ShapeOf(orig)
    requires forall x :: ValidAddr(ShapeOf(orig), x) && x !in StepAddrs(ShapeOf(orig), track, order, step) ==>
               Read(cur, x) == Read(orig, x)
    ensures RestoreStep(cur, NewSetKeyCut(orig, songNum, track, order, step)) == orig
  {
    var sh := ShapeOf(orig);
    var addrs := StepAddrs(sh, track, order, step);
    var cmd := NewSetKeyCut(orig, songNum, track, order, step);
    assert StepCells(PreviousStep(cmd)) == ReadAll(orig, addrs);
    RestoreSnapshot(orig, cur, addrs);
  }
}
