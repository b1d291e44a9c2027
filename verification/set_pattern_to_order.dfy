/**
  Assigning a pattern number to one order-list cell. The target (song, track,
  order) and the previous pattern number are fixed when the command is made;
  the new pattern number and the second-digit flag may change when a later
  command is merged into this one. Two hex digits typed into the same cell make
  two commands; the second is merged into the first, so one undo restores the
  number the cell held before the first digit.
 */
module SetPatternToOrder {
  import opened Wrappers
  import opened Songs

  datatype SetPatternToOrderCommand = SetPatternToOrderCommand(
    song: nat, track: nat, order: nat,
    pattern: nat, prevPattern: nat, isSecondEntry: bool)

  /** The order cell exists and the pattern number names an existing pattern of the track. */
  predicate ValidAssignment(sh: Shape, track: nat, order: nat, pattern: nat) {
    && WellFormed(sh)
    && track < TrackCount(sh)
    && order < OrderCount(sh)
    && pattern < |sh.sizes[track]|
  }

  /** The song with order cell (order, track) set to `pattern`. */
  function SetOrderCell(song: Song, track: nat, order: nat, pattern: nat): (r: Song)
    requires ValidAssignment(ShapeOf(song), track, order, pattern)
    ensures WellFormed(ShapeOf(r))
    ensures r.tracks == song.tracks && |r.orders| == |song.orders|
    ensures r.orders[order][track] == pattern
    ensures forall o, t :: 0 <= o < |r.orders| && 0 <= t < |r.orders[o]| && (o, t) != (order, track) ==>
              r.orders[o][t] == song.orders[o][t]
  {
    var row: seq<nat> := song.orders[order][track := pattern];
    var r := song.(orders := song.orders[order := row]);
    assert ShapeOf(r).sizes == ShapeOf(song).sizes;
    r
  }

  /** The command as constructed: the previous pattern number is read from the target cell. */
  function NewSetPatternToOrder(song: Song, songNum: nat, track: nat, order: nat, pattern: nat,
                                secondEntry: bool): (cmd: SetPatternToOrderCommand)
    requires ValidAssignment(ShapeOf(song), track, order, pattern)
    ensures cmd.song == songNum && cmd.track == track && cmd.order == order
    ensures cmd.pattern == pattern && cmd.isSecondEntry == secondEntry
    ensures cmd.prevPattern == song.orders[order][track]
    ensures ValidAssignment(ShapeOf(song), track, order, cmd.prevPattern)
  {
    SetPatternToOrderCommand(songNum, track, order, pattern, song.orders[order][track], secondEntry)
  }

  /** Both pattern numbers of the command are valid for the target cell. */
  predicate WellFormedCommand(sh: Shape, cmd: SetPatternToOrderCommand) {
    && ValidAssignment(sh, cmd.track, cmd.order, cmd.pattern)
    && ValidAssignment(sh, cmd.track, cmd.order, cmd.prevPattern)
  }

  /** Redo sets the target cell to the new number; the patterns and every other order cell stay. */
  function Redo(song: Song, cmd: SetPatternToOrderCommand): (r: Song)
    requires WellFormedCommand(ShapeOf(song), cmd)
    ensures WellFormedCommand(ShapeOf(r), cmd) && ShapeOf(r).sizes == ShapeOf(song).sizes
    ensures |r.orders[cmd.order]| == TrackCount(ShapeOf(r)) && r.orders[cmd.order][cmd.track] == cmd.pattern
    ensures r.tracks == song.tracks && |r.orders| == |song.orders|
    ensures forall o, t :: 0 <= o < |r.orders| && 0 <= t < |r.orders[o]| && (o, t) != (cmd.order, cmd.track) ==>
              r.orders[o][t] == song.orders[o][t]
  {
    SetOrderCell(song, cmd.track, cmd.order, cmd.pattern)
  }

  /** Undo sets the target cell back to the captured number; nothing else changes. */
  function Undo(song: Song, cmd: SetPatternToOrderCommand): (r: Song)
    requires WellFormedCommand(ShapeOf(song), cmd)
    ensures WellFormedCommand(ShapeOf(r), cmd) && ShapeOf(r).sizes == ShapeOf(song).sizes
    ensures |r.orders[cmd.order]| == TrackCount(ShapeOf(r)) && r.orders[cmd.order][cmd.track] == cmd.prevPattern
    ensures r.tracks == song.tracks && |r.orders| == |song.orders|
    ensures forall o, t :: 0 <= o < |r.orders| && 0 <= t < |r.orders[o]| && (o, t) != (cmd.order, cmd.track) ==>
              r.orders[o][t] == song.orders[o][t]
  {
    SetOrderCell(song, cmd.track, cmd.order, cmd.prevPattern)
  }

  /**
    Merging `next` into `prev`: possible when both target the same cell, `next`
    is the second digit and `prev` has not already taken one. The fused command
    keeps prev's captured previous number and takes next's new number.
   */
  function MergeWith(prev: SetPatternToOrderCommand, next: SetPatternToOrderCommand): (r: Option<SetPatternToOrderCommand>)
    ensures r.Some? <==> prev.song == next.song && prev.track == next.track && prev.order == next.order
                         && next.isSecondEntry && !prev.isSecondEntry
    ensures r.Some? ==> r.value.prevPattern == prev.prevPattern && r.value.pattern == next.pattern
                        && r.value.isSecondEntry
                        && (r.value.song, r.value.track, r.value.order) == (prev.song, prev.track, prev.order)
  {
    if prev.song == next.song && prev.track == next.track && prev.order == next.order
       && next.isSecondEntry && !prev.isSecondEntry
    then Some(prev.(pattern := next.pattern, isSecondEntry := true))
    else None
  }

  /** Undoing a fresh assignment restores the song it was made on. */
  lemma UndoAfterRedo(song: Song, songNum: nat, track: nat, order: nat, pattern: nat, secondEntry: bool)
    requires ValidAssignment(ShapeOf(song), track, order, pattern)
    ensures var cmd := NewSetPatternToOrder(song, songNum, track, order, pattern, secondEntry);
            Undo(Redo(song, cmd), cmd) == song
  {
    var cmd := NewSetPatternToOrder(song, songNum, track, order, pattern, secondEntry);
    var r := Undo(Redo(song, cmd), cmd);
    assert r.orders[order] == song.orders[order];
    assert r.orders == song.orders;
  }

  /**
    The merge law for two-digit entry: after the first digit's command, the
    second digit's command is made on the changed song and merged in. The
    fused command does what both did, and undoing it once gives back the song
    as it was before the first digit.
   */
  lemma MergeLaw(s0: Song, songNum: nat, track: nat, order: nat, p1: nat, p2: nat)
    requires ValidAssignment(ShapeOf(s0), track, order, p1) && ValidAssignment(ShapeOf(s0), track, order, p2)
    ensures var first := NewSetPatternToOrder(s0, songNum, track, order, p1, false);
            var s1 := Redo(s0, first);
            var second := NewSetPatternToOrder(s1, songNum, track, order, p2, true);
            var merged := MergeWith(first, second);
            && merged.Some?
            && WellFormedCommand(ShapeOf(s0), merged.value)
            && Redo(s0, merged.value) == Redo(s1, second)
            && Undo(Redo(s1, second), merged.value) == s0
  {
    var first := NewSetPatternToOrder(s0, songNum, track, order, p1, false);
    var s1 := Redo(s0, first);
    var second := NewSetPatternToOrder(s1, songNum, track, order, p2, true);
    var m := MergeWith(first, second).value;
    var s2 := Redo(s1, second);
    assert Redo(s0, m).orders[order] == s2.orders[order];
    assert Redo(s0, m).orders == s2.orders;
    assert Undo(s2, m).orders[order] == s0.orders[order];
    assert Undo(s2, m).orders == s0.orders;
  }

  /** A merged command takes no further digit: merging a third command into it is refused. */
  lemma MergedTakesNoMore(prev: SetPatternToOrderCommand, next: SetPatternToOrderCommand,
                          third: SetPatternToOrderCommand)
    requires MergeWith(prev, next).Some?
    ensures MergeWith(MergeWith(prev, next).value, third).None?
  {}
}
