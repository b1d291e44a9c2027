/**
  The shrink-pattern command. Construction snapshots a block of one order,
  rows beginStep..endStep, each walked from (beginTrack, beginColumn) to
  (endTrack, endColumn). Redo keeps every other captured row, packed upward
  (captured row 2k goes to step beginStep + k), and empties the rows left
  below; undo writes every captured row back where it came from.
 */
module ShrinkPattern {
  import opened Steps
  import opened Songs
  import opened CellWalk
  import opened Grids
  import opened Regions

  datatype ShrinkCommand = ShrinkCommand(
    song: nat, track: nat, column: nat, order: nat, bStep: nat, eStep: nat,
    prevCells: seq<seq<Cell>>)

  /** The region the command walks: its width is the captured row width. */
  function ShrinkRegion(cmd: ShrinkCommand): Region
    requires |cmd.prevCells| > 0
  {
    Region(cmd.track, cmd.column, cmd.order, cmd.bStep, |cmd.prevCells[0]|, |cmd.prevCells|)
  }

  /** A command whose snapshot is a full rectangle of the block it was built for. */
  predicate WellFormedCommand(sh: Shape, cmd: ShrinkCommand) {
    && |cmd.prevCells| > 0
    && cmd.bStep <= cmd.eStep
    && |cmd.prevCells| == cmd.eStep - cmd.bStep + 1
    && Rectangular(cmd.prevCells, |cmd.prevCells[0]|)
    && ValidRegion(sh, ShrinkRegion(cmd))
    && GridFits(ShrinkRegion(cmd), cmd.prevCells)
  }

  /**
    The constructor: the snapshot has endStep - beginStep + 1 rows, each
    11*(endTrack - beginTrack) + endColumn - beginColumn + 1 cells wide, and
    holds the block's cells row by row along the walk.
   */
  function NewShrink(song: Song, songNum: nat, bT: nat, bC: nat, order: nat, bStep: nat,
                     eT: nat, eC: nat, eStep: nat): (cmd: ShrinkCommand)
    requires BlockArgs(ShapeOf(song), bT, bC, order, bStep, eT, eC, eStep)
    ensures WellFormedCommand(ShapeOf(song), cmd)
    ensures cmd.track == bT && cmd.column == bC && cmd.order == order
    ensures cmd.bStep == bStep && cmd.eStep == eStep
    ensures |cmd.prevCells| == eStep - bStep + 1
    ensures forall i :: 0 <= i < |cmd.prevCells| ==>
              |cmd.prevCells[i]| == N_COLUMN * (eT - bT) + eC - bC + 1
    ensures forall i, j :: 0 <= i < |cmd.prevCells| && 0 <= j < |cmd.prevCells[i]| ==>
              cmd.prevCells[i][j] == Read(song, CellAddr(ShapeOf(song), ShrinkRegion(cmd), i, j))
  {
    BlockRegionValid(ShapeOf(song), bT, bC, order, bStep, eT, eC, eStep);
    var r := BlockRegion(bT, bC, order, bStep, eT, eC, eStep);
    ShrinkCommand(songNum, bT, bC, order, bStep, eStep, ReadRegion(song, r))
  }

  /** The number of rows redo keeps: captured rows 0, 2, 4, ... below the height. */
  function KeptRows(h: nat): (n: nat)
    ensures n <= h && (h > 0 ==> n >= 1)
  {
    (h + 1) / 2
  }

  /** Row k is kept exactly when captured row 2k exists. */
  lemma KeptRowsExact(h: nat, k: nat)
    ensures k < KeptRows(h) <==> 2 * k < h
  {}

  /** A row of empty values along the walk from column c. */
  function EmptyRow(c: nat, w: nat): (row: seq<Cell>)
    ensures |row| == w
  {
    seq(w, j requires 0 <= j < w => EmptyCell((c + j) % N_COLUMN))
  }

  /** Row k of what redo writes: captured row 2k while there is one, else an empty row. */
  function CompactedRow(cmd: ShrinkCommand, k: nat): (row: seq<Cell>)
    requires |cmd.prevCells| > 0 && Rectangular(cmd.prevCells, |cmd.prevCells[0]|)
    requires GridFits(ShrinkRegion(cmd), cmd.prevCells)
    requires k < |cmd.prevCells|
    ensures |row| == |cmd.prevCells[0]|
    ensures forall j :: 0 <= j < |row| ==> Fits((cmd.column + j) % N_COLUMN, row[j])
  {
    KeptRowsExact(|cmd.prevCells|, k);
    if k < KeptRows(|cmd.prevCells|) then cmd.prevCells[2 * k]
    else EmptyRow(cmd.column, |cmd.prevCells[0]|)
  }

  /** The rows redo writes: every other captured row, then empty rows. */
  function CompactedRows(cmd: ShrinkCommand): (rows: seq<seq<Cell>>)
    requires |cmd.prevCells| > 0 && Rectangular(cmd.prevCells, |cmd.prevCells[0]|)
    requires GridFits(ShrinkRegion(cmd), cmd.prevCells)
    ensures |rows| == |cmd.prevCells| && Rectangular(rows, |cmd.prevCells[0]|)
    ensures GridFits(ShrinkRegion(cmd), rows)
    ensures forall k :: 0 <= k < |rows| ==> rows[k] == CompactedRow(cmd, k)
  {
    seq(|cmd.prevCells|, k requires 0 <= k < |cmd.prevCells| => CompactedRow(cmd, k))
  }

  /** Redo: writes the compacted rows over the whole block, reading nothing but the snapshot. */
  function Redo(song: Song, cmd: ShrinkCommand): (r: Song)
    requires WellFormedCommand(ShapeOf(song), cmd)
    ensures ShapeOf(r) == ShapeOf(song)
  {
    var sh := ShapeOf(song);
    var rows := CompactedRows(cmd);
    GridFitsRegion(sh, ShrinkRegion(cmd), rows);
    WriteAll(song, RegionAddrs(sh, ShrinkRegion(cmd)), Flatten(rows))
  }

  /** Undo: writes every captured row back to its original step. */
  function Undo(song: Song, cmd: ShrinkCommand): (r: Song)
    requires WellFormedCommand(ShapeOf(song), cmd)
    ensures ShapeOf(r) == ShapeOf(song)
  {
    var sh := ShapeOf(song);
    GridFitsRegion(sh, ShrinkRegion(cmd), cmd.prevCells);
    WriteAll(song, RegionAddrs(sh, ShrinkRegion(cmd)), Flatten(cmd.prevCells))
  }

  /** Every cell redo or undo touches lies in the pattern at the command's order, between its steps. */
  lemma ShrinkTouchesOnlyBlock(sh: Shape, cmd: ShrinkCommand, x: Addr)
    requires WellFormedCommand(sh, cmd)
    requires x in RegionAddrs(sh, ShrinkRegion(cmd))
    ensures x.pattern == sh.orders[cmd.order][x.track]
    ensures cmd.bStep <= x.step <= cmd.eStep
  {
    var r := ShrinkRegion(cmd);
    RegionAddrsLength(sh, r);
    var k :| 0 <= k < |RegionAddrs(sh, r)| && RegionAddrs(sh, r)[k] == x;
    var i, j := RegionAddrsAt(sh, r, k);
  }

  /** Redo leaves every cell outside the block unchanged. */
  lemma ShrinkRedoFrame(song: Song, cmd: ShrinkCommand, x: Addr)
    requires WellFormedCommand(ShapeOf(song), cmd)
    requires ValidAddr(ShapeOf(song), x) && x !in RegionAddrs(ShapeOf(song), ShrinkRegion(cmd))
    ensures Read(Redo(song, cmd), x) == Read(song, x)
  {
    var sh := ShapeOf(song);
    var rows := CompactedRows(cmd);
    GridFitsRegion(sh, ShrinkRegion(cmd), rows);
    WriteAllFrame(song, RegionAddrs(sh, ShrinkRegion(cmd)), Flatten(rows), x);
  }

  /** What redo leaves in cell j of row k of the block. */
  lemma RedoCell(song: Song, cmd: ShrinkCommand, k: nat, j: nat)
    requires WellFormedCommand(ShapeOf(song), cmd)
    requires k < |cmd.prevCells| && j < |cmd.prevCells[0]|
    ensures Read(Redo(song, cmd), CellAddr(ShapeOf(song), ShrinkRegion(cmd), k, j)) == CompactedRows(cmd)[k][j]
  {
    WriteRegionCell(song, ShrinkRegion(cmd), CompactedRows(cmd), k, j);
  }

  /** Redo packs captured row 2k into step beginStep + k, for every k below ceil(h/2). */
  lemma ShrinkRedoKeepsEvenRows(song: Song, cmd: ShrinkCommand, k: nat, j: nat)
    requires WellFormedCommand(ShapeOf(song), cmd)
    requires 2 * k < |cmd.prevCells| && j < |cmd.prevCells[0]|
    ensures CellAddr(ShapeOf(song), ShrinkRegion(cmd), k, j).step == cmd.bStep + k
    ensures Read(Redo(song, cmd), CellAddr(ShapeOf(song), ShrinkRegion(cmd), k, j)) == cmd.prevCells[2 * k][j]
  {
    var h := |cmd.prevCells|;
    KeptRowsExact(h, k);
    assert CompactedRow(cmd, k) == cmd.prevCells[2 * k];
    RedoCell(song, cmd, k, j);
  }

  /**
    Redo empties every walked cell from step beginStep + ceil(h/2) through
    endStep: -1 for note, instrument, volume and effect values, "--" for effect ids.
   */
  lemma ShrinkRedoClearsTail(song: Song, cmd: ShrinkCommand, k: nat, j: nat)
    requires WellFormedCommand(ShapeOf(song), cmd)
    requires (|cmd.prevCells| + 1) / 2 <= k < |cmd.prevCells| && j < |cmd.prevCells[0]|
    ensures var a := CellAddr(ShapeOf(song), ShrinkRegion(cmd), k, j);
            && a.step <= cmd.eStep
            && Read(Redo(song, cmd), a) == (if IsEffectIdColumn(a.column) then Id("--") else Num(-1))
  {
    CellAddrColumn(ShapeOf(song), ShrinkRegion(cmd), k, j);
    CompactedTailEmpty(cmd, k, j);
    RedoCell(song, cmd, k, j);
  }

  /** Past the kept rows, what redo writes is the empty value of the cell's column. */
  lemma CompactedTailEmpty(cmd: ShrinkCommand, k: nat, j: nat)
    requires |cmd.prevCells| > 0 && Rectangular(cmd.prevCells, |cmd.prevCells[0]|)
    requires GridFits(ShrinkRegion(cmd), cmd.prevCells)
    requires (|cmd.prevCells| + 1) / 2 <= k < |cmd.prevCells| && j < |cmd.prevCells[0]|
    ensures CompactedRows(cmd)[k][j] == EmptyCell((cmd.column + j) % N_COLUMN)
  {
    assert !(k < KeptRows(|cmd.prevCells|));
    assert CompactedRows(cmd)[k] == EmptyRow(cmd.column, |cmd.prevCells[0]|);
  }

  /** Redo reads only the snapshot, so applying it twice is applying it once. */
  lemma ShrinkRedoIdempotent(song: Song, cmd: ShrinkCommand)
    requires WellFormedCommand(ShapeOf(song), cmd)
    ensures Redo(Redo(song, cmd), cmd) == Redo(song, cmd)
  {
    var sh, r := ShapeOf(song), ShrinkRegion(cmd);
    var once := Redo(song, cmd);
    var twice := Redo(once, cmd);
    var addrs, rows := RegionAddrs(sh, r), CompactedRows(cmd);
    GridFitsRegion(sh, r, rows);
    forall x | ValidAddr(sh, x)
      ensures Read(twice, x) == Read(once, x)
    {
      if x in addrs {
        WriteAllOverrides(once, song, addrs, Flatten(rows), x);
      } else {
        WriteAllFrame(once, addrs, Flatten(rows), x);
      }
    }
    Extensionality(twice, once);
  }

  /** Undo writes captured row i, cell j, back into its cell, whatever the song holds now. */
  lemma ShrinkUndoWritesSnapshot(song: Song, cmd: ShrinkCommand, i: nat, j: nat)
    requires WellFormedCommand(ShapeOf(song), cmd)
    requires i < |cmd.prevCells| && j < |cmd.prevCells[0]|
    ensures CellAddr(ShapeOf(song), ShrinkRegion(cmd), i, j).step == cmd.bStep + i
    ensures Read(Undo(song, cmd), CellAddr(ShapeOf(song), ShrinkRegion(cmd), i, j)) == cmd.prevCells[i][j]
  {
    WriteRegionCell(song, ShrinkRegion(cmd), cmd.prevCells, i, j);
  }

  /** Undo after redo restores the song exactly. */
  lemma ShrinkUndoAfterRedo(song: Song, songNum: nat, bT: nat, bC: nat, order: nat, bStep: nat,
                            eT: nat, eC: nat, eStep: nat)
    requires BlockArgs(ShapeOf(song), bT, bC, order, bStep, eT, eC, eStep)
    ensures var cmd := NewShrink(song, songNum, bT, bC, order, bStep, eT, eC, eStep);
            Undo(Redo(song, cmd), cmd) == song
  {
    var cmd := NewShrink(song, songNum, bT, bC, order, bStep, eT, eC, eStep);
    var sh, r := ShapeOf(song), ShrinkRegion(cmd);
    var done := Redo(song, cmd);
    var addrs := RegionAddrs(sh, r);
    BlockRegionValid(sh, bT, bC, order, bStep, eT, eC, eStep);
    assert cmd.prevCells == ReadRegion(song, r);
    assert Flatten(cmd.prevCells) == ReadAll(song, addrs);
    forall x | ValidAddr(sh, x) && x !in addrs
      ensures Read(done, x) == Read(song, x)
    {
      ShrinkRedoFrame(song, cmd, x);
    }
    RestoreSnapshot(song, done, addrs);
  }
}
