/**
  Changing the values of a block by one signed amount. The command fixes a
  block of one order (begin and end track, column and step; a single order),
  the amount, and whether FM values run reversed, all at construction, and it
  holds the previous numbers as a rectangular grid, one row per step. How the
  amount is applied to each column is not part of this model.
 */
module ChangeValues {
  import opened Steps
  import opened Songs
  import opened CellWalk
  import opened Grids
  import opened Regions

  datatype ChangeValuesCommand = ChangeValuesCommand(
    song: nat,
    bTrack: nat, bCol: nat, order: nat, bStep: nat,
    eTrack: nat, eCol: nat, eStep: nat,
    diff: int, fmReverse: bool,
    prevVals: seq<seq<int>>)

  /** The block the command covers, as a region of its one order. */
  function CommandRegion(cmd: ChangeValuesCommand): Region
    requires ValidBlock(cmd.bTrack, cmd.bCol, cmd.eTrack, cmd.eCol) && cmd.bStep <= cmd.eStep
  {
    BlockRegion(cmd.bTrack, cmd.bCol, cmd.order, cmd.bStep, cmd.eTrack, cmd.eCol, cmd.eStep)
  }

  /** The block lies in the song and the snapshot is a full rectangle of it. */
  predicate WellFormedCommand(sh: Shape, cmd: ChangeValuesCommand) {
    && BlockArgs(sh, cmd.bTrack, cmd.bCol, cmd.order, cmd.bStep, cmd.eTrack, cmd.eCol, cmd.eStep)
    && |cmd.prevVals| == cmd.eStep - cmd.bStep + 1
    && Rectangular(cmd.prevVals, BlockWidth(cmd.bTrack, cmd.bCol, cmd.eTrack, cmd.eCol) as nat)
  }

  /**
    The number the snapshot keeps for a cell: its value in a number column.
    An effect-id column holds text, so it keeps the empty number.
   */
  function CellNumber(v: Cell): int {
    match v
    case Num(n) => n
    case Id(_) => EMPTY_NUMBER
  }

  /**
    The constructor: the block's corners, order, amount and FM flag are kept,
    and the previous values are read from the song, one row per step from
    bStep to eStep, each walked from (bT, bC) to (eT, eC).
   */
  function NewChangeValues(song: Song, songNum: nat, bT: nat, bC: nat, order: nat, bStep: nat,
                           eT: nat, eC: nat, eStep: nat, value: int, isFMReversed: bool): (cmd: ChangeValuesCommand)
    requires BlockArgs(ShapeOf(song), bT, bC, order, bStep, eT, eC, eStep)
    ensures WellFormedCommand(ShapeOf(song), cmd)
    ensures cmd.song == songNum && cmd.order == order && cmd.diff == value && cmd.fmReverse == isFMReversed
    ensures (cmd.bTrack, cmd.bCol, cmd.bStep) == (bT, bC, bStep)
    ensures (cmd.eTrack, cmd.eCol, cmd.eStep) == (eT, eC, eStep)
    ensures |cmd.prevVals| == eStep - bStep + 1
    ensures forall i :: 0 <= i < |cmd.prevVals| ==> |cmd.prevVals[i]| == N_COLUMN * (eT - bT) + eC - bC + 1
    ensures forall i, j :: 0 <= i < |cmd.prevVals| && 0 <= j < |cmd.prevVals[i]| ==>
              cmd.prevVals[i][j] == CellNumber(Read(song, CellAddr(ShapeOf(song), CommandRegion(cmd), i, j)))
  {
    var sh := ShapeOf(song);
    BlockRegionValid(sh, bT, bC, order, bStep, eT, eC, eStep);
    var r := BlockRegion(bT, bC, order, bStep, eT, eC, eStep);
    var vals := seq(r.height, i requires 0 <= i < r.height =>
                  seq(r.width, j requires 0 <= j < r.width => CellNumber(Read(song, CellAddr(sh, r, i, j)))));
    ChangeValuesCommand(songNum, bT, bC, order, bStep, eT, eC, eStep, value, isFMReversed, vals)
  }

  /**
    Every cell of a well-formed command's block sits in the pattern its track
    plays at the command's one order, at step bStep + i, and the snapshot
    holds exactly one number per cell.
   */
  lemma CommandCoversOneOrder(sh: Shape, cmd: ChangeValuesCommand, i: nat, j: nat)
    requires WellFormedCommand(sh, cmd) && i < |cmd.prevVals| && j < |cmd.prevVals[i]|
    ensures ValidRegion(sh, CommandRegion(cmd))
    ensures var a := CellAddr(sh, CommandRegion(cmd), i, j);
            && ValidAddr(sh, a)
            && a.pattern == PatternAt(sh, a.track, cmd.order)
            && a.step == cmd.bStep + i
            && a.column == (cmd.bCol + j) % N_COLUMN
            && a.track == cmd.bTrack + (cmd.bCol + j) / N_COLUMN
    ensures |RegionAddrs(sh, CommandRegion(cmd))| == |Flatten(cmd.prevVals)|
  {
    var r := CommandRegion(cmd);
    BlockRegionValid(sh, cmd.bTrack, cmd.bCol, cmd.order, cmd.bStep, cmd.eTrack, cmd.eCol, cmd.eStep);
    CellAddrColumn(sh, r, i, j);
    RegionAddrsLength(sh, r);
    FlattenLength(cmd.prevVals, r.width);
  }

  /**
    The snapshot of a freshly built command: value (i, j) belongs to the cell at
    step bStep + i, in walked column j, of the pattern the track plays at the
    command's order. A number column keeps the cell's number; an effect-id
    column keeps the empty number.
   */
  lemma NewSnapshotReadsBlock(song: Song, songNum: nat, bT: nat, bC: nat, order: nat, bStep: nat,
                              eT: nat, eC: nat, eStep: nat, value: int, isFMReversed: bool,
                              cmd: ChangeValuesCommand, i: nat, j: nat)
    requires BlockArgs(ShapeOf(song), bT, bC, order, bStep, eT, eC, eStep)
    requires cmd == NewChangeValues(song, songNum, bT, bC, order, bStep, eT, eC, eStep, value, isFMReversed)
    requires i <= eStep - bStep && j < BlockWidth(bT, bC, eT, eC)
    ensures i < |cmd.prevVals| && j < |cmd.prevVals[i]| && ValidRegion(ShapeOf(song), CommandRegion(cmd))
    ensures var a := CellAddr(ShapeOf(song), CommandRegion(cmd), i, j);
            && ValidAddr(ShapeOf(song), a)
            && a.step == bStep + i && a.pattern == PatternAt(ShapeOf(song), a.track, order)
            && a.column == (bC + j) % N_COLUMN
            && (!IsEffectIdColumn(a.column) ==> Read(song, a) == Num(cmd.prevVals[i][j]))
            && (IsEffectIdColumn(a.column) ==> cmd.prevVals[i][j] == EMPTY_NUMBER)
  {
    var sh := ShapeOf(song);
    CommandCoversOneOrder(sh, cmd, i, j);
    var a := CellAddr(sh, CommandRegion(cmd), i, j);
    assert cmd.prevVals[i][j] == CellNumber(Read(song, a));
    assert Fits(a.column, Read(song, a));
  }

  /** The last cell of every snapshot row is the block's end cell. */
  lemma CommandRowEndsAtEnd(sh: Shape, cmd: ChangeValuesCommand, i: nat)
    requires WellFormedCommand(sh, cmd) && i < |cmd.prevVals|
    ensures ValidRegion(sh, CommandRegion(cmd))
    ensures var a := CellAddr(sh, CommandRegion(cmd), i, |cmd.prevVals[i]| - 1);
            a.track == cmd.eTrack && a.column == cmd.eCol
  {
    BlockRegionValid(sh, cmd.bTrack, cmd.bCol, cmd.order, cmd.bStep, cmd.eTrack, cmd.eCol, cmd.eStep);
    var r := CommandRegion(cmd);
    var a := CellAddr(sh, r, i, |cmd.prevVals[i]| - 1);
    LinearInjective(a.track, a.column, cmd.eTrack, cmd.eCol);
  }
}
