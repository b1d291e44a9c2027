/**
  Pasting a copied block over a pattern. Rows go down the steps from
  (order, step); within a row the cells follow the cell walk from
  (track, column). When the step has run past the end of the pattern the
  current cell's track plays, the paste moves on to step 0 of the next order
  row (and stays there for the rest of the block); past the last order row it
  stops. An empty value in the block leaves the pattern's cell alone. The
  snapshot for undo is taken along the same walk.
 */
module PasteOverwrite {
  import opened Steps
  import opened Songs
  import opened CellWalk
  import opened Grids
  import opened Regions

  /** Where the paste stands: an order row and a step in it. */
  datatype Cursor = Cursor(order: nat, step: nat)

  /** The addresses one row visits, the cursor after it, and whether the paste stopped in it. */
  datatype RowWalk = RowWalk(addrs: seq<Addr>, next: Cursor, stopped: bool)

  /** The rows the paste visits, and whether it stopped before the end of the block. */
  datatype BlockWalk = BlockWalk(rows: seq<seq<Addr>>, stopped: bool)

  /** The origin lies in the song and a row of the given width stays inside the track list. */
  predicate ValidOrigin(sh: Shape, track: nat, column: nat, order: nat, width: nat) {
    && WellFormed(sh)
    && order < OrderCount(sh)
    && column < N_COLUMN
    && Linear(track, column) + width <= TrackCount(sh) * N_COLUMN
  }

  /** Cell k of the row lies k cells along the walk from (track, column). */
  predicate OnWalk(row: seq<Addr>, track: nat, column: nat) {
    forall k :: 0 <= k < |row| ==>
      row[k].column < N_COLUMN && Linear(row[k].track, row[k].column) == Linear(track, column) + k
  }

  /** The row walk from cell j on, with the cursor at `cur`. */
  function WalkRow(sh: Shape, track: nat, column: nat, width: nat, j: nat, cur: Cursor): (r: RowWalk)
    requires ValidOrigin(sh, track, column, cur.order, width) && j <= width
    ensures cur.order <= r.next.order < OrderCount(sh)
    ensures AllValid(sh, r.addrs)
    ensures if r.stopped then |r.addrs| < width - j else |r.addrs| == width - j
    ensures forall k :: 0 <= k < |r.addrs| ==>
              r.addrs[k].column < N_COLUMN && Linear(r.addrs[k].track, r.addrs[k].column) == Linear(track, column) + j + k
    decreases width - j
  {
    if j == width then RowWalk([], cur, false)
    else
      var (t, c) := Walk(track, column, width)[j];
      if cur.step < SizeAt(sh, t, cur.order) then
        var rest := WalkRow(sh, track, column, width, j + 1, cur);
        RowWalk([AddrAt(sh, t, cur.order, cur.step, c)] + rest.addrs, rest.next, rest.stopped)
      else if cur.order + 1 < OrderCount(sh) then
        var cur' := Cursor(cur.order + 1, 0);
        var rest := WalkRow(sh, track, column, width, j + 1, cur');
        RowWalk([AddrAt(sh, t, cur'.order, 0, c)] + rest.addrs, rest.next, rest.stopped)
      else
        RowWalk([], cur, true)
  }

  /** The walk of `height` rows from `cur`; the step advances by one after each row. */
  function WalkBlock(sh: Shape, track: nat, column: nat, width: nat, height: nat, cur: Cursor): (r: BlockWalk)
    requires ValidOrigin(sh, track, column, cur.order, width)
    ensures |r.rows| <= height
    decreases height
  {
    if height == 0 then BlockWalk([], false)
    else
      var row := WalkRow(sh, track, column, width, 0, cur);
      if row.stopped then BlockWalk([row.addrs], true)
      else
        var rest := WalkBlock(sh, track, column, width, height - 1, Cursor(row.next.order, row.next.step + 1));
        BlockWalk([row.addrs] + rest.rows, rest.stopped)
  }

  /** A block walk that stops covers fewer than width cells of its last row; one that does not covers the whole block. */
  predicate BlockShape(w: BlockWalk, width: nat, height: nat) {
    && |w.rows| <= height && (!w.stopped ==> |w.rows| == height && Rectangular(w.rows, width))
    && (forall i :: 0 <= i < |w.rows| ==> |w.rows[i]| <= width)
    && (forall i :: 0 <= i < |w.rows| - 1 ==> |w.rows[i]| == width)
    && (w.stopped ==> |w.rows| >= 1 && |w.rows[|w.rows| - 1]| < width)
  }

  lemma {:induction false} WalkBlockShape(sh: Shape, track: nat, column: nat, width: nat, height: nat, cur: Cursor)
    requires ValidOrigin(sh, track, column, cur.order, width)
    ensures BlockShape(WalkBlock(sh, track, column, width, height, cur), width, height)
    decreases height
  {
    if height > 0 {
      var first, stopped, next := WalkBlockSplit(sh, track, column, width, height, cur);
      WalkBlockShape(sh, track, column, width, height - 1, next);
      BlockShapeStep(first, stopped, WalkBlock(sh, track, column, width, height - 1, next),
                     WalkBlock(sh, track, column, width, height, cur), width, height);
    }
  }

  /**
    One step of a block walk: its first row, then either the stop, after a row short of its end,
    or the walk from one step below, after a full row.
   */
  lemma WalkBlockSplit(sh: Shape, track: nat, column: nat, width: nat, height: nat, cur: Cursor)
    returns (first: seq<Addr>, stopped: bool, next: Cursor)
    requires ValidOrigin(sh, track, column, cur.order, width) && height > 0
    ensures ValidOrigin(sh, track, column, next.order, width)
    ensures stopped ==> |first| < width && WalkBlock(sh, track, column, width, height, cur) == BlockWalk([first], true)
    ensures !stopped ==>
              && |first| == width
              && WalkBlock(sh, track, column, width, height, cur) ==
                 BlockWalk([first] + WalkBlock(sh, track, column, width, height - 1, next).rows,
                           WalkBlock(sh, track, column, width, height - 1, next).stopped)
  {
    var row := WalkRow(sh, track, column, width, 0, cur);
    first, stopped, next := row.addrs, row.stopped, Cursor(row.next.order, row.next.step + 1);
    assert WalkBlock(sh, track, column, width, height, cur) ==
           if stopped then BlockWalk([first], true)
           else BlockWalk([first] + WalkBlock(sh, track, column, width, height - 1, next).rows,
                          WalkBlock(sh, track, column, width, height - 1, next).stopped);
  }

  /**
    A block walk of height rows is its first row and then either the stop, after a row short of its
    end, or the walk of the remaining rows, after a full row; either way it keeps the walk's shape.
   */
  lemma BlockShapeStep(first: seq<Addr>, stopped: bool, rest: BlockWalk, w: BlockWalk, width: nat, height: nat)
    requires height > 0
    requires stopped ==> |first| < width && w == BlockWalk([first], true)
    requires !stopped ==> |first| == width && w == BlockWalk([first] + rest.rows, rest.stopped)
    ensures (stopped || BlockShape(rest, width, height - 1)) ==> BlockShape(w, width, height)
  {
    if !stopped {
      assert forall i :: 1 <= i < |w.rows| ==> w.rows[i] == rest.rows[i - 1];
    }
  }

  /** Cell j of a row whose pattern still has the cursor's step: the walk takes it and stays put. */
  lemma WalkRowStay(sh: Shape, track: nat, column: nat, width: nat, j: nat, cur: Cursor, t: nat, c: nat, a: Addr)
    requires ValidOrigin(sh, track, column, cur.order, width) && j < width
    requires Walk(track, column, width)[j] == (t, c) && t < TrackCount(sh)
    requires cur.step < SizeAt(sh, t, cur.order) && a == AddrAt(sh, t, cur.order, cur.step, c)
    ensures var rest := WalkRow(sh, track, column, width, j + 1, cur);
            WalkRow(sh, track, column, width, j, cur) == RowWalk([a] + rest.addrs, rest.next, rest.stopped)
  {
  }

  /** Cell j of a row whose pattern has run out before the last order row: the walk rolls over. */
  lemma WalkRowRoll(sh: Shape, track: nat, column: nat, width: nat, j: nat, cur: Cursor, t: nat, c: nat)
    requires ValidOrigin(sh, track, column, cur.order, width) && j < width
    requires Walk(track, column, width)[j] == (t, c) && t < TrackCount(sh)
    requires cur.step >= SizeAt(sh, t, cur.order) && cur.order + 1 < OrderCount(sh)
    ensures var rest := WalkRow(sh, track, column, width, j + 1, Cursor(cur.order + 1, 0));
            WalkRow(sh, track, column, width, j, cur) ==
            RowWalk([AddrAt(sh, t, cur.order + 1, 0, c)] + rest.addrs, rest.next, rest.stopped)
  {
  }

  /** A row walked from its first cell holds valid addresses along the walk. */
  lemma WalkRowOnWalk(sh: Shape, track: nat, column: nat, width: nat, cur: Cursor)
    requires ValidOrigin(sh, track, column, cur.order, width)
    ensures AllValid(sh, WalkRow(sh, track, column, width, 0, cur).addrs)
    ensures OnWalk(WalkRow(sh, track, column, width, 0, cur).addrs, track, column)
  {
    var addrs := WalkRow(sh, track, column, width, 0, cur).addrs;
    forall k | 0 <= k < |addrs|
      ensures addrs[k].column < N_COLUMN && Linear(addrs[k].track, addrs[k].column) == Linear(track, column) + k
    {
      assert Linear(addrs[k].track, addrs[k].column) == Linear(track, column) + 0 + k;
    }
  }

  /** Row i of a block walk holds valid addresses, k cells along the walk at position k. */
  lemma WalkBlockRow(sh: Shape, track: nat, column: nat, width: nat, height: nat, cur: Cursor, i: nat)
    requires ValidOrigin(sh, track, column, cur.order, width)
    requires i < |WalkBlock(sh, track, column, width, height, cur).rows|
    ensures AllValid(sh, WalkBlock(sh, track, column, width, height, cur).rows[i])
    ensures OnWalk(WalkBlock(sh, track, column, width, height, cur).rows[i], track, column)
  {
    var c := WalkBlockRowCursor(sh, track, column, width, height, cur, i);
    WalkRowOnWalk(sh, track, column, width, c);
  }

  /** Row i of a block walk is a row walked from its first cell, from some cursor inside the song. */
  lemma {:induction false} WalkBlockRowCursor(sh: Shape, track: nat, column: nat, width: nat, height: nat, cur: Cursor, i: nat)
    returns (c: Cursor)
    requires ValidOrigin(sh, track, column, cur.order, width)
    requires i < |WalkBlock(sh, track, column, width, height, cur).rows|
    ensures ValidOrigin(sh, track, column, c.order, width)
    ensures WalkBlock(sh, track, column, width, height, cur).rows[i] == WalkRow(sh, track, column, width, 0, c).addrs
    decreases height
  {
    if i == 0 {
      WalkBlockFirst(sh, track, column, width, height, cur);
      c := cur;
    } else {
      var row := WalkRow(sh, track, column, width, 0, cur);
      var next := Cursor(row.next.order, row.next.step + 1);
      WalkBlockLater(sh, track, column, width, height, cur, next, i);
      c := WalkBlockRowCursor(sh, track, column, width, height - 1, next, i - 1);
    }
  }

  /** The first row of a block walk is the walk of its first row. */
  lemma WalkBlockFirst(sh: Shape, track: nat, column: nat, width: nat, height: nat, cur: Cursor)
    requires ValidOrigin(sh, track, column, cur.order, width)
    requires 0 < |WalkBlock(sh, track, column, width, height, cur).rows|
    ensures WalkBlock(sh, track, column, width, height, cur).rows[0] == WalkRow(sh, track, column, width, 0, cur).addrs
  {
  }

  /** A later row of a block walk is a row of the walk that starts one step below the first row's end. */
  lemma WalkBlockLater(sh: Shape, track: nat, column: nat, width: nat, height: nat, cur: Cursor, next: Cursor, i: nat)
    requires ValidOrigin(sh, track, column, cur.order, width)
    requires 0 < i < |WalkBlock(sh, track, column, width, height, cur).rows|
    requires next == Cursor(WalkRow(sh, track, column, width, 0, cur).next.order,
                            WalkRow(sh, track, column, width, 0, cur).next.step + 1)
    ensures height > 0 && ValidOrigin(sh, track, column, next.order, width)
    ensures i - 1 < |WalkBlock(sh, track, column, width, height - 1, next).rows|
    ensures WalkBlock(sh, track, column, width, height, cur).rows[i] ==
            WalkBlock(sh, track, column, width, height - 1, next).rows[i - 1]
  {
    var row := WalkRow(sh, track, column, width, 0, cur);
    var rest := WalkBlock(sh, track, column, width, height - 1, next);
    assert !row.stopped;
    assert WalkBlock(sh, track, column, width, height, cur).rows == [row.addrs] + rest.rows;
  }

  /** Every row of a block walk holds valid addresses along the walk. */
  lemma WalkBlockOnWalk(sh: Shape, track: nat, column: nat, width: nat, height: nat, cur: Cursor)
    requires ValidOrigin(sh, track, column, cur.order, width)
    ensures forall i :: 0 <= i < |WalkBlock(sh, track, column, width, height, cur).rows| ==>
              AllValid(sh, WalkBlock(sh, track, column, width, height, cur).rows[i]) &&
              OnWalk(WalkBlock(sh, track, column, width, height, cur).rows[i], track, column)
  {
    forall i | 0 <= i < |WalkBlock(sh, track, column, width, height, cur).rows|
      ensures AllValid(sh, WalkBlock(sh, track, column, width, height, cur).rows[i])
      ensures OnWalk(WalkBlock(sh, track, column, width, height, cur).rows[i], track, column)
    {
      WalkBlockRow(sh, track, column, width, height, cur, i);
    }
  }

  /** Values of a block fit the columns the walk from `column` gives them. */
  predicate BlockFits(column: nat, cells: seq<seq<Cell>>) {
    forall i, j :: 0 <= i < |cells| && 0 <= j < |cells[i]| ==> Fits((column + j) % N_COLUMN, cells[i][j])
  }

  /** The part of the block a (possibly cut short) walk reaches. */
  function Clip(cells: seq<seq<Cell>>, rows: seq<seq<Addr>>): (r: seq<seq<Cell>>)
    requires |rows| <= |cells| && forall i :: 0 <= i < |rows| ==> |rows[i]| <= |cells[i]|
    ensures SameRowLengths(rows, r)
    ensures forall i, j :: 0 <= i < |r| && 0 <= j < |r[i]| ==> r[i][j] == cells[i][j]
  {
    seq(|rows|, i requires 0 <= i < |rows| => cells[i][..|rows[i]|])
  }

  /** Writes vs[i] to addrs[i] in order, skipping empty values. */
  function PasteAll(song: Song, addrs: seq<Addr>, vs: seq<Cell>): (r: Song)
    requires |addrs| == |vs| && AllValid(ShapeOf(song), addrs) && AllFit(addrs, vs)
    ensures ShapeOf(r) == ShapeOf(song)
    decreases |addrs|
  {
    if |addrs| == 0 then song
    else
      var next := if IsEmptyValue(vs[0]) then song else Write(song, addrs[0], vs[0]);
      PasteAll(next, addrs[1..], vs[1..])
  }

  /** Reference meaning of a paste at one address: the last non-empty value written there, else `init`. */
  function LastPasted(addrs: seq<Addr>, vs: seq<Cell>, x: Addr, init: Cell): Cell
    requires |addrs| == |vs|
    decreases |addrs|
  {
    if |addrs| == 0 then init
    else LastPasted(addrs[1..], vs[1..], x, if addrs[0] == x && !IsEmptyValue(vs[0]) then vs[0] else init)
  }

  /** Some non-empty value is written to x. */
  predicate PastesAt(addrs: seq<Addr>, vs: seq<Cell>, x: Addr)
    requires |addrs| == |vs|
  {
    exists k :: 0 <= k < |addrs| && addrs[k] == x && !IsEmptyValue(vs[k])
  }

  /** The paste leaves every cell holding its reference value. */
  lemma {:induction false} PasteAllRead(song: Song, addrs: seq<Addr>, vs: seq<Cell>, x: Addr)
    requires |addrs| == |vs| && AllValid(ShapeOf(song), addrs) && AllFit(addrs, vs)
    requires ValidAddr(ShapeOf(song), x)
    ensures Read(PasteAll(song, addrs, vs), x) == LastPasted(addrs, vs, x, Read(song, x))
    decreases |addrs|
  {
    if |addrs| > 0 {
      var next := if IsEmptyValue(vs[0]) then song else Write(song, addrs[0], vs[0]);
      PasteAllRead(next, addrs[1..], vs[1..], x);
    }
  }

  /** Where nothing non-empty is written, the cell keeps its value. */
  lemma {:induction false} LastPastedUntouched(addrs: seq<Addr>, vs: seq<Cell>, x: Addr, init: Cell)
    requires |addrs| == |vs| && !PastesAt(addrs, vs, x)
    ensures LastPasted(addrs, vs, x, init) == init
    decreases |addrs|
  {
    if |addrs| > 0 {
      assert !PastesAt(addrs[1..], vs[1..], x) by {
        forall k | 0 <= k < |addrs| - 1 && addrs[1..][k] == x
          ensures IsEmptyValue(vs[1..][k])
        {
          assert addrs[k + 1] == x;
        }
      }
      LastPastedUntouched(addrs[1..], vs[1..], x, init);
    }
  }

  /** Where something non-empty is written, the previous value is forgotten. */
  lemma {:induction false} LastPastedOverrides(addrs: seq<Addr>, vs: seq<Cell>, x: Addr, i1: Cell, i2: Cell)
    requires |addrs| == |vs| && PastesAt(addrs, vs, x)
    ensures LastPasted(addrs, vs, x, i1) == LastPasted(addrs, vs, x, i2)
    decreases |addrs|
  {
    if !(addrs[0] == x && !IsEmptyValue(vs[0])) {
      var k :| 0 <= k < |addrs| && addrs[k] == x && !IsEmptyValue(vs[k]);
      assert addrs[1..][k - 1] == x && !IsEmptyValue(vs[1..][k - 1]);
      LastPastedOverrides(addrs[1..], vs[1..], x, i1, i2);
    }
  }

  /** Pasting the same values twice is pasting them once. */
  lemma PasteAllIdempotent(song: Song, addrs: seq<Addr>, vs: seq<Cell>)
    requires |addrs| == |vs| && AllValid(ShapeOf(song), addrs) && AllFit(addrs, vs)
    ensures PasteAll(PasteAll(song, addrs, vs), addrs, vs) == PasteAll(song, addrs, vs)
  {
    var once := PasteAll(song, addrs, vs);
    var twice := PasteAll(once, addrs, vs);
    forall x | ValidAddr(ShapeOf(twice), x)
      ensures Read(twice, x) == Read(once, x)
    {
      PasteAllRead(song, addrs, vs, x);
      PasteAllRead(once, addrs, vs, x);
      if PastesAt(addrs, vs, x) {
        LastPastedOverrides(addrs, vs, x, Read(once, x), Read(song, x));
      } else {
        LastPastedUntouched(addrs, vs, x, Read(once, x));
        LastPastedUntouched(addrs, vs, x, Read(song, x));
      }
    }
    Extensionality(twice, once);
  }

  /** Cells the paste does not visit keep their value. */
  lemma PasteAllFrame(song: Song, addrs: seq<Addr>, vs: seq<Cell>, x: Addr)
    requires |addrs| == |vs| && AllValid(ShapeOf(song), addrs) && AllFit(addrs, vs)
    requires ValidAddr(ShapeOf(song), x) && x !in addrs
    ensures Read(PasteAll(song, addrs, vs), x) == Read(song, x)
  {
    PasteAllRead(song, addrs, vs, x);
    LastPastedUntouched(addrs, vs, x, Read(song, x));
  }

  /** With distinct addresses, cell i holds vs[i] unless vs[i] is empty, in which case it is unchanged. */
  lemma PasteAllDistinct(song: Song, addrs: seq<Addr>, vs: seq<Cell>, i: nat)
    requires |addrs| == |vs| && AllValid(ShapeOf(song), addrs) && AllFit(addrs, vs)
    requires Distinct(addrs) && i < |addrs|
    ensures Read(PasteAll(song, addrs, vs), addrs[i]) == if IsEmptyValue(vs[i]) then Read(song, addrs[i]) else vs[i]
  {
    PasteAllRead(song, addrs, vs, addrs[i]);
    LastPastedDistinct(addrs, vs, i, Read(song, addrs[i]));
  }

  lemma {:induction false} LastPastedDistinct(addrs: seq<Addr>, vs: seq<Cell>, i: nat, init: Cell)
    requires |addrs| == |vs| && Distinct(addrs) && i < |addrs|
    ensures LastPasted(addrs, vs, addrs[i], init) == if IsEmptyValue(vs[i]) then init else vs[i]
    decreases |addrs|
  {
    var x := addrs[i];
    var next := if addrs[0] == x && !IsEmptyValue(vs[0]) then vs[0] else init;
    if i == 0 {
      assert !PastesAt(addrs[1..], vs[1..], x);
      LastPastedUntouched(addrs[1..], vs[1..], x, next);
    } else {
      assert addrs[0] != x;
      assert addrs[1..][i - 1] == x;
      LastPastedDistinct(addrs[1..], vs[1..], i - 1, init);
    }
  }

  datatype PasteCommand = PasteCommand(
    song: nat, track: nat, column: nat, order: nat, step: nat,
    cells: seq<seq<Cell>>, prevCells: seq<seq<Cell>>)

  /** The block is non-empty and rectangular, its values fit their columns, and the origin is valid. */
  predicate PasteArgs(sh: Shape, track: nat, column: nat, order: nat, cells: seq<seq<Cell>>) {
    && |cells| >= 1
    && Rectangular(cells, |cells[0]|)
    && BlockFits(column, cells)
    && ValidOrigin(sh, track, column, order, |cells[0]|)
  }

  /** The walk of a command's block. */
  function PasteWalk(sh: Shape, cmd: PasteCommand): (w: BlockWalk)
    requires PasteArgs(sh, cmd.track, cmd.column, cmd.order, cmd.cells)
    ensures forall i :: 0 <= i < |w.rows| ==> AllValid(sh, w.rows[i]) && OnWalk(w.rows[i], cmd.track, cmd.column)
    ensures BlockShape(w, |cmd.cells[0]|, |cmd.cells|)
  {
    WalkBlockShape(sh, cmd.track, cmd.column, |cmd.cells[0]|, |cmd.cells|, Cursor(cmd.order, cmd.step));
    WalkBlockOnWalk(sh, cmd.track, cmd.column, |cmd.cells[0]|, |cmd.cells|, Cursor(cmd.order, cmd.step));
    WalkBlock(sh, cmd.track, cmd.column, |cmd.cells[0]|, |cmd.cells|, Cursor(cmd.order, cmd.step))
  }

  /** The values read row by row along a walk. */
  function ReadRows(song: Song, rows: seq<seq<Addr>>): (cells: seq<seq<Cell>>)
    requires forall i :: 0 <= i < |rows| ==> AllValid(ShapeOf(song), rows[i])
    ensures SameRowLengths(rows, cells)
    ensures forall i :: 0 <= i < |rows| ==> cells[i] == ReadAll(song, rows[i])
  {
    seq(|rows|, i requires 0 <= i < |rows| => ReadAll(song, rows[i]))
  }

  lemma {:induction false} FlattenReadRows(song: Song, rows: seq<seq<Addr>>)
    requires forall i :: 0 <= i < |rows| ==> AllValid(ShapeOf(song), rows[i])
    ensures AllValid(ShapeOf(song), Flatten(rows))
    ensures Flatten(ReadRows(song, rows)) == ReadAll(song, Flatten(rows))
    decreases |rows|
  {
    if |rows| > 0 {
      FlattenReadRows(song, rows[1..]);
      var vals := ReadRows(song, rows);
      assert vals[1..] == ReadRows(song, rows[1..]);
      assert vals[0] == ReadAll(song, rows[0]);
      ReadAllAppend(song, rows[0], Flatten(rows[1..]));
    }
  }

  /** The command as constructed: the block and the snapshot of every cell the paste will visit. */
  function NewPaste(song: Song, songNum: nat, track: nat, column: nat, order: nat, step: nat,
                    cells: seq<seq<Cell>>): (cmd: PasteCommand)
    requires PasteArgs(ShapeOf(song), track, column, order, cells)
    ensures cmd.song == songNum && cmd.track == track && cmd.column == column
    ensures cmd.order == order && cmd.step == step && cmd.cells == cells
    ensures SameRowLengths(PasteWalk(ShapeOf(song), cmd).rows, cmd.prevCells)
    ensures forall i :: 0 <= i < |cmd.prevCells| ==> cmd.prevCells[i] == ReadAll(song, PasteWalk(ShapeOf(song), cmd).rows[i])
    ensures WellFormedPaste(ShapeOf(song), cmd)
  {
    var cmd := PasteCommand(songNum, track, column, order, step, cells, []);
    ReadRowsFit(song, cmd);
    cmd.(prevCells := ReadRows(song, PasteWalk(ShapeOf(song), cmd).rows))
  }

  /** The command holds a snapshot taken along its walk in a song of this shape. */
  predicate WellFormedPaste(sh: Shape, cmd: PasteCommand) {
    && PasteArgs(sh, cmd.track, cmd.column, cmd.order, cmd.cells)
    && SameRowLengths(PasteWalk(sh, cmd).rows, cmd.prevCells)
    && BlockFits(cmd.column, cmd.prevCells)
  }

  /** Cells read along the walk fit the block's columns. */
  lemma ReadRowsFit(song: Song, cmd: PasteCommand)
    requires PasteArgs(ShapeOf(song), cmd.track, cmd.column, cmd.order, cmd.cells)
    ensures BlockFits(cmd.column, ReadRows(song, PasteWalk(ShapeOf(song), cmd).rows))
  {
    var rows := PasteWalk(ShapeOf(song), cmd).rows;
    var vals := ReadRows(song, rows);
    forall i, j | 0 <= i < |vals| && 0 <= j < |vals[i]|
      ensures Fits((cmd.column + j) % N_COLUMN, vals[i][j])
    {
      assert vals[i][j] == Read(song, rows[i][j]);
      PasteCellPosition(ShapeOf(song), cmd, i, j);
    }
  }

  /** The walk's addresses, in the order the paste visits them. */
  function PasteAddrs(sh: Shape, cmd: PasteCommand): (addrs: seq<Addr>)
    requires PasteArgs(sh, cmd.track, cmd.column, cmd.order, cmd.cells)
    ensures AllValid(sh, addrs)
  {
    var rows := PasteWalk(sh, cmd).rows;
    FlattenAllValid(sh, rows);
    Flatten(rows)
  }

  /** The block values the walk reaches, in visiting order. */
  function PasteValues(sh: Shape, cmd: PasteCommand): (vs: seq<Cell>)
    requires PasteArgs(sh, cmd.track, cmd.column, cmd.order, cmd.cells)
    ensures |vs| == |PasteAddrs(sh, cmd)| && AllFit(PasteAddrs(sh, cmd), vs)
  {
    var vals := Clip(cmd.cells, PasteWalk(sh, cmd).rows);
    FitsAlongWalk(sh, cmd, vals);
    Flatten(vals)
  }

  /** A grid shaped like the walk whose values fit their block columns fits the walk's addresses. */
  lemma FitsAlongWalk(sh: Shape, cmd: PasteCommand, vals: seq<seq<Cell>>)
    requires PasteArgs(sh, cmd.track, cmd.column, cmd.order, cmd.cells)
    requires SameRowLengths(PasteWalk(sh, cmd).rows, vals) && BlockFits(cmd.column, vals)
    ensures |Flatten(vals)| == |PasteAddrs(sh, cmd)| && AllFit(PasteAddrs(sh, cmd), Flatten(vals))
  {
    var rows: seq<seq<Addr>> := PasteWalk(sh, cmd).rows;
    assert PasteAddrs(sh, cmd) == Flatten(rows);
    forall i, j | 0 <= i < |rows| && 0 <= j < |rows[i]|
      ensures rows[i][j].column == (cmd.column + j) % N_COLUMN
    {
      PasteCellPosition(sh, cmd, i, j);
    }
    FitsFlatten(rows, vals, cmd.column);
  }

  /** Rows whose j-th address is in block column j fit a grid that fits the block, entry by entry. */
  lemma FitsFlatten(rows: seq<seq<Addr>>, vals: seq<seq<Cell>>, column: nat)
    requires SameRowLengths(rows, vals) && BlockFits(column, vals)
    requires forall i, j :: 0 <= i < |rows| && 0 <= j < |rows[i]| ==> rows[i][j].column == (column + j) % N_COLUMN
    ensures |Flatten(vals)| == |Flatten(rows)| && AllFit(Flatten(rows), Flatten(vals))
  {
    FlattenSameLength(rows, vals);
    forall k | 0 <= k < |Flatten(rows)|
      ensures Fits(Flatten(rows)[k].column, Flatten(vals)[k])
    {
      var i, j := FlattenAligned(rows, vals, k);
    }
  }

  function Redo(song: Song, cmd: PasteCommand): (r: Song)
    requires PasteArgs(ShapeOf(song), cmd.track, cmd.column, cmd.order, cmd.cells)
    ensures ShapeOf(r) == ShapeOf(song)
  {
    var sh := ShapeOf(song);
    PasteAll(song, PasteAddrs(sh, cmd), PasteValues(sh, cmd))
  }

  function Undo(song: Song, cmd: PasteCommand): (r: Song)
    requires WellFormedPaste(ShapeOf(song), cmd)
    ensures ShapeOf(r) == ShapeOf(song)
  {
    var sh := ShapeOf(song);
    FitsAlongWalk(sh, cmd, cmd.prevCells);
    WriteAll(song, PasteAddrs(sh, cmd), Flatten(cmd.prevCells))
  }

  /** Cell j of every walked row sits in column (column + j) mod 11 of track track + (column + j) / 11. */
  lemma PasteCellPosition(sh: Shape, cmd: PasteCommand, i: nat, j: nat)
    requires PasteArgs(sh, cmd.track, cmd.column, cmd.order, cmd.cells)
    requires i < |PasteWalk(sh, cmd).rows| && j < |PasteWalk(sh, cmd).rows[i]|
    ensures PasteWalk(sh, cmd).rows[i][j].column == (cmd.column + j) % N_COLUMN
    ensures PasteWalk(sh, cmd).rows[i][j].track == cmd.track + (cmd.column + j) / N_COLUMN
  {
    var row := PasteWalk(sh, cmd).rows[i];
    assert OnWalk(row, cmd.track, cmd.column);
    assert row[j].column < N_COLUMN && Linear(row[j].track, row[j].column) == Linear(cmd.track, cmd.column) + j;
    LinearOffset(cmd.track, cmd.column, j, row[j].track, row[j].column);
  }

  /** Only cells on the walk change. */
  lemma PasteRedoFrame(song: Song, cmd: PasteCommand, x: Addr)
    requires PasteArgs(ShapeOf(song), cmd.track, cmd.column, cmd.order, cmd.cells)
    requires ValidAddr(ShapeOf(song), x) && x !in PasteAddrs(ShapeOf(song), cmd)
    ensures Read(Redo(song, cmd), x) == Read(song, x)
  {
    var sh := ShapeOf(song);
    PasteAllFrame(song, PasteAddrs(sh, cmd), PasteValues(sh, cmd), x);
  }

  /**
    When the walk visits no cell twice, the cell under block entry (i, j) holds
    that entry, or keeps its value when the entry is empty.
   */
  lemma PasteRedoCell(song: Song, cmd: PasteCommand, i: nat, j: nat)
    requires PasteArgs(ShapeOf(song), cmd.track, cmd.column, cmd.order, cmd.cells)
    requires Distinct(PasteAddrs(ShapeOf(song), cmd))
    requires i < |PasteWalk(ShapeOf(song), cmd).rows| && j < |PasteWalk(ShapeOf(song), cmd).rows[i]|
    ensures var a := PasteWalk(ShapeOf(song), cmd).rows[i][j];
            Read(Redo(song, cmd), a) == if IsEmptyValue(cmd.cells[i][j]) then Read(song, a) else cmd.cells[i][j]
  {
    var sh := ShapeOf(song);
    var rows := PasteWalk(sh, cmd).rows;
    var vals := Clip(cmd.cells, rows);
    var k := FlattenAlignedAt(rows, vals, i, j);
    PasteAllDistinct(song, PasteAddrs(sh, cmd), PasteValues(sh, cmd), k);
  }

  /** Pasting twice is pasting once, even when shared patterns make the walk visit a cell twice. */
  lemma PasteRedoIdempotent(song: Song, cmd: PasteCommand)
    requires PasteArgs(ShapeOf(song), cmd.track, cmd.column, cmd.order, cmd.cells)
    ensures Redo(Redo(song, cmd), cmd) == Redo(song, cmd)
  {
    var sh := ShapeOf(song);
    PasteAllIdempotent(song, PasteAddrs(sh, cmd), PasteValues(sh, cmd));
  }

  /** The constructor's snapshot, flattened, is the walk's cells read in visiting order. */
  lemma NewPasteSnapshot(song: Song, songNum: nat, track: nat, column: nat, order: nat, step: nat,
                         cells: seq<seq<Cell>>)
    requires PasteArgs(ShapeOf(song), track, column, order, cells)
    ensures var cmd := NewPaste(song, songNum, track, column, order, step, cells);
            Flatten(cmd.prevCells) == ReadAll(song, PasteAddrs(ShapeOf(song), cmd))
  {
    var cmd := NewPaste(song, songNum, track, column, order, step, cells);
    FlattenReadRows(song, PasteWalk(ShapeOf(song), cmd).rows);
  }

  /** Undoing a fresh paste gives back the song it was made on. */
  lemma PasteUndoAfterRedo(song: Song, songNum: nat, track: nat, column: nat, order: nat, step: nat,
                           cells: seq<seq<Cell>>)
    requires PasteArgs(ShapeOf(song), track, column, order, cells)
    ensures var cmd := NewPaste(song, songNum, track, column, order, step, cells);
            Undo(Redo(song, cmd), cmd) == song
  {
    var cmd := NewPaste(song, songNum, track, column, order, step, cells);
    NewPasteSnapshot(song, songNum, track, column, order, step, cells);
    UndoRestores(song, cmd);
  }

  /** Undo writes the snapshot back over a song that differs from it only along the walk. */
  lemma UndoRestores(song: Song, cmd: PasteCommand)
    requires WellFormedPaste(ShapeOf(song), cmd)
    requires Flatten(cmd.prevCells) == ReadAll(song, PasteAddrs(ShapeOf(song), cmd))
    ensures Undo(Redo(song, cmd), cmd) == song
  {
    var sh := ShapeOf(song);
    var addrs := PasteAddrs(sh, cmd);
    var cur := Redo(song, cmd);
    forall x | ValidAddr(sh, x) && x !in addrs
      ensures Read(cur, x) == Read(song, x)
    {
      PasteRedoFrame(song, cmd, x);
    }
    RestoreSnapshot(song, cur, addrs);
  }

  /**
    A cell whose step has run past the end of its track's pattern goes to
    step 0 of the next order row, in the column and track the walk gives it.
   */
  lemma PasteRollsOver(sh: Shape, track: nat, column: nat, width: nat, j: nat, cur: Cursor)
    requires ValidOrigin(sh, track, column, cur.order, width) && j < width
    requires track + (column + j) / N_COLUMN < TrackCount(sh)
    requires cur.step >= SizeAt(sh, track + (column + j) / N_COLUMN, cur.order)
    requires cur.order + 1 < OrderCount(sh)
    ensures var r := WalkRow(sh, track, column, width, j, cur);
            |r.addrs| >= 1 &&
            r.addrs[0] == AddrAt(sh, track + (column + j) / N_COLUMN, cur.order + 1, 0, (column + j) % N_COLUMN)
  {
    var t, c := track + (column + j) / N_COLUMN, (column + j) % N_COLUMN;
    WalkCell(track, column, width, j);
    assert Walk(track, column, width)[j] == (t, c);
    WalkRowRoll(sh, track, column, width, j, cur, t, c);
  }

  /** Past the end of the last order row's pattern, the paste stops without touching another cell. */
  lemma PasteStopsAtSongEnd(sh: Shape, track: nat, column: nat, width: nat, j: nat, cur: Cursor)
    requires ValidOrigin(sh, track, column, cur.order, width) && j < width
    requires track + (column + j) / N_COLUMN < TrackCount(sh)
    requires cur.step >= SizeAt(sh, track + (column + j) / N_COLUMN, cur.order)
    requires cur.order + 1 == OrderCount(sh)
    ensures var r := WalkRow(sh, track, column, width, j, cur);
            r.stopped && r.addrs == []
  {
    WalkCell(track, column, width, j);
  }

  /** A paste that runs to its end visits every cell of the block; one that stops visits fewer. */
  lemma PasteVisitCount(sh: Shape, cmd: PasteCommand)
    requires PasteArgs(sh, cmd.track, cmd.column, cmd.order, cmd.cells)
    ensures var n := |cmd.cells| * |cmd.cells[0]|;
            if PasteWalk(sh, cmd).stopped then |PasteAddrs(sh, cmd)| < n else |PasteAddrs(sh, cmd)| == n
  {
    var w := PasteWalk(sh, cmd);
    var width := |cmd.cells[0]|;
    if w.stopped {
      var m := |w.rows| - 1;
      FlattenLength(w.rows[..m], width);
      FlattenAppend(w.rows[..m], [w.rows[m]]);
      assert w.rows == w.rows[..m] + [w.rows[m]];
      assert Flatten([w.rows[m]]) == w.rows[m];
      assert m * width + width <= |cmd.cells| * width by { MulStep(m, |cmd.cells|, width); }
    } else {
      FlattenLength(w.rows, width);
    }
  }

  /** The cells of row i of a region from cell j on. */
  function RegionRowFrom(sh: Shape, r: Region, i: nat, j: nat): (row: seq<Addr>)
    requires ValidRegion(sh, r) && i < r.height && j <= r.width
    ensures |row| == r.width - j
    ensures forall k :: 0 <= k < |row| ==> row[k] == CellAddr(sh, r, i, j + k)
  {
    seq(r.width - j, k requires 0 <= k < r.width - j => CellAddr(sh, r, i, j + k))
  }

  /** Inside the region, a row's walk takes the cell's region address and stays at its cursor. */
  lemma RowInsideOrderStep(sh: Shape, r: Region, i: nat, j: nat)
    requires ValidRegion(sh, r) && i < r.height && j < r.width
    ensures var cur := Cursor(r.order, r.step + i);
            var rest := WalkRow(sh, r.track, r.column, r.width, j + 1, cur);
            WalkRow(sh, r.track, r.column, r.width, j, cur) ==
            RowWalk([CellAddr(sh, r, i, j)] + rest.addrs, rest.next, rest.stopped)
  {
    var t, c := CellAddrWalk(sh, r, i, j);
    WalkRowStay(sh, r.track, r.column, r.width, j, Cursor(r.order, r.step + i), t, c, CellAddr(sh, r, i, j));
  }

  lemma {:induction false} RowInsideOrder(sh: Shape, r: Region, i: nat, j: nat)
    requires ValidRegion(sh, r) && i < r.height && j <= r.width
    ensures WalkRow(sh, r.track, r.column, r.width, j, Cursor(r.order, r.step + i)) ==
            RowWalk(RegionRowFrom(sh, r, i, j), Cursor(r.order, r.step + i), false)
    decreases r.width - j
  {
    if j < r.width {
      RowInsideOrder(sh, r, i, j + 1);
      RowInsideOrderCons(sh, r, i, j);
    }
  }

  /** A row inside the region walked from cell j: cell j's address in front of the walk from cell j + 1. */
  lemma RowInsideOrderCons(sh: Shape, r: Region, i: nat, j: nat)
    requires ValidRegion(sh, r) && i < r.height && j < r.width
    requires WalkRow(sh, r.track, r.column, r.width, j + 1, Cursor(r.order, r.step + i)) ==
             RowWalk(RegionRowFrom(sh, r, i, j + 1), Cursor(r.order, r.step + i), false)
    ensures WalkRow(sh, r.track, r.column, r.width, j, Cursor(r.order, r.step + i)) ==
            RowWalk(RegionRowFrom(sh, r, i, j), Cursor(r.order, r.step + i), false)
  {
    var cur := Cursor(r.order, r.step + i);
    RowInsideOrderStep(sh, r, i, j);
    RegionRowFromCons(sh, r, i, j);
    ConsRowWalk(WalkRow(sh, r.track, r.column, r.width, j, cur), WalkRow(sh, r.track, r.column, r.width, j + 1, cur),
                CellAddr(sh, r, i, j), RegionRowFrom(sh, r, i, j + 1), RegionRowFrom(sh, r, i, j), cur);
  }

  /** Row i of the region from cell j: cell j in front of the row from cell j + 1. */
  lemma RegionRowFromCons(sh: Shape, r: Region, i: nat, j: nat)
    requires ValidRegion(sh, r) && i < r.height && j < r.width
    ensures RegionRowFrom(sh, r, i, j) == [CellAddr(sh, r, i, j)] + RegionRowFrom(sh, r, i, j + 1)
  {
    var row, tail := RegionRowFrom(sh, r, i, j), RegionRowFrom(sh, r, i, j + 1);
    forall k | 1 <= k < |row|
      ensures row[k] == tail[k - 1]
    {
      assert j + 1 + (k - 1) == j + k;
    }
  }

  /** A row walk that puts `a` in front of a walk that stays at `cur` stays at `cur` too. */
  lemma ConsRowWalk(w: RowWalk, rest: RowWalk, a: Addr, tail: seq<Addr>, whole: seq<Addr>, cur: Cursor)
    requires w == RowWalk([a] + rest.addrs, rest.next, rest.stopped)
    requires rest == RowWalk(tail, cur, false)
    requires whole == [a] + tail
    ensures w == RowWalk(whole, cur, false)
  {
  }

  /** A block walk whose first row stays at its cursor goes on from the next step. */
  lemma WalkBlockStep(sh: Shape, track: nat, column: nat, width: nat, height: nat, height': nat,
                      cur: Cursor, next: Cursor, first: seq<Addr>, rest: BlockWalk, rows: seq<seq<Addr>>)
    requires ValidOrigin(sh, track, column, cur.order, width) && height == height' + 1
    requires next == Cursor(cur.order, cur.step + 1)
    requires WalkRow(sh, track, column, width, 0, cur) == RowWalk(first, cur, false)
    requires WalkBlock(sh, track, column, width, height', next) == rest
    requires rows == [first] + rest.rows
    ensures WalkBlock(sh, track, column, width, height, cur) == BlockWalk(rows, rest.stopped)
  {
  }

  /** The rows of a region from row i on: row i in front of the rows after it. */
  lemma RegionRowsFromRow(sh: Shape, r: Region, i: nat)
    requires ValidRegion(sh, r) && i < r.height
    ensures RegionRows(sh, r)[i..] == [RegionRowFrom(sh, r, i, 0)] + RegionRows(sh, r)[i + 1..]
  {
    var rows := RegionRows(sh, r);
    assert rows[i] == RegionRowFrom(sh, r, i, 0);
    assert rows[i..] == [rows[i]] + rows[i + 1..];
  }

  lemma {:induction false} BlockInsideOrder(sh: Shape, r: Region, i: nat)
    requires ValidRegion(sh, r) && i <= r.height
    ensures WalkBlock(sh, r.track, r.column, r.width, r.height - i, Cursor(r.order, r.step + i)) ==
            BlockWalk(RegionRows(sh, r)[i..], false)
    decreases r.height - i
  {
    if i < r.height {
      BlockInsideOrder(sh, r, i + 1);
      BlockInsideOrderCons(sh, r, i);
    }
  }

  /** The block walk from row i of the region: row i in front of the walk from row i + 1. */
  lemma BlockInsideOrderCons(sh: Shape, r: Region, i: nat)
    requires ValidRegion(sh, r) && i < r.height
    requires WalkBlock(sh, r.track, r.column, r.width, r.height - (i + 1), Cursor(r.order, r.step + (i + 1))) ==
             BlockWalk(RegionRows(sh, r)[i + 1..], false)
    ensures WalkBlock(sh, r.track, r.column, r.width, r.height - i, Cursor(r.order, r.step + i)) ==
            BlockWalk(RegionRows(sh, r)[i..], false)
  {
    RowInsideOrder(sh, r, i, 0);
    RegionRowsFromRow(sh, r, i);
    WalkBlockStep(sh, r.track, r.column, r.width, r.height - i, r.height - (i + 1),
                  Cursor(r.order, r.step + i), Cursor(r.order, r.step + (i + 1)), RegionRowFrom(sh, r, i, 0),
                  BlockWalk(RegionRows(sh, r)[i + 1..], false), RegionRows(sh, r)[i..]);
  }

  /** The region a paste covers when every track it touches has room for the whole block. */
  function PasteRegion(cmd: PasteCommand): Region
    requires |cmd.cells| >= 1
  {
    Region(cmd.track, cmd.column, cmd.order, cmd.step, |cmd.cells[0]|, |cmd.cells|)
  }

  /**
    When the block fits below the start step in every track it touches, the
    paste stays in its order row and visits exactly the block's region.
   */
  lemma PasteInsideOneOrder(sh: Shape, cmd: PasteCommand)
    requires PasteArgs(sh, cmd.track, cmd.column, cmd.order, cmd.cells)
    requires ValidRegion(sh, PasteRegion(cmd))
    ensures !PasteWalk(sh, cmd).stopped
    ensures PasteWalk(sh, cmd).rows == RegionRows(sh, PasteRegion(cmd))
    ensures PasteAddrs(sh, cmd) == RegionAddrs(sh, PasteRegion(cmd))
  {
    var r := PasteRegion(cmd);
    WalkRegion(sh, r);
    assert PasteWalk(sh, cmd) == WalkBlock(sh, r.track, r.column, r.width, r.height, Cursor(r.order, r.step));
  }

  /** Walked from its top-left cell, a region inside one order row is visited row by row and never cut short. */
  lemma WalkRegion(sh: Shape, r: Region)
    requires ValidRegion(sh, r)
    ensures WalkBlock(sh, r.track, r.column, r.width, r.height, Cursor(r.order, r.step)) == BlockWalk(RegionRows(sh, r), false)
  {
    BlockInsideOrder(sh, r, 0);
    assert r.height - 0 == r.height && r.step + 0 == r.step && RegionRows(sh, r)[0..] == RegionRows(sh, r);
  }

  /**
    Inside one order row the walk never repeats a cell, so each cell of the
    region ends up holding its block entry, or keeps its value for an empty one.
   */
  lemma PasteInsideOneOrderCell(song: Song, cmd: PasteCommand, i: nat, j: nat)
    requires PasteArgs(ShapeOf(song), cmd.track, cmd.column, cmd.order, cmd.cells)
    requires ValidRegion(ShapeOf(song), PasteRegion(cmd))
    requires i < |cmd.cells| && j < |cmd.cells[0]|
    ensures var a := CellAddr(ShapeOf(song), PasteRegion(cmd), i, j);
            Read(Redo(song, cmd), a) == if IsEmptyValue(cmd.cells[i][j]) then Read(song, a) else cmd.cells[i][j]
  {
    var sh := ShapeOf(song);
    PasteInsideOneOrder(sh, cmd);
    RegionAddrsDistinct(sh, PasteRegion(cmd));
    RegionRowsCell(sh, PasteRegion(cmd), i, j);
    PasteRedoCell(song, cmd, i, j);
  }
}
