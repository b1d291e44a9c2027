/**
  A rectangular region of one order: `height` steps from `step`, each walked
  for `width` cells from (track, column). This is the walk the shrink command
  and the value-change command use for capture, apply and restore alike.
 */
module Regions {
  import opened Steps
  import opened Songs
  import opened CellWalk
  import opened Grids

  datatype Region = Region(track: nat, column: nat, order: nat, step: nat, width: nat, height: nat)

  /**
    The region fits the song: its walk stays inside the track list, and every
    track it touches plays a pattern at least `step + height` steps long.
   */
  predicate ValidRegion(sh: Shape, r: Region) {
    && WellFormed(sh)
    && r.order < OrderCount(sh)
    && r.column < N_COLUMN
    && Linear(r.track, r.column) + r.width <= TrackCount(sh) * N_COLUMN
    && (forall tr :: r.track <= tr < TrackCount(sh) && Linear(tr, 0) < Linear(r.track, r.column) + r.width ==>
          r.step + r.height <= SizeAt(sh, tr, r.order))
  }

  /** The address of cell j of row i. */
  function CellAddr(sh: Shape, r: Region, i: nat, j: nat): (a: Addr)
    requires ValidRegion(sh, r) && i < r.height && j < r.width
    ensures ValidAddr(sh, a)
    ensures a.step == r.step + i && a.pattern == sh.orders[r.order][a.track]
    ensures Linear(a.track, a.column) == Linear(r.track, r.column) + j
  {
    var cell := Walk(r.track, r.column, r.width)[j];
    assert r.track <= cell.0 && Linear(cell.0, 0) < Linear(r.track, r.column) + r.width;
    assert r.step + r.height <= SizeAt(sh, cell.0, r.order);
    AddrAt(sh, cell.0, r.order, r.step + i, cell.1)
  }

  /** Cell j of row i is the walk's j-th cell, at step + i of a pattern long enough to hold it. */
  lemma CellAddrWalk(sh: Shape, r: Region, i: nat, j: nat) returns (t: nat, c: nat)
    requires ValidRegion(sh, r) && i < r.height && j < r.width
    ensures Walk(r.track, r.column, r.width)[j] == (t, c) && t < TrackCount(sh)
    ensures r.step + i < SizeAt(sh, t, r.order)
    ensures CellAddr(sh, r, i, j) == AddrAt(sh, t, r.order, r.step + i, c)
  {
    var cell := Walk(r.track, r.column, r.width)[j];
    t, c := cell.0, cell.1;
    assert r.track <= t && Linear(t, 0) < Linear(r.track, r.column) + r.width;
  }

  /** Cell j of every row sits in column (column + j) mod 11 of track track + (column + j) / 11. */
  lemma CellAddrColumn(sh: Shape, r: Region, i: nat, j: nat)
    requires ValidRegion(sh, r) && i < r.height && j < r.width
    ensures CellAddr(sh, r, i, j).column == (r.column + j) % N_COLUMN
    ensures CellAddr(sh, r, i, j).track == r.track + (r.column + j) / N_COLUMN
  {
    WalkCell(r.track, r.column, r.width, j);
  }

  /** The region's addresses, row by row. */
  function RegionRows(sh: Shape, r: Region): (rows: seq<seq<Addr>>)
    requires ValidRegion(sh, r)
    ensures |rows| == r.height && Rectangular(rows, r.width)
    ensures forall i :: 0 <= i < |rows| ==> AllValid(sh, rows[i])
  {
    seq(r.height, i requires 0 <= i < r.height =>
      seq(r.width, j requires 0 <= j < r.width => CellAddr(sh, r, i, j)))
  }

  /** The region's addresses in walk order: row by row, and along the walk within a row. */
  function RegionAddrs(sh: Shape, r: Region): (addrs: seq<Addr>)
    requires ValidRegion(sh, r)
    ensures AllValid(sh, addrs)
  {
    FlattenAllValid(sh, RegionRows(sh, r));
    Flatten(RegionRows(sh, r))
  }

  lemma {:induction false} FlattenAllValid(sh: Shape, rows: seq<seq<Addr>>)
    requires forall i :: 0 <= i < |rows| ==> AllValid(sh, rows[i])
    ensures AllValid(sh, Flatten(rows))
    decreases |rows|
  {
    if |rows| > 0 {
      FlattenAllValid(sh, rows[1..]);
    }
  }

  lemma RegionRowsCell(sh: Shape, r: Region, i: nat, j: nat)
    requires ValidRegion(sh, r) && i < r.height && j < r.width
    ensures RegionRows(sh, r)[i][j] == CellAddr(sh, r, i, j)
  {}

  /** Position i*width + j of the region's addresses is cell j of row i. */
  lemma RegionAddrsIndex(sh: Shape, r: Region, i: nat, j: nat)
    requires ValidRegion(sh, r) && i < r.height && j < r.width
    ensures |RegionAddrs(sh, r)| == r.height * r.width
    ensures i * r.width + j < |RegionAddrs(sh, r)|
    ensures RegionAddrs(sh, r)[i * r.width + j] == CellAddr(sh, r, i, j)
  {
    FlattenIndex(RegionRows(sh, r), r.width, i, j);
    RegionRowsCell(sh, r, i, j);
  }

  /** Every position of the region's addresses is some cell (i, j), at k == i*width + j. */
  lemma RegionAddrsAt(sh: Shape, r: Region, k: nat) returns (i: nat, j: nat)
    requires ValidRegion(sh, r) && k < r.height * r.width
    ensures i < r.height && j < r.width && k == i * r.width + j
    ensures |RegionAddrs(sh, r)| == r.height * r.width
    ensures RegionAddrs(sh, r)[k] == CellAddr(sh, r, i, j)
  {
    i, j := FlattenPosition(RegionRows(sh, r), r.width, k);
    RegionRowsCell(sh, r, i, j);
  }

  lemma RegionAddrsLength(sh: Shape, r: Region)
    requires ValidRegion(sh, r)
    ensures |RegionAddrs(sh, r)| == r.height * r.width
  {
    FlattenLength(RegionRows(sh, r), r.width);
  }

  /** Two cells of a region share an address only if they are the same cell. */
  lemma CellAddrInjective(sh: Shape, r: Region, i1: nat, j1: nat, i2: nat, j2: nat)
    requires ValidRegion(sh, r) && i1 < r.height && j1 < r.width && i2 < r.height && j2 < r.width
    requires CellAddr(sh, r, i1, j1) == CellAddr(sh, r, i2, j2)
    ensures i1 == i2 && j1 == j2
  {}

  /** The region never visits a cell twice. */
  lemma RegionAddrsDistinct(sh: Shape, r: Region)
    requires ValidRegion(sh, r)
    ensures Distinct(RegionAddrs(sh, r))
  {
    var addrs := RegionAddrs(sh, r);
    RegionAddrsLength(sh, r);
    forall k1, k2 | 0 <= k1 < k2 < |addrs|
      ensures addrs[k1] != addrs[k2]
    {
      var i1, j1 := RegionAddrsAt(sh, r, k1);
      var i2, j2 := RegionAddrsAt(sh, r, k2);
      if addrs[k1] == addrs[k2] {
        CellAddrInjective(sh, r, i1, j1, i2, j2);
      }
    }
  }

  /** Values of a rectangular grid fit the columns the region's walk gives them. */
  predicate GridFits(r: Region, cells: seq<seq<Cell>>) {
    forall i, j :: 0 <= i < |cells| && 0 <= j < |cells[i]| ==> Fits((r.column + j) % N_COLUMN, cells[i][j])
  }

  lemma GridFitsRegion(sh: Shape, r: Region, cells: seq<seq<Cell>>)
    requires ValidRegion(sh, r) && |cells| == r.height && Rectangular(cells, r.width) && GridFits(r, cells)
    ensures |RegionAddrs(sh, r)| == |Flatten(cells)|
    ensures AllFit(RegionAddrs(sh, r), Flatten(cells))
  {
    RegionAddrsLength(sh, r);
    FlattenLength(cells, r.width);
    forall k | 0 <= k < |RegionAddrs(sh, r)|
      ensures Fits(RegionAddrs(sh, r)[k].column, Flatten(cells)[k])
    {
      var i, j := RegionAddrsAt(sh, r, k);
      var i', j' := FlattenPosition(cells, r.width, k);
      assert i' == i && j' == j by { UniqueSplit(r.width, i, j, i', j'); }
      CellAddrColumn(sh, r, i, j);
    }
  }

  /** Writing a grid over a region leaves cell (i, j) of the region holding entry (i, j) of the grid. */
  lemma WriteRegionCell(song: Song, r: Region, cells: seq<seq<Cell>>, i: nat, j: nat)
    requires ValidRegion(ShapeOf(song), r) && |cells| == r.height && Rectangular(cells, r.width)
    requires GridFits(r, cells) && i < r.height && j < r.width
    ensures |RegionAddrs(ShapeOf(song), r)| == |Flatten(cells)|
    ensures AllFit(RegionAddrs(ShapeOf(song), r), Flatten(cells))
    ensures Read(WriteAll(song, RegionAddrs(ShapeOf(song), r), Flatten(cells)), CellAddr(ShapeOf(song), r, i, j))
            == cells[i][j]
  {
    var sh := ShapeOf(song);
    var k := GridPosition(sh, r, cells, i, j);
    GridFitsRegion(sh, r, cells);
    RegionAddrsDistinct(sh, r);
    WriteAllDistinct(song, RegionAddrs(sh, r), Flatten(cells), k);
  }

  /** Cell (i, j) of a region and entry (i, j) of a grid over it share one position when flattened. */
  lemma GridPosition(sh: Shape, r: Region, cells: seq<seq<Cell>>, i: nat, j: nat) returns (k: nat)
    requires ValidRegion(sh, r) && |cells| == r.height && Rectangular(cells, r.width)
    requires i < r.height && j < r.width
    ensures k < |RegionAddrs(sh, r)| && k < |Flatten(cells)|
    ensures RegionAddrs(sh, r)[k] == CellAddr(sh, r, i, j) && Flatten(cells)[k] == cells[i][j]
  {
    RegionAddrsIndex(sh, r, i, j);
    FlattenIndex(cells, r.width, i, j);
    k := i * r.width + j;
  }

  /** The cells of a region, read row by row. */
  function ReadRegion(song: Song, r: Region): (cells: seq<seq<Cell>>)
    requires ValidRegion(ShapeOf(song), r)
    ensures |cells| == r.height && Rectangular(cells, r.width)
    ensures GridFits(r, cells)
    ensures Flatten(cells) == ReadAll(song, RegionAddrs(ShapeOf(song), r))
  {
    var sh := ShapeOf(song);
    var cells := seq(r.height, i requires 0 <= i < r.height =>
                   seq(r.width, j requires 0 <= j < r.width => Read(song, CellAddr(sh, r, i, j))));
    assert GridFits(r, cells) by {
      forall i, j | 0 <= i < |cells| && 0 <= j < |cells[i]|
        ensures Fits((r.column + j) % N_COLUMN, cells[i][j])
      {
        CellAddrColumn(sh, r, i, j);
      }
    }
    ReadRegionFlat(song, r, cells);
    cells
  }

  lemma ReadRegionFlat(song: Song, r: Region, cells: seq<seq<Cell>>)
    requires ValidRegion(ShapeOf(song), r)
    requires |cells| == r.height && Rectangular(cells, r.width)
    requires forall i, j :: 0 <= i < r.height && 0 <= j < r.width ==> cells[i][j] == Read(song, CellAddr(ShapeOf(song), r, i, j))
    ensures Flatten(cells) == ReadAll(song, RegionAddrs(ShapeOf(song), r))
  {
    var sh := ShapeOf(song);
    var flat, all := Flatten(cells), ReadAll(song, RegionAddrs(sh, r));
    RegionAddrsLength(sh, r);
    FlattenLength(cells, r.width);
    forall k | 0 <= k < |flat|
      ensures flat[k] == all[k]
    {
      var i, j := RegionAddrsAt(sh, r, k);
      var i', j' := FlattenPosition(cells, r.width, k);
      assert i' == i && j' == j by { UniqueSplit(r.width, i, j, i', j'); }
    }
  }

  /**
    A block of one order from (bT, bC) to (eT, eC), steps bStep..eStep: non-empty,
    inside the track list, and inside the pattern every touched track plays there.
   */
  predicate BlockArgs(sh: Shape, bT: nat, bC: nat, order: nat, bStep: nat, eT: nat, eC: nat, eStep: nat) {
    && WellFormed(sh)
    && order < OrderCount(sh)
    && ValidBlock(bT, bC, eT, eC)
    && eT < TrackCount(sh)
    && bStep <= eStep
    && (forall tr :: bT <= tr <= eT && tr < TrackCount(sh) ==> eStep < SizeAt(sh, tr, order))
  }

  /** The region of such a block: one row per step, one cell per walked column. */
  function BlockRegion(bT: nat, bC: nat, order: nat, bStep: nat, eT: nat, eC: nat, eStep: nat): Region
    requires ValidBlock(bT, bC, eT, eC) && bStep <= eStep
  {
    Region(bT, bC, order, bStep, BlockWidth(bT, bC, eT, eC) as nat, eStep - bStep + 1)
  }

  lemma BlockRegionValid(sh: Shape, bT: nat, bC: nat, order: nat, bStep: nat, eT: nat, eC: nat, eStep: nat)
    requires BlockArgs(sh, bT, bC, order, bStep, eT, eC, eStep)
    ensures BlockWidth(bT, bC, eT, eC) >= 1
    ensures ValidRegion(sh, BlockRegion(bT, bC, order, bStep, eT, eC, eStep))
  {
    var r := BlockRegion(bT, bC, order, bStep, eT, eC, eStep);
    forall tr | r.track <= tr < TrackCount(sh) && Linear(tr, 0) < Linear(r.track, r.column) + r.width
      ensures r.step + r.height <= SizeAt(sh, tr, r.order)
    {
      assert tr <= eT;
    }
  }
}
