/**
  The order-list panel's editing logic: the vertical cursor that wraps around
  the order list, the selection rectangle, copy and paste through the
  clipboard text, two-digit hexadecimal entry of pattern numbers, and the
  guard that keeps at least one order. The panel addresses tracks by visible
  index; `visTracks` maps a visible index to the song's track number.
 */
module OrderListPanel {
  import opened Wrappers
  import opened Grids
  import opened Decimal
  import opened OrderClipboard
  import opened Arith
  import SetPatternToOrder

  /** A cell of the panel: visible track index and order row. */
  datatype Position = Position(trackVisIdx: int, row: int)

  /** A normalised selection: its left-above and right-below corners. */
  datatype Selection = Selection(leftAbove: Position, rightBelow: Position)

  /**
    The selection spanned by two corners given in any order: the left-above
    corner takes the smaller track and the smaller row, the right-below corner
    the larger ones.
   */
  function SetSelectedRectangle(start: Position, end: Position): (s: Selection)
    ensures s.leftAbove.trackVisIdx == Min(start.trackVisIdx, end.trackVisIdx)
    ensures s.rightBelow.trackVisIdx == Max(start.trackVisIdx, end.trackVisIdx)
    ensures s.leftAbove.row == Min(start.row, end.row)
    ensures s.rightBelow.row == Max(start.row, end.row)
  {
    if start.trackVisIdx > end.trackVisIdx then
      if start.row > end.row then Selection(end, start)
      else Selection(Position(end.trackVisIdx, start.row), Position(start.trackVisIdx, end.row))
    else
      if start.row > end.row then Selection(Position(start.trackVisIdx, end.row), Position(end.trackVisIdx, start.row))
      else Selection(start, end)
  }

  /** Containment in the selection, borders included. */
  predicate IsSelectedCell(s: Selection, trackIdx: int, row: int) {
    && s.leftAbove.trackVisIdx <= trackIdx <= s.rightBelow.trackVisIdx
    && s.leftAbove.row <= row <= s.rightBelow.row
  }

  /**
    A cell is selected exactly when it lies between the two corners the user
    gave, in both coordinates and whichever way round they were dragged.
   */
  lemma SelectionIsSpannedBox(start: Position, end: Position, trackIdx: int, row: int)
    ensures IsSelectedCell(SetSelectedRectangle(start, end), trackIdx, row) <==>
            && (start.trackVisIdx <= trackIdx <= end.trackVisIdx || end.trackVisIdx <= trackIdx <= start.trackVisIdx)
            && (start.row <= row <= end.row || end.row <= row <= start.row)
  {
  }

  /** Dragging from either corner to the other gives the same selection; both corners are selected. */
  lemma SelectionSymmetric(start: Position, end: Position)
    ensures SetSelectedRectangle(start, end) == SetSelectedRectangle(end, start)
    ensures IsSelectedCell(SetSelectedRectangle(start, end), start.trackVisIdx, start.row)
    ensures IsSelectedCell(SetSelectedRectangle(start, end), end.trackVisIdx, end.row)
  {
  }

  /**
    Moving the cursor n rows down, or up when n is negative, wrapping around
    the ends of the order list. The entry counter is reset.
   */
  method MoveCursorToDown(row: int, n: int, orderSize: int) returns (newRow: int, entryCnt: int)
    requires 0 <= row < orderSize
    ensures 0 <= newRow < orderSize
    ensures newRow == (row + n) % orderSize
    ensures entryCnt == 0
  {
    var tmp := row + n;
    if n > 0 {
      while tmp - orderSize >= 0
        invariant tmp >= 0
        invariant tmp % orderSize == (row + n) % orderSize
        decreases tmp
      {
        ModShift(tmp - orderSize, orderSize);
        tmp := tmp - orderSize;
      }
    } else {
      while tmp < 0
        invariant tmp < orderSize
        invariant tmp % orderSize == (row + n) % orderSize
        decreases -tmp
      {
        ModShift(tmp, orderSize);
        tmp := tmp + orderSize;
      }
    }
    ModSmall(tmp, orderSize);
    newRow := tmp;
    entryCnt := 0;
  }

  /** What one hexadecimal digit typed into an order cell does besides setting it. */
  datatype DigitEntry = DigitEntry(secondEntry: bool, entryCnt: int, moveDown: bool)

  /**
    Typing a digit: the command is flagged as the second digit when one digit
    has already been typed; the counter then alternates, and after the second
    digit the cursor moves down unless the song is playing with follow-play on.
   */
  function SetCellOrderNum(entryCnt: int, isPlaySong: bool, isFollowPlay: bool): (r: DigitEntry)
    requires entryCnt == 0 || entryCnt == 1
    ensures r.secondEntry <==> entryCnt == 1
    ensures r.entryCnt == 1 - entryCnt
    ensures r.moveDown <==> entryCnt == 1 && !(isPlaySong && isFollowPlay)
  {
    var cnt := (entryCnt + 1) % 2;
    DigitEntry(entryCnt == 1, cnt, (!isPlaySong || !isFollowPlay) && cnt == 0)
  }

  /**
    Two digits typed into the same cell: the first command is not a second
    entry and the second is, so the second merges into the first; a third
    digit starts over and merges with nothing before it.
   */
  lemma TwoDigitsMerge(song: nat, track: nat, order: nat, p1: nat, p2: nat, p3: nat, prev: nat,
                       isPlaySong: bool, isFollowPlay: bool)
    ensures var e1 := SetCellOrderNum(0, isPlaySong, isFollowPlay);
            var e2 := SetCellOrderNum(e1.entryCnt, isPlaySong, isFollowPlay);
            var e3 := SetCellOrderNum(e2.entryCnt, isPlaySong, isFollowPlay);
            var c1 := SetPatternToOrder.SetPatternToOrderCommand(song, track, order, p1, prev, e1.secondEntry);
            var c2 := SetPatternToOrder.SetPatternToOrderCommand(song, track, order, p2, p1, e2.secondEntry);
            var c3 := SetPatternToOrder.SetPatternToOrderCommand(song, track, order, p3, p2, e3.secondEntry);
            && SetPatternToOrder.MergeWith(c1, c2).Some?
            && SetPatternToOrder.MergeWith(c1, c2).value.prevPattern == prev
            && SetPatternToOrder.MergeWith(SetPatternToOrder.MergeWith(c1, c2).value, c3).None?
            && !e1.moveDown && (e2.moveDown <==> !(isPlaySong && isFollowPlay)) && e3.entryCnt == 1
  {
  }

  /** Deleting an order: attempted only when more than one order exists. Gives the new order count. */
  function DeleteOrder(orderSize: nat): (r: nat)
    ensures orderSize > 1 ==> r == orderSize - 1
    ensures orderSize <= 1 ==> r == orderSize
  {
    if orderSize > 1 then orderSize - 1 else orderSize
  }

  /** The order count after deleting once per entry of `rows`. */
  function DeleteOrders(orderSize: nat, rows: seq<int>): (r: nat)
    decreases |rows|
  {
    if |rows| == 0 then orderSize else DeleteOrders(DeleteOrder(orderSize), rows[1..])
  }

  /** However many deletions follow one another, an order list that had an order keeps one. */
  lemma {:induction false} DeletionsKeepAnOrder(orderSize: nat, rows: seq<int>)
    requires orderSize >= 1
    ensures DeleteOrders(orderSize, rows) >= 1
    ensures DeleteOrders(orderSize, rows) == Max(orderSize - |rows|, 1)
    decreases |rows|
  {
    if |rows| > 0 {
      DeletionsKeepAnOrder(DeleteOrder(orderSize), rows[1..]);
    }
  }

  /** The order data a copy reads: every order row holds one pattern number per track. */
  predicate ValidOrders(orders: seq<seq<nat>>, trackCount: nat) {
    forall o :: 0 <= o < |orders| ==> |orders[o]| == trackCount
  }

  /** A selection whose corners name existing rows and visible tracks, ordered left to right. */
  predicate ValidCopySelection(orders: seq<seq<nat>>, trackCount: nat, visTracks: seq<nat>, s: Selection) {
    && 0 <= s.leftAbove.trackVisIdx <= s.rightBelow.trackVisIdx < |visTracks|
    && 0 <= s.leftAbove.row <= s.rightBelow.row < |orders|
    && visTracks[s.leftAbove.trackVisIdx] <= visTracks[s.rightBelow.trackVisIdx] < trackCount
  }

  /**
    The copied grid: all tracks from the left corner's track to the right
    corner's track, hidden ones included, over the selected rows.
   */
  function SelectedGrid(orders: seq<seq<nat>>, trackCount: nat, visTracks: seq<nat>, s: Selection)
    : (grid: seq<seq<int>>)
    requires ValidOrders(orders, trackCount) && ValidCopySelection(orders, trackCount, visTracks, s)
    ensures var left := visTracks[s.leftAbove.trackVisIdx];
            var w := visTracks[s.rightBelow.trackVisIdx] - left + 1;
            && |grid| == s.rightBelow.row - s.leftAbove.row + 1 && Rectangular(grid, w)
            && forall i, j :: 0 <= i < |grid| && 0 <= j < w ==>
                 grid[i][j] == orders[s.leftAbove.row + i][left + j]
  {
    var left := visTracks[s.leftAbove.trackVisIdx];
    var w := visTracks[s.rightBelow.trackVisIdx] - left + 1;
    var h := s.rightBelow.row - s.leftAbove.row + 1;
    seq(h, i requires 0 <= i < h => seq(w, j requires 0 <= j < w => orders[s.leftAbove.row + i][left + j] as int))
  }

  /** Copying puts the selected grid on the clipboard; without a selection nothing is copied. */
  function CopySelectedCells(orders: seq<seq<nat>>, trackCount: nat, visTracks: seq<nat>, sel: Option<Selection>)
    : (text: Option<string>)
    requires ValidOrders(orders, trackCount)
    requires sel.Some? ==> ValidCopySelection(orders, trackCount, visTracks, sel.value)
    ensures text.Some? <==> sel.Some?
  {
    match sel
    case None => None
    case Some(s) =>
      var w := visTracks[s.rightBelow.trackVisIdx] - visTracks[s.leftAbove.trackVisIdx] + 1;
      Some(Serialize(SelectedGrid(orders, trackCount, visTracks, s), w))
  }

  /** The outcome of a paste: the grid handed to the core and recorded, or the error message. */
  datatype PasteOutcome = Pasted(cells: seq<seq<int>>) | ErrorShown

  /**
    Pasting clipboard text: it must read as a grid, and the core must accept
    the grid; only then is a command pushed on the GUI history. Otherwise an
    error is shown.
   */
  function PasteCopiedCells(text: string, corePaste: seq<seq<int>> -> bool): (r: PasteOutcome)
    ensures r.Pasted? <==> Parse(text).Success? && corePaste(Parse(text).value)
    ensures r.Pasted? ==> r.cells == Parse(text).value
  {
    match Parse(text)
    case Failure(_) => ErrorShown
    case Success(cells) => if corePaste(cells) then Pasted(cells) else ErrorShown
  }

  /** Pattern numbers small enough for the clipboard's 32-bit fields. */
  predicate PatternNumbersFit(orders: seq<seq<nat>>) {
    forall o, t :: 0 <= o < |orders| && 0 <= t < |orders[o]| ==> orders[o][t] <= INT32_MAX
  }

  /**
    Copy and paste: what a copy puts on the clipboard is pasted back as exactly
    the selected grid, whenever the core accepts it.
   */
  lemma CopyThenPaste(orders: seq<seq<nat>>, trackCount: nat, visTracks: seq<nat>, s: Selection,
                      corePaste: seq<seq<int>> -> bool)
    requires ValidOrders(orders, trackCount) && ValidCopySelection(orders, trackCount, visTracks, s)
    requires PatternNumbersFit(orders) && trackCount < UINT32_LIMIT && |orders| < UINT32_LIMIT
    requires corePaste(SelectedGrid(orders, trackCount, visTracks, s))
    ensures var text := CopySelectedCells(orders, trackCount, visTracks, Some(s));
            PasteCopiedCells(text.value, corePaste) == Pasted(SelectedGrid(orders, trackCount, visTracks, s))
  {
    var grid := SelectedGrid(orders, trackCount, visTracks, s);
    var w := visTracks[s.rightBelow.trackVisIdx] - visTracks[s.leftAbove.trackVisIdx] + 1;
    var text := Serialize(grid, w);
    assert CopySelectedCells(orders, trackCount, visTracks, Some(s)) == Some(text);
    SelectedGridInt32(orders, trackCount, visTracks, s);
    ParseSerialize(grid, w);
    assert Parse(text) == Success(grid);
  }

  /** The selected grid holds pattern numbers, which fit the clipboard's signed 32-bit fields. */
  lemma SelectedGridInt32(orders: seq<seq<nat>>, trackCount: nat, visTracks: seq<nat>, s: Selection)
    requires ValidOrders(orders, trackCount) && ValidCopySelection(orders, trackCount, visTracks, s)
    requires PatternNumbersFit(orders)
    ensures Int32Grid(SelectedGrid(orders, trackCount, visTracks, s))
  {
    var grid := SelectedGrid(orders, trackCount, visTracks, s);
    forall i, j | 0 <= i < |grid| && 0 <= j < |grid[i]|
      ensures INT32_MIN <= grid[i][j] <= INT32_MAX
    {
      assert grid[i][j] == orders[s.leftAbove.row + i][visTracks[s.leftAbove.trackVisIdx] + j];
    }
  }
}
