/**
  The loop and release markers of an instrument macro (a sequence of columns).
  Loops are intervals [begin, end] of columns with a repeat count; the editor
  keeps them sorted by begin and disjoint. The release is a column index, or
  -1 for none, with a type. Clicks on the loop row add loops and change their
  repeat counts, dragging a loop edge moves it up to its neighbours, and
  clicks on the release row place, retype or erase the release. Removing the
  last column cuts the loops and the release back to the columns that remain.
 */
module MacroEditor {
  import opened Arith

  datatype Loop = Loop(begin: int, end: int, times: int)

  datatype ReleaseType = NoRelease | Fix | Absolute | Relative

  datatype Release = Release(kind: ReleaseType, point: int)

  const NO_POINT: int := -1

  datatype Button = LeftButton | RightButton | OtherButton

  /** The loop covers the column. */
  predicate Covers(l: Loop, col: int) {
    l.begin <= col <= l.end
  }

  /**
    Loops as the editor keeps them for a sequence of `size` columns: each
    inside the sequence, not empty, repeated at least once, and every loop
    ending before the next one begins.
   */
  predicate LoopsWellFormed(loops: seq<Loop>, size: int) {
    && (forall i :: 0 <= i < |loops| ==> 0 <= loops[i].begin <= loops[i].end < size && loops[i].times >= 1)
    && (forall i, j :: 0 <= i < j < |loops| ==> loops[i].end < loops[j].begin)
  }

  predicate SortedByBegin(loops: seq<Loop>) {
    forall i, j :: 0 <= i < j < |loops| ==> loops[i].begin <= loops[j].begin
  }

  lemma WellFormedIsSorted(loops: seq<Loop>, size: int)
    requires LoopsWellFormed(loops, size)
    ensures SortedByBegin(loops)
  {
  }

  /** The release point is a column of the sequence, or none. */
  predicate ReleaseWellFormed(r: Release, size: int) {
    r.point == NO_POINT || 0 <= r.point < size
  }

  /**
    The loop under a column: scanning loops in order while they begin at or
    before the column, the last one that also ends at or after it; -1 when
    there is none.
   */
  method CheckLoopRegion(loops: seq<Loop>, col: int) returns (ret: int)
    ensures ret == -1 || (0 <= ret < |loops| && Covers(loops[ret], col))
    ensures SortedByBegin(loops) ==> (ret == -1 <==> forall k :: 0 <= k < |loops| ==> !Covers(loops[k], col))
  {
    ret := -1;
    var i := 0;
    while i < |loops| && loops[i].begin <= col
      invariant 0 <= i <= |loops|
      invariant forall k :: 0 <= k < i ==> loops[k].begin <= col
      invariant ret == -1 || (0 <= ret < i && Covers(loops[ret], col))
      invariant ret == -1 ==> forall k :: 0 <= k < i ==> !Covers(loops[k], col)
    {
      if loops[i].end >= col {
        ret := i;
      }
      i := i + 1;
    }
  }

  /**
    Inserting a loop after every loop that begins at or before it, so that
    the list stays sorted by begin.
   */
  method AddLoop(loops: seq<Loop>, begin: int, end: int, times: int) returns (r: seq<Loop>, inx: int)
    ensures 0 <= inx <= |loops| && r == loops[..inx] + [Loop(begin, end, times)] + loops[inx..]
    ensures forall k :: 0 <= k < inx ==> loops[k].begin <= begin
    ensures inx < |loops| ==> loops[inx].begin > begin
    ensures SortedByBegin(loops) ==> SortedByBegin(r)
  {
    inx := 0;
    var i := 0;
    while i < |loops|
      invariant 0 <= i <= |loops| && inx == i
      invariant forall k :: 0 <= k < i ==> loops[k].begin <= begin
    {
      if loops[i].begin > begin {
        break;
      }
      inx := inx + 1;
      i := i + 1;
    }
    r := loops[..inx] + [Loop(begin, end, times)] + loops[inx..];
    if SortedByBegin(loops) {
      forall a, b | 0 <= a < b < |r| ensures r[a].begin <= r[b].begin {
        if b < inx {
        } else if b == inx {
          assert r[a] == loops[a];
        } else if a == inx {
          assert r[b] == loops[b - 1];
        } else if a < inx {
          assert r[a] == loops[a] && r[b] == loops[b - 1];
        } else {
          assert r[a] == loops[a - 1] && r[b] == loops[b - 1];
        }
      }
    }
  }

  /** A loop cut so that it ends at or before the last column of a sequence of `size` columns. */
  function Clip(l: Loop, size: int): (c: Loop)
    ensures c.begin == l.begin && c.times == l.times
    ensures c.end <= l.end && c.end < size
    ensures l.end < size ==> c == l
  {
    if l.end >= size then l.(end := size - 1) else l
  }

  /**
    The loops after the last column is removed: loops beginning at or past the
    new size are dropped, the others are cut to end at the last column.
   */
  function TrimLoops(loops: seq<Loop>, newSize: int): (r: seq<Loop>)
    ensures |r| <= |loops|
    ensures forall t :: t in r ==> exists l :: l in loops && l.begin < newSize && t == Clip(l, newSize)
    ensures forall l :: l in loops && l.begin < newSize ==> Clip(l, newSize) in r
    decreases |loops|
  {
    if |loops| == 0 then []
    else
      var rest := TrimLoops(loops[1..], newSize);
      var l := loops[0];
      if l.begin >= newSize then rest
      else [Clip(l, newSize)] + rest
  }

  /** A loop list with no loop beginning at or past the new size loses none in trimming. */
  lemma {:induction false} TrimLoopsLength(loops: seq<Loop>, newSize: int)
    ensures |TrimLoops(loops, newSize)| == |loops| <==> forall i :: 0 <= i < |loops| ==> loops[i].begin < newSize
    decreases |loops|
  {
    if |loops| > 0 {
      TrimLoopsLength(loops[1..], newSize);
      assert forall i :: 1 <= i < |loops| ==> loops[i] == loops[1..][i - 1];
    }
  }

  /** Trimming never moves a begin, so loops that all begin after a column still do. */
  lemma TrimLoopsBeginAfter(loops: seq<Loop>, newSize: int, x: int)
    requires forall l :: l in loops ==> l.begin > x
    ensures forall t :: t in TrimLoops(loops, newSize) ==> t.begin > x
  {
  }

  /** Trimming keeps the loops disjoint and in order. */
  lemma {:induction false} TrimLoopsDisjoint(loops: seq<Loop>, newSize: int)
    requires forall i, j :: 0 <= i < j < |loops| ==> loops[i].end < loops[j].begin
    ensures forall i, j :: 0 <= i < j < |TrimLoops(loops, newSize)| ==>
              TrimLoops(loops, newSize)[i].end < TrimLoops(loops, newSize)[j].begin
    decreases |loops|
  {
    if |loops| > 0 {
      var tail := loops[1..];
      TrimLoopsDisjoint(tail, newSize);
      forall l | l in tail ensures l.begin > loops[0].end {
        var j :| 0 <= j < |tail| && tail[j] == l;
        assert loops[j + 1] == l;
      }
      TrimLoopsBeginAfter(tail, newSize, loops[0].end);
      if loops[0].begin < newSize {
        ConsDisjoint(Clip(loops[0], newSize), TrimLoops(tail, newSize));
      }
    }
  }

  /** A loop ending before every loop of a disjoint, ordered list can go in front of it. */
  lemma ConsDisjoint(c: Loop, rest: seq<Loop>)
    requires forall i, j :: 0 <= i < j < |rest| ==> rest[i].end < rest[j].begin
    requires forall t :: t in rest ==> t.begin > c.end
    ensures forall i, j :: 0 <= i < j < |[c] + rest| ==> ([c] + rest)[i].end < ([c] + rest)[j].begin
  {
    var r := [c] + rest;
    forall i, j | 0 <= i < j < |r| ensures r[i].end < r[j].begin {
      assert r[j] == rest[j - 1] && rest[j - 1] in rest;
      if i > 0 {
        assert r[i] == rest[i - 1];
      }
    }
  }

  /** The editor's macro state: the column values, the loops and the release. */
  datatype MacroState = MacroState(cols: seq<int>, loops: seq<Loop>, release: Release)

  predicate StateWellFormed(s: MacroState) {
    |s.cols| >= 1 && LoopsWellFormed(s.loops, |s.cols|) && ReleaseWellFormed(s.release, |s.cols|)
  }

  /**
    Removing the last column: refused when only one column is left; otherwise
    the loops are trimmed and a release point past the new end is cleared.
   */
  function RemoveSequenceCommand(s: MacroState): (r: MacroState)
    ensures |s.cols| <= 1 ==> r == s
    ensures |s.cols| > 1 ==> r.loops == TrimLoops(s.loops, |s.cols| - 1)
    ensures |s.cols| != 1 && |s.cols| > 0 ==> r.cols == s.cols[..|s.cols| - 1]
    ensures |s.cols| != 1 && |s.cols| > 0 ==>
              r.release == (if s.release.point >= |r.cols| then s.release.(point := NO_POINT) else s.release)
  {
    if |s.cols| == 1 || |s.cols| == 0 then s
    else
      var cols := s.cols[..|s.cols| - 1];
      var release := if s.release.point >= |cols| then s.release.(point := NO_POINT) else s.release;
      MacroState(cols, TrimLoops(s.loops, |cols|), release)
  }

  /** Removing a column keeps a well-formed state well-formed, with at least one column. */
  lemma RemoveKeepsWellFormed(s: MacroState)
    requires StateWellFormed(s)
    ensures StateWellFormed(RemoveSequenceCommand(s))
    ensures |RemoveSequenceCommand(s).cols| >= 1
  {
    if |s.cols| > 1 {
      var n := |s.cols| - 1;
      TrimLoopsDisjoint(s.loops, n);
      var t := TrimLoops(s.loops, n);
      forall i | 0 <= i < |t| ensures 0 <= t[i].begin <= t[i].end < n && t[i].times >= 1 {
        assert t[i] in t;
      }
    }
  }

  /** Clicking the loop row at a column, when no loop edge is grabbed. */
  method PressLoopRow(loops: seq<Loop>, col: int, button: Button) returns (r: seq<Loop>)
    ensures button == OtherButton ==> r == loops
    ensures SortedByBegin(loops) && button == LeftButton && (forall k :: 0 <= k < |loops| ==> !Covers(loops[k], col)) ==>
              exists inx :: 0 <= inx <= |loops| && r == loops[..inx] + [Loop(col, col, 1)] + loops[inx..]
                && (forall k :: 0 <= k < inx ==> loops[k].begin <= col) && (inx < |loops| ==> loops[inx].begin > col)
    ensures SortedByBegin(loops) && button == LeftButton && (exists k :: 0 <= k < |loops| && Covers(loops[k], col)) ==>
              |r| == |loops| && exists k :: 0 <= k < |loops| && Covers(loops[k], col) && r == loops[k := loops[k].(times := loops[k].times + 1)]
    ensures button == RightButton && (forall k :: 0 <= k < |loops| ==> !Covers(loops[k], col)) && SortedByBegin(loops) ==>
              r == loops
    ensures SortedByBegin(loops) && button == RightButton && (exists k :: 0 <= k < |loops| && Covers(loops[k], col)) ==>
              exists k :: 0 <= k < |loops| && Covers(loops[k], col) &&
                (if loops[k].times > 1 then r == loops[k := loops[k].(times := loops[k].times - 1)]
                 else r == loops[..k] + loops[k + 1..])
  {
    var i := CheckLoopRegion(loops, col);
    match button
    case LeftButton =>
      if i == -1 {
        var inx;
        r, inx := AddLoop(loops, col, col, 1);
      } else {
        r := loops[i := loops[i].(times := loops[i].times + 1)];
      }
    case RightButton =>
      if i > -1 {
        if loops[i].times > 1 {
          r := loops[i := loops[i].(times := loops[i].times - 1)];
        } else {
          r := loops[..i] + loops[i + 1..];
        }
      } else {
        r := loops;
      }
    case OtherButton =>
      r := loops;
  }

  /**
    A loop-row click, run through `PressLoopRow`, keeps the loops well-formed:
    the new one-column loop goes where no loop covers the click, and a repeat
    count never drops below one, since a loop repeated once is erased instead.
    The proof rests only on `PressLoopRow`'s per-case contract.
   */
  method PressLoopRowWellFormed(loops: seq<Loop>, size: int, col: int, button: Button) returns (r: seq<Loop>)
    requires LoopsWellFormed(loops, size) && 0 <= col < size
    ensures LoopsWellFormed(r, size)
  {
    WellFormedIsSorted(loops, size);
    r := PressLoopRow(loops, col, button);
    var covered := exists k :: 0 <= k < |loops| && Covers(loops[k], col);
    match button
    case LeftButton =>
      if !covered {
        var inx :| 0 <= inx <= |loops| && r == loops[..inx] + [Loop(col, col, 1)] + loops[inx..]
          && (forall k :: 0 <= k < inx ==> loops[k].begin <= col) && (inx < |loops| ==> loops[inx].begin > col);
        InsertKeepsWellFormed(loops, size, col, inx);
      } else {
        var k :| 0 <= k < |loops| && Covers(loops[k], col) && r == loops[k := loops[k].(times := loops[k].times + 1)];
        ReplaceKeepsWellFormed(loops, size, k, loops[k].(times := loops[k].times + 1));
      }
    case RightButton =>
      if covered {
        var k :| 0 <= k < |loops| && Covers(loops[k], col) &&
          (if loops[k].times > 1 then r == loops[k := loops[k].(times := loops[k].times - 1)]
           else r == loops[..k] + loops[k + 1..]);
        if loops[k].times > 1 {
          ReplaceKeepsWellFormed(loops, size, k, loops[k].(times := loops[k].times - 1));
        } else {
          EraseKeepsWellFormed(loops, size, k);
        }
      }
    case OtherButton =>
  }

  /**
    Dragging the grabbed loop's head or tail to column `hovCol`. The head
    moves left no further than just after the previous loop and the tail
    right no further than just before the next; dragging an edge past the
    opposite edge erases the loop. A column of -1 (outside the sequence)
    does nothing.
   */
  function MoveLoop(loops: seq<Loop>, grabLoop: int, isGrabLoopHead: bool, hovCol: int): (r: seq<Loop>)
    requires 0 <= grabLoop < |loops|
    ensures hovCol < 0 ==> r == loops
    // The head: dragged left, it stops just after the previous loop's end.
    ensures isGrabLoopHead && 0 <= hovCol < loops[grabLoop].begin ==>
              r == loops[grabLoop := loops[grabLoop].(begin :=
                     if grabLoop > 0 then Max(hovCol, loops[grabLoop - 1].end + 1) else hovCol)]
    ensures isGrabLoopHead && hovCol == loops[grabLoop].begin ==> r == loops
    ensures isGrabLoopHead && 0 <= hovCol && loops[grabLoop].begin < hovCol <= loops[grabLoop].end ==>
              r == loops[grabLoop := loops[grabLoop].(begin := hovCol)]
    ensures isGrabLoopHead && 0 <= hovCol && hovCol > loops[grabLoop].begin && hovCol > loops[grabLoop].end ==>
              r == loops[..grabLoop] + loops[grabLoop + 1..]
    // The tail: dragged right, it stops just before the next loop's begin.
    ensures !isGrabLoopHead && 0 <= hovCol && hovCol > loops[grabLoop].end ==>
              r == loops[grabLoop := loops[grabLoop].(end :=
                     if grabLoop + 1 < |loops| then Min(hovCol, loops[grabLoop + 1].begin - 1) else hovCol)]
    ensures !isGrabLoopHead && hovCol == loops[grabLoop].end ==> r == loops
    ensures !isGrabLoopHead && 0 <= hovCol && loops[grabLoop].begin <= hovCol < loops[grabLoop].end ==>
              r == loops[grabLoop := loops[grabLoop].(end := hovCol)]
    ensures !isGrabLoopHead && 0 <= hovCol && hovCol < loops[grabLoop].begin && hovCol < loops[grabLoop].end ==>
              r == loops[..grabLoop] + loops[grabLoop + 1..]
  {
    var l := loops[grabLoop];
    if hovCol < 0 then loops
    else if isGrabLoopHead then
      if hovCol < l.begin then
        if grabLoop > 0 && loops[grabLoop - 1].end >= hovCol then loops[grabLoop := l.(begin := loops[grabLoop - 1].end + 1)]
        else loops[grabLoop := l.(begin := hovCol)]
      else if hovCol > l.begin then
        if hovCol > l.end then loops[..grabLoop] + loops[grabLoop + 1..]
        else loops[grabLoop := l.(begin := hovCol)]
      else loops
    else
      if hovCol < l.end then
        if hovCol < l.begin then loops[..grabLoop] + loops[grabLoop + 1..]
        else loops[grabLoop := l.(end := hovCol)]
      else if hovCol > l.end then
        if grabLoop < |loops| - 1 && loops[grabLoop + 1].begin <= hovCol then loops[grabLoop := l.(end := loops[grabLoop + 1].begin - 1)]
        else loops[grabLoop := l.(end := hovCol)]
      else loops
  }

  /** Erasing one loop keeps the rest well-formed. */
  lemma EraseKeepsWellFormed(loops: seq<Loop>, size: int, k: int)
    requires LoopsWellFormed(loops, size) && 0 <= k < |loops|
    ensures LoopsWellFormed(loops[..k] + loops[k + 1..], size)
  {
    var r := loops[..k] + loops[k + 1..];
    forall a | 0 <= a < |r| ensures r[a] == loops[if a < k then a else a + 1] {
    }
  }

  /** A one-column loop inserted at its place by begin, where no loop covers it, keeps the loops well-formed. */
  lemma InsertKeepsWellFormed(loops: seq<Loop>, size: int, col: int, inx: int)
    requires LoopsWellFormed(loops, size) && 0 <= col < size && 0 <= inx <= |loops|
    requires forall k :: 0 <= k < |loops| ==> !Covers(loops[k], col)
    requires forall k :: 0 <= k < inx ==> loops[k].begin <= col
    requires inx < |loops| ==> loops[inx].begin > col
    ensures LoopsWellFormed(loops[..inx] + [Loop(col, col, 1)] + loops[inx..], size)
  {
    var r := loops[..inx] + [Loop(col, col, 1)] + loops[inx..];
    forall a | 0 <= a < |r|
      ensures 0 <= r[a].begin <= r[a].end < size && r[a].times >= 1
    {
      if a < inx {
        assert r[a] == loops[a];
      } else if a > inx {
        assert r[a] == loops[a - 1];
      }
    }
    forall a, b | 0 <= a < b < |r| ensures r[a].end < r[b].begin {
      if b < inx {
        assert r[a] == loops[a] && r[b] == loops[b];
      } else if b == inx {
        assert r[a] == loops[a] && !Covers(loops[a], col);
      } else if a < inx {
        assert r[a] == loops[a] && r[b] == loops[b - 1];
      } else if a == inx {
        assert r[b] == loops[b - 1];
        assert b - 1 > inx ==> loops[inx].end < loops[b - 1].begin;
      } else {
        assert r[a] == loops[a - 1] && r[b] == loops[b - 1];
      }
    }
  }

  /** Replacing one loop by a loop that stays between its neighbours keeps the loops well-formed. */
  lemma ReplaceKeepsWellFormed(loops: seq<Loop>, size: int, k: int, l: Loop)
    requires LoopsWellFormed(loops, size) && 0 <= k < |loops|
    requires 0 <= l.begin <= l.end < size && l.times >= 1
    requires k > 0 ==> loops[k - 1].end < l.begin
    requires k + 1 < |loops| ==> l.end < loops[k + 1].begin
    ensures LoopsWellFormed(loops[k := l], size)
  {
    var r := loops[k := l];
    forall a, b | 0 <= a < b < |r| ensures r[a].end < r[b].begin {
      if a == k && b > k + 1 {
        assert loops[k + 1].end < loops[b].begin;
      } else if b == k && a < k - 1 {
        assert loops[a].end < loops[k - 1].begin;
      }
    }
  }

  /** Dragging an edge to any column of the sequence keeps the loops well-formed. */
  lemma MoveLoopKeepsWellFormed(loops: seq<Loop>, size: int, grabLoop: int, isGrabLoopHead: bool, hovCol: int)
    requires LoopsWellFormed(loops, size) && 0 <= grabLoop < |loops| && hovCol < size
    ensures LoopsWellFormed(MoveLoop(loops, grabLoop, isGrabLoopHead, hovCol), size)
  {
    var r := MoveLoop(loops, grabLoop, isGrabLoopHead, hovCol);
    if |r| < |loops| {
      EraseKeepsWellFormed(loops, size, grabLoop);
    } else if hovCol >= 0 {
      assert r == loops[grabLoop := r[grabLoop]];
      ReplaceKeepsWellFormed(loops, size, grabLoop, r[grabLoop]);
    }
  }

  /** The release type after a left click on an existing release in multi-release mode. */
  function NextReleaseType(t: ReleaseType): (u: ReleaseType)
    ensures u != NoRelease
    ensures t != u
  {
    match t
    case Fix => Absolute
    case Absolute => Relative
    case NoRelease => Fix
    case Relative => Fix
  }

  /**
    In multi-release mode the three release types take turns, fixed, then
    absolute, then relative, and a release of no type becomes fixed.
   */
  lemma ReleaseTypesCycle(t: ReleaseType)
    requires t != NoRelease
    ensures NextReleaseType(NextReleaseType(NextReleaseType(t))) == t
    ensures NextReleaseType(t) != NextReleaseType(NextReleaseType(t))
    ensures NextReleaseType(Fix) == Absolute && NextReleaseType(Absolute) == Relative
    ensures NextReleaseType(Relative) == Fix && NextReleaseType(NoRelease) == Fix
  {
  }

  /**
    Clicking the release row at column `col`, when the release is not grabbed.
    A left click before the release, or with none, places the release there,
    turning "no release" into a fixed one; a left click at or after it cycles
    the type in multi-release mode. A right click at or after it erases it.
   */
  function PressReleaseRow(r: Release, col: int, button: Button, isMultiReleaseState: bool): (u: Release)
    requires col >= 0
    ensures button == LeftButton && (r.point == NO_POINT || col < r.point) ==>
              u.point == col && u.kind == (if r.kind == NoRelease then Fix else r.kind)
    ensures button == LeftButton && !(r.point == NO_POINT || col < r.point) ==>
              u.point == r.point && (isMultiReleaseState ==> u.kind == NextReleaseType(r.kind))
              && (!isMultiReleaseState ==> u == r)
    ensures button == RightButton ==> u.kind == r.kind && (if col >= r.point then u.point == NO_POINT else u == r)
    ensures button == OtherButton ==> u == r
  {
    match button
    case LeftButton =>
      if r.point == NO_POINT || col < r.point then
        Release(if r.kind == NoRelease then Fix else r.kind, col)
      else if isMultiReleaseState then
        r.(kind := NextReleaseType(r.kind))
      else r
    case RightButton =>
      if col >= r.point then r.(point := NO_POINT) else r
    case OtherButton => r
  }

  /** Release clicks on a column of the sequence keep the release point inside it. */
  lemma ReleaseClickKeepsWellFormed(r: Release, size: int, col: int, button: Button, isMultiReleaseState: bool)
    requires ReleaseWellFormed(r, size) && 0 <= col < size
    ensures ReleaseWellFormed(PressReleaseRow(r, col, button, isMultiReleaseState), size)
  {
  }
}
