/** Row-major grids as sequences of rows, and their flattening. */
module Grids {
  import opened Arith

  /** Every row has exactly w entries. */
  predicate Rectangular<T>(rows: seq<seq<T>>, w: nat) {
    forall i :: 0 <= i < |rows| ==> |rows[i]| == w
  }

  /** The rows concatenated, first row first. */
  function Flatten<T>(rows: seq<seq<T>>): (r: seq<T>)
    decreases |rows|
  {
    if |rows| == 0 then [] else rows[0] + Flatten(rows[1..])
  }

  lemma {:induction false} FlattenAppend<T>(a: seq<seq<T>>, b: seq<seq<T>>)
    ensures Flatten(a + b) == Flatten(a) + Flatten(b)
    decreases |a|
  {
    if |a| > 0 {
      assert (a + b)[1..] == a[1..] + b;
      FlattenAppend(a[1..], b);
    } else {
      assert a + b == b;
    }
  }

  /** Entry j of row i sits at position i*w + j of the flattened grid. */
  lemma {:induction false} FlattenIndex<T>(rows: seq<seq<T>>, w: nat, i: nat, j: nat)
    requires Rectangular(rows, w) && i < |rows| && j < w
    ensures |Flatten(rows)| == |rows| * w
    ensures i * w + j < |Flatten(rows)| && Flatten(rows)[i * w + j] == rows[i][j]
    decreases |rows|
  {
    FlattenLength(rows, w);
    if i > 0 {
      FlattenIndex(rows[1..], w, i - 1, j);
      assert (i - 1) * w + j + w == i * w + j;
    }
  }

  lemma {:induction false} FlattenLength<T>(rows: seq<seq<T>>, w: nat)
    requires Rectangular(rows, w)
    ensures |Flatten(rows)| == |rows| * w
    decreases |rows|
  {
    if |rows| > 0 {
      FlattenLength(rows[1..], w);
    }
  }

  /** Every position of a flattened rectangular grid is entry j of some row i. */
  lemma FlattenPosition<T>(rows: seq<seq<T>>, w: nat, k: nat) returns (i: nat, j: nat)
    requires Rectangular(rows, w) && k < |rows| * w
    ensures i < |rows| && j < w && k == i * w + j
    ensures |Flatten(rows)| == |rows| * w && Flatten(rows)[k] == rows[i][j]
  {
    assert w > 0;
    i, j := k / w, k % w;
    DivMod(k, w);
    DivBelow(k, w, |rows|);
    FlattenIndex(rows, w, i, j);
  }

  /** A position splits into (row, column) in one way only. */
  lemma UniqueSplit(w: nat, i: nat, j: nat, i': nat, j': nat)
    requires j < w && j' < w && i * w + j == i' * w + j'
    ensures i == i' && j == j'
  {
    MulStep(i, i', w);
    MulStep(i', i, w);
  }

  lemma MulStep(a: nat, b: nat, w: nat)
    ensures a < b ==> a * w + w <= b * w
  {
    if a < b {
      var d := b - a;
      assert b * w == a * w + d * w;
    }
  }

  /** Row i of a row-major sequence cut into rows of w entries. */
  function RowOf<T>(data: seq<T>, w: nat, h: nat, i: nat): (row: seq<T>)
    requires |data| == h * w && i < h
    ensures |row| == w
    ensures forall j :: 0 <= j < w ==> i * w + j < |data| && row[j] == data[i * w + j]
  {
    MulStep(i, h, w);
    data[i * w..i * w + w]
  }

  /** A row-major sequence cut into h rows of w entries. */
  function Unflatten<T>(data: seq<T>, w: nat, h: nat): (rows: seq<seq<T>>)
    requires |data| == h * w
    ensures |rows| == h && Rectangular(rows, w)
    ensures forall i :: 0 <= i < h ==> rows[i] == RowOf(data, w, h, i)
  {
    seq(h, i requires 0 <= i < h => RowOf(data, w, h, i))
  }

  /** Cutting a flattened rectangular grid into its rows gives back the grid. */
  lemma UnflattenFlatten<T>(rows: seq<seq<T>>, w: nat)
    requires Rectangular(rows, w)
    ensures |Flatten(rows)| == |rows| * w && Unflatten(Flatten(rows), w, |rows|) == rows
  {
    FlattenLength(rows, w);
    var u := Unflatten(Flatten(rows), w, |rows|);
    forall i | 0 <= i < |rows| ensures u[i] == rows[i] {
      forall j | 0 <= j < w ensures u[i][j] == rows[i][j] {
        FlattenIndex(rows, w, i, j);
      }
    }
  }

  /** Two grids whose rows have equal lengths. */
  predicate SameRowLengths<S, T>(a: seq<seq<S>>, b: seq<seq<T>>) {
    |a| == |b| && forall i :: 0 <= i < |a| ==> |a[i]| == |b[i]|
  }

  /** Flattening two grids of the same row lengths lines their entries up. */
  lemma {:induction false} FlattenAligned<S, T>(a: seq<seq<S>>, b: seq<seq<T>>, k: nat) returns (i: nat, j: nat)
    requires SameRowLengths(a, b) && k < |Flatten(a)|
    ensures |Flatten(a)| == |Flatten(b)|
    ensures i < |a| && j < |a[i]| && Flatten(a)[k] == a[i][j] && Flatten(b)[k] == b[i][j]
    decreases |a|
  {
    FlattenSameLength(a, b);
    if k < |a[0]| {
      i, j := 0, k;
    } else {
      assert SameRowLengths(a[1..], b[1..]);
      var i', j' := FlattenAligned(a[1..], b[1..], k - |a[0]|);
      i, j := i' + 1, j';
    }
  }

  /** Every entry of the first grid has a position in the flattening, shared with the second grid. */
  lemma {:induction false} FlattenAlignedAt<S, T>(a: seq<seq<S>>, b: seq<seq<T>>, i: nat, j: nat) returns (k: nat)
    requires SameRowLengths(a, b) && i < |a| && j < |a[i]|
    ensures |Flatten(a)| == |Flatten(b)|
    ensures k < |Flatten(a)| && Flatten(a)[k] == a[i][j] && Flatten(b)[k] == b[i][j]
    decreases |a|
  {
    FlattenSameLength(a, b);
    if i == 0 {
      k := j;
    } else {
      assert SameRowLengths(a[1..], b[1..]);
      var k' := FlattenAlignedAt(a[1..], b[1..], i - 1, j);
      k := |a[0]| + k';
    }
  }

  lemma {:induction false} FlattenSameLength<S, T>(a: seq<seq<S>>, b: seq<seq<T>>)
    requires SameRowLengths(a, b)
    ensures |Flatten(a)| == |Flatten(b)|
    decreases |a|
  {
    if |a| > 0 {
      assert SameRowLengths(a[1..], b[1..]);
      FlattenSameLength(a[1..], b[1..]);
    }
  }
}
