/**
  The cell walk shared by every range command: starting at (track, column),
  each further cell advances the column by one, and column 11 wraps to column 0
  of the next track.
 */
module CellWalk {
  import opened Steps

  /** One step of the walk: `++c; t += c / 11; c %= 11`. */
  function Advance(t: nat, c: nat): (nat, nat) {
    (t + (c + 1) / N_COLUMN, (c + 1) % N_COLUMN)
  }

  /** Linear cell index: eleven columns per track. */
  function Linear(t: nat, c: nat): nat {
    t * N_COLUMN + c
  }

  /** The (track, column) pairs of the first w cells of a walk from (t, c). */
  function Walk(t: nat, c: nat, w: nat): (r: seq<(nat, nat)>)
    requires c < N_COLUMN
    ensures |r| == w
    ensures forall k :: 0 <= k < w ==> r[k].1 < N_COLUMN && Linear(r[k].0, r[k].1) == Linear(t, c) + k
    decreases w
  {
    if w == 0 then []
    else
      var (t', c') := Advance(t, c);
      assert Linear(t', c') == Linear(t, c) + 1;
      [(t, c)] + Walk(t', c', w - 1)
  }

  /** A cell is determined by its linear index. */
  lemma LinearInjective(t1: nat, c1: nat, t2: nat, c2: nat)
    requires c1 < N_COLUMN && c2 < N_COLUMN && Linear(t1, c1) == Linear(t2, c2)
    ensures t1 == t2 && c1 == c2
  {
  }

  /** Cell k of a walk from column c sits in column (c + k) mod 11, (c + k) / 11 tracks on. */
  lemma WalkCell(t: nat, c: nat, w: nat, k: nat)
    requires c < N_COLUMN && k < w
    ensures Walk(t, c, w)[k] == (t + (c + k) / N_COLUMN, (c + k) % N_COLUMN)
  {
    var r := Walk(t, c, w)[k];
    var t', c' := t + (c + k) / N_COLUMN, (c + k) % N_COLUMN;
    assert Linear(t', c') == Linear(t, c) + k;
    LinearInjective(r.0, r.1, t', c');
  }

  /** A cell k places past (t, c) sits in column (c + k) mod 11, (c + k) / 11 tracks on. */
  lemma LinearOffset(t: nat, c: nat, k: nat, t': nat, c': nat)
    requires c < N_COLUMN && c' < N_COLUMN && Linear(t', c') == Linear(t, c) + k
    ensures t' == t + (c + k) / N_COLUMN && c' == (c + k) % N_COLUMN
  {
    LinearInjective(t', c', t + (c + k) / N_COLUMN, (c + k) % N_COLUMN);
  }

  /** The walk never visits a cell twice. */
  lemma WalkDistinct(t: nat, c: nat, w: nat, i: nat, j: nat)
    requires c < N_COLUMN && i < j < w
    ensures Walk(t, c, w)[i] != Walk(t, c, w)[j]
  {}

  /**
    The width of a block from (bT, bC) to (eT, eC): a partial first track, whole
    tracks in between, and a partial last track.
   */
  function BlockWidth(bT: nat, bC: nat, eT: nat, eC: nat): int {
    N_COLUMN * (eT - bT) + eC - bC + 1
  }

  /** A block whose end does not precede its begin, both columns in range. */
  predicate ValidBlock(bT: nat, bC: nat, eT: nat, eC: nat) {
    bC < N_COLUMN && eC < N_COLUMN && Linear(bT, bC) <= Linear(eT, eC)
  }

  /**
    The width computation of the shrink command's constructor: walk back from
    the end track to the begin track, adding each track's share.
   */
  method ComputeBlockWidth(bT: nat, bC: nat, eT: nat, eC: nat) returns (w: int)
    requires ValidBlock(bT, bC, eT, eC)
    ensures w == N_COLUMN * (eT - bT) + eC - bC + 1
    ensures w >= 1 && Linear(bT, bC) + w - 1 == Linear(eT, eC)
  {
    w := 0;
    var tr: int := eT;
    var cl: int := eC;
    while true
      invariant bT <= tr <= eT
      invariant cl == (if tr == eT then eC else 10)
      invariant w == N_COLUMN * (eT - tr) + eC - cl
      decreases tr - bT
    {
      if tr == bT {
        w := w + (cl - bC + 1);
        break;
      } else {
        w := w + (cl + 1);
        cl := 10;
        tr := tr - 1;
      }
    }
  }

  /** The last cell of a block's walk is the block's end cell. */
  lemma WalkEndsAtBlockEnd(bT: nat, bC: nat, eT: nat, eC: nat)
    requires ValidBlock(bT, bC, eT, eC)
    ensures BlockWidth(bT, bC, eT, eC) >= 1
    ensures Walk(bT, bC, BlockWidth(bT, bC, eT, eC) as nat)[BlockWidth(bT, bC, eT, eC) - 1] == (eT, eC)
  {
    var w := BlockWidth(bT, bC, eT, eC) as nat;
    var r := Walk(bT, bC, w)[w - 1];
    LinearInjective(r.0, r.1, eT, eC);
  }
}
