/**
  The song model: tracks own pattern arenas, and the order list maps each order
  row to one pattern number per track. Steps live in the arena, so two order
  rows naming the same pattern of a track see the same steps.
 */
module Songs {
  import opened Steps

  type Pattern = seq<Step>

  datatype Track = Track(patterns: seq<Pattern>)

  /** orders[o][t] is the pattern number track t plays at order row o. */
  datatype Song = Song(tracks: seq<Track>, orders: seq<seq<nat>>)

  /** An address of one cell in a track's pattern arena. */
  datatype Addr = Addr(track: nat, pattern: nat, step: nat, column: nat)

  /**
    What cell writes never change: the order list and the size of every
    pattern. Every walk of a range command is computed from this alone.
   */
  datatype Shape = Shape(orders: seq<seq<nat>>, sizes: seq<seq<nat>>)

  function ShapeOf(song: Song): (sh: Shape)
    ensures |sh.sizes| == |song.tracks|
    ensures forall t :: 0 <= t < |song.tracks| ==> |sh.sizes[t]| == |song.tracks[t].patterns|
    ensures forall t, p :: 0 <= t < |song.tracks| && 0 <= p < |song.tracks[t].patterns| ==>
              sh.sizes[t][p] == |song.tracks[t].patterns[p]|
  {
    Shape(song.orders,
          seq(|song.tracks|, t requires 0 <= t < |song.tracks| =>
            seq(|song.tracks[t].patterns|, p requires 0 <= p < |song.tracks[t].patterns| =>
              |song.tracks[t].patterns[p]|)))
  }

  /**
    The song invariants: at least one order row, one entry per track in each
    row, every entry names an existing pattern, and no pattern is empty.
   */
  predicate WellFormed(sh: Shape) {
    && |sh.orders| >= 1
    && (forall o :: 0 <= o < |sh.orders| ==> |sh.orders[o]| == |sh.sizes|)
    && (forall o, t :: 0 <= o < |sh.orders| && 0 <= t < |sh.orders[o]| ==> sh.orders[o][t] < |sh.sizes[t]|)
    && (forall t, p :: 0 <= t < |sh.sizes| && 0 <= p < |sh.sizes[t]| ==> sh.sizes[t][p] >= 1)
  }

  function TrackCount(sh: Shape): nat {
    |sh.sizes|
  }

  function OrderCount(sh: Shape): nat {
    |sh.orders|
  }

  /** The pattern number track t plays at order o. */
  function PatternAt(sh: Shape, t: nat, o: nat): (p: nat)
    requires WellFormed(sh) && t < TrackCount(sh) && o < OrderCount(sh)
    ensures p < |sh.sizes[t]|
  {
    sh.orders[o][t]
  }

  /** The step count of the pattern track t plays at order o. */
  function SizeAt(sh: Shape, t: nat, o: nat): (n: nat)
    requires WellFormed(sh) && t < TrackCount(sh) && o < OrderCount(sh)
    ensures n >= 1
  {
    sh.sizes[t][PatternAt(sh, t, o)]
  }

  /** The arena address of column c of step s in the pattern track t plays at order o. */
  function AddrAt(sh: Shape, t: nat, o: nat, s: nat, c: nat): (a: Addr)
    requires WellFormed(sh) && t < TrackCount(sh) && o < OrderCount(sh)
    ensures a.track == t && a.pattern == sh.orders[o][t] && a.step == s && a.column == c
  {
    Addr(t, PatternAt(sh, t, o), s, c)
  }

  predicate ValidAddr(sh: Shape, a: Addr) {
    && a.track < |sh.sizes|
    && a.pattern < |sh.sizes[a.track]|
    && a.step < sh.sizes[a.track][a.pattern]
    && a.column < N_COLUMN
  }

  predicate AllValid(sh: Shape, addrs: seq<Addr>) {
    forall i :: 0 <= i < |addrs| ==> ValidAddr(sh, addrs[i])
  }

  /** Every value is of the kind its column holds. */
  predicate AllFit(addrs: seq<Addr>, vs: seq<Cell>)
    requires |addrs| == |vs|
  {
    forall i :: 0 <= i < |addrs| ==> Fits(addrs[i].column, vs[i])
  }

  function Read(song: Song, a: Addr): (v: Cell)
    requires ValidAddr(ShapeOf(song), a)
    ensures Fits(a.column, v)
  {
    GetCell(song.tracks[a.track].patterns[a.pattern][a.step], a.column)
  }

  function Write(song: Song, a: Addr, v: Cell): (r: Song)
    requires ValidAddr(ShapeOf(song), a) && Fits(a.column, v)
    ensures ShapeOf(r) == ShapeOf(song)
    ensures Read(r, a) == v
    ensures forall x :: ValidAddr(ShapeOf(song), x) && x != a ==> Read(r, x) == Read(song, x)
  {
    var tr := song.tracks[a.track];
    var pat := tr.patterns[a.pattern];
    var st := SetCell(pat[a.step], a.column, v);
    var r := song.(tracks := song.tracks[a.track := tr.(patterns := tr.patterns[a.pattern := pat[a.step := st]])]);
    assert ShapeOf(r).sizes == ShapeOf(song).sizes by {
      forall t | 0 <= t < |r.tracks|
        ensures ShapeOf(r).sizes[t] == ShapeOf(song).sizes[t]
      {}
    }
    r
  }

  /** Two songs of the same shape that agree on every cell are equal. */
  lemma Extensionality(a: Song, b: Song)
    requires ShapeOf(a) == ShapeOf(b)
    requires forall x :: ValidAddr(ShapeOf(a), x) ==> Read(a, x) == Read(b, x)
    ensures a == b
  {
    var sh := ShapeOf(a);
    assert |a.tracks| == |b.tracks| by { assert |sh.sizes| == |ShapeOf(b).sizes|; }
    forall t | 0 <= t < |a.tracks|
      ensures a.tracks[t] == b.tracks[t]
    {
      var pa, pb := a.tracks[t].patterns, b.tracks[t].patterns;
      assert |pa| == |pb| by { assert |sh.sizes[t]| == |ShapeOf(b).sizes[t]|; }
      forall p | 0 <= p < |pa|
        ensures pa[p] == pb[p]
      {
        assert |pa[p]| == |pb[p]| by { assert sh.sizes[t][p] == ShapeOf(b).sizes[t][p]; }
        forall s | 0 <= s < |pa[p]|
          ensures pa[p][s] == pb[p][s]
        {
          forall c | 0 <= c < N_COLUMN
            ensures GetCell(pa[p][s], c) == GetCell(pb[p][s], c)
          {
            assert ValidAddr(sh, Addr(t, p, s, c));
            assert Read(a, Addr(t, p, s, c)) == Read(b, Addr(t, p, s, c));
          }
          StepExtensionality(pa[p][s], pb[p][s]);
        }
      }
    }
  }

  /** Reads the cells at the given addresses, in order. */
  function ReadAll(song: Song, addrs: seq<Addr>): (vs: seq<Cell>)
    requires AllValid(ShapeOf(song), addrs)
    ensures |vs| == |addrs| && AllFit(addrs, vs)
    ensures forall i :: 0 <= i < |addrs| ==> vs[i] == Read(song, addrs[i])
  {
    seq(|addrs|, i requires 0 <= i < |addrs| => Read(song, addrs[i]))
  }

  /** Reading two address lists one after the other reads their concatenation. */
  lemma ReadAllAppend(song: Song, a: seq<Addr>, b: seq<Addr>)
    requires AllValid(ShapeOf(song), a) && AllValid(ShapeOf(song), b)
    ensures AllValid(ShapeOf(song), a + b)
    ensures ReadAll(song, a + b) == ReadAll(song, a) + ReadAll(song, b)
  {
    var ab := a + b;
    assert forall i :: 0 <= i < |ab| ==> ab[i] == if i < |a| then a[i] else b[i - |a|];
  }

  /** Writes vs[i] to addrs[i] for i = 0, 1, ... in order (a later write wins). */
  function WriteAll(song: Song, addrs: seq<Addr>, vs: seq<Cell>): (r: Song)
    requires |addrs| == |vs| && AllValid(ShapeOf(song), addrs) && AllFit(addrs, vs)
    ensures ShapeOf(r) == ShapeOf(song)
    decreases |addrs|
  {
    if |addrs| == 0 then song
    else WriteAll(Write(song, addrs[0], vs[0]), addrs[1..], vs[1..])
  }

  /** The first write of a batch is valid, and so is the batch that follows it. */
  lemma WriteArgsTail(sh: Shape, addrs: seq<Addr>, vs: seq<Cell>)
    requires |addrs| == |vs| > 0 && AllValid(sh, addrs) && AllFit(addrs, vs)
    ensures ValidAddr(sh, addrs[0]) && Fits(addrs[0].column, vs[0])
    ensures AllValid(sh, addrs[1..]) && AllFit(addrs[1..], vs[1..])
  {
    assert forall k :: 0 <= k < |addrs| - 1 ==> addrs[1..][k] == addrs[k + 1] && vs[1..][k] == vs[k + 1];
  }

  /** A batch of writes is its first write followed by the rest of the batch. */
  lemma WriteAllStep(song: Song, addrs: seq<Addr>, vs: seq<Cell>)
    requires |addrs| == |vs| > 0 && AllValid(ShapeOf(song), addrs) && AllFit(addrs, vs)
    ensures ValidAddr(ShapeOf(song), addrs[0]) && Fits(addrs[0].column, vs[0])
    ensures AllValid(ShapeOf(song), addrs[1..]) && AllFit(addrs[1..], vs[1..])
    ensures WriteAll(song, addrs, vs) == WriteAll(Write(song, addrs[0], vs[0]), addrs[1..], vs[1..])
  {
    WriteArgsTail(ShapeOf(song), addrs, vs);
  }

  /** Cells outside the written addresses keep their value. */
  lemma {:induction false} WriteAllFrame(song: Song, addrs: seq<Addr>, vs: seq<Cell>, x: Addr)
    requires |addrs| == |vs| && AllValid(ShapeOf(song), addrs) && AllFit(addrs, vs)
    requires ValidAddr(ShapeOf(song), x) && x !in addrs
    ensures Read(WriteAll(song, addrs, vs), x) == Read(song, x)
    decreases |addrs|
  {
    if |addrs| > 0 {
      assert x != addrs[0];
      WriteArgsTail(ShapeOf(song), addrs, vs);
      WriteAllFrame(Write(song, addrs[0], vs[0]), addrs[1..], vs[1..], x);
    }
  }

  /** A written cell's final value does not depend on what the song held before. */
  lemma {:induction false} WriteAllOverrides(s1: Song, s2: Song, addrs: seq<Addr>, vs: seq<Cell>, x: Addr)
    requires ShapeOf(s1) == ShapeOf(s2)
    requires |addrs| == |vs| && AllValid(ShapeOf(s1), addrs) && AllFit(addrs, vs)
    requires x in addrs
    ensures Read(WriteAll(s1, addrs, vs), x) == Read(WriteAll(s2, addrs, vs), x)
    decreases |addrs|
  {
    WriteArgsTail(ShapeOf(s1), addrs, vs);
    var w1, w2 := Write(s1, addrs[0], vs[0]), Write(s2, addrs[0], vs[0]);
    if x in addrs[1..] {
      WriteAllOverrides(w1, w2, addrs[1..], vs[1..], x);
    } else {
      assert x == addrs[0];
      WriteAllFrame(w1, addrs[1..], vs[1..], x);
      WriteAllFrame(w2, addrs[1..], vs[1..], x);
    }
  }

  /** Addresses that are pairwise distinct. */
  predicate Distinct(addrs: seq<Addr>) {
    forall i, j :: 0 <= i < j < |addrs| ==> addrs[i] != addrs[j]
  }

  lemma DistinctHead(addrs: seq<Addr>)
    requires Distinct(addrs) && |addrs| > 0
    ensures addrs[0] !in addrs[1..]
  {
    forall k | 0 <= k < |addrs| - 1
      ensures addrs[1..][k] != addrs[0]
    {
      assert addrs[1..][k] == addrs[k + 1];
    }
  }

  lemma DistinctTail(addrs: seq<Addr>)
    requires Distinct(addrs) && |addrs| > 0
    ensures Distinct(addrs[1..])
  {
    forall k1, k2 | 0 <= k1 < k2 < |addrs| - 1
      ensures addrs[1..][k1] != addrs[1..][k2]
    {
      assert addrs[1..][k1] == addrs[k1 + 1] && addrs[1..][k2] == addrs[k2 + 1];
    }
  }

  /** With distinct addresses, cell i ends up holding vs[i]. */
  lemma {:induction false} WriteAllDistinct(song: Song, addrs: seq<Addr>, vs: seq<Cell>, i: nat)
    requires |addrs| == |vs| && AllValid(ShapeOf(song), addrs) && AllFit(addrs, vs)
    requires Distinct(addrs) && i < |addrs|
    ensures Read(WriteAll(song, addrs, vs), addrs[i]) == vs[i]
    decreases |addrs|
  {
    WriteAllStep(song, addrs, vs);
    var w := Write(song, addrs[0], vs[0]);
    var rest := WriteAll(w, addrs[1..], vs[1..]);
    if i == 0 {
      DistinctHead(addrs);
      WriteAllFrame(w, addrs[1..], vs[1..], addrs[0]);
      assert Read(rest, addrs[0]) == Read(w, addrs[0]);
    } else {
      DistinctTail(addrs);
      WriteAllDistinct(w, addrs[1..], vs[1..], i - 1);
      assert addrs[1..][i - 1] == addrs[i] && vs[1..][i - 1] == vs[i];
    }
  }

  /**
    Writing back a snapshot taken from `orig` at the same addresses restores
    those cells, and leaves every other cell of `cur` alone.
   */
  lemma WriteBackSnapshot(orig: Song, cur: Song, addrs: seq<Addr>, x: Addr)
    requires ShapeOf(orig) == ShapeOf(cur)
    requires AllValid(ShapeOf(orig), addrs) && ValidAddr(ShapeOf(orig), x)
    ensures Read(WriteAll(cur, addrs, ReadAll(orig, addrs)), x) ==
            if x in addrs then Read(orig, x) else Read(cur, x)
  {
    var vs := ReadAll(orig, addrs);
    if x in addrs {
      WriteAllOverrides(cur, orig, addrs, vs, x);
      WriteAllSame(orig, addrs);
    } else {
      WriteAllFrame(cur, addrs, vs, x);
    }
  }

  /** Writing a cell's own value back leaves the song as it was. */
  lemma WriteSame(song: Song, a: Addr)
    requires ValidAddr(ShapeOf(song), a)
    ensures Write(song, a, Read(song, a)) == song
  {
    Extensionality(Write(song, a, Read(song, a)), song);
  }

  /** Writing back the values just read changes nothing. */
  lemma {:induction false} WriteAllSame(song: Song, addrs: seq<Addr>)
    requires AllValid(ShapeOf(song), addrs)
    ensures WriteAll(song, addrs, ReadAll(song, addrs)) == song
    decreases |addrs|
  {
    var vs := ReadAll(song, addrs);
    if |addrs| > 0 {
      WriteAllStep(song, addrs, vs);
      WriteSame(song, addrs[0]);
      assert vs[1..] == ReadAll(song, addrs[1..]);
      WriteAllSame(song, addrs[1..]);
    }
  }

  /**
    The undo law shared by every range command: if `cur` differs from `orig`
    only at the snapshot addresses, writing the snapshot back gives `orig`.
   */
  lemma RestoreSnapshot(orig: Song, cur: Song, addrs: seq<Addr>)
    requires ShapeOf(orig) == ShapeOf(cur)
    requires AllValid(ShapeOf(orig), addrs)
    requires forall x :: ValidAddr(ShapeOf(orig), x) && x !in addrs ==> Read(cur, x) == Read(orig, x)
    ensures WriteAll(cur, addrs, ReadAll(orig, addrs)) == orig
  {
    var r := WriteAll(cur, addrs, ReadAll(orig, addrs));
    forall x | ValidAddr(ShapeOf(r), x)
      ensures Read(r, x) == Read(orig, x)
    {
      WriteBackSnapshot(orig, cur, addrs, x);
    }
    Extensionality(r, orig);
  }
}
