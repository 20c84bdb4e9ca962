/** SparseFirstBucket and SparseNextBucket: the stored items in bucket order. */
module SparseIterate {
  import opened Options
  import opened BitSets
  import opened SparseGroup
  import opened SparseArray

  /** The first occupied bucket of a group from i on, or 64. */
  ghost function NextSet(bm: nat, i: nat): (j: nat)
    requires i <= 64
    ensures i <= j <= 64 && (j < 64 ==> Bit(bm, j)) && forall m :: i <= m < j ==> !Bit(bm, m)
    decreases 64 - i
  {
    if i == 64 || Bit(bm, i) then i else NextSet(bm, i + 1)
  }

  /** The offset after a set bit's is that of the next set bit, if there is one. */
  lemma NextOffset(bm: nat, i: nat)
    requires i < 64 && Bit(bm, i)
    ensures NextSet(bm, i + 1) < 64 <==> Rank(bm, i) + 1 < Rank(bm, 64)
    ensures Rank(bm, NextSet(bm, i + 1)) == Rank(bm, i) + 1
  {
    hide Bit, Rank;
    var j := NextSet(bm, i + 1);
    RankStep(bm, i);
    RankMono(bm, i + 1, j);
    if j < 64 { RankBelow(bm, j, 64); }
  }

  lemma FirstOffset(bm: nat)
    ensures NextSet(bm, 0) < 64 <==> 0 < Rank(bm, 64)
    ensures Rank(bm, NextSet(bm, 0)) == 0
  {
    hide Bit, Rank;
    var j := NextSet(bm, 0);
    RankNone(bm);
    RankMono(bm, 0, j);
    if j < 64 { RankBelow(bm, j, 64); }
  }

  class SparseIterator<T> {
    const binSparse: array<Group<T>>
    var posGroup: int
    var posOffset: int

    /** The iterator has last returned the item of bucket `at`, or nothing yet (-1). */
    ghost predicate Stands(at: int)
      reads this, binSparse
    {
      && AllOk(binSparse[..]) && -1 <= at < 64 * binSparse.Length
      && if at == -1 then posGroup == -1 && posOffset == -1
         else posGroup >= 0 && posOffset >= 0 && Points(binSparse[..], Ptr(posGroup, posOffset), at)
    }

    /** SparseFirstBucket up to its call of SparseNextBucket. */
    constructor (bins: array<Group<T>>)
      requires AllOk(bins[..])
      ensures binSparse == bins && Stands(-1)
    {
      binSparse := bins;
      posGroup, posOffset := -1, -1;
    }

    /** SparseNextBucket: the next occupied bucket, none being skipped. */
    method NextBucket(ghost at: int) returns (p: Option<Ptr>, ghost at': int)
      requires Stands(at)
      modifies this
      ensures p.Some? ==> at < at' && Stands(at') && Points(binSparse[..], p.value, at')
      ensures p.None? ==> at' == 64 * binSparse.Length
      ensures forall m :: at < m < at' ==> Cells(binSparse[..])[m].None?
    {
      hide Bit, Rank, GroupOk;
      ghost var bins := binSparse[..];
      if posOffset != -1 {
        GroupStep(bins, at);
        PointsTo(bins, Ptr(posGroup, posOffset), at);
        posOffset := posOffset + 1;
        if posOffset < binSparse[posGroup].cOccupied {
          at' := 64 * posGroup + NextSet(bins[posGroup].bmOccupied, at % 64 + 1);
          return Some(Ptr(posGroup, posOffset)), at';
        }
      }
      posOffset := 0;
      posGroup, at' := NextGroup(binSparse, posGroup + 1);
      p := if posGroup < binSparse.Length then Some(Ptr(posGroup, 0)) else None;
    }
  }

  /** The loop of SparseNextBucket: the first group from g0 on that is not empty. */
  method NextGroup<T>(bins: array<Group<T>>, g0: nat) returns (g: nat, ghost at: nat)
    requires AllOk(bins[..]) && g0 <= bins.Length
    ensures g0 <= g <= bins.Length
    ensures if g < bins.Length then Points(bins[..], Ptr(g, 0), at) else at == 64 * bins.Length
    ensures forall m :: 64 * g0 <= m < at ==> Cells(bins[..])[m].None?
    ensures 64 * g0 <= at
  {
    hide Bit, Rank, GroupOk, Points;
    g := g0;
    while g < bins.Length
      invariant g0 <= g <= bins.Length
      invariant forall m :: 64 * g0 <= m < 64 * g ==> Cells(bins[..])[m].None?
    {
      GroupStart(bins[..], g);
      if bins[g].cOccupied > 0 {
        return g, 64 * g + NextSet(bins[g].bmOccupied, 0);
      }
      g := g + 1;
    }
    at := 64 * g;
  }

  /** What follows bucket `at` in its group. */
  lemma GroupStep<T>(bins: seq<Group<T>>, at: nat)
    requires AllOk(bins) && at < 64 * |bins| && Cell(bins, at).Some?
    ensures var g := at / 64;
      var next := 64 * g + NextSet(bins[g].bmOccupied, at % 64 + 1);
      && PtrOf(bins, at).group == g
      && (PtrOf(bins, at).offset + 1 < bins[g].cOccupied ==> Points(bins, Ptr(g, PtrOf(bins, at).offset + 1), next))
      && (PtrOf(bins, at).offset + 1 >= bins[g].cOccupied ==> next == 64 * g + 64)
      && at < next && forall m :: at < m < next ==> Cells(bins)[m].None?
  {
    hide Bit, Rank;
    var g, i := at / 64, at % 64;
    var bm := bins[g].bmOccupied;
    NextOffset(bm, i);
    var j := NextSet(bm, i + 1);
    forall m | at < m < 64 * g + j ensures Cells(bins)[m].None? {
      assert m / 64 == g && i < m % 64 < j;
      assert Cell(bins, m).None?;
    }
    if j < 64 {
      var next := 64 * g + j;
      assert next / 64 == g && next % 64 == j;
    }
  }

  /** The first occupied bucket of a group. */
  lemma GroupStart<T>(bins: seq<Group<T>>, g: nat)
    requires AllOk(bins) && g < |bins|
    ensures var next := 64 * g + NextSet(bins[g].bmOccupied, 0);
      && (bins[g].cOccupied > 0 ==> Points(bins, Ptr(g, 0), next))
      && (bins[g].cOccupied == 0 ==> next == 64 * g + 64)
      && forall m :: 64 * g <= m < next ==> Cells(bins)[m].None?
  {
    hide Bit, Rank;
    var bm := bins[g].bmOccupied;
    FirstOffset(bm);
    var j := NextSet(bm, 0);
    forall m | 64 * g <= m < 64 * g + j ensures Cells(bins)[m].None? {
      assert m / 64 == g && m % 64 < j;
      assert Cell(bins, m).None?;
    }
    if j < 64 {
      var next := 64 * g + j;
      assert next / 64 == g && next % 64 == j;
    }
  }
}
