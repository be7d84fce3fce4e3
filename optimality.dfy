// Why the stars that step 3 accepts are an optimal assignment: at the end
// every current value is non-negative and every star is zero, and the column
// potentials sit at a common floor -D on every column without a star. Summing
// current values over any other perfect matching of the extended matrix then
// shows that its stored cost is at least that of the stars.

module Optimality {
  import opened Entries
  import opened SparseMatrix
  import opened MunkresState
  import opened MunkresSteps
  import opened SetSums

  /** The stored cost of entry a. */
  ghost function CostOf(es: seq<Entry>): nat -> int
  {
    (a: nat) => if a < |es| then es[a].cost else 0
  }

  /** The row of entry a. */
  ghost function RowOf(es: seq<Entry>): nat -> nat
  {
    (a: nat) => if a < |es| then es[a].pos.i else 0
  }

  /** The column of entry a. */
  ghost function ColumnOf(es: seq<Entry>): nat -> nat
  {
    (a: nat) => if a < |es| then es[a].pos.j else 0
  }

  /** The potential of line x. */
  ghost function PotentialOf(adds: seq<int>): nat -> int
  {
    (x: nat) => if x < |adds| then adds[x] else 0
  }

  /** The row potential of the row of entry a. */
  ghost function RowPart(es: seq<Entry>, rowAdds: seq<int>): nat -> int
  {
    (a: nat) => PotentialOf(rowAdds)(RowOf(es)(a))
  }

  /** The column potential of the column of entry a. */
  ghost function ColumnPart(es: seq<Entry>, columnAdds: seq<int>): nat -> int
  {
    (a: nat) => PotentialOf(columnAdds)(ColumnOf(es)(a))
  }

  /**
   * The current value of entry a, as a total function split into the three
   * parts the duality sum takes apart (stored cost, row potential, column
   * potential); CurrentIsCost ties it to Current for every entry in range.
   */
  ghost function CurrentOf(es: seq<Entry>, rowAdds: seq<int>, columnAdds: seq<int>): nat -> int
  {
    (a: nat) => CostOf(es)(a) + RowPart(es, rowAdds)(a) + ColumnPart(es, columnAdds)(a)
  }

  /** The total stored cost of the entries indexed by M. */
  ghost function TotalCost(es: seq<Entry>, M: set<nat>): int
  {
    Sum(M, CostOf(es))
  }

  /** M picks exactly one entry in each of the nrows rows, no two in one column. */
  ghost predicate Perfect(es: seq<Entry>, nrows: nat, M: set<nat>)
  {
    Matching(es, M) && |M| == nrows
  }

  /**
   * The column potentials never go below -D, and every column without a
   * star is exactly at -D.
   */
  ghost predicate Level(es: seq<Entry>, columnAdds: seq<int>, starred: set<nat>, D: int)
  {
    forall j :: 0 <= j < |columnAdds| ==>
      columnAdds[j] >= -D && (j !in ColumnsOf(es, starred) ==> columnAdds[j] == -D)
  }

  /** The stars cost no more than any perfect matching of the extended matrix. */
  ghost predicate Optimal(s: Snapshot)
  {
    forall M :: Perfect(s.es, s.nrows, M) ==> TotalCost(s.es, s.starred) <= TotalCost(s.es, M)
  }

  /** A set of lines inside 0..n-1 with n elements is all of 0..n-1. */
  lemma AllBelow(A: set<nat>, n: nat)
    requires forall x :: x in A ==> x < n
    requires |A| == n
    ensures A == Below(n)
  {
    BelowSize(n);
    assert A <= Below(n);
    assert |Below(n) - A| == |Below(n)| - |A|;
  }

  /** Over a matching, summing a row potential by entry is summing it by row. */
  lemma RowSum(es: seq<Entry>, rowAdds: seq<int>, M: set<nat>)
    requires Matching(es, M)
    ensures Sum(M, RowPart(es, rowAdds)) == Sum(RowsOf(es, M), PotentialOf(rowAdds))
  {
    assert Image(M, RowOf(es)) == RowsOf(es, M);
    SumImage(M, RowOf(es), PotentialOf(rowAdds), RowPart(es, rowAdds));
  }

  /** Over a matching, summing a column potential by entry is summing it by column. */
  lemma ColumnSum(es: seq<Entry>, columnAdds: seq<int>, M: set<nat>)
    requires Matching(es, M)
    ensures Sum(M, ColumnPart(es, columnAdds)) == Sum(ColumnsOf(es, M), PotentialOf(columnAdds))
  {
    assert Image(M, ColumnOf(es)) == ColumnsOf(es, M);
    SumImage(M, ColumnOf(es), PotentialOf(columnAdds), ColumnPart(es, columnAdds));
  }

  /**
   * The sum of current values over a matching is its stored cost plus the
   * potentials of its rows and of its columns.
   */
  lemma CurrentSum(es: seq<Entry>, rowAdds: seq<int>, columnAdds: seq<int>, M: set<nat>)
    requires Matching(es, M)
    ensures Sum(M, CurrentOf(es, rowAdds, columnAdds)) ==
      TotalCost(es, M) + Sum(RowsOf(es, M), PotentialOf(rowAdds)) + Sum(ColumnsOf(es, M), PotentialOf(columnAdds))
  {
    SumAdd(M, CostOf(es), RowPart(es, rowAdds), ColumnPart(es, columnAdds), CurrentOf(es, rowAdds, columnAdds));
    RowSum(es, rowAdds, M);
    ColumnSum(es, columnAdds, M);
  }

  /** CurrentOf agrees with the current value the solver computes. */
  lemma CurrentIsCost(es: seq<Entry>, rowAdds: seq<int>, columnAdds: seq<int>, a: nat)
    requires InBounds(es, |rowAdds|, |columnAdds|) && a < |es|
    ensures CurrentOf(es, rowAdds, columnAdds)(a) == CostAt(es, rowAdds, columnAdds, a)
  {
    assert RowOf(es)(a) == es[a].pos.i && ColumnOf(es)(a) == es[a].pos.j;
    assert RowPart(es, rowAdds)(a) == rowAdds[es[a].pos.i];
    assert ColumnPart(es, columnAdds)(a) == columnAdds[es[a].pos.j];
  }

  /** Current values sum to at least zero over any set of entries, and to zero over zeros. */
  lemma CurrentBounds(es: seq<Entry>, rowAdds: seq<int>, columnAdds: seq<int>, starred: set<nat>, M: set<nat>)
    requires InBounds(es, |rowAdds|, |columnAdds|) && Indices(es, starred) && Indices(es, M)
    requires Feasible(es, rowAdds, columnAdds) && ZerosAt(es, rowAdds, columnAdds, starred)
    ensures Sum(M, CurrentOf(es, rowAdds, columnAdds)) >= 0
    ensures Sum(starred, CurrentOf(es, rowAdds, columnAdds)) == 0
  {
    var current := CurrentOf(es, rowAdds, columnAdds);
    forall a | a in M
      ensures current(a) >= 0
    {
      CurrentIsCost(es, rowAdds, columnAdds, a);
    }
    forall a | a in starred
      ensures current(a) == 0
    {
      CurrentIsCost(es, rowAdds, columnAdds, a);
    }
    SumBound(M, current, 0);
    SumBound(starred, current, 0);
  }

  /** Two perfect matchings use every row once: their row potentials sum alike. */
  lemma RowsCompare(es: seq<Entry>, nrows: nat, starred: set<nat>, M: set<nat>)
    requires forall k :: 0 <= k < |es| ==> es[k].pos.i < nrows
    requires Perfect(es, nrows, starred) && Perfect(es, nrows, M)
    ensures RowsOf(es, M) == RowsOf(es, starred)
  {
    MatchingLines(es, M);
    MatchingLines(es, starred);
    AllBelow(RowsOf(es, M), nrows);
    AllBelow(RowsOf(es, starred), nrows);
  }

  /**
   * Two perfect matchings use as many columns; those M uses beyond the
   * stars sit at the floor, so M's column potentials sum to no more.
   */
  lemma ColumnsCompare(es: seq<Entry>, nrows: nat, columnAdds: seq<int>, starred: set<nat>, D: int, M: set<nat>)
    requires InBounds(es, nrows, |columnAdds|)
    requires Perfect(es, nrows, starred) && Perfect(es, nrows, M)
    requires Level(es, columnAdds, starred, D)
    ensures Sum(ColumnsOf(es, M), PotentialOf(columnAdds)) <= Sum(ColumnsOf(es, starred), PotentialOf(columnAdds))
  {
    MatchingLines(es, M);
    MatchingLines(es, starred);
    var v := PotentialOf(columnAdds);
    forall x | x in ColumnsOf(es, M) - ColumnsOf(es, starred)
      ensures v(x) == -D
    {
    }
    forall x | x in ColumnsOf(es, starred)
      ensures v(x) >= -D
    {
    }
    SumExchange(ColumnsOf(es, M), ColumnsOf(es, starred), v, -D);
  }

  /**
   * The optimality argument: with no negative current value, zero current
   * value on the stars and the column potentials level at -D off the stars,
   * every perfect matching costs at least as much as the stars.
   */
  lemma StarsMinimal(es: seq<Entry>, nrows: nat, rowAdds: seq<int>, columnAdds: seq<int>,
                     starred: set<nat>, D: int, M: set<nat>)
    requires |rowAdds| == nrows && InBounds(es, nrows, |columnAdds|)
    requires Perfect(es, nrows, starred) && Perfect(es, nrows, M)
    requires Feasible(es, rowAdds, columnAdds) && ZerosAt(es, rowAdds, columnAdds, starred)
    requires Level(es, columnAdds, starred, D)
    ensures TotalCost(es, starred) <= TotalCost(es, M)
  {
    CurrentBounds(es, rowAdds, columnAdds, starred, M);
    CurrentSum(es, rowAdds, columnAdds, M);
    CurrentSum(es, rowAdds, columnAdds, starred);
    RowsCompare(es, nrows, starred, M);
    ColumnsCompare(es, nrows, columnAdds, starred, D, M);
  }

  /** When the driver stops, the stars are an optimal perfect matching. */
  lemma FinishedOptimal(s: Snapshot, D: int)
    requires Finished(s) && Level(s.es, s.columnAdds, s.starred, D)
    ensures Optimal(s)
  {
    forall M | Perfect(s.es, s.nrows, M)
      ensures TotalCost(s.es, s.starred) <= TotalCost(s.es, M)
    {
      StarsMinimal(s.es, s.nrows, s.rowAdds, s.columnAdds, s.starred, D, M);
    }
  }

  /** Before any star, potentials all zero: the floor is 0. */
  lemma LevelStart(es: seq<Entry>, columnAdds: seq<int>)
    requires forall j :: 0 <= j < |columnAdds| ==> columnAdds[j] == 0
    ensures Level(es, columnAdds, {}, 0)
  {
  }

  /** More starred columns, same potentials: still level. */
  lemma LevelMoreStars(es: seq<Entry>, columnAdds: seq<int>, starred: set<nat>, starred': set<nat>, D: int)
    requires Level(es, columnAdds, starred, D)
    requires ColumnsOf(es, starred) <= ColumnsOf(es, starred')
    ensures Level(es, columnAdds, starred', D)
  {
  }

  /** Step 5 keeps the potentials level at the same floor. */
  lemma LevelAugment(s: Snapshot, P: seq<nat>, S: seq<nat>, D: int)
    requires Ready5(s) && ChainOf(s, P, S)
    requires Level(s.es, s.columnAdds, s.starred, D)
    ensures Level(s.es, Augmented(s, P, S).columnAdds, Augmented(s, P, S).starred, D)
  {
    FlipKeepsColumns(s.es, s.starred, s.primed, s.rank, s.last, P, S);
  }

  /**
   * Step 6 lowers every column without a star by d, since such a column is
   * uncovered, and lowers no column by more: the floor drops from -D to -(D + d).
   */
  lemma LevelAdjust(s: Snapshot, d: int, D: int)
    requires Ready6(s) && d > 0
    requires Level(s.es, s.columnAdds, s.starred, D)
    ensures Level(s.es, Adjusted(s, d).columnAdds, s.starred, D + d)
  {
    var v' := Adjusted(s, d).columnAdds;
    forall j | 0 <= j < |v'|
      ensures v'[j] >= -(D + d) && (j !in ColumnsOf(s.es, s.starred) ==> v'[j] == -(D + d))
    {
      if j !in ColumnsOf(s.es, s.starred) {
        assert !s.coveredColumns[j];
      }
    }
  }

  // ---------------------------------------------------------------------------
  // What the fillers mean: every matching of real entries is a perfect
  // matching once each row it leaves out takes its filler, at BIGVALUE a row
  // ---------------------------------------------------------------------------

  /** R matches real entries only (no filler), no two in one row or column. */
  ghost predicate RealMatching(es: seq<Entry>, nrows: nat, R: set<nat>)
  {
    Matching(es, R) && forall a :: a in R ==> a < |es| - nrows
  }

  /** The cost of R with BIGVALUE for every one of the nrows rows that R leaves out. */
  ghost function Penalized(es: seq<Entry>, R: set<nat>, nrows: nat): int
  {
    TotalCost(es, R) + BIGVALUE * (nrows - |R|)
  }

  /** The stars below n in real columns: the indices the assignment up to n reports; with n = |es|, those munkres() reports. */
  ghost function RealBelow(es: seq<Entry>, starred: set<nat>, realColumns: nat, n: nat): set<nat>
  {
    set a | a in starred && a < n && a < |es| && es[a].pos.j < realColumns
  }


  ghost function Shift(base: nat): nat -> nat
  {
    (r: nat) => base + r
  }

  /** The fillers of the rows below nrows outside rows, the fillers starting at index base. */
  ghost function FillersFor(base: nat, nrows: nat, rows: set<nat>): set<nat>
  {
    Image(Below(nrows) - rows, Shift(base))
  }

  /** The extended matrix: real entries in real columns, then one filler per row. */
  ghost predicate Extended(es: seq<Entry>, nrows: nat, realColumns: nat)
  {
    && nrows <= |es| && es[|es| - nrows..] == Fillers(nrows, realColumns)
    && (forall k :: 0 <= k < |es| ==> es[k].pos.i < nrows)
    && (forall k :: 0 <= k < |es| - nrows ==> es[k].pos.j < realColumns)
  }

  /** Index f of a filler set is the filler of row f - base. */
  lemma FillerMember(es: seq<Entry>, nrows: nat, realColumns: nat, rows: set<nat>, f: nat)
    requires Extended(es, nrows, realColumns)
    requires f in FillersFor(|es| - nrows, nrows, rows)
    ensures |es| - nrows <= f < |es| && f - (|es| - nrows) !in rows
    ensures es[f] == Entry(Coords(f - (|es| - nrows), realColumns + f - (|es| - nrows)), BIGVALUE)
  {
    BelowSize(nrows);
    var r :| r in Below(nrows) - rows && f == Shift(|es| - nrows)(r);
    FillerAt(es, nrows, realColumns, r);
  }

  /** Every index of F is the filler of a row outside rows. */
  ghost predicate FillersOutside(es: seq<Entry>, base: nat, realColumns: nat, rows: set<nat>, F: set<nat>)
  {
    forall f :: f in F ==>
      && base <= f < |es| && f - base !in rows
      && es[f] == Entry(Coords(f - base, realColumns + f - base), BIGVALUE)
  }

  lemma FillersForOutside(es: seq<Entry>, nrows: nat, realColumns: nat, rows: set<nat>)
    requires Extended(es, nrows, realColumns)
    ensures FillersOutside(es, |es| - nrows, realColumns, rows, FillersFor(|es| - nrows, nrows, rows))
  {
    forall f | f in FillersFor(|es| - nrows, nrows, rows)
      ensures |es| - nrows <= f < |es| && f - (|es| - nrows) !in rows
      ensures es[f] == Entry(Coords(f - (|es| - nrows), realColumns + f - (|es| - nrows)), BIGVALUE)
    {
      FillerMember(es, nrows, realColumns, rows, f);
    }
  }

  /** There is one filler for each row a matching leaves out. */
  lemma FillersCount(es: seq<Entry>, nrows: nat, R: set<nat>)
    requires nrows <= |es| && Matching(es, R)
    requires forall a :: a in R ==> es[a].pos.i < nrows
    ensures |FillersFor(|es| - nrows, nrows, RowsOf(es, R))| == nrows - |R|
  {
    var rows := RowsOf(es, R);
    BelowSize(nrows);
    MatchingLines(es, R);
    assert rows <= Below(nrows);
    SubsetSize(rows, Below(nrows));
    assert |Below(nrows) - rows| == nrows - |R|;
    CountImage(Below(nrows) - rows, Shift(|es| - nrows));
  }

  /** Fillers of the rows a matching of real entries leaves out extend it to a matching. */
  lemma FillersMatch(es: seq<Entry>, base: nat, realColumns: nat, R: set<nat>, F: set<nat>)
    requires Matching(es, R) && FillersOutside(es, base, realColumns, RowsOf(es, R), F)
    requires forall a :: a in R ==> a < base && es[a].pos.j < realColumns
    ensures R !! F && Matching(es, R + F)
  {
    var rows := RowsOf(es, R);
    forall a, b | a in R + F && b in R + F && a != b
      ensures es[a].pos.i != es[b].pos.i && es[a].pos.j != es[b].pos.j
    {
      if a in F && b in R {
        assert es[b].pos.i in rows;
      } else if a in R && b in F {
        assert es[a].pos.i in rows;
      }
    }
  }

  /** Every filler costs BIGVALUE. */
  lemma FillersCost(es: seq<Entry>, base: nat, realColumns: nat, rows: set<nat>, F: set<nat>)
    requires FillersOutside(es, base, realColumns, rows, F)
    ensures TotalCost(es, F) == BIGVALUE * |F|
  {
    forall f | f in F
      ensures CostOf(es)(f) == BIGVALUE
    {
    }
    SumBound(F, CostOf(es), BIGVALUE);
  }

  /** The rows that a matching of real entries leaves out, filled, make it perfect. */
  lemma ExtendByFillers(es: seq<Entry>, nrows: nat, realColumns: nat, R: set<nat>)
    requires Extended(es, nrows, realColumns) && RealMatching(es, nrows, R)
    ensures Perfect(es, nrows, R + FillersFor(|es| - nrows, nrows, RowsOf(es, R)))
    ensures TotalCost(es, R + FillersFor(|es| - nrows, nrows, RowsOf(es, R))) == Penalized(es, R, nrows)
  {
    var base: nat := |es| - nrows;
    var F := FillersFor(base, nrows, RowsOf(es, R));
    FillersCount(es, nrows, R);
    FillersForOutside(es, nrows, realColumns, RowsOf(es, R));
    FillersMatch(es, base, realColumns, R, F);
    FillersCost(es, base, realColumns, RowsOf(es, R), F);
    SumSplit(R, F, CostOf(es));
  }

  /**
   * The cost of a perfect matching splits into its real part and BIGVALUE for
   * each filler it uses, one per row its real part leaves out.
   */
  lemma StarsSplit(es: seq<Entry>, nrows: nat, realColumns: nat, S: set<nat>)
    requires Extended(es, nrows, realColumns) && Perfect(es, nrows, S)
    ensures RealMatching(es, nrows, RealBelow(es, S, realColumns, |es|))
    ensures TotalCost(es, S) == Penalized(es, RealBelow(es, S, realColumns, |es|), nrows)
  {
    var base: nat := |es| - nrows;
    var RP := RealBelow(es, S, realColumns, |es|);
    var FP := S - RP;
    forall a | a in FP
      ensures base <= a && CostOf(es)(a) == BIGVALUE
    {
      FillerAt(es, nrows, realColumns, a - base);
    }
    forall a | a in RP
      ensures a < base
    {
    }
    assert S == RP + FP;
    SumSplit(RP, FP, CostOf(es));
    SumBound(FP, CostOf(es), BIGVALUE);
  }

  /**
   * The stars' real part is the best assignment of real entries, counting
   * BIGVALUE for every row left unassigned.
   */
  ghost predicate BestAssignment(s: Snapshot)
  {
    forall R :: RealMatching(s.es, s.nrows, R) ==>
      Penalized(s.es, RealBelow(s.es, s.starred, s.realColumns, |s.es|), s.nrows) <= Penalized(s.es, R, s.nrows)
  }

  /** An optimal perfect matching of the extended matrix is a best assignment of the real entries. */
  lemma OptimalIsBest(s: Snapshot)
    requires Extended(s.es, s.nrows, s.realColumns) && Perfect(s.es, s.nrows, s.starred)
    requires Optimal(s)
    ensures BestAssignment(s)
  {
    StarsSplit(s.es, s.nrows, s.realColumns, s.starred);
    forall R | RealMatching(s.es, s.nrows, R)
      ensures Penalized(s.es, RealBelow(s.es, s.starred, s.realColumns, |s.es|), s.nrows) <= Penalized(s.es, R, s.nrows)
    {
      ExtendByFillers(s.es, s.nrows, s.realColumns, R);
    }
  }
}
