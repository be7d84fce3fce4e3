// The Munkres solver object (munkres.h, munkres.cpp): the six steps as
// methods over the sparse matrix and the sets of starred and primed entry
// indices, each proved to establish the invariant of the step it hands over to,
// the driver loop, proved to terminate, and the extraction of the assignment.

module MunkresSolver {
  import opened Entries
  import opened SparseMatrix
  import opened MunkresState
  import opened MunkresSteps
  import opened Optimality
  import opened SetSums

  /** The entries of starred indices below n whose column is a real one, in index order. */
  function Assignment(es: seq<Entry>, starred: set<nat>, realColumns: nat, n: nat): seq<Entry>
    requires n <= |es|
  {
    if n == 0 then []
    else
      Assignment(es, starred, realColumns, n - 1) +
      (if n - 1 in starred && es[n - 1].pos.j < realColumns then [es[n - 1]] else [])
  }

  /** Some star of starred lies in row c.i or in column c.j. */
  ghost predicate SharesLine(es: seq<Entry>, starred: set<nat>, c: Coords)
  {
    exists a :: a in starred && a < |es| && (es[a].pos.i == c.i || es[a].pos.j == c.j)
  }

  /** Skipping indices that hold no star leaves the assignment unchanged. */
  lemma {:induction false} AssignmentSkip(es: seq<Entry>, starred: set<nat>, realColumns: nat, n: nat, m: nat)
    requires n <= m <= |es|
    requires forall a :: n <= a < m ==> a !in starred
    ensures Assignment(es, starred, realColumns, m) == Assignment(es, starred, realColumns, n)
  {
    if m > n {
      AssignmentSkip(es, starred, realColumns, n, m - 1);
    }
  }

  /** e is the stored entry of a star below n in a real column. */
  ghost predicate StarredEntry(es: seq<Entry>, starred: set<nat>, realColumns: nat, n: nat, e: Entry)
  {
    exists a :: a in starred && a < n && a < |es| && es[a].pos.j < realColumns && es[a] == e
  }

  /** The assignment holds exactly the entries of the stars below n that lie in a real column. */
  lemma {:induction false} AssignmentMembers(es: seq<Entry>, starred: set<nat>, realColumns: nat, n: nat)
    requires n <= |es|
    ensures forall e :: e in Assignment(es, starred, realColumns, n) <==> StarredEntry(es, starred, realColumns, n, e)
  {
    if n > 0 {
      AssignmentMembers(es, starred, realColumns, n - 1);
      var prev, A := Assignment(es, starred, realColumns, n - 1), Assignment(es, starred, realColumns, n);
      forall e
        ensures e in A <==> StarredEntry(es, starred, realColumns, n, e)
      {
        if e in prev {
          assert StarredEntry(es, starred, realColumns, n - 1, e);
        }
        if StarredEntry(es, starred, realColumns, n, e) {
          var a :| a in starred && a < n && a < |es| && es[a].pos.j < realColumns && es[a] == e;
          if a < n - 1 {
            assert StarredEntry(es, starred, realColumns, n - 1, e);
          }
        }
      }
    }
  }

  /** No two entries of A share a row or a column. */
  predicate OneToOne(A: seq<Entry>)
  {
    forall x, y :: 0 <= x < y < |A| ==> A[x].pos.i != A[y].pos.i && A[x].pos.j != A[y].pos.j
  }

  /** Stars that form a matching give an assignment with no row and no column twice. */
  lemma {:induction false} AssignmentDistinct(es: seq<Entry>, starred: set<nat>, realColumns: nat, n: nat)
    requires n <= |es| && Matching(es, starred)
    ensures OneToOne(Assignment(es, starred, realColumns, n))
  {
    if n > 0 {
      AssignmentDistinct(es, starred, realColumns, n - 1);
      AssignmentMembers(es, starred, realColumns, n - 1);
      var prev, A := Assignment(es, starred, realColumns, n - 1), Assignment(es, starred, realColumns, n);
      if |A| > |prev| {
        assert A == prev + [es[n - 1]];
        forall x, y | 0 <= x < y < |A|
          ensures A[x].pos.i != A[y].pos.i && A[x].pos.j != A[y].pos.j
        {
          assert A[x] == prev[x];
          if y == |prev| {
            assert A[y] == es[n - 1] && n - 1 in starred;
            assert prev[x] in prev;
            var a :| a in starred && a < n - 1 && a < |es| && es[a].pos.j < realColumns && es[a] == prev[x];
          } else {
            assert A[y] == prev[y];
          }
        }
      } else {
        assert A == prev;
      }
    }
  }

  /**
   * The assignment only reports stored entries in real columns, and those
   * come from the solver's input: the fillers all lie in the added columns.
   */
  lemma AssignmentFromInput(input: seq<Entry>, es: seq<Entry>, nrows: nat, starred: set<nat>, realColumns: nat, n: nat)
    requires |es| == |input| + nrows && n <= |es|
    requires es[..|input|] == SortByRow(input) && es[|input|..] == Fillers(nrows, realColumns)
    ensures FromInput(Assignment(es, starred, realColumns, n), input, realColumns)
  {
    forall k | |input| <= k < |es|
      ensures es[k].pos.j >= realColumns
    {
      assert es[k] == es[|input|..][k - |input|];
    }
    AssignmentMembers(es, starred, realColumns, n);
    SortByRowCorrect(input);
    forall e | e in Assignment(es, starred, realColumns, n)
      ensures e in input && e.pos.j < realColumns
    {
      assert StarredEntry(es, starred, realColumns, n, e);
      var a :| a in starred && a < n && a < |es| && es[a].pos.j < realColumns && es[a] == e;
      assert SortByRow(input)[a] == e;
      assert e in multiset(SortByRow(input));
    }
  }

  /** nrows stars forming a matching leave no row without a star. */
  lemma EveryRowStarred(es: seq<Entry>, nrows: nat, starred: set<nat>)
    requires forall k :: 0 <= k < |es| ==> es[k].pos.i < nrows
    requires Matching(es, starred) && |starred| == nrows
    ensures forall r :: 0 <= r < nrows ==> r in RowsOf(es, starred)
  {
    MatchingLines(es, starred);
    BelowSize(nrows);
    forall r | 0 <= r < nrows
      ensures r in RowsOf(es, starred)
    {
      if r !in RowsOf(es, starred) {
        assert RowsOf(es, starred) <= Below(nrows) - {r};
        SubsetSize(RowsOf(es, starred), Below(nrows) - {r});
      }
    }
  }

  /** Every entry of A is an entry of input in one of the first realColumns columns. */
  ghost predicate FromInput(A: seq<Entry>, input: seq<Entry>, realColumns: nat)
  {
    forall e :: e in A ==> e in input && e.pos.j < realColumns
  }

  /** Each row below nrows is in A unless the filler of that row is starred. */
  ghost predicate RowsAccounted(A: seq<Entry>, es: seq<Entry>, nrows: nat, starred: set<nat>)
  {
    forall r :: 0 <= r < nrows ==> (RowAssigned(A, r) <==> |es| - nrows + r !in starred)
  }

  /** Some entry of A lies in row r. */
  predicate RowAssigned(A: seq<Entry>, r: nat)
  {
    exists x :: 0 <= x < |A| && A[x].pos.i == r
  }

  /**
   * When step 3 stops, a row is missing from the assignment exactly when its
   * filler is starred, that is, when the row is left unassigned at cost
   * BIGVALUE.
   */
  lemma FinishedRows(es: seq<Entry>, nrows: nat, realColumns: nat, starred: set<nat>)
    requires nrows <= |es| && es[|es| - nrows..] == Fillers(nrows, realColumns)
    requires forall k :: 0 <= k < |es| - nrows ==> es[k].pos.j < realColumns
    requires forall k :: 0 <= k < |es| ==> es[k].pos.i < nrows
    requires Matching(es, starred) && |starred| == nrows
    ensures RowsAccounted(Assignment(es, starred, realColumns, |es|), es, nrows, starred)
  {
    EveryRowStarred(es, nrows, starred);
    var A := Assignment(es, starred, realColumns, |es|);
    AssignmentMembers(es, starred, realColumns, |es|);
    forall r | 0 <= r < nrows
      ensures RowAssigned(A, r) <==> |es| - nrows + r !in starred
    {
      FinishedRow(es, nrows, realColumns, starred, A, r);
    }
  }

  /**
   * Row r holds a star. When A holds exactly the starred entries in real
   * columns, r is missing from A exactly when its star is its filler.
   */
  lemma FinishedRow(es: seq<Entry>, nrows: nat, realColumns: nat, starred: set<nat>, A: seq<Entry>, r: nat)
    requires nrows <= |es| && es[|es| - nrows..] == Fillers(nrows, realColumns)
    requires forall k :: 0 <= k < |es| - nrows ==> es[k].pos.j < realColumns
    requires Matching(es, starred) && r < nrows && r in RowsOf(es, starred)
    requires forall e :: e in A <==> StarredEntry(es, starred, realColumns, |es|, e)
    ensures RowAssigned(A, r) <==> |es| - nrows + r !in starred
  {
    var f := |es| - nrows + r;
    FillerAt(es, nrows, realColumns, r);
    var a :| a in starred && a < |es| && es[a].pos.i == r;
    if es[a].pos.j < realColumns {
      assert StarredEntry(es, starred, realColumns, |es|, es[a]);
      var x :| 0 <= x < |A| && A[x] == es[a];
      assert RowAssigned(A, r);
      assert a != f;
    } else {
      FillerAt(es, nrows, realColumns, a - (|es| - nrows));
      assert a == f;
      forall x | 0 <= x < |A|
        ensures A[x].pos.i != r
      {
        assert A[x] in A;
        var b :| b in starred && b < |es| && es[b].pos.j < realColumns && es[b] == A[x];
        assert b != a;
      }
    }
  }

  /**
   * What munkres() returns once step 3 stops: the starred entries of real
   * columns, no row or column twice, only input entries, and every row
   * either assigned or left to its filler (unassigned at cost BIGVALUE).
   */
  ghost predicate Reported(s: Snapshot, input: seq<Entry>, res: seq<Entry>)
  {
    && |s.es| >= s.nrows
    && res == Assignment(s.es, s.starred, s.realColumns, |s.es|)
    && OneToOne(res)
    && FromInput(res, input, s.realColumns)
    && RowsAccounted(res, s.es, s.nrows, s.starred)
  }

  lemma FinishedAssignment(s: Snapshot, input: seq<Entry>)
    requires Shaped(s) && Matching(s.es, s.starred) && |s.starred| == s.nrows
    requires |s.es| == |input| + s.nrows && s.es[..|input|] == SortByRow(input)
    ensures Reported(s, input, Assignment(s.es, s.starred, s.realColumns, |s.es|))
  {
    var A := Assignment(s.es, s.starred, s.realColumns, |s.es|);
    AssignmentDistinct(s.es, s.starred, s.realColumns, |s.es|);
    assert OneToOne(A);
    AssignmentFromInput(input, s.es, s.nrows, s.starred, s.realColumns, |s.es|);
    assert FromInput(A, input, s.realColumns);
    FinishedRows(s.es, s.nrows, s.realColumns, s.starred);
    assert RowsAccounted(A, s.es, s.nrows, s.starred);
  }

  /** The summed stored cost of the entries of A. */
  function SeqCost(A: seq<Entry>): int
  {
    if A == [] then 0 else SeqCost(A[..|A| - 1]) + A[|A| - 1].cost
  }

  /** The assignment up to n has one entry per real star below n, and their summed cost. */
  lemma {:induction false} AssignmentCost(es: seq<Entry>, starred: set<nat>, realColumns: nat, n: nat)
    requires n <= |es|
    ensures |Assignment(es, starred, realColumns, n)| == |RealBelow(es, starred, realColumns, n)|
    ensures SeqCost(Assignment(es, starred, realColumns, n)) == TotalCost(es, RealBelow(es, starred, realColumns, n))
  {
    if n == 0 {
      assert RealBelow(es, starred, realColumns, n) == {};
    } else {
      AssignmentCost(es, starred, realColumns, n - 1);
      if n - 1 in starred && es[n - 1].pos.j < realColumns {
        AssignmentCostStar(es, starred, realColumns, n);
      } else {
        AssignmentCostSkip(es, starred, realColumns, n);
      }
    }
  }

  /** The step of AssignmentCost that passes over index n - 1. */
  lemma AssignmentCostSkip(es: seq<Entry>, starred: set<nat>, realColumns: nat, n: nat)
    requires 0 < n <= |es| && !(n - 1 in starred && es[n - 1].pos.j < realColumns)
    ensures Assignment(es, starred, realColumns, n) == Assignment(es, starred, realColumns, n - 1)
    ensures RealBelow(es, starred, realColumns, n) == RealBelow(es, starred, realColumns, n - 1)
  {
    assert Assignment(es, starred, realColumns, n - 1) + [] == Assignment(es, starred, realColumns, n - 1);
  }

  /** The step of AssignmentCost that reports the star at n - 1. */
  lemma AssignmentCostStar(es: seq<Entry>, starred: set<nat>, realColumns: nat, n: nat)
    requires 0 < n <= |es| && n - 1 in starred && es[n - 1].pos.j < realColumns
    ensures Assignment(es, starred, realColumns, n) == Assignment(es, starred, realColumns, n - 1) + [es[n - 1]]
    ensures RealBelow(es, starred, realColumns, n) == RealBelow(es, starred, realColumns, n - 1) + {n - 1}
    ensures SeqCost(Assignment(es, starred, realColumns, n)) == SeqCost(Assignment(es, starred, realColumns, n - 1)) + es[n - 1].cost
    ensures TotalCost(es, RealBelow(es, starred, realColumns, n)) == TotalCost(es, RealBelow(es, starred, realColumns, n - 1)) + es[n - 1].cost
  {
    var prev := Assignment(es, starred, realColumns, n - 1);
    var A := prev + [es[n - 1]];
    assert A[..|A| - 1] == prev;
    var P := RealBelow(es, starred, realColumns, n - 1);
    assert RealBelow(es, starred, realColumns, n) == P + {n - 1};
    SumSplit(P, {n - 1}, CostOf(es));
    SumRemove({n - 1}, CostOf(es), n - 1);
    assert {n - 1} - {n - 1} == {};
  }

  /**
   * The assignment munkres() reports, costed at BIGVALUE for every row it
   * leaves unassigned, is no dearer than any matching of real entries costed
   * the same way.
   */
  ghost predicate BestReported(s: Snapshot, res: seq<Entry>)
  {
    forall R :: RealMatching(s.es, s.nrows, R) ==>
      SeqCost(res) + BIGVALUE * (s.nrows - |res|) <= Penalized(s.es, R, s.nrows)
  }

  /** Once the stars are an optimal perfect matching, the reported assignment is a best one. */
  lemma ReportedBest(s: Snapshot)
    requires Finished(s) && Optimal(s)
    ensures BestReported(s, Assignment(s.es, s.starred, s.realColumns, |s.es|))
  {
    assert Extended(s.es, s.nrows, s.realColumns);
    OptimalIsBest(s);
    AssignmentCost(s.es, s.starred, s.realColumns, |s.es|);
  }

  /** The smallest element of a non-empty set: the first one a std::set iterator visits. */
  lemma SmallestExists(S: set<nat>)
    requires S != {}
    ensures exists a :: a in S && forall b :: b in S ==> a <= b
  {
    var a :| a in S;
    if !(forall b :: b in S ==> a <= b) {
      var b :| b in S && b < a;
      SmallestBelow(S, b);
    }
  }

  lemma {:induction false} SmallestBelow(S: set<nat>, x: nat)
    requires x in S
    ensures exists a :: a in S && forall b :: b in S ==> a <= b
    decreases x
  {
    if !(forall b :: b in S ==> x <= b) {
      var b :| b in S && b < x;
      SmallestBelow(S, b);
    }
  }

  class Munkres {
    const matrix: Matrix
    /** The entries the solver was built from, before sorting and fillers. */
    ghost const input: seq<Entry>
    var starred: set<nat>
    var primed: set<nat>
    var lastPrimedIndex: nat
    /** Proof-only: the order in which the current primes were set. */
    ghost var rank: map<nat, nat>
    ghost var clock: nat

    /** The matrix is well formed and built from input. */
    ghost predicate Valid()
    {
      && matrix.Valid()
      && |matrix.entries| == |input| + matrix.nrows
      && matrix.entries[..|input|] == SortByRow(input)
    }

    /** The whole solver state as a value. */
    ghost function State(): Snapshot
      reads this, matrix.rowAdds, matrix.columnAdds, matrix.coveredRows, matrix.coveredColumns
    {
      Snapshot(matrix.entries, matrix.nrows, matrix.realColumns,
               matrix.rowAdds[..], matrix.columnAdds[..], matrix.coveredRows[..], matrix.coveredColumns[..],
               starred, primed, rank, clock, lastPrimedIndex)
    }

    constructor (values: seq<Entry>)
      requires |values| > 0
      ensures Valid() && Ready1(State()) && input == values
      ensures matrix.nrows == MaxRow(values) + 1 && matrix.realColumns == MaxColumn(values) + 1
      ensures forall r :: 0 <= r < matrix.nrows ==> matrix.rowAdds[r] == 0
      ensures forall j :: 0 <= j < matrix.ncols ==> matrix.columnAdds[j] == 0
      ensures fresh(matrix) && fresh(matrix.rowAdds) && fresh(matrix.columnAdds)
      ensures fresh(matrix.coveredRows) && fresh(matrix.coveredColumns)
    {
      input := values;
      matrix := new Matrix(values);
      starred := {};
      primed := {};
      lastPrimedIndex := 0;
      rank := map[];
      clock := 0;
    }

    // -------------------------------------------------------------------------
    // Searches over the starred and primed sets (the set iterations of the source)
    // -------------------------------------------------------------------------

    /** Whether some star shares the row or the column of zero. */
    method StarSharingLine(stars: set<nat>, zero: Entry) returns (found: bool)
      requires matrix.Valid() && Indices(matrix.entries, stars)
      ensures found <==> SharesLine(matrix.entries, stars, zero.pos)
    {
      var remaining := stars;
      while remaining != {}
        invariant remaining <= stars
        invariant forall a :: a in stars - remaining ==>
          matrix.entries[a].pos.i != zero.pos.i && matrix.entries[a].pos.j != zero.pos.j
        decreases remaining
      {
        var a :| a in remaining;
        var e := matrix.CurrentValue(a);
        if zero.pos.i == e.pos.i || zero.pos.j == e.pos.j {
          return true;
        }
        remaining := remaining - {a};
      }
      return false;
    }

    /** The star in row row, if any. */
    method StarInRow(row: nat) returns (r: Option<nat>)
      requires matrix.Valid() && Indices(matrix.entries, starred)
      ensures r.Some? ==> r.value in starred && r.value < |matrix.entries| && matrix.entries[r.value].pos.i == row
      ensures r.None? <==> row !in RowsOf(matrix.entries, starred)
    {
      var remaining := starred;
      while remaining != {}
        invariant remaining <= starred
        invariant forall a :: a in starred - remaining ==> matrix.entries[a].pos.i != row
        decreases remaining
      {
        var a :| a in remaining;
        var e := matrix.CurrentValue(a);
        if e.pos.i == row {
          assert row in RowsOf(matrix.entries, starred);
          return Some(a);
        }
        remaining := remaining - {a};
      }
      return None;
    }

    /** The star in column col, if any. */
    method StarInColumn(col: nat) returns (r: Option<nat>)
      requires matrix.Valid() && Indices(matrix.entries, starred)
      ensures r.Some? ==> r.value in starred && r.value < |matrix.entries| && matrix.entries[r.value].pos.j == col
      ensures r.None? <==> col !in ColumnsOf(matrix.entries, starred)
    {
      var remaining := starred;
      while remaining != {}
        invariant remaining <= starred
        invariant forall a :: a in starred - remaining ==> matrix.entries[a].pos.j != col
        decreases remaining
      {
        var a :| a in remaining;
        var e := matrix.CurrentValue(a);
        if e.pos.j == col {
          assert col in ColumnsOf(matrix.entries, starred);
          return Some(a);
        }
        remaining := remaining - {a};
      }
      return None;
    }

    /** The prime in row row, if any. */
    method PrimeInRow(row: nat) returns (r: Option<nat>)
      requires matrix.Valid() && Indices(matrix.entries, primed)
      ensures r.Some? ==> r.value in primed && r.value < |matrix.entries| && matrix.entries[r.value].pos.i == row
      ensures r.None? <==> row !in RowsOf(matrix.entries, primed)
    {
      var remaining := primed;
      while remaining != {}
        invariant remaining <= primed
        invariant forall p :: p in primed - remaining ==> matrix.entries[p].pos.i != row
        decreases remaining
      {
        var p :| p in remaining;
        var e := matrix.CurrentValue(p);
        if e.pos.i == row {
          assert row in RowsOf(matrix.entries, primed);
          return Some(p);
        }
        remaining := remaining - {p};
      }
      return None;
    }

    // -------------------------------------------------------------------------
    // The six steps
    // -------------------------------------------------------------------------

    /** The first loop of step 1: the minimum current value of every row. */
    method RowMinima() returns (rowmins: array<Option<int>>)
      requires matrix.Valid()
      ensures fresh(rowmins) && rowmins[..] == RowMins(matrix.Values(), matrix.nrows)
    {
      ghost var vals := matrix.Values();
      rowmins := new Option<int>[matrix.nrows](_ => None);
      for index := 0 to |matrix.entries|
        invariant rowmins[..] == RowMins(vals[..index], matrix.nrows)
      {
        var e := matrix.CurrentValue(index);
        RowMinsStep(vals, index, matrix.nrows);
        if rowmins[e.pos.i].None? || e.cost < rowmins[e.pos.i].value {
          rowmins[e.pos.i] := Some(e.cost);
        }
      }
      assert vals[..|matrix.entries|] == vals;
    }

    /** The second loop of step 1: subtract every row's minimum from its potential. */
    method SubtractRowMinima(rowmins: array<Option<int>>)
      requires matrix.Valid() && rowmins.Length == matrix.nrows
      requires forall r :: 0 <= r < rowmins.Length ==> rowmins[r].Some?
      modifies matrix.rowAdds
      ensures matrix.rowAdds[..] == Reduced(old(matrix.rowAdds[..]), rowmins[..], matrix.nrows)
    {
      ghost var ra := matrix.rowAdds[..];
      for i := 0 to matrix.nrows
        invariant matrix.rowAdds[..] == Reduced(ra, rowmins[..], i)
      {
        ReducedStep(ra, rowmins[..], i);
        matrix.AddToRow(i, -rowmins[i].value);
      }
    }

    /**
     * Step 1: subtract each row's minimum current value from the row, which
     * leaves a zero in every row and no negative value.
     */
    method Step1() returns (next: int)
      requires Valid() && Ready1(State())
      modifies matrix.rowAdds
      ensures Valid() && next == 2 && Ready2(State())
      ensures forall r :: 0 <= r < matrix.nrows ==> RowHasZero(matrix.entries, matrix.rowAdds[..], matrix.columnAdds[..], r)
      ensures matrix.rowAdds[..] ==
        Reduced(old(matrix.rowAdds[..]), RowMins(old(matrix.Values()), matrix.nrows), matrix.nrows)
    {
      ghost var s0 := State();
      var rowmins := RowMinima();
      RowReduction(s0);
      SubtractRowMinima(rowmins);
      assert State() == s0.(rowAdds := matrix.rowAdds[..]);
      return 2;
    }

    /**
     * The loop of step 2: going through zeros in order, star each one that
     * shares no line with a star already chosen.
     */
    method StarZeros(zeros: seq<nat>) returns (stars: set<nat>)
      requires matrix.Valid()
      requires forall k :: 0 <= k < |zeros| ==> zeros[k] < |matrix.entries| && matrix.CurrentValue(zeros[k]).cost == 0
      ensures Indices(matrix.entries, stars) && Matching(matrix.entries, stars)
      ensures ZerosAt(matrix.entries, matrix.rowAdds[..], matrix.columnAdds[..], stars)
      ensures forall k :: 0 <= k < |zeros| ==> SharesLine(matrix.entries, stars, matrix.entries[zeros[k]].pos)
    {
      stars := {};
      for iz := 0 to |zeros|
        invariant Indices(matrix.entries, stars) && Matching(matrix.entries, stars)
        invariant ZerosAt(matrix.entries, matrix.rowAdds[..], matrix.columnAdds[..], stars)
        invariant forall k :: 0 <= k < iz ==> SharesLine(matrix.entries, stars, matrix.entries[zeros[k]].pos)
      {
        var zeroIndex := zeros[iz];
        var zero := matrix.CurrentValue(zeroIndex);
        var starredFound := StarSharingLine(stars, zero);
        if !starredFound {
          StarZero(matrix.entries, matrix.rowAdds[..], matrix.columnAdds[..], stars, zeroIndex);
          stars := stars + {zeroIndex};
          assert SharesLine(matrix.entries, stars, matrix.entries[zeroIndex].pos);
        }
      }
    }

    /**
     * Step 2: star every zero that shares no line with an earlier star. The
     * stars form a matching of zeros, and it is maximal: every zero shares a
     * line with a star.
     */
    method Step2() returns (next: int)
      requires Valid() && Ready2(State())
      modifies this
      ensures Valid() && next == 3 && Ready3(State())
      ensures forall k :: 0 <= k < |matrix.entries| && matrix.CurrentValue(k).cost == 0 ==>
        SharesLine(matrix.entries, starred, matrix.entries[k].pos)
      ensures |starred| <= matrix.nrows
      ensures State() == old(State()).(starred := starred, rank := map[], clock := 0)
    {
      ghost var s0 := State();
      var zeros := matrix.Zeros();
      forall k | 0 <= k < |zeros|
        ensures zeros[k] < |matrix.entries| && matrix.CurrentValue(zeros[k]).cost == 0
      {
        assert zeros[k] in zeros;
      }
      var stars := StarZeros(zeros);
      starred := stars;
      rank := map[];
      clock := 0;
      forall k | 0 <= k < |matrix.entries| && matrix.CurrentValue(k).cost == 0
        ensures SharesLine(matrix.entries, starred, matrix.entries[k].pos)
      {
        assert k in zeros;
        var w :| 0 <= w < |zeros| && zeros[w] == k;
      }
      assert State() == s0.(starred := starred, rank := map[], clock := 0);
      MatchingBound(State(), starred);
      return 3;
    }

    /** The first loop of step 3: cover the column of every star. */
    method CoverStarredColumns()
      requires matrix.Valid() && Indices(matrix.entries, starred)
      modifies matrix.coveredColumns
      ensures forall j :: 0 <= j < matrix.ncols ==>
        (matrix.coveredColumns[j] <==> old(matrix.coveredColumns[j]) || j in ColumnsOf(matrix.entries, starred))
    {
      var remaining := starred;
      while remaining != {}
        invariant remaining <= starred
        invariant forall j :: 0 <= j < matrix.ncols ==>
          (matrix.coveredColumns[j] <==> old(matrix.coveredColumns[j]) || j in ColumnsOf(matrix.entries, starred - remaining))
        decreases remaining
      {
        var a :| a in remaining;
        var e := matrix.CurrentValue(a);
        matrix.coveredColumns[e.pos.j] := true;
        ColumnsOfAdd(matrix.entries, starred - remaining, a);
        assert starred - (remaining - {a}) == (starred - remaining) + {a};
        remaining := remaining - {a};
      }
    }

    /** The second loop of step 3: the number of covered columns. */
    method CountCoveredColumns() returns (count: nat)
      requires matrix.Valid()
      ensures count == CountTrue(matrix.coveredColumns[..])
    {
      count := 0;
      for i := 0 to matrix.ncols
        invariant count == CountTrue(matrix.coveredColumns[..i])
      {
        assert matrix.coveredColumns[..i + 1][..i] == matrix.coveredColumns[..i];
        if matrix.coveredColumns[i] {
          count := count + 1;
        }
      }
      assert matrix.coveredColumns[..matrix.ncols] == matrix.coveredColumns[..];
    }

    /**
     * Step 3: cover the column of every star, count the covered columns, and
     * finish when there are nrows of them.
     */
    method Step3() returns (next: int)
      requires Valid() && Ready3(State())
      modifies matrix.coveredColumns
      ensures Valid() && (next == -1 || next == 4) && Ready(State(), next)
      ensures forall j :: 0 <= j < matrix.ncols ==>
        (matrix.coveredColumns[j] <==> old(matrix.coveredColumns[j]) || j in ColumnsOf(matrix.entries, starred))
      ensures next == -1 <==> |starred| == matrix.nrows
    {
      ghost var s0 := State();
      CoverStarredColumns();
      var count := CountCoveredColumns();
      CoverStarColumns(s0, matrix.coveredColumns[..]);
      assert State() == s0.(coveredColumns := matrix.coveredColumns[..]);
      if count == matrix.nrows {
        return -1;
      } else {
        return 4;
      }
    }

    /** Primes z and makes it the last prime. */
    method MarkPrime(z: nat)
      requires z !in primed
      modifies this
      ensures State() == Prime(old(State()), z) && |primed| == |old(primed)| + 1
    {
      assert |primed + {z}| == |primed| + 1;
      primed := primed + {z};
      lastPrimedIndex := z;
      rank := rank[z := clock];
      clock := clock + 1;
    }

    /**
     * The body of step 4 for the uncovered zero z: prime it and look for a
     * star in its row; when there is one, cover the row and uncover the
     * star's column.
     */
    method PrimeZero(z: nat) returns (star: Option<nat>)
      requires Valid() && Ready4(State()) && z < |matrix.entries|
      requires Cost(State(), z) == 0 && !matrix.coveredRows[matrix.entries[z].pos.i] && !matrix.coveredColumns[matrix.entries[z].pos.j]
      modifies this, matrix.coveredRows, matrix.coveredColumns
      ensures |primed| == |old(primed)| + 1
      ensures star.None? ==> State() == Prime(old(State()), z) && Ready5(State())
      ensures star.Some? ==>
        && star.value in starred && star.value < |matrix.entries|
        && matrix.entries[star.value].pos.i == matrix.entries[z].pos.i
        && State() == Prime(old(State()), z).(
             coveredRows := old(State()).coveredRows[matrix.entries[z].pos.i := true],
             coveredColumns := old(State()).coveredColumns[matrix.entries[star.value].pos.j := false])
        && Ready4(State())
    {
      ghost var s0 := State();
      UncoveredUnmarked(s0.es, s0.starred, s0.primed, s0.coveredRows, s0.coveredColumns, z);
      var zero := matrix.CurrentValue(z);
      MarkPrime(z);
      star := StarInRow(zero.pos.i);
      if star.None? {
        PrimeWithoutStar(s0, z);
        assert State() == Prime(s0, z);
        return;
      }
      var starredZero := matrix.CurrentValue(star.value);
      matrix.coveredRows[zero.pos.i] := true;
      matrix.coveredColumns[starredZero.pos.j] := false;
      PrimeAndCover(s0, z, star.value);
      assert State() == Prime(s0, z).(coveredRows := s0.coveredRows[zero.pos.i := true],
                                      coveredColumns := s0.coveredColumns[starredZero.pos.j := false]);
    }

    /**
     * One round of step 4: prime the first uncovered zero, if there is one.
     * The answer is 5 when the new prime has no star in its row, 6 when no
     * uncovered zero was left (and nothing changed), and 4 otherwise.
     */
    method SearchRound() returns (r: int, ghost z: nat, ghost star: nat)
      requires Valid() && Ready4(State())
      modifies this, matrix.coveredRows, matrix.coveredColumns
      ensures Valid() && (r == 4 || r == 5 || r == 6) && Ready(State(), r)
      ensures r == 6 ==> State() == old(State())
      ensures r != 6 ==> FirstUncoveredZero(old(State()), z) && PrimedFrom(old(State()), State(), z, star, r)
      ensures r != 6 ==> |primed| == |old(primed)| + 1 && old(primed) <= primed
      ensures starred == old(starred)
      ensures matrix.rowAdds[..] == old(matrix.rowAdds[..]) && matrix.columnAdds[..] == old(matrix.columnAdds[..])
    {
      z, star := 0, 0;
      var zeroIndex := matrix.FindUncoveredZero();
      if zeroIndex.None? {
        NoneLeft();
        return 6, z, star;
      }
      z := zeroIndex.value;
      FirstFound(z);
      r, star := PrimeFirst(zeroIndex.value);
    }

    /** No uncovered zero is left: the state step 6 expects. */
    ghost method NoneLeft()
      requires Valid() && Ready4(State())
      requires forall k :: 0 <= k < |matrix.entries| ==> !matrix.UncoveredZero(k)
      ensures Ready6(State())
    {
      ghost var s := State();
      forall k | 0 <= k < |s.es|
        ensures !(CostAt(s.es, s.rowAdds, s.columnAdds, k) == 0 && !s.coveredRows[s.es[k].pos.i] && !s.coveredColumns[s.es[k].pos.j])
      {
        assert !matrix.UncoveredZero(k);
      }
    }

    /** What FindUncoveredZero reports, stated on the snapshot. */
    ghost method FirstFound(z: nat)
      requires Valid() && Shaped(State()) && z < |matrix.entries| && matrix.UncoveredZero(z)
      requires forall k :: 0 <= k < z ==> !matrix.UncoveredZero(k)
      ensures FirstUncoveredZero(State(), z)
    {
      ghost var s := State();
      forall k | 0 <= k < z
        ensures !(Cost(s, k) == 0 && !s.coveredRows[s.es[k].pos.i] && !s.coveredColumns[s.es[k].pos.j])
      {
        assert !matrix.UncoveredZero(k);
      }
    }

    /** The branch of one step 4 round that found the uncovered zero z. */
    method PrimeFirst(z: nat) returns (r: int, ghost star: nat)
      requires Valid() && Ready4(State()) && z < |matrix.entries| && matrix.UncoveredZero(z)
      modifies this, matrix.coveredRows, matrix.coveredColumns
      ensures Valid() && (r == 4 || r == 5) && Ready(State(), r)
      ensures |primed| == |old(primed)| + 1 && old(primed) <= primed
      ensures PrimedFrom(old(State()), State(), z, star, r)
      ensures starred == old(starred)
      ensures matrix.rowAdds[..] == old(matrix.rowAdds[..]) && matrix.columnAdds[..] == old(matrix.columnAdds[..])
    {
      star := 0;
      assert Cost(State(), z) == 0;
      var found := PrimeZero(z);
      if found.None? {
        return 5, star;
      }
      star := found.value;
      return 4, star;
    }

    /**
     * Step 4: prime uncovered zeros until one has no star in its row (go to
     * step 5) or no uncovered zero is left (go to step 6). Stars and
     * potentials do not change; primes only grow.
     */
    method Step4() returns (next: int)
      requires Valid() && Ready4(State())
      modifies this, matrix.coveredRows, matrix.coveredColumns
      ensures Valid() && (next == 5 || next == 6) && Ready(State(), next)
      ensures starred == old(starred) && old(primed) <= primed
      ensures matrix.rowAdds[..] == old(matrix.rowAdds[..]) && matrix.columnAdds[..] == old(matrix.columnAdds[..])
      ensures next == 5 ==> |primed| > |old(primed)|
      ensures |primed| == |old(primed)| ==> State() == old(State())
    {
      ghost var s0 := State();
      PrimesBound(s0);
      var done := false;
      while !done
        invariant Valid() && Ready4(State())
        invariant starred == s0.starred && s0.primed <= primed && |s0.primed| <= |primed| <= matrix.nrows
        invariant matrix.rowAdds[..] == s0.rowAdds && matrix.columnAdds[..] == s0.columnAdds
        invariant |primed| == |s0.primed| ==> State() == s0
        invariant done ==> Ready6(State())
        decreases matrix.nrows - |primed|, if done then 0 else 1
      {
        var round, _, _ := SearchRound();
        if round == 5 {
          return 5;
        } else if round == 6 {
          done := true;
        } else {
          PrimesBound(State());
        }
      }
      return 6;
    }

    /** The first loop of step 6: add d to the potential of every covered row. */
    method AddToCoveredRows(d: int)
      requires matrix.Valid()
      modifies matrix.rowAdds
      ensures matrix.rowAdds[..] == AddToCovered(old(matrix.rowAdds[..]), matrix.coveredRows[..], d)
    {
      ghost var ra := matrix.rowAdds[..];
      for index := 0 to matrix.nrows
        invariant forall i :: 0 <= i < matrix.nrows ==>
          matrix.rowAdds[i] == ra[i] + (if i < index && matrix.coveredRows[i] then d else 0)
      {
        if matrix.coveredRows[index] {
          matrix.AddToRow(index, d);
        }
      }
      assert matrix.rowAdds[..] == AddToCovered(ra, matrix.coveredRows[..], d);
    }

    /** The second loop of step 6: subtract d from the potential of every uncovered column. */
    method SubtractFromUncoveredColumns(d: int)
      requires matrix.Valid()
      modifies matrix.columnAdds
      ensures matrix.columnAdds[..] == SubtractFromUncovered(old(matrix.columnAdds[..]), matrix.coveredColumns[..], d)
    {
      ghost var ca := matrix.columnAdds[..];
      for index := 0 to matrix.ncols
        invariant forall j :: 0 <= j < matrix.ncols ==>
          matrix.columnAdds[j] == ca[j] - (if j < index && !matrix.coveredColumns[j] then d else 0)
      {
        if !matrix.coveredColumns[index] {
          matrix.AddToColumn(index, -d);
        }
      }
      assert matrix.columnAdds[..] == SubtractFromUncovered(ca, matrix.coveredColumns[..], d);
    }

    /**
     * The minimum search of step 6 (min_uncovered_cost) where it cannot fail:
     * some entry is uncovered and every uncovered current value is positive.
     */
    method PositiveMinimum() returns (minval: int)
      requires matrix.Valid()
      requires exists k :: 0 <= k < |matrix.entries| && matrix.Uncovered(k)
      requires forall k :: 0 <= k < |matrix.entries| && matrix.Uncovered(k) ==> matrix.CurrentValue(k).cost > 0
      ensures minval > 0
      ensures exists k :: 0 <= k < |matrix.entries| && matrix.Uncovered(k) && matrix.CurrentValue(k).cost == minval
      ensures forall k :: 0 <= k < |matrix.entries| && matrix.Uncovered(k) ==> minval <= matrix.CurrentValue(k).cost
    {
      ghost var w :| 0 <= w < |matrix.entries| && matrix.Uncovered(w);
      var m := matrix.MinUncoveredCost();
      assert matrix.Uncovered(w);
      minval := m.value;
    }

    /**
     * The minimum search of step 6: the smallest current value of an
     * uncovered entry, which exists and is positive on entry to step 6.
     */
    method SmallestUncovered(ghost s: Snapshot) returns (minval: int, ghost at: nat)
      requires matrix.Valid() && Shaped(s)
      requires s.es == matrix.entries && s.rowAdds == matrix.rowAdds[..] && s.columnAdds == matrix.columnAdds[..]
      requires s.coveredRows == matrix.coveredRows[..] && s.coveredColumns == matrix.coveredColumns[..]
      requires exists k :: 0 <= k < |s.es| && Open(s.es, s.coveredRows, s.coveredColumns, k)
      requires forall k :: 0 <= k < |s.es| && Open(s.es, s.coveredRows, s.coveredColumns, k) ==> Cost(s, k) > 0
      ensures minval > 0 && SmallestUncoveredCost(s, minval, at)
    {
      ghost var w :| 0 <= w < |s.es| && Open(s.es, s.coveredRows, s.coveredColumns, w);
      assert matrix.Uncovered(w);
      forall k | 0 <= k < |matrix.entries| && matrix.Uncovered(k)
        ensures matrix.CurrentValue(k).cost > 0
      {
        assert Open(s.es, s.coveredRows, s.coveredColumns, k);
      }
      minval := PositiveMinimum();
      at :| 0 <= at < |matrix.entries| && matrix.Uncovered(at) && matrix.CurrentValue(at).cost == minval;
      assert Cost(s, at) == minval;
      forall k | 0 <= k < |s.es| && Open(s.es, s.coveredRows, s.coveredColumns, k)
        ensures minval <= Cost(s, k)
      {
        assert matrix.Uncovered(k);
      }
    }

    /**
     * Step 6: with the smallest uncovered value d, which exists and is
     * positive, add d to every covered row and subtract it from every
     * uncovered column. No value turns negative, stars and primes stay
     * zeros, and an uncovered zero appears.
     */
    method Step6() returns (next: int, ghost minval: int)
      requires Valid() && Ready6(State())
      modifies matrix.rowAdds, matrix.columnAdds
      ensures Valid() && next == 4 && Ready4(State())
      ensures minval > 0 && State() == Adjusted(old(State()), minval)
      ensures exists at :: SmallestUncoveredCost(old(State()), minval, at)
      ensures !NoUncoveredZero(matrix.entries, matrix.rowAdds[..], matrix.columnAdds[..],
                               matrix.coveredRows[..], matrix.coveredColumns[..])
    {
      ghost var s0 := State();
      var d;
      ghost var at;
      UncoveredEntryExists(s0);
      d, at := SmallestUncovered(s0);
      AdjustKeepsSearch(s0, d);
      AdjustMakesZero(s0, d, at);
      AddToCoveredRows(d);
      SubtractFromUncoveredColumns(d);
      assert State() == Adjusted(s0, d);
      return 4, d;
    }

    /**
     * The first loop of step 5: from the last prime, alternately follow the
     * star in the prime's column and the prime in the star's row, until a
     * prime has no star in its column. The source asserts that the prime in
     * the star's row always exists; here that is proved.
     */
    method FindChain(ghost s: Snapshot) returns (seqPrimed: seq<nat>, seqStarred: seq<nat>)
      requires matrix.Valid() && Ready5(s)
      requires s.es == matrix.entries && s.starred == starred && s.primed == primed && s.last == lastPrimedIndex
      ensures ChainOf(s, seqPrimed, seqStarred)
      ensures s.es[seqPrimed[|seqPrimed| - 1]].pos.j !in ColumnsOf(s.es, s.starred)
    {
      ChainStart(s);
      var lastPrimed := lastPrimedIndex;
      seqPrimed := [lastPrimed];
      seqStarred := [];
      while true
        invariant ChainOf(s, seqPrimed, seqStarred) && seqPrimed[|seqPrimed| - 1] == lastPrimed
        decreases s.rank[lastPrimed]
      {
        var lastPrimedEntry := matrix.CurrentValue(lastPrimed);
        var lastStarred := StarInColumn(lastPrimedEntry.pos.j);
        if lastStarred.None? {
          break;
        }
        var lastStarredEntry := matrix.CurrentValue(lastStarred.value);
        ChainStep(s, seqPrimed, seqStarred, lastStarred.value);
        var nextPrimed := PrimeInRow(lastStarredEntry.pos.i);
        seqStarred := seqStarred + [lastStarred.value];
        lastPrimed := nextPrimed.value;
        seqPrimed := seqPrimed + [lastPrimed];
      }
    }

    /** The second loop of step 5: unstar every star of the chain. */
    method Unstar(seqStarred: seq<nat>)
      modifies this
      ensures State() == old(State()).(starred := old(starred) - Elements(seqStarred))
    {
      for si := 0 to |seqStarred|
        invariant State() == old(State()).(starred := old(starred) - Elements(seqStarred[..si]))
      {
        assert Elements(seqStarred[..si + 1]) == Elements(seqStarred[..si]) + {seqStarred[si]};
        starred := starred - {seqStarred[si]};
      }
      assert seqStarred[..|seqStarred|] == seqStarred;
    }

    /** The third loop of step 5: star every prime of the chain. */
    method StarAll(seqPrimed: seq<nat>)
      modifies this
      ensures State() == old(State()).(starred := old(starred) + Elements(seqPrimed))
    {
      for pi := 0 to |seqPrimed|
        invariant State() == old(State()).(starred := old(starred) + Elements(seqPrimed[..pi]))
      {
        assert Elements(seqPrimed[..pi + 1]) == Elements(seqPrimed[..pi]) + {seqPrimed[pi]};
        starred := starred + {seqPrimed[pi]};
      }
      assert seqPrimed[..|seqPrimed|] == seqPrimed;
    }

    /** The end of step 5: uncover every row. */
    method UncoverRows()
      requires matrix.Valid()
      modifies matrix.coveredRows
      ensures matrix.coveredRows[..] == NoneCovered(matrix.nrows)
    {
      for i := 0 to matrix.nrows
        invariant forall r :: 0 <= r < i ==> !matrix.coveredRows[r]
      {
        matrix.coveredRows[i] := false;
      }
      assert matrix.coveredRows[..] == NoneCovered(matrix.nrows);
    }

    /**
     * The rest of step 5: unstar the chain's stars, star its primes, erase
     * all primes and uncover every row.
     */
    method AugmentAlong(seqPrimed: seq<nat>, seqStarred: seq<nat>)
      requires matrix.Valid()
      modifies this, matrix.coveredRows
      ensures State() == Augmented(old(State()), seqPrimed, seqStarred)
    {
      ghost var s0 := State();
      Unstar(seqStarred);
      StarAll(seqPrimed);
      primed := {};
      rank := map[];
      clock := 0;
      UncoverRows();
      assert starred == Flip(s0.starred, seqPrimed, seqStarred);
      assert State() == Augmented(s0, seqPrimed, seqStarred);
    }

    /**
     * Step 5: build the alternating chain of primes and stars from the last
     * prime, unstar its stars and star its primes, erase all primes and
     * uncover every row. The stars stay a matching of zeros and gain one.
     */
    method Step5() returns (next: int, ghost chainPrimed: seq<nat>, ghost chainStarred: seq<nat>)
      requires Valid() && Ready5(State())
      modifies this, matrix.coveredRows
      ensures Valid() && next == 3 && Ready3(State())
      ensures ChainOf(old(State()), chainPrimed, chainStarred)
      ensures State() == Augmented(old(State()), chainPrimed, chainStarred)
      ensures |starred| == |old(starred)| + 1
    {
      ghost var s0 := State();
      var seqPrimed, seqStarred := FindChain(s0);
      Augment(s0, seqPrimed, seqStarred);
      AugmentAlong(seqPrimed, seqStarred);
      return 3, seqPrimed, seqStarred;
    }

    // -------------------------------------------------------------------------
    // The driver (munkres())
    // -------------------------------------------------------------------------

    /**
     * The result loop of munkres(): walk the stars in increasing index order
     * (the order of a std::set) and keep the stored entries in real columns.
     */
    method Extract() returns (res: seq<Entry>)
      requires matrix.Valid() && Indices(matrix.entries, starred)
      ensures res == Assignment(matrix.entries, starred, matrix.realColumns, |matrix.entries|)
    {
      res := [];
      var remaining := starred;
      ghost var n := 0;
      while remaining != {}
        invariant remaining <= starred && n <= |matrix.entries|
        invariant forall a :: a in starred ==> (a in remaining <==> a >= n)
        invariant res == Assignment(matrix.entries, starred, matrix.realColumns, n)
        decreases remaining
      {
        SmallestExists(remaining);
        var a :| a in remaining && forall b :: b in remaining ==> a <= b;
        AssignmentSkip(matrix.entries, starred, matrix.realColumns, n, a);
        var e := matrix.entries[a];
        if e.pos.j < matrix.realColumns {
          res := res + [e];
        }
        remaining := remaining - {a};
        n := a + 1;
      }
      AssignmentSkip(matrix.entries, starred, matrix.realColumns, n, |matrix.entries|);
    }

    /**
     * One pass of the loop of munkres(): run step n. The state it hands over
     * is ready for the next step and lower in the termination measure, and
     * the column potentials stay level, at the floor -D' that step 6 lowers.
     */
    method Advance(n: int, ghost D: int) returns (next: int, ghost D': int)
      requires Valid() && 1 <= n && Ready(State(), n)
      requires Level(matrix.entries, matrix.columnAdds[..], starred, D)
      modifies this, matrix.rowAdds, matrix.columnAdds, matrix.coveredRows, matrix.coveredColumns
      ensures Valid() && Ready(State(), next) && Precedes(State(), next, old(State()), n)
      ensures Level(matrix.entries, matrix.columnAdds[..], starred, D')
    {
      if n <= 3 {
        next := AdvanceToSearch(n, D);
        D' := D;
      } else {
        next, D' := AdvanceSearch(n, D);
      }
    }

    /** Steps 1 to 3: reduce the rows, star greedily, cover the starred columns. */
    method AdvanceToSearch(n: int, ghost D: int) returns (next: int)
      requires Valid() && 1 <= n <= 3 && Ready(State(), n)
      requires Level(matrix.entries, matrix.columnAdds[..], starred, D)
      modifies this, matrix.rowAdds, matrix.coveredColumns
      ensures Valid() && Ready(State(), next) && Precedes(State(), next, old(State()), n)
      ensures Level(matrix.entries, matrix.columnAdds[..], starred, D)
    {
      ghost var s := State();
      if n == 1 {
        next := Step1();
        Step1Progress(s, State());
      } else if n == 2 {
        next := Step2();
        Step2Progress(s, State());
        LevelMoreStars(s.es, s.columnAdds, s.starred, starred, D);
      } else {
        next := Step3();
        Step3Progress(s, State(), next);
      }
    }

    /** Steps 4 to 6: prime, augment, or shift the potentials. */
    method AdvanceSearch(n: int, ghost D: int) returns (next: int, ghost D': int)
      requires Valid() && 4 <= n <= 6 && Ready(State(), n)
      requires Level(matrix.entries, matrix.columnAdds[..], starred, D)
      modifies this, matrix.rowAdds, matrix.columnAdds, matrix.coveredRows, matrix.coveredColumns
      ensures Valid() && Ready(State(), next) && Precedes(State(), next, old(State()), n)
      ensures Level(matrix.entries, matrix.columnAdds[..], starred, D')
    {
      if n == 4 {
        next := AdvancePrime(D);
        D' := D;
      } else if n == 5 {
        next := AdvanceAugment(D);
        D' := D;
      } else {
        next, D' := AdvanceAdjust(D);
      }
    }

    /** Step 4 within the loop. */
    method AdvancePrime(ghost D: int) returns (next: int)
      requires Valid() && Ready4(State())
      requires Level(matrix.entries, matrix.columnAdds[..], starred, D)
      modifies this, matrix.coveredRows, matrix.coveredColumns
      ensures Valid() && Ready(State(), next) && Precedes(State(), next, old(State()), 4)
      ensures Level(matrix.entries, matrix.columnAdds[..], starred, D)
    {
      ghost var s := State();
      next := Step4();
      Step4Progress(s, State(), next);
    }

    /** Step 5 within the loop. */
    method AdvanceAugment(ghost D: int) returns (next: int)
      requires Valid() && Ready5(State())
      requires Level(matrix.entries, matrix.columnAdds[..], starred, D)
      modifies this, matrix.coveredRows
      ensures Valid() && Ready(State(), next) && Precedes(State(), next, old(State()), 5)
      ensures Level(matrix.entries, matrix.columnAdds[..], starred, D)
    {
      ghost var s := State();
      ghost var chainPrimed, chainStarred;
      next, chainPrimed, chainStarred := Step5();
      Step5Progress(s, State());
      LevelAugment(s, chainPrimed, chainStarred, D);
    }

    /** Step 6 within the loop: the floor of the column potentials drops by the minimum. */
    method AdvanceAdjust(ghost D: int) returns (next: int, ghost D': int)
      requires Valid() && Ready6(State())
      requires Level(matrix.entries, matrix.columnAdds[..], starred, D)
      modifies matrix.rowAdds, matrix.columnAdds
      ensures Valid() && Ready(State(), next) && Precedes(State(), next, old(State()), 6)
      ensures Level(matrix.entries, matrix.columnAdds[..], starred, D')
    {
      ghost var s := State();
      ghost var d;
      next, d := Step6();
      Step6Progress(s, State());
      LevelAdjust(s, d, D);
      D' := D + d;
    }

    /**
     * The loop of munkres(): run the steps from step 1 until step 3 reports
     * a complete set of stars. It terminates: steps 1 and 2 run once, step 5
     * adds a star, step 4 adds primes, and between two such changes step 3
     * and steps 4 and 6 alternate at most once each. The stars it stops with
     * are an optimal perfect matching of the extended matrix.
     */
    method RunSteps()
      requires Valid() && Ready1(State())
      requires forall j :: 0 <= j < matrix.ncols ==> matrix.columnAdds[j] == 0
      modifies this, matrix.rowAdds, matrix.columnAdds, matrix.coveredRows, matrix.coveredColumns
      ensures Valid() && Finished(State()) && Optimal(State())
    {
      var next := 1;
      ghost var D := 0;
      LevelStart(matrix.entries, matrix.columnAdds[..]);
      while next >= 1
        invariant Valid() && Ready(State(), next)
        invariant Level(matrix.entries, matrix.columnAdds[..], starred, D)
        decreases StarsToGo(State(), next), PrimesToGo(State()), StepRank(State(), next)
      {
        next, D := Advance(next, D);
      }
      FinishedOptimal(State(), D);
    }

    /** munkres(): solve, then collect the starred entries of real columns. */
    method Solve() returns (res: seq<Entry>)
      requires Valid() && Ready1(State())
      requires forall j :: 0 <= j < matrix.ncols ==> matrix.columnAdds[j] == 0
      modifies this, matrix.rowAdds, matrix.columnAdds, matrix.coveredRows, matrix.coveredColumns
      ensures Valid() && Finished(State()) && Optimal(State())
      ensures Reported(State(), input, res) && BestReported(State(), res)
    {
      RunSteps();
      res := Extract();
      FinishedAssignment(State(), input);
      ReportedBest(State());
    }
  }
}
