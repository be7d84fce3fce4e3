// What each of the six steps does to the solver state, stated on values, and
// the lemmas that each step keeps the invariant of the step that follows it
// (munkres.cpp, Munkres::step_1 .. step_6).

module MunkresSteps {
  import opened Entries
  import opened SparseMatrix
  import opened MunkresState

  // ---------------------------------------------------------------------------
  // Step 1: row reduction
  // ---------------------------------------------------------------------------

  /**
   * The smallest current value in row r among vals, None (INF) when the row
   * has no entry; scanned left to right with a strict comparison, as step 1 does.
   */
  function RowMin(vals: seq<Entry>, r: nat): Option<int>
  {
    if vals == [] then None
    else
      var m := RowMin(vals[..|vals| - 1], r);
      var e := vals[|vals| - 1];
      if e.pos.i == r && (m.None? || e.cost < m.value) then Some(e.cost) else m
  }

  /** RowMin is the minimum of the row, and is INF exactly when the row is empty. */
  lemma {:induction false} RowMinIsMinimum(vals: seq<Entry>, r: nat)
    ensures RowMin(vals, r).None? <==> forall k :: 0 <= k < |vals| ==> vals[k].pos.i != r
    ensures RowMin(vals, r).Some? ==>
      exists k :: 0 <= k < |vals| && vals[k].pos.i == r && vals[k].cost == RowMin(vals, r).value
    ensures RowMin(vals, r).Some? ==>
      forall k :: 0 <= k < |vals| && vals[k].pos.i == r ==> RowMin(vals, r).value <= vals[k].cost
  {
    if vals != [] {
      var n := |vals| - 1;
      var front := vals[..n];
      RowMinIsMinimum(front, r);
      assert forall k :: 0 <= k < n ==> vals[k] == front[k];
      var m := RowMin(front, r);
      if vals[n].pos.i == r && (m.None? || vals[n].cost < m.value) {
      } else if m.Some? {
        var w :| 0 <= w < |front| && front[w].pos.i == r && front[w].cost == m.value;
        assert vals[w] == front[w];
      }
    }
  }

  /** The filler of row r is entry |es| - nrows + r. */
  lemma FillerAt(es: seq<Entry>, nrows: nat, realColumns: nat, r: nat)
    requires nrows <= |es| && es[|es| - nrows..] == Fillers(nrows, realColumns) && r < nrows
    ensures es[|es| - nrows + r] == Entry(Coords(r, realColumns + r), BIGVALUE)
  {
    assert es[|es| - nrows..][r] == Fillers(nrows, realColumns)[r];
  }

  /** Thanks to the fillers, every row minimum is finite. */
  lemma RowMinFinite(s: Snapshot, r: nat)
    requires Shaped(s) && r < s.nrows
    ensures RowMin(CurrentValues(s.es, s.rowAdds, s.columnAdds), r).Some?
  {
    FillerAt(s.es, s.nrows, s.realColumns, r);
    var vals := CurrentValues(s.es, s.rowAdds, s.columnAdds);
    RowMinIsMinimum(vals, r);
    assert vals[|s.es| - s.nrows + r].pos.i == r;
  }

  /** Row r has an entry whose current value is zero. */
  ghost predicate RowHasZero(es: seq<Entry>, rowAdds: seq<int>, columnAdds: seq<int>, r: nat)
    requires InBounds(es, |rowAdds|, |columnAdds|)
  {
    exists k :: 0 <= k < |es| && es[k].pos.i == r && CostAt(es, rowAdds, columnAdds, k) == 0
  }

  /** The minimum of every row below n. */
  function RowMins(vals: seq<Entry>, n: nat): (m: seq<Option<int>>)
    ensures |m| == n
  {
    seq(n, r requires 0 <= r < n => RowMin(vals, r))
  }

  /** One more entry of the scan in step 1 lowers its row's minimum if it is smaller. */
  lemma RowMinsStep(vals: seq<Entry>, index: nat, n: nat)
    requires index < |vals| && vals[index].pos.i < n
    ensures RowMins(vals[..index + 1], n) ==
      var m := RowMins(vals[..index], n);
      var e := vals[index];
      if m[e.pos.i].None? || e.cost < m[e.pos.i].value then m[e.pos.i := Some(e.cost)] else m
  {
    assert vals[..index + 1][..index] == vals[..index];
  }

  /** The row potentials after subtracting the minimum of each row below i. */
  function Reduced(rowAdds: seq<int>, mins: seq<Option<int>>, i: nat): (r: seq<int>)
    requires |mins| == |rowAdds|
    ensures |r| == |rowAdds|
  {
    seq(|rowAdds|, r requires 0 <= r < |rowAdds| =>
      if r < i && mins[r].Some? then rowAdds[r] - mins[r].value else rowAdds[r])
  }

  lemma ReducedStep(rowAdds: seq<int>, mins: seq<Option<int>>, i: nat)
    requires |mins| == |rowAdds| && i < |rowAdds| && mins[i].Some?
    ensures Reduced(rowAdds, mins, i + 1) == Reduced(rowAdds, mins, i)[i := rowAdds[i] - mins[i].value]
  {
  }

  /** After step 1, row r has a zero where its minimum was. */
  lemma ReducedRowZero(s: Snapshot, vals: seq<Entry>, rowAdds: seq<int>, r: nat)
    requires Ready1(s) && r < s.nrows
    requires vals == CurrentValues(s.es, s.rowAdds, s.columnAdds)
    requires RowMin(vals, r).Some?
    requires rowAdds == Reduced(s.rowAdds, RowMins(vals, s.nrows), s.nrows)
    ensures RowHasZero(s.es, rowAdds, s.columnAdds, r)
  {
    RowMinIsMinimum(vals, r);
    var w :| 0 <= w < |vals| && vals[w].pos.i == r && vals[w].cost == RowMin(vals, r).value;
    assert CostAt(s.es, rowAdds, s.columnAdds, w) == 0;
  }

  /**
   * Step 1: subtracting each row's minimum from its potential leaves every
   * current value non-negative and puts a zero in every row.
   */
  lemma RowReduction(s: Snapshot)
    requires Ready1(s)
    ensures forall r :: 0 <= r < s.nrows ==> RowMins(CurrentValues(s.es, s.rowAdds, s.columnAdds), s.nrows)[r].Some?
    ensures Ready2(s.(rowAdds := Reduced(s.rowAdds, RowMins(CurrentValues(s.es, s.rowAdds, s.columnAdds), s.nrows), s.nrows)))
    ensures forall r :: 0 <= r < s.nrows ==>
      RowHasZero(s.es, Reduced(s.rowAdds, RowMins(CurrentValues(s.es, s.rowAdds, s.columnAdds), s.nrows), s.nrows),
                 s.columnAdds, r)
  {
    var vals := CurrentValues(s.es, s.rowAdds, s.columnAdds);
    var rowAdds := Reduced(s.rowAdds, RowMins(vals, s.nrows), s.nrows);
    forall r | 0 <= r < s.nrows
      ensures RowMin(vals, r).Some?
    {
      RowMinFinite(s, r);
    }
    forall k | 0 <= k < |s.es|
      ensures CostAt(s.es, rowAdds, s.columnAdds, k) >= 0
    {
      RowMinIsMinimum(vals, s.es[k].pos.i);
      assert vals[k].pos.i == s.es[k].pos.i;
    }
    forall r | 0 <= r < s.nrows
      ensures RowHasZero(s.es, rowAdds, s.columnAdds, r)
    {
      ReducedRowZero(s, vals, rowAdds, r);
    }
    assert Feasible(s.es, rowAdds, s.columnAdds);
  }

  // ---------------------------------------------------------------------------
  // Step 2: greedy starring
  // ---------------------------------------------------------------------------

  /** Starring a zero that shares no line with a star keeps a matching of zeros. */
  lemma StarZero(es: seq<Entry>, rowAdds: seq<int>, columnAdds: seq<int>, starred: set<nat>, z: nat)
    requires InBounds(es, |rowAdds|, |columnAdds|)
    requires Matching(es, starred) && ZerosAt(es, rowAdds, columnAdds, starred)
    requires z < |es| && CostAt(es, rowAdds, columnAdds, z) == 0
    requires forall a :: a in starred ==> es[a].pos.i != es[z].pos.i && es[a].pos.j != es[z].pos.j
    ensures Matching(es, starred + {z}) && ZerosAt(es, rowAdds, columnAdds, starred + {z})
  {
  }

  // ---------------------------------------------------------------------------
  // Step 3: covering the starred columns
  // ---------------------------------------------------------------------------

  /**
   * Step 3: after covering the column of every star, the covered columns are
   * exactly the starred ones, so their count is the number of stars; the
   * search is over iff that count is nrows.
   */
  lemma CoverStarColumns(s: Snapshot, cc: seq<bool>)
    requires Ready3(s)
    requires |cc| == |s.coveredColumns|
    requires forall j :: 0 <= j < |cc| ==>
      (cc[j] <==> s.coveredColumns[j] || j in ColumnsOf(s.es, s.starred))
    ensures CountTrue(cc) == |s.starred| <= s.nrows
    ensures CountTrue(cc) == s.nrows ==> Finished(s.(coveredColumns := cc))
    ensures CountTrue(cc) != s.nrows ==> Ready4(s.(coveredColumns := cc))
  {
    StarColumnsCount(s.es, s.starred, cc);
    MatchingBound(s, s.starred);
    var t := s.(coveredColumns := cc);
    assert StarsOk(t);
    if CountTrue(cc) != s.nrows {
      assert PrimesOk(t.es, t.rowAdds, t.columnAdds, t.starred, t.primed, t.rank, t.clock);
      assert CoversOk(t.es, t.starred, t.primed, t.coveredRows, t.coveredColumns);
    }
  }

  /** When exactly the columns of a matching are flagged, the flags count the matching. */
  lemma StarColumnsCount(es: seq<Entry>, S: set<nat>, cc: seq<bool>)
    requires Matching(es, S)
    requires forall j :: 0 <= j < |cc| ==> (cc[j] <==> j in ColumnsOf(es, S))
    requires forall j :: j in ColumnsOf(es, S) ==> j < |cc|
    ensures CountTrue(cc) == |S|
  {
    assert TrueAt(cc) == ColumnsOf(es, S);
    CountTrueIsCard(cc);
    MatchingLines(es, S);
  }

  // ---------------------------------------------------------------------------
  // Step 4: priming
  // ---------------------------------------------------------------------------

  /** The state after priming z: z joins the primes and is stamped with the clock. */
  ghost function Prime(s: Snapshot, z: nat): Snapshot
  {
    s.(primed := s.primed + {z}, rank := s.rank[z := s.clock], clock := s.clock + 1, last := z)
  }

  /**
   * One round of step 4 that primed z went from s to t: with r == 5 the row
   * of z had no star; with r == 4 its star is star, whose column is
   * uncovered while the row of z is covered.
   */
  ghost predicate PrimedFrom(s: Snapshot, t: Snapshot, z: nat, star: nat, r: int)
    requires Shaped(s) && z < |s.es|
  {
    && (r == 5 ==> t == Prime(s, z))
    && (r == 4 ==>
          && star in s.starred && star < |s.es| && s.es[star].pos.i == s.es[z].pos.i
          && t == Prime(s, z).(coveredRows := s.coveredRows[s.es[z].pos.i := true],
                               coveredColumns := s.coveredColumns[s.es[star].pos.j := false]))
  }

  /** An uncovered zero is neither starred nor primed, and no prime shares its row. */
  lemma UncoveredUnmarked(es: seq<Entry>, starred: set<nat>, primed: set<nat>,
                          coveredRows: seq<bool>, coveredColumns: seq<bool>, z: nat)
    requires Indices(es, starred) && Indices(es, primed) && InBounds(es, |coveredRows|, |coveredColumns|)
    requires StarCover(es, starred, coveredRows, coveredColumns)
    requires PrimeCover(es, primed, coveredRows, coveredColumns, {})
    requires z < |es| && !coveredRows[es[z].pos.i] && !coveredColumns[es[z].pos.j]
    ensures z !in starred && z !in primed
    ensures forall p :: p in primed ==> es[p].pos.i != es[z].pos.i
  {
  }

  lemma PrimeKeepsZeros(es: seq<Entry>, rowAdds: seq<int>, columnAdds: seq<int>, primed: set<nat>, z: nat)
    requires InBounds(es, |rowAdds|, |columnAdds|) && ZerosAt(es, rowAdds, columnAdds, primed)
    requires z < |es| && CostAt(es, rowAdds, columnAdds, z) == 0
    ensures ZerosAt(es, rowAdds, columnAdds, primed + {z})
  {
  }

  lemma UncoverKeepsColumnsStarred(es: seq<Entry>, starred: set<nat>, coveredColumns: seq<bool>, c: nat)
    requires CoveredColumnsStarred(es, starred, coveredColumns) && c < |coveredColumns|
    ensures CoveredColumnsStarred(es, starred, coveredColumns[c := false])
  {
  }

  /** Changing potentials or cover flags, but not their number, keeps the matrix shape. */
  lemma SameShape(es: seq<Entry>, nrows: nat, realColumns: nat, rowAdds: seq<int>, columnAdds: seq<int>,
                  coveredRows: seq<bool>, coveredColumns: seq<bool>,
                  rowAdds': seq<int>, columnAdds': seq<int>, coveredRows': seq<bool>, coveredColumns': seq<bool>)
    requires MatrixShape(es, nrows, realColumns, rowAdds, columnAdds, coveredRows, coveredColumns)
    requires |rowAdds'| == |rowAdds| && |columnAdds'| == |columnAdds|
    requires |coveredRows'| == |coveredRows| && |coveredColumns'| == |coveredColumns|
    ensures MatrixShape(es, nrows, realColumns, rowAdds', columnAdds', coveredRows', coveredColumns')
  {
  }

  lemma PrimeKeepsRowsUnique(es: seq<Entry>, primed: set<nat>, z: nat)
    requires Indices(es, primed) && PrimeRowsUnique(es, primed)
    requires z < |es| && forall p :: p in primed ==> es[p].pos.i != es[z].pos.i
    ensures PrimeRowsUnique(es, primed + {z})
  {
  }

  lemma PrimeKeepsRanked(primed: set<nat>, rank: map<nat, nat>, clock: nat, z: nat)
    requires Ranked(primed, rank, clock) && z !in primed
    ensures Ranked(primed + {z}, rank[z := clock], clock + 1)
  {
  }

  /**
   * Priming an uncovered zero z keeps Chain: a star in z's column has its row
   * covered, so every prime there is older than z; and z cannot sit in the row
   * of a star that shares a prime's column, as such rows are covered.
   */
  lemma PrimeKeepsChain(es: seq<Entry>, starred: set<nat>, primed: set<nat>, rank: map<nat, nat>, clock: nat,
                        coveredRows: seq<bool>, coveredColumns: seq<bool>, z: nat)
    requires Indices(es, starred) && Indices(es, primed) && InBounds(es, |coveredRows|, |coveredColumns|)
    requires Ranked(primed, rank, clock) && Chain(es, starred, primed, rank)
    requires StarCover(es, starred, coveredRows, coveredColumns)
    requires PrimeCover(es, primed, coveredRows, coveredColumns, {})
    requires z < |es| && z !in primed && !coveredRows[es[z].pos.i] && !coveredColumns[es[z].pos.j]
    ensures Chain(es, starred, primed + {z}, rank[z := clock])
  {
    var primed', rank' := primed + {z}, rank[z := clock];
    forall p, a, q |
      p in primed' && a in starred && q in primed' &&
      es[a].pos.j == es[p].pos.j && es[q].pos.i == es[a].pos.i
      ensures rank'[q] < rank'[p]
    {
      assert coveredRows[es[a].pos.i];
    }
  }

  lemma CoverKeepsStarCover(es: seq<Entry>, starred: set<nat>, coveredRows: seq<bool>, coveredColumns: seq<bool>,
                            a: nat)
    requires Indices(es, starred) && InBounds(es, |coveredRows|, |coveredColumns|)
    requires Matching(es, starred) && StarCover(es, starred, coveredRows, coveredColumns)
    requires a in starred
    ensures StarCover(es, starred, coveredRows[es[a].pos.i := true], coveredColumns[es[a].pos.j := false])
  {
  }

  lemma CoverKeepsPrimeCover(es: seq<Entry>, primed: set<nat>, coveredRows: seq<bool>, coveredColumns: seq<bool>,
                             z: nat, c: nat)
    requires Indices(es, primed) && InBounds(es, |coveredRows|, |coveredColumns|)
    requires PrimeCover(es, primed, coveredRows, coveredColumns, {})
    requires z < |es| && !coveredColumns[es[z].pos.j] && c < |coveredColumns|
    ensures PrimeCover(es, primed + {z}, coveredRows[es[z].pos.i := true], coveredColumns[c := false], {})
  {
  }

  lemma CoverKeepsRowsMarked(es: seq<Entry>, starred: set<nat>, primed: set<nat>, coveredRows: seq<bool>,
                             z: nat, a: nat)
    requires CoveredRowsMarked(es, starred, primed, coveredRows)
    requires z < |es| && a in starred && a < |es| && es[a].pos.i == es[z].pos.i
    requires es[z].pos.i < |coveredRows|
    ensures CoveredRowsMarked(es, starred, primed + {z}, coveredRows[es[z].pos.i := true])
  {
    var rows := coveredRows[es[z].pos.i := true];
    forall r | 0 <= r < |rows| && rows[r]
      ensures r in RowsOf(es, primed + {z}) && r in RowsOf(es, starred)
    {
      if r == es[z].pos.i {
        assert es[z].pos.i in RowsOf(es, primed + {z});
        assert es[a].pos.i in RowsOf(es, starred);
      } else {
        assert r in RowsOf(es, primed);
      }
    }
  }

  lemma PrimeKeepsRowsMarked(es: seq<Entry>, starred: set<nat>, primed: set<nat>, coveredRows: seq<bool>, z: nat)
    requires CoveredRowsMarked(es, starred, primed, coveredRows)
    ensures CoveredRowsMarked(es, starred, primed + {z}, coveredRows)
  {
    forall r | 0 <= r < |coveredRows| && coveredRows[r]
      ensures r in RowsOf(es, primed + {z})
    {
      assert r in RowsOf(es, primed);
    }
  }

  /** Priming an uncovered zero keeps the primes in order. */
  lemma PrimeKeepsPrimesOk(es: seq<Entry>, rowAdds: seq<int>, columnAdds: seq<int>,
                           starred: set<nat>, primed: set<nat>, rank: map<nat, nat>, clock: nat,
                           coveredRows: seq<bool>, coveredColumns: seq<bool>, z: nat)
    requires InBounds(es, |rowAdds|, |columnAdds|) && Indices(es, starred) && Indices(es, primed)
    requires InBounds(es, |coveredRows|, |coveredColumns|)
    requires PrimesOk(es, rowAdds, columnAdds, starred, primed, rank, clock)
    requires StarCover(es, starred, coveredRows, coveredColumns)
    requires PrimeCover(es, primed, coveredRows, coveredColumns, {})
    requires z < |es| && CostAt(es, rowAdds, columnAdds, z) == 0
    requires !coveredRows[es[z].pos.i] && !coveredColumns[es[z].pos.j]
    ensures z !in primed && Indices(es, primed + {z})
    ensures PrimesOk(es, rowAdds, columnAdds, starred, primed + {z}, rank[z := clock], clock + 1)
  {
    UncoveredUnmarked(es, starred, primed, coveredRows, coveredColumns, z);
    PrimeKeepsZeros(es, rowAdds, columnAdds, primed, z);
    PrimeKeepsRowsUnique(es, primed, z);
    PrimeKeepsRanked(primed, rank, clock, z);
    PrimeKeepsChain(es, starred, primed, rank, clock, coveredRows, coveredColumns, z);
  }

  /** Covering the primed zero's row and uncovering its star's column keeps the covers in order. */
  lemma CoverKeepsCoversOk(es: seq<Entry>, starred: set<nat>, primed: set<nat>,
                           coveredRows: seq<bool>, coveredColumns: seq<bool>, z: nat, a: nat)
    requires Indices(es, starred) && InBounds(es, |coveredRows|, |coveredColumns|)
    requires Matching(es, starred) && CoversOk(es, starred, primed, coveredRows, coveredColumns)
    requires z < |es| && a in starred && es[a].pos.i == es[z].pos.i
    ensures CoversOk(es, starred, primed + {z},
                     coveredRows[es[z].pos.i := true], coveredColumns[es[a].pos.j := false])
  {
    CoverKeepsStarCover(es, starred, coveredRows, coveredColumns, a);
    CoverKeepsRowsMarked(es, starred, primed, coveredRows, z, a);
    UncoverKeepsColumnsStarred(es, starred, coveredColumns, es[a].pos.j);
  }

  /**
   * Step 4, star a in the primed zero's row: cover that row and uncover a's
   * column; the search invariant is kept.
   */
  lemma PrimeAndCover(s: Snapshot, z: nat, a: nat)
    requires Ready4(s) && z < |s.es|
    requires Cost(s, z) == 0 && !s.coveredRows[s.es[z].pos.i] && !s.coveredColumns[s.es[z].pos.j]
    requires a in s.starred && s.es[a].pos.i == s.es[z].pos.i
    ensures Ready4(Prime(s, z).(coveredRows := s.coveredRows[s.es[z].pos.i := true],
                               coveredColumns := s.coveredColumns[s.es[a].pos.j := false]))
  {
    PrimeKeepsPrimesOk(s.es, s.rowAdds, s.columnAdds, s.starred, s.primed, s.rank, s.clock,
                       s.coveredRows, s.coveredColumns, z);
    CoverKeepsCoversOk(s.es, s.starred, s.primed, s.coveredRows, s.coveredColumns, z, a);
    CoverKeepsPrimeCover(s.es, s.primed, s.coveredRows, s.coveredColumns, z, s.es[a].pos.j);
    SameShape(s.es, s.nrows, s.realColumns, s.rowAdds, s.columnAdds, s.coveredRows, s.coveredColumns,
              s.rowAdds, s.columnAdds, s.coveredRows[s.es[z].pos.i := true], s.coveredColumns[s.es[a].pos.j := false]);
  }

  /** Step 4, no star in the primed zero's row: that prime seeds step 5. */
  lemma PrimeWithoutStar(s: Snapshot, z: nat)
    requires Ready4(s) && z < |s.es|
    requires Cost(s, z) == 0 && !s.coveredRows[s.es[z].pos.i] && !s.coveredColumns[s.es[z].pos.j]
    requires s.es[z].pos.i !in RowsOf(s.es, s.starred)
    ensures Ready5(Prime(s, z))
  {
    PrimeKeepsPrimesOk(s.es, s.rowAdds, s.columnAdds, s.starred, s.primed, s.rank, s.clock,
                       s.coveredRows, s.coveredColumns, z);
    PrimeKeepsRowsMarked(s.es, s.starred, s.primed, s.coveredRows, z);
  }

  // ---------------------------------------------------------------------------
  // Step 6: adjusting the potentials
  // ---------------------------------------------------------------------------

  ghost function AddToCovered(rowAdds: seq<int>, coveredRows: seq<bool>, d: int): (r: seq<int>)
    requires |coveredRows| == |rowAdds|
    ensures |r| == |rowAdds|
  {
    seq(|rowAdds|, i requires 0 <= i < |rowAdds| => rowAdds[i] + (if coveredRows[i] then d else 0))
  }

  ghost function SubtractFromUncovered(columnAdds: seq<int>, coveredColumns: seq<bool>, d: int): (r: seq<int>)
    requires |coveredColumns| == |columnAdds|
    ensures |r| == |columnAdds|
  {
    seq(|columnAdds|, j requires 0 <= j < |columnAdds| => columnAdds[j] - (if !coveredColumns[j] then d else 0))
  }

  /** The state after step 6 with minimum d: +d on covered rows, -d on uncovered columns. */
  ghost function Adjusted(s: Snapshot, d: int): Snapshot
    requires Shaped(s)
  {
    s.(rowAdds := AddToCovered(s.rowAdds, s.coveredRows, d),
       columnAdds := SubtractFromUncovered(s.columnAdds, s.coveredColumns, d))
  }

  /** d is the current value of the uncovered entry at, and no uncovered entry has a smaller one. */
  ghost predicate SmallestUncoveredCost(s: Snapshot, d: int, at: nat)
    requires Shaped(s)
  {
    && at < |s.es| && Open(s.es, s.coveredRows, s.coveredColumns, at)
    && Cost(s, at) == d
    && forall k :: 0 <= k < |s.es| && Open(s.es, s.coveredRows, s.coveredColumns, k) ==> d <= Cost(s, k)
  }

  /** Step 6 moves an entry by +d for a covered row and by -d for an uncovered column. */
  lemma ShiftedCost(es: seq<Entry>, rowAdds: seq<int>, columnAdds: seq<int>,
                    coveredRows: seq<bool>, coveredColumns: seq<bool>, d: int, k: nat)
    requires |coveredRows| == |rowAdds| && |coveredColumns| == |columnAdds|
    requires InBounds(es, |rowAdds|, |columnAdds|) && k < |es|
    ensures CostAt(es, AddToCovered(rowAdds, coveredRows, d), SubtractFromUncovered(columnAdds, coveredColumns, d), k)
      == CostAt(es, rowAdds, columnAdds, k)
         + (if coveredRows[es[k].pos.i] then d else 0) - (if !coveredColumns[es[k].pos.j] then d else 0)
  {
  }

  /** Entries with exactly one line covered keep their value, so zeros there stay zeros. */
  lemma ShiftKeepsZeros(es: seq<Entry>, rowAdds: seq<int>, columnAdds: seq<int>,
                        coveredRows: seq<bool>, coveredColumns: seq<bool>, d: int, S: set<nat>)
    requires |coveredRows| == |rowAdds| && |coveredColumns| == |columnAdds|
    requires InBounds(es, |rowAdds|, |columnAdds|) && Indices(es, S)
    requires ZerosAt(es, rowAdds, columnAdds, S)
    requires forall a :: a in S ==> (coveredRows[es[a].pos.i] <==> !coveredColumns[es[a].pos.j])
    ensures ZerosAt(es, AddToCovered(rowAdds, coveredRows, d), SubtractFromUncovered(columnAdds, coveredColumns, d), S)
  {
    forall a | a in S && a < |es|
      ensures CostAt(es, AddToCovered(rowAdds, coveredRows, d),
                     SubtractFromUncovered(columnAdds, coveredColumns, d), a) == 0
    {
      ShiftedCost(es, rowAdds, columnAdds, coveredRows, coveredColumns, d, a);
    }
  }

  /** With 0 < d at most every uncovered value, no value becomes negative. */
  lemma ShiftKeepsFeasible(es: seq<Entry>, rowAdds: seq<int>, columnAdds: seq<int>,
                           coveredRows: seq<bool>, coveredColumns: seq<bool>, d: int)
    requires |coveredRows| == |rowAdds| && |coveredColumns| == |columnAdds|
    requires InBounds(es, |rowAdds|, |columnAdds|) && Feasible(es, rowAdds, columnAdds) && d > 0
    requires forall k :: 0 <= k < |es| && !coveredRows[es[k].pos.i] && !coveredColumns[es[k].pos.j]
               ==> d <= CostAt(es, rowAdds, columnAdds, k)
    ensures Feasible(es, AddToCovered(rowAdds, coveredRows, d), SubtractFromUncovered(columnAdds, coveredColumns, d))
  {
    forall k | 0 <= k < |es|
      ensures CostAt(es, AddToCovered(rowAdds, coveredRows, d),
                     SubtractFromUncovered(columnAdds, coveredColumns, d), k) >= 0
    {
      ShiftedCost(es, rowAdds, columnAdds, coveredRows, coveredColumns, d, k);
    }
  }

  /**
   * Step 6 with d positive and at most every uncovered value: the values stay
   * non-negative, stars and primes stay zeros, and the search invariant is
   * kept; stars, primes and covers are untouched.
   */
  lemma AdjustKeepsSearch(s: Snapshot, d: int)
    requires Ready6(s) && d > 0
    requires forall k :: 0 <= k < |s.es| && !s.coveredRows[s.es[k].pos.i] && !s.coveredColumns[s.es[k].pos.j]
               ==> d <= Cost(s, k)
    ensures Ready4(Adjusted(s, d))
  {
    var ra, ca := AddToCovered(s.rowAdds, s.coveredRows, d), SubtractFromUncovered(s.columnAdds, s.coveredColumns, d);
    SameShape(s.es, s.nrows, s.realColumns, s.rowAdds, s.columnAdds, s.coveredRows, s.coveredColumns,
              ra, ca, s.coveredRows, s.coveredColumns);
    ShiftKeepsFeasible(s.es, s.rowAdds, s.columnAdds, s.coveredRows, s.coveredColumns, d);
    ShiftKeepsZeros(s.es, s.rowAdds, s.columnAdds, s.coveredRows, s.coveredColumns, d, s.starred);
    ShiftKeepsZeros(s.es, s.rowAdds, s.columnAdds, s.coveredRows, s.coveredColumns, d, s.primed);
  }

  /** An uncovered entry whose value was d becomes an uncovered zero: step 4 makes progress. */
  lemma AdjustMakesZero(s: Snapshot, d: int, k: nat)
    requires Shaped(s) && k < |s.es|
    requires !s.coveredRows[s.es[k].pos.i] && !s.coveredColumns[s.es[k].pos.j] && Cost(s, k) == d
    ensures Shaped(Adjusted(s, d)) && Cost(Adjusted(s, d), k) == 0
  {
    var ra, ca := AddToCovered(s.rowAdds, s.coveredRows, d), SubtractFromUncovered(s.columnAdds, s.coveredColumns, d);
    SameShape(s.es, s.nrows, s.realColumns, s.rowAdds, s.columnAdds, s.coveredRows, s.coveredColumns,
              ra, ca, s.coveredRows, s.coveredColumns);
    ShiftedCost(s.es, s.rowAdds, s.columnAdds, s.coveredRows, s.coveredColumns, d, k);
  }

  /** The filler column of a row without a star holds no star either. */
  lemma FillerColumnFree(es: seq<Entry>, nrows: nat, realColumns: nat, starred: set<nat>, r: nat)
    requires nrows <= |es| && es[|es| - nrows..] == Fillers(nrows, realColumns)
    requires forall k :: 0 <= k < |es| - nrows ==> es[k].pos.j < realColumns
    requires r < nrows && r !in RowsOf(es, starred)
    ensures realColumns + r !in ColumnsOf(es, starred)
  {
    forall a | a in starred && a < |es|
      ensures es[a].pos.j != realColumns + r
    {
      assert es[a].pos.i in RowsOf(es, starred);
    }
  }

  /** With fewer than nrows stars, some row holds no star. */
  lemma RowWithoutStar(es: seq<Entry>, nrows: nat, starred: set<nat>) returns (r: nat)
    requires Matching(es, starred) && |starred| < nrows
    ensures r < nrows && r !in RowsOf(es, starred)
  {
    MatchingLines(es, starred);
    BelowSize(nrows);
    if Below(nrows) <= RowsOf(es, starred) {
      SubsetSize(Below(nrows), RowsOf(es, starred));
    }
    r :| r in Below(nrows) && r !in RowsOf(es, starred);
  }

  /**
   * While fewer than nrows stars exist, the filler of a row without a star
   * has both its row and its column uncovered.
   */
  lemma UncoveredFiller(es: seq<Entry>, nrows: nat, realColumns: nat, rowAdds: seq<int>, columnAdds: seq<int>,
                        coveredRows: seq<bool>, coveredColumns: seq<bool>, starred: set<nat>, primed: set<nat>)
    requires MatrixShape(es, nrows, realColumns, rowAdds, columnAdds, coveredRows, coveredColumns)
    requires Matching(es, starred) && |starred| < nrows
    requires CoveredRowsMarked(es, starred, primed, coveredRows)
    requires CoveredColumnsStarred(es, starred, coveredColumns)
    ensures exists k :: 0 <= k < |es| && !coveredRows[es[k].pos.i] && !coveredColumns[es[k].pos.j]
  {
    var r := RowWithoutStar(es, nrows, starred);
    FillerAt(es, nrows, realColumns, r);
    FillerColumnFree(es, nrows, realColumns, starred, r);
    var f := |es| - nrows + r;
    assert !coveredRows[es[f].pos.i] && !coveredColumns[es[f].pos.j];
  }

  /**
   * At step 6 some entry has both lines uncovered, and all such entries are
   * positive: the assertion in min_uncovered_cost always holds.
   */
  lemma UncoveredEntryExists(s: Snapshot)
    requires Ready6(s)
    ensures exists k :: 0 <= k < |s.es| && Open(s.es, s.coveredRows, s.coveredColumns, k)
    ensures forall k :: 0 <= k < |s.es| && Open(s.es, s.coveredRows, s.coveredColumns, k) ==> Cost(s, k) > 0
  {
    UncoveredFiller(s.es, s.nrows, s.realColumns, s.rowAdds, s.columnAdds, s.coveredRows, s.coveredColumns,
                    s.starred, s.primed);
    var k :| 0 <= k < |s.es| && !s.coveredRows[s.es[k].pos.i] && !s.coveredColumns[s.es[k].pos.j];
    assert Open(s.es, s.coveredRows, s.coveredColumns, k);
  }

  // ---------------------------------------------------------------------------
  // Step 5: augmenting along the alternating chain
  // ---------------------------------------------------------------------------

  /**
   * P[0] (the last prime), S[0], P[1], S[1], ... alternate: S[k] is a star in
   * the column of P[k], P[k+1] a prime in the row of S[k]; primes were set in
   * strictly decreasing order along the chain.
   */
  ghost predicate AltChain(es: seq<Entry>, starred: set<nat>, primed: set<nat>, rank: map<nat, nat>,
                           last: nat, P: seq<nat>, S: seq<nat>)
    requires Indices(es, starred) && Indices(es, primed) && rank.Keys == primed
  {
    && |P| == |S| + 1 && P[0] == last
    && (forall k :: 0 <= k < |P| ==> P[k] in primed)
    && (forall k :: 0 <= k < |S| ==> S[k] in starred)
    && (forall k {:trigger S[k]} :: 0 <= k < |S| ==> es[S[k]].pos.j == es[P[k]].pos.j)
    && (forall k {:trigger S[k]} :: 0 <= k < |S| ==> es[P[k + 1]].pos.i == es[S[k]].pos.i)
    && (forall a, b :: 0 <= a < b < |P| ==> rank[P[b]] < rank[P[a]])
  }

  ghost predicate ChainOf(s: Snapshot, P: seq<nat>, S: seq<nat>)
    requires Shaped(s) && s.rank.Keys == s.primed
  {
    AltChain(s.es, s.starred, s.primed, s.rank, s.last, P, S)
  }

  lemma ChainStart(s: Snapshot)
    requires Ready5(s)
    ensures ChainOf(s, [s.last], [])
  {
  }

  /** A star in the column of the chain's last prime has its row covered, hence primed. */
  lemma ChainStarRowPrimed(es: seq<Entry>, starred: set<nat>, primed: set<nat>, rank: map<nat, nat>,
                           coveredRows: seq<bool>, coveredColumns: seq<bool>, last: nat, P: seq<nat>, S: seq<nat>,
                           a: nat)
    requires Indices(es, starred) && Indices(es, primed) && rank.Keys == primed
    requires InBounds(es, |coveredRows|, |coveredColumns|)
    requires StarCover(es, starred, coveredRows, coveredColumns)
    requires PrimeCover(es, primed, coveredRows, coveredColumns, {last})
    requires last < |es| && !coveredColumns[es[last].pos.j]
    requires CoveredRowsMarked(es, starred, primed, coveredRows)
    requires AltChain(es, starred, primed, rank, last, P, S)
    requires a in starred && es[a].pos.j == es[P[|P| - 1]].pos.j
    ensures es[a].pos.i in RowsOf(es, primed)
  {
    var p := P[|P| - 1];
    if |P| > 1 {
      assert rank[P[|P| - 1]] < rank[P[0]];
      assert !coveredColumns[es[p].pos.j];
    }
    assert coveredRows[es[a].pos.i];
  }

  /** A prime in that star's row that was set before the chain's last prime extends the chain. */
  lemma ChainExtend(es: seq<Entry>, starred: set<nat>, primed: set<nat>, rank: map<nat, nat>,
                    last: nat, P: seq<nat>, S: seq<nat>, a: nat, q: nat)
    requires Indices(es, starred) && Indices(es, primed) && rank.Keys == primed
    requires AltChain(es, starred, primed, rank, last, P, S)
    requires a in starred && es[a].pos.j == es[P[|P| - 1]].pos.j
    requires q in primed && es[q].pos.i == es[a].pos.i && rank[q] < rank[P[|P| - 1]]
    ensures AltChain(es, starred, primed, rank, last, P + [q], S + [a])
  {
    var P', S' := P + [q], S + [a];
    forall x, y | 0 <= x < y < |P'|
      ensures rank[P'[y]] < rank[P'[x]]
    {
      if y == |P| && x < |P| - 1 {
        assert rank[P[|P| - 1]] < rank[P[x]];
      }
    }
  }

  /**
   * Extending the chain from its last prime p through the star a in p's
   * column: a's row holds a prime (the assertion in step 5 holds), and every
   * prime there was set before p (so the chain is finite).
   */
  lemma ChainStep(s: Snapshot, P: seq<nat>, S: seq<nat>, a: nat)
    requires Ready5(s) && ChainOf(s, P, S)
    requires a in s.starred && s.es[a].pos.j == s.es[P[|P| - 1]].pos.j
    ensures s.es[a].pos.i in RowsOf(s.es, s.primed)
    ensures forall q :: q in s.primed && s.es[q].pos.i == s.es[a].pos.i ==>
      s.rank[q] < s.rank[P[|P| - 1]] && ChainOf(s, P + [q], S + [a])
  {
    ChainStarRowPrimed(s.es, s.starred, s.primed, s.rank, s.coveredRows, s.coveredColumns, s.last, P, S, a);
    forall q | q in s.primed && s.es[q].pos.i == s.es[a].pos.i
      ensures s.rank[q] < s.rank[P[|P| - 1]] && ChainOf(s, P + [q], S + [a])
    {
      assert s.rank[q] < s.rank[P[|P| - 1]];
      ChainExtend(s.es, s.starred, s.primed, s.rank, s.last, P, S, a, q);
    }
  }

  /** The primes of the chain are distinct and lie in distinct rows; so are its stars. */
  lemma ChainDistinct(es: seq<Entry>, starred: set<nat>, primed: set<nat>, rank: map<nat, nat>,
                      last: nat, P: seq<nat>, S: seq<nat>)
    requires Indices(es, starred) && Indices(es, primed) && rank.Keys == primed
    requires PrimeRowsUnique(es, primed) && AltChain(es, starred, primed, rank, last, P, S)
    ensures forall a, b :: 0 <= a < b < |P| ==> P[a] != P[b] && es[P[a]].pos.i != es[P[b]].pos.i
    ensures forall a, b :: 0 <= a < b < |S| ==> S[a] != S[b]
  {
    forall a, b | 0 <= a < b < |S|
      ensures S[a] != S[b]
    {
      assert P[a + 1] != P[b + 1];
    }
  }

  /** The elements of a sequence, as a set. */
  ghost function Elements(xs: seq<nat>): set<nat>
  {
    set x | x in xs
  }

  /** A sequence without repetitions has as many distinct elements as positions. */
  lemma {:induction false} DistinctCard(xs: seq<nat>)
    requires forall a, b :: 0 <= a < b < |xs| ==> xs[a] != xs[b]
    ensures |Elements(xs)| == |xs|
  {
    if xs != [] {
      var n := |xs| - 1;
      var front := xs[..n];
      DistinctCard(front);
      assert xs == front + [xs[n]];
      assert Elements(xs) == Elements(front) + {xs[n]};
      assert xs[n] !in Elements(front);
    }
  }

  /** The stars after augmentation: the chain's stars replaced by its primes. */
  ghost function Flip(starred: set<nat>, P: seq<nat>, S: seq<nat>): set<nat>
  {
    (starred - Elements(S)) + Elements(P)
  }

  /** The state after step 5: flip the chain, clear primes and row covers. */
  ghost function Augmented(s: Snapshot, P: seq<nat>, S: seq<nat>): Snapshot
  {
    s.(starred := Flip(s.starred, P, S),
       primed := {}, rank := map[], clock := 0,
       coveredRows := NoneCovered(|s.coveredRows|))
  }

  /** A prime of the chain and a star that stays share no line. */
  lemma PrimeAgainstKept(es: seq<Entry>, starred: set<nat>, primed: set<nat>, rank: map<nat, nat>,
                         last: nat, P: seq<nat>, S: seq<nat>, a: nat, t: nat)
    requires Indices(es, starred) && Indices(es, primed) && rank.Keys == primed
    requires Matching(es, starred) && AltChain(es, starred, primed, rank, last, P, S)
    requires es[last].pos.i !in RowsOf(es, starred)
    requires es[P[|P| - 1]].pos.j !in ColumnsOf(es, starred)
    requires a < |P| && t in starred && t !in S
    ensures es[P[a]].pos.i != es[t].pos.i && es[P[a]].pos.j != es[t].pos.j
  {
    if a > 0 {
      assert S[a - 1] != t;
    } else {
      assert es[t].pos.i in RowsOf(es, starred);
    }
    if a < |P| - 1 {
      assert S[a] != t;
    } else {
      assert es[t].pos.j in ColumnsOf(es, starred);
    }
  }

  /** Two primes of the chain are distinct and lie in distinct rows. */
  lemma PrimeRowsApart(es: seq<Entry>, starred: set<nat>, primed: set<nat>, rank: map<nat, nat>,
                       last: nat, P: seq<nat>, S: seq<nat>, a: nat, b: nat)
    requires Indices(es, starred) && Indices(es, primed) && rank.Keys == primed
    requires PrimeRowsUnique(es, primed) && AltChain(es, starred, primed, rank, last, P, S)
    requires a < b < |P|
    ensures P[a] != P[b] && es[P[a]].pos.i != es[P[b]].pos.i
  {
    assert rank[P[b]] < rank[P[a]];
  }

  /** Two stars of a matching lie in distinct columns, and so do primes sharing their columns. */
  lemma ColumnsApart(es: seq<Entry>, starred: set<nat>, s1: nat, s2: nat, p1: nat, p2: nat)
    requires Matching(es, starred) && s1 in starred && s2 in starred && s1 != s2
    requires p1 < |es| && p2 < |es| && es[s1].pos.j == es[p1].pos.j && es[s2].pos.j == es[p2].pos.j
    ensures es[p1].pos.j != es[p2].pos.j
  {
  }

  /** Two primes of the chain share no line. */
  lemma PrimesApart(es: seq<Entry>, starred: set<nat>, primed: set<nat>, rank: map<nat, nat>,
                    last: nat, P: seq<nat>, S: seq<nat>, a: nat, b: nat)
    requires Indices(es, starred) && Indices(es, primed) && rank.Keys == primed
    requires Matching(es, starred) && PrimeRowsUnique(es, primed)
    requires AltChain(es, starred, primed, rank, last, P, S)
    requires es[P[|P| - 1]].pos.j !in ColumnsOf(es, starred)
    requires a < b < |P|
    ensures es[P[a]].pos.i != es[P[b]].pos.i && es[P[a]].pos.j != es[P[b]].pos.j
  {
    PrimeRowsApart(es, starred, primed, rank, last, P, S, a, b);
    var sa := S[a];
    assert sa in starred && es[sa].pos.j == es[P[a]].pos.j;
    if b < |P| - 1 {
      PrimeRowsApart(es, starred, primed, rank, last, P, S, a + 1, b + 1);
      var sb := S[b];
      assert sb in starred && es[sb].pos.j == es[P[b]].pos.j;
      assert es[sa].pos.i == es[P[a + 1]].pos.i && es[sb].pos.i == es[P[b + 1]].pos.i;
      ColumnsApart(es, starred, sa, sb, P[a], P[b]);
    } else {
      assert es[sa].pos.j in ColumnsOf(es, starred);
    }
  }

  /** The flipped stars share no row and no column. */
  lemma FlipMatching(es: seq<Entry>, starred: set<nat>, primed: set<nat>, rank: map<nat, nat>,
                     last: nat, P: seq<nat>, S: seq<nat>)
    requires Indices(es, starred) && Indices(es, primed) && rank.Keys == primed
    requires Matching(es, starred) && PrimeRowsUnique(es, primed)
    requires AltChain(es, starred, primed, rank, last, P, S)
    requires es[last].pos.i !in RowsOf(es, starred)
    requires es[P[|P| - 1]].pos.j !in ColumnsOf(es, starred)
    ensures Matching(es, Flip(starred, P, S))
  {
    var T := Flip(starred, P, S);
    forall x, y | x in T && y in T && x != y
      ensures es[x].pos.i != es[y].pos.i && es[x].pos.j != es[y].pos.j
    {
      if x in P && y in P {
        var a :| 0 <= a < |P| && P[a] == x;
        var b :| 0 <= b < |P| && P[b] == y;
        if a < b {
          PrimesApart(es, starred, primed, rank, last, P, S, a, b);
        } else {
          PrimesApart(es, starred, primed, rank, last, P, S, b, a);
        }
      } else if x in P {
        var a :| 0 <= a < |P| && P[a] == x;
        PrimeAgainstKept(es, starred, primed, rank, last, P, S, a, y);
      } else if y in P {
        var b :| 0 <= b < |P| && P[b] == y;
        PrimeAgainstKept(es, starred, primed, rank, last, P, S, b, x);
      }
    }
  }

  /** The flipped stars are entries and zeros. */
  lemma FlipZeros(es: seq<Entry>, rowAdds: seq<int>, columnAdds: seq<int>,
                  starred: set<nat>, primed: set<nat>, rank: map<nat, nat>, last: nat, P: seq<nat>, S: seq<nat>)
    requires Indices(es, starred) && Indices(es, primed) && rank.Keys == primed
    requires InBounds(es, |rowAdds|, |columnAdds|)
    requires ZerosAt(es, rowAdds, columnAdds, starred) && ZerosAt(es, rowAdds, columnAdds, primed)
    requires AltChain(es, starred, primed, rank, last, P, S)
    ensures Indices(es, Flip(starred, P, S))
    ensures ZerosAt(es, rowAdds, columnAdds, Flip(starred, P, S))
  {
  }

  lemma FlipCard(A: set<nat>, B: set<nat>, C: set<nat>)
    requires B <= A && C !! A
    ensures |(A - B) + C| == |A| - |B| + |C|
  {
    assert A == (A - B) + B;
  }

  /** Flipping a chain adds exactly one star. */
  lemma FlipSize(es: seq<Entry>, starred: set<nat>, primed: set<nat>, rank: map<nat, nat>,
                 last: nat, P: seq<nat>, S: seq<nat>)
    requires Indices(es, starred) && Indices(es, primed) && rank.Keys == primed
    requires starred !! primed && PrimeRowsUnique(es, primed)
    requires AltChain(es, starred, primed, rank, last, P, S)
    ensures |Flip(starred, P, S)| == |starred| + 1
  {
    ChainDistinct(es, starred, primed, rank, last, P, S);
    DistinctCard(S);
    DistinctCard(P);
    FlipCard(starred, Elements(S), Elements(P));
  }

  /** Augmenting along a chain keeps every starred column starred. */
  lemma {:induction false} FlipKeepsColumns(es: seq<Entry>, starred: set<nat>, primed: set<nat>, rank: map<nat, nat>,
                                             last: nat, P: seq<nat>, S: seq<nat>)
    requires Indices(es, starred) && Indices(es, primed) && rank.Keys == primed
    requires AltChain(es, starred, primed, rank, last, P, S)
    ensures ColumnsOf(es, starred) <= ColumnsOf(es, Flip(starred, P, S))
  {
    forall j | j in ColumnsOf(es, starred)
      ensures j in ColumnsOf(es, Flip(starred, P, S))
    {
      var a :| a in starred && a < |es| && es[a].pos.j == j;
      if a in Elements(S) {
        var k :| 0 <= k < |S| && S[k] == a;
        assert P[k] in Flip(starred, P, S);
      } else {
        assert a in Flip(starred, P, S);
      }
    }
  }

  /** Every column covered before step 5 still holds a star after the flip. */
  lemma FlipKeepsColumnsStarred(es: seq<Entry>, starred: set<nat>, primed: set<nat>, rank: map<nat, nat>,
                                last: nat, P: seq<nat>, S: seq<nat>, coveredColumns: seq<bool>)
    requires Indices(es, starred) && Indices(es, primed) && rank.Keys == primed
    requires AltChain(es, starred, primed, rank, last, P, S)
    requires CoveredColumnsStarred(es, starred, coveredColumns)
    ensures CoveredColumnsStarred(es, Flip(starred, P, S), coveredColumns)
  {
    FlipKeepsColumns(es, starred, primed, rank, last, P, S);
  }

  /**
   * Step 5: the new stars are again a matching of zeros, one larger than
   * before; primes are cleared, all rows uncovered, and every covered column
   * still holds a star, which is what step 3 expects.
   */
  lemma Augment(s: Snapshot, P: seq<nat>, S: seq<nat>)
    requires Ready5(s) && ChainOf(s, P, S)
    requires s.es[P[|P| - 1]].pos.j !in ColumnsOf(s.es, s.starred)
    ensures Ready3(Augmented(s, P, S))
    ensures |Augmented(s, P, S).starred| == |s.starred| + 1
  {
    FlipMatching(s.es, s.starred, s.primed, s.rank, s.last, P, S);
    FlipSize(s.es, s.starred, s.primed, s.rank, s.last, P, S);
    FlipKeepsColumnsStarred(s.es, s.starred, s.primed, s.rank, s.last, P, S, s.coveredColumns);
    FlipZeros(s.es, s.rowAdds, s.columnAdds, s.starred, s.primed, s.rank, s.last, P, S);
    SameShape(s.es, s.nrows, s.realColumns, s.rowAdds, s.columnAdds, s.coveredRows, s.coveredColumns,
              s.rowAdds, s.columnAdds, NoneCovered(|s.coveredRows|), s.coveredColumns);
  }
}
