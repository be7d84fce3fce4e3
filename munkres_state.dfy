// The solver's state as a value (a snapshot of the matrix arrays and the
// starred/primed sets), the invariant that holds on entry to each of the six
// steps, and the lemmas that carry those invariants across each step
// (munkres.cpp, Munkres::step_1 .. step_6).

module MunkresState {
  import opened Entries
  import opened SparseMatrix

  /**
   * The solver state: the extended matrix (entries, dimensions, potentials and
   * cover flags as sequences) and the marks. rank and clock are proof-only:
   * rank[p] is the order in which prime p was set since the last augmentation.
   */
  datatype Snapshot = Snapshot(
    es: seq<Entry>, nrows: nat, realColumns: nat,
    rowAdds: seq<int>, columnAdds: seq<int>,
    coveredRows: seq<bool>, coveredColumns: seq<bool>,
    starred: set<nat>, primed: set<nat>,
    rank: map<nat, nat>, clock: nat, last: nat)

  /** The matrix shape the constructor establishes. */
  ghost predicate MatrixShape(es: seq<Entry>, nrows: nat, realColumns: nat,
                              rowAdds: seq<int>, columnAdds: seq<int>,
                              coveredRows: seq<bool>, coveredColumns: seq<bool>)
  {
    && |rowAdds| == nrows && |coveredRows| == nrows
    && |columnAdds| == realColumns + nrows && |coveredColumns| == realColumns + nrows
    && nrows <= |es|
    && InBounds(es, nrows, realColumns + nrows)
    && es[|es| - nrows..] == Fillers(nrows, realColumns)
    && (forall k :: 0 <= k < |es| - nrows ==> es[k].pos.j < realColumns)
  }

  /** Every index of S is an entry. */
  ghost predicate Indices(es: seq<Entry>, S: set<nat>)
  {
    forall a :: a in S ==> a < |es|
  }

  /** The shape of the matrix, and marks that index entries. */
  ghost predicate Shaped(s: Snapshot)
  {
    && MatrixShape(s.es, s.nrows, s.realColumns, s.rowAdds, s.columnAdds, s.coveredRows, s.coveredColumns)
    && Indices(s.es, s.starred) && Indices(s.es, s.primed)
  }

  /** The current value of entry k, from the entries and the potentials alone. */
  ghost function CostAt(es: seq<Entry>, rowAdds: seq<int>, columnAdds: seq<int>, k: nat): int
    requires k < |es| && InBounds(es, |rowAdds|, |columnAdds|)
  {
    Current(es[k], rowAdds, columnAdds).cost
  }

  ghost function Cost(s: Snapshot, k: nat): int
    requires Shaped(s) && k < |s.es|
  {
    CostAt(s.es, s.rowAdds, s.columnAdds, k)
  }

  /** No two indices of S share a row or a column. */
  ghost predicate Matching(es: seq<Entry>, S: set<nat>)
  {
    && Indices(es, S)
    && (forall a, b :: a in S && b in S && a != b ==>
          es[a].pos.i != es[b].pos.i && es[a].pos.j != es[b].pos.j)
  }

  ghost function RowsOf(es: seq<Entry>, S: set<nat>): set<nat>
  {
    set a | a in S && a < |es| :: es[a].pos.i
  }

  ghost function ColumnsOf(es: seq<Entry>, S: set<nat>): set<nat>
  {
    set a | a in S && a < |es| :: es[a].pos.j
  }

  lemma ColumnsOfAdd(es: seq<Entry>, S: set<nat>, a: nat)
    requires a < |es|
    ensures ColumnsOf(es, S + {a}) == ColumnsOf(es, S) + {es[a].pos.j}
  {
  }

  lemma RowsOfAdd(es: seq<Entry>, S: set<nat>, a: nat)
    requires a < |es|
    ensures RowsOf(es, S + {a}) == RowsOf(es, S) + {es[a].pos.i}
  {
  }

  /** Dual feasibility: no current value is negative. */
  ghost predicate Feasible(es: seq<Entry>, rowAdds: seq<int>, columnAdds: seq<int>)
    requires InBounds(es, |rowAdds|, |columnAdds|)
  {
    forall k :: 0 <= k < |es| ==> CostAt(es, rowAdds, columnAdds, k) >= 0
  }

  /** Every entry indexed by S is currently zero. */
  ghost predicate ZerosAt(es: seq<Entry>, rowAdds: seq<int>, columnAdds: seq<int>, S: set<nat>)
    requires InBounds(es, |rowAdds|, |columnAdds|)
  {
    forall a :: a in S && a < |es| ==> CostAt(es, rowAdds, columnAdds, a) == 0
  }

  ghost predicate NoneSet(flags: seq<bool>)
  {
    forall r :: 0 <= r < |flags| ==> !flags[r]
  }

  /** n lines, none of them covered. */
  function NoneCovered(n: nat): (flags: seq<bool>)
    ensures |flags| == n && NoneSet(flags)
  {
    seq(n, _ => false)
  }

  /** Every covered column holds a starred zero. */
  ghost predicate CoveredColumnsStarred(es: seq<Entry>, starred: set<nat>, coveredColumns: seq<bool>)
  {
    forall j :: 0 <= j < |coveredColumns| && coveredColumns[j] ==> j in ColumnsOf(es, starred)
  }

  /** A starred zero has exactly one of its row and its column covered. */
  ghost predicate StarCover(es: seq<Entry>, starred: set<nat>, coveredRows: seq<bool>, coveredColumns: seq<bool>)
    requires Indices(es, starred) && InBounds(es, |coveredRows|, |coveredColumns|)
  {
    forall a :: a in starred ==>
      (coveredRows[es[a].pos.i] <==> !coveredColumns[es[a].pos.j])
  }

  /** Every primed zero outside exempt lies in a covered row and an uncovered column. */
  ghost predicate PrimeCover(es: seq<Entry>, primed: set<nat>, coveredRows: seq<bool>, coveredColumns: seq<bool>,
                             exempt: set<nat>)
    requires Indices(es, primed) && InBounds(es, |coveredRows|, |coveredColumns|)
  {
    forall p :: p in primed && p !in exempt ==>
      coveredRows[es[p].pos.i] && !coveredColumns[es[p].pos.j]
  }

  /** No two primes share a row. */
  ghost predicate PrimeRowsUnique(es: seq<Entry>, primed: set<nat>)
    requires Indices(es, primed)
  {
    forall p, q :: p in primed && q in primed && es[p].pos.i == es[q].pos.i ==> p == q
  }

  /** A row is covered only after a zero in it was primed, and only when it holds a star. */
  ghost predicate CoveredRowsMarked(es: seq<Entry>, starred: set<nat>, primed: set<nat>, coveredRows: seq<bool>)
  {
    forall r :: 0 <= r < |coveredRows| && coveredRows[r] ==>
      r in RowsOf(es, primed) && r in RowsOf(es, starred)
  }

  ghost predicate Ranked(primed: set<nat>, rank: map<nat, nat>, clock: nat)
  {
    && rank.Keys == primed
    && forall p :: p in primed ==> rank[p] < clock
  }

  /**
   * The fact behind the termination of step 5: when a star shares the column
   * of prime p, every prime in that star's row was set before p.
   */
  ghost predicate Chain(es: seq<Entry>, starred: set<nat>, primed: set<nat>, rank: map<nat, nat>)
    requires Indices(es, starred) && Indices(es, primed) && rank.Keys == primed
  {
    forall p, a, q ::
      (p in primed && a in starred && q in primed &&
       es[a].pos.j == es[p].pos.j && es[q].pos.i == es[a].pos.i) ==>
      rank[q] < rank[p]
  }

  /** On entry to step 1: a fresh matrix, nothing marked or covered. */
  ghost predicate Ready1(s: Snapshot)
  {
    && Shaped(s)
    && s.starred == {} && s.primed == {}
    && NoneSet(s.coveredRows) && NoneSet(s.coveredColumns)
  }

  /** On entry to step 2: as for step 1, and every current value is non-negative. */
  ghost predicate Ready2(s: Snapshot)
  {
    Ready1(s) && Feasible(s.es, s.rowAdds, s.columnAdds)
  }

  /** The stars are a matching of zeros and no current value is negative. */
  ghost predicate StarsOk(s: Snapshot)
  {
    && Shaped(s)
    && Matching(s.es, s.starred)
    && ZerosAt(s.es, s.rowAdds, s.columnAdds, s.starred)
    && Feasible(s.es, s.rowAdds, s.columnAdds)
  }

  /** On entry to step 3: the stars are a matching of zeros, no prime, no covered row. */
  ghost predicate Ready3(s: Snapshot)
  {
    && StarsOk(s)
    && s.primed == {} && s.rank == map[] && s.clock == 0
    && NoneSet(s.coveredRows) && CoveredColumnsStarred(s.es, s.starred, s.coveredColumns)
  }

  /** The primes are zeros apart from the stars, one per row, ranked by the order they were set. */
  ghost predicate PrimesOk(es: seq<Entry>, rowAdds: seq<int>, columnAdds: seq<int>,
                           starred: set<nat>, primed: set<nat>, rank: map<nat, nat>, clock: nat)
    requires InBounds(es, |rowAdds|, |columnAdds|) && Indices(es, starred) && Indices(es, primed)
  {
    && ZerosAt(es, rowAdds, columnAdds, primed)
    && starred !! primed
    && PrimeRowsUnique(es, primed)
    && Ranked(primed, rank, clock)
    && Chain(es, starred, primed, rank)
  }

  /** How the cover flags relate to the marks. */
  ghost predicate CoversOk(es: seq<Entry>, starred: set<nat>, primed: set<nat>,
                           coveredRows: seq<bool>, coveredColumns: seq<bool>)
    requires Indices(es, starred) && InBounds(es, |coveredRows|, |coveredColumns|)
  {
    && StarCover(es, starred, coveredRows, coveredColumns)
    && CoveredRowsMarked(es, starred, primed, coveredRows)
    && CoveredColumnsStarred(es, starred, coveredColumns)
  }

  /** What holds throughout steps 4 to 6. */
  ghost predicate Searching(s: Snapshot)
  {
    && StarsOk(s)
    && |s.starred| < s.nrows
    && PrimesOk(s.es, s.rowAdds, s.columnAdds, s.starred, s.primed, s.rank, s.clock)
    && CoversOk(s.es, s.starred, s.primed, s.coveredRows, s.coveredColumns)
  }

  /** On entry to step 4 (and on exit from step 6). */
  ghost predicate Ready4(s: Snapshot)
  {
    Searching(s) && PrimeCover(s.es, s.primed, s.coveredRows, s.coveredColumns, {})
  }

  /** On entry to step 5: the last prime is an uncovered zero in a row without a star. */
  ghost predicate Ready5(s: Snapshot)
  {
    && Searching(s) && PrimeCover(s.es, s.primed, s.coveredRows, s.coveredColumns, {s.last})
    && s.last in s.primed
    && !s.coveredRows[s.es[s.last].pos.i] && !s.coveredColumns[s.es[s.last].pos.j]
    && s.es[s.last].pos.i !in RowsOf(s.es, s.starred)
  }

  /** No entry is a zero with its row and its column uncovered. */
  ghost predicate NoUncoveredZero(es: seq<Entry>, rowAdds: seq<int>, columnAdds: seq<int>,
                                  coveredRows: seq<bool>, coveredColumns: seq<bool>)
    requires InBounds(es, |rowAdds|, |columnAdds|) && InBounds(es, |coveredRows|, |coveredColumns|)
  {
    forall k :: 0 <= k < |es| ==>
      !(CostAt(es, rowAdds, columnAdds, k) == 0 && !coveredRows[es[k].pos.i] && !coveredColumns[es[k].pos.j])
  }

  /** Entry z is the first zero, in storage order, with its row and its column uncovered. */
  ghost predicate FirstUncoveredZero(s: Snapshot, z: nat)
    requires Shaped(s)
  {
    && z < |s.es|
    && Cost(s, z) == 0 && !s.coveredRows[s.es[z].pos.i] && !s.coveredColumns[s.es[z].pos.j]
    && forall k :: 0 <= k < z ==>
         !(Cost(s, k) == 0 && !s.coveredRows[s.es[k].pos.i] && !s.coveredColumns[s.es[k].pos.j])
  }

  /** On entry to step 6: as for step 4, and no uncovered zero is left. */
  ghost predicate Ready6(s: Snapshot)
  {
    && Ready4(s)
    && NoUncoveredZero(s.es, s.rowAdds, s.columnAdds, s.coveredRows, s.coveredColumns)
  }

  /** When step 3 stops: the stars are a perfect matching of zeros of the extended matrix. */
  ghost predicate Finished(s: Snapshot)
  {
    StarsOk(s) && |s.starred| == s.nrows && s.primed == {}
  }

  /** The invariant on entry to step next; -1 is the terminal state. */
  ghost predicate Ready(s: Snapshot, next: int)
  {
    match next
    case 1 => Ready1(s)
    case 2 => Ready2(s)
    case 3 => Ready3(s)
    case 4 => Ready4(s)
    case 5 => Ready5(s)
    case 6 => Ready6(s)
    case -1 => Finished(s)
    case _ => false
  }

  // ---------------------------------------------------------------------------
  // The driver's termination measure, compared lexicographically
  // ---------------------------------------------------------------------------

  /** Stars still missing; steps 1 and 2 rank above every later state. */
  ghost function StarsToGo(s: Snapshot, next: int): int
  {
    if next == 1 || next == 2 then s.nrows + 1 else s.nrows - |s.starred|
  }

  /** Rows that can still receive a prime. */
  ghost function PrimesToGo(s: Snapshot): int
  {
    s.nrows - |s.primed|
  }

  /**
   * The order of the steps between two changes of the stars or primes:
   * 1, 2, 3, then step 4 with no uncovered zero, 6, and step 4 right after
   * step 6, which always finds an uncovered zero.
   */
  ghost function StepRank(s: Snapshot, next: int): nat
  {
    match next
    case 1 => 5
    case 2 => 4
    case 3 => 3
    case 4 =>
      if Shaped(s) && NoUncoveredZero(s.es, s.rowAdds, s.columnAdds, s.coveredRows, s.coveredColumns)
      then 2 else 0
    case 6 => 1
    case _ => 0
  }

  /** The measure of state t about to run step tnext is below that of s about to run snext. */
  ghost predicate Precedes(t: Snapshot, tnext: int, s: Snapshot, snext: int)
  {
    var a, a', b, b' := StarsToGo(s, snext), StarsToGo(t, tnext), PrimesToGo(s), PrimesToGo(t);
    var c, c' := StepRank(s, snext), StepRank(t, tnext);
    && 0 <= a' && 0 <= b' && 0 <= a && 0 <= b
    && (a' < a || (a' == a && (b' < b || (b' == b && c' < c))))
  }

  lemma Step1Progress(s: Snapshot, t: Snapshot)
    requires Ready1(s) && Ready2(t) && t.nrows == s.nrows
    ensures Precedes(t, 2, s, 1)
  {
  }

  lemma Step2Progress(s: Snapshot, t: Snapshot)
    requires Ready2(s) && Ready3(t) && t.nrows == s.nrows
    ensures Precedes(t, 3, s, 2)
  {
    ReadyBounds(t, 3);
  }

  lemma Step3Progress(s: Snapshot, t: Snapshot, next: int)
    requires Ready3(s) && Ready(t, next) && (next == -1 || next == 4)
    requires t.nrows == s.nrows && t.starred == s.starred && t.primed == s.primed
    ensures Precedes(t, next, s, 3)
  {
    ReadyBounds(s, 3);
  }

  lemma Step4Progress(s: Snapshot, t: Snapshot, next: int)
    requires Ready4(s) && Ready(t, next) && (next == 5 || next == 6)
    requires t.nrows == s.nrows && t.starred == s.starred && s.primed <= t.primed
    requires next == 5 ==> |t.primed| > |s.primed|
    requires |t.primed| == |s.primed| ==> t == s
    ensures Precedes(t, next, s, 4)
  {
    ReadyBounds(s, 4);
    ReadyBounds(t, next);
    SubsetSize(s.primed, t.primed);
  }

  lemma Step5Progress(s: Snapshot, t: Snapshot)
    requires Ready5(s) && Ready3(t)
    requires t.nrows == s.nrows && |t.starred| == |s.starred| + 1
    ensures Precedes(t, 3, s, 5)
  {
    ReadyBounds(t, 3);
    ReadyBounds(s, 5);
  }

  lemma Step6Progress(s: Snapshot, t: Snapshot)
    requires Ready6(s) && Ready4(t)
    requires t.nrows == s.nrows && t.starred == s.starred && t.primed == s.primed
    requires !NoUncoveredZero(t.es, t.rowAdds, t.columnAdds, t.coveredRows, t.coveredColumns)
    ensures Precedes(t, 4, s, 6)
  {
    ReadyBounds(s, 6);
  }

  // ---------------------------------------------------------------------------
  // Counting
  // ---------------------------------------------------------------------------

  function CountTrue(flags: seq<bool>): nat
  {
    if flags == [] then 0
    else CountTrue(flags[..|flags| - 1]) + (if flags[|flags| - 1] then 1 else 0)
  }

  ghost function TrueAt(flags: seq<bool>): set<nat>
  {
    set j | 0 <= j < |flags| && flags[j]
  }

  /** CountTrue counts the set positions. */
  lemma {:induction false} CountTrueIsCard(flags: seq<bool>)
    ensures CountTrue(flags) == |TrueAt(flags)|
  {
    if flags != [] {
      var n := |flags| - 1;
      var front := flags[..n];
      CountTrueIsCard(front);
      if flags[n] {
        assert TrueAt(flags) == TrueAt(front) + {n};
      } else {
        assert TrueAt(flags) == TrueAt(front);
      }
    }
  }

  /** The numbers below n. */
  ghost function Below(n: nat): set<nat>
  {
    if n == 0 then {} else Below(n - 1) + {n - 1}
  }

  lemma {:induction false} BelowSize(n: nat)
    ensures forall x: nat :: x in Below(n) <==> x < n
    ensures |Below(n)| == n
  {
    if n > 0 {
      BelowSize(n - 1);
      assert n - 1 !in Below(n - 1);
    }
  }

  lemma {:induction false} SubsetSize(A: set<nat>, B: set<nat>)
    requires A <= B
    ensures |A| <= |B|
  {
    if A != {} {
      var x :| x in A;
      SubsetSize(A - {x}, B - {x});
    }
  }

  /** A matching of S has as many distinct rows, and as many distinct columns, as S has indices. */
  lemma {:induction false} MatchingLines(es: seq<Entry>, S: set<nat>)
    requires Matching(es, S)
    ensures |RowsOf(es, S)| == |S| && |ColumnsOf(es, S)| == |S|
  {
    if S != {} {
      var x :| x in S;
      var rest := S - {x};
      MatchingLines(es, rest);
      assert S == rest + {x};
      RowsOfAdd(es, rest, x);
      ColumnsOfAdd(es, rest, x);
      assert es[x].pos.i !in RowsOf(es, rest);
      assert es[x].pos.j !in ColumnsOf(es, rest);
    }
  }

  /** A matching in an nrows-row matrix has at most nrows entries. */
  lemma MatchingBound(s: Snapshot, S: set<nat>)
    requires MatrixShape(s.es, s.nrows, s.realColumns, s.rowAdds, s.columnAdds, s.coveredRows, s.coveredColumns)
    requires Matching(s.es, S)
    ensures |S| <= s.nrows
  {
    MatchingLines(s.es, S);
    BelowSize(s.nrows);
    assert RowsOf(s.es, S) <= Below(s.nrows);
    SubsetSize(RowsOf(s.es, S), Below(s.nrows));
  }

  /** Primes in distinct rows occupy as many rows as there are primes. */
  lemma {:induction false} UniqueRowsCount(es: seq<Entry>, S: set<nat>)
    requires Indices(es, S) && PrimeRowsUnique(es, S)
    ensures |RowsOf(es, S)| == |S|
  {
    if S != {} {
      var x :| x in S;
      var rest := S - {x};
      UniqueRowsCount(es, rest);
      assert RowsOf(es, S) == RowsOf(es, rest) + {es[x].pos.i};
      assert es[x].pos.i !in RowsOf(es, rest);
    }
  }

  /** There are at most nrows primes, one per row. */
  lemma PrimesBound(s: Snapshot)
    requires Shaped(s) && PrimeRowsUnique(s.es, s.primed)
    ensures |s.primed| <= s.nrows
  {
    UniqueRowsCount(s.es, s.primed);
    BelowSize(s.nrows);
    assert RowsOf(s.es, s.primed) <= Below(s.nrows);
    SubsetSize(RowsOf(s.es, s.primed), Below(s.nrows));
  }

  /** In every state the driver can reach, stars and primes number at most nrows. */
  lemma ReadyBounds(s: Snapshot, next: int)
    requires Ready(s, next)
    ensures |s.starred| <= s.nrows && |s.primed| <= s.nrows
  {
    assert Shaped(s) && Matching(s.es, s.starred);
    MatchingBound(s, s.starred);
    if next == 4 || next == 5 || next == 6 {
      PrimesBound(s);
    }
  }
}
