// The value types shared by the sparse matrix and the solver (matrix.h):
// coordinates, entries, the sentinel constants, and the two library calls the
// matrix constructor relies on (sorting by row and taking a maximum).

module Entries {

  /** Cost of the synthetic filler entry appended for every row (BIGVALUE = 1e10). */
  const BIGVALUE: int := 10_000_000_000

  /** A cell of the matrix: row i, column j (unsigned in the source). */
  datatype Coords = Coords(i: nat, j: nat)

  /** One finite, known cost at a cell. Absent cells are infeasible, not zero. */
  datatype Entry = Entry(pos: Coords, cost: int)

  /** Stands for the NOTFOUND index and the INF cost of the source. */
  datatype Option<T> = None | Some(value: T)

  // ---------------------------------------------------------------------------
  // Sorting by row (std::sort with sort_by_i)
  // ---------------------------------------------------------------------------

  predicate SortedByRow(s: seq<Entry>)
  {
    forall a, b :: 0 <= a < b < |s| ==> s[a].pos.i <= s[b].pos.i
  }

  /** Inserts e before the first entry whose row is not smaller. */
  function InsertByRow(e: Entry, s: seq<Entry>): (r: seq<Entry>)
    ensures |r| == |s| + 1
    ensures multiset(r) == multiset(s) + multiset{e}
  {
    if s == [] then [e]
    else if e.pos.i <= s[0].pos.i then [e] + s
    else
      assert s == [s[0]] + s[1..];
      [s[0]] + InsertByRow(e, s[1..])
  }

  /**
   * One row-sorted permutation of s. std::sort is not stable, so the source
   * only promises what SortByRowCorrect states: sorted by row, same multiset.
   */
  function SortByRow(s: seq<Entry>): (r: seq<Entry>)
    ensures |r| == |s|
  {
    if s == [] then [] else InsertByRow(s[0], SortByRow(s[1..]))
  }

  /** Inserting e keeps every row at least lo when e's row and all of s's rows are. */
  lemma {:induction false} InsertByRowAbove(e: Entry, s: seq<Entry>, lo: nat)
    requires lo <= e.pos.i && forall k :: 0 <= k < |s| ==> lo <= s[k].pos.i
    ensures forall k :: 0 <= k < |InsertByRow(e, s)| ==> lo <= InsertByRow(e, s)[k].pos.i
  {
    if s != [] && e.pos.i > s[0].pos.i {
      InsertByRowAbove(e, s[1..], lo);
    }
  }

  lemma {:induction false} InsertByRowSorted(e: Entry, s: seq<Entry>)
    requires SortedByRow(s)
    ensures SortedByRow(InsertByRow(e, s))
  {
    if s != [] && e.pos.i > s[0].pos.i {
      InsertByRowSorted(e, s[1..]);
      InsertByRowAbove(e, s[1..], s[0].pos.i);
    }
  }

  /** The sorted entries are the input entries, sorted by row. */
  lemma {:induction false} SortByRowCorrect(s: seq<Entry>)
    ensures SortedByRow(SortByRow(s))
    ensures multiset(SortByRow(s)) == multiset(s)
  {
    if s != [] {
      SortByRowCorrect(s[1..]);
      InsertByRowSorted(s[0], SortByRow(s[1..]));
      assert s == [s[0]] + s[1..];
    }
  }

  // ---------------------------------------------------------------------------
  // Dimensions (std::max_element with sort_by_i / sort_by_j)
  // ---------------------------------------------------------------------------

  /** The largest row index in a non-empty entry list. */
  function MaxRow(s: seq<Entry>): (m: nat)
    requires |s| > 0
    ensures forall k :: 0 <= k < |s| ==> s[k].pos.i <= m
    ensures exists k :: 0 <= k < |s| && s[k].pos.i == m
  {
    if |s| == 1 then s[0].pos.i
    else
      var rest := MaxRow(s[1..]);
      assert forall k :: 1 <= k < |s| ==> s[k] == s[1..][k - 1];
      if s[0].pos.i >= rest then s[0].pos.i
      else
        var w :| 0 <= w < |s[1..]| && s[1..][w].pos.i == rest;
        assert s[w + 1].pos.i == rest;
        rest
  }

  /** The largest column index in a non-empty entry list. */
  function MaxColumn(s: seq<Entry>): (m: nat)
    requires |s| > 0
    ensures forall k :: 0 <= k < |s| ==> s[k].pos.j <= m
    ensures exists k :: 0 <= k < |s| && s[k].pos.j == m
  {
    if |s| == 1 then s[0].pos.j
    else
      var rest := MaxColumn(s[1..]);
      assert forall k :: 1 <= k < |s| ==> s[k] == s[1..][k - 1];
      if s[0].pos.j >= rest then s[0].pos.j
      else
        var w :| 0 <= w < |s[1..]| && s[1..][w].pos.j == rest;
        assert s[w + 1].pos.j == rest;
        rest
  }

  // ---------------------------------------------------------------------------
  // Fillers
  // ---------------------------------------------------------------------------

  /** The filler entries: row i gets one entry at column realColumns + i, cost BIGVALUE. */
  function Fillers(nrows: nat, realColumns: nat): (r: seq<Entry>)
    ensures |r| == nrows
  {
    seq(nrows, i requires 0 <= i < nrows => Entry(Coords(i, realColumns + i), BIGVALUE))
  }
}
