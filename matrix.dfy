// The sparse matrix of the solver (matrix.h, matrix.cpp): the entry list
// sorted by row and extended with one filler per row, the row and column
// potentials that are added lazily to the stored costs, and the cover flags.

module SparseMatrix {
  import opened Entries

  /** Every entry lies inside an nrows x ncols matrix. */
  predicate InBounds(es: seq<Entry>, nrows: nat, ncols: nat)
  {
    forall k :: 0 <= k < |es| ==> es[k].pos.i < nrows && es[k].pos.j < ncols
  }

  /** Entry k has neither its row nor its column covered. */
  ghost predicate Open(es: seq<Entry>, coveredRows: seq<bool>, coveredColumns: seq<bool>, k: nat)
    requires k < |es| && InBounds(es, |coveredRows|, |coveredColumns|)
  {
    !coveredRows[es[k].pos.i] && !coveredColumns[es[k].pos.j]
  }

  /** The current value of an entry: its stored cost plus its row and column potentials. */
  function Current(e: Entry, rowAdds: seq<int>, columnAdds: seq<int>): Entry
    requires e.pos.i < |rowAdds| && e.pos.j < |columnAdds|
  {
    Entry(e.pos, e.cost + rowAdds[e.pos.i] + columnAdds[e.pos.j])
  }

  /** The current values of all entries, position by position. */
  function CurrentValues(es: seq<Entry>, rowAdds: seq<int>, columnAdds: seq<int>): (r: seq<Entry>)
    requires InBounds(es, |rowAdds|, |columnAdds|)
    ensures |r| == |es|
  {
    seq(|es|, k requires 0 <= k < |es| => Current(es[k], rowAdds, columnAdds))
  }

  /** The entries of vals whose row is r, in their order in vals. */
  function InRow(vals: seq<Entry>, r: nat): seq<Entry>
  {
    if vals == [] then []
    else InRow(vals[..|vals| - 1], r) + (if vals[|vals| - 1].pos.i == r then [vals[|vals| - 1]] else [])
  }

  /** InRow keeps exactly the entries of row r, and in order. */
  lemma {:induction false} InRowMembers(vals: seq<Entry>, r: nat)
    ensures forall e :: e in InRow(vals, r) <==> e in vals && e.pos.i == r
    ensures |InRow(vals, r)| <= |vals|
  {
    if vals != [] {
      var front := vals[..|vals| - 1];
      InRowMembers(front, r);
      assert vals == front + [vals[|vals| - 1]];
    }
  }

  class Matrix {
    const entries: seq<Entry>
    const nrows: nat
    const ncols: nat
    const realColumns: nat
    const coveredRows: array<bool>
    const coveredColumns: array<bool>
    const columnAdds: array<int>
    const rowAdds: array<int>

    /**
     * The shape fixed by the constructor: array sizes, ncols = realColumns + nrows,
     * every entry inside the extended matrix, the input entries in the real
     * columns and the last nrows entries the fillers.
     */
    ghost predicate Valid()
    {
      && rowAdds.Length == nrows && coveredRows.Length == nrows
      && columnAdds.Length == ncols && coveredColumns.Length == ncols
      && rowAdds != columnAdds && coveredRows != coveredColumns
      && ncols == realColumns + nrows
      && nrows <= |entries|
      && InBounds(entries, nrows, ncols)
      && entries[|entries| - nrows..] == Fillers(nrows, realColumns)
      && (forall k :: 0 <= k < |entries| - nrows ==> entries[k].pos.j < realColumns)
    }

    /** Builds the extended matrix; the input must be non-empty (max_element needs an element). */
    constructor (input: seq<Entry>)
      requires |input| > 0
      ensures Valid()
      ensures fresh(rowAdds) && fresh(columnAdds) && fresh(coveredRows) && fresh(coveredColumns)
      ensures nrows == MaxRow(input) + 1 && realColumns == MaxColumn(input) + 1
      ensures |entries| == |input| + nrows
      ensures entries[..|input|] == SortByRow(input)
      ensures entries[|input|..] == Fillers(nrows, realColumns)
      ensures forall r :: 0 <= r < nrows ==> rowAdds[r] == 0 && !coveredRows[r]
      ensures forall j :: 0 <= j < ncols ==> columnAdds[j] == 0 && !coveredColumns[j]
    {
      var sorted := SortByRow(input);
      SortByRowCorrect(input);
      var rows := MaxRow(input) + 1;
      var reals := MaxColumn(input) + 1;
      forall k | 0 <= k < |sorted|
        ensures sorted[k].pos.i < rows && sorted[k].pos.j < reals
      {
        assert sorted[k] in multiset(input);
        var w :| 0 <= w < |input| && input[w] == sorted[k];
      }
      var es := sorted;
      var i := 0;
      while i < rows
        invariant 0 <= i <= rows
        invariant es == sorted + Fillers(i, reals)
      {
        es := es + [Entry(Coords(i, reals + i), BIGVALUE)];
        i := i + 1;
      }
      entries := es;
      nrows := rows;
      realColumns := reals;
      ncols := reals + rows;
      rowAdds := new int[rows](_ => 0);
      columnAdds := new int[reals + rows](_ => 0);
      coveredRows := new bool[rows](_ => false);
      coveredColumns := new bool[reals + rows](_ => false);
      assert es[..|input|] == sorted;
      assert es[|es| - rows..] == Fillers(rows, reals);
    }

    /** The number of stored entries, fillers included (nentries). */
    function NEntries(): (n: nat)
      ensures n == |entries|
    {
      |entries|
    }

    /** Current value of entry index (current_value). */
    function CurrentValue(index: nat): (r: Entry)
      reads rowAdds, columnAdds
      requires Valid() && index < |entries|
      ensures r.pos == entries[index].pos
      ensures r.cost == entries[index].cost + rowAdds[entries[index].pos.i] + columnAdds[entries[index].pos.j]
    {
      Current(entries[index], rowAdds[..], columnAdds[..])
    }

    ghost function Values(): seq<Entry>
      reads rowAdds, columnAdds
      requires Valid()
    {
      CurrentValues(entries, rowAdds[..], columnAdds[..])
    }

    /** Entry index is zero (the EPS test taken as exact zero) with its row and column uncovered. */
    ghost predicate UncoveredZero(index: nat)
      reads rowAdds, columnAdds, coveredRows, coveredColumns
      requires Valid() && index < |entries|
    {
      && CurrentValue(index).cost == 0
      && !coveredRows[entries[index].pos.i]
      && !coveredColumns[entries[index].pos.j]
    }

    /** Entry index has neither its row nor its column covered. */
    ghost predicate Uncovered(index: nat)
      reads coveredRows, coveredColumns
      requires Valid() && index < |entries|
    {
      Open(entries, coveredRows[..], coveredColumns[..], index)
    }

    /** Returns the current-value entries of row rowindex, in storage order. */
    method Row(rowindex: nat) returns (res: seq<Entry>)
      requires Valid()
      ensures res == InRow(Values(), rowindex)
      ensures forall e :: e in res ==> e.pos.i == rowindex
    {
      res := [];
      ghost var vals := Values();
      for index := 0 to |entries|
        invariant res == InRow(vals[..index], rowindex)
      {
        var e := CurrentValue(index);
        assert vals[..index + 1] == vals[..index] + [e];
        if e.pos.i == rowindex {
          res := res + [e];
        }
      }
      assert vals[..|entries|] == vals;
      InRowMembers(vals, rowindex);
    }

    /** Returns the current values of all entries, position by position. */
    method GetValues() returns (res: seq<Entry>)
      requires Valid()
      ensures |res| == |entries|
      ensures forall k :: 0 <= k < |entries| ==> res[k].pos == entries[k].pos
      ensures forall k :: 0 <= k < |entries| ==>
        res[k].cost == entries[k].cost + rowAdds[entries[k].pos.i] + columnAdds[entries[k].pos.j]
    {
      res := [];
      for index := 0 to |entries|
        invariant |res| == index
        invariant forall k :: 0 <= k < index ==> res[k] == CurrentValue(k)
      {
        var e := CurrentValue(index);
        res := res + [e];
      }
    }

    /** Shifts the current value of every entry of column colindex by value. */
    method AddToColumn(colindex: nat, value: int)
      requires Valid() && colindex < ncols
      modifies columnAdds
      ensures columnAdds[..] == old(columnAdds[..])[colindex := old(columnAdds[colindex]) + value]
      ensures forall k :: 0 <= k < |entries| ==>
        CurrentValue(k).cost == old(CurrentValue(k).cost) + (if entries[k].pos.j == colindex then value else 0)
    {
      columnAdds[colindex] := columnAdds[colindex] + value;
    }

    /** Shifts the current value of every entry of row rowindex by value. */
    method AddToRow(rowindex: nat, value: int)
      requires Valid() && rowindex < nrows
      modifies rowAdds
      ensures rowAdds[..] == old(rowAdds[..])[rowindex := old(rowAdds[rowindex]) + value]
      ensures forall k :: 0 <= k < |entries| ==>
        CurrentValue(k).cost == old(CurrentValue(k).cost) + (if entries[k].pos.i == rowindex then value else 0)
    {
      rowAdds[rowindex] := rowAdds[rowindex] + value;
    }

    /** The indices of all zero entries, covered or not, in increasing order. */
    method Zeros() returns (res: seq<nat>)
      requires Valid()
      ensures forall k: nat :: k in res <==> k < |entries| && CurrentValue(k).cost == 0
      ensures forall a, b :: 0 <= a < b < |res| ==> res[a] < res[b]
    {
      res := [];
      for index := 0 to |entries|
        invariant forall k: nat :: k in res <==> k < index && CurrentValue(k).cost == 0
        invariant forall a, b :: 0 <= a < b < |res| ==> res[a] < res[b]
        invariant forall a :: 0 <= a < |res| ==> res[a] < index
      {
        var e := CurrentValue(index);
        if e.cost == 0 {
          res := res + [index];
        }
      }
    }

    /** The first uncovered zero in storage order, or None (NOTFOUND) when there is none. */
    method FindUncoveredZero() returns (r: Option<nat>)
      requires Valid()
      ensures r.Some? ==> r.value < |entries| && UncoveredZero(r.value)
      ensures r.Some? ==> forall k :: 0 <= k < r.value ==> !UncoveredZero(k)
      ensures r.None? ==> forall k :: 0 <= k < |entries| ==> !UncoveredZero(k)
    {
      for index := 0 to |entries|
        invariant forall k :: 0 <= k < index ==> !UncoveredZero(k)
      {
        var e := CurrentValue(index);
        if e.cost == 0 && !coveredRows[e.pos.i] && !coveredColumns[e.pos.j] {
          return Some(index);
        }
      }
      return None;
    }

    /**
     * The minimum current value over the entries whose row and column are both
     * uncovered. The source asserts that this minimum is finite and above EPS;
     * None stands for that assertion failing.
     */
    method MinUncoveredCost() returns (r: Option<int>)
      requires Valid()
      ensures r.Some? ==> r.value > 0
      ensures r.Some? ==> exists k :: 0 <= k < |entries| && Uncovered(k) && CurrentValue(k).cost == r.value
      ensures r.Some? ==> forall k :: 0 <= k < |entries| && Uncovered(k) ==> r.value <= CurrentValue(k).cost
      ensures r.None? <==>
        (forall k :: 0 <= k < |entries| ==> !Uncovered(k)) ||
        (exists k :: 0 <= k < |entries| && Uncovered(k) && CurrentValue(k).cost <= 0)
    {
      var minval: Option<int> := None;
      for index := 0 to |entries|
        invariant minval.None? <==> forall k :: 0 <= k < index ==> !Uncovered(k)
        invariant minval.Some? ==> exists k :: 0 <= k < index && Uncovered(k) && CurrentValue(k).cost == minval.value
        invariant minval.Some? ==> forall k :: 0 <= k < index && Uncovered(k) ==> minval.value <= CurrentValue(k).cost
      {
        var e := CurrentValue(index);
        var covered := coveredRows[e.pos.i] || coveredColumns[e.pos.j];
        assert !covered <==> Uncovered(index);
        if !covered && (minval.None? || minval.value > e.cost) {
          minval := Some(e.cost);
        }
      }
      if minval.Some? && minval.value > 0 {
        r := minval;
      } else {
        r := None;
      }
    }
  }
}
