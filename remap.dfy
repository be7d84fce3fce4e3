// The free function munkres(vector<entry>&) of munkres.cpp: renumber the
// rows and the columns that occur in the input densely, in order of first
// appearance, solve the renumbered problem, and map the answer back.

module Remap {
  import opened Entries
  import opened MunkresState
  import opened MunkresSolver

  /** The row of every entry, in order. */
  function RowsIn(es: seq<Entry>): (r: seq<nat>)
    ensures |r| == |es| && forall k :: 0 <= k < |es| ==> r[k] == es[k].pos.i
  {
    seq(|es|, k requires 0 <= k < |es| => es[k].pos.i)
  }

  /** The column of every entry, in order. */
  function ColumnsIn(es: seq<Entry>): (r: seq<nat>)
    ensures |r| == |es| && forall k :: 0 <= k < |es| ==> r[k] == es[k].pos.j
  {
    seq(|es|, k requires 0 <= k < |es| => es[k].pos.j)
  }

  /** No value occurs twice. */
  predicate Distinct(xs: seq<nat>)
  {
    forall a, b :: 0 <= a < b < |xs| ==> xs[a] != xs[b]
  }

  /**
   * The values of xs without repetition, in order of first appearance: the
   * vector i_map (or j_map) that the renumbering builds.
   */
  function FirstSeen(xs: seq<nat>): (r: seq<nat>)
    ensures Distinct(r)
    ensures forall x :: x in r <==> x in xs
    ensures |r| <= |xs|
  {
    if xs == [] then []
    else
      var front := FirstSeen(xs[..|xs| - 1]);
      var x := xs[|xs| - 1];
      assert forall y :: y in xs <==> y in xs[..|xs| - 1] || y == x;
      if x in front then front else front + [x]
  }

  /** Extending a prefix of the entries by one extends its rows and its columns by one. */
  lemma LinesSnoc(es: seq<Entry>, n: nat)
    requires n < |es|
    ensures RowsIn(es[..n + 1]) == RowsIn(es[..n]) + [es[n].pos.i]
    ensures ColumnsIn(es[..n + 1]) == ColumnsIn(es[..n]) + [es[n].pos.j]
  {
  }

  /** FirstSeen grows by x exactly when x is new. */
  lemma FirstSeenSnoc(xs: seq<nat>, x: nat)
    ensures FirstSeen(xs + [x]) == if x in FirstSeen(xs) then FirstSeen(xs) else FirstSeen(xs) + [x]
  {
    assert (xs + [x])[..|xs|] == xs;
  }

  /** rmap is the inverse of seen: it gives every value of seen its position there. */
  ghost predicate Inverse(rmap: map<nat, nat>, seen: seq<nat>)
  {
    && (forall x :: x in rmap <==> x in seen)
    && (forall x :: x in rmap ==> rmap[x] < |seen| && seen[rmap[x]] == x)
  }

  /**
   * Over a sequence without repetition the inverse works both ways: the
   * number of seen[k] is k (i_rmap[i_map[k]] == k beside i_map[i_rmap[x]] == x).
   */
  lemma InverseTwoSided(rmap: map<nat, nat>, seen: seq<nat>)
    requires Inverse(rmap, seen) && Distinct(seen)
    ensures forall k :: 0 <= k < |seen| ==> seen[k] in rmap && rmap[seen[k]] == k
  {
    forall k | 0 <= k < |seen|
      ensures seen[k] in rmap && rmap[seen[k]] == k
    {
      assert seen[k] in seen;
      var m := rmap[seen[k]];
      assert seen[m] == seen[k];
    }
  }

  /**
   * One lookup of the renumbering loop (i_rmap.find, then push_back on a
   * miss): the new number of x, assigning the next free one when x is new.
   */
  method Lookup(rmap: map<nat, nat>, seen: seq<nat>, x: nat) returns (m: nat, rmap': map<nat, nat>, seen': seq<nat>)
    requires Inverse(rmap, seen)
    ensures Inverse(rmap', seen')
    ensures seen' == if x in seen then seen else seen + [x]
    ensures m < |seen'| && seen'[m] == x && seen <= seen'
  {
    if x !in rmap {
      m := |seen|;
      seen' := seen + [x];
      rmap' := rmap[x := m];
    } else {
      m := rmap[x];
      seen', rmap' := seen, rmap;
    }
  }

  /**
   * Entry k of remapped is entry k of original with its row and column
   * replaced by their positions in iMap and jMap, and its cost kept.
   */
  ghost predicate Renumbered(remapped: seq<Entry>, original: seq<Entry>, iMap: seq<nat>, jMap: seq<nat>)
  {
    && |remapped| == |original|
    && forall k :: 0 <= k < |original| ==>
      && remapped[k].cost == original[k].cost
      && remapped[k].pos.i < |iMap| && iMap[remapped[k].pos.i] == original[k].pos.i
      && remapped[k].pos.j < |jMap| && jMap[remapped[k].pos.j] == original[k].pos.j
  }

  /** Renumbering one more entry, while the maps only grow at the end, keeps Renumbered. */
  lemma RenumberedSnoc(remapped: seq<Entry>, entries: seq<Entry>, n: nat, iMap: seq<nat>, jMap: seq<nat>,
                       iMap': seq<nat>, jMap': seq<nat>, mi: nat, mj: nat)
    requires n < |entries| && Renumbered(remapped, entries[..n], iMap, jMap)
    requires iMap <= iMap' && jMap <= jMap'
    requires mi < |iMap'| && iMap'[mi] == entries[n].pos.i && mj < |jMap'| && jMap'[mj] == entries[n].pos.j
    ensures Renumbered(remapped + [Entry(Coords(mi, mj), entries[n].cost)], entries[..n + 1], iMap', jMap')
  {
  }

  /**
   * The renumbering loop: the i-th new row number stands for the i-th
   * distinct row of the input, and likewise for columns; costs are kept.
   */
  method Renumber(entries: seq<Entry>)
    returns (remapped: seq<Entry>, iMap: seq<nat>, jMap: seq<nat>, iRmap: map<nat, nat>, jRmap: map<nat, nat>)
    ensures iMap == FirstSeen(RowsIn(entries)) && jMap == FirstSeen(ColumnsIn(entries))
    ensures Inverse(iRmap, iMap) && Inverse(jRmap, jMap)
    ensures Renumbered(remapped, entries, iMap, jMap)
  {
    iRmap, jRmap := map[], map[];
    iMap, jMap, remapped := [], [], [];
    for index := 0 to |entries|
      invariant iMap == FirstSeen(RowsIn(entries[..index])) && jMap == FirstSeen(ColumnsIn(entries[..index]))
      invariant Inverse(iRmap, iMap) && Inverse(jRmap, jMap)
      invariant Renumbered(remapped, entries[..index], iMap, jMap)
    {
      var e := entries[index];
      LinesSnoc(entries, index);
      FirstSeenSnoc(RowsIn(entries[..index]), e.pos.i);
      FirstSeenSnoc(ColumnsIn(entries[..index]), e.pos.j);
      var mi, mj;
      ghost var iMap0, jMap0 := iMap, jMap;
      mi, iRmap, iMap := Lookup(iRmap, iMap, e.pos.i);
      mj, jRmap, jMap := Lookup(jRmap, jMap, e.pos.j);
      RenumberedSnoc(remapped, entries, index, iMap0, jMap0, iMap, jMap, mi, mj);
      remapped := remapped + [Entry(Coords(mi, mj), e.cost)];
    }
    assert entries[..|entries|] == entries;
  }

  /**
   * One axis of the renumbering: renamed[k] is the number that ids assigns to
   * given[k], where ids lists the distinct values of given.
   */
  lemma {:induction false} DenseIds(given: seq<nat>, renamed: seq<nat>, ids: seq<nat>)
    requires ids == FirstSeen(given) && |renamed| == |given|
    requires forall k :: 0 <= k < |given| ==> renamed[k] < |ids| && ids[renamed[k]] == given[k]
    ensures forall m :: 0 <= m < |ids| ==> m in renamed
    ensures forall a, b :: 0 <= a < |given| && 0 <= b < |given| ==> (renamed[a] == renamed[b] <==> given[a] == given[b])
  {
    forall m | 0 <= m < |ids|
      ensures m in renamed
    {
      assert ids[m] in given;
      var k :| 0 <= k < |given| && given[k] == ids[m];
      assert ids[renamed[k]] == ids[m];
    }
    forall a, b | 0 <= a < |given| && 0 <= b < |given| && given[a] == given[b]
      ensures renamed[a] == renamed[b]
    {
      assert ids[renamed[a]] == ids[renamed[b]];
    }
  }

  /**
   * The renumbering leaves no empty row or column: every new row number and
   * every new column number is used by some renumbered entry, and two
   * entries share a new row (column) exactly when they share an original one.
   */
  lemma {:induction false} NoEmptyLines(entries: seq<Entry>, remapped: seq<Entry>, iMap: seq<nat>, jMap: seq<nat>)
    requires iMap == FirstSeen(RowsIn(entries)) && jMap == FirstSeen(ColumnsIn(entries))
    requires Renumbered(remapped, entries, iMap, jMap)
    ensures forall m :: 0 <= m < |iMap| ==> m in RowsIn(remapped)
    ensures forall m :: 0 <= m < |jMap| ==> m in ColumnsIn(remapped)
    ensures forall a, b :: 0 <= a < |entries| && 0 <= b < |entries| ==>
      (remapped[a].pos.i == remapped[b].pos.i <==> entries[a].pos.i == entries[b].pos.i)
    ensures forall a, b :: 0 <= a < |entries| && 0 <= b < |entries| ==>
      (remapped[a].pos.j == remapped[b].pos.j <==> entries[a].pos.j == entries[b].pos.j)
  {
    DenseIds(RowsIn(entries), RowsIn(remapped), iMap);
    DenseIds(ColumnsIn(entries), ColumnsIn(remapped), jMap);
  }

  /** The loop that maps the solver's answer back to the input's row and column numbers. */
  method MapBack(optimal: seq<Entry>, iMap: seq<nat>, jMap: seq<nat>) returns (res: seq<Entry>)
    requires forall e :: e in optimal ==> e.pos.i < |iMap| && e.pos.j < |jMap|
    ensures |res| == |optimal|
    ensures forall x :: 0 <= x < |optimal| ==>
      res[x] == Entry(Coords(iMap[optimal[x].pos.i], jMap[optimal[x].pos.j]), optimal[x].cost)
  {
    res := [];
    for index := 0 to |optimal|
      invariant |res| == index
      invariant forall x :: 0 <= x < index ==>
        res[x] == Entry(Coords(iMap[optimal[x].pos.i], jMap[optimal[x].pos.j]), optimal[x].cost)
    {
      var e := optimal[index];
      assert e in optimal;
      res := res + [Entry(Coords(iMap[e.pos.i], jMap[e.pos.j]), e.cost)];
    }
  }

  /** Munkres m(remapped); m.munkres(): an assignment drawn from the renumbered entries. */
  method SolveDense(remapped: seq<Entry>) returns (solved: seq<Entry>)
    requires |remapped| > 0
    ensures OneToOne(solved)
    ensures forall e :: e in solved ==> e in remapped
  {
    var m := new Munkres(remapped);
    solved := m.Solve();
  }

  /**
   * munkres(entries): the entries of an optimal assignment of the sparse
   * problem, in the input's own row and column numbers. The input must be
   * non-empty: the source takes the maximum of the renumbered rows.
   */
  method Solve(entries: seq<Entry>) returns (optimal: seq<Entry>)
    requires |entries| > 0
    ensures OneToOne(optimal)
    ensures forall e :: e in optimal ==> e in entries
  {
    var remapped, iMap, jMap, _, _ := Renumber(entries);
    var solved := SolveDense(remapped);
    forall e | e in solved
      ensures e.pos.i < |iMap| && e.pos.j < |jMap|
    {
      var k :| 0 <= k < |remapped| && remapped[k] == e;
    }
    optimal := MapBack(solved, iMap, jMap);
    forall x | 0 <= x < |optimal|
      ensures optimal[x] in entries
    {
      assert solved[x] in solved;
      var k :| 0 <= k < |remapped| && remapped[k] == solved[x];
      assert optimal[x] == entries[k];
    }
    forall x, y | 0 <= x < y < |optimal|
      ensures optimal[x].pos.i != optimal[y].pos.i && optimal[x].pos.j != optimal[y].pos.j
    {
      assert solved[x].pos.i != solved[y].pos.i && solved[x].pos.j != solved[y].pos.j;
      assert solved[x] in solved && solved[y] in solved;
      assert iMap[solved[x].pos.i] != iMap[solved[y].pos.i];
      assert jMap[solved[x].pos.j] != jMap[solved[y].pos.j];
    }
  }
}
