// Sums of an integer function over a finite set of indices, with the few
// laws the optimality argument needs: removing one element, splitting a
// disjoint union, adding functions pointwise, bounds, and re-indexing
// through an injective map.

module SetSums {

  /** A fixed element of a non-empty set, the one Sum peels off first. */
  ghost function Pick(S: set<nat>): (x: nat)
    requires S != {}
    ensures x in S
  {
    var x :| x in S; x
  }

  /** The sum of f over S. */
  ghost function Sum(S: set<nat>, f: nat -> int): int
    decreases S
  {
    if S == {} then 0 else f(Pick(S)) + Sum(S - {Pick(S)}, f)
  }

  /** Any element can be peeled off first. */
  lemma {:induction false} SumRemove(S: set<nat>, f: nat -> int, y: nat)
    requires y in S
    ensures Sum(S, f) == f(y) + Sum(S - {y}, f)
    decreases |S|
  {
    var x := Pick(S);
    if x != y {
      SumRemove(S - {x}, f, y);
      SumRemove(S - {y}, f, x);
      assert S - {x} - {y} == S - {y} - {x};
    }
  }

  /** The sum over a disjoint union is the sum of the sums. */
  lemma {:induction false} SumSplit(A: set<nat>, B: set<nat>, f: nat -> int)
    requires A !! B
    ensures Sum(A + B, f) == Sum(A, f) + Sum(B, f)
    decreases |A|
  {
    if A == {} {
      assert A + B == B;
    } else {
      var y := Pick(A);
      SumRemove(A + B, f, y);
      assert (A + B) - {y} == (A - {y}) + B;
      SumSplit(A - {y}, B, f);
    }
  }

  /** Sums add up pointwise: h = f + g + k on S gives Sum h = Sum f + Sum g + Sum k. */
  lemma {:induction false} SumAdd(S: set<nat>, f: nat -> int, g: nat -> int, k: nat -> int, h: nat -> int)
    requires forall x :: x in S ==> h(x) == f(x) + g(x) + k(x)
    ensures Sum(S, h) == Sum(S, f) + Sum(S, g) + Sum(S, k)
    decreases |S|
  {
    if S != {} {
      SumAdd(S - {Pick(S)}, f, g, k, h);
    }
  }

  /** A lower bound on every term bounds the sum, and equal terms give |S| times the term. */
  lemma {:induction false} SumBound(S: set<nat>, f: nat -> int, c: int)
    requires forall x :: x in S ==> f(x) >= c
    ensures Sum(S, f) >= |S| * c
    ensures (forall x :: x in S ==> f(x) == c) ==> Sum(S, f) == |S| * c
    decreases |S|
  {
    if S != {} {
      var x := Pick(S);
      SumBound(S - {x}, f, c);
      assert |S| * c == |S - {x}| * c + c;
    }
  }

  /** The image of S under g. */
  ghost function Image(S: set<nat>, g: nat -> nat): set<nat>
  {
    set a | a in S :: g(a)
  }

  /**
   * Re-indexing: when g is one-to-one on S and fg(a) = f(g(a)), summing fg
   * over S is summing f over the image of S.
   */
  lemma {:induction false} SumImage(S: set<nat>, g: nat -> nat, f: nat -> int, fg: nat -> int)
    requires forall a, b :: a in S && b in S && g(a) == g(b) ==> a == b
    requires forall a :: a in S ==> fg(a) == f(g(a))
    ensures Sum(S, fg) == Sum(Image(S, g), f)
    decreases |S|
  {
    if S == {} {
      assert Image(S, g) == {};
    } else {
      var y := Pick(S);
      SumImage(S - {y}, g, f, fg);
      assert Image(S, g) - {g(y)} == Image(S - {y}, g);
      SumRemove(Image(S, g), f, g(y));
    }
  }

  /**
   * Exchanging the elements of A outside B for as many of B outside A does
   * not lower the sum when the former all take the least value c.
   */
  lemma SumExchange(A: set<nat>, B: set<nat>, f: nat -> int, c: int)
    requires |A| == |B|
    requires forall x :: x in A - B ==> f(x) == c
    requires forall x :: x in B ==> f(x) >= c
    ensures Sum(A, f) <= Sum(B, f)
  {
    assert A == (A * B) + (A - B);
    assert B == (A * B) + (B - A);
    SumSplit(A * B, A - B, f);
    SumSplit(A * B, B - A, f);
    SumBound(A - B, f, c);
    SumBound(B - A, f, c);
  }

  /** A map that is one-to-one on S has an image as large as S. */
  lemma CountImage(S: set<nat>, g: nat -> nat)
    requires forall a, b :: a in S && b in S && g(a) == g(b) ==> a == b
    ensures |Image(S, g)| == |S|
  {
    var one := (x: nat) => 1;
    SumImage(S, g, one, one);
    SumBound(S, one, 1);
    SumBound(Image(S, g), one, 1);
  }
}
