/** The bottom-up traversal that the rewriting passes share, working in place on a shared graph. */
module SimplifyingVisitor {
  import opened ExprTrees
  import opened ExprGraph

  // ----- what every step of a traversal keeps -----

  ghost predicate StaysClean(pass: Pass, g: Graph, g': Graph, o: Expr)
    requires Closed(g) && Closed(g') && o in g && o in g'
  {
    Clean(pass, g, o) ==> Clean(pass, g', o) && (Redex(pass, g', o) ==> Redex(pass, g, o))
  }

  /** From `g` to `g'`: normal forms kept, clean nodes left clean, nothing of rank `r` or more touched. */
  ghost predicate Progress(pass: Pass, g: Graph, g': Graph, r: nat) {
    && Good(g) && Good(g') && Evolves(pass, g, g') && g.Keys <= g'.Keys
    && (forall o {:trigger StaysClean(pass, g, g', o)} :: o in g ==> StaysClean(pass, g, g', o))
    && (forall o {:trigger g'[o]} :: o in g && g[o].rank >= r ==> g'[o] == g[o])
  }

  lemma {:induction false} ProgressTwice(pass: Pass, g0: Graph, g1: Graph, g2: Graph, r1: nat, r2: nat)
    requires Progress(pass, g0, g1, r1) && Progress(pass, g1, g2, r2)
    ensures Progress(pass, g0, g2, if r1 < r2 then r2 else r1)
  {
    EvolvesTwice(pass, g0, g1, g2);
    forall o | o in g0
      ensures StaysClean(pass, g0, g2, o)
    {
      assert StaysClean(pass, g0, g1, o);
      assert StaysClean(pass, g1, g2, o);
    }
    forall o | o in g0 && g0[o].rank >= (if r1 < r2 then r2 else r1)
      ensures g2[o] == g0[o]
    {
      assert g1[o] == g0[o];
    }
  }

  lemma {:induction false} NoProgress(pass: Pass, g: Graph, r: nat)
    requires Good(g)
    ensures Progress(pass, g, g, r)
  {
    EvolvesNot(pass, g);
  }

  /** The result of simplifying `c`, as a graph and a node. */
  ghost predicate Simplified(pass: Pass, g: Graph, c: Expr, g': Graph, x: Expr)
    requires Closed(g) && c in g
  {
    assert KidsBelow(g, c);
    if !Redex(pass, g, c) then g' == g && x == c
    else
      var y := g[g[c].kids[0]].kids[0];
      match pass
      case RefDeref => g' == g && x == y
      case Arrowify => x !in g && g' == WithNode(g, x, Cell(Arrow(g[c].kind.i), [y], g[c].rank))
  }

  lemma {:induction false} UnaryTree(g: Graph, c: Expr)
    requires Closed(g) && c in g && |g[c].kids| == 1
    ensures KidsBelow(g, c) && TreeOf(g, c) == Tree(g[c].kind, [TreeOf(g, g[c].kids[0])])
  {
    assert KidsBelow(g, c);
    assert TreeOf(g, c).kids == [TreeOf(g, g[c].kids[0])];
  }

  /** What replaces a child stands for the same normal form, and for an lvalue if need be. */
  lemma {:induction false} SimplifiedReplaces(pass: Pass, g: Graph, n: Expr, i: nat, g': Graph, x: Expr)
    requires Good(g) && n in g && i < |g[n].kids| && KidsBelow(g, n) && Simplified(pass, g, g[n].kids[i], g', x)
    ensures Good(g') && Evolves(pass, g, g') && Replaces(pass, g', n, i, x)
    ensures forall o :: o in g ==> o in g' && g'[o] == g[o] && TreeOf(g', o) == TreeOf(g, o)
  {
    var c := g[n].kids[i];
    EvolvesNot(pass, g);
    if Redex(pass, g, c) {
      assert KidsBelow(g, c);
      var d := g[c].kids[0];
      assert KidsBelow(g, d);
      var y := g[d].kids[0];
      UnaryTree(g, c);
      UnaryTree(g, d);
      if pass.RefDeref? {
        PairCancels(g[c].kind, TreeOf(g, y));
        assert OperandFits(g, d);
      } else {
        ArrowReplaces(g[c].kind.i, TreeOf(g, y));
        WithNodeEvolves(pass, g, x, Cell(Arrow(g[c].kind.i), [y], g[c].rank));
      }
    }
  }

  /** A new node above a clean, simplified one is clean itself, and old nodes do not notice it. */
  lemma {:induction false} CleanAside(pass: Pass, g: Graph, n: Expr, c: Cell, o: Expr)
    requires Closed(g) && n !in g && Closed(WithNode(g, n, c)) && o in g
    ensures Clean(pass, WithNode(g, n, c), o) == Clean(pass, g, o) && Redex(pass, WithNode(g, n, c), o) == Redex(pass, g, o)
    decreases g[o].rank
  {
    var g' := WithNode(g, n, c);
    assert KidsBelow(g, o) && KidsBelow(g', o);
    forall j | 0 <= j < |g[o].kids|
      ensures Clean(pass, g', g[o].kids[j]) == Clean(pass, g, g[o].kids[j])
      ensures Redex(pass, g', g[o].kids[j]) == Redex(pass, g, g[o].kids[j])
    {
      CleanAside(pass, g, n, c, g[o].kids[j]);
    }
    assert Tidy(pass, g', o) == Tidy(pass, g, o);
  }

  lemma {:induction false} SimplifiedProgress(pass: Pass, g: Graph, n: Expr, i: nat, g': Graph, x: Expr)
    requires Good(g) && n in g && i < |g[n].kids| && KidsBelow(g, n) && Simplified(pass, g, g[n].kids[i], g', x)
    ensures Progress(pass, g, g', 0)
  {
    SimplifiedReplaces(pass, g, n, i, g', x);
    var c := g[n].kids[i];
    forall o | o in g
      ensures StaysClean(pass, g, g', o)
    {
      if pass.Arrowify? && Redex(pass, g, c) {
        assert KidsBelow(g, c);
        CleanAside(pass, g, x, Cell(Arrow(g[c].kind.i), [g[g[c].kids[0]].kids[0]], g[c].rank), o);
      }
    }
  }

  /** A clean child is replaced by something clean that cannot be simplified again. */
  lemma {:induction false} SimplifiedClean(pass: Pass, g: Graph, n: Expr, i: nat, g': Graph, x: Expr)
    requires Good(g) && n in g && i < |g[n].kids| && KidsBelow(g, n) && Simplified(pass, g, g[n].kids[i], g', x)
    requires Clean(pass, g, g[n].kids[i])
    ensures Good(g') && x in g' && Clean(pass, g', x) && !Redex(pass, g', x)
  {
    SimplifiedReplaces(pass, g, n, i, g', x);
    var c := g[n].kids[i];
    if Redex(pass, g, c) {
      GrandchildClean(pass, g, c);
      if pass.Arrowify? {
        var y := g[g[c].kids[0]].kids[0];
        CleanAside(pass, g, x, Cell(Arrow(g[c].kind.i), [y], g[c].rank), y);
        assert KidsBelow(g', x);
        assert Tidy(pass, g', x);
      }
    }
  }

  /** The whole step: simplify child `i` of `n` and store the result. */
  lemma {:induction false} StepProgress(pass: Pass, g: Graph, n: Expr, i: nat, g': Graph, x: Expr)
    requires Good(g) && n in g && i < |g[n].kids| && KidsBelow(g, n) && Simplified(pass, g, g[n].kids[i], g', x)
    requires SimplifiesKids(g[n].kind)
    ensures n in g' && g'[n] == g[n]
    ensures var h := WithKid(g', n, i, x); Progress(pass, g, h, g[n].rank + 1) && h[n].kids == g[n].kids[i := x]
  {
    SimplifiedReplaces(pass, g, n, i, g', x);
    SimplifiedProgress(pass, g, n, i, g', x);
    var h := WithKid(g', n, i, x);
    WithKidEvolves(pass, g', n, i, x);
    if !Redex(pass, g, g[n].kids[i]) {
      assert g[n].kids[i := x] == g[n].kids;
      assert h == g;
      NoProgress(pass, g, g[n].rank + 1);
    } else {
      assert !Tidy(pass, g', n) by {
        assert Redex(pass, g', g'[n].kids[i]) by {
          RedexSeen(pass, g, g', g[n].kids[i]);
        }
      }
      forall o | o in g'
        ensures StaysClean(pass, g', h, o)
      {
        if Clean(pass, g', o) {
          CleanStays(pass, g', n, i, x, o);
          assert KidsBelow(g', o) && KidsBelow(h, o);
        }
      }
      ProgressTwice(pass, g, g', h, 0, g[n].rank + 1);
    }
  }

  lemma {:induction false} RedexSeen(pass: Pass, g: Graph, g': Graph, c: Expr)
    requires Closed(g) && Closed(g') && c in g && Redex(pass, g, c)
    requires forall o :: o in g ==> o in g' && g'[o] == g[o]
    ensures Redex(pass, g', c)
  {
    assert KidsBelow(g, c) && KidsBelow(g', c);
  }

  /** After the step the other children of `n` are as clean and as simplified as before. */
  lemma {:induction false} StepOnKids(pass: Pass, g: Graph, n: Expr, i: nat, g': Graph, x: Expr, j: nat)
    requires Good(g) && n in g && i < |g[n].kids| && j < |g[n].kids| && KidsBelow(g, n)
    requires Simplified(pass, g, g[n].kids[i], g', x) && SimplifiesKids(g[n].kind) && n in g' && g'[n] == g[n]
    requires Clean(pass, g, g[n].kids[j])
    requires var h := WithKid(g', n, i, x); Progress(pass, g, h, g[n].rank + 1)
    ensures var h := WithKid(g', n, i, x);
            && h[n].kids[j] in h && Clean(pass, h, h[n].kids[j])
            && (j == i || !Redex(pass, g, g[n].kids[j]) ==> !Redex(pass, h, h[n].kids[j]))
  {
    var h := WithKid(g', n, i, x);
    if j == i {
      SimplifiedClean(pass, g, n, i, g', x);
      SimplifiedReplaces(pass, g, n, i, g', x);
      assert KidsBelow(h, n);
      CleanBelow(pass, g', h, g[n].rank, x);
    } else {
      assert StaysClean(pass, g, h, g[n].kids[j]);
    }
  }

  lemma {:induction false} CleanBelow(pass: Pass, g: Graph, g': Graph, r: nat, o: Expr)
    requires Closed(g) && Closed(g') && o in g && g[o].rank < r
    requires forall p :: p in g && g[p].rank < r ==> p in g' && g'[p] == g[p]
    ensures o in g' && Clean(pass, g', o) == Clean(pass, g, o) && Redex(pass, g', o) == Redex(pass, g, o)
    decreases g[o].rank
  {
    assert KidsBelow(g, o) && KidsBelow(g', o);
    forall j | 0 <= j < |g[o].kids|
      ensures Clean(pass, g', g[o].kids[j]) == Clean(pass, g, g[o].kids[j])
      ensures Redex(pass, g', g[o].kids[j]) == Redex(pass, g, g[o].kids[j])
    {
      CleanBelow(pass, g, g', r, g[o].kids[j]);
    }
    assert Tidy(pass, g', o) == Tidy(pass, g, o);
  }

  // ----- the traversal -----

  /** Nodes whose children are all visited before any is simplified; others take them in turn. */
  predicate Batch(k: Kind) {
    k.Index? || k.Shift? || k.Gep? || k.Select? || k.Assign? || k.LogicalAnd? || k.LogicalOr? || k.Op?
  }

  /** The first `i` children are done. */
  ghost predicate Done(pass: Pass, g: Graph, n: Expr, i: nat, simplified: bool)
    requires Closed(g) && n in g && i <= |g[n].kids|
  {
    assert KidsBelow(g, n);
    forall j :: 0 <= j < i ==> Clean(pass, g, g[n].kids[j]) && (simplified ==> !Redex(pass, g, g[n].kids[j]))
  }

  lemma {:induction false} DoneStays(pass: Pass, g: Graph, g': Graph, r: nat, n: Expr, i: nat, simplified: bool)
    requires Progress(pass, g, g', r) && n in g && g[n].rank >= r && i <= |g[n].kids| && Done(pass, g, n, i, simplified)
    ensures n in g' && g'[n] == g[n] && Done(pass, g', n, i, simplified)
  {
    assert KidsBelow(g, n) && KidsBelow(g', n);
    assert g'[n] == g[n];
    forall j | 0 <= j < i
      ensures Clean(pass, g', g[n].kids[j]) && (simplified ==> !Redex(pass, g', g[n].kids[j]))
    {
      assert StaysClean(pass, g, g', g[n].kids[j]);
    }
  }

  /** A visit of `n`: everything it reaches is clean, and a settled graph is not changed. */
  ghost predicate Visited(pass: Pass, g: Graph, g': Graph, n: Expr) {
    && n in g && Progress(pass, g, g', g[n].rank + 1) && Clean(pass, g', n)
    && (Settled(pass, g, n) ==> g' == g)
    && (g[n].kind.Extract? ==> g'[n] == g[n])
    && (g[n].kind.Initializer? ==> KidsOnce(pass, g, g', n))
  }

  ghost predicate KidsOnce(pass: Pass, g: Graph, g': Graph, n: Expr)
    requires Closed(g) && Closed(g') && n in g && n in g'
  {
    && KidsBelow(g, n) && KidsBelow(g', n) && |g'[n].kids| == |g[n].kids|
    && forall i :: 0 <= i < |g[n].kids| ==> TreeOf(g', g'[n].kids[i]) == Once(pass, TreeOf(g, g[n].kids[i]))
  }

  /** Child `i` of `n` is simplified once; the other children, and all nodes below, are as before. */
  ghost predicate KidReplaced(pass: Pass, g: Graph, g': Graph, n: Expr, i: nat)
    requires Closed(g) && Closed(g')
  {
    && n in g && n in g' && i < |g[n].kids| && i < |g'[n].kids| && KidsBelow(g, n) && KidsBelow(g', n)
    && g'[n].kids == g[n].kids[i := g'[n].kids[i]]
    && TreeOf(g', g'[n].kids[i]) == Once(pass, TreeOf(g, g[n].kids[i]))
    && forall o {:trigger TreeOf(g', o)} :: o in g && g[o].rank < g[n].rank ==> o in g' && TreeOf(g', o) == TreeOf(g, o)
  }

  ghost predicate KidVisited(pass: Pass, g: Graph, g': Graph, n: Expr, i: nat, m: nat) {
    && n in g && i < |g[n].kids| && m <= |g[n].kids|
    && Progress(pass, g, g', g[n].rank) && g'[n] == g[n] && KidsBelow(g, n) && KidsBelow(g', n)
    && Clean(pass, g', g[n].kids[i])
    && (Done(pass, g, n, m, false) ==> Done(pass, g', n, m, false))
    && (Done(pass, g, n, m, true) ==> Done(pass, g', n, m, true))
    && (Settled(pass, g, g[n].kids[i]) ==> g' == g)
  }

  ghost predicate KidDone(pass: Pass, g: Graph, g': Graph, n: Expr, i: nat, m: nat) {
    && n in g && i < m <= |g[n].kids|
    && Progress(pass, g, g', g[n].rank + 1) && |g'[n].kids| == |g[n].kids| && KidsBelow(g, n) && KidReplaced(pass, g, g', n, i)
    && (Done(pass, g, n, m, false) ==> Done(pass, g', n, m, false))
    && (Done(pass, g, n, m, false) && Done(pass, g, n, i, true) ==> Done(pass, g', n, i + 1, true))
    && (!Redex(pass, g, g[n].kids[i]) ==> g' == g)
  }

  lemma {:induction false} ProgressMore(pass: Pass, g: Graph, g': Graph, r: nat, r': nat)
    requires Progress(pass, g, g', r) && r <= r'
    ensures Progress(pass, g, g', r')
  {
  }

  lemma {:induction false} DoneIsClean(pass: Pass, g: Graph, n: Expr)
    requires Closed(g) && n in g && Done(pass, g, n, |g[n].kids|, SimplifiesKids(g[n].kind))
    ensures Clean(pass, g, n)
  {
    assert KidsBelow(g, n);
    assert Tidy(pass, g, n);
  }

  lemma {:induction false} SimplifiedTree(pass: Pass, g: Graph, n: Expr, i: nat, g': Graph, x: Expr)
    requires Good(g) && n in g && i < |g[n].kids| && KidsBelow(g, n) && Simplified(pass, g, g[n].kids[i], g', x)
    ensures Good(g') && x in g' && TreeOf(g', x) == Once(pass, TreeOf(g, g[n].kids[i]))
  {
    var c := g[n].kids[i];
    SimplifiedReplaces(pass, g, n, i, g', x);
    assert KidsBelow(g, c);
    if Redex(pass, g, c) {
      var d := g[c].kids[0];
      assert KidsBelow(g, d);
      UnaryTree(g, c);
      UnaryTree(g, d);
      if pass.Arrowify? {
        UnaryTree(g', x);
      }
    }
  }

  lemma {:induction false} StepReplaces(pass: Pass, g: Graph, n: Expr, i: nat, g': Graph, x: Expr)
    requires Good(g) && n in g && i < |g[n].kids| && KidsBelow(g, n) && Simplified(pass, g, g[n].kids[i], g', x)
    requires n in g' && g'[n] == g[n] && Good(WithKid(g', n, i, x))
    ensures KidReplaced(pass, g, WithKid(g', n, i, x), n, i)
  {
    var h := WithKid(g', n, i, x);
    SimplifiedTree(pass, g, n, i, g', x);
    SimplifiedReplaces(pass, g, n, i, g', x);
    assert KidsBelow(h, n);
    SameBelow(g', h, g[n].rank, x);
    forall o | o in g && g[o].rank < g[n].rank
      ensures o in h && TreeOf(h, o) == TreeOf(g, o)
    {
      SameBelow(g, h, g[n].rank, o);
    }
  }

  lemma {:induction false} StepDone(pass: Pass, g: Graph, n: Expr, i: nat, g': Graph, x: Expr, m: nat)
    requires Good(g) && n in g && i < m <= |g[n].kids| && KidsBelow(g, n) && Simplified(pass, g, g[n].kids[i], g', x)
    requires SimplifiesKids(g[n].kind)
    ensures n in g' && g'[n] == g[n] && KidDone(pass, g, WithKid(g', n, i, x), n, i, m)
  {
    StepProgress(pass, g, n, i, g', x);
    var h := WithKid(g', n, i, x);
    assert KidsBelow(h, n);
    StepReplaces(pass, g, n, i, g', x);
    if Done(pass, g, n, m, false) {
      forall j | 0 <= j < m
        ensures Clean(pass, h, h[n].kids[j])
        ensures j == i || !Redex(pass, g, g[n].kids[j]) ==> !Redex(pass, h, h[n].kids[j])
      {
        StepOnKids(pass, g, n, i, g', x, j);
      }
    }
    if !Redex(pass, g, g[n].kids[i]) {
      assert g[n].kids[i := x] == g[n].kids;
      assert h == g;
    }
  }

  lemma {:induction false} VisitDone(pass: Pass, g: Graph, g': Graph, n: Expr, i: nat, m: nat)
    requires n in g && i < |g[n].kids| && m <= |g[n].kids| && Closed(g) && KidsBelow(g, n) && Visited(pass, g, g', g[n].kids[i])
    ensures KidVisited(pass, g, g', n, i, m)
  {
    ProgressMore(pass, g, g', g[g[n].kids[i]].rank + 1, g[n].rank);
    assert g'[n] == g[n] && KidsBelow(g', n);
    if Done(pass, g, n, m, false) {
      DoneStays(pass, g, g', g[n].rank, n, m, false);
    }
    if Done(pass, g, n, m, true) {
      DoneStays(pass, g, g', g[n].rank, n, m, true);
    }
  }

  /** What the loop over the children of `n` keeps: `i` of them are visited, or simplified too. */
  ghost predicate Midway(pass: Pass, g0: Graph, g: Graph, n: Expr, i: nat, simplified: bool, r: nat) {
    && n in g0 && Progress(pass, g0, g, r) && |g[n].kids| == |g0[n].kids| && i <= |g[n].kids|
    && Done(pass, g, n, i, simplified)
    && (Settled(pass, g0, n) ==> g == g0)
  }

  lemma {:induction false} MidwayStarts(pass: Pass, g: Graph, n: Expr, simplified: bool, r: nat)
    requires Good(g) && n in g
    ensures Midway(pass, g, g, n, 0, simplified, r)
  {
    NoProgress(pass, g, r);
  }

  lemma {:induction false} MidwayVisit(pass: Pass, g0: Graph, g: Graph, g': Graph, n: Expr, i: nat)
    requires n in g0 && Midway(pass, g0, g, n, i, false, g0[n].rank) && VisitsKids(g0[n].kind) && KidVisited(pass, g, g', n, i, i)
    ensures Midway(pass, g0, g', n, i + 1, false, g0[n].rank)
  {
    ProgressTwice(pass, g0, g, g', g0[n].rank, g0[n].rank);
    assert KidsBelow(g0, n);
    assert Kept(pass, g0, g, n);
  }

  /** All are visited, `i` are simplified. */
  ghost predicate Ending(pass: Pass, g0: Graph, g: Graph, n: Expr, i: nat) {
    && n in g0 && Midway(pass, g0, g, n, i, true, g0[n].rank + 1) && Done(pass, g, n, |g[n].kids|, false)
  }

  lemma {:induction false} EndingStarts(pass: Pass, g0: Graph, g: Graph, n: Expr)
    requires n in g0 && Midway(pass, g0, g, n, |g0[n].kids|, false, g0[n].rank)
    ensures Ending(pass, g0, g, n, 0)
  {
    ProgressMore(pass, g0, g, g0[n].rank, g0[n].rank + 1);
  }

  lemma {:induction false} EndingStep(pass: Pass, g0: Graph, g: Graph, g': Graph, n: Expr, i: nat)
    requires Ending(pass, g0, g, n, i) && i < |g[n].kids| && SimplifiesKids(g0[n].kind) && KidDone(pass, g, g', n, i, |g[n].kids|)
    ensures Ending(pass, g0, g', n, i + 1)
  {
    assert Kept(pass, g0, g, n);
    ProgressTwice(pass, g0, g, g', g0[n].rank + 1, g0[n].rank + 1);
    assert KidsBelow(g0, n);
  }

  lemma {:induction false} TurnStep(pass: Pass, g0: Graph, g: Graph, g1: Graph, g2: Graph, n: Expr, i: nat)
    requires n in g0 && Midway(pass, g0, g, n, i, true, g0[n].rank + 1)
    requires VisitsKids(g0[n].kind) && SimplifiesKids(g0[n].kind)
    requires KidVisited(pass, g, g1, n, i, i) && KidDone(pass, g1, g2, n, i, i + 1)
    ensures Midway(pass, g0, g2, n, i + 1, true, g0[n].rank + 1)
  {
    assert Kept(pass, g0, g, n);
    ProgressTwice(pass, g0, g, g1, g0[n].rank + 1, g0[n].rank);
    ProgressTwice(pass, g0, g1, g2, g0[n].rank + 1, g0[n].rank + 1);
    assert KidsBelow(g0, n);
    TurnDone(pass, g, g1, g2, n, i);
  }

  lemma {:induction false} TurnDone(pass: Pass, g: Graph, g1: Graph, g2: Graph, n: Expr, i: nat)
    requires n in g && Closed(g) && i < |g[n].kids| && Done(pass, g, n, i, true)
    requires KidVisited(pass, g, g1, n, i, i) && KidDone(pass, g1, g2, n, i, i + 1)
    ensures Done(pass, g2, n, i + 1, true)
  {
    assert Done(pass, g1, n, i + 1, false);
  }

  /** For initializers: `i` children are simplified once, nothing below has changed. */
  ghost predicate SimplifiedSoFar(pass: Pass, g0: Graph, g: Graph, n: Expr, i: nat) {
    && n in g0 && Progress(pass, g0, g, g0[n].rank + 1) && |g[n].kids| == |g0[n].kids| && KidsBelow(g0, n) && KidsBelow(g, n)
    && (Settled(pass, g0, n) ==> g == g0)
    && (forall j {:trigger g[n].kids[j]} :: 0 <= j < i <= |g[n].kids| ==> TreeOf(g, g[n].kids[j]) == Once(pass, TreeOf(g0, g0[n].kids[j])))
    && (forall j {:trigger g[n].kids[j]} :: i <= j < |g[n].kids| ==> TreeOf(g, g[n].kids[j]) == TreeOf(g0, g0[n].kids[j]))
  }

  lemma {:induction false} SimplifyStep(pass: Pass, g0: Graph, g: Graph, g': Graph, n: Expr, i: nat)
    requires SimplifiedSoFar(pass, g0, g, n, i) && SimplifiesKids(g0[n].kind) && i < |g[n].kids| && KidDone(pass, g, g', n, i, i + 1)
    ensures SimplifiedSoFar(pass, g0, g', n, i + 1)
  {
    assert Kept(pass, g0, g, n);
    ProgressTwice(pass, g0, g, g', g0[n].rank + 1, g0[n].rank + 1);
    forall j | 0 <= j < |g[n].kids|
      ensures j <= i ==> TreeOf(g', g'[n].kids[j]) == Once(pass, TreeOf(g0, g0[n].kids[j]))
      ensures j > i ==> TreeOf(g', g'[n].kids[j]) == TreeOf(g0, g0[n].kids[j])
    {
      assert g[n].kids[j] in g && g[g[n].kids[j]].rank < g[n].rank;
    }
  }

  /** The roots have been visited, in order. */
  ghost predicate Walked(pass: Pass, g: Graph, g': Graph, roots: seq<Expr>) {
    && Good(g) && Good(g') && Evolves(pass, g, g') && g.Keys <= g'.Keys
    && (forall o {:trigger StaysClean(pass, g, g', o)} :: o in g ==> StaysClean(pass, g, g', o))
    && (forall e :: e in roots ==> e in g && Clean(pass, g', e))
    && ((forall e :: e in roots ==> Settled(pass, g, e)) ==> g' == g)
  }

  lemma {:induction false} WalkFurther(pass: Pass, g0: Graph, g: Graph, g': Graph, block: seq<Expr>, i: nat)
    requires i < |block| && block[i] in g0 && Walked(pass, g0, g, block[..i]) && Visited(pass, g, g', block[i])
    ensures Walked(pass, g0, g', block[..i + 1])
  {
    assert block[..i + 1] == block[..i] + [block[i]];
    EvolvesTwice(pass, g0, g, g');
    forall o | o in g0
      ensures StaysClean(pass, g0, g', o)
    {
      assert StaysClean(pass, g0, g, o);
      assert StaysClean(pass, g, g', o);
    }
    forall e | e in block[..i]
      ensures Clean(pass, g', e)
    {
      assert StaysClean(pass, g, g', e);
    }
  }

  lemma {:induction false} RunFurther(pass: Pass, g0: Graph, g: Graph, g': Graph, blocks: seq<seq<Expr>>)
    requires Good(g0) && Good(g) && Good(g') && Evolves(pass, g0, g) && Evolves(pass, g, g')
    requires forall o {:trigger StaysClean(pass, g, g', o)} :: o in g ==> o in g' && StaysClean(pass, g, g', o)
    requires forall b, e :: b in blocks && e in b ==> e in g && Clean(pass, g, e)
    ensures Evolves(pass, g0, g') && forall b, e :: b in blocks && e in b ==> e in g' && Clean(pass, g', e)
  {
    EvolvesTwice(pass, g0, g, g');
    forall b, e | b in blocks && e in b
      ensures e in g' && Clean(pass, g', e)
    {
      assert Kept(pass, g, g', e);
      assert StaysClean(pass, g, g', e);
    }
  }

  class Visitor {
    const pass: Pass
    /** The nodes the program owns. */
    ghost var owned: set<Expr>

    ghost function G(): Graph
      reads this, owned
    {
      map o | o in owned :: Cell(o.kind, o.kids, o.rank)
    }

    method Simplify(e: Expr) returns (r: Expr)
      requires Good(G()) && e in owned
      modifies this`owned
      ensures old(owned) <= owned && fresh(owned - old(owned))
      ensures Simplified(pass, old(G()), e, G(), r)
    {
      assert KidsBelow(G(), e);
      r := e;
      if |e.kids| == 1 {
        var inner := e.kids[0];
        if |inner.kids| == 1 && Matches(pass, e.kind, inner.kind) {
          match pass {
            case RefDeref =>
              r := inner.kids[0];
            case Arrowify =>
              r := new Expr(Arrow(e.kind.i), [inner.kids[0]], e.rank);
              owned := owned + {r};
              assert G() == WithNode(old(G()), r, Cell(Arrow(e.kind.i), [inner.kids[0]], e.rank));
          }
        }
      }
    }

    method SimplifyKid(n: Expr, i: nat, ghost m: nat)
      requires Good(G()) && n in owned && i < m <= |n.kids| && SimplifiesKids(n.kind)
      modifies this, n
      ensures old(owned) <= owned && fresh(owned - old(owned))
      ensures KidDone(pass, old(G()), G(), n, i, m)
    {
      ghost var g := G();
      assert KidsBelow(g, n);
      var x := Simplify(n.kids[i]);
      ghost var g' := G();
      StepDone(pass, g, n, i, g', x, m);
      Overwrite(n, i, x);
    }

    method Overwrite(n: Expr, i: nat, x: Expr)
      requires n in owned && i < |n.kids|
      modifies n
      ensures G() == WithKid(old(G()), n, i, x)
    {
      n.kids := n.kids[i := x];
    }

    method VisitKid(n: Expr, i: nat, ghost m: nat)
      requires Good(G()) && n in owned && i < |n.kids| && m <= |n.kids|
      modifies this, owned
      ensures old(owned) <= owned && fresh(owned - old(owned))
      ensures KidVisited(pass, old(G()), G(), n, i, m)
      decreases n.rank, 0
    {
      ghost var g := G();
      assert KidsBelow(g, n);
      Visit(n.kids[i]);
      VisitDone(pass, g, G(), n, i, m);
    }

    method VisitBatch(n: Expr)
      requires Good(G()) && n in owned && SimplifiesKids(n.kind) && VisitsKids(n.kind)
      modifies this, owned
      ensures old(owned) <= owned && fresh(owned - old(owned))
      ensures Visited(pass, old(G()), G(), n)
      decreases n.rank, 2
    {
      ghost var g0 := G();
      MidwayStarts(pass, g0, n, false, n.rank);
      for i := 0 to |n.kids|
        invariant old(owned) <= owned && fresh(owned - old(owned))
        invariant Midway(pass, g0, G(), n, i, false, n.rank)
      {
        ghost var g := G();
        VisitKid(n, i, i);
        MidwayVisit(pass, g0, g, G(), n, i);
      }
      EndingStarts(pass, g0, G(), n);
      for i := 0 to |n.kids|
        invariant old(owned) <= owned && fresh(owned - old(owned))
        invariant Ending(pass, g0, G(), n, i)
      {
        ghost var g := G();
        SimplifyKid(n, i, |n.kids|);
        EndingStep(pass, g0, g, G(), n, i);
      }
      DoneIsClean(pass, G(), n);
    }

    method VisitInTurn(n: Expr)
      requires Good(G()) && n in owned && SimplifiesKids(n.kind) && VisitsKids(n.kind)
      modifies this, owned
      ensures old(owned) <= owned && fresh(owned - old(owned))
      ensures Visited(pass, old(G()), G(), n)
      decreases n.rank, 2
    {
      ghost var g0 := G();
      MidwayStarts(pass, g0, n, true, n.rank + 1);
      for i := 0 to |n.kids|
        invariant old(owned) <= owned && fresh(owned - old(owned))
        invariant Midway(pass, g0, G(), n, i, true, n.rank + 1)
      {
        TakeKid(n, i, g0);
      }
      DoneIsClean(pass, G(), n);
    }

    method TakeKid(n: Expr, i: nat, ghost g0: Graph)
      requires n in owned && SimplifiesKids(n.kind) && VisitsKids(n.kind) && i < |n.kids|
      requires Midway(pass, g0, G(), n, i, true, n.rank + 1)
      modifies this, owned
      ensures old(owned) <= owned && fresh(owned - old(owned))
      ensures Midway(pass, g0, G(), n, i + 1, true, n.rank + 1)
      decreases n.rank, 1
    {
      ghost var g := G();
      assert Kept(pass, g0, g, n);
      VisitKid(n, i, i);
      ghost var g1 := G();
      SimplifyKid(n, i, i + 1);
      TurnStep(pass, g0, g, g1, G(), n, i);
    }

    /** The children of an extract-value expression are visited only. */
    method VisitOnly(n: Expr)
      requires Good(G()) && n in owned && VisitsKids(n.kind) && !SimplifiesKids(n.kind)
      modifies this, owned
      ensures old(owned) <= owned && fresh(owned - old(owned))
      ensures Visited(pass, old(G()), G(), n)
      decreases n.rank, 2
    {
      ghost var g0 := G();
      MidwayStarts(pass, g0, n, false, n.rank);
      for i := 0 to |n.kids|
        invariant old(owned) <= owned && fresh(owned - old(owned))
        invariant Midway(pass, g0, G(), n, i, false, n.rank)
      {
        ghost var g := G();
        VisitKid(n, i, i);
        MidwayVisit(pass, g0, g, G(), n, i);
      }
      EndingStarts(pass, g0, G(), n);
      DoneIsClean(pass, G(), n);
    }

    /** The children of an initializer are simplified only. */
    method SimplifyOnly(n: Expr)
      requires Good(G()) && n in owned && !VisitsKids(n.kind)
      modifies this, n
      ensures old(owned) <= owned && fresh(owned - old(owned))
      ensures Visited(pass, old(G()), G(), n)
    {
      ghost var g0 := G();
      NoProgress(pass, g0, n.rank + 1);
      assert KidsBelow(g0, n);
      for i := 0 to |n.kids|
        invariant old(owned) <= owned && fresh(owned - old(owned))
        invariant SimplifiedSoFar(pass, g0, G(), n, i)
      {
        ghost var g := G();
        SimplifyKid(n, i, i + 1);
        SimplifyStep(pass, g0, g, G(), n, i);
      }
    }

    method Visit(n: Expr)
      requires Good(G()) && n in owned
      modifies this, owned
      ensures old(owned) <= owned && fresh(owned - old(owned))
      ensures Visited(pass, old(G()), G(), n)
      decreases n.rank, 3
    {
      if n.kind.Initializer? {
        SimplifyOnly(n);
      } else if n.kind.Extract? {
        VisitOnly(n);
      } else if Batch(n.kind) {
        VisitBatch(n);
      } else {
        VisitInTurn(n);
      }
    }
  
    /** The pass: visit every expression of every block, in order. */
    method Run(blocks: seq<seq<Expr>>)
      requires Good(G()) && forall b, e :: b in blocks && e in b ==> e in owned
      modifies this, owned
      ensures old(owned) <= owned && fresh(owned - old(owned))
      ensures Good(old(G())) && Good(G()) && Evolves(pass, old(G()), G())
      ensures forall b, e :: b in blocks && e in b ==> e in G() && Clean(pass, G(), e)
      ensures (forall b, e :: b in blocks && e in b ==> Settled(pass, old(G()), e)) ==> G() == old(G())
    {
      ghost var g0 := G();
      EvolvesNot(pass, g0);
      for i := 0 to |blocks|
        invariant old(owned) <= owned && fresh(owned - old(owned))
        invariant Good(G()) && Evolves(pass, g0, G())
        invariant forall b, e :: b in blocks[..i] && e in b ==> Clean(pass, G(), e)
        invariant (forall b, e :: b in blocks && e in b ==> Settled(pass, g0, e)) ==> G() == g0
      {
        ghost var g1 := G();
        RunBlock(blocks[i]);
        RunFurther(pass, g0, g1, G(), blocks[..i]);
        assert blocks[..i + 1] == blocks[..i] + [blocks[i]];
      }
      assert blocks[..|blocks|] == blocks;
    }

    method RunBlock(block: seq<Expr>)
      requires Good(G()) && forall e :: e in block ==> e in owned
      modifies this, owned
      ensures old(owned) <= owned && fresh(owned - old(owned))
      ensures Walked(pass, old(G()), G(), block)
    {
      ghost var g0 := G();
      EvolvesNot(pass, g0);
      for i := 0 to |block|
        invariant old(owned) <= owned && fresh(owned - old(owned))
        invariant Walked(pass, g0, G(), block[..i])
      {
        ghost var g1 := G();
        Visit(block[i]);
        WalkFurther(pass, g0, g1, G(), block, i);
      }
      assert block[..|block|] == block;
    }
  }
}
