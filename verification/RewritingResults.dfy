/** What the two rewriting passes achieve on a shared expression graph. */
module RewritingResults {
  import opened ExprTrees
  import opened ExprGraph
  import opened RewritingMeaning
  import opened SimplifyingVisitor

  /** Every node, shared or not, reachable or not, denotes what it denoted before. */
  lemma {:induction false} DenotationKept<S(!new)>(mc: Machine<S>, pass: Pass, g: Graph, g': Graph, o: Expr)
    requires Lawful(mc) && Good(g) && Good(g') && Evolves(pass, g, g') && o in g
    ensures o in g'
    ensures Keeps(mc, TreeOf(g, o), TreeOf(g', o))
  {
    assert Kept(pass, g, g', o);
    GoodIsTyped(g, o);
    GoodIsTyped(g', o);
    SameNormalForm(mc, pass, TreeOf(g, o), TreeOf(g', o));
  }

  // ----- normal forms -----

  /** No node below whose children a traversal leaves out. */
  predicate Without(kinds: set<Kind>, t: Tree) {
    t.kind !in kinds && forall i :: 0 <= i < |t.kids| ==> Without(kinds, t.kids[i])
  }

  const SKIPPED: set<Kind> := {Initializer, Extract}

  lemma {:induction false} NfWithout(kinds: set<Kind>, pass: Pass, t: Tree)
    requires kinds <= SKIPPED
    ensures Without(kinds, Nf(pass, t)) <==> Without(kinds, t)
  {
    var kids := seq(|t.kids|, i requires 0 <= i < |t.kids| => Nf(pass, t.kids[i]));
    forall i | 0 <= i < |kids|
      ensures Without(kinds, kids[i]) <==> Without(kinds, t.kids[i])
    {
      NfWithout(kinds, pass, t.kids[i]);
    }
    assert Without(kinds, Tree(t.kind, kids)) <==> Without(kinds, t);
    if IsRedex(pass, t.kind, kids) {
      assert t.kind !in kinds && kids[0].kind !in kinds;
      assert Without(kinds, Tree(t.kind, kids)) <==> Without(kinds, kids[0]);
      assert Without(kinds, kids[0]) <==> Without(kinds, kids[0].kids[0]);
    }
  }

  lemma {:induction false} RedexTree(pass: Pass, g: Graph, o: Expr)
    requires Closed(g) && o in g
    ensures Redex(pass, g, o) <==> IsRedex(pass, TreeOf(g, o).kind, TreeOf(g, o).kids)
  {
    assert KidsBelow(g, o);
    if |g[o].kids| == 1 {
      assert TreeOf(g, o).kids[0] == TreeOf(g, g[o].kids[0]);
    }
  }

  lemma {:induction false} CleanIsNormal(pass: Pass, g: Graph, o: Expr)
    requires Closed(g) && o in g && Clean(pass, g, o) && Without(SKIPPED, TreeOf(g, o))
    ensures forall i :: 0 <= i < |TreeOf(g, o).kids| ==> Normal(pass, TreeOf(g, o).kids[i])
    decreases g[o].rank
  {
    assert KidsBelow(g, o);
    var t := TreeOf(g, o);
    assert Tidy(pass, g, o);
    forall i | 0 <= i < |t.kids|
      ensures Normal(pass, t.kids[i])
    {
      var c := g[o].kids[i];
      assert t.kids[i] == TreeOf(g, c);
      CleanIsNormal(pass, g, c);
      RedexTree(pass, g, c);
    }
  }

  /** One traversal is enough: below the visited node every expression is in normal form. */
  lemma {:induction false} OneTraversal(pass: Pass, g: Graph, g': Graph, n: Expr)
    requires Visited(pass, g, g', n) && Without(SKIPPED, TreeOf(g, n))
    ensures var t, t' := TreeOf(g, n), TreeOf(g', n);
            && t'.kind == t.kind && |t'.kids| == |t.kids|
            && forall i :: 0 <= i < |t.kids| ==> t'.kids[i] == Nf(pass, t.kids[i]) && Normal(pass, t'.kids[i])
  {
    var t, t' := TreeOf(g, n), TreeOf(g', n);
    assert Kept(pass, g, g', n);
    NfWithout(SKIPPED, pass, t);
    NfWithout(SKIPPED, pass, t');
    CleanIsNormal(pass, g', n);
    forall i | 0 <= i < |t.kids|
      ensures t'.kids[i] == Nf(pass, t.kids[i])
    {
      NormalNf(pass, t'.kids[i]);
    }
  }

  // ----- the second run -----

  lemma {:induction false} CleanIsSettled(pass: Pass, g: Graph, o: Expr)
    requires Closed(g) && o in g && Clean(pass, g, o) && Without({Initializer}, TreeOf(g, o))
    ensures Settled(pass, g, o)
    decreases g[o].rank
  {
    assert KidsBelow(g, o);
    forall i | 0 <= i < |g[o].kids|
      ensures Settled(pass, g, g[o].kids[i])
    {
      assert TreeOf(g, o).kids[i] == TreeOf(g, g[o].kids[i]);
      CleanIsSettled(pass, g, g[o].kids[i]);
    }
  }

  /** Visiting a node again changes nothing at all, whatever it shares with others. */
  lemma {:induction false} SecondVisitIdle(pass: Pass, g: Graph, g1: Graph, g2: Graph, n: Expr)
    requires Visited(pass, g, g1, n) && Without({Initializer}, TreeOf(g, n)) && Visited(pass, g1, g2, n)
    ensures g2 == g1
  {
    assert Kept(pass, g, g1, n);
    NfWithout({Initializer}, pass, TreeOf(g, n));
    NfWithout({Initializer}, pass, TreeOf(g1, n));
    CleanIsSettled(pass, g1, n);
  }

  /** The children of an initializer are simplified once and not visited, so a second visit leaves it
      alone exactly if no child could be simplified twice in a row. */
  lemma {:induction false} InitializerSettled(pass: Pass, g: Graph, g': Graph, n: Expr)
    requires Visited(pass, g, g', n) && g[n].kind.Initializer?
    ensures Settled(pass, g', n) <==>
            forall i :: 0 <= i < |TreeOf(g, n).kids| ==>
              var k := Once(pass, TreeOf(g, n).kids[i]); !IsRedex(pass, k.kind, k.kids)
  {
    assert Kept(pass, g, g', n);
    assert KidsBelow(g, n) && KidsBelow(g', n);
    forall i | 0 <= i < |g[n].kids|
      ensures var k := Once(pass, TreeOf(g, n).kids[i]); Redex(pass, g', g'[n].kids[i]) <==> IsRedex(pass, k.kind, k.kids)
    {
      RedexTree(pass, g', g'[n].kids[i]);
      assert TreeOf(g, n).kids[i] == TreeOf(g, g[n].kids[i]);
    }
    assert Settled(pass, g', n) <==> Tidy(pass, g', n);
    assert Tidy(pass, g', n) <==> forall i :: 0 <= i < |g'[n].kids| ==> !Redex(pass, g', g'[n].kids[i]);
    assert |TreeOf(g, n).kids| == |g[n].kids| == |g'[n].kids|;
  }

  /** A visited initializer has only normal children exactly if one simplification at the top makes each
      of them normal: pairs further down are never come to. */
  lemma {:induction false} InitializerNormal(pass: Pass, g: Graph, g': Graph, n: Expr)
    requires Visited(pass, g, g', n) && g[n].kind.Initializer?
    ensures var t, t' := TreeOf(g, n), TreeOf(g', n);
            && |t'.kids| == |t.kids|
            && ((forall i :: 0 <= i < |t'.kids| ==> Normal(pass, t'.kids[i]))
                <==> forall i :: 0 <= i < |t.kids| ==> Normal(pass, Once(pass, t.kids[i])))
  {
    var t, t' := TreeOf(g, n), TreeOf(g', n);
    assert KidsBelow(g, n) && KidsBelow(g', n);
    forall i | 0 <= i < |t.kids|
      ensures t'.kids[i] == Once(pass, t.kids[i])
    {
      assert t.kids[i] == TreeOf(g, g[n].kids[i]) && t'.kids[i] == TreeOf(g', g'[n].kids[i]);
    }
  }

  /** The address of an element of a global, in an initializer: the `*&x` below it stays, and although a
      second visit would change nothing either, the initializer is not in normal form. */
  lemma {:induction false} InitializerKeepsPair(g: Graph, g': Graph, n: Expr, x: Tree, elements: seq<Tree>)
    requires Visited(RefDeref, g, g', n) && g[n].kind.Initializer?
    requires elements != [] && elements[0] == Tree(Deref, [Tree(Ref, [x])])
    requires TreeOf(g, n).kids == [Tree(Ref, [Tree(Gep, elements)])]
    ensures g' == g && Settled(RefDeref, g', n) && !Normal(RefDeref, TreeOf(g', n).kids[0])
  {
    var k := TreeOf(g, n).kids[0];
    assert Once(RefDeref, k) == k;
    assert KidsBelow(g, n);
    assert k == TreeOf(g, g[n].kids[0]);
    RedexTree(RefDeref, g, g[n].kids[0]);
    assert Tidy(RefDeref, g, n);
    assert Settled(RefDeref, g, n);
    assert IsRedex(RefDeref, elements[0].kind, elements[0].kids);
    assert !Normal(RefDeref, elements[0]);
    assert !Normal(RefDeref, k.kids[0]);
  }

  // ----- one pass after the other -----

  lemma {:induction false} ArrowsKeepNormal(t: Tree)
    requires Normal(RefDeref, t)
    ensures Normal(RefDeref, Nf(Arrowify, t))
    ensures Nf(Arrowify, t).kind == t.kind || (t.kind.Field? && Nf(Arrowify, t).kind.Arrow?)
  {
    var kids := seq(|t.kids|, i requires 0 <= i < |t.kids| => Nf(Arrowify, t.kids[i]));
    forall i | 0 <= i < |kids|
      ensures Normal(RefDeref, kids[i])
      ensures kids[i].kind == t.kids[i].kind || (t.kids[i].kind.Field? && kids[i].kind.Arrow?)
    {
      ArrowsKeepNormal(t.kids[i]);
    }
    if IsRedex(Arrowify, t.kind, kids) {
      assert Normal(RefDeref, kids[0]);
    } else if IsRedex(RefDeref, t.kind, kids) {
      NfLength(t.kids[0]);
    }
  }

  /** A node that stays what it is keeps its number of children. */
  lemma {:induction false} NfLength(t: Tree)
    ensures |Nf(Arrowify, t).kids| == |t.kids| || Nf(Arrowify, t).kind.Arrow?
  {
  }

  /** The two passes in a row: no `&*e`, `*&e` or `(*p).f` is left below the visited node, and it
      still denotes the same. */
  lemma {:induction false} BothPasses<S(!new)>(mc: Machine<S>, g: Graph, g1: Graph, g2: Graph, n: Expr)
    requires Lawful(mc) && Visited(RefDeref, g, g1, n) && Visited(Arrowify, g1, g2, n) && Without(SKIPPED, TreeOf(g, n))
    ensures |TreeOf(g2, n).kids| == |TreeOf(g, n).kids|
    ensures forall i :: 0 <= i < |TreeOf(g, n).kids| ==>
              && TreeOf(g2, n).kids[i] == Nf(Arrowify, Nf(RefDeref, TreeOf(g, n).kids[i]))
              && Normal(RefDeref, TreeOf(g2, n).kids[i]) && Normal(Arrowify, TreeOf(g2, n).kids[i])
    ensures Keeps(mc, TreeOf(g, n), TreeOf(g2, n))
  {
    OneTraversal(RefDeref, g, g1, n);
    assert Kept(RefDeref, g, g1, n);
    NfWithout(SKIPPED, RefDeref, TreeOf(g, n));
    NfWithout(SKIPPED, RefDeref, TreeOf(g1, n));
    OneTraversal(Arrowify, g1, g2, n);
    forall i | 0 <= i < |TreeOf(g, n).kids|
      ensures Normal(RefDeref, TreeOf(g2, n).kids[i])
    {
      ArrowsKeepNormal(TreeOf(g1, n).kids[i]);
    }
    DenotationKept(mc, RefDeref, g, g1, n);
    DenotationKept(mc, Arrowify, g1, g2, n);
  }
}
