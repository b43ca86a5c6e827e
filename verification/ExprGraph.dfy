/** Expressions share children, so they form a graph; passes overwrite child pointers in it. */
module ExprGraph {
  import opened ExprTrees

  class Expr {
    const kind: Kind
    ghost const rank: nat
    var kids: seq<Expr>

    constructor (kind: Kind, kids: seq<Expr>, ghost rank: nat)
      ensures this.kind == kind && this.kids == kids && this.rank == rank
    {
      this.kind := kind;
      this.kids := kids;
      this.rank := rank;
    }
  }

  /** A node as a value. The rank exists only to say that the graph is acyclic. */
  datatype Cell = Cell(kind: Kind, kids: seq<Expr>, rank: nat)

  type Graph = map<Expr, Cell>

  ghost predicate KidsBelow(g: Graph, o: Expr)
    requires o in g
  {
    forall i :: 0 <= i < |g[o].kids| ==> g[o].kids[i] in g && g[g[o].kids[i]].rank < g[o].rank
  }

  predicate Unary(k: Kind) {
    k.Ref? || k.Deref? || k.Field? || k.Arrow?
  }

  ghost predicate Closed(g: Graph) {
    forall o {:trigger KidsBelow(g, o)} :: o in g ==> KidsBelow(g, o) && (Unary(g[o].kind) ==> |g[o].kids| == 1)
  }

  ghost function TreeOf(g: Graph, o: Expr): Tree
    requires Closed(g) && o in g
    decreases g[o].rank
  {
    assert KidsBelow(g, o);
    Tree(g[o].kind, seq(|g[o].kids|, i requires 0 <= i < |g[o].kids| => TreeOf(g, g[o].kids[i])))
  }

  ghost predicate OperandFits(g: Graph, o: Expr)
    requires Closed(g) && o in g
  {
    assert KidsBelow(g, o);
    NeedsLvalue(g[o].kind) ==> |g[o].kids| > 0 && Lvalue(TreeOf(g, g[o].kids[0]))
  }

  ghost predicate Good(g: Graph) {
    Closed(g) && forall o {:trigger OperandFits(g, o)} :: o in g ==> OperandFits(g, o)
  }

  lemma {:induction false} GoodIsTyped(g: Graph, o: Expr)
    requires Good(g) && o in g
    ensures Typed(TreeOf(g, o))
    decreases g[o].rank
  {
    assert KidsBelow(g, o) && OperandFits(g, o);
    forall i | 0 <= i < |g[o].kids|
      ensures Typed(TreeOf(g, g[o].kids[i]))
    {
      GoodIsTyped(g, g[o].kids[i]);
    }
  }

  // ----- how a pass changes the graph -----

  /** Every node stays what it is, its normal form and its children's too, and what was an lvalue is one. */
  ghost predicate Kept(pass: Pass, g: Graph, g': Graph, o: Expr)
    requires Closed(g) && Closed(g') && o in g
  {
    && o in g' && g'[o].kind == g[o].kind && g'[o].rank == g[o].rank && |g'[o].kids| == |g[o].kids|
    && Nf(pass, TreeOf(g', o)) == Nf(pass, TreeOf(g, o))
    && SameKids(pass, TreeOf(g, o), TreeOf(g', o))
    && (Lvalue(TreeOf(g, o)) ==> Lvalue(TreeOf(g', o)))
  }

  ghost predicate SameKids(pass: Pass, t: Tree, t': Tree) {
    |t.kids| == |t'.kids| && forall j :: 0 <= j < |t.kids| ==> Nf(pass, t.kids[j]) == Nf(pass, t'.kids[j])
  }

  ghost predicate Evolves(pass: Pass, g: Graph, g': Graph)
    requires Closed(g) && Closed(g')
  {
    forall o {:trigger Kept(pass, g, g', o)} :: o in g ==> Kept(pass, g, g', o)
  }

  lemma {:induction false} EvolvesTwice(pass: Pass, g0: Graph, g1: Graph, g2: Graph)
    requires Closed(g0) && Closed(g1) && Closed(g2) && Evolves(pass, g0, g1) && Evolves(pass, g1, g2)
    ensures Evolves(pass, g0, g2)
  {
    forall o | o in g0
      ensures Kept(pass, g0, g2, o)
    {
      assert Kept(pass, g0, g1, o);
      assert Kept(pass, g1, g2, o);
    }
  }

  lemma {:induction false} EvolvesNot(pass: Pass, g: Graph)
    requires Closed(g)
    ensures Evolves(pass, g, g)
  {
    forall o | o in g
      ensures Kept(pass, g, g, o)
    {
    }
  }

  // ----- replacing one child -----

  ghost function WithKid(g: Graph, n: Expr, i: nat, x: Expr): Graph
    requires n in g && i < |g[n].kids|
  {
    g[n := g[n].(kids := g[n].kids[i := x])]
  }

  ghost predicate Replaces(pass: Pass, g: Graph, n: Expr, i: nat, x: Expr)
    requires Closed(g)
  {
    && n in g && i < |g[n].kids| && g[n].kids[i] in g && x in g && g[x].rank < g[n].rank
    && Nf(pass, TreeOf(g, x)) == Nf(pass, TreeOf(g, g[n].kids[i]))
    && (Lvalue(TreeOf(g, g[n].kids[i])) ==> Lvalue(TreeOf(g, x)))
  }

  lemma {:induction false} WithKidClosed(pass: Pass, g: Graph, n: Expr, i: nat, x: Expr)
    requires Closed(g) && Replaces(pass, g, n, i, x)
    ensures Closed(WithKid(g, n, i, x))
  {
    var g' := WithKid(g, n, i, x);
    forall o | o in g'
      ensures KidsBelow(g', o) && (Unary(g'[o].kind) ==> |g'[o].kids| == 1)
    {
      assert KidsBelow(g, o);
    }
  }

  /** Nodes that cannot reach `n` keep their trees. */
  lemma {:induction false} SameBelow(g: Graph, g': Graph, r: nat, o: Expr)
    requires Closed(g) && Closed(g') && o in g && g[o].rank < r
    requires forall p :: p in g && g[p].rank < r ==> p in g' && g'[p] == g[p]
    ensures o in g' && TreeOf(g', o) == TreeOf(g, o)
    decreases g[o].rank
  {
    assert KidsBelow(g, o);
    forall i | 0 <= i < |g[o].kids|
      ensures TreeOf(g', g[o].kids[i]) == TreeOf(g, g[o].kids[i])
    {
      SameBelow(g, g', r, g[o].kids[i]);
    }
    assert TreeOf(g', o).kids == TreeOf(g, o).kids;
  }

  lemma {:induction false} NfOfKids(pass: Pass, t: Tree, t': Tree)
    requires t.kind == t'.kind && |t.kids| == |t'.kids|
    requires forall j :: 0 <= j < |t.kids| ==> Nf(pass, t.kids[j]) == Nf(pass, t'.kids[j])
    ensures Nf(pass, t) == Nf(pass, t')
  {
    assert seq(|t.kids|, j requires 0 <= j < |t.kids| => Nf(pass, t.kids[j]))
        == seq(|t'.kids|, j requires 0 <= j < |t'.kids| => Nf(pass, t'.kids[j]));
  }

  lemma {:induction false} LvalueOfKids(t: Tree, t': Tree)
    requires t.kind == t'.kind && |t.kids| == |t'.kids| && Lvalue(t)
    requires forall j :: 0 <= j < |t.kids| && Lvalue(t.kids[j]) ==> Lvalue(t'.kids[j])
    ensures Lvalue(t')
  {
  }

  lemma {:induction false} WithKidKept(pass: Pass, g: Graph, n: Expr, i: nat, x: Expr, o: Expr)
    requires Closed(g) && Replaces(pass, g, n, i, x) && Closed(WithKid(g, n, i, x)) && o in g
    ensures Kept(pass, g, WithKid(g, n, i, x), o)
    decreases g[o].rank
  {
    var g' := WithKid(g, n, i, x);
    assert KidsBelow(g, o) && KidsBelow(g', o);
    var t, t' := TreeOf(g, o), TreeOf(g', o);
    forall j | 0 <= j < |g[o].kids|
      ensures Nf(pass, t.kids[j]) == Nf(pass, t'.kids[j]) && (Lvalue(t.kids[j]) ==> Lvalue(t'.kids[j]))
    {
      if o == n && j == i {
        SameBelow(g, g', g[n].rank, x);
      } else {
        WithKidKept(pass, g, n, i, x, g[o].kids[j]);
      }
    }
    NfOfKids(pass, t, t');
    if Lvalue(t) {
      LvalueOfKids(t, t');
    }
  }

  lemma {:induction false} WithKidEvolves(pass: Pass, g: Graph, n: Expr, i: nat, x: Expr)
    requires Good(g) && Replaces(pass, g, n, i, x)
    ensures Good(WithKid(g, n, i, x)) && Evolves(pass, g, WithKid(g, n, i, x))
  {
    var g' := WithKid(g, n, i, x);
    WithKidClosed(pass, g, n, i, x);
    forall o | o in g
      ensures Kept(pass, g, g', o)
    {
      WithKidKept(pass, g, n, i, x, o);
    }
    EvolvedIsGood(pass, g, g', n, i, x);
  }

  lemma {:induction false} EvolvedIsGood(pass: Pass, g: Graph, g': Graph, n: Expr, i: nat, x: Expr)
    requires Good(g) && Replaces(pass, g, n, i, x) && g' == WithKid(g, n, i, x) && Closed(g') && Evolves(pass, g, g')
    ensures Good(g')
  {
    forall o | o in g'
      ensures OperandFits(g', o)
    {
      assert KidsBelow(g, o) && KidsBelow(g', o) && OperandFits(g, o);
      if NeedsLvalue(g'[o].kind) {
        var c := g[o].kids[0];
        assert Kept(pass, g, g', c) && Kept(pass, g, g', x);
      }
    }
  }

  // ----- a new node -----

  ghost function WithNode(g: Graph, n: Expr, c: Cell): Graph {
    g[n := c]
  }

  lemma {:induction false} WithNodeEvolves(pass: Pass, g: Graph, n: Expr, c: Cell)
    requires Good(g) && n !in g && c.kind.Arrow? && |c.kids| == 1 && c.kids[0] in g && g[c.kids[0]].rank < c.rank
    ensures Good(WithNode(g, n, c)) && Evolves(pass, g, WithNode(g, n, c))
    ensures forall o :: o in g ==> TreeOf(WithNode(g, n, c), o) == TreeOf(g, o)
    ensures TreeOf(WithNode(g, n, c), n) == Tree(c.kind, [TreeOf(g, c.kids[0])])
  {
    var g' := WithNode(g, n, c);
    forall o | o in g'
      ensures KidsBelow(g', o) && (Unary(g'[o].kind) ==> |g'[o].kids| == 1)
    {
      if o != n {
        assert KidsBelow(g, o);
      }
    }
    forall o | o in g
      ensures TreeOf(g', o) == TreeOf(g, o)
    {
      SameBelow(g, g', g[o].rank + 1, o);
    }
    forall o | o in g
      ensures Kept(pass, g, g', o)
    {
    }
    forall o | o in g'
      ensures OperandFits(g', o)
    {
      if o != n {
        assert KidsBelow(g, o) && OperandFits(g, o);
      }
    }
    assert TreeOf(g', n).kids == [TreeOf(g, c.kids[0])];
  }

  // ----- what a traversal leaves behind -----

  ghost predicate Redex(pass: Pass, g: Graph, o: Expr)
    requires Closed(g) && o in g
  {
    assert KidsBelow(g, o);
    |g[o].kids| == 1 && |g[g[o].kids[0]].kids| == 1 && Matches(pass, g[o].kind, g[g[o].kids[0]].kind)
  }

  predicate VisitsKids(k: Kind) {
    !k.Initializer?
  }

  predicate SimplifiesKids(k: Kind) {
    !k.Extract?
  }

  /** No child that a visit simplifies can be simplified. */
  ghost predicate Tidy(pass: Pass, g: Graph, o: Expr)
    requires Closed(g) && o in g
  {
    assert KidsBelow(g, o);
    SimplifiesKids(g[o].kind) ==> forall i :: 0 <= i < |g[o].kids| ==> !Redex(pass, g, g[o].kids[i])
  }

  /** All that a visit of `o` reaches is tidy; the children of an initializer are not asked for. */
  ghost predicate Clean(pass: Pass, g: Graph, o: Expr)
    requires Closed(g) && o in g
    decreases g[o].rank
  {
    assert KidsBelow(g, o);
    VisitsKids(g[o].kind) ==> Tidy(pass, g, o) && forall i :: 0 <= i < |g[o].kids| ==> Clean(pass, g, g[o].kids[i])
  }

  /** The same, and the children of initializers are tidy as well. */
  ghost predicate Settled(pass: Pass, g: Graph, o: Expr)
    requires Closed(g) && o in g
    decreases g[o].rank
  {
    assert KidsBelow(g, o);
    Tidy(pass, g, o) && (VisitsKids(g[o].kind) ==> forall i :: 0 <= i < |g[o].kids| ==> Settled(pass, g, g[o].kids[i]))
  }

  /** Replacing a child of a node that is not clean leaves every clean node as it is. */
  lemma {:induction false} CleanStays(pass: Pass, g: Graph, n: Expr, i: nat, x: Expr, o: Expr)
    requires Closed(g) && Replaces(pass, g, n, i, x) && Closed(WithKid(g, n, i, x))
    requires !Clean(pass, g, n) || g[n].kind.Initializer?
    requires o in g && Clean(pass, g, o)
    ensures Clean(pass, WithKid(g, n, i, x), o)
    decreases g[o].rank
  {
    var g' := WithKid(g, n, i, x);
    assert KidsBelow(g, o) && KidsBelow(g', o);
    if VisitsKids(g[o].kind) {
      forall j | 0 <= j < |g[o].kids|
        ensures Clean(pass, g', g[o].kids[j]) && (SimplifiesKids(g[o].kind) ==> !Redex(pass, g', g[o].kids[j]))
      {
        var c := g[o].kids[j];
        CleanStays(pass, g, n, i, x, c);
        assert KidsBelow(g, c) && KidsBelow(g', c);
      }
      assert Tidy(pass, g', o);
    }
  }

  /** What a simplification may return is clean if what it was given is. */
  lemma {:induction false} GrandchildClean(pass: Pass, g: Graph, c: Expr)
    requires Closed(g) && c in g && Clean(pass, g, c) && Redex(pass, g, c)
    ensures KidsBelow(g, c) && KidsBelow(g, g[c].kids[0])
    ensures var x := g[g[c].kids[0]].kids[0]; Clean(pass, g, x) && !Redex(pass, g, x)
  {
    assert KidsBelow(g, c);
    var d := g[c].kids[0];
    assert KidsBelow(g, d);
    assert Clean(pass, g, d);
    assert Tidy(pass, g, d);
  }
}
