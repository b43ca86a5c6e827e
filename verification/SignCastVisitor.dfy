/** The pass that inserts sign casts, working in place on an expression graph with shared nodes. */
module SignCastVisitor {
  import opened CIntegers
  import opened SignCasts

  class Expr {
    const kind: Kind
    const ty: IntType
    /** Says that the graph is acyclic. Casts inserted by the pass have odd levels, other nodes even ones. */
    ghost const level: nat
    var kids: seq<Expr>

    constructor (kind: Kind, ty: IntType, kids: seq<Expr>, ghost level: nat)
      ensures this.kind == kind && this.ty == ty && this.kids == kids && this.level == level
    {
      this.kind := kind;
      this.ty := ty;
      this.kids := kids;
      this.level := level;
    }
  }

  datatype Cell = Cell(kind: Kind, ty: IntType, kids: seq<Expr>, level: nat)

  type Graph = map<Expr, Cell>

  predicate Matches(k: Kind, ty: IntType) {
    CastsKids(k) && ty.unsigned == k.isUnsigned
  }

  /** Children are lower; an inserted cast has the signedness that its parent wants. */
  ghost predicate Below(g: Graph, o: Expr)
    requires o in g
  {
    && |g[o].kids| == Arity(g[o].kind)
    && (g[o].level % 2 == 1 ==> g[o].kind.Cast?)
    && forall i :: 0 <= i < |g[o].kids| ==>
         var k := g[o].kids[i];
         k in g && g[k].level < g[o].level && (g[k].level % 2 == 1 ==> Matches(g[o].kind, g[k].ty))
  }

  ghost predicate Good(g: Graph) {
    forall o {:trigger Below(g, o)} :: o in g ==> Below(g, o)
  }

  ghost function TreeOf(g: Graph, o: Expr): Tree
    requires Good(g) && o in g
    decreases g[o].level
  {
    assert Below(g, o);
    Tree(g[o].kind, g[o].ty, seq(|g[o].kids|, i requires 0 <= i < |g[o].kids| => TreeOf(g, g[o].kids[i])))
  }

  // ----- where the visitor goes -----

  /** The visitor that starts at `n` comes to `o`. */
  ghost predicate Reaches(g: Graph, n: Expr, o: Expr)
    requires Good(g) && n in g
    decreases g[n].level
  {
    assert Below(g, n);
    n == o || exists i :: 0 <= i < |g[n].kids| && (g[n].kind.Other? ==> i < g[n].kind.enters) && Reaches(g, g[n].kids[i], o)
  }

  // ----- what a step keeps -----

  /** Kind, type, and what casts everywhere would make of the node stay; nothing that is done is undone;
      the visitor reaches the same nodes as before. */
  ghost predicate Kept(g: Graph, g': Graph, o: Expr)
    requires Good(g) && Good(g') && o in g
  {
    && o in g' && g'[o].kind == g[o].kind && g'[o].ty == g[o].ty && g'[o].level == g[o].level
    && WithCasts(TreeOf(g', o)) == WithCasts(TreeOf(g, o))
    && (Done(TreeOf(g, o)) ==> Done(TreeOf(g', o)))
    && forall p {:trigger Reaches(g', o, p), Reaches(g, o, p)} :: p in g ==> (Reaches(g', o, p) <==> Reaches(g, o, p))
  }

  /** Nodes whose level is `r` or more are as before. */
  ghost predicate Progress(g: Graph, g': Graph, r: nat) {
    && Good(g) && Good(g') && g.Keys <= g'.Keys
    && (forall o {:trigger Kept(g, g', o)} :: o in g ==> Kept(g, g', o))
    && (forall o {:trigger g'[o]} :: o in g && g[o].level >= r ==> o in g' && g'[o] == g[o])
  }

  /** Only nodes that the visitor reaches from `n` are changed. */
  ghost predicate ChangedBelow(g: Graph, g': Graph, n: Expr) {
    Good(g) && n in g && forall o {:trigger Reaches(g, n, o)} :: o in g && !Reaches(g, n, o) ==> o in g' && g'[o] == g[o]
  }

  lemma {:induction false} NoProgress(g: Graph, r: nat)
    requires Good(g)
    ensures Progress(g, g, r)
  {
  }

  lemma {:induction false} KeptTwice(g0: Graph, g1: Graph, g2: Graph, o: Expr)
    requires Good(g0) && Good(g1) && Good(g2) && g0.Keys <= g1.Keys && o in g0 && Kept(g0, g1, o) && Kept(g1, g2, o)
    ensures Kept(g0, g2, o)
  {
    forall p | p in g0
      ensures Reaches(g2, o, p) <==> Reaches(g0, o, p)
    {
      assert Reaches(g1, o, p) <==> Reaches(g0, o, p);
    }
  }

  lemma {:induction false} ProgressTwice(g0: Graph, g1: Graph, g2: Graph, r1: nat, r2: nat)
    requires Progress(g0, g1, r1) && Progress(g1, g2, r2)
    ensures Progress(g0, g2, if r1 < r2 then r2 else r1)
  {
    forall o | o in g0
      ensures Kept(g0, g2, o)
    {
      assert Kept(g0, g1, o);
      assert Kept(g1, g2, o);
      KeptTwice(g0, g1, g2, o);
    }
    forall o | o in g0 && g0[o].level >= (if r1 < r2 then r2 else r1)
      ensures g2[o] == g0[o]
    {
      assert g1[o] == g0[o];
    }
  }

  lemma {:induction false} ChangedTwice(g0: Graph, g1: Graph, g2: Graph, n: Expr, r: nat)
    requires Progress(g0, g1, r) && ChangedBelow(g0, g1, n) && ChangedBelow(g1, g2, n)
    ensures ChangedBelow(g0, g2, n)
  {
    forall o | o in g0 && !Reaches(g0, n, o)
      ensures o in g2 && g2[o] == g0[o]
    {
      assert Kept(g0, g1, n);
      assert !Reaches(g1, n, o);
      assert g1[o] == g0[o];
    }
  }

  /** What is changed below an entered child is changed below the node. */
  lemma {:induction false} ChangedInChild(g: Graph, g': Graph, n: Expr, i: nat)
    requires Good(g) && n in g && i < |g[n].kids| && Enters(g[n].kind, i) && ChangedBelow(g, g', g[n].kids[i])
    ensures ChangedBelow(g, g', n)
  {
    forall o | o in g && !Reaches(g, n, o)
      ensures o in g' && g'[o] == g[o]
    {
      assert !Reaches(g, g[n].kids[i], o);
    }
  }

  lemma {:induction false} SameBelow(g: Graph, g': Graph, r: nat, o: Expr)
    requires Good(g) && Good(g') && o in g && g[o].level < r
    requires forall p :: p in g && g[p].level < r ==> p in g' && g'[p] == g[p]
    ensures o in g' && TreeOf(g', o) == TreeOf(g, o)
    decreases g[o].level
  {
    assert Below(g, o);
    forall i | 0 <= i < |g[o].kids|
      ensures TreeOf(g', g[o].kids[i]) == TreeOf(g, g[o].kids[i])
    {
      SameBelow(g, g', r, g[o].kids[i]);
    }
    assert TreeOf(g', o).kids == TreeOf(g, o).kids;
  }

  // ----- inserting a cast -----

  /** A cast `c` is put between `n` and its child `i`. */
  ghost function WithCast(g: Graph, n: Expr, i: nat, c: Expr): Graph
    requires n in g && i < |g[n].kids| && g[n].kids[i] in g
  {
    var k := g[n].kids[i];
    g[c := Cell(Cast, Toggle(g[k].ty), [k], g[k].level + 1)][n := g[n].(kids := g[n].kids[i := c])]
  }

  ghost predicate Inserts(g: Graph, n: Expr, i: nat, c: Expr)
    requires Good(g)
  {
    && n in g && c !in g && i < |g[n].kids| && CastsKids(g[n].kind) && g[n].kids[i] in g
    && g[g[n].kids[i]].ty.unsigned != g[n].kind.isUnsigned
  }

  lemma {:induction false} InsertGood(g: Graph, n: Expr, i: nat, c: Expr)
    requires Good(g) && Inserts(g, n, i, c)
    ensures Good(WithCast(g, n, i, c))
  {
    var g' := WithCast(g, n, i, c);
    assert Below(g, n);
    var k := g[n].kids[i];
    assert Below(g, k);
    assert g[k].level % 2 == 0;
    forall o | o in g'
      ensures Below(g', o)
    {
      if o != c {
        assert Below(g, o);
      }
    }
  }

  lemma {:induction false} CastTree(g: Graph, n: Expr, i: nat, c: Expr)
    requires Good(g) && Inserts(g, n, i, c) && Good(WithCast(g, n, i, c))
    ensures var k := TreeOf(g, g[n].kids[i]); TreeOf(WithCast(g, n, i, c), c) == Tree(Cast, Toggle(k.ty), [k])
    ensures forall o :: o in g && g[o].level < g[n].level ==> TreeOf(WithCast(g, n, i, c), o) == TreeOf(g, o)
  {
    var g' := WithCast(g, n, i, c);
    assert Below(g, n) && Below(g', c);
    forall o | o in g && g[o].level < g[n].level
      ensures TreeOf(g', o) == TreeOf(g, o)
    {
      SameBelow(g, g', g[n].level, o);
    }
    assert TreeOf(g', c).kids == [TreeOf(g, g[n].kids[i])];
  }

  /** The new cast leads where the child led. */
  lemma {:induction false} InsertReaches(g: Graph, n: Expr, i: nat, c: Expr, o: Expr, p: Expr)
    requires Good(g) && Inserts(g, n, i, c) && Good(WithCast(g, n, i, c)) && o in g && p in g
    ensures Reaches(WithCast(g, n, i, c), o, p) <==> Reaches(g, o, p)
    decreases g[o].level
  {
    var g' := WithCast(g, n, i, c);
    assert Below(g, o) && Below(g', o);
    if o != p {
      forall j | 0 <= j < |g[o].kids|
        ensures Reaches(g', g'[o].kids[j], p) <==> Reaches(g, g[o].kids[j], p)
      {
        InsertReaches(g, n, i, c, g[o].kids[j], p);
        if o == n && j == i {
          CastLeads(g', c, g[n].kids[i], p);
        }
      }
    }
  }

  lemma {:induction false} CastLeads(g: Graph, c: Expr, k: Expr, p: Expr)
    requires Good(g) && c in g && g[c].kind.Cast? && g[c].kids == [k] && k in g && p != c
    ensures Reaches(g, c, p) <==> Reaches(g, k, p)
  {
    assert Below(g, c);
    if Reaches(g, k, p) {
      assert Enters(g[c].kind, 0) && Reaches(g, g[c].kids[0], p);
    }
  }

  lemma {:induction false} InsertTree(g: Graph, n: Expr, i: nat, c: Expr, o: Expr)
    requires Good(g) && Inserts(g, n, i, c) && Good(WithCast(g, n, i, c)) && o in g
    ensures var t, t' := TreeOf(g, o), TreeOf(WithCast(g, n, i, c), o);
            WithCasts(t') == WithCasts(t) && (Done(t) ==> Done(t')) && t'.ty == t.ty && t'.kind == t.kind
    decreases g[o].level
  {
    var g' := WithCast(g, n, i, c);
    assert Below(g, o) && Below(g', o);
    var t, t' := TreeOf(g, o), TreeOf(g', o);
    forall j | 0 <= j < |t.kids|
      ensures KidOf(t.kind, WithCasts(t'.kids[j])) == KidOf(t.kind, WithCasts(t.kids[j]))
      ensures Enters(t.kind, j) && Done(t) ==> Done(t'.kids[j]) && KidOf(t.kind, t'.kids[j]) == t'.kids[j]
    {
      if o == n && j == i {
        CastTree(g, n, i, c);
        var k := TreeOf(g, g[n].kids[i]);
        assert WithCasts(t'.kids[j]).kids == [WithCasts(k)];
        assert KidOf(t.kind, k) != k by {
          assert KidOf(t.kind, k).ty != k.ty;
        }
      } else {
        InsertTree(g, n, i, c, g[o].kids[j]);
      }
    }
    assert WithCasts(t').kids == WithCasts(t).kids;
  }

  lemma {:induction false} InsertKept(g: Graph, n: Expr, i: nat, c: Expr, o: Expr)
    requires Good(g) && Inserts(g, n, i, c) && Good(WithCast(g, n, i, c)) && o in g
    ensures Kept(g, WithCast(g, n, i, c), o)
  {
    InsertTree(g, n, i, c, o);
    forall p | p in g
      ensures Reaches(WithCast(g, n, i, c), o, p) <==> Reaches(g, o, p)
    {
      InsertReaches(g, n, i, c, o, p);
    }
  }

  // ----- the visitor -----

  /** Visiting `n` has done all it can do there, and nothing elsewhere; what was done already is untouched. */
  ghost predicate Visited(g: Graph, g': Graph, n: Expr) {
    && n in g && Progress(g, g', g[n].level + 1) && ChangedBelow(g, g', n) && Done(TreeOf(g', n))
    && (Done(TreeOf(g, n)) ==> g' == g)
  }

  /** The first `i` entered children of `n` have been visited; `n` itself is as it was. */
  ghost predicate KidsVisited(g: Graph, g': Graph, n: Expr, i: nat) {
    && n in g && i <= |g[n].kids| && Progress(g, g', g[n].level) && ChangedBelow(g, g', n) && g'[n] == g[n]
    && (Done(TreeOf(g, n)) ==> g' == g)
    && forall j :: 0 <= j < i && Enters(g[n].kind, j) ==> g[n].kids[j] in g' && Done(TreeOf(g', g[n].kids[j]))
  }

  lemma {:induction false} NextKidVisited(g: Graph, h: Graph, g': Graph, n: Expr, i: nat)
    requires KidsVisited(g, h, n, i) && i < |g[n].kids| && Enters(g[n].kind, i) && Visited(h, g', g[n].kids[i])
    requires h[g[n].kids[i]].level < g[n].level
    ensures KidsVisited(g, g', n, i + 1)
  {
    var k := g[n].kids[i];
    ProgressTwice(g, h, g', g[n].level, h[k].level + 1);
    ChangedInChild(h, g', n, i);
    ChangedTwice(g, h, g', n, g[n].level);
    assert g'[n] == h[n];
    if Done(TreeOf(g, n)) {
      assert Done(TreeOf(g, n).kids[i]);
    }
    forall j | 0 <= j < i + 1 && Enters(g[n].kind, j)
      ensures g[n].kids[j] in g' && Done(TreeOf(g', g[n].kids[j]))
    {
      if j < i {
        assert Kept(h, g', g[n].kids[j]);
      }
    }
  }

  lemma {:induction false} SkipKid(g: Graph, h: Graph, n: Expr, i: nat)
    requires KidsVisited(g, h, n, i) && i < |g[n].kids| && !Enters(g[n].kind, i)
    ensures KidsVisited(g, h, n, i + 1)
  {
  }

  lemma {:induction false} AllKidsVisited(g: Graph, g': Graph, n: Expr)
    requires n in g && KidsVisited(g, g', n, |g[n].kids|) && !CastsKids(g[n].kind)
    ensures Visited(g, g', n)
  {
    var t := TreeOf(g', n);
    assert Below(g', n);
    forall i | 0 <= i < |t.kids| && Enters(t.kind, i)
      ensures Done(t.kids[i]) && KidOf(t.kind, t.kids[i]) == t.kids[i]
    {
      assert g[n].kids[i] in g' && Done(TreeOf(g', g[n].kids[i]));
    }
  }

  /** Child `i` of `n` has what `castIfNeeded` returns for it. */
  ghost predicate KidCast(g: Graph, g': Graph, n: Expr, i: nat) {
    && n in g && i < |g[n].kids| && Progress(g, g', g[n].level + 1) && ChangedBelow(g, g', n)
    && |TreeOf(g', n).kids| == |TreeOf(g, n).kids|
    && TreeOf(g', n).kids[i] == KidOf(g[n].kind, TreeOf(g, n).kids[i])
    && (KidOf(g[n].kind, TreeOf(g, n).kids[i]) == TreeOf(g, n).kids[i] ==> g' == g)
    && forall j :: 0 <= j < |TreeOf(g, n).kids| && j != i ==> TreeOf(g', n).kids[j] == TreeOf(g, n).kids[j]
  }

  lemma {:induction false} InsertProgress(g: Graph, n: Expr, i: nat, c: Expr)
    requires Good(g) && Inserts(g, n, i, c)
    ensures Progress(g, WithCast(g, n, i, c), g[n].level + 1) && ChangedBelow(g, WithCast(g, n, i, c), n)
  {
    var g' := WithCast(g, n, i, c);
    InsertGood(g, n, i, c);
    forall o | o in g
      ensures Kept(g, g', o)
    {
      InsertKept(g, n, i, c, o);
    }
    assert Below(g, n);
    assert Reaches(g, n, n);
  }

  lemma {:induction false} InsertCasts(g: Graph, n: Expr, i: nat, c: Expr)
    requires Good(g) && Inserts(g, n, i, c)
    ensures KidCast(g, WithCast(g, n, i, c), n, i)
  {
    var g' := WithCast(g, n, i, c);
    InsertProgress(g, n, i, c);
    CastTree(g, n, i, c);
    assert Below(g, n) && Below(g', n);
    var k := TreeOf(g, n).kids[i];
    assert KidOf(g[n].kind, k).ty != k.ty;
  }

  lemma {:induction false} CastStays(k: Kind, t: Tree)
    requires Done(t) && CastsKids(k)
    ensures Done(KidOf(k, t)) && KidOf(k, KidOf(k, t)) == KidOf(k, t)
  {
  }

  ghost predicate BothCastTo(g: Graph, g': Graph, n: Expr) {
    && n in g && Progress(g, g', g[n].level + 1) && ChangedBelow(g, g', n)
    && |TreeOf(g', n).kids| == |TreeOf(g, n).kids| == 2
    && TreeOf(g', n).kids[0] == KidOf(g[n].kind, TreeOf(g, n).kids[0])
    && TreeOf(g', n).kids[1] == KidOf(g[n].kind, TreeOf(g, n).kids[1])
    && (TreeOf(g', n) == TreeOf(g, n) ==> g' == g)
  }

  lemma {:induction false} BothKidsCast(g: Graph, h: Graph, g': Graph, n: Expr)
    requires n in g && |g[n].kids| == 2 && KidCast(g, h, n, 0) && KidCast(h, g', n, 1)
    ensures BothCastTo(g, g', n)
  {
    assert Kept(g, h, n) && Kept(h, g', n);
    ProgressTwice(g, h, g', g[n].level + 1, g[n].level + 1);
    ChangedTwice(g, h, g', n, g[n].level + 1);
    if TreeOf(g', n) == TreeOf(g, n) {
      assert TreeOf(h, n).kids[0] == TreeOf(g', n).kids[0] == TreeOf(g, n).kids[0];
      assert h == g;
    }
  }

  lemma {:induction false} PairDone(t: Tree)
    requires |t.kids| == 2 && Done(t.kids[0]) && KidOf(t.kind, t.kids[0]) == t.kids[0]
    requires Done(t.kids[1]) && KidOf(t.kind, t.kids[1]) == t.kids[1]
    ensures Done(t)
  {
  }

  lemma {:induction false} KidsDone(g: Graph, g': Graph, n: Expr)
    requires n in g && |g[n].kids| == 2 && KidsVisited(g, g', n, 2) && CastsKids(g[n].kind)
    ensures Done(TreeOf(g', n).kids[0]) && Done(TreeOf(g', n).kids[1])
  {
    assert Below(g', n);
    assert Enters(g[n].kind, 0) && Enters(g[n].kind, 1);
    assert Done(TreeOf(g', g[n].kids[0])) && Done(TreeOf(g', g[n].kids[1]));
  }

  lemma {:induction false} NothingToCast(g: Graph, g': Graph, n: Expr)
    requires n in g && |g[n].kids| == 2 && BothCastTo(g, g', n) && CastsKids(g[n].kind) && Done(TreeOf(g, n))
    ensures g' == g
  {
    var t := TreeOf(g, n);
    assert Kept(g, g', n);
    assert Enters(t.kind, 0) && Enters(t.kind, 1);
    assert TreeOf(g', n).kids == t.kids;
  }

  lemma {:induction false} BothDone(g0: Graph, g1: Graph, g2: Graph, n: Expr)
    requires n in g0 && |g0[n].kids| == 2 && KidsVisited(g0, g1, n, 2) && CastsKids(g0[n].kind) && BothCastTo(g1, g2, n)
    ensures n in g2 && Done(TreeOf(g2, n))
    ensures Done(TreeOf(g0, n)) ==> g2 == g0
  {
    KidsDone(g0, g1, n);
    assert Kept(g1, g2, n);
    var k, t := g0[n].kind, TreeOf(g1, n);
    CastStays(k, t.kids[0]);
    CastStays(k, t.kids[1]);
    PairDone(TreeOf(g2, n));
    if Done(TreeOf(g0, n)) {
      NothingToCast(g1, g2, n);
    }
  }

  lemma {:induction false} BothCast(g0: Graph, g1: Graph, g2: Graph, n: Expr)
    requires n in g0 && |g0[n].kids| == 2 && KidsVisited(g0, g1, n, 2) && CastsKids(g0[n].kind) && BothCastTo(g1, g2, n)
    ensures Visited(g0, g2, n)
  {
    ProgressTwice(g0, g1, g2, g0[n].level, g0[n].level + 1);
    ChangedTwice(g0, g1, g2, n, g0[n].level);
    BothDone(g0, g1, g2, n);
  }

  lemma {:induction false} KidsRemain(g: Graph, g': Graph, n: Expr)
    requires n in g && Progress(g, g', g[n].level + 1)
    ensures n in g' && g'[n].kind == g[n].kind && |g'[n].kids| == Arity(g[n].kind)
  {
    assert Kept(g, g', n) && Below(g', n);
  }

  // ----- the whole pass -----

  /** The visitor comes to `o` from one of the statements. */
  ghost predicate ReachedFrom(g: Graph, roots: seq<Expr>, o: Expr)
    requires Good(g) && forall r :: r in roots ==> r in g
  {
    exists i :: 0 <= i < |roots| && Reaches(g, roots[i], o)
  }

  /** All statements are done, expressions keep what casts everywhere would make of them, and nothing is
      changed that the visitor does not reach. */
  ghost predicate PassDone(g: Graph, g': Graph, roots: seq<Expr>) {
    && Good(g) && Good(g') && g.Keys <= g'.Keys && (forall r :: r in roots ==> r in g)
    && (forall o {:trigger Kept(g, g', o)} :: o in g ==> Kept(g, g', o))
    && (forall r :: r in roots ==> r in g' && Done(TreeOf(g', r)))
    && (forall o {:trigger ReachedFrom(g, roots, o)} :: o in g && !ReachedFrom(g, roots, o) ==> o in g' && g'[o] == g[o])
    && ((forall r :: r in roots ==> Done(TreeOf(g, r))) ==> g' == g)
  }

  lemma {:induction false} NextStatement(g: Graph, h: Graph, g': Graph, roots: seq<Expr>, r: Expr)
    requires PassDone(g, h, roots) && r in g && Visited(h, g', r)
    ensures PassDone(g, g', roots + [r])
  {
    var all := roots + [r];
    forall o | o in g
      ensures Kept(g, g', o)
    {
      assert Kept(g, h, o) && Kept(h, g', o);
      KeptTwice(g, h, g', o);
    }
    forall s | s in all
      ensures s in g && s in g' && Done(TreeOf(g', s))
    {
      if s in roots {
        assert Kept(h, g', s);
      }
    }
    forall o | o in g && !ReachedFrom(g, all, o)
      ensures o in g' && g'[o] == g[o]
    {
      assert all[|roots|] == r && forall i :: 0 <= i < |roots| ==> all[i] == roots[i];
      assert !ReachedFrom(g, roots, o) && !Reaches(g, r, o);
      assert Kept(g, h, r);
      assert !Reaches(h, r, o);
    }
    if forall s :: s in all ==> Done(TreeOf(g, s)) {
      assert h == g;
      assert r in all;
    }
  }

  /** If the visitor goes everywhere in a statement, it becomes the tree with casts everywhere. */
  lemma {:induction false} PassMakesWithCasts(g: Graph, g': Graph, roots: seq<Expr>, r: Expr)
    requires PassDone(g, g', roots) && r in roots && AllEntered(TreeOf(g', r))
    ensures TreeOf(g', r) == WithCasts(TreeOf(g, r))
  {
    DoneIsWithCasts(TreeOf(g', r));
    assert Kept(g, g', r);
  }

  lemma {:induction false} ReachedDone(g: Graph, r: Expr, e: Expr)
    requires Good(g) && r in g && e in g && Done(TreeOf(g, r)) && Reaches(g, r, e)
    ensures Done(TreeOf(g, e)) && Shaped(TreeOf(g, e))
    decreases g[r].level
  {
    assert Below(g, r);
    if r == e {
      TreeShaped(g, e);
    } else {
      var i :| 0 <= i < |g[r].kids| && Enters(g[r].kind, i) && Reaches(g, g[r].kids[i], e);
      assert TreeOf(g, r).kids[i] == TreeOf(g, g[r].kids[i]);
      ReachedDone(g, g[r].kids[i], e);
    }
  }

  lemma {:induction false} TreeShaped(g: Graph, o: Expr)
    requires Good(g) && o in g
    ensures Shaped(TreeOf(g, o))
    decreases g[o].level
  {
    assert Below(g, o);
    forall i | 0 <= i < |g[o].kids|
      ensures Shaped(TreeOf(g, g[o].kids[i]))
    {
      TreeShaped(g, g[o].kids[i]);
    }
  }

  /** An integer expression or comparison that the visitor comes to has, after the pass, the value of the IR. */
  lemma {:induction false} PassKeepsMeaning(g: Graph, g': Graph, roots: seq<Expr>, e: Expr, env: Env)
    requires PassDone(g, g', roots) && e in g && ReachedFrom(g, roots, e) && WellTyped(TreeOf(g, e)) && IsWide(g[e].ty.width)
    requires ShiftsDefined(TreeOf(g, e), env)
    ensures e in g' && Shaped(TreeOf(g', e))
    ensures var t := TreeOf(g, e);
            CEval(TreeOf(g', e), env) == if t.kind.Cmp? then Truth(Llvm(t, env)) else Typed(t.ty, Llvm(t, env))
  {
    assert Kept(g, g', e);
    var i :| 0 <= i < |roots| && Reaches(g, roots[i], e);
    assert roots[i] in roots && Kept(g, g', roots[i]);
    ReachedDone(g', roots[i], e);
    DoneEvaluates(TreeOf(g', e), env);
    if TreeOf(g, e).kind.Cmp? {
      ComparisonAgrees(TreeOf(g, e), env);
    } else {
      CastsAgree(TreeOf(g, e), env);
    }
  }

  lemma {:induction false} CastChanges(t: Tree, unsigned: bool)
    ensures CastIfNeeded(t, unsigned) == t <==> t.ty.unsigned == unsigned
  {
    assert t.ty.unsigned != unsigned ==> CastIfNeeded(t, unsigned).ty != t.ty;
  }

  /** Both operands of every arithmetic, shift and comparison node that the visitor comes to have the
      signedness of the node. */
  lemma {:induction false} OperandsSigned(g: Graph, g': Graph, roots: seq<Expr>, e: Expr, i: nat)
    requires PassDone(g, g', roots) && e in g && ReachedFrom(g, roots, e) && i < 2
    requires g[e].kind.Arith? || g[e].kind.Shl? || g[e].kind.Cmp?
    ensures e in g' && |g'[e].kids| == 2 && g'[e].kids[i] in g' && g'[g'[e].kids[i]].ty.unsigned == g[e].kind.isUnsigned
  {
    assert Kept(g, g', e);
    var j :| 0 <= j < |roots| && Reaches(g, roots[j], e);
    assert roots[j] in roots && Kept(g, g', roots[j]);
    ReachedDone(g', roots[j], e);
    assert Below(g', e);
    var t := TreeOf(g', e);
    assert t.kids[i] == TreeOf(g', g'[e].kids[i]);
    assert Enters(t.kind, i) && KidOf(t.kind, t.kids[i]) == t.kids[i];
    CastChanges(t.kids[i], t.kind.isUnsigned);
  }

  /** What no statement leads to, such as a loop condition that is used nowhere else, is as before. */
  lemma {:induction false} UnreachedSame(g: Graph, g': Graph, roots: seq<Expr>, o: Expr)
    requires PassDone(g, g', roots) && o in g
    requires forall p :: p in g && Beneath(g, o, p) ==> !ReachedFrom(g, roots, p)
    ensures o in g' && TreeOf(g', o) == TreeOf(g, o)
    decreases g[o].level
  {
    assert Below(g, o);
    assert Beneath(g, o, o);
    assert g'[o] == g[o];
    forall i | 0 <= i < |g[o].kids|
      ensures g[o].kids[i] in g' && TreeOf(g', g[o].kids[i]) == TreeOf(g, g[o].kids[i])
    {
      forall p | p in g && Beneath(g, g[o].kids[i], p)
        ensures !ReachedFrom(g, roots, p)
      {
        assert Beneath(g, o, p);
      }
      UnreachedSame(g, g', roots, g[o].kids[i]);
    }
    assert TreeOf(g', o).kids == TreeOf(g, o).kids;
  }

  /** Node `p` occurs in the expression `o`, entered or not. */
  ghost predicate Beneath(g: Graph, o: Expr, p: Expr)
    requires Good(g) && o in g
    decreases g[o].level
  {
    assert Below(g, o);
    o == p || exists i :: 0 <= i < |g[o].kids| && Beneath(g, g[o].kids[i], p)
  }

  class Visitor {
    ghost var owned: set<Expr>

    ghost function G(): Graph
      reads this, owned
    {
      map o | o in owned :: Cell(o.kind, o.ty, o.kids, o.level)
    }

    method CastIfNeeded(e: Expr, isUnsigned: bool) returns (r: Expr)
      requires e in owned
      modifies this`owned
      ensures e.ty.unsigned == isUnsigned ==> r == e && owned == old(owned)
      ensures e.ty.unsigned != isUnsigned ==>
                fresh(r) && owned == old(owned) + {r} && r.kind == Cast && r.ty == Toggle(e.ty) && r.kids == [e] && r.level == e.level + 1
    {
      r := e;
      if e.ty.unsigned != isUnsigned {
        r := new Expr(Cast, Toggle(e.ty), [e], e.level + 1);
        owned := owned + {r};
      }
    }

    method CastKid(n: Expr, i: nat)
      requires Good(G()) && n in owned && CastsKids(n.kind) && i < |n.kids| == 2
      modifies this, n
      ensures old(owned) <= owned && fresh(owned - old(owned))
      ensures KidCast(old(G()), G(), n, i)
    {
      ghost var g := G();
      assert Below(g, n);
      var c := CastIfNeeded(n.kids[i], n.kind.isUnsigned);
      n.kids := n.kids[i := c];
      if owned == old(owned) {
        assert g[n].kids[i := c] == g[n].kids;
        assert G() == g;
        NoProgress(g, n.level + 1);
      } else {
        assert G() == WithCast(g, n, i, c);
        InsertCasts(g, n, i, c);
      }
    }

    /** The children that the visitor enters, in order. */
    method VisitKids(n: Expr)
      requires Good(G()) && n in owned
      modifies this, owned
      ensures old(owned) <= owned && fresh(owned - old(owned))
      ensures KidsVisited(old(G()), G(), n, |old(n.kids)|) && n.kids == old(n.kids)
      decreases n.level, 0
    {
      ghost var g := G();
      NoProgress(g, n.level);
      var i := 0;
      while i < |n.kids|
        invariant i <= |n.kids| && n.kids == g[n].kids && n in owned
        invariant old(owned) <= owned && fresh(owned - old(owned))
        invariant KidsVisited(g, G(), n, i)
        decreases |g[n].kids| - i
      {
        ghost var h := G();
        assert Below(g, n) && Below(h, n);
        if Enters(n.kind, i) {
          Visit(n.kids[i]);
          NextKidVisited(g, h, G(), n, i);
          assert G()[n] == g[n];
        } else {
          SkipKid(g, h, n, i);
        }
        i := i + 1;
      }
    }

    method CastBoth(n: Expr)
      requires Good(G()) && n in owned && CastsKids(n.kind) && |n.kids| == 2
      modifies this, n
      ensures old(owned) <= owned && fresh(owned - old(owned))
      ensures BothCastTo(old(G()), G(), n)
    {
      ghost var g := G();
      CastKid(n, 0);
      ghost var h := G();
      KidsRemain(g, h, n);
      CastKid(n, 1);
      BothKidsCast(g, h, G(), n);
    }

    method Visit(n: Expr)
      requires Good(G()) && n in owned
      modifies this, owned
      ensures old(owned) <= owned && fresh(owned - old(owned))
      ensures Visited(old(G()), G(), n)
      decreases n.level, 1
    {
      ghost var g := G();
      assert Below(g, n);
      VisitKids(n);
      if CastsKids(n.kind) {
        ghost var h := G();
        CastBoth(n);
        BothCast(g, h, G(), n);
      } else {
        AllKidsVisited(g, G(), n);
      }
    }

    method VisitStatement(e: Expr, ghost g: Graph, ghost seen: seq<Expr>)
      requires PassDone(g, G(), seen) && e in g
      modifies this, owned
      ensures old(owned) <= owned && fresh(owned - old(owned))
      ensures PassDone(g, G(), seen + [e])
    {
      ghost var h := G();
      assert e in h;
      Visit(e);
      NextStatement(g, h, G(), seen, e);
    }

    /** The statements of one block, after those seen already. */
    method VisitBlock(block: seq<Expr>, ghost g: Graph, ghost seen: seq<Expr>)
      requires PassDone(g, G(), seen) && forall e :: e in block ==> e in g
      modifies this, owned
      ensures old(owned) <= owned && fresh(owned - old(owned))
      ensures PassDone(g, G(), seen + block)
    {
      assert seen + block[..0] == seen;
      for i := 0 to |block|
        invariant old(owned) <= owned && fresh(owned - old(owned))
        invariant PassDone(g, G(), seen + block[..i])
      {
        assert seen + block[..i + 1] == seen + block[..i] + [block[i]];
        VisitStatement(block[i], g, seen + block[..i]);
      }
      assert block[..|block|] == block;
    }

    /** All statements of all blocks. */
    method AddSignCasts(blocks: seq<seq<Expr>>)
      requires Good(G()) && forall r :: r in Flat(blocks) ==> r in owned
      modifies this, owned
      ensures old(owned) <= owned && fresh(owned - old(owned))
      ensures PassDone(old(G()), G(), Flat(blocks))
    {
      ghost var g := G();
      NothingSeen(g);
      for b := 0 to |blocks|
        invariant old(owned) <= owned && fresh(owned - old(owned))
        invariant PassDone(g, G(), Flat(blocks[..b]))
      {
        FlatPrefix(blocks, b);
        forall e | e in blocks[b]
          ensures e in g
        {
          FlatHas(blocks, b, e);
        }
        VisitBlock(blocks[b], g, Flat(blocks[..b]));
      }
      assert blocks[..|blocks|] == blocks;
    }
  }

  lemma {:induction false} NothingSeen(g: Graph)
    requires Good(g)
    ensures PassDone(g, g, Flat([]))
  {
    NoProgress(g, 0);
  }

  function Flat<T>(ss: seq<seq<T>>): seq<T> {
    if ss == [] then [] else ss[0] + Flat(ss[1..])
  }

  lemma {:induction false} FlatPrefix<T>(ss: seq<seq<T>>, b: nat)
    requires b < |ss|
    ensures Flat(ss[..b + 1]) == Flat(ss[..b]) + ss[b]
    decreases ss
  {
    if b == 0 {
      assert ss[..1] == [ss[0]] && ss[..0] == [];
      assert Flat([ss[0]]) == ss[0] + Flat([ss[0]][1..]);
    } else {
      assert ss[..b + 1][1..] == ss[1..][..b] && ss[..b][1..] == ss[1..][..b - 1];
      FlatPrefix(ss[1..], b - 1);
    }
  }

  lemma {:induction false} FlatHas<T>(ss: seq<seq<T>>, b: nat, e: T)
    requires b < |ss| && e in ss[b]
    ensures e in Flat(ss)
  {
    if b > 0 {
      FlatHas(ss[1..], b - 1, e);
    }
  }
}
