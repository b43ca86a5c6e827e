/** The order in which global variables are defined: a depth-first walk through the constants that
    their initialisers are made of. Initialisers may refer to each other and to themselves. */
module GlobalOrder {
  /** `operands[c]` are the constants that constant `c` is made of; a global's is its initialiser. */
  datatype Constants = Constants(operands: seq<seq<nat>>, globals: set<nat>)

  /** Constants other than globals are built bottom-up: `rank` goes down from each to its operands. */
  ghost predicate WellFounded(c: Constants, rank: seq<nat>) {
    && |rank| == |c.operands|
    && (forall g :: g in c.globals ==> g < |c.operands| && rank[g] == 0)
    && (forall k, i :: 0 <= k < |c.operands| && 0 <= i < |c.operands[k]| ==>
         c.operands[k][i] < |c.operands| && (k !in c.globals ==> rank[c.operands[k][i]] < rank[k]))
  }

  /** Global `h` occurs in constant `k`, not counting what other globals are made of. */
  ghost predicate Mentions(c: Constants, rank: seq<nat>, k: nat, h: nat)
    requires WellFounded(c, rank) && k < |c.operands|
    decreases rank[k]
  {
    if k in c.globals then k == h
    else exists i :: 0 <= i < |c.operands[k]| && Mentions(c, rank, c.operands[k][i], h)
  }

  /** The initialiser of global `g` mentions global `h`. */
  ghost predicate Refers(c: Constants, rank: seq<nat>, g: nat, h: nat)
    requires WellFounded(c, rank) && g < |c.operands|
  {
    exists i :: 0 <= i < |c.operands[g]| && Mentions(c, rank, c.operands[g][i], h)
  }

  lemma {:induction false} MentionsGlobals(c: Constants, rank: seq<nat>, k: nat, h: nat)
    requires WellFounded(c, rank) && k < |c.operands| && Mentions(c, rank, k, h)
    ensures h in c.globals
    decreases rank[k]
  {
    if k !in c.globals {
      var i :| 0 <= i < |c.operands[k]| && Mentions(c, rank, c.operands[k][i], h);
      MentionsGlobals(c, rank, c.operands[k][i], h);
    }
  }

  /** A chain of references from global to global. */
  ghost predicate Chain(c: Constants, rank: seq<nat>, p: seq<nat>)
    requires WellFounded(c, rank)
  {
    && p != [] && (forall i :: 0 <= i < |p| ==> p[i] in c.globals)
    && forall i :: 0 <= i < |p| - 1 ==> Refers(c, rank, p[i], p[i + 1])
  }

  ghost predicate Reaches(c: Constants, rank: seq<nat>, g: nat, h: nat)
    requires WellFounded(c, rank)
  {
    exists p :: Chain(c, rank, p) && p[0] == g && p[|p| - 1] == h
  }

  lemma {:induction false} ReachesItself(c: Constants, rank: seq<nat>, g: nat)
    requires WellFounded(c, rank) && g in c.globals
    ensures Reaches(c, rank, g, g)
  {
    assert Chain(c, rank, [g]);
  }

  lemma {:induction false} ReachesFurther(c: Constants, rank: seq<nat>, x: nat, g: nat, h: nat)
    requires WellFounded(c, rank) && g < |c.operands| && Reaches(c, rank, x, g) && Refers(c, rank, g, h)
    ensures Reaches(c, rank, x, h)
  {
    var p :| Chain(c, rank, p) && p[0] == x && p[|p| - 1] == g;
    var i :| 0 <= i < |c.operands[g]| && Mentions(c, rank, c.operands[g][i], h);
    MentionsGlobals(c, rank, c.operands[g][i], h);
    var q := p + [h];
    forall j | 0 <= j < |q| - 1
      ensures Refers(c, rank, q[j], q[j + 1])
    {
      if j < |p| - 1 {
        assert Refers(c, rank, p[j], p[j + 1]);
      }
    }
    assert Chain(c, rank, q);
  }

  // ----- the order -----

  predicate Distinct(s: seq<nat>) {
    forall i, j :: 0 <= i < j < |s| ==> s[i] != s[j]
  }

  /** What a definition refers to is defined before it, or leads back to it. */
  ghost predicate Placed(c: Constants, rank: seq<nat>, order: seq<nat>, i: nat)
    requires WellFounded(c, rank) && i < |order| && order[i] in c.globals
  {
    forall h :: Refers(c, rank, order[i], h) ==> h in order[..i] || Reaches(c, rank, h, order[i])
  }

  ghost predicate Ordered(c: Constants, rank: seq<nat>, order: seq<nat>)
    requires WellFounded(c, rank)
  {
    && Distinct(order)
    && (forall g :: g in order ==> g in c.globals)
    && forall i :: 0 <= i < |order| ==> Placed(c, rank, order, i)
  }

  /** Everything a definition refers to is defined before it. */
  ghost predicate AllBefore(c: Constants, rank: seq<nat>, order: seq<nat>)
    requires WellFounded(c, rank) && forall g :: g in order ==> g in c.globals
  {
    forall i, h :: 0 <= i < |order| && order[i] in c.globals && Refers(c, rank, order[i], h) ==> h in order[..i]
  }

  lemma {:induction false} ChainDescends(c: Constants, rank: seq<nat>, order: seq<nat>, p: seq<nat>, i: nat, j: nat)
    requires WellFounded(c, rank) && Distinct(order) && (forall g :: g in order ==> g in c.globals)
    requires AllBefore(c, rank, order) && Chain(c, rank, p)
    requires i < |order| && order[i] == p[0] && j < |order| && order[j] == p[|p| - 1]
    ensures j <= i
    decreases |p|
  {
    if |p| > 1 {
      assert Refers(c, rank, p[0], p[1]);
      assert p[1] in order[..i];
      var k :| 0 <= k < i && order[k] == p[1];
      var q := p[1..];
      forall m | 0 <= m < |q| - 1
        ensures Refers(c, rank, q[m], q[m + 1])
      {
        assert Refers(c, rank, p[m + 1], p[m + 2]);
      }
      ChainDescends(c, rank, order, q, k, j);
    }
  }

  /** The order is as good as any: it fails to define something before its use only if some cycle of
      references makes that impossible. */
  lemma {:induction false} OrderExact(c: Constants, rank: seq<nat>, order: seq<nat>)
    requires WellFounded(c, rank) && Ordered(c, rank, order) && forall g :: g in c.globals ==> g in order
    ensures AllBefore(c, rank, order) <==>
            forall g, h :: g in c.globals && Refers(c, rank, g, h) ==> !Reaches(c, rank, h, g)
  {
    if forall g, h :: g in c.globals && Refers(c, rank, g, h) ==> !Reaches(c, rank, h, g) {
      forall i, h | 0 <= i < |order| && order[i] in c.globals && Refers(c, rank, order[i], h)
        ensures h in order[..i]
      {
        assert Placed(c, rank, order, i);
      }
    }
    if AllBefore(c, rank, order) {
      forall g, h | g in c.globals && Refers(c, rank, g, h)
        ensures !Reaches(c, rank, h, g)
      {
        if Reaches(c, rank, h, g) {
          var p :| Chain(c, rank, p) && p[0] == h && p[|p| - 1] == g;
          var i :| 0 <= i < |order| && order[i] == g;
          var k :| 0 <= k < i && order[k] == h;
          ChainDescends(c, rank, order, p, k, i);
        }
      }
    }
  }

  /** Globals entered but not finished. */
  ghost function Active(visited: set<nat>, order: seq<nat>): set<nat> {
    visited - set g | g in order
  }

  /** Every active global leads to whatever constant `k` mentions. */
  ghost predicate LeadsTo(c: Constants, rank: seq<nat>, active: set<nat>, k: nat)
    requires WellFounded(c, rank) && k < |c.operands|
  {
    forall x, h :: x in active && Mentions(c, rank, k, h) ==> Reaches(c, rank, x, h)
  }

  ghost predicate AllMentioned(c: Constants, rank: seq<nat>, visited: set<nat>, k: nat)
    requires WellFounded(c, rank) && k < |c.operands|
  {
    forall h :: Mentions(c, rank, k, h) ==> h in visited
  }

  ghost predicate Consistent(c: Constants, rank: seq<nat>, visited: set<nat>, order: seq<nat>)
    requires WellFounded(c, rank)
  {
    && Ordered(c, rank, order) && visited <= c.globals && forall g :: g in order ==> g in visited
  }

  lemma {:induction false} LeadsToOperand(c: Constants, rank: seq<nat>, active: set<nat>, k: nat, i: nat)
    requires WellFounded(c, rank) && k < |c.operands| && i < |c.operands[k]| && LeadsTo(c, rank, active, k)
    requires k in active || k !in c.globals
    ensures LeadsTo(c, rank, active, c.operands[k][i])
  {
    var o := c.operands[k][i];
    forall x, h | x in active && Mentions(c, rank, o, h)
      ensures Reaches(c, rank, x, h)
    {
      if k in c.globals {
        assert Mentions(c, rank, k, k);
        assert Refers(c, rank, k, h);
        ReachesFurther(c, rank, x, k, h);
      } else {
        assert Mentions(c, rank, k, h);
      }
    }
  }

  lemma {:induction false} EnterGlobal(c: Constants, rank: seq<nat>, active: set<nat>, g: nat)
    requires WellFounded(c, rank) && g in c.globals && LeadsTo(c, rank, active, g)
    ensures LeadsTo(c, rank, active + {g}, g)
  {
    ReachesItself(c, rank, g);
  }

  /** Finishing a global whose references have all been entered. */
  lemma {:induction false} FinishGlobal(c: Constants, rank: seq<nat>, visited: set<nat>, order: seq<nat>, g: nat)
    requires WellFounded(c, rank) && Consistent(c, rank, visited, order) && g in visited && g !in order
    requires LeadsTo(c, rank, Active(visited, order), g)
    requires forall i :: 0 <= i < |c.operands[g]| ==> AllMentioned(c, rank, visited, c.operands[g][i])
    ensures Consistent(c, rank, visited, order + [g])
  {
    var next := order + [g];
    forall i | 0 <= i < |next|
      ensures Placed(c, rank, next, i)
    {
      if i < |order| {
        assert Placed(c, rank, order, i);
        assert next[..i] == order[..i];
      } else {
        assert next[..i] == order;
        forall h | Refers(c, rank, g, h)
          ensures h in order || Reaches(c, rank, h, g)
        {
          assert Mentions(c, rank, g, g);
          if h !in order {
            assert h in Active(visited, order);
          }
        }
      }
    }
  }

  lemma {:induction false} SubsetSize(a: set<nat>, b: set<nat>)
    requires a <= b
    ensures |a| <= |b|
    decreases a
  {
    if a != {} {
      var x :| x in a;
      SubsetSize(a - {x}, b - {x});
    }
  }

  /** The termination measure: fewer globals to enter, or further down in one initialiser. */
  lemma {:induction false} WalkDescends(c: Constants, rank: seq<nat>, was: set<nat>, now: set<nat>, k: nat, i: nat)
    requires WellFounded(c, rank) && k < |c.operands| && i < |c.operands[k]| && was <= now
    requires k in c.globals ==> k in now && k !in was
    ensures || |c.globals - now| < |c.globals - was|
            || (|c.globals - now| == |c.globals - was| && rank[c.operands[k][i]] < rank[k])
  {
    SubsetSize(c.globals - now, c.globals - was);
    if k in c.globals {
      SubsetSize(c.globals - now, c.globals - was - {k});
    }
  }

  // ----- the walk as a function -----

  datatype Walk = Walk(visited: set<nat>, order: seq<nat>)

  /** What walking constant `con` makes of the globals visited and the order: operands from first to last,
      then the global itself. */
  ghost function Walked(c: Constants, rank: seq<nat>, con: nat, w: Walk): (r: Walk)
    requires WellFounded(c, rank) && con < |c.operands|
    ensures w.visited <= r.visited && w.order <= r.order
    decreases |c.globals - w.visited|, rank[con], 1, 0
  {
    if con in c.globals && con in w.visited then w
    else
      var entered := if con in c.globals then w.visited + {con} else w.visited;
      var r := WalkedOperands(c, rank, con, |c.operands[con]|, w.visited, Walk(entered, w.order));
      if con in c.globals then Walk(r.visited, r.order + [con]) else r
  }

  ghost function WalkedOperands(c: Constants, rank: seq<nat>, con: nat, n: nat, was: set<nat>, w: Walk): (r: Walk)
    requires WellFounded(c, rank) && con < |c.operands| && n <= |c.operands[con]| && was <= w.visited
    requires con in c.globals ==> con in w.visited && con !in was
    ensures w.visited <= r.visited && w.order <= r.order
    decreases |c.globals - was|, rank[con], 0, n
  {
    if n == 0 then w
    else
      var r := WalkedOperands(c, rank, con, n - 1, was, w);
      WalkDescends(c, rank, was, r.visited, con, n - 1);
      Walked(c, rank, c.operands[con][n - 1], r)
  }

  lemma {:induction false} WalkedStep(c: Constants, rank: seq<nat>, con: nat, w: Walk, r: Walk)
    requires WellFounded(c, rank) && con < |c.operands| && (con in c.globals ==> con !in w.visited)
    requires var entered := if con in c.globals then w.visited + {con} else w.visited;
             r == WalkedOperands(c, rank, con, |c.operands[con]|, w.visited, Walk(entered, w.order))
    ensures Walked(c, rank, con, w) == if con in c.globals then Walk(r.visited, r.order + [con]) else r
  {
  }

  ghost function WalkedList(c: Constants, rank: seq<nat>, globals: seq<nat>): Walk
    requires WellFounded(c, rank) && forall i :: 0 <= i < |globals| ==> globals[i] < |c.operands|
  {
    if globals == [] then Walk({}, [])
    else Walked(c, rank, globals[|globals| - 1], WalkedList(c, rank, globals[..|globals| - 1]))
  }

  /** Globals listed later do not change the order of what the earlier ones have led to. */
  lemma {:induction false} ListInOrder(c: Constants, rank: seq<nat>, globals: seq<nat>, i: nat)
    requires WellFounded(c, rank) && i <= |globals| && forall j :: 0 <= j < |globals| ==> globals[j] < |c.operands|
    ensures WalkedList(c, rank, globals[..i]).order <= WalkedList(c, rank, globals).order
  {
    if i < |globals| {
      var most := globals[..|globals| - 1];
      assert most[..i] == globals[..i];
      ListInOrder(c, rank, most, i);
    } else {
      assert globals[..i] == globals;
    }
  }

  /** Three globals, listed in the order 0, 1, 2; the first one's initialiser is a constant of references to
      the other two, the last one refers to itself. */
  lemma {:induction false} ReferencesFirst(c: Constants, rank: seq<nat>)
    requires c == Constants([[3], [], [2], [2, 1]], {0, 1, 2}) && rank == [0, 0, 0, 1]
    ensures WellFounded(c, rank) && WalkedList(c, rank, [0, 1, 2]).order == [2, 1, 0]
  {
    assert WellFounded(c, rank);
    var w0 := Walk({0}, []);
    var w2 := Walk({0, 2}, []);
    assert Walked(c, rank, 2, w2) == w2;
    assert WalkedOperands(c, rank, 2, 0, {0}, w2) == w2;
    assert WalkedOperands(c, rank, 2, 1, {0}, w2) == w2;
    var w3 := Walk({0, 2}, [2]);
    assert Walked(c, rank, 2, w0) == w3 by {
      assert {0} + {2} == {0, 2} && [] + [2] == [2];
    }
    var w4 := Walk({0, 2, 1}, [2, 1]);
    assert Walked(c, rank, 1, w3) == w4 by {
      assert {0, 2} + {1} == {0, 2, 1} && [2] + [1] == [2, 1];
      assert WalkedOperands(c, rank, 1, 0, {0, 2}, Walk({0, 2, 1}, [2])) == Walk({0, 2, 1}, [2]);
    }
    ThreeWalked(c, rank, w0, w3, w4);
  }

  lemma {:induction false} ThreeWalked(c: Constants, rank: seq<nat>, w0: Walk, w3: Walk, w4: Walk)
    requires c == Constants([[3], [], [2], [2, 1]], {0, 1, 2}) && WellFounded(c, rank)
    requires w0 == Walk({0}, []) && Walked(c, rank, 2, w0) == w3 && Walked(c, rank, 1, w3) == w4 && w4 == Walk({0, 2, 1}, [2, 1])
    ensures WalkedList(c, rank, [0, 1, 2]).order == [2, 1, 0]
  {
    assert WalkedOperands(c, rank, 3, 0, {0}, w0) == w0;
    assert WalkedOperands(c, rank, 3, 1, {0}, w0) == w3;
    assert WalkedOperands(c, rank, 3, 2, {0}, w0) == w4;
    assert Walked(c, rank, 3, w0) == w4;
    assert WalkedOperands(c, rank, 0, 0, {}, w0) == w0;
    assert WalkedOperands(c, rank, 0, 1, {}, w0) == w4;
    assert {} + {0} == {0};
    assert Walked(c, rank, 0, Walk({}, [])) == Walk(w4.visited, [2, 1] + [0]);
    assert [0, 1, 2][..2] == [0, 1] && [0, 1][..1] == [0] && [0][..0] == [];
    assert WalkedList(c, rank, [0]) == Walk(w4.visited, [2, 1, 0]);
    assert WalkedList(c, rank, [0, 1]) == WalkedList(c, rank, [0]);
  }

  class TopologicalOrder {
    var visited: set<nat>
    var order: seq<nat>

    constructor ()
      ensures visited == {} && order == []
    {
      visited, order := {}, [];
    }

    /** Walks constant `con`: every global it mentions is entered; those entered on the way are also
        finished, so the same globals are active before and after. */
    method ComputeTopo(c: Constants, con: nat, ghost rank: seq<nat>)
      requires WellFounded(c, rank) && con < |c.operands|
      requires Consistent(c, rank, visited, order)
      requires LeadsTo(c, rank, Active(visited, order), con)
      modifies this
      ensures Consistent(c, rank, visited, order) && AllMentioned(c, rank, visited, con)
      ensures old(visited) <= visited && old(order) <= order
      ensures Active(visited, order) == old(Active(visited, order))
      ensures Walk(visited, order) == Walked(c, rank, con, old(Walk(visited, order)))
      decreases |c.globals - visited|, rank[con], 1
    {
      if con in c.globals {
        if con in visited {
          return;
        }
        EnterGlobal(c, rank, Active(visited, order), con);
        visited := visited + {con};
        assert Active(visited, order) == old(Active(visited, order)) + {con};
      }
      WalkOperands(c, con, rank, old(visited));
      WalkedStep(c, rank, con, old(Walk(visited, order)), Walk(visited, order));
      if con in c.globals {
        FinishGlobal(c, rank, visited, order, con);
        order := order + [con];
      }
    }

    method WalkOperands(c: Constants, con: nat, ghost rank: seq<nat>, ghost was: set<nat>)
      requires WellFounded(c, rank) && con < |c.operands|
      requires Consistent(c, rank, visited, order)
      requires LeadsTo(c, rank, Active(visited, order), con)
      requires was <= visited && (con in c.globals ==> con in visited && con !in was && con !in order)
      modifies this
      ensures Consistent(c, rank, visited, order)
      ensures forall j :: 0 <= j < |c.operands[con]| ==> AllMentioned(c, rank, visited, c.operands[con][j])
      ensures old(visited) <= visited && old(order) <= order
      ensures Active(visited, order) == old(Active(visited, order))
      ensures Walk(visited, order) == WalkedOperands(c, rank, con, |c.operands[con]|, was, old(Walk(visited, order)))
      decreases |c.globals - was|, rank[con], 0
    {
      ghost var active := Active(visited, order);
      for i := 0 to |c.operands[con]|
        invariant Consistent(c, rank, visited, order) && Active(visited, order) == active
        invariant old(visited) <= visited && old(order) <= order
        invariant forall j :: 0 <= j < i ==> AllMentioned(c, rank, visited, c.operands[con][j])
        invariant Walk(visited, order) == WalkedOperands(c, rank, con, i, was, old(Walk(visited, order)))
      {
        assert con in c.globals ==> con in active;
        LeadsToOperand(c, rank, active, con, i);
        WalkDescends(c, rank, was, visited, con, i);
        ComputeTopo(c, c.operands[con][i], rank);
      }
    }

    /** All globals, each once, each after what it refers to unless the two lie on a cycle. */
    method ComputeGlobalVarsOrder(c: Constants, globals: seq<nat>, ghost rank: seq<nat>)
      requires WellFounded(c, rank) && visited == {} && order == []
      requires c.globals == set g | g in globals
      modifies this
      ensures Ordered(c, rank, order) && forall g :: g in order <==> g in c.globals
      ensures (forall i :: 0 <= i < |globals| ==> globals[i] < |c.operands|) && order == WalkedList(c, rank, globals).order
    {
      forall i | 0 <= i < |globals|
        ensures globals[i] < |c.operands|
      {
        assert globals[i] in globals && globals[i] in c.globals;
      }
      for i := 0 to |globals|
        invariant Walk(visited, order) == WalkedList(c, rank, globals[..i])
        invariant Consistent(c, rank, visited, order) && Active(visited, order) == {}
        invariant forall g :: g in globals[..i] ==> g in visited
      {
        assert globals[i] in globals && globals[i] in c.globals;
        assert globals[..i + 1][..i] == globals[..i] && globals[..i + 1][i] == globals[i];
        if globals[i] !in visited {
          ComputeTopo(c, globals[i], rank);
          assert Mentions(c, rank, globals[i], globals[i]);
        }
      }
      assert globals[..|globals|] == globals;
      forall g | g in c.globals
        ensures g in order
      {
        assert g in globals[..|globals|];
        assert g !in Active(visited, order);
      }
    }
  }
}
