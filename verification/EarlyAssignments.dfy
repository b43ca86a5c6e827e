/** The loop parser puts the assignments for the edge from header to latch in front of the loop body as
    well. They come too early and do no harm: where the latch's phi variables may be read, the latch has
    been entered after the header, and on every edge into it they are assigned again. */
module EarlyAssignments {
  import opened ControlFlow

  ghost predicate StepAt(g: Cfg, q: seq<Label>, k: nat)
    requires 0 < k < |q|
  {
    Edge(g, q[k - 1], q[k])
  }

  ghost predicate Walk(g: Cfg, q: seq<Label>) {
    q != [] && forall k {:trigger StepAt(g, q, k)} :: 0 < k < |q| ==> StepAt(g, q, k)
  }

  /** Every way from entry to `b` passes `d`. In SSA form a phi node's value is only used where its block
      dominates. */
  ghost predicate Dominates(g: Cfg, d: Label, b: Label) {
    forall p :: Walk(g, p) && p[0] == g.entry && p[|p| - 1] == b ==> d in p
  }

  lemma {:induction false} PathPrefix(g: Cfg, p: seq<Label>, j: nat)
    requires Path(g, p) && j < |p|
    ensures HasPath(g, p[j], j)
    decreases |p|
  {
    var n := |p| - 1;
    if j == n {
      assert Path(g, p) && |p| == j + 1 && p[j] == p[n];
    } else {
      var s := p[..n];
      assert Path(g, s) && s[j] == p[j];
      PathPrefix(g, s, j);
    }
  }

  lemma {:induction false} LatchNotNearer(g: Cfg, l: Loop, j: nat)
    requires WellFormedCfg(g) && WellFormedLoop(g, l) && HasPath(g, l.latch, j)
    ensures Dist(g, l.header) <= j
  {
    LoopBlocksBehindHeader(g, l, l.latch);
    assert Dist(g, l.latch) <= j;
  }

  lemma {:induction false} ShortestPath(g: Cfg, b: Label) returns (p: seq<Label>)
    requires Reachable(g, b)
    ensures Path(g, p) && |p| == Dist(g, b) + 1 && p[|p| - 1] == b
  {
    var d := Dist(g, b);
    p :| Path(g, p) && |p| == d + 1 && p[d] == b;
  }

  lemma {:induction false} NotTheLatch(g: Cfg, l: Loop, c: Label, j: nat)
    requires WellFormedCfg(g) && WellFormedLoop(g, l) && l.header != l.latch && Reachable(g, l.header)
    requires HasPath(g, c, j) && j <= Dist(g, l.header) && (j == Dist(g, l.header) ==> c == l.header)
    ensures c != l.latch
  {
    if c == l.latch {
      LatchNotNearer(g, l, j);
    }
  }

  /** A shortest path to the header of a loop does not pass its latch. */
  lemma {:induction false} HeaderWithoutLatch(g: Cfg, l: Loop) returns (p: seq<Label>)
    requires WellFormedCfg(g) && WellFormedLoop(g, l) && l.header != l.latch
    ensures Path(g, p) && p != [] && p[|p| - 1] == l.header && l.latch !in p
  {
    assert Reachable(g, l.header);
    p := ShortestPath(g, l.header);
    forall j | 0 <= j < |p|
      ensures p[j] != l.latch
    {
      PathPrefix(g, p, j);
      NotTheLatch(g, l, p[j], j);
    }
  }

  lemma {:induction false} PathIsWalk(g: Cfg, p: seq<Label>)
    requires Path(g, p)
    ensures Walk(g, p) && p[0] == g.entry
    decreases |p|
  {
    if |p| > 1 {
      var n := |p| - 1;
      var s := p[..n];
      PathIsWalk(g, s);
      forall k | 0 < k < |p|
        ensures StepAt(g, p, k)
      {
        if k < n {
          assert StepAt(g, s, k);
        }
      }
    }
  }

  lemma {:induction false} WalkGoesOn(g: Cfg, p: seq<Label>, q: seq<Label>)
    requires Walk(g, p) && Walk(g, q) && q[0] == p[|p| - 1]
    ensures var r := p + q[1..]; Walk(g, r) && r[0] == p[0] && r[|r| - 1] == q[|q| - 1]
  {
    var n := |p|;
    var r := p + q[1..];
    forall k | 0 < k < |r|
      ensures StepAt(g, r, k)
    {
      if k < n {
        assert StepAt(g, p, k);
      } else {
        assert StepAt(g, q, k - n + 1);
      }
    }
  }

  /** From the header, a block that may read the latch's phi variables is only reached over an edge into the
      latch. */
  lemma {:induction false} AssignedAgain(u: Unit, l: Loop, b: Label, q: seq<Label>)
    requires WellFormed(u) && l in u.loops && l.header != l.latch && Dominates(u.cfg, l.latch, b)
    requires Walk(u.cfg, q) && q[0] == l.header && q[|q| - 1] == b
    ensures exists i :: 0 < i < |q| && q[i] == l.latch && Edge(u.cfg, q[i - 1], l.latch)
  {
    var p := HeaderWithoutLatch(u.cfg, l);
    PathIsWalk(u.cfg, p);
    WalkGoesOn(u.cfg, p, q);
    assert l.latch in p + q[1..];
    var i :| 0 < i < |q| && q[i] == l.latch;
    assert StepAt(u.cfg, q, i);
  }
}
