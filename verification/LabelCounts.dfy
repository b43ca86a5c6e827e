/** Counts the labels of the emitted function. A block that is replaced at its one goto stands
    inside the code of the block holding that goto, and so on up to a block printed on its own;
    hence each latch label appears exactly once. */
module LabelCounts {
  import opened ControlFlow
  import opened CStatements
  import opened Structuring
  import opened Simulation
  import opened LabelSafety

  // ----- the block holding the goto that is replaced -----

  ghost predicate HeldAt(u: Unit, p: Label, i: nat, x: Label)
    requires WellFormed(u)
  {
    p in u.cfg.blocks && i < |Targets(u, p)| && Targets(u, p)[i] == x
  }

  /** Inlined somewhere, and not one of the return blocks that may be copied to many places. */
  ghost predicate Held(u: Unit, x: Label)
    requires WellFormed(u)
  {
    x in u.cfg.blocks && Inlinable(u, x) && !ReturnOnly(u.cfg, x)
  }

  lemma {:induction false} ShortLoopHeaderIsPlain(u: Unit, l: Loop)
    requires WellFormed(u) && l in u.loops && l.header != l.latch && HeaderGoesToLatch(u.cfg, l)
    ensures !IsLatch(u, l.header) && !IsPreheader(u, l.header)
  {
    if IsPreheader(u, l.header) {
      var k := LoopAfter(u, l.header);
    }
  }

  lemma {:induction false} HolderExists(u: Unit, x: Label) returns (p: Label, i: nat)
    requires WellFormed(u) && Held(u, x)
    ensures HeldAt(u, p, i, x)
  {
    if IsHeader(u, x) {
      var l :| l in u.loops && l.header == x;
      LoopAfterPreheader(u, l);
      p, i := l.preheader, 0;
    } else if IsLatch(u, x) {
      var l :| l in u.loops && l.latch == x && !WrapsLatch(u.cfg, l);
      ShortLoopHeaderIsPlain(u, l);
      p, i := l.header, 0;
    } else {
      var q := NearerPred(u.cfg, x);
      if IsLatch(u, q) {
        var l :| l in u.loops && l.latch == q;
        LatchSuccs(u.cfg, l, x);
        LoopAfterPreheader(u, l);
        p, i := l.preheader, 1;
      } else {
        p := q;
        i :| 0 <= i < |Succs(u.cfg.blocks[q].term)| && Succs(u.cfg.blocks[q].term)[i] == x;
      }
    }
  }

  lemma {:induction false} HolderOfHeader(u: Unit, l: Loop, p: Label, i: nat)
    requires WellFormed(u) && l in u.loops && HeldAt(u, p, i, l.header)
    ensures p == l.preheader && i == 0
  {
    if !IsPreheader(u, p) {
      assert Edge(u.cfg, p, l.header);
      LoopAfterPreheader(u, l);
    } else {
      assert LoopAfter(u, p) in u.loops;
    }
  }

  lemma {:induction false} HolderOfShortLatch(u: Unit, l: Loop, p: Label, i: nat)
    requires WellFormed(u) && l in u.loops && l.header != l.latch && HeaderGoesToLatch(u.cfg, l)
    requires HeldAt(u, p, i, l.latch)
    ensures p == l.header && i == 0
  {
    if IsPreheader(u, p) {
      var k := LoopAfter(u, p);
      assert k.header != l.latch;
      assert Edge(u.cfg, k.latch, l.latch);
      ShortLoopLatchPred(u.cfg, l, k.latch);
      assert false;
    } else {
      assert Edge(u.cfg, p, l.latch);
      ShortLoopLatchPred(u.cfg, l, p);
    }
  }

  /** The CFG edge behind a goto to a block with a single predecessor. */
  lemma {:induction false} EdgeBehind(u: Unit, p: Label, i: nat, x: Label) returns (q: Label, j: nat)
    requires WellFormed(u) && HeldAt(u, p, i, x) && !IsHeader(u, x)
    ensures q in u.cfg.blocks && j < |Succs(u.cfg.blocks[q].term)| && Succs(u.cfg.blocks[q].term)[j] == x
    ensures if IsPreheader(u, p) then i == 1 && q == LoopAfter(u, p).latch else q == p && j == i
    ensures !IsLatch(u, p)
  {
    if IsPreheader(u, p) {
      var l := LoopAfter(u, p);
      assert i == 1;
      q := l.latch;
      j := if u.cfg.blocks[q].term.ifTrue == x then 0 else 1;
    } else {
      q, j := p, i;
    }
  }

  lemma {:induction false} HolderUnique(u: Unit, x: Label, p: Label, i: nat, p': Label, i': nat)
    requires WellFormed(u) && Held(u, x) && HeldAt(u, p, i, x) && HeldAt(u, p', i', x)
    ensures p == p' && i == i'
  {
    if IsHeader(u, x) {
      var l :| l in u.loops && l.header == x;
      HolderOfHeader(u, l, p, i);
      HolderOfHeader(u, l, p', i');
    } else if IsLatch(u, x) {
      var l :| l in u.loops && l.latch == x && !WrapsLatch(u.cfg, l);
      HolderOfShortLatch(u, l, p, i);
      HolderOfShortLatch(u, l, p', i');
    } else {
      var q, j := EdgeBehind(u, p, i, x);
      var q', j' := EdgeBehind(u, p', i', x);
      SinglePredUnique(u.cfg, x, q, j, q', j');
      if IsPreheader(u, p) && IsPreheader(u, p') {
        LatchDeterminesLoop(u, LoopAfter(u, p), LoopAfter(u, p'));
      }
    }
  }

  lemma {:induction false} SomeHolder(u: Unit, x: Label)
    requires WellFormed(u) && Held(u, x)
    ensures exists p :: p in u.cfg.blocks && x in Targets(u, p)
  {
    var p, i := HolderExists(u, x);
  }

  ghost function HolderOf(u: Unit, x: Label): (p: Label)
    requires WellFormed(u) && Held(u, x)
    ensures p in u.cfg.blocks && x in Targets(u, p)
    ensures Dist(u.cfg, p) < Dist(u.cfg, x)
  {
    SomeHolder(u, x);
    var p :| p in u.cfg.blocks && x in Targets(u, p);
    InliningLeadsAway(u, p, x);
    p
  }

  lemma {:induction false} HolderIs(u: Unit, x: Label, p: Label, i: nat)
    requires WellFormed(u) && Held(u, x) && HeldAt(u, p, i, x)
    ensures p == HolderOf(u, x)
  {
    var q := HolderOf(u, x);
    var j :| 0 <= j < |Targets(u, q)| && Targets(u, q)[j] == x;
    HolderUnique(u, x, p, i, q, j);
  }

  // ----- the code a block stands inside -----

  /** The code of `x` stands inside the code of `b`. */
  ghost predicate Inside(u: Unit, b: Label, x: Label)
    requires WellFormed(u) && x in u.cfg.blocks
    decreases Dist(u.cfg, x)
  {
    x == b || (Held(u, x) && Inside(u, b, HolderOf(u, x)))
  }

  lemma {:induction false} InsideNotNearer(u: Unit, b: Label, x: Label)
    requires WellFormed(u) && x in u.cfg.blocks && Inside(u, b, x)
    ensures b in u.cfg.blocks && Dist(u.cfg, b) <= Dist(u.cfg, x)
    decreases Dist(u.cfg, x)
  {
    if x != b {
      InsideNotNearer(u, b, HolderOf(u, x));
    }
  }

  /** Two blocks held by the same block do not both contain `x`. */
  lemma {:induction false} InsideOneSibling(u: Unit, a: Label, b: Label, x: Label)
    requires WellFormed(u) && x in u.cfg.blocks && Inside(u, a, x) && Inside(u, b, x)
    requires Held(u, a) && Held(u, b) && HolderOf(u, a) == HolderOf(u, b)
    ensures a == b
    decreases Dist(u.cfg, x)
  {
    if a != b {
      if x == a {
        InsideNotNearer(u, b, HolderOf(u, a));
      } else if x == b {
        InsideNotNearer(u, a, HolderOf(u, b));
      } else {
        InsideOneSibling(u, a, b, HolderOf(u, x));
      }
    }
  }

  lemma {:induction false} InsideUp(u: Unit, a: Label, x: Label)
    requires WellFormed(u) && x in u.cfg.blocks && Inside(u, a, x) && Held(u, a)
    ensures Inside(u, HolderOf(u, a), x)
    decreases Dist(u.cfg, x)
  {
    if x != a {
      InsideUp(u, a, HolderOf(u, x));
    }
  }

  /** A block that contains `x` holds a goto to `x` or to a block that contains `x`. */
  lemma {:induction false} InsideDown(u: Unit, b: Label, x: Label) returns (a: Label)
    requires WellFormed(u) && x in u.cfg.blocks && Inside(u, b, x) && x != b
    ensures Held(u, a) && HolderOf(u, a) == b && Inside(u, a, x)
    decreases Dist(u.cfg, x)
  {
    if HolderOf(u, x) == b {
      a := x;
    } else {
      a := InsideDown(u, b, HolderOf(u, x));
    }
  }

  /** Every block stands inside exactly one block that is not itself inlined. */
  lemma {:induction false} RootExists(u: Unit, x: Label) returns (r: Label)
    requires WellFormed(u) && x in u.cfg.blocks && !ReturnOnly(u.cfg, x) && !IsLatch(u, x)
    ensures r in u.cfg.blocks && Printed(u, r) && Inside(u, r, x)
    decreases Dist(u.cfg, x)
  {
    if Inlinable(u, x) {
      r := RootExists(u, HolderOf(u, x));
    } else {
      r := x;
    }
  }

  lemma {:induction false} RootUnique(u: Unit, r: Label, q: Label, x: Label)
    requires WellFormed(u) && x in u.cfg.blocks && Inside(u, r, x) && Inside(u, q, x)
    requires !Inlinable(u, r) && !Inlinable(u, q)
    ensures r == q
    decreases Dist(u.cfg, x)
  {
    if Held(u, x) {
      RootUnique(u, r, q, HolderOf(u, x));
    }
  }

  // ----- labels in the code of a block -----

  /** Labels in the code of the gotos from the `i`-th on. */
  ghost function TargetLabels(u: Unit, b: Label, i: nat): multiset<Label>
    requires WellFormed(u) && b in u.cfg.blocks && i <= |Targets(u, b)|
    decreases |Targets(u, b)| - i
  {
    if i == |Targets(u, b)| then multiset{}
    else Labels(GotoCode(u, b, Targets(u, b)[i])) + TargetLabels(u, b, i + 1)
  }

  ghost function OwnLabels(u: Unit, b: Label): multiset<Label>
    requires WellFormed(u) && b in u.cfg.blocks
  {
    if IsPreheader(u, b) && WrapsLatch(u.cfg, LoopAfter(u, b)) then multiset{LoopAfter(u, b).latch} else multiset{}
  }

  lemma {:induction false} LabelsOfOne(s: CStmt)
    ensures Labels([s]) == StmtLabels(s)
  {
    assert [s][1..] == [];
  }

  lemma {:induction false} LatchCodeLabels(g: Cfg, l: Loop)
    requires l.header in g.blocks && l.latch in g.blocks
    ensures Labels(LatchCode(g, l)) == if WrapsLatch(g, l) then multiset{l.latch} else multiset{}
  {
    LabelsOps(g.blocks[l.latch].body);
    LabelsOfOne(CLabel(l.latch));
    LabelsAppend([CLabel(l.latch)], Ops(g.blocks[l.latch].body));
  }

  lemma {:induction false} CodeLabels(u: Unit, b: Label)
    requires WellFormed(u) && b in u.cfg.blocks
    ensures Labels(Code(u, b)) == OwnLabels(u, b) + TargetLabels(u, b, 0)
  {
    LabelsOps(u.cfg.blocks[b].body);
    LabelsAppend(Ops(u.cfg.blocks[b].body), TailCode(u, b));
    if IsLatch(u, b) {
      LatchIsNoPreheader(u, b);
    } else if IsPreheader(u, b) {
      LoopTailLabels(u, b);
    } else {
      PlainTailLabels(u, b);
    }
  }

  lemma {:induction false} LatchIsNoPreheader(u: Unit, b: Label)
    requires WellFormed(u) && IsLatch(u, b)
    ensures !IsPreheader(u, b)
  {
  }

  lemma {:induction false} LoopTailLabels(u: Unit, b: Label)
    requires WellFormed(u) && b in u.cfg.blocks && !IsLatch(u, b) && IsPreheader(u, b)
    ensures Labels(TailCode(u, b)) == OwnLabels(u, b) + TargetLabels(u, b, 0)
  {
    var l := LoopAfter(u, b);
    var do := CDo(BodyCode(u, l), LatchCond(u.cfg, l), Negated(u.cfg, l));
    var goto := GotoCode(u, b, Exit(u.cfg, l));
    LabelsAppend([do], goto);
    LabelsOfOne(do);
    BodyLabels(u, l);
    TwoTargetLabels(u, b);
  }

  lemma {:induction false} BodyLabels(u: Unit, l: Loop)
    requires WellFormed(u) && l in u.loops
    ensures l.header in Targets(u, l.preheader)
    ensures Labels(BodyCode(u, l)) == Labels(GotoCode(u, l.preheader, l.header))
      + if WrapsLatch(u.cfg, l) then multiset{l.latch} else multiset{}
  {
    LoopAfterPreheader(u, l);
    LabelsAppend(GotoCode(u, l.preheader, l.header), LatchCode(u.cfg, l));
    LatchCodeLabels(u.cfg, l);
  }

  lemma {:induction false} TwoTargetLabels(u: Unit, b: Label)
    requires WellFormed(u) && b in u.cfg.blocks && |Targets(u, b)| == 2
    ensures TargetLabels(u, b, 0)
         == Labels(GotoCode(u, b, Targets(u, b)[0])) + Labels(GotoCode(u, b, Targets(u, b)[1]))
  {
    assert TargetLabels(u, b, 2) == multiset{};
    assert TargetLabels(u, b, 1) == Labels(GotoCode(u, b, Targets(u, b)[1])) + TargetLabels(u, b, 2);
  }

  lemma {:induction false} PlainTailLabels(u: Unit, b: Label)
    requires WellFormed(u) && b in u.cfg.blocks && !IsLatch(u, b) && !IsPreheader(u, b)
    ensures Labels(TailCode(u, b)) == TargetLabels(u, b, 0)
  {
    match u.cfg.blocks[b].term
    case Ret(v) =>
      LabelsOfOne(CReturn(v));
    case Br(t) =>
      assert TargetLabels(u, b, 1) == multiset{};
    case CondBr(_, _, _) =>
      LabelsOfOne(TailCode(u, b)[0]);
      TwoTargetLabels(u, b);
    case Switch(_, cases, default) =>
      LabelsOfOne(TailCode(u, b)[0]);
      assert TailCode(u, b)[0].arms[0..] == TailCode(u, b)[0].arms;
      SwitchTailLabels(u, b, TailCode(u, b)[0].arms, 0);
  }

  lemma {:induction false} SwitchTailLabels(u: Unit, b: Label, arms: seq<Arm>, i: nat)
    requires WellFormed(u) && b in u.cfg.blocks && !IsLatch(u, b) && !IsPreheader(u, b)
    requires u.cfg.blocks[b].term.Switch? && arms == TailCode(u, b)[0].arms && i <= |arms|
    ensures |Targets(u, b)| == |arms| + 1
    ensures ArmsLabels(arms[i..]) + Labels(GotoCode(u, b, u.cfg.blocks[b].term.default)) == TargetLabels(u, b, i)
    decreases |arms| - i
  {
    var cases := u.cfg.blocks[b].term.cases;
    if i == |arms| {
      assert Targets(u, b)[i] == u.cfg.blocks[b].term.default;
      assert TargetLabels(u, b, i + 1) == multiset{};
    } else {
      SwitchTailLabels(u, b, arms, i + 1);
      assert Targets(u, b)[i] == cases[i].target;
      assert arms[i..][1..] == arms[i + 1..];
    }
  }

  // ----- the label of a latch -----

  /** The `j`-th goto of `b` is replaced by code that holds the preheader of `l`. */
  ghost predicate Leads(u: Unit, l: Loop, b: Label, j: nat)
    requires WellFormed(u) && l in u.loops && b in u.cfg.blocks && j < |Targets(u, b)|
  {
    Inlinable(u, Targets(u, b)[j]) && Inside(u, Targets(u, b)[j], l.preheader)
  }

  lemma {:induction false} LeadsIsHeld(u: Unit, l: Loop, b: Label, j: nat)
    requires WellFormed(u) && l in u.loops && b in u.cfg.blocks && j < |Targets(u, b)| && Leads(u, l, b, j)
    ensures Held(u, Targets(u, b)[j]) && HolderOf(u, Targets(u, b)[j]) == b
  {
    var t := Targets(u, b)[j];
    InliningLeadsAway(u, b, t);
    if ReturnOnly(u.cfg, t) {
      assert t != l.preheader;
      var a := InsideDown(u, t, l.preheader);
      ReturnOnlyHasNoTargets(u, t);
    }
    HolderIs(u, t, b, j);
  }

  lemma {:induction false} ReturnOnlyHasNoTargets(u: Unit, t: Label)
    requires WellFormed(u) && ReturnOnly(u.cfg, t)
    ensures Targets(u, t) == []
  {
    assert !IsPreheader(u, t);
  }

  /** At most one goto of a block leads to a given loop, and none of the loop's own preheader does. */
  lemma {:induction false} LeadsOnce(u: Unit, l: Loop, b: Label, i: nat, j: nat)
    requires WellFormed(u) && l in u.loops && b in u.cfg.blocks && i < |Targets(u, b)| && j < |Targets(u, b)|
    requires Leads(u, l, b, i) && Leads(u, l, b, j)
    ensures i == j && b != l.preheader && Inside(u, b, l.preheader)
  {
    LeadsIsHeld(u, l, b, i);
    LeadsIsHeld(u, l, b, j);
    InsideOneSibling(u, Targets(u, b)[i], Targets(u, b)[j], l.preheader);
    HolderUnique(u, Targets(u, b)[i], b, i, b, j);
    InsideNotNearer(u, Targets(u, b)[i], l.preheader);
    InsideUp(u, Targets(u, b)[i], l.preheader);
  }

  lemma {:induction false} LeadsSomewhere(u: Unit, l: Loop, b: Label) returns (j: nat)
    requires WellFormed(u) && l in u.loops && b in u.cfg.blocks
    requires Inside(u, b, l.preheader) && b != l.preheader
    ensures j < |Targets(u, b)| && Leads(u, l, b, j)
  {
    var a := InsideDown(u, b, l.preheader);
    j :| 0 <= j < |Targets(u, b)| && Targets(u, b)[j] == a;
  }

  /** The latch of a loop is labelled once in the code of every block its preheader stands inside. */
  lemma {:induction false} LatchLabelCount(u: Unit, l: Loop, b: Label)
    requires WellFormed(u) && l in u.loops && WrapsLatch(u.cfg, l) && b in u.cfg.blocks
    ensures Labels(Code(u, b))[l.latch] == if Inside(u, b, l.preheader) then 1 else 0
    decreases Measure(u, b), 1
  {
    CodeLabels(u, b);
    OwnLatchLabel(u, l, b);
    var j := |Targets(u, b)|;
    if Inside(u, b, l.preheader) && b != l.preheader {
      j := LeadsSomewhere(u, l, b);
    }
    forall i | 0 <= i < |Targets(u, b)| && i != j
      ensures !Leads(u, l, b, i)
    {
      if Leads(u, l, b, i) {
        LeadsOnce(u, l, b, i, i);
        LeadsOnce(u, l, b, i, j);
      }
    }
    TargetLatchCount(u, l, b, 0, j);
  }

  lemma {:induction false} OwnLatchLabel(u: Unit, l: Loop, b: Label)
    requires WellFormed(u) && l in u.loops && WrapsLatch(u.cfg, l) && b in u.cfg.blocks
    ensures OwnLabels(u, b)[l.latch] == if b == l.preheader then 1 else 0
  {
    LoopAfterPreheader(u, l);
    if IsPreheader(u, b) && LoopAfter(u, b).latch == l.latch {
      LatchDeterminesLoop(u, LoopAfter(u, b), l);
    }
  }

  lemma {:induction false} TargetLatchCount(u: Unit, l: Loop, b: Label, i: nat, j: nat)
    requires WellFormed(u) && l in u.loops && WrapsLatch(u.cfg, l) && b in u.cfg.blocks && i <= |Targets(u, b)|
    requires forall n {:trigger Leads(u, l, b, n)} :: i <= n < |Targets(u, b)| && n != j ==> !Leads(u, l, b, n)
    ensures TargetLabels(u, b, i)[l.latch] == if i <= j < |Targets(u, b)| && Leads(u, l, b, j) then 1 else 0
    decreases Measure(u, b), 0, |Targets(u, b)| - i
  {
    if i < |Targets(u, b)| {
      var t := Targets(u, b)[i];
      TargetLatchCount(u, l, b, i + 1, j);
      if Inlinable(u, t) {
        InliningLeadsAway(u, b, t);
        LatchLabelCount(u, l, t);
      } else {
        LabelsOfOne(CGoto(t));
      }
      assert Labels(GotoCode(u, b, t))[l.latch] == if Leads(u, l, b, i) then 1 else 0;
    }
  }

  /** Only latches that get their own label are labelled inside the code of a block. */
  lemma {:induction false} NoOtherLabels(u: Unit, b: Label, x: Label)
    requires WellFormed(u) && b in u.cfg.blocks
    requires forall l :: l in u.loops && WrapsLatch(u.cfg, l) ==> l.latch != x
    ensures Labels(Code(u, b))[x] == 0
    decreases Measure(u, b), 1
  {
    CodeLabels(u, b);
    NoOtherTargetLabels(u, b, x, 0);
  }

  lemma {:induction false} NoOtherTargetLabels(u: Unit, b: Label, x: Label, i: nat)
    requires WellFormed(u) && b in u.cfg.blocks && i <= |Targets(u, b)|
    requires forall l :: l in u.loops && WrapsLatch(u.cfg, l) ==> l.latch != x
    ensures TargetLabels(u, b, i)[x] == 0
    decreases Measure(u, b), 0, |Targets(u, b)| - i
  {
    if i < |Targets(u, b)| {
      var t := Targets(u, b)[i];
      NoOtherTargetLabels(u, b, x, i + 1);
      if Inlinable(u, t) {
        InliningLeadsAway(u, b, t);
        NoOtherLabels(u, t, x);
      } else {
        LabelsOfOne(CGoto(t));
      }
    }
  }
}
