/** The emitted function as a whole: its labels are exact, its gotos never dangle, and it runs
    exactly like the control-flow graph it was made from. */
module EmittedFunction {
  import opened ControlFlow
  import opened CStatements
  import opened Structuring
  import opened Simulation
  import opened LabelSafety
  import opened LabelCounts

  // ----- where a label is printed -----

  /** The statements printed for block `b` contain the label of `x`. */
  ghost predicate Shows(u: Unit, b: Label, x: Label)
    requires WellFormed(u)
  {
    b == x || exists l :: l in u.loops && WrapsLatch(u.cfg, l) && l.latch == x && Inside(u, b, l.preheader)
  }

  lemma {:induction false} InlinableLatch(u: Unit, l: Loop)
    requires WellFormed(u) && l in u.loops
    ensures Inlinable(u, l.latch) <==> !WrapsLatch(u.cfg, l)
  {
    assert IsLatch(u, l.latch);
    if Inlinable(u, l.latch) {
      var k :| k in u.loops && k.latch == l.latch && !WrapsLatch(u.cfg, k);
      LatchDeterminesLoop(u, k, l);
    }
  }

  lemma {:induction false} WrappedLatchOf(u: Unit, l: Loop, b: Label)
    requires WellFormed(u) && l in u.loops && WrapsLatch(u.cfg, l)
    ensures Shows(u, b, l.latch) <==> b == l.latch || Inside(u, b, l.preheader)
  {
    forall k | k in u.loops && k.latch == l.latch
      ensures k == l
    {
      LatchDeterminesLoop(u, k, l);
    }
  }

  lemma {:induction false} LabelsInCode(u: Unit, b: Label, x: Label)
    requires WellFormed(u) && b in u.cfg.blocks && Printed(u, b)
    ensures Labels(Code(u, b))[x] == if b != x && Shows(u, b, x) then 1 else 0
  {
    if l :| l in u.loops && WrapsLatch(u.cfg, l) && l.latch == x {
      LatchLabelCount(u, l, b);
      WrappedLatchOf(u, l, b);
    } else {
      NoOtherLabels(u, b, x);
    }
  }

  lemma {:induction false} LabelBefore(code: seq<CStmt>, b: Label, x: Label)
    ensures Labels([CLabel(b)] + code)[x] == (if b == x then 1 else 0) + Labels(code)[x]
  {
    LabelsOfOne(CLabel(b));
    LabelsAppend([CLabel(b)], code);
  }

  lemma {:induction false} LabelledCodeCount(u: Unit, b: Label, x: Label)
    requires WellFormed(u) && b in u.cfg.blocks && Printed(u, b)
    ensures Labels(LabelledCode(u, b))[x] == if Shows(u, b, x) then 1 else 0
  {
    LabelBefore(Code(u, b), b, x);
    LabelsInCode(u, b, x);
    if b == x {
      assert Labels(Code(u, b))[x] == 0;
    }
  }

  /** Every block that keeps its label is shown by exactly one printed block. */
  lemma {:induction false} ShownBy(u: Unit, x: Label) returns (r: Label)
    requires WellFormed(u) && x in u.cfg.blocks && !Inlinable(u, x)
    ensures r in u.cfg.blocks && Printed(u, r) && Shows(u, r, x)
  {
    if IsLatch(u, x) {
      var l :| l in u.loops && l.latch == x;
      InlinableLatch(u, l);
      LoopAfterPreheader(u, l);
      r := RootExists(u, l.preheader);
    } else {
      r := x;
    }
  }

  lemma {:induction false} ShownOnce(u: Unit, r: Label, q: Label, x: Label)
    requires WellFormed(u) && Printed(u, r) && Printed(u, q) && Shows(u, r, x) && Shows(u, q, x)
    ensures r == q
  {
    if l :| l in u.loops && l.latch == x && WrapsLatch(u.cfg, l) && Inside(u, r, l.preheader) {
      var k :| k in u.loops && k.latch == x && Inside(u, q, k.preheader);
      LatchDeterminesLoop(u, l, k);
      RootUnique(u, r, q, l.preheader);
    }
  }

  lemma {:induction false} OnlyKeptLabels(u: Unit, b: Label, x: Label)
    requires WellFormed(u) && b in u.cfg.blocks && Printed(u, b) && Shows(u, b, x)
    ensures x in u.cfg.blocks && !Inlinable(u, x)
  {
    if b != x {
      var l :| l in u.loops && WrapsLatch(u.cfg, l) && l.latch == x;
      InlinableLatch(u, l);
    }
  }

  /** `r` is the only printed block that shows `x`. */
  ghost predicate OnlyBy(u: Unit, r: Label, x: Label)
    requires WellFormed(u)
  {
    forall b {:trigger Shows(u, b, x)} :: b in u.cfg.blocks && Printed(u, b) && Shows(u, b, x) ==> b == r
  }

  lemma {:induction false} RestCount(u: Unit, order: seq<Label>, x: Label, r: Label)
    requires WellFormed(u) && (forall b :: b in order ==> b in u.cfg.blocks) && OnlyBy(u, r, x)
    requires forall i, j :: 0 <= i < j < |order| ==> order[i] != order[j]
    ensures Labels(Rest(u, order))[x]
         == if r in order && r != u.cfg.entry && Printed(u, r) && Shows(u, r, x) then 1 else 0
    decreases |order|
  {
    if order != [] {
      var b := order[0];
      assert order == [b] + order[1..];
      assert b !in order[1..];
      RestCount(u, order[1..], x, r);
      if b != u.cfg.entry && Printed(u, b) {
        LabelledCodeCount(u, b, x);
        LabelsAppend(LabelledCode(u, b), Rest(u, order[1..]));
      }
    }
  }

  lemma {:induction false} EntryIsPrinted(u: Unit)
    requires WellFormed(u)
    ensures Printed(u, u.cfg.entry)
  {
  }

  /** The labels printed are exactly the blocks that were not replaced, once each. */
  lemma {:induction false} LabelsExact(u: Unit, order: seq<Label>, x: Label)
    requires WellFormed(u) && Enumerates(u, order)
    ensures Labels(FunctionBody(u, order))[x] == if x in u.cfg.blocks && !Inlinable(u, x) then 1 else 0
  {
    var entry := u.cfg.entry;
    EntryIsPrinted(u);
    LabelsAppend(LabelledCode(u, entry), Rest(u, order));
    LabelledCodeCount(u, entry, x);
    var r := entry;
    if x in u.cfg.blocks && !Inlinable(u, x) {
      r := ShownBy(u, x);
    }
    forall b {:trigger Shows(u, b, x)} | b in u.cfg.blocks && Printed(u, b) && Shows(u, b, x)
      ensures b == r
    {
      OnlyKeptLabels(u, b, x);
      ShownOnce(u, b, r, x);
    }
    RestCount(u, order, x, r);
    if x !in u.cfg.blocks || Inlinable(u, x) {
      if Shows(u, r, x) {
        OnlyKeptLabels(u, r, x);
      }
    }
  }

  /** A block that keeps its label: the entry; a latch of a rotated loop that is neither its header nor the
      only successor of it; of the others, those that are no header of such a loop, that do more than
      return, and to which not exactly one edge leads. */
  ghost predicate KeepsLabel(u: Unit, x: Label)
    requires WellFormed(u) && x in u.cfg.blocks
  {
    if l :| l in u.loops && l.latch == x then
      l.header != x && Succs(u.cfg.blocks[l.header].term) != [x]
    else
      || x == u.cfg.entry
      || (&& (forall l :: l in u.loops ==> l.header != x)
          && !(u.cfg.blocks[x].body == [] && u.cfg.blocks[x].term.Ret?)
          && !exists p, i: nat :: EdgeAt(u.cfg, p, i, x) && forall q, j: nat :: EdgeAt(u.cfg, q, j, x) ==> q == p && j == i)
  }

  lemma {:induction false} KeptExact(u: Unit, x: Label)
    requires WellFormed(u) && x in u.cfg.blocks
    ensures KeepsLabel(u, x) <==> !Inlinable(u, x)
  {
    SinglePredExact(u.cfg, x);
    if l :| l in u.loops && l.latch == x {
      InlinableLatch(u, l);
      forall k | k in u.loops && k.latch == x
        ensures k == l
      {
        LatchDeterminesLoop(u, k, l);
      }
    } else {
      assert !IsLatch(u, x);
    }
  }

  /** Exactly these blocks have their label in the function, once. */
  lemma {:induction false} LabelsKept(u: Unit, order: seq<Label>, x: Label)
    requires WellFormed(u) && Enumerates(u, order) && x in u.cfg.blocks
    ensures Labels(FunctionBody(u, order))[x] == if KeepsLabel(u, x) then 1 else 0
  {
    LabelsExact(u, order, x);
    KeptExact(u, x);
  }

  // ----- gotos -----

  /** Every goto left leads to a block that was not replaced. */
  ghost predicate KeptTargets(u: Unit, gotos: set<Label>)
    requires WellFormed(u)
  {
    forall t {:trigger t in gotos} :: t in gotos ==> t in u.cfg.blocks && !Inlinable(u, t)
  }

  lemma {:induction false} GotosOfOne(s: CStmt)
    ensures Gotos([s]) == StmtGotos(s)
  {
    assert [s][1..] == [];
  }

  lemma {:induction false} CodeGotos(u: Unit, b: Label)
    requires WellFormed(u) && b in u.cfg.blocks
    ensures KeptTargets(u, Gotos(Code(u, b)))
    decreases Measure(u, b), 3
  {
    GotosOps(u.cfg.blocks[b].body);
    GotosAppend(Ops(u.cfg.blocks[b].body), TailCode(u, b));
    if IsLatch(u, b) {
    } else if IsPreheader(u, b) {
      LoopTailGotos(u, b);
    } else {
      PlainTailGotos(u, b);
    }
  }

  lemma {:induction false} GotoGotos(u: Unit, p: Label, t: Label)
    requires WellFormed(u) && p in u.cfg.blocks && t in Targets(u, p) && t in u.cfg.blocks
    ensures KeptTargets(u, Gotos(GotoCode(u, p, t)))
    decreases Measure(u, p), 0
  {
    if Inlinable(u, t) {
      InliningLeadsAway(u, p, t);
      CodeGotos(u, t);
    } else {
      GotosOfOne(CGoto(t));
    }
  }

  lemma {:induction false} LoopTailGotos(u: Unit, b: Label)
    requires WellFormed(u) && b in u.cfg.blocks && !IsLatch(u, b) && IsPreheader(u, b)
    ensures KeptTargets(u, Gotos(TailCode(u, b)))
    decreases Measure(u, b), 2
  {
    var l := LoopAfter(u, b);
    var do := CDo(BodyCode(u, l), LatchCond(u.cfg, l), Negated(u.cfg, l));
    GotosAppend([do], GotoCode(u, b, Exit(u.cfg, l)));
    GotosOfOne(do);
    GotoGotos(u, b, l.header);
    LatchCodeGotos(u.cfg, l);
    GotosAppend(GotoCode(u, b, l.header), LatchCode(u.cfg, l));
    assert Edge(u.cfg, l.latch, Exit(u.cfg, l));
    GotoGotos(u, b, Exit(u.cfg, l));
  }

  lemma {:induction false} LatchCodeGotos(g: Cfg, l: Loop)
    requires l.header in g.blocks && l.latch in g.blocks
    ensures Gotos(LatchCode(g, l)) == {}
  {
    GotosOps(g.blocks[l.latch].body);
    GotosOfOne(CLabel(l.latch));
    GotosAppend([CLabel(l.latch)], Ops(g.blocks[l.latch].body));
  }

  lemma {:induction false} PlainTailGotos(u: Unit, b: Label)
    requires WellFormed(u) && b in u.cfg.blocks && !IsLatch(u, b) && !IsPreheader(u, b)
    ensures KeptTargets(u, Gotos(TailCode(u, b)))
    decreases Measure(u, b), 2
  {
    forall t | t in Succs(u.cfg.blocks[b].term)
      ensures t in u.cfg.blocks && KeptTargets(u, Gotos(GotoCode(u, b, t)))
    {
      assert Edge(u.cfg, b, t);
      GotoGotos(u, b, t);
    }
    match u.cfg.blocks[b].term
    case Ret(v) =>
      GotosOfOne(CReturn(v));
    case Br(t) =>
    case CondBr(_, t, f) =>
      GotosOfOne(TailCode(u, b)[0]);
    case Switch(_, cases, default) =>
      GotosOfOne(TailCode(u, b)[0]);
      assert TailCode(u, b)[0].arms[0..] == TailCode(u, b)[0].arms;
      SwitchGotos(u, b, TailCode(u, b)[0].arms, 0);
  }

  lemma {:induction false} SwitchGotos(u: Unit, b: Label, arms: seq<Arm>, i: nat)
    requires WellFormed(u) && b in u.cfg.blocks && !IsLatch(u, b) && !IsPreheader(u, b)
    requires u.cfg.blocks[b].term.Switch? && arms == TailCode(u, b)[0].arms && i <= |arms|
    requires forall t :: t in Succs(u.cfg.blocks[b].term) ==> KeptTargets(u, Gotos(GotoCode(u, b, t)))
    ensures KeptTargets(u, ArmsGotos(arms[i..]))
    decreases Measure(u, b), 1, |arms| - i
  {
    if i < |arms| {
      SwitchGotos(u, b, arms, i + 1);
      assert Succs(u.cfg.blocks[b].term)[i] == u.cfg.blocks[b].term.cases[i].target;
      assert arms[i..][1..] == arms[i + 1..];
    }
  }

  lemma {:induction false} RestGotos(u: Unit, order: seq<Label>)
    requires WellFormed(u) && forall b :: b in order ==> b in u.cfg.blocks
    ensures KeptTargets(u, Gotos(Rest(u, order)))
    decreases |order|
  {
    if order != [] {
      RestGotos(u, order[1..]);
      CodeGotos(u, order[0]);
      GotosOfOne(CLabel(order[0]));
      GotosAppend([CLabel(order[0])], Code(u, order[0]));
      GotosAppend(LabelledCode(u, order[0]), Rest(u, order[1..]));
    }
  }

  /** No goto dangles: the label of its target is printed exactly once. */
  lemma {:induction false} GotosHaveLabels(u: Unit, order: seq<Label>, t: Label)
    requires WellFormed(u) && Enumerates(u, order) && t in Gotos(FunctionBody(u, order))
    ensures Labels(FunctionBody(u, order))[t] == 1
  {
    var entry := u.cfg.entry;
    CodeGotos(u, entry);
    RestGotos(u, order);
    GotosOfOne(CLabel(entry));
    GotosAppend([CLabel(entry)], Code(u, entry));
    GotosAppend(LabelledCode(u, entry), Rest(u, order));
    LabelsExact(u, order, t);
  }

  /** What is still jumped to could not be inlined. */
  lemma {:induction false} GotosKept(u: Unit, order: seq<Label>, t: Label)
    requires WellFormed(u) && Enumerates(u, order) && t in Gotos(FunctionBody(u, order))
    ensures t in u.cfg.blocks && KeepsLabel(u, t)
  {
    GotosHaveLabels(u, order, t);
    LabelsExact(u, order, t);
    KeptExact(u, t);
  }

  // ----- the emitted function is linked, so it simulates the graph -----

  lemma {:induction false} FindInBlock(u: Unit, t: Label, b: Label, rest: seq<CStmt>, k: Kont)
    requires WellFormed(u) && b in u.cfg.blocks && Printed(u, b)
    ensures FoundOk(u, t, FindLabel(t, LabelledCode(u, b) + rest, k), FindLabel(t, rest, k))
  {
    assert (LabelledCode(u, b) + rest)[1..] == Code(u, b) + rest;
    FindInCode(u, t, b, rest, k);
    if t == b {
      PrintedSite(u, b, rest, k);
    }
  }

  lemma {:induction false} PrintedSite(u: Unit, b: Label, rest: seq<CStmt>, k: Kont)
    requires WellFormed(u) && b in u.cfg.blocks && Printed(u, b)
    ensures Site(u, b, Code(u, b) + rest, k)
  {
    forall l {:trigger FallsIntoEnd(u, l, b)} | l in u.loops
      ensures !FallsIntoEnd(u, l, b)
    {
      HeaderInlinable(u, l);
    }
    PlainSite(u, b, rest, k);
  }

  lemma {:induction false} FindInRest(u: Unit, t: Label, order: seq<Label>)
    requires WellFormed(u) && forall b :: b in order ==> b in u.cfg.blocks
    ensures FoundOk(u, t, FindLabel(t, Rest(u, order), KStop), None)
    decreases |order|
  {
    if order != [] {
      FindInRest(u, t, order[1..]);
      if order[0] != u.cfg.entry && Printed(u, order[0]) {
        FindInBlock(u, t, order[0], Rest(u, order[1..]), KStop);
      }
    }
  }

  lemma {:induction false} FunctionLinked(u: Unit, order: seq<Label>)
    requires WellFormed(u) && Enumerates(u, order)
    ensures Linked(u, FunctionBody(u, order))
  {
    var fn := FunctionBody(u, order);
    EntryIsPrinted(u);
    forall t {:trigger FindLabel(t, fn, KStop)}
      ensures t in u.cfg.blocks && !Inlinable(u, t) ==> FindLabel(t, fn, KStop).Some?
      ensures FindLabel(t, fn, KStop).Some? ==>
        Site(u, t, FindLabel(t, fn, KStop).value.0, FindLabel(t, fn, KStop).value.1)
    {
      FindInRest(u, t, order);
      FindInBlock(u, t, u.cfg.entry, Rest(u, order), KStop);
      FindLabelIff(t, fn, KStop);
      LabelsExact(u, order, t);
    }
  }

  /** After the entry label, control is at a site of the entry block. */
  lemma {:induction false} FunctionStarts<S>(u: Unit, order: seq<Label>, m: Machine<S>, w: World<S>)
    returns (code: seq<CStmt>)
    requires WellFormed(u) && Enumerates(u, order)
    ensures CRun(m, FunctionBody(u, order), Running(FunctionBody(u, order), KStop, w), 1) == Running(code, KStop, w)
    ensures Site(u, u.cfg.entry, code, KStop)
  {
    var fn := FunctionBody(u, order);
    code := fn[1..];
    assert code == Code(u, u.cfg.entry) + Rest(u, order);
    EntryIsPrinted(u);
    PrintedSite(u, u.cfg.entry, Rest(u, order), KStop);
    OneStep(fn, m, Running(fn, KStop, w), Running(code, KStop, w));
  }

  /** Whatever the graph does, the emitted function does: it performs the same operations in the
      same order, reaches the same store, and returns the same value if the graph returns. */
  lemma {:induction false} EmittedFollowsGraph<S>(u: Unit, order: seq<Label>, m: Machine<S>, w: World<S>, n: nat)
    requires WellFormed(u) && Enumerates(u, order)
    ensures var fn := FunctionBody(u, order);
            exists j: nat {:trigger CRun(m, fn, Running(fn, KStop, w), j)} ::
              Follows(CRun(m, fn, Running(fn, KStop, w), j), CfgRun(m, u.cfg, At(u.cfg.entry, w), n))
  {
    var fn := FunctionBody(u, order);
    FunctionLinked(u, order);
    var code := FunctionStarts(u, order, m, w);
    var j, c, a := RunFollows(u, fn, m, u.cfg.entry, code, KStop, w, n);
    CRunAdd(m, fn, Running(fn, KStop, w), 1, j);
    assert Follows(CRun(m, fn, Running(fn, KStop, w), 1 + j), CfgRun(m, u.cfg, At(u.cfg.entry, w), n));
  }

  /** Whatever the emitted function does, the graph does: the function is never stuck at a missing
      label and never falls off its end, it returns only what the graph returns, and all operations
      it has performed so far the graph performs too. */
  lemma {:induction false} GraphFollowsEmitted<S>(u: Unit, order: seq<Label>, m: Machine<S>, w: World<S>, j: nat)
    requires WellFormed(u) && Enumerates(u, order)
    ensures var fn := FunctionBody(u, order);
            exists n: nat {:trigger CfgRun(m, u.cfg, At(u.cfg.entry, w), n)} ::
              Accounted(CRun(m, fn, Running(fn, KStop, w), j), CfgRun(m, u.cfg, At(u.cfg.entry, w), n))
  {
    var fn := FunctionBody(u, order);
    var start := Running(fn, KStop, w);
    if j == 0 {
      var n := NoStep(m, fn, u.cfg, start, At(u.cfg.entry, w));
      assert Accounted(CRun(m, fn, start, j), CfgRun(m, u.cfg, At(u.cfg.entry, w), n));
    } else {
      FunctionLinked(u, order);
      var code := FunctionStarts(u, order, m, w);
      var n, c, a := RunReflects(u, fn, m, u.cfg.entry, code, KStop, w, j - 1);
      CRunAdd(m, fn, start, 1, j - 1);
      assert Accounted(CRun(m, fn, start, j), CfgRun(m, u.cfg, At(u.cfg.entry, w), n));
    }
  }
}
