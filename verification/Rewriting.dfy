/** The statement trees of inlineBlocks and of the writer: what a statement becomes when gotos to
    inlinable blocks are replaced, what is printed for it, and that printing the rewritten blocks
    gives the code of `Structuring`. */
module Rewriting {
  import opened ControlFlow
  import opened CStatements
  import opened Structuring

  // ----- replacing gotos -----

  /** Every replaced goto in `s` leads to a block of smaller measure than `m`. */
  ghost predicate Below(u: Unit, s: Stmt, m: nat)
    requires WellFormed(u)
  {
    match s
    case Goto(t) => Inlinable(u, t) ==> t in u.cfg.blocks && Measure(u, t) < m
    case ExprList(ss) => BelowAll(u, ss, m)
    case If(_, thn, els) => Below(u, thn, m) && Below(u, els, m)
    case SwitchStmt(_, arms, default) => (forall a :: a in arms ==> Below(u, a.arm, m)) && Below(u, default, m)
    case DoWhile(body, _, _) => Below(u, body, m)
    case _ => true
  }

  ghost predicate BelowAll(u: Unit, ss: seq<Stmt>, m: nat)
    requires WellFormed(u)
  {
    forall s :: s in ss ==> Below(u, s, m)
  }

  lemma {:induction false} ExprsBelow(u: Unit, b: Label)
    requires WellFormed(u) && b in u.cfg.blocks
    ensures BelowAll(u, Exprs(u, b), Measure(u, b))
  {
    var m := Measure(u, b);
    forall t | t in Targets(u, b)
      ensures Below(u, Goto(t), m)
    {
      if Inlinable(u, t) {
        InliningLeadsAway(u, b, t);
      }
    }
    if IsLatch(u, b) {
    } else if IsPreheader(u, b) {
      var l := LoopAfter(u, b);
      assert Targets(u, b)[0] == l.header && Targets(u, b)[1] == Exit(u.cfg, l);
      LoopBelow(u, l, m);
    } else {
      TermBelow(u, u.cfg.blocks[b].term, m);
    }
    assert forall s :: s in Exprs(u, b) ==> s in OpStmts(u.cfg.blocks[b].body) || s in Tail(u, b);
  }

  lemma {:induction false} OneGotoBelow(u: Unit, t: Label, m: nat)
    requires WellFormed(u) && Below(u, Goto(t), m)
    ensures Below(u, OneGoto(t), m)
  {
  }

  lemma {:induction false} LoopBelow(u: Unit, l: Loop, m: nat)
    requires WellFormed(u) && l in u.loops && Below(u, Goto(l.header), m) && Below(u, Goto(Exit(u.cfg, l)), m)
    ensures BelowAll(u, LoopStmts(u.cfg, l), m)
  {
    OneGotoBelow(u, Exit(u.cfg, l), m);
    var body := ExprList(DoBody(u.cfg, l));
    assert BelowAll(u, [], m);
    assert BelowAll(u, body.stmts, m);
    assert Below(u, body, m);
  }

  lemma {:induction false} TermBelow(u: Unit, t: Terminator, m: nat)
    requires WellFormed(u) && forall s :: s in Succs(t) ==> Below(u, Goto(s), m)
    ensures BelowAll(u, TermStmts(t), m)
  {
    match t
    case Ret(_) =>
    case Br(s) =>
    case CondBr(_, s1, s2) =>
      OneGotoBelow(u, s1, m);
      OneGotoBelow(u, s2, m);
    case Switch(sel, cases, default) =>
      OneGotoBelow(u, default, m);
      var sw := SwitchOf(sel, cases, default);
      forall a | a in sw.arms
        ensures Below(u, a.arm, m)
      {
        var i :| 0 <= i < |sw.arms| && sw.arms[i] == a;
        assert Succs(t)[i] == cases[i].target;
        OneGotoBelow(u, cases[i].target, m);
      }
  }

  /** A statement with every goto to an inlinable block replaced by that block's rewritten statements. */
  ghost function Rewrite(u: Unit, s: Stmt, m: nat): Stmt
    requires WellFormed(u) && Below(u, s, m)
    decreases m, s, 0
  {
    match s
    case Goto(t) =>
      if Inlinable(u, t) then
        ExprsBelow(u, t);
        ExprList(RewriteAll(u, Exprs(u, t), Measure(u, t)))
      else s
    case ExprList(ss) => ExprList(RewriteAll(u, ss, m))
    case If(c, thn, els) => If(c, Rewrite(u, thn, m), Rewrite(u, els, m))
    case SwitchStmt(sel, arms, default) =>
      SwitchStmt(sel, RewriteArms(u, arms, m), Rewrite(u, default, m))
    case DoWhile(body, c, negate) => DoWhile(Rewrite(u, body, m), c, negate)
    case _ => s
  }

  ghost function RewriteAll(u: Unit, ss: seq<Stmt>, m: nat): (r: seq<Stmt>)
    requires WellFormed(u) && BelowAll(u, ss, m)
    ensures |r| == |ss|
    decreases m, ss, 1
  {
    if ss == [] then [] else [Rewrite(u, ss[0], m)] + RewriteAll(u, ss[1..], m)
  }

  ghost function RewriteArms(u: Unit, arms: seq<StmtArm>, m: nat): (r: seq<StmtArm>)
    requires WellFormed(u) && forall a :: a in arms ==> Below(u, a.arm, m)
    ensures |r| == |arms|
    decreases m, arms, 1
  {
    if arms == [] then [] else assert arms[0].arm < arms[0]; [StmtArm(arms[0].key, Rewrite(u, arms[0].arm, m))] + RewriteArms(u, arms[1..], m)
  }

  lemma {:induction false} RewriteAllAppend(u: Unit, a: seq<Stmt>, b: seq<Stmt>, m: nat)
    requires WellFormed(u) && BelowAll(u, a, m) && BelowAll(u, b, m)
    ensures BelowAll(u, a + b, m)
    ensures RewriteAll(u, a + b, m) == RewriteAll(u, a, m) + RewriteAll(u, b, m)
    decreases a
  {
    if a == [] {
      assert a + b == b;
    } else {
      assert (a + b)[1..] == a[1..] + b;
      RewriteAllAppend(u, a[1..], b, m);
    }
  }

  lemma {:induction false} RewriteAllAt(u: Unit, ss: seq<Stmt>, i: nat, m: nat)
    requires WellFormed(u) && BelowAll(u, ss, m) && i < |ss|
    ensures RewriteAll(u, ss, m)[i] == Rewrite(u, ss[i], m)
    decreases ss
  {
    if i > 0 {
      RewriteAllAt(u, ss[1..], i - 1, m);
    }
  }

  lemma {:induction false} RewriteArmsAt(u: Unit, arms: seq<StmtArm>, i: nat, m: nat)
    requires WellFormed(u) && (forall a :: a in arms ==> Below(u, a.arm, m)) && i < |arms|
    ensures RewriteArms(u, arms, m)[i] == StmtArm(arms[i].key, Rewrite(u, arms[i].arm, m))
    decreases arms
  {
    if i > 0 {
      RewriteArmsAt(u, arms[1..], i - 1, m);
    }
  }

  /** A rewritten statement has nothing left to replace, so visiting it again changes nothing;
      a block may be visited for its own sake and again while it is inlined elsewhere. */
  lemma {:induction false} RewriteTwice(u: Unit, s: Stmt, m: nat, n: nat)
    requires WellFormed(u) && Below(u, s, m)
    ensures Below(u, Rewrite(u, s, m), n) && Rewrite(u, Rewrite(u, s, m), n) == Rewrite(u, s, m)
    decreases m, s, 0
  {
    match s
    case Goto(t) =>
      if Inlinable(u, t) {
        ExprsBelow(u, t);
        RewriteAllTwice(u, Exprs(u, t), Measure(u, t), n);
      }
    case ExprList(ss) => RewriteAllTwice(u, ss, m, n);
    case If(_, thn, els) =>
      RewriteTwice(u, thn, m, n);
      RewriteTwice(u, els, m, n);
    case SwitchStmt(_, arms, default) =>
      RewriteArmsTwice(u, arms, m, n);
      RewriteTwice(u, default, m, n);
    case DoWhile(body, _, _) => RewriteTwice(u, body, m, n);
    case _ =>
  }

  lemma {:induction false} RewriteAllTwice(u: Unit, ss: seq<Stmt>, m: nat, n: nat)
    requires WellFormed(u) && BelowAll(u, ss, m)
    ensures BelowAll(u, RewriteAll(u, ss, m), n) && RewriteAll(u, RewriteAll(u, ss, m), n) == RewriteAll(u, ss, m)
    decreases m, ss, 1
  {
    if ss != [] {
      RewriteTwice(u, ss[0], m, n);
      RewriteAllTwice(u, ss[1..], m, n);
      assert RewriteAll(u, ss, m)[1..] == RewriteAll(u, ss[1..], m);
    }
  }

  lemma {:induction false} RewriteArmsTwice(u: Unit, arms: seq<StmtArm>, m: nat, n: nat)
    requires WellFormed(u) && forall a :: a in arms ==> Below(u, a.arm, m)
    ensures forall a :: a in RewriteArms(u, arms, m) ==> Below(u, a.arm, n)
    ensures RewriteArms(u, RewriteArms(u, arms, m), n) == RewriteArms(u, arms, m)
    decreases m, arms, 1
  {
    if arms != [] {
      assert arms[0].arm < arms[0];
      RewriteTwice(u, arms[0].arm, m, n);
      RewriteArmsTwice(u, arms[1..], m, n);
      assert RewriteArms(u, arms, m)[1..] == RewriteArms(u, arms[1..], m);
    }
  }

  // ----- printing -----

  function OpsOf(ss: seq<Stmt>): seq<CStmt> {
    if ss == [] then [] else (if ss[0].Op? then [COp(ss[0].op)] else []) + OpsOf(ss[1..])
  }

  /** What is printed for a statement; `latches` holds the plain statements of each latch block. */
  function Print(latches: map<Label, seq<Stmt>>, s: Stmt): seq<CStmt>
    decreases s, 0
  {
    match s
    case Op(op) => [COp(op)]
    case Goto(t) => [CGoto(t)]
    case ExprList(ss) => PrintAll(latches, ss)
    case If(c, thn, els) => [CIf(c, Print(latches, thn), Print(latches, els))]
    case SwitchStmt(sel, arms, default) => [CSwitch(sel, PrintArms(latches, arms), Print(latches, default))]
    case Return(v) => [CReturn(v)]
    case DoWhile(body, c, negate) => [CDo(Print(latches, body), c, negate)]
    case Latch(l) => [CLabel(l)] + (if l in latches then OpsOf(latches[l]) else [])
  }

  function PrintAll(latches: map<Label, seq<Stmt>>, ss: seq<Stmt>): seq<CStmt>
    decreases ss, 1
  {
    if ss == [] then [] else Print(latches, ss[0]) + PrintAll(latches, ss[1..])
  }

  function PrintArms(latches: map<Label, seq<Stmt>>, arms: seq<StmtArm>): (r: seq<Arm>)
    ensures |r| == |arms|
    decreases arms, 1
  {
    if arms == [] then [] else assert arms[0].arm < arms[0]; [Arm(arms[0].key, Print(latches, arms[0].arm))] + PrintArms(latches, arms[1..])
  }

  lemma {:induction false} PrintAllAppend(latches: map<Label, seq<Stmt>>, a: seq<Stmt>, b: seq<Stmt>)
    ensures PrintAll(latches, a + b) == PrintAll(latches, a) + PrintAll(latches, b)
    decreases a
  {
    if a == [] {
      assert a + b == b;
    } else {
      assert (a + b)[1..] == a[1..] + b;
      PrintAllAppend(latches, a[1..], b);
    }
  }

  lemma {:induction false} PrintOps(latches: map<Label, seq<Stmt>>, ops: seq<nat>)
    ensures PrintAll(latches, OpStmts(ops)) == Ops(ops) && OpsOf(OpStmts(ops)) == Ops(ops)
    decreases ops
  {
    if ops != [] {
      assert OpStmts(ops)[1..] == OpStmts(ops[1..]);
      PrintOps(latches, ops[1..]);
    }
  }

  lemma {:induction false} RewriteOps(u: Unit, ops: seq<nat>, m: nat)
    requires WellFormed(u)
    ensures BelowAll(u, OpStmts(ops), m) && RewriteAll(u, OpStmts(ops), m) == OpStmts(ops)
    decreases ops
  {
    if ops != [] {
      assert OpStmts(ops)[1..] == OpStmts(ops[1..]);
      RewriteOps(u, ops[1..], m);
    }
  }

  // ----- printing what was rewritten -----

  /** A block's statements after rewriting. */
  ghost function Final(u: Unit, b: Label): seq<Stmt>
    requires WellFormed(u) && b in u.cfg.blocks
  {
    ExprsBelow(u, b);
    RewriteAll(u, Exprs(u, b), Measure(u, b))
  }

  ghost predicate LatchesOk(u: Unit, latches: map<Label, seq<Stmt>>)
    requires WellFormed(u)
  {
    forall l {:trigger WellFormedLoop(u.cfg, l)} :: l in u.loops ==>
      WellFormedLoop(u.cfg, l) && l.latch in latches && latches[l.latch] == OpStmts(u.cfg.blocks[l.latch].body)
  }

  /** The printed form of a rewritten block is the code the block stands for. */
  lemma {:induction false} PrintFinal(u: Unit, latches: map<Label, seq<Stmt>>, b: Label)
    requires WellFormed(u) && LatchesOk(u, latches) && b in u.cfg.blocks
    ensures PrintAll(latches, Final(u, b)) == Code(u, b)
    decreases Measure(u, b), 5
  {
    var ops := OpStmts(u.cfg.blocks[b].body);
    var m := Measure(u, b);
    ExprsBelow(u, b);
    RewriteOps(u, u.cfg.blocks[b].body, m);
    assert BelowAll(u, Tail(u, b), m) by {
      forall s | s in Tail(u, b)
        ensures Below(u, s, m)
      {
        assert s in Exprs(u, b);
      }
    }
    RewriteAllAppend(u, ops, Tail(u, b), m);
    PrintAllAppend(latches, ops, RewriteAll(u, Tail(u, b), m));
    PrintOps(latches, u.cfg.blocks[b].body);
    PrintTail(u, latches, b);
  }

  lemma {:induction false} PrintGoto(u: Unit, latches: map<Label, seq<Stmt>>, b: Label, t: Label)
    requires WellFormed(u) && LatchesOk(u, latches) && b in u.cfg.blocks && t in Targets(u, b)
    requires Below(u, Goto(t), Measure(u, b))
    ensures Print(latches, Rewrite(u, Goto(t), Measure(u, b))) == GotoCode(u, b, t)
    decreases Measure(u, b), 0
  {
    if Inlinable(u, t) {
      InliningLeadsAway(u, b, t);
      PrintFinal(u, latches, t);
    }
  }

  lemma {:induction false} PrintOneGoto(u: Unit, latches: map<Label, seq<Stmt>>, b: Label, t: Label)
    requires WellFormed(u) && LatchesOk(u, latches) && b in u.cfg.blocks && t in Targets(u, b)
    requires Below(u, OneGoto(t), Measure(u, b))
    ensures Print(latches, Rewrite(u, OneGoto(t), Measure(u, b))) == GotoCode(u, b, t)
    decreases Measure(u, b), 1
  {
    assert OneGoto(t).stmts[0] == Goto(t);
    PrintGoto(u, latches, b, t);
    OneStmt(latches, Rewrite(u, Goto(t), Measure(u, b)));
    assert RewriteAll(u, [Goto(t)], Measure(u, b)) == [Rewrite(u, Goto(t), Measure(u, b))];
  }

  lemma {:induction false} OneStmt(latches: map<Label, seq<Stmt>>, s: Stmt)
    ensures PrintAll(latches, [s]) == Print(latches, s)
  {
    assert [s][1..] == [];
  }

  lemma {:induction false} PrintTail(u: Unit, latches: map<Label, seq<Stmt>>, b: Label)
    requires WellFormed(u) && LatchesOk(u, latches) && b in u.cfg.blocks
    requires BelowAll(u, Tail(u, b), Measure(u, b))
    ensures PrintAll(latches, RewriteAll(u, Tail(u, b), Measure(u, b))) == TailCode(u, b)
    decreases Measure(u, b), 4
  {
    if IsLatch(u, b) {
    } else if IsPreheader(u, b) {
      PrintLoop(u, latches, b, LoopAfter(u, b));
    } else {
      var m := Measure(u, b);
      var s := Tail(u, b)[0];
      assert Tail(u, b) == [s];
      assert RewriteAll(u, [s], m) == [Rewrite(u, s, m)];
      OneStmt(latches, Rewrite(u, s, m));
      PrintPlain(u, latches, b, s);
    }
  }

  lemma {:induction false} PrintPlain(u: Unit, latches: map<Label, seq<Stmt>>, b: Label, s: Stmt)
    requires WellFormed(u) && LatchesOk(u, latches) && b in u.cfg.blocks
    requires !IsLatch(u, b) && !IsPreheader(u, b)
    requires [s] == TermStmts(u.cfg.blocks[b].term) && Below(u, s, Measure(u, b))
    ensures Print(latches, Rewrite(u, s, Measure(u, b))) == TailCode(u, b)
    decreases Measure(u, b), 3
  {
    match u.cfg.blocks[b].term
    case Ret(_) =>
    case Br(t) =>
      PrintGoto(u, latches, b, t);
    case CondBr(_, t, f) =>
      PrintOneGoto(u, latches, b, t);
      PrintOneGoto(u, latches, b, f);
    case Switch(_, cases, default) =>
      assert s.arms[0..] == s.arms;
      PrintCases(u, latches, b, s, 0);
      PrintOneGoto(u, latches, b, default);
      assert PrintArms(latches, RewriteArms(u, s.arms, Measure(u, b))) == TailCode(u, b)[0].arms;
  }

  lemma {:induction false} CaseCode(u: Unit, b: Label, s: Stmt, i: nat)
    requires WellFormed(u) && b in u.cfg.blocks && !IsLatch(u, b) && !IsPreheader(u, b) && u.cfg.blocks[b].term.Switch?
    requires [s] == TermStmts(u.cfg.blocks[b].term) && i < |s.arms|
    ensures var t := u.cfg.blocks[b].term.cases[i].target;
            && t in Targets(u, b) && s.arms[i].arm == OneGoto(t)
            && TailCode(u, b)[0].CSwitch? && |TailCode(u, b)[0].arms| == |s.arms|
            && TailCode(u, b)[0].arms[i] == Arm(s.arms[i].key, GotoCode(u, b, t))
  {
    assert Targets(u, b)[i] == u.cfg.blocks[b].term.cases[i].target;
  }

  lemma {:induction false} PrintCases(u: Unit, latches: map<Label, seq<Stmt>>, b: Label, s: Stmt, i: nat)
    requires WellFormed(u) && LatchesOk(u, latches) && b in u.cfg.blocks
    requires !IsLatch(u, b) && !IsPreheader(u, b) && u.cfg.blocks[b].term.Switch?
    requires [s] == TermStmts(u.cfg.blocks[b].term) && Below(u, s, Measure(u, b)) && i <= |s.arms|
    ensures TailCode(u, b)[0].CSwitch? && |TailCode(u, b)[0].arms| == |s.arms|
    ensures PrintArms(latches, RewriteArms(u, s.arms[i..], Measure(u, b))) == TailCode(u, b)[0].arms[i..]
    decreases Measure(u, b), 2, |s.arms| - i
  {
    if i < |s.arms| {
      assert s.arms[i] in s.arms;
      CaseCode(u, b, s, i);
      PrintOneGoto(u, latches, b, u.cfg.blocks[b].term.cases[i].target);
      PrintCases(u, latches, b, s, i + 1);
      PrintArmsCons(u, latches, s.arms, i, Measure(u, b));
      SuffixStep(TailCode(u, b)[0].arms, i);
    }
  }

  lemma {:induction false} SuffixStep<T>(s: seq<T>, i: nat)
    requires i < |s|
    ensures s[i..] == [s[i]] + s[i + 1..]
  {
  }

  lemma {:induction false} PrintArmsCons(u: Unit, latches: map<Label, seq<Stmt>>, arms: seq<StmtArm>, i: nat, m: nat)
    requires WellFormed(u) && i < |arms| && forall a :: a in arms ==> Below(u, a.arm, m)
    ensures PrintArms(latches, RewriteArms(u, arms[i..], m))
         == [Arm(arms[i].key, Print(latches, Rewrite(u, arms[i].arm, m)))]
            + PrintArms(latches, RewriteArms(u, arms[i + 1..], m))
  {
    assert arms[i..][1..] == arms[i + 1..];
    var ra := RewriteArms(u, arms[i..], m);
    assert ra[1..] == RewriteArms(u, arms[i + 1..], m);
  }

  lemma {:induction false} PrintTwo(u: Unit, latches: map<Label, seq<Stmt>>, a: Stmt, b: Stmt, m: nat)
    requires WellFormed(u) && BelowAll(u, [a, b], m)
    ensures Below(u, a, m) && Below(u, b, m)
    ensures PrintAll(latches, RewriteAll(u, [a, b], m)) == Print(latches, Rewrite(u, a, m)) + Print(latches, Rewrite(u, b, m))
  {
    assert [a, b][0] == a && [a, b][1] == b;
    assert [a, b][1..] == [b];
    var ra, rb := Rewrite(u, a, m), Rewrite(u, b, m);
    assert RewriteAll(u, [b], m) == [rb];
    assert RewriteAll(u, [a, b], m) == [ra] + [rb];
    PrintAllAppend(latches, [ra], [rb]);
    OneStmt(latches, ra);
    OneStmt(latches, rb);
  }

  lemma {:induction false} PrintLoop(u: Unit, latches: map<Label, seq<Stmt>>, b: Label, l: Loop)
    requires WellFormed(u) && LatchesOk(u, latches) && b in u.cfg.blocks
    requires !IsLatch(u, b) && IsPreheader(u, b) && l == LoopAfter(u, b)
    requires BelowAll(u, LoopStmts(u.cfg, l), Measure(u, b))
    ensures PrintAll(latches, RewriteAll(u, LoopStmts(u.cfg, l), Measure(u, b))) == TailCode(u, b)
    decreases Measure(u, b), 3
  {
    var m := Measure(u, b);
    var body := DoBody(u.cfg, l);
    var do := DoWhile(ExprList(body), LatchCond(u.cfg, l), Negated(u.cfg, l));
    PrintTwo(u, latches, do, OneGoto(Exit(u.cfg, l)), m);
    DoBelow(u, body, LatchCond(u.cfg, l), Negated(u.cfg, l), m);
    assert Targets(u, b)[1] == Exit(u.cfg, l);
    PrintOneGoto(u, latches, b, Exit(u.cfg, l));
    PrintDo(u, latches, body, LatchCond(u.cfg, l), Negated(u.cfg, l), m);
    PrintBody(u, latches, l);
  }

  lemma {:induction false} DoBelow(u: Unit, body: seq<Stmt>, cond: nat, negate: bool, m: nat)
    requires WellFormed(u) && Below(u, DoWhile(ExprList(body), cond, negate), m)
    ensures BelowAll(u, body, m)
  {
    assert Below(u, ExprList(body), m);
  }

  lemma {:induction false} PrintDo(u: Unit, latches: map<Label, seq<Stmt>>, body: seq<Stmt>, cond: nat, negate: bool, m: nat)
    requires WellFormed(u) && BelowAll(u, body, m) && Below(u, DoWhile(ExprList(body), cond, negate), m)
    ensures Print(latches, Rewrite(u, DoWhile(ExprList(body), cond, negate), m))
         == [CDo(PrintAll(latches, RewriteAll(u, body, m)), cond, negate)]
  {
    assert Rewrite(u, ExprList(body), m) == ExprList(RewriteAll(u, body, m));
  }

  lemma {:induction false} PrintBody(u: Unit, latches: map<Label, seq<Stmt>>, l: Loop)
    requires WellFormed(u) && LatchesOk(u, latches) && l in u.loops
    requires BelowAll(u, DoBody(u.cfg, l), Measure(u, l.preheader))
    ensures PrintAll(latches, RewriteAll(u, DoBody(u.cfg, l), Measure(u, l.preheader))) == BodyCode(u, l)
    decreases Measure(u, l.preheader), 2
  {
    var m := Measure(u, l.preheader);
    LoopAfterPreheader(u, l);
    var phis := if l.header != l.latch then [ExprList([])] else [];
    var latch := if WrapsLatch(u.cfg, l) then [Latch(l.latch)] else [];
    assert DoBody(u.cfg, l) == phis + [Goto(l.header)] + latch + [ExprList([])];
    assert Goto(l.header) in DoBody(u.cfg, l);
    PrintParts(u, latches, phis, Goto(l.header), latch, m);
    PrintGoto(u, latches, l.preheader, l.header);
    PrintLatch(u, latches, l);
  }

  lemma {:induction false} PrintLatch(u: Unit, latches: map<Label, seq<Stmt>>, l: Loop)
    requires WellFormed(u) && LatchesOk(u, latches) && l in u.loops
    ensures PrintAll(latches, if WrapsLatch(u.cfg, l) then [Latch(l.latch)] else []) == LatchCode(u.cfg, l)
  {
    OneStmt(latches, Latch(l.latch));
    assert WellFormedLoop(u.cfg, l);
    PrintOps(latches, u.cfg.blocks[l.latch].body);
  }

  lemma {:induction false} RewriteParts(u: Unit, phis: seq<Stmt>, goto: Stmt, latch: seq<Stmt>, m: nat)
    requires WellFormed(u) && Below(u, goto, m)
    requires phis == [] || phis == [ExprList([])]
    requires latch == [] || (|latch| == 1 && latch[0].Latch?)
    ensures BelowAll(u, phis + [goto] + latch + [ExprList([])], m)
    ensures RewriteAll(u, phis + [goto] + latch + [ExprList([])], m) == phis + [Rewrite(u, goto, m)] + latch + [ExprList([])]
  {
    EmptyLists(u, map[], phis, m);
    EmptyLists(u, map[], [ExprList([])], m);
    assert RewriteAll(u, [goto], m) == [Rewrite(u, goto, m)];
    assert RewriteAll(u, latch, m) == latch;
    RewriteAllAppend(u, phis, [goto], m);
    RewriteAllAppend(u, phis + [goto], latch, m);
    RewriteAllAppend(u, phis + [goto] + latch, [ExprList([])], m);
  }

  lemma {:induction false} PrintRewritten(u: Unit, latches: map<Label, seq<Stmt>>, phis: seq<Stmt>, g: Stmt, latch: seq<Stmt>)
    requires WellFormed(u) && (phis == [] || phis == [ExprList([])])
    ensures PrintAll(latches, phis + [g] + latch + [ExprList([])]) == Print(latches, g) + PrintAll(latches, latch)
  {
    EmptyLists(u, latches, phis, 0);
    EmptyLists(u, latches, [ExprList([])], 0);
    PrintAllAppend(latches, phis, [g]);
    PrintAllAppend(latches, phis + [g], latch);
    PrintAllAppend(latches, phis + [g] + latch, [ExprList([])]);
    OneStmt(latches, g);
  }

  lemma {:induction false} PrintParts(u: Unit, latches: map<Label, seq<Stmt>>, phis: seq<Stmt>, goto: Stmt,
                                      latch: seq<Stmt>, m: nat)
    requires WellFormed(u) && Below(u, goto, m)
    requires phis == [] || phis == [ExprList([])]
    requires latch == [] || (|latch| == 1 && latch[0].Latch?)
    ensures BelowAll(u, phis + [goto] + latch + [ExprList([])], m)
    ensures PrintAll(latches, RewriteAll(u, phis + [goto] + latch + [ExprList([])], m))
         == Print(latches, Rewrite(u, goto, m)) + PrintAll(latches, latch)
  {
    RewriteParts(u, phis, goto, latch, m);
    PrintRewritten(u, latches, phis, Rewrite(u, goto, m), latch);
  }

  lemma {:induction false} EmptyLists(u: Unit, latches: map<Label, seq<Stmt>>, ss: seq<Stmt>, m: nat)
    requires WellFormed(u) && (ss == [] || ss == [ExprList([])])
    ensures BelowAll(u, ss, m) && RewriteAll(u, ss, m) == ss && PrintAll(latches, ss) == []
  {
    assert BelowAll(u, [], m);
  }
}
