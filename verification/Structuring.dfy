/** What the structuring and inlining passes are meant to produce: the statements of each block
    once `parseBreaks` has turned every rotated loop into a do-while, which blocks are inlinable,
    and the C code a block stands for once every goto to an inlinable block is its target's code. */
module Structuring {
  import opened ControlFlow
  import opened CStatements

  datatype Stmt =
    | Op(op: nat)
    | Goto(target: Label)
    | ExprList(stmts: seq<Stmt>)
    | If(cond: nat, thn: Stmt, els: Stmt)
    | SwitchStmt(sel: nat, arms: seq<StmtArm>, default: Stmt)
    | Return(value: nat)
    | DoWhile(body: Stmt, cond: nat, negate: bool)
    | Latch(target: Label)

  datatype StmtArm = StmtArm(key: int, arm: Stmt)

  // ----- roles of a block -----

  ghost predicate IsLatch(u: Unit, b: Label) {
    exists l :: l in u.loops && l.latch == b
  }

  ghost predicate IsHeader(u: Unit, b: Label) {
    exists l :: l in u.loops && l.header == b
  }

  ghost predicate IsPreheader(u: Unit, b: Label) {
    exists l :: l in u.loops && l.preheader == b
  }

  ghost function LoopAfter(u: Unit, b: Label): (l: Loop)
    requires IsPreheader(u, b)
    ensures l in u.loops && l.preheader == b
  {
    var l :| l in u.loops && l.preheader == b;
    l
  }

  lemma {:induction false} LoopAfterPreheader(u: Unit, l: Loop)
    requires WellFormed(u) && l in u.loops
    ensures IsPreheader(u, l.preheader) && LoopAfter(u, l.preheader) == l
    ensures !IsLatch(u, l.preheader)
  {
    var k := LoopAfter(u, l.preheader);
    assert k.header == l.header;
  }

  /** The latch gets its own label inside the loop body. */
  predicate WrapsLatch(g: Cfg, l: Loop)
    requires l.header in g.blocks
  {
    l.header != l.latch && !HeaderGoesToLatch(g, l)
  }

  // ----- statements of a block after parseBreaks -----

  function OpStmts(ops: seq<nat>): seq<Stmt> {
    seq(|ops|, i requires 0 <= i < |ops| => Op(ops[i]))
  }

  function OneGoto(t: Label): Stmt {
    ExprList([Goto(t)])
  }

  /** Body of the do-while; the empty lists are the phi assignments of a phi-free function. */
  function DoBody(g: Cfg, l: Loop): seq<Stmt>
    requires l.header in g.blocks
  {
    (if l.header != l.latch then [ExprList([])] else [])
    + [Goto(l.header)]
    + (if WrapsLatch(g, l) then [Latch(l.latch)] else [])
    + [ExprList([])]
  }

  function LoopStmts(g: Cfg, l: Loop): seq<Stmt>
    requires LoopShape(g, l)
  {
    [DoWhile(ExprList(DoBody(g, l)), LatchCond(g, l), Negated(g, l)), OneGoto(Exit(g, l))]
  }

  function SwitchOf(sel: nat, cases: seq<Case>, default: Label): Stmt {
    SwitchStmt(sel, seq(|cases|, i requires 0 <= i < |cases| => StmtArm(cases[i].key, OneGoto(cases[i].target))), OneGoto(default))
  }

  /** The translation of a terminator that is not the end of a rotated loop. */
  function TermStmts(t: Terminator): seq<Stmt> {
    match t
    case Ret(v) => [Return(v)]
    case Br(target) => [Goto(target)]
    case CondBr(c, ifTrue, ifFalse) => [If(c, OneGoto(ifTrue), OneGoto(ifFalse))]
    case Switch(sel, cases, default) => [SwitchOf(sel, cases, default)]
  }

  ghost function Tail(u: Unit, b: Label): seq<Stmt>
    requires WellFormed(u) && b in u.cfg.blocks
  {
    if IsLatch(u, b) then []
    else if IsPreheader(u, b) then LoopStmts(u.cfg, LoopAfter(u, b))
    else TermStmts(u.cfg.blocks[b].term)
  }

  ghost function Exprs(u: Unit, b: Label): seq<Stmt>
    requires WellFormed(u) && b in u.cfg.blocks
  {
    OpStmts(u.cfg.blocks[b].body) + Tail(u, b)
  }

  /** Targets of the gotos in `Tail`, in order. */
  ghost function Targets(u: Unit, b: Label): seq<Label>
    requires WellFormed(u) && b in u.cfg.blocks
  {
    if IsLatch(u, b) then []
    else if IsPreheader(u, b) then [LoopAfter(u, b).header, Exit(u.cfg, LoopAfter(u, b))]
    else Succs(u.cfg.blocks[b].term)
  }

  // ----- which gotos are replaced by their target -----

  predicate ReturnOnly(g: Cfg, b: Label) {
    b in g.blocks && g.blocks[b].body == [] && g.blocks[b].term.Ret?
  }

  /** The flag as it stands while gotos are replaced: a rotated loop's latch is inlinable only
      when control always falls into it. */
  ghost predicate Inlinable(u: Unit, b: Label)
    requires WellFormed(u)
  {
    if IsLatch(u, b) then
      exists l :: l in u.loops && l.latch == b && !WrapsLatch(u.cfg, l)
    else
      b != u.cfg.entry && (IsHeader(u, b) || SinglePred(u.cfg, b) || ReturnOnly(u.cfg, b))
  }

  /** Blocks the writer prints on their own, under their own label. */
  ghost predicate Printed(u: Unit, b: Label)
    requires WellFormed(u)
  {
    !Inlinable(u, b) && !IsLatch(u, b)
  }

  // ----- why replacing terminates -----

  ghost function Farther(g: Cfg, b: Label): set<Label>
    requires WellFormedCfg(g) && b in g.blocks
  {
    set x | x in g.blocks && Dist(g, x) > Dist(g, b)
  }

  /** Blocks farther from entry; nothing is inlined into a block that only returns. */
  ghost function Measure(u: Unit, b: Label): nat
    requires WellFormed(u) && b in u.cfg.blocks
  {
    if ReturnOnly(u.cfg, b) then 0 else 1 + |Farther(u.cfg, b)|
  }

  lemma {:induction false} FartherShrinks(g: Cfg, p: Label, b: Label)
    requires WellFormedCfg(g) && p in g.blocks && b in g.blocks && Dist(g, p) < Dist(g, b)
    ensures |Farther(g, b)| < |Farther(g, p)|
  {
    assert b in Farther(g, p) - Farther(g, b);
    assert Farther(g, b) <= Farther(g, p);
    assert Farther(g, p) == Farther(g, b) + (Farther(g, p) - Farther(g, b));
  }

  /** The block whose statements hold the one goto to `t` that is replaced by `t`. */
  ghost predicate Holder(u: Unit, p: Label, t: Label)
    requires WellFormed(u) && p in u.cfg.blocks
  {
    t in Targets(u, p) && Inlinable(u, t)
  }

  /** A goto replaced by its target leads strictly away from entry, or to a block that only returns. */
  lemma {:induction false} InliningLeadsAway(u: Unit, p: Label, t: Label)
    requires WellFormed(u) && p in u.cfg.blocks && Holder(u, p, t)
    ensures t in u.cfg.blocks
    ensures ReturnOnly(u.cfg, t) || Dist(u.cfg, p) < Dist(u.cfg, t)
    ensures Measure(u, t) < Measure(u, p)
  {
    var g := u.cfg;
    if IsPreheader(u, p) {
      var l := LoopAfter(u, p);
      PreheaderBeforeHeader(g, l);
      if t != l.header {
        assert Edge(g, l.latch, t);
        ExitFarther(u, l);
      }
    } else {
      assert Edge(g, p, t);
      if !ReturnOnly(g, t) {
        PlainTargetFarther(u, p, t);
      }
    }
    if !ReturnOnly(g, t) {
      FartherShrinks(g, p, t);
    }
  }

  lemma {:induction false} ExitFarther(u: Unit, l: Loop)
    requires WellFormed(u) && l in u.loops && Inlinable(u, Exit(u.cfg, l))
    ensures Exit(u.cfg, l) in u.cfg.blocks
    ensures ReturnOnly(u.cfg, Exit(u.cfg, l)) || Dist(u.cfg, l.preheader) < Dist(u.cfg, Exit(u.cfg, l))
  {
    var g := u.cfg;
    var t := Exit(g, l);
    assert Edge(g, l.latch, t);
    if !ReturnOnly(g, t) {
      ExitIsSinglePred(u, l);
      SinglePredFarther(g, l.latch, t);
      LoopBlocksBehindHeader(g, l, l.latch);
      PreheaderBeforeHeader(g, l);
    }
  }

  /** An exit replaced by its target has no predecessor but the latch, and is itself no latch. */
  lemma {:induction false} ExitIsSinglePred(u: Unit, l: Loop)
    requires WellFormed(u) && l in u.loops && Inlinable(u, Exit(u.cfg, l))
    ensures !IsLatch(u, Exit(u.cfg, l)) && !IsHeader(u, Exit(u.cfg, l))
    ensures SinglePred(u.cfg, Exit(u.cfg, l)) || ReturnOnly(u.cfg, Exit(u.cfg, l))
  {
    var g := u.cfg;
    var t := Exit(g, l);
    assert Edge(g, l.latch, t);
    if IsLatch(u, t) {
      var k :| k in u.loops && k.latch == t && !WrapsLatch(g, k);
      if k.header != k.latch {
        ShortLoopLatchPred(g, k, l.latch);
      }
      assert false;
    }
  }

  lemma {:induction false} PlainTargetFarther(u: Unit, p: Label, t: Label)
    requires WellFormed(u) && p in u.cfg.blocks && !IsLatch(u, p) && !IsPreheader(u, p)
    requires Edge(u.cfg, p, t) && Inlinable(u, t) && !ReturnOnly(u.cfg, t)
    ensures Dist(u.cfg, p) < Dist(u.cfg, t)
  {
    var g := u.cfg;
    if IsLatch(u, t) {
      var l :| l in u.loops && l.latch == t && !WrapsLatch(g, l);
      ShortLatchHolder(u, l, p);
      LoopBlocksBehindHeader(g, l, l.latch);
      var q := NearerPred(g, t);
      ShortLoopLatchPred(g, l, q);
    } else {
      assert !IsHeader(u, t);
      SinglePredFarther(g, p, t);
    }
  }

  /** A plain block with a goto to an inlinable latch is the header of a loop that falls into it. */
  lemma {:induction false} ShortLatchHolder(u: Unit, l: Loop, p: Label)
    requires WellFormed(u) && l in u.loops && !WrapsLatch(u.cfg, l)
    requires !IsLatch(u, p) && !IsPreheader(u, p) && Edge(u.cfg, p, l.latch)
    ensures l.header != l.latch && HeaderGoesToLatch(u.cfg, l) && p == l.header
  {
    assert l.header != l.latch;
    ShortLoopLatchPred(u.cfg, l, p);
  }

  // ----- the code a block stands for -----


  ghost function GotoCode(u: Unit, p: Label, t: Label): seq<CStmt>
    requires WellFormed(u) && p in u.cfg.blocks && t in Targets(u, p)
    decreases Measure(u, p), 0
  {
    if Inlinable(u, t) then
      InliningLeadsAway(u, p, t);
      Code(u, t)
    else [CGoto(t)]
  }

  ghost function LatchCode(g: Cfg, l: Loop): seq<CStmt>
    requires l.header in g.blocks && l.latch in g.blocks
  {
    if WrapsLatch(g, l) then [CLabel(l.latch)] + Ops(g.blocks[l.latch].body) else []
  }

  ghost function BodyCode(u: Unit, l: Loop): seq<CStmt>
    requires WellFormed(u) && l in u.loops
    decreases Measure(u, l.preheader), 1
  {
    LoopAfterPreheader(u, l);
    GotoCode(u, l.preheader, l.header) + LatchCode(u.cfg, l)
  }

  ghost function Code(u: Unit, b: Label): seq<CStmt>
    requires WellFormed(u) && b in u.cfg.blocks
    decreases Measure(u, b), 3
  {
    Ops(u.cfg.blocks[b].body) + TailCode(u, b)
  }

  ghost function TailCode(u: Unit, b: Label): seq<CStmt>
    requires WellFormed(u) && b in u.cfg.blocks
    decreases Measure(u, b), 2
  {
    var g := u.cfg;
    if IsLatch(u, b) then []
    else if IsPreheader(u, b) then
      var l := LoopAfter(u, b);
      [CDo(BodyCode(u, l), LatchCond(g, l), Negated(g, l))] + GotoCode(u, b, Exit(g, l))
    else
      match g.blocks[b].term
      case Ret(v) => [CReturn(v)]
      case Br(t) => GotoCode(u, b, t)
      case CondBr(c, t, f) => [CIf(c, GotoCode(u, b, t), GotoCode(u, b, f))]
      case Switch(sel, cases, default) =>
        [CSwitch(sel,
                 seq(|cases|, i requires 0 <= i < |cases| =>
                   assert CaseTargets(cases)[i] == cases[i].target;
                   Arm(cases[i].key, GotoCode(u, b, cases[i].target))),
                 GotoCode(u, b, default))]
  }
}
