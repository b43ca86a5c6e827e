/** The emitted function body runs like the control-flow graph: one graph step is matched by
    finitely many C steps, and never by none for ever. */
module Simulation {
  import opened ControlFlow
  import opened CStatements
  import opened Structuring

  // ----- the function body the writer prints -----

  ghost function LabelledCode(u: Unit, b: Label): seq<CStmt>
    requires WellFormed(u) && b in u.cfg.blocks
  {
    [CLabel(b)] + Code(u, b)
  }

  /** Blocks of `order` that are printed on their own. */
  ghost function Rest(u: Unit, order: seq<Label>): seq<CStmt>
    requires WellFormed(u) && forall b :: b in order ==> b in u.cfg.blocks
  {
    if order == [] then []
    else if order[0] != u.cfg.entry && Printed(u, order[0]) then LabelledCode(u, order[0]) + Rest(u, order[1..])
    else Rest(u, order[1..])
  }

  /** The block map's iteration order is arbitrary but lists every block once. */
  ghost predicate Enumerates(u: Unit, order: seq<Label>) {
    && (forall b :: b in order <==> b in u.cfg.blocks)
    && (forall i, j :: 0 <= i < j < |order| ==> order[i] != order[j])
  }

  ghost function FunctionBody(u: Unit, order: seq<Label>): seq<CStmt>
    requires WellFormed(u) && Enumerates(u, order)
  {
    LabelledCode(u, u.cfg.entry) + Rest(u, order)
  }

  // ----- where the code of a block may stand -----

  /** Control falls into the end of loop `l`'s do-while, which repeats the loop or leaves it. */
  ghost predicate AtLoopEnd(u: Unit, l: Loop, rest: seq<CStmt>, k: Kont)
    requires WellFormed(u) && l in u.loops
  {
    LoopAfterPreheader(u, l);
    && rest == []
    && k.KDo?
    && k.body == BodyCode(u, l)
    && k.cond == LatchCond(u.cfg, l)
    && k.negate == Negated(u.cfg, l)
    && GotoCode(u, l.preheader, Exit(u.cfg, l)) <= k.rest
  }

  /** Executing `b` ends with control falling into the end of loop `l`. */
  ghost predicate FallsIntoEnd(u: Unit, l: Loop, b: Label)
    requires WellFormed(u) && l in u.loops
  {
    b == l.latch || (b == l.header && HeaderGoesToLatch(u.cfg, l))
  }

  /** `code` starts with the code of `b`, in a place where that code does what `b` does. */
  ghost predicate Site(u: Unit, b: Label, code: seq<CStmt>, k: Kont)
    requires WellFormed(u)
  {
    && b in u.cfg.blocks
    && Code(u, b) <= code
    && (forall l {:trigger FallsIntoEnd(u, l, b)} :: l in u.loops && FallsIntoEnd(u, l, b) ==> AtLoopEnd(u, l, code[|Code(u, b)|..], k))
  }

  /** The code of a block in front of anything is a site, unless the block falls into a loop's end. */
  lemma {:induction false} PlainSite(u: Unit, b: Label, rest: seq<CStmt>, k: Kont)
    requires WellFormed(u) && b in u.cfg.blocks
    requires forall l {:trigger FallsIntoEnd(u, l, b)} :: l in u.loops && FallsIntoEnd(u, l, b) ==> AtLoopEnd(u, l, rest, k)
    ensures Site(u, b, Code(u, b) + rest, k)
  {
    assert (Code(u, b) + rest)[|Code(u, b)|..] == rest;
  }

  /** Entering the do-while body is being at the header. */
  lemma {:induction false} HeaderSite(u: Unit, l: Loop, k: Kont)
    requires WellFormed(u) && l in u.loops && AtLoopEnd(u, l, [], k)
    ensures Site(u, l.header, BodyCode(u, l), k)
  {
    LoopAfterPreheader(u, l);
    assert l.header in Targets(u, l.preheader);
    HeaderInlinable(u, l);
    forall n | n in u.loops && FallsIntoEnd(u, n, l.header)
      ensures AtLoopEnd(u, n, LatchCode(u.cfg, l), k)
    {
      assert n == l;
    }
    PlainSite(u, l.header, LatchCode(u.cfg, l), k);
  }

  lemma {:induction false} HeaderInlinable(u: Unit, l: Loop)
    requires WellFormed(u) && l in u.loops
    ensures Inlinable(u, l.header)
  {
    if IsLatch(u, l.header) {
      var n :| n in u.loops && n.latch == l.header;
      assert n == l;
    }
  }

  /** Every goto left in the code finds its label, and what follows a label is a site of its block. */
  ghost predicate Linked(u: Unit, fn: seq<CStmt>)
    requires WellFormed(u)
  {
    && (forall t {:trigger FindLabel(t, fn, KStop)} :: t in u.cfg.blocks && !Inlinable(u, t) ==> FindLabel(t, fn, KStop).Some?)
    && (forall t {:trigger FindLabel(t, fn, KStop)} :: FindLabel(t, fn, KStop).Some? ==>
         Site(u, t, FindLabel(t, fn, KStop).value.0, FindLabel(t, fn, KStop).value.1))
  }

  lemma {:induction false} SplitPrefix<T>(a: seq<T>, b: seq<T>)
    requires a <= b
    ensures b == a + b[|a|..]
  {
  }

  /** The code left after a goto to `t` leads to a site of `t`. */
  lemma {:induction false} GotoReaches<S>(u: Unit, fn: seq<CStmt>, m: Machine<S>, p: Label, t: Label,
                       rest: seq<CStmt>, k: Kont, w: World<S>)
    returns (n: nat, code: seq<CStmt>, next: Kont)
    requires WellFormed(u) && p in u.cfg.blocks && t in Targets(u, p)
    requires Linked(u, fn)
    requires t in u.cfg.blocks
    requires Inlinable(u, t) ==>
      forall l {:trigger FallsIntoEnd(u, l, t)} :: l in u.loops && FallsIntoEnd(u, l, t) ==> AtLoopEnd(u, l, rest, k)
    ensures CRun(m, fn, Running(GotoCode(u, p, t) + rest, k, w), n) == Running(code, next, w)
    ensures Site(u, t, code, next)
    ensures n > 0 || Inlinable(u, t)
  {
    if Inlinable(u, t) {
      n, code, next := 0, Code(u, t) + rest, k;
      PlainSite(u, t, rest, k);
    } else {
      var r := FindLabel(t, fn, KStop);
      n, code, next := 1, r.value.0, r.value.1;
      assert CStep(m, fn, Running([CGoto(t)] + rest, k, w)) == Running(code, next, w);
      assert CRun(m, fn, Running(code, next, w), 0) == Running(code, next, w);
    }
  }

  // ----- one graph step -----

  /** From a site of `b`, the C code gets to what the graph does after `b`: it returns the same
      value, or stands at a site of the next block; it takes no step only towards an inlined block. */
  ghost predicate Matches<S>(u: Unit, m: Machine<S>, b: Label, s: CfgState<S>, n: nat, c: CState<S>)
    requires WellFormed(u) && b in u.cfg.blocks
  {
    match s
    case Returned(v, w) => c == Done(v, w) && n > 0
    case At(t, w) =>
      c.Running? && c.w == w && Site(u, t, c.code, c.k) && (n > 0 || Measure(u, t) < Measure(u, b))
  }

  lemma {:induction false} PrependRun<S>(u: Unit, fn: seq<CStmt>, m: Machine<S>, b: Label, after: CfgState<S>,
                      s: CState<S>, a: nat, s1: CState<S>, n: nat)
    requires WellFormed(u) && b in u.cfg.blocks
    requires CRun(m, fn, s, a) == s1 && Matches(u, m, b, after, n, CRun(m, fn, s1, n))
    ensures Matches(u, m, b, after, a + n, CRun(m, fn, s, a + n))
  {
    CRunAdd(m, fn, s, a, n);
  }

  lemma {:induction false} OneStep<S>(fn: seq<CStmt>, m: Machine<S>, s: CState<S>, s1: CState<S>)
    requires CStep(m, fn, s) == s1
    ensures CRun(m, fn, s, 1) == s1
  {
    assert CRun(m, fn, s1, 0) == s1;
  }

  ghost function AfterBody<S>(u: Unit, m: Machine<S>, b: Label, w: World<S>): CfgState<S>
    requires b in u.cfg.blocks
  {
    match u.cfg.blocks[b].term
    case Ret(v) => Returned(m.value(v, w.mem), w)
    case _ => At(NextBlock(m, u.cfg.blocks[b].term, w.mem), w)
  }

  lemma {:induction false} SiteSplit(u: Unit, b: Label, code: seq<CStmt>, k: Kont)
    requires WellFormed(u) && Site(u, b, code, k)
    ensures code == Ops(u.cfg.blocks[b].body) + (TailCode(u, b) + code[|Code(u, b)|..])
  {
    var ops, tail, rest := Ops(u.cfg.blocks[b].body), TailCode(u, b), code[|Code(u, b)|..];
    SplitPrefix(Code(u, b), code);
    assert (ops + tail) + rest == ops + (tail + rest);
  }

  lemma {:induction false} BlockStep<S>(u: Unit, fn: seq<CStmt>, m: Machine<S>, b: Label,
                                        code: seq<CStmt>, k: Kont, w: World<S>)
    returns (n: nat, c: CState<S>)
    requires WellFormed(u) && Site(u, b, code, k)
    requires Linked(u, fn)
    ensures c == CRun(m, fn, Running(code, k, w), n)
    ensures Matches(u, m, b, CfgStep(m, u.cfg, At(b, w)), n, c)
  {
    var body := u.cfg.blocks[b].body;
    var tail := TailCode(u, b);
    var rest := code[|Code(u, b)|..];
    SiteSplit(u, b, code, k);
    OpsRun(m, fn, body, tail + rest, k, w);
    var w1 := RunOps(m, body, w);
    var n1 := TailStep(u, fn, m, b, tail, rest, k, w1);
    n := |body| + n1;
    PrependRun(u, fn, m, b, AfterBody(u, m, b, w1), Running(code, k, w), |body|, Running(tail + rest, k, w1), n1);
    c := CRun(m, fn, Running(code, k, w), n);
  }

  lemma {:induction false} TailStep<S>(u: Unit, fn: seq<CStmt>, m: Machine<S>, b: Label,
                    tail: seq<CStmt>, rest: seq<CStmt>, k: Kont, w: World<S>)
    returns (n: nat)
    requires WellFormed(u) && b in u.cfg.blocks && tail == TailCode(u, b)
    requires Linked(u, fn)
    requires forall l {:trigger FallsIntoEnd(u, l, b)} :: l in u.loops && FallsIntoEnd(u, l, b) ==> AtLoopEnd(u, l, rest, k)
    ensures Matches(u, m, b, AfterBody(u, m, b, w), n, CRun(m, fn, Running(tail + rest, k, w), n))
  {
    if IsLatch(u, b) {
      var l :| l in u.loops && l.latch == b;
      assert FallsIntoEnd(u, l, b);
      assert AtLoopEnd(u, l, rest, k);
      assert tail + rest == [];
      n := LatchStep(u, fn, m, l, k, w);
    } else if IsPreheader(u, b) {
      n := PreheaderStep(u, fn, m, b, rest, k, w);
    } else {
      n := PlainStep(u, fn, m, b, tail, rest, k, w);
    }
  }

  /** The do-while condition decides as the latch's branch does. */
  lemma {:induction false} LatchNext<S>(u: Unit, m: Machine<S>, l: Loop, w: World<S>)
    requires WellFormed(u) && l in u.loops
    ensures AfterBody(u, m, l.latch, w)
         == At(if m.test(LatchCond(u.cfg, l), w.mem) != Negated(u.cfg, l) then l.header else Exit(u.cfg, l), w)
  {
  }

  lemma {:induction false} LatchStep<S>(u: Unit, fn: seq<CStmt>, m: Machine<S>, l: Loop, k: Kont, w: World<S>)
    returns (n: nat)
    requires WellFormed(u) && l in u.loops
    requires Linked(u, fn)
    requires AtLoopEnd(u, l, [], k)
    ensures Matches(u, m, l.latch, AfterBody(u, m, l.latch, w), n, CRun(m, fn, Running([], k, w), n))
  {
    var code, next;
    if m.test(k.cond, w.mem) != k.negate {
      n, code, next := 1, k.body, k;
      HeaderSite(u, l, k);
      OneStep(fn, m, Running([], k, w), Running(k.body, k, w));
    } else {
      OneStep(fn, m, Running([], k, w), Running(k.rest, k.next, w));
      n, code, next := LeaveLoop(u, fn, m, l, k.rest, k.next, w);
      CRunAdd(m, fn, Running([], k, w), 1, n);
      n := 1 + n;
    }
    LatchNext(u, m, l, w);
  }

  lemma {:induction false} ExitFallsNowhere(u: Unit, l: Loop)
    requires WellFormed(u) && l in u.loops
    ensures Exit(u.cfg, l) in u.cfg.blocks
    ensures Inlinable(u, Exit(u.cfg, l)) ==> forall n {:trigger FallsIntoEnd(u, n, Exit(u.cfg, l))} :: n in u.loops ==> !FallsIntoEnd(u, n, Exit(u.cfg, l))
  {
    var t := Exit(u.cfg, l);
    assert Edge(u.cfg, l.latch, t);
    if Inlinable(u, t) {
      ExitIsSinglePred(u, l);
    }
  }

  lemma {:induction false} LeaveLoop<S>(u: Unit, fn: seq<CStmt>, m: Machine<S>, l: Loop,
                     rest: seq<CStmt>, k: Kont, w: World<S>)
    returns (n: nat, code: seq<CStmt>, next: Kont)
    requires WellFormed(u) && l in u.loops
    requires Linked(u, fn)
    requires Exit(u.cfg, l) in Targets(u, l.preheader) && GotoCode(u, l.preheader, Exit(u.cfg, l)) <= rest
    ensures CRun(m, fn, Running(rest, k, w), n) == Running(code, next, w)
    ensures Site(u, Exit(u.cfg, l), code, next)
  {
    var t := Exit(u.cfg, l);
    ExitFallsNowhere(u, l);
    var goto := GotoCode(u, l.preheader, t);
    SplitPrefix(goto, rest);
    n, code, next := GotoReaches(u, fn, m, l.preheader, t, rest[|goto|..], k, w);
  }

  lemma {:induction false} PreheaderStep<S>(u: Unit, fn: seq<CStmt>, m: Machine<S>, b: Label,
                         rest: seq<CStmt>, k: Kont, w: World<S>)
    returns (n: nat)
    requires WellFormed(u) && b in u.cfg.blocks && !IsLatch(u, b) && IsPreheader(u, b)
    ensures Matches(u, m, b, AfterBody(u, m, b, w), n,
                    CRun(m, fn, Running(TailCode(u, b) + rest, k, w), n))
  {
    var l := LoopAfter(u, b);
    var body := BodyCode(u, l);
    var goto := GotoCode(u, b, Exit(u.cfg, l));
    var k1 := EnterLoop(u, l, goto, rest, k);
    n := 1;
    DoStep(fn, m, body, LatchCond(u.cfg, l), Negated(u.cfg, l), goto, rest, k, w);
  }

  lemma {:induction false} EnterLoop(u: Unit, l: Loop, goto: seq<CStmt>, rest: seq<CStmt>, k: Kont) returns (k1: Kont)
    requires WellFormed(u) && l in u.loops
    requires Exit(u.cfg, l) in Targets(u, l.preheader) && goto == GotoCode(u, l.preheader, Exit(u.cfg, l))
    ensures k1 == KDo(BodyCode(u, l), LatchCond(u.cfg, l), Negated(u.cfg, l), goto + rest, k)
    ensures Site(u, l.header, BodyCode(u, l), k1)
  {
    k1 := KDo(BodyCode(u, l), LatchCond(u.cfg, l), Negated(u.cfg, l), goto + rest, k);
    HeaderSite(u, l, k1);
  }

  lemma {:induction false} DoStep<S>(fn: seq<CStmt>, m: Machine<S>, body: seq<CStmt>, cond: nat, negate: bool,
                  goto: seq<CStmt>, rest: seq<CStmt>, k: Kont, w: World<S>)
    ensures CRun(m, fn, Running([CDo(body, cond, negate)] + goto + rest, k, w), 1)
         == Running(body, KDo(body, cond, negate, goto + rest, k), w)
  {
    var s := Running([CDo(body, cond, negate)] + goto + rest, k, w);
    assert s.code[1..] == goto + rest;
    OneStep(fn, m, s, Running(body, KDo(body, cond, negate, goto + rest, k), w));
  }

  /** A plain block's inlined target falls into a loop's end only if the block itself does. */
  lemma {:induction false} PlainTargetSite(u: Unit, b: Label, t: Label, rest: seq<CStmt>, k: Kont)
    requires WellFormed(u) && b in u.cfg.blocks && !IsLatch(u, b) && !IsPreheader(u, b)
    requires Edge(u.cfg, b, t) && Inlinable(u, t)
    requires forall l {:trigger FallsIntoEnd(u, l, b)} :: l in u.loops && FallsIntoEnd(u, l, b) ==> AtLoopEnd(u, l, rest, k)
    ensures forall l {:trigger FallsIntoEnd(u, l, t)} :: l in u.loops && FallsIntoEnd(u, l, t) ==> AtLoopEnd(u, l, rest, k)
  {
    forall l | l in u.loops && FallsIntoEnd(u, l, t)
      ensures AtLoopEnd(u, l, rest, k)
    {
      assert t != l.header;
      var n :| n in u.loops && n.latch == t && !WrapsLatch(u.cfg, n);
      LatchDeterminesLoop(u, l, n);
      ShortLatchHolder(u, l, b);
      assert FallsIntoEnd(u, l, b);
    }
  }

  lemma {:induction false} PlainStep<S>(u: Unit, fn: seq<CStmt>, m: Machine<S>, b: Label,
                     tail: seq<CStmt>, rest: seq<CStmt>, k: Kont, w: World<S>)
    returns (n: nat)
    requires WellFormed(u) && b in u.cfg.blocks && !IsLatch(u, b) && !IsPreheader(u, b) && tail == TailCode(u, b)
    requires Linked(u, fn)
    requires forall l {:trigger FallsIntoEnd(u, l, b)} :: l in u.loops && FallsIntoEnd(u, l, b) ==> AtLoopEnd(u, l, rest, k)
    ensures Matches(u, m, b, AfterBody(u, m, b, w), n, CRun(m, fn, Running(tail + rest, k, w), n))
  {
    var term := u.cfg.blocks[b].term;
    if term.Ret? {
      n := 1;
      OneStep(fn, m, Running(tail + rest, k, w), Done(m.value(term.value, w.mem), w));
    } else {
      var t := NextBlock(m, term, w.mem);
      NextBlockIsSucc(m, term, w.mem);
      var a, more := BranchTaken(u, fn, m, b, t, rest, k, w);
      var n1, c := PlainGoto(u, fn, m, b, t, more, k, w);
      n := a + n1;
      CRunAdd(m, fn, Running(tail + rest, k, w), a, n1);
    }
  }

  lemma {:induction false} PlainGoto<S>(u: Unit, fn: seq<CStmt>, m: Machine<S>, b: Label, t: Label,
                     rest: seq<CStmt>, k: Kont, w: World<S>)
    returns (n: nat, c: CState<S>)
    requires WellFormed(u) && b in u.cfg.blocks && !IsLatch(u, b) && !IsPreheader(u, b)
    requires Linked(u, fn)
    requires forall l {:trigger FallsIntoEnd(u, l, b)} :: l in u.loops && FallsIntoEnd(u, l, b) ==> AtLoopEnd(u, l, rest, k)
    requires t in Succs(u.cfg.blocks[b].term)
    ensures c == CRun(m, fn, Running(GotoCode(u, b, t) + rest, k, w), n)
    ensures c.Running? && c.w == w && Site(u, t, c.code, c.k) && (n > 0 || Measure(u, t) < Measure(u, b))
  {
    assert Edge(u.cfg, b, t);
    if Inlinable(u, t) {
      PlainTargetSite(u, b, t, rest, k);
      InliningLeadsAway(u, b, t);
    }
    var code, next;
    n, code, next := GotoReaches(u, fn, m, b, t, rest, k, w);
    c := Running(code, next, w);
  }

  lemma {:induction false} NextBlockIsSucc<S>(m: Machine<S>, t: Terminator, s: S)
    requires !t.Ret?
    ensures NextBlock(m, t, s) in Succs(t)
  {
    if t.Switch? {
      var i := KeyIndex(CaseKeys(t.cases), m.select(t.sel, s));
      if i < |t.cases| {
        assert Succs(t)[i] == t.cases[i].target;
      } else {
        assert Succs(t)[|t.cases|] == t.default;
      }
    }
  }

  /** The branch statement continues with the code of the goto the graph takes, and what follows
      it; after a `switch` arm that is the later arms, and then the block ends no loop. */
  lemma {:induction false} BranchTaken<S>(u: Unit, fn: seq<CStmt>, m: Machine<S>, b: Label, t: Label,
                       rest: seq<CStmt>, k: Kont, w: World<S>)
    returns (n: nat, more: seq<CStmt>)
    requires WellFormed(u) && b in u.cfg.blocks && !IsLatch(u, b) && !IsPreheader(u, b)
    requires var term := u.cfg.blocks[b].term; !term.Ret? && t == NextBlock(m, term, w.mem) && t in Succs(term)
    ensures CRun(m, fn, Running(TailCode(u, b) + rest, k, w), n) == Running(GotoCode(u, b, t) + more, k, w)
    ensures more == rest || forall l {:trigger FallsIntoEnd(u, l, b)} :: l in u.loops ==> !FallsIntoEnd(u, l, b)
  {
    var term := u.cfg.blocks[b].term;
    var s := Running(TailCode(u, b) + rest, k, w);
    n, more := 1, rest;
    match term
    case Br(_) =>
      n := 0;
    case CondBr(c, _, _) =>
      IfStep(fn, m, TailCode(u, b)[0], rest, k, w);
    case Switch(sel, cases, default) =>
      var sw := TailCode(u, b)[0];
      assert ArmKeys(sw.arms) == CaseKeys(cases);
      var i := KeyIndex(CaseKeys(cases), m.select(sel, w.mem));
      SwitchStep(fn, m, sw, i, rest, k, w);
      if i < |cases| {
        more := Flatten(sw.arms[i + 1..]) + sw.default + rest;
      }
  }

  lemma {:induction false} IfStep<S>(fn: seq<CStmt>, m: Machine<S>, s: CStmt, rest: seq<CStmt>, k: Kont, w: World<S>)
    requires s.CIf?
    ensures CRun(m, fn, Running([s] + rest, k, w), 1)
         == Running((if m.test(s.cond, w.mem) then s.thn else s.els) + rest, k, w)
  {
    assert ([s] + rest)[1..] == rest;
    OneStep(fn, m, Running([s] + rest, k, w), Running((if m.test(s.cond, w.mem) then s.thn else s.els) + rest, k, w));
  }

  lemma {:induction false} SwitchStep<S>(fn: seq<CStmt>, m: Machine<S>, s: CStmt, i: nat, rest: seq<CStmt>, k: Kont, w: World<S>)
    requires s.CSwitch? && i == KeyIndex(ArmKeys(s.arms), m.select(s.sel, w.mem))
    ensures CRun(m, fn, Running([s] + rest, k, w), 1)
         == if i < |s.arms| then Running(s.arms[i].code + (Flatten(s.arms[i + 1..]) + s.default + rest), k, w)
            else Running(s.default + rest, k, w)
  {
    assert ([s] + rest)[1..] == rest;
    var code := (if i < |s.arms| then Flatten(s.arms[i..]) + s.default else s.default) + rest;
    if i < |s.arms| {
      assert s.arms[i..][1..] == s.arms[i + 1..];
      assert code == s.arms[i].code + (Flatten(s.arms[i + 1..]) + s.default + rest);
    }
    OneStep(fn, m, Running([s] + rest, k, w), Running(code, k, w));
  }

  // ----- whole runs -----

  /** The C code has got where the graph is. */
  ghost predicate Follows<S>(c: CState<S>, s: CfgState<S>) {
    match s
    case Returned(v, w) => c == Done(v, w)
    case At(_, w) => c.Running? && c.w == w
  }

  /** `c`, reached by the C code, is accounted for by `s`, reached by the graph: the same result,
      or performed operations that the graph performs too; and the C code is never stuck. */
  ghost predicate Accounted<S>(c: CState<S>, s: CfgState<S>) {
    match c
    case Done(v, w) => s == Returned(v, w)
    case Running(_, _, w) => w.trace <= s.w.trace
    case _ => false
  }

  lemma {:induction false} RunsCompose<S>(m: Machine<S>, fn: seq<CStmt>, g: Cfg, s: CState<S>, j1: nat, c1: CState<S>,
                                          j2: nat, c2: CState<S>, a: CfgState<S>, a1: CfgState<S>, n: nat, a2: CfgState<S>)
    requires c1 == CRun(m, fn, s, j1) && c2 == CRun(m, fn, c1, j2)
    requires a1 == CfgStep(m, g, a) && a2 == CfgRun(m, g, a1, n)
    ensures CRun(m, fn, s, j1 + j2) == c2 && CfgRun(m, g, a, n + 1) == a2
  {
    CRunAdd(m, fn, s, j1, j2);
  }

  lemma {:induction false} NoStep<S>(m: Machine<S>, fn: seq<CStmt>, g: Cfg, s: CState<S>, a: CfgState<S>) returns (n: nat)
    ensures CRun(m, fn, s, n) == s && CfgRun(m, g, a, n) == a && n == 0
  {
    n := 0;
  }

  /** Whatever the graph does in `n` steps, the C code does. */
  lemma {:induction false} RunFollows<S>(u: Unit, fn: seq<CStmt>, m: Machine<S>, b: Label,
                                         code: seq<CStmt>, k: Kont, w: World<S>, n: nat)
    returns (j: nat, c: CState<S>, a: CfgState<S>)
    requires WellFormed(u) && Linked(u, fn) && Site(u, b, code, k)
    ensures c == CRun(m, fn, Running(code, k, w), j) && a == CfgRun(m, u.cfg, At(b, w), n)
    ensures Follows(c, a)
    decreases n
  {
    var s := Running(code, k, w);
    if n == 0 {
      j := NoStep(m, fn, u.cfg, s, At(b, w));
      c, a := s, At(b, w);
    } else {
      var j1, c1 := BlockStep(u, fn, m, b, code, k, w);
      var a1 := CfgStep(m, u.cfg, At(b, w));
      if a1.Returned? {
        ReturnedStays(m, u.cfg, a1.value, a1.w, n - 1);
        j := NoStep(m, fn, u.cfg, c1, a1);
        c, a := c1, a1;
      } else {
        j, c, a := RunFollows(u, fn, m, a1.b, c1.code, c1.k, a1.w, n - 1);
      }
      RunsCompose(m, fn, u.cfg, s, j1, c1, j, c, At(b, w), a1, n - 1, a);
      j := j1 + j;
    }
  }

  lemma {:induction false} OneCfgStep<S>(m: Machine<S>, g: Cfg, s: CfgState<S>) returns (n: nat)
    ensures CfgRun(m, g, s, n) == CfgStep(m, g, s)
  {
    n := 1;
    assert CfgRun(m, g, CfgStep(m, g, s), n - 1) == CfgStep(m, g, s);
  }

  lemma {:induction false} ReturnedStays<S>(m: Machine<S>, g: Cfg, v: int, w: World<S>, n: nat)
    ensures CfgRun(m, g, Returned(v, w), n) == Returned(v, w)
    decreases n
  {
    if n > 0 {
      ReturnedStays(m, g, v, w, n - 1);
    }
  }

  lemma {:induction false} TraceGrows<S>(m: Machine<S>, fn: seq<CStmt>, s: CState<S>, j: nat)
    ensures s.w.trace <= CRun(m, fn, s, j).w.trace
    decreases j
  {
    if j > 0 {
      assert s.w.trace <= CStep(m, fn, s).w.trace;
      TraceGrows(m, fn, CStep(m, fn, s), j - 1);
    }
  }

  ghost predicate AtSite<S>(u: Unit, c: CState<S>, a: CfgState<S>)
    requires WellFormed(u)
  {
    Follows(c, a) && (a.At? ==> Site(u, a.b, c.code, c.k))
  }

  /** Graph steps until the C code has taken a step: only inlined blocks take none. */
  lemma {:induction false} Advance<S>(u: Unit, fn: seq<CStmt>, m: Machine<S>, b: Label,
                                      code: seq<CStmt>, k: Kont, w: World<S>)
    returns (n: nat, a: CfgState<S>, j: nat, c: CState<S>)
    requires WellFormed(u) && Linked(u, fn) && Site(u, b, code, k)
    ensures c == CRun(m, fn, Running(code, k, w), j) && a == CfgRun(m, u.cfg, At(b, w), n)
    ensures j > 0 && AtSite(u, c, a)
    decreases Measure(u, b)
  {
    j, c := BlockStep(u, fn, m, b, code, k, w);
    a := CfgStep(m, u.cfg, At(b, w));
    if j == 0 {
      var a1, c1 := a, c;
      n, a, j, c := Advance(u, fn, m, a1.b, c1.code, c1.k, a1.w);
      RunsCompose(m, fn, u.cfg, Running(code, k, w), 0, c1, j, c, At(b, w), a1, n, a);
      n := n + 1;
    } else {
      n := OneCfgStep(m, u.cfg, At(b, w));
    }
  }

  /** Whatever the C code does in `j` steps, the graph does. */
  lemma {:induction false} RunReflects<S>(u: Unit, fn: seq<CStmt>, m: Machine<S>, b: Label,
                                          code: seq<CStmt>, k: Kont, w: World<S>, j: nat)
    returns (n: nat, c: CState<S>, a: CfgState<S>)
    requires WellFormed(u) && Linked(u, fn) && Site(u, b, code, k)
    ensures c == CRun(m, fn, Running(code, k, w), j) && a == CfgRun(m, u.cfg, At(b, w), n)
    ensures Accounted(c, a)
    decreases j
  {
    var s := Running(code, k, w);
    var n1, a1, j1, c1 := Advance(u, fn, m, b, code, k, w);
    if j < j1 || a1.Returned? {
      n, a := n1, a1;
      c := WithinRun(m, fn, s, j, j1, c1, a1);
    } else {
      var n2;
      n2, c, a := RunReflects(u, fn, m, a1.b, c1.code, c1.k, a1.w, j - j1);
      CRunAdd(m, fn, s, j1, j - j1);
      CfgRunAdd(m, u.cfg, At(b, w), n1, n2);
      n := n1 + n2;
    }
  }

  lemma {:induction false} CfgRunAdd<S>(m: Machine<S>, g: Cfg, s: CfgState<S>, a: nat, b: nat)
    ensures CfgRun(m, g, s, a + b) == CfgRun(m, g, CfgRun(m, g, s, a), b)
    decreases a
  {
    if a > 0 {
      CfgRunAdd(m, g, CfgStep(m, g, s), a - 1, b);
    }
  }

  lemma {:induction false} WithinRun<S>(m: Machine<S>, fn: seq<CStmt>, s: CState<S>, j: nat, j1: nat,
                                        c1: CState<S>, a1: CfgState<S>)
    returns (c: CState<S>)
    requires c1 == CRun(m, fn, s, j1) && Follows(c1, a1)
    requires j < j1 || a1.Returned?
    ensures c == CRun(m, fn, s, j) && Accounted(c, a1)
  {
    c := CRun(m, fn, s, j);
    if j <= j1 {
      CRunAdd(m, fn, s, j, j1 - j);
      TraceGrows(m, fn, c, j1 - j);
      if !c.Running? {
        CRunStays(m, fn, c, j1 - j);
      }
    } else {
      CRunAdd(m, fn, s, j1, j - j1);
      CRunStays(m, fn, c1, j - j1);
    }
  }
}
