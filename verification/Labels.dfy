/** Which labels and gotos the emitted function has: every block that is not inlined is labelled
    exactly once, nothing else is, and every goto left has its label. */
module LabelSafety {
  import opened ControlFlow
  import opened CStatements
  import opened Structuring
  import opened Simulation

  // ----- what follows a label is the code of its block -----

  lemma {:induction false} FindPastOps(t: Label, ops: seq<nat>, rest: seq<CStmt>, k: Kont)
    ensures FindLabel(t, Ops(ops) + rest, k) == FindLabel(t, rest, k)
    decreases ops
  {
    if ops == [] {
      assert Ops(ops) + rest == rest;
    } else {
      assert (Ops(ops) + rest)[1..] == Ops(ops[1..]) + rest;
      FindPastOps(t, ops[1..], rest, k);
    }
  }

  /** The label was found at a site of its block, or else in what follows. */
  ghost predicate FoundOk(u: Unit, t: Label, found: Option<(seq<CStmt>, Kont)>, after: Option<(seq<CStmt>, Kont)>)
    requires WellFormed(u)
  {
    found.Some? ==> Site(u, t, found.value.0, found.value.1) || found == after
  }

  lemma {:induction false} FindInCode(u: Unit, t: Label, b: Label, rest: seq<CStmt>, k: Kont)
    requires WellFormed(u) && b in u.cfg.blocks
    ensures FoundOk(u, t, FindLabel(t, Code(u, b) + rest, k), FindLabel(t, rest, k))
    decreases Measure(u, b), 2
  {
    var body := u.cfg.blocks[b].body;
    var tail := TailCode(u, b);
    assert Code(u, b) + rest == Ops(body) + (tail + rest);
    FindPastOps(t, body, tail + rest, k);
    FindInTail(u, t, b, tail, rest, k);
  }

  lemma {:induction false} FindInGoto(u: Unit, t: Label, p: Label, b: Label, rest: seq<CStmt>, k: Kont)
    requires WellFormed(u) && p in u.cfg.blocks && b in Targets(u, p)
    ensures FoundOk(u, t, FindLabel(t, GotoCode(u, p, b) + rest, k), FindLabel(t, rest, k))
    decreases Measure(u, p), 0, 0
  {
    if Inlinable(u, b) {
      InliningLeadsAway(u, p, b);
      FindInCode(u, t, b, rest, k);
    } else {
      assert ([CGoto(b)] + rest)[1..] == rest;
    }
  }

  lemma {:induction false} FindInTail(u: Unit, t: Label, b: Label, tail: seq<CStmt>, rest: seq<CStmt>, k: Kont)
    requires WellFormed(u) && b in u.cfg.blocks && tail == TailCode(u, b)
    ensures FoundOk(u, t, FindLabel(t, tail + rest, k), FindLabel(t, rest, k))
    decreases Measure(u, b), 1
  {
    if IsLatch(u, b) {
      assert tail + rest == rest;
    } else if IsPreheader(u, b) {
      FindInLoop(u, t, b, LoopAfter(u, b), tail, rest, k);
    } else {
      match u.cfg.blocks[b].term
      case Ret(_) =>
        assert (tail + rest)[1..] == rest;
      case Br(s) =>
        FindInGoto(u, t, b, s, rest, k);
      case CondBr(_, s1, s2) =>
        assert (tail + rest)[1..] == rest;
        FindInGoto(u, t, b, s1, rest, k);
        FindInGoto(u, t, b, s2, rest, k);
      case Switch(_, cases, default) =>
        FindInSwitch(u, t, b, tail, rest, k);
    }
  }

  lemma {:induction false} FindInLoop(u: Unit, t: Label, b: Label, l: Loop, tail: seq<CStmt>, rest: seq<CStmt>, k: Kont)
    requires WellFormed(u) && b in u.cfg.blocks && tail == TailCode(u, b)
    requires !IsLatch(u, b) && IsPreheader(u, b) && l == LoopAfter(u, b)
    ensures FoundOk(u, t, FindLabel(t, tail + rest, k), FindLabel(t, rest, k))
    decreases Measure(u, b), 0, 1
  {
    var goto := GotoCode(u, b, Exit(u.cfg, l));
    var k1 := EnterLoop(u, l, goto, rest, k);
    FindInBody(u, t, l, k1);
    FindInGoto(u, t, b, Exit(u.cfg, l), rest, k);
    FindInDo(t, k1.body, k1.cond, k1.negate, goto, rest, k);
  }

  lemma {:induction false} FindInDo(t: Label, body: seq<CStmt>, cond: nat, negate: bool, goto: seq<CStmt>, rest: seq<CStmt>, k: Kont)
    ensures FindLabel(t, [CDo(body, cond, negate)] + goto + rest, k)
         == var r := FindLabel(t, body, KDo(body, cond, negate, goto + rest, k));
            if r.Some? then r else FindLabel(t, goto + rest, k)
  {
    assert ([CDo(body, cond, negate)] + goto + rest)[1..] == goto + rest;
  }

  lemma {:induction false} FindInBody(u: Unit, t: Label, l: Loop, k: Kont)
    requires WellFormed(u) && l in u.loops && AtLoopEnd(u, l, [], k)
    ensures FoundOk(u, t, FindLabel(t, BodyCode(u, l), k), None)
    decreases Measure(u, l.preheader), 0, 0
  {
    LoopAfterPreheader(u, l);
    HeaderInlinable(u, l);
    InliningLeadsAway(u, l.preheader, l.header);
    FindInCode(u, t, l.header, LatchCode(u.cfg, l), k);
    FindInLatchCode(u, t, l, k);
  }

  lemma {:induction false} FindInLatchCode(u: Unit, t: Label, l: Loop, k: Kont)
    requires WellFormed(u) && l in u.loops && AtLoopEnd(u, l, [], k)
    ensures FindLabel(t, LatchCode(u.cfg, l), k).Some? ==>
      Site(u, t, FindLabel(t, LatchCode(u.cfg, l), k).value.0, FindLabel(t, LatchCode(u.cfg, l), k).value.1)
  {
    if WrapsLatch(u.cfg, l) {
      var ops := u.cfg.blocks[l.latch].body;
      assert LatchCode(u.cfg, l)[1..] == Ops(ops);
      assert Ops(ops) == Ops(ops) + [];
      FindPastOps(t, ops, [], k);
      if t == l.latch {
        LatchSite(u, l, k);
      }
    }
  }

  lemma {:induction false} LatchSite(u: Unit, l: Loop, k: Kont)
    requires WellFormed(u) && l in u.loops && AtLoopEnd(u, l, [], k) && WrapsLatch(u.cfg, l)
    ensures Site(u, l.latch, Ops(u.cfg.blocks[l.latch].body), k)
  {
    var ops := Ops(u.cfg.blocks[l.latch].body);
    assert IsLatch(u, l.latch);
    assert Code(u, l.latch) == ops;
    assert ops[|ops|..] == [];
    forall n {:trigger FallsIntoEnd(u, n, l.latch)} | n in u.loops && FallsIntoEnd(u, n, l.latch)
      ensures AtLoopEnd(u, n, [], k)
    {
      if n.latch == l.latch {
        LatchDeterminesLoop(u, n, l);
      }
    }
  }

  lemma {:induction false} FindInSwitch(u: Unit, t: Label, b: Label, tail: seq<CStmt>, rest: seq<CStmt>, k: Kont)
    requires WellFormed(u) && b in u.cfg.blocks && tail == TailCode(u, b)
    requires !IsLatch(u, b) && !IsPreheader(u, b) && u.cfg.blocks[b].term.Switch?
    ensures FoundOk(u, t, FindLabel(t, tail + rest, k), FindLabel(t, rest, k))
    decreases Measure(u, b), 0, 2
  {
    assert (tail + rest)[1..] == rest;
    var sw := tail[0];
    assert Flatten(sw.arms) + sw.default + rest == Flatten(sw.arms) + (sw.default + rest);
    assert sw.arms[0..] == sw.arms;
    FindInArms(u, t, b, sw.arms, 0, sw.default + rest, k);
    var default := u.cfg.blocks[b].term.default;
    if Inlinable(u, default) {
      InliningLeadsAway(u, b, default);
      FindInCode(u, t, default, rest, k);
    } else {
      assert ([CGoto(default)] + rest)[1..] == rest;
    }
  }

  lemma {:induction false} FindInArms(u: Unit, t: Label, b: Label, arms: seq<Arm>, i: nat, rest: seq<CStmt>, k: Kont)
    requires WellFormed(u) && b in u.cfg.blocks
    requires !IsLatch(u, b) && !IsPreheader(u, b) && u.cfg.blocks[b].term.Switch?
    requires arms == TailCode(u, b)[0].arms && i <= |arms|
    ensures FoundOk(u, t, FindLabel(t, Flatten(arms[i..]) + rest, k), FindLabel(t, rest, k))
    decreases Measure(u, b), 0, 1, |arms| - i
  {
    if i == |arms| {
      assert Flatten(arms[i..]) + rest == rest;
    } else {
      var s := u.cfg.blocks[b].term.cases[i].target;
      assert CaseTargets(u.cfg.blocks[b].term.cases)[i] == s;
      assert arms[i..][1..] == arms[i + 1..];
      var more := Flatten(arms[i + 1..]) + rest;
      assert Flatten(arms[i..]) + rest == arms[i].code + more;
      FindInArms(u, t, b, arms, i + 1, rest, k);
      if Inlinable(u, s) {
        InliningLeadsAway(u, b, s);
        FindInCode(u, t, s, more, k);
      } else {
        assert ([CGoto(s)] + more)[1..] == more;
      }
    }
  }
}
