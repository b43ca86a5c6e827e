/** When the invariant on which expression inlining rests holds for every meaning of operations, memory
    and calls: exactly if no call is deferred past a read of memory or into a branch. */
module InliningExact {
  import opened ExpressionInlining
  import opened InliningPreserves

  /** Before instruction `i`, every expression kept for later has its instruction's value if it is evaluated
      now; memory is up to date, or the one call that waits brings it up to date. */
  ghost predicate UpToDate<M>(mc: Machine<M>, b: Code, i: nat, t: Trans, c: CState<M>, s: Ssa<M>)
    requires |b.outside| == |b.insts| && i <= |b.insts|
  {
    && |s.vals| == i
    && (match Waiting(b, i)
        case None => c.mem == s.mem
        case Some(w) => w in t.exprMap && Eval(mc, c.env, t.exprMap[w], c.mem) == (s.mem, s.vals[w]))
    && forall k: nat {:trigger Live(b, t, k, i)} :: Live(b, t, k, i) && Waiting(b, i) != Some(k) ==>
         Eval(mc, c.env, t.exprMap[k], c.mem) == (c.mem, s.vals[k])
  }

  ghost predicate UpToDateAt<M>(mc: Machine<M>, b: Code, m: M, i: nat)
    requires |b.outside| == |b.insts| && i <= |b.insts|
  {
    var t := Translated(b, i);
    UpToDate(mc, b, i, t, ExecAll(mc, t.stmts, CState(map[], m, [])), SsaRun(mc, b, m, i))
  }

  lemma {:induction false} AgreesUpToDate<M(!new)>(mc: Machine<M>, b: Code, m: M, i: nat)
    requires WellFormed(b) && i <= |b.insts| && KeepTheirPlace(b, i)
    ensures UpToDateAt(mc, b, m, i)
  {
    AgreesThroughout(mc, b, m, i);
  }

  /** The operand is a constant, a parameter, or an operation's, a load's or a call's result, perhaps frozen:
      it is fixed, or nothing is known of it. */
  predicate Open(b: Code, o: Operand, i: nat)
    requires i <= |b.insts|
    decreases i
  {
    match o
    case Const(_) => false
    case Param(_) => true
    case Ref(k) =>
      k < i && match b.insts[k] {
        case Op(_, _) => true
        case Load(_) => true
        case Call(_, _) => true
        case Freeze(arg) => Open(b, arg, k)
        case _ => false
      }
  }

  /** Conditions of selects are constants, or can go either way. */
  predicate OpenConditions(b: Code) {
    forall i :: 0 <= i < |b.insts| && b.insts[i].Select? ==> b.insts[i].cond.Const? || Open(b, b.insts[i].cond, i)
  }

  // ----- a machine that tells the difference -----

  /** Memory counts the calls made; a load reads the count, or gives `z` like everything else. */
  function Witness(z: int, counts: bool): Machine<int> {
    Machine((op, args) => z, (m, ptr) => if counts then m else z, (m, ptr, v) => m, (fn, m, args) => (m + 1, z), p => z)
  }

  function CAt(mc: Machine<int>, b: Code, i: nat): CState<int>
    requires |b.outside| == |b.insts| && i <= |b.insts|
  {
    ExecAll(mc, Translated(b, i).stmts, CState(map[], 0, []))
  }

  ghost predicate Behind(z: int, counts: bool, b: Code, i: nat)
    requires |b.outside| == |b.insts| && i <= |b.insts|
  {
    Waiting(b, i).Some? ==> CAt(Witness(z, counts), b, i).mem < SsaRun(Witness(z, counts), b, 0, i).mem
  }

  /** Under this machine, memory is behind while a call waits. */
  lemma {:induction false} MemoryBehind(z: int, counts: bool, b: Code, i: nat)
    requires WellFormed(b) && i <= |b.insts| && KeepTheirPlace(b, i)
    ensures Behind(z, counts, b, i)
  {
    if i > 0 && Waiting(b, i).Some? {
      MemoryBehind(z, counts, b, i - 1);
      AgreesThroughout(Witness(z, counts), b, 0, i - 1);
      if Waiting(b, i) == Some(i - 1) {
        NowBehind(z, counts, b, i - 1);
      } else {
        AlwaysBound(b, i - 1);
        StillBehind(z, counts, b, i - 1);
      }
    }
  }

  /** An instruction kept for later that is a call, or takes up a waiting one. */
  lemma {:induction false} NowBehind(z: int, counts: bool, b: Code, i: nat)
    requires WellFormed(b) && i < |b.insts| && Waiting(b, i + 1) == Some(i)
    requires Behind(z, counts, b, i) && AgreesAt(Witness(z, counts), b, 0, i)
    ensures Behind(z, counts, b, i + 1)
  {
    KeptForLater(b, i);
    var mc := Witness(z, counts);
    assert SsaRun(mc, b, 0, i + 1).mem == SsaRun(mc, b, 0, i).mem + if b.insts[i].Call? then 1 else 0;
  }

  /** Where an instruction is kept for later, there is no statement for it. */
  lemma {:induction false} KeptForLater(b: Code, i: nat)
    requires |b.outside| == |b.insts| && i < |b.insts| && CanInline(b, i) && !b.insts[i].Store? && !b.insts[i].Term?
    ensures Translated(b, i + 1).stmts == Translated(b, i).stmts
    ensures Translated(b, i + 1).exprMap == Translated(b, i).exprMap[i := ExprOf(Translated(b, i).exprMap, b.insts[i])]
  {
  }

  /** An instruction that leaves a call waiting is pure. */
  lemma {:induction false} StillBehind(z: int, counts: bool, b: Code, i: nat)
    requires WellFormed(b) && i < |b.insts| && KeepTheirPlace(b, i + 1)
    requires Waiting(b, i).Some? && Waiting(b, i + 1) == Waiting(b, i)
    requires Agrees(Witness(z, counts), b, i, Translated(b, i), CAt(Witness(z, counts), b, i), SsaRun(Witness(z, counts), b, 0, i))
    requires Bound(b, Translated(b, i), i)
    ensures CAt(Witness(z, counts), b, i + 1).mem == CAt(Witness(z, counts), b, i).mem
    ensures SsaRun(Witness(z, counts), b, 0, i + 1).mem == SsaRun(Witness(z, counts), b, 0, i).mem
  {
    var mc := Witness(z, counts);
    var t, c, s := Translated(b, i), CAt(mc, b, i), SsaRun(mc, b, 0, i);
    var w := Waiting(b, i).value;
    assert !Takes(b, i);
    WaitingStops(b, t, i, w);
    InstructionEffect(mc, b, i, t, c, s);
    var e := ExprOf(t.exprMap, b.insts[i]);
    MemoryAfter(mc, b, i);
  }

  /** What the instruction's own statement does to memory. */
  lemma {:induction false} MemoryAfter(mc: Machine<int>, b: Code, i: nat)
    requires WellFormed(b) && i < |b.insts| && !b.insts[i].Store? && !b.insts[i].Term? && !b.insts[i].Call?
    ensures var t, c := Translated(b, i), CAt(mc, b, i);
            var t', c' := Translated(b, i + 1), CAt(mc, b, i + 1);
            var e := ExprOf(t.exprMap, b.insts[i]);
            || (c' == c && t'.exprMap == t.exprMap[i := e] && ((e.ELit? && e.c >= 0) || CanInline(b, i)))
            || (c' == Exec(mc, Assign(t.varCount, e), c) && t'.exprMap == t.exprMap[i := EVar(t.varCount)] && !CanInline(b, i))
  {
    var t, c := Translated(b, i), CAt(mc, b, i);
    var e := ExprOf(t.exprMap, b.insts[i]);
    if !((e.ELit? && e.c >= 0) || CanInline(b, i)) {
      ExecAppend(mc, t.stmts, [Declare(t.varCount), Assign(t.varCount, e)], CState(map[], 0, []));
      ExecDeclared(mc, t.varCount, e, c);
    }
  }

  // ----- a violation shows -----

  /** A load that overtakes a waiting call reads the memory before the call. */
  lemma {:induction false} LoadReadsEarly(b: Code, i: nat)
    requires WellFormed(b) && i < |b.insts| && KeepTheirPlace(b, i)
    requires Waiting(b, i).Some? && b.insts[i].Load? && b.insts[i].ptr != Ref(Waiting(b, i).value)
    ensures !UpToDateAt(Witness(0, true), b, 0, i + 1)
  {
    var mc := Witness(0, true);
    var t, c, s := Translated(b, i), CAt(mc, b, i), SsaRun(mc, b, 0, i);
    var w, p := Waiting(b, i).value, b.insts[i].ptr;
    MemoryBehind(0, true, b, i);
    AgreesThroughout(mc, b, 0, i);
    AlwaysBound(b, i);
    OthersAreFree(mc, b, i, t, c, s);
    assert p in Operands(b.insts[i]);
    assert Free(mc, c.env, OperandExpr(t.exprMap, p), Val(mc, s.vals, p));
    var e := ExprOf(t.exprMap, b.insts[i]);
    assert Eval(mc, c.env, e, c.mem) == (c.mem, c.mem);
    assert Step(mc, b.insts[i], s).vals[i] == s.mem;
    MemoryAfter(mc, b, i);
    var t', c' := Translated(b, i + 1), CAt(mc, b, i + 1);
    assert Live(b, t', i, i + 1);
    assert Waiting(b, i + 1) != Some(i) by {
      CountPositive(Operands(b.insts[i]), w);
    }
    assert Eval(mc, c'.env, t'.exprMap[i], c'.mem).1 == c.mem;
  }

  /** Later instructions do not change the value of an earlier one. */
  lemma {:induction false} ValueStays(mc: Machine<int>, b: Code, i: nat, k: nat)
    requires k < i <= |b.insts|
    ensures SsaRun(mc, b, 0, i).vals[k] == SsaRun(mc, b, 0, k + 1).vals[k]
    decreases i
  {
    if k < i - 1 {
      ValueStays(mc, b, i - 1, k);
    }
  }

  /** Under the machine where everything is `z`, open operands are. */
  lemma {:induction false} OpenValue(z: int, b: Code, o: Operand, i: nat, j: nat)
    requires i <= j <= |b.insts| && Open(b, o, i)
    ensures Val(Witness(z, false), SsaRun(Witness(z, false), b, 0, j).vals, o) == z
    decreases i
  {
    if o.Ref? {
      ValueStays(Witness(z, false), b, j, o.def);
      if b.insts[o.def].Freeze? {
        OpenValue(z, b, b.insts[o.def].arg, o.def, o.def);
      }
    }
  }

  lemma {:induction false} SelectOperands(s: Inst, w: nat)
    requires s.Select? && Count(Operands(s), w) <= 1 && (s.ifTrue == Ref(w) || s.ifFalse == Ref(w))
    ensures s.cond != Ref(w) && (s.ifTrue == Ref(w)) != (s.ifFalse == Ref(w)) && Count(Operands(s), w) == 1
    ensures s.cond in Operands(s) && s.ifTrue in Operands(s) && s.ifFalse in Operands(s)
  {
    var args := Operands(s);
    assert args[0] == s.cond && args[1] == s.ifTrue && args[2] == s.ifFalse;
    assert args[1..] == [s.ifTrue, s.ifFalse] && [s.ifTrue, s.ifFalse][1..] == [s.ifFalse] && [s.ifFalse][1..] == [];
    assert Count([s.ifFalse], w) == (if s.ifFalse == Ref(w) then 1 else 0) + Count([], w);
    assert Count([s.ifTrue, s.ifFalse], w) == (if s.ifTrue == Ref(w) then 1 else 0) + Count([s.ifFalse], w);
    assert Count(args, w) == (if s.cond == Ref(w) then 1 else 0) + Count([s.ifTrue, s.ifFalse], w);
  }

  ghost predicate SkipsCall(b: Code, i: nat, w: nat, z: int)
    requires i < |b.insts|
  {
    && b.insts[i].Select? && !SurelyTaken(b.insts[i], Ref(w))
    && z == if b.insts[i].ifTrue == Ref(w) then 0 else 1
  }

  /** The condition can be false where the call is in the first branch, and the call is not made. */
  lemma {:induction false} OtherBranch(b: Code, i: nat, w: nat, z: int, t: Trans, c: CState<int>)
    requires WellFormed(b) && OpenConditions(b) && i < |b.insts| && SkipsCall(b, i, w, z) && Count(Operands(b.insts[i]), w) <= 1
    requires var mc := Witness(z, false);
             forall o :: o in Operands(b.insts[i]) && o != Ref(w) ==>
               Free(mc, c.env, OperandExpr(t.exprMap, o), Val(mc, SsaRun(mc, b, 0, i).vals, o))
    ensures Eval(Witness(z, false), c.env, ExprOf(t.exprMap, b.insts[i]), c.mem).0 == c.mem
    ensures Count(Operands(b.insts[i]), w) == 1
  {
    var mc := Witness(z, false);
    var inst, vals := b.insts[i], SsaRun(mc, b, 0, i).vals;
    SelectOperands(inst, w);
    if !inst.cond.Const? {
      OpenValue(z, b, inst.cond, i, i);
    }
    var other := if inst.ifTrue == Ref(w) then inst.ifFalse else inst.ifTrue;
    assert (Val(mc, vals, inst.cond) != 0) == (inst.ifTrue != Ref(w));
    assert Free(mc, c.env, OperandExpr(t.exprMap, inst.cond), Val(mc, vals, inst.cond));
    assert Free(mc, c.env, OperandExpr(t.exprMap, other), Val(mc, vals, other));
  }

  /** A select whose other branch is taken does not make the call. */
  lemma {:induction false} SelectSkipsCall(b: Code, i: nat, z: int)
    requires WellFormed(b) && OpenConditions(b) && i < |b.insts| && KeepTheirPlace(b, i)
    requires Waiting(b, i).Some? && SkipsCall(b, i, Waiting(b, i).value, z)
    ensures !UpToDateAt(Witness(z, false), b, 0, i + 1)
  {
    var mc := Witness(z, false);
    var t, c, s := Translated(b, i), CAt(mc, b, i), SsaRun(mc, b, 0, i);
    var w := Waiting(b, i).value;
    MemoryBehind(z, false, b, i);
    AgreesThroughout(mc, b, 0, i);
    AlwaysBound(b, i);
    assert Uses(b, w) == 1;
    UsedOnceHere(b, w, i);
    OthersAreFree(mc, b, i, t, c, s);
    OtherBranch(b, i, w, z, t, c);
    assert SsaRun(mc, b, 0, i + 1).mem == s.mem;
    MemoryAfter(mc, b, i);
  }

  /** The main result: for every block whose selects have a constant or an open condition, the invariant holds at every point,
      for every machine, exactly if calls keep their place. */
  lemma {:induction false} PlaceExact(b: Code)
    requires WellFormed(b) && OpenConditions(b)
    ensures (forall mc: Machine<int>, m: int, i: nat {:trigger UpToDateAt(mc, b, m, i)} :: i <= |b.insts| ==> UpToDateAt(mc, b, m, i))
            <==> CallsKeepTheirPlace(b)
  {
    if CallsKeepTheirPlace(b) {
      forall mc: Machine<int>, m: int, i: nat | i <= |b.insts|
        ensures UpToDateAt(mc, b, m, i)
      {
        AgreesUpToDate(mc, b, m, i);
      }
    } else {
      var i := FirstViolation(b, |b.insts|);
      var w := Ref(Waiting(b, i).value);
      if b.insts[i].Load? {
        LoadReadsEarly(b, i);
      } else {
        SelectSkipsCall(b, i, if b.insts[i].ifTrue == w then 0 else 1);
      }
    }
  }

  lemma {:induction false} FirstViolation(b: Code, n: nat) returns (i: nat)
    requires |b.outside| == |b.insts| && n <= |b.insts| && !KeepTheirPlace(b, n)
    ensures i < n && KeepTheirPlace(b, i) && !KeepsPlace(b, i)
  {
    if KeepTheirPlace(b, n - 1) {
      i := n - 1;
    } else {
      i := FirstViolation(b, n - 1);
    }
  }
}
