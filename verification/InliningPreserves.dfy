/** The translated block computes what the instructions compute: the same final memory, the same
    value in every variable, and the same operands for the terminator, whatever the operations,
    the memory and the called functions are. */
module InliningPreserves {
  import opened ExpressionInlining

  // ----- calls whose evaluation is still to come -----

  /** The instruction, if any, whose expression holds a call that has not been evaluated yet when
      control is before instruction `i`. */
  function Waiting(b: Code, i: nat): (w: Option)
    requires |b.outside| == |b.insts| && i <= |b.insts|
    ensures w.Some? ==> w.value < i
  {
    if i == 0 then None
    else
      var s := b.insts[i - 1];
      var w := Waiting(b, i - 1);
      var bound := if !s.Store? && !s.Term? && CanInline(b, i - 1) then Some(i - 1) else None;
      if s.Call? then bound
      else if w.Some? && Count(Operands(s), w.value) > 0 then bound
      else w
  }

  datatype Option = None | Some(value: nat)

  /** While a call waits, memory is not read except through the call's own result, and the call
      does not stand in a branch of a conditional expression that may not be taken. */
  predicate CallsKeepTheirPlace(b: Code)
    requires |b.outside| == |b.insts|
  {
    KeepTheirPlace(b, |b.insts|)
  }

  predicate KeepTheirPlace(b: Code, n: nat)
    requires |b.outside| == |b.insts| && n <= |b.insts|
  {
    forall i :: 0 <= i < n ==> KeepsPlace(b, i)
  }

  /** An operand in a branch is evaluated if a constant condition says so. */
  predicate SurelyTaken(s: Inst, o: Operand)
    requires s.Select?
  {
    && (s.ifTrue == o ==> s.cond.Const? && s.cond.c != 0)
    && (s.ifFalse == o ==> s.cond == Const(0))
  }

  predicate KeepsPlace(b: Code, i: nat)
    requires |b.outside| == |b.insts| && i < |b.insts|
  {
    Waiting(b, i).Some? ==>
      var w := Ref(Waiting(b, i).value);
      && (b.insts[i].Load? ==> b.insts[i].ptr == w)
      && (b.insts[i].Select? ==> SurelyTaken(b.insts[i], w))
  }

  // ----- counting uses -----

  lemma {:induction false} UsesSuffix(b: Code, k: nat, i: nat, j: nat)
    requires i <= j <= |b.insts|
    ensures UsesFrom(b, k, j) <= UsesFrom(b, k, i)
    decreases j - i
  {
    if i < j {
      UsesSuffix(b, k, i + 1, j);
    }
  }

  lemma {:induction false} OneUser(b: Code, k: nat, i: nat, j: nat)
    requires |b.outside| == |b.insts| && k < |b.insts| && Uses(b, k) == 1 && i < j < |b.insts|
    ensures Count(Operands(b.insts[i]), k) + Count(Operands(b.insts[j]), k) <= 1
  {
    UsesSuffix(b, k, 0, i);
    UsesSuffix(b, k, i + 1, j);
  }

  lemma {:induction false} UsedOnceHere(b: Code, k: nat, i: nat)
    requires |b.outside| == |b.insts| && k < |b.insts| && Uses(b, k) == 1 && i < |b.insts|
    ensures Count(Operands(b.insts[i]), k) <= 1
  {
    UsesSuffix(b, k, 0, i);
  }

  lemma {:induction false} CountPositive(args: seq<Operand>, k: nat)
    ensures Count(args, k) > 0 <==> Ref(k) in args
    decreases args
  {
    if args != [] {
      CountPositive(args[1..], k);
    }
  }

  /** No instruction between `k` and `i` uses `k`. */
  ghost predicate Unused(b: Code, k: nat, i: nat)
    requires i <= |b.insts|
  {
    forall j :: k < j < i ==> Count(Operands(b.insts[j]), k) == 0
  }

  lemma {:induction false} ScanReaches(b: Code, k: nat, cur: nat, i: nat)
    requires k < cur <= i <= |b.insts| && Scan(b, k, cur) && Unused(b, k, i)
    ensures Scan(b, k, i)
    decreases i - cur
  {
    if cur < i {
      ScanReaches(b, k, cur + 1, i);
    }
  }

  // ----- expressions and memory -----

  /** Evaluating `e` leaves any memory as it is and always gives `v`. */
  ghost predicate Free<M(!new)>(mc: Machine<M>, env: Env, e: Expr, v: int) {
    forall m: M :: Eval(mc, env, e, m) == (m, v)
  }

  predicate Stable(e: Expr) {
    e.EVar? || e.ELit?
  }

  lemma {:induction false} StableIsFree<M(!new)>(mc: Machine<M>, env: Env, e: Expr, m: M, v: int)
    requires Stable(e) && Eval(mc, env, e, m).1 == v
    ensures Free(mc, env, e, v)
  {
  }

  /** Only variables below `n` occur. */
  predicate VarsBelow(e: Expr, n: nat)
    decreases e, 0
  {
    match e
    case EVar(v) => v < n
    case EOp(_, args) => AllVarsBelow(args, n)
    case EDeref(ptr) => VarsBelow(ptr, n)
    case ECall(_, args) => AllVarsBelow(args, n)
    case ESelect(c, x, y) => VarsBelow(c, n) && VarsBelow(x, n) && VarsBelow(y, n)
    case _ => true
  }

  predicate AllVarsBelow(es: seq<Expr>, n: nat)
    decreases es, 1
  {
    es == [] || (VarsBelow(es[0], n) && AllVarsBelow(es[1..], n))
  }

  lemma {:induction false} FreshVar<M>(mc: Machine<M>, env: Env, e: Expr, n: nat, x: int, m: M)
    requires VarsBelow(e, n)
    ensures Eval(mc, env[n := x], e, m) == Eval(mc, env, e, m)
    decreases e, 0
  {
    match e
    case EOp(_, args) => FreshVarAll(mc, env, args, n, x, m);
    case EDeref(ptr) => FreshVar(mc, env, ptr, n, x, m);
    case ECall(_, args) => FreshVarAll(mc, env, args, n, x, m);
    case ESelect(c, y, z) =>
      FreshVar(mc, env, c, n, x, m);
      var r := Eval(mc, env, c, m);
      FreshVar(mc, env, y, n, x, r.0);
      FreshVar(mc, env, z, n, x, r.0);
    case _ =>
  }

  lemma {:induction false} FreshVarAll<M>(mc: Machine<M>, env: Env, es: seq<Expr>, n: nat, x: int, m: M)
    requires AllVarsBelow(es, n)
    ensures EvalAll(mc, env[n := x], es, m) == EvalAll(mc, env, es, m)
    decreases es, 1
  {
    if es != [] {
      FreshVar(mc, env, es[0], n, x, m);
      FreshVarAll(mc, env, es[1..], n, x, Eval(mc, env, es[0], m).0);
    }
  }

  lemma {:induction false} VarsBelowMore(e: Expr, n: nat)
    requires VarsBelow(e, n)
    ensures VarsBelow(e, n + 1)
    decreases e, 0
  {
    match e
    case EOp(_, args) => AllVarsBelowMore(args, n);
    case EDeref(ptr) => VarsBelowMore(ptr, n);
    case ECall(_, args) => AllVarsBelowMore(args, n);
    case ESelect(c, x, y) =>
      VarsBelowMore(c, n);
      VarsBelowMore(x, n);
      VarsBelowMore(y, n);
    case _ =>
  }

  lemma {:induction false} AllVarsBelowMore(es: seq<Expr>, n: nat)
    requires AllVarsBelow(es, n)
    ensures AllVarsBelow(es, n + 1)
    decreases es, 1
  {
    if es != [] {
      VarsBelowMore(es[0], n);
      AllVarsBelowMore(es[1..], n);
    }
  }

  // ----- operands -----

  /** The operand's expression gives its value without touching memory `m`. */
  ghost predicate Quiet<M>(mc: Machine<M>, env: Env, map_: map<nat, Expr>, vals: seq<int>, o: Operand, m: M) {
    Eval(mc, env, OperandExpr(map_, o), m) == (m, Val(mc, vals, o))
  }

  lemma {:induction false} QuietOperands<M>(mc: Machine<M>, env: Env, map_: map<nat, Expr>, vals: seq<int>, args: seq<Operand>, m: M)
    requires forall o :: o in args ==> Quiet(mc, env, map_, vals, o, m)
    ensures EvalAll(mc, env, OperandExprs(map_, args), m) == (m, Vals(mc, vals, args))
    decreases args
  {
    if args != [] {
      assert Quiet(mc, env, map_, vals, args[0], m);
      QuietOperands(mc, env, map_, vals, args[1..], m);
    }
  }

  /** One operand brings memory from `m0` to `m1`; the others are free of memory. */
  lemma {:induction false} OneBusyOperand<M(!new)>(mc: Machine<M>, env: Env, map_: map<nat, Expr>, vals: seq<int>,
                                                   args: seq<Operand>, w: nat, m0: M, m1: M)
    requires Count(args, w) == 1
    requires Eval(mc, env, OperandExpr(map_, Ref(w)), m0) == (m1, Val(mc, vals, Ref(w)))
    requires forall o :: o in args && o != Ref(w) ==> Free(mc, env, OperandExpr(map_, o), Val(mc, vals, o))
    ensures EvalAll(mc, env, OperandExprs(map_, args), m0) == (m1, Vals(mc, vals, args))
    decreases args
  {
    if args[0] == Ref(w) {
      CountPositive(args[1..], w);
      QuietOperands(mc, env, map_, vals, args[1..], m1);
    } else {
      assert Free(mc, env, OperandExpr(map_, args[0]), Val(mc, vals, args[0]));
      OneBusyOperand(mc, env, map_, vals, args[1..], w, m0, m1);
    }
  }

  // ----- the invariant -----

  /** Instruction `k` may still be used at or after `i`: it is in a variable, or its one use is ahead. */
  ghost predicate Live(b: Code, t: Trans, k: nat, i: nat)
    requires |b.outside| == |b.insts| && i <= |b.insts|
  {
    k < i && k in t.exprMap && (Stable(t.exprMap[k]) || (CanInline(b, k) && Unused(b, k, i)))
  }

  ghost predicate Bound(b: Code, t: Trans, i: nat)
    requires |b.outside| == |b.insts| && i <= |b.insts|
  {
    && (forall k {:trigger k in t.exprMap} :: k in t.exprMap ==> k < i && VarsBelow(t.exprMap[k], t.varCount))
    && (forall k {:trigger k in t.exprMap} :: 0 <= k < i && !b.insts[k].Store? && !b.insts[k].Term? ==>
         k in t.exprMap && (Stable(t.exprMap[k]) || CanInline(b, k) || Uses(b, k) == 0))
  }

  /** Before instruction `i`: every live expression still evaluates to its instruction's value. A
      waiting call brings the C memory to where the instructions' memory already is; then all other
      live expressions do not depend on memory. */
  ghost predicate Agrees<M(!new)>(mc: Machine<M>, b: Code, i: nat, t: Trans, c: CState<M>, s: Ssa<M>)
    requires |b.outside| == |b.insts| && i <= |b.insts|
  {
    && |s.vals| == i && c.out == s.out
    && match Waiting(b, i)
       case None =>
         c.mem == s.mem &&
         forall k: nat {:trigger Live(b, t, k, i)} :: Live(b, t, k, i) ==> Eval(mc, c.env, t.exprMap[k], c.mem) == (c.mem, s.vals[k])
       case Some(w) =>
         && Live(b, t, w, i) && !Stable(t.exprMap[w])
         && Eval(mc, c.env, t.exprMap[w], c.mem) == (s.mem, s.vals[w])
         && forall k: nat {:trigger Live(b, t, k, i)} :: Live(b, t, k, i) && k != w ==> Free(mc, c.env, t.exprMap[k], s.vals[k])
  }

  /** What an instruction refers to is live. */
  lemma {:induction false} OperandLive(b: Code, t: Trans, i: nat, k: nat)
    requires WellFormed(b) && i < |b.insts| && Bound(b, t, i) && Ref(k) in Operands(b.insts[i])
    ensures Live(b, t, k, i)
  {
    CountPositive(Operands(b.insts[i]), k);
    assert Ref(k).def < i;
    assert k in t.exprMap;
    if !Stable(t.exprMap[k]) {
      UsesSuffix(b, k, 0, i);
      forall j | k < j < i
        ensures Count(Operands(b.insts[j]), k) == 0
      {
        OneUser(b, k, j, i);
      }
    }
  }

  /** What is live and not used now stays live only if nothing that is not read-only intervenes. */
  lemma {:induction false} LiveAfter(b: Code, t: Trans, i: nat, k: nat)
    requires WellFormed(b) && i < |b.insts| && k < i && Live(b, t, k, i + 1)
    ensures Live(b, t, k, i)
    ensures Stable(t.exprMap[k]) || (ReadOnly(b.insts[i]) && Count(Operands(b.insts[i]), k) == 0)
  {
    if !Stable(t.exprMap[k]) {
      ScanReaches(b, k, k + 1, i);
    }
  }

  lemma {:induction false} WaitingStops(b: Code, t: Trans, i: nat, w: nat)
    requires WellFormed(b) && i < |b.insts| && Live(b, t, w, i) && !Stable(t.exprMap[w])
    requires Count(Operands(b.insts[i]), w) == 0
    ensures ReadOnly(b.insts[i]) && Live(b, t, w, i + 1)
  {
    ScanReaches(b, w, w + 1, i);
  }

  // ----- the translation binds what it should -----

  lemma {:induction false} OperandsBelow(exprMap: map<nat, Expr>, args: seq<Operand>, n: nat)
    requires forall k :: k in exprMap ==> VarsBelow(exprMap[k], n)
    ensures AllVarsBelow(OperandExprs(exprMap, args), n)
    decreases args
  {
    if args != [] {
      OperandsBelow(exprMap, args[1..], n);
    }
  }

  lemma {:induction false} ExprBelow(exprMap: map<nat, Expr>, s: Inst, n: nat)
    requires !s.Store? && !s.Term?
    requires forall k :: k in exprMap ==> VarsBelow(exprMap[k], n)
    ensures VarsBelow(ExprOf(exprMap, s), n)
  {
    match s
    case Op(_, args) => OperandsBelow(exprMap, args, n);
    case Call(_, args) => OperandsBelow(exprMap, args, n);
    case _ =>
  }

  lemma {:induction false} BoundMore(b: Code, t: Trans, t': Trans, i: nat, e: Expr)
    requires WellFormed(b) && i < |b.insts| && Bound(b, t, i)
    requires t'.exprMap == t.exprMap[i := e] && (t'.varCount == t.varCount || t'.varCount == t.varCount + 1)
    requires VarsBelow(e, t'.varCount) && (Stable(e) || CanInline(b, i) || Uses(b, i) == 0)
    ensures Bound(b, t', i + 1)
  {
    forall k | 0 <= k < i && !b.insts[k].Store? && !b.insts[k].Term?
      ensures k in t'.exprMap && (Stable(t'.exprMap[k]) || CanInline(b, k) || Uses(b, k) == 0)
    {
      assert k in t.exprMap;
    }
    forall k | k in t.exprMap
      ensures VarsBelow(t.exprMap[k], t'.varCount)
    {
      VarsBelowMore(t.exprMap[k], t.varCount);
    }
  }

  lemma {:induction false} BoundStep(b: Code, t: Trans, i: nat)
    requires WellFormed(b) && i < |b.insts| && Bound(b, t, i)
    ensures Bound(b, TransStep(b, i, t), i + 1)
  {
    var s := b.insts[i];
    if !s.Store? && !s.Term? {
      var e := ExprOf(t.exprMap, s);
      ExprBelow(t.exprMap, s, t.varCount);
      var t' := TransStep(b, i, t);
      BoundMore(b, t, t', i, t'.exprMap[i]);
    } else {
      SameMap(b, t, TransStep(b, i, t), i);
    }
  }

  lemma {:induction false} SameMap(b: Code, t: Trans, t': Trans, i: nat)
    requires WellFormed(b) && i < |b.insts| && Bound(b, t, i) && (b.insts[i].Store? || b.insts[i].Term?)
    requires t'.exprMap == t.exprMap && t'.varCount == t.varCount
    ensures Bound(b, t', i + 1)
  {
    forall k | 0 <= k < i + 1 && !b.insts[k].Store? && !b.insts[k].Term?
      ensures k in t'.exprMap && (Stable(t'.exprMap[k]) || CanInline(b, k) || Uses(b, k) == 0)
    {
      assert k in t.exprMap;
    }
  }

  lemma {:induction false} AlwaysBound(b: Code, i: nat)
    requires WellFormed(b) && i <= |b.insts|
    ensures Bound(b, Translated(b, i), i)
  {
    if i > 0 {
      AlwaysBound(b, i - 1);
      BoundStep(b, Translated(b, i - 1), i - 1);
    }
  }

  // ----- one instruction's expression -----

  lemma {:induction false} EffectWhenNothingWaits<M(!new)>(mc: Machine<M>, b: Code, i: nat, t: Trans, c: CState<M>, s: Ssa<M>)
    requires WellFormed(b) && i < |b.insts| && Bound(b, t, i) && Agrees(mc, b, i, t, c, s)
    requires Waiting(b, i).None?
    ensures forall o :: o in Operands(b.insts[i]) ==> Quiet(mc, c.env, t.exprMap, s.vals, o, c.mem)
  {
    forall o | o in Operands(b.insts[i])
      ensures Quiet(mc, c.env, t.exprMap, s.vals, o, c.mem)
    {
      if o.Ref? {
        OperandLive(b, t, i, o.def);
      }
    }
  }

  lemma {:induction false} OthersAreFree<M(!new)>(mc: Machine<M>, b: Code, i: nat, t: Trans, c: CState<M>, s: Ssa<M>)
    requires WellFormed(b) && i < |b.insts| && Bound(b, t, i) && Agrees(mc, b, i, t, c, s)
    requires Waiting(b, i).Some?
    ensures forall o :: o in Operands(b.insts[i]) && o != Ref(Waiting(b, i).value) ==>
              Free(mc, c.env, OperandExpr(t.exprMap, o), Val(mc, s.vals, o))
  {
    forall o | o in Operands(b.insts[i]) && o != Ref(Waiting(b, i).value)
      ensures Free(mc, c.env, OperandExpr(t.exprMap, o), Val(mc, s.vals, o))
    {
      if o.Ref? {
        OperandLive(b, t, i, o.def);
      }
    }
  }

  lemma {:induction false} ExprQuiet<M>(mc: Machine<M>, env: Env, map_: map<nat, Expr>, s: Inst, t: Ssa<M>)
    requires !s.Store? && !s.Term?
    requires forall o :: o in Operands(s) ==> Quiet(mc, env, map_, t.vals, o, t.mem)
    ensures Eval(mc, env, ExprOf(map_, s), t.mem) == (Step(mc, s, t).mem, Step(mc, s, t).vals[|t.vals|])
  {
    match s
    case Op(_, args) => QuietOperands(mc, env, map_, t.vals, args, t.mem);
    case Call(_, args) => QuietOperands(mc, env, map_, t.vals, args, t.mem);
    case Load(ptr) => assert Quiet(mc, env, map_, t.vals, ptr, t.mem);
    case Freeze(arg) => assert Quiet(mc, env, map_, t.vals, arg, t.mem);
    case Select(cond, x, y) =>
      assert Quiet(mc, env, map_, t.vals, cond, t.mem);
      assert Quiet(mc, env, map_, t.vals, x, t.mem);
      assert Quiet(mc, env, map_, t.vals, y, t.mem);
  }

  lemma {:induction false} ExprBusy<M(!new)>(mc: Machine<M>, env: Env, map_: map<nat, Expr>, s: Inst, w: nat, m0: M, t: Ssa<M>)
    requires !s.Store? && !s.Term? && Count(Operands(s), w) == 1
    requires Eval(mc, env, OperandExpr(map_, Ref(w)), m0) == (t.mem, Val(mc, t.vals, Ref(w)))
    requires forall o :: o in Operands(s) && o != Ref(w) ==> Free(mc, env, OperandExpr(map_, o), Val(mc, t.vals, o))
    requires s.Select? ==> SurelyTaken(s, Ref(w))
    ensures Eval(mc, env, ExprOf(map_, s), m0) == (Step(mc, s, t).mem, Step(mc, s, t).vals[|t.vals|])
  {
    CountPositive(Operands(s), w);
    match s
    case Op(_, args) => OneBusyOperand(mc, env, map_, t.vals, args, w, m0, t.mem);
    case Call(_, args) => OneBusyOperand(mc, env, map_, t.vals, args, w, m0, t.mem);
    case Load(ptr) =>
    case Freeze(arg) =>
    case Select(cond, x, y) =>
      if x != Ref(w) {
        assert Free(mc, env, OperandExpr(map_, x), Val(mc, t.vals, x));
      }
      if y != Ref(w) {
        assert Free(mc, env, OperandExpr(map_, y), Val(mc, t.vals, y));
      }
  }

  lemma {:induction false} OpIsFree<M(!new)>(mc: Machine<M>, env: Env, map_: map<nat, Expr>, s: Inst, t: Ssa<M>)
    requires s.Op?
    requires forall o :: o in s.args ==> Free(mc, env, OperandExpr(map_, o), Val(mc, t.vals, o))
    ensures Free(mc, env, ExprOf(map_, s), Step(mc, s, t).vals[|t.vals|])
  {
    forall m: M
      ensures Eval(mc, env, ExprOf(map_, s), m) == (m, Step(mc, s, t).vals[|t.vals|])
    {
      forall o | o in s.args
        ensures Quiet(mc, env, map_, t.vals, o, m)
      {
        assert Free(mc, env, OperandExpr(map_, o), Val(mc, t.vals, o));
      }
      QuietOperands(mc, env, map_, t.vals, s.args, m);
    }
  }

  /** Whether the call waiting before `i`, if any, is evaluated by what `i` is translated to. */
  predicate Takes(b: Code, i: nat)
    requires |b.outside| == |b.insts| && i < |b.insts|
  {
    Waiting(b, i).Some? ==> Count(Operands(b.insts[i]), Waiting(b, i).value) > 0
  }

  /** Instruction `i`'s expression brings the C memory up to date, unless a call goes on waiting:
      then the instruction is a pure operation. */
  lemma {:induction false} InstructionEffect<M(!new)>(mc: Machine<M>, b: Code, i: nat, t: Trans, c: CState<M>, s: Ssa<M>)
    requires WellFormed(b) && i < |b.insts| && KeepsPlace(b, i) && Bound(b, t, i) && Agrees(mc, b, i, t, c, s)
    requires !b.insts[i].Store? && !b.insts[i].Term?
    ensures var e := ExprOf(t.exprMap, b.insts[i]);
            var s' := Step(mc, b.insts[i], s);
            && (Takes(b, i) ==> Eval(mc, c.env, e, c.mem) == (s'.mem, s'.vals[i]))
            && (!Takes(b, i) ==> b.insts[i].Op? && Free(mc, c.env, e, s'.vals[i]))
  {
    var inst := b.insts[i];
    match Waiting(b, i)
    case None =>
      EffectWhenNothingWaits(mc, b, i, t, c, s);
      ExprQuiet(mc, c.env, t.exprMap, inst, s);
    case Some(w) =>
      OthersAreFree(mc, b, i, t, c, s);
      if Takes(b, i) {
        UsedOnceHere(b, w, i);
        ExprBusy(mc, c.env, t.exprMap, inst, w, c.mem, s);
      } else {
        WaitingStops(b, t, i, w);
        CountPositive(Operands(inst), w);
        OpIsFree(mc, c.env, t.exprMap, inst, s);
      }
  }

  // ----- one instruction -----

  lemma {:induction false} FreeFresh<M(!new)>(mc: Machine<M>, env: Env, e: Expr, v: int, n: nat, x: int)
    requires VarsBelow(e, n) && Free(mc, env, e, v)
    ensures Free(mc, env[n := x], e, v)
  {
    forall m: M
      ensures Eval(mc, env[n := x], e, m) == (m, v)
    {
      FreshVar(mc, env, e, n, x, m);
    }
  }

  /** An expression live across instruction `i`, other than a call that goes on waiting, is free of
      memory, or memory does not change. */
  ghost predicate Survives<M(!new)>(mc: Machine<M>, b: Code, i: nat, e: Expr, v: int, c: CState<M>)
    requires |b.outside| == |b.insts| && i < |b.insts|
  {
    || Free(mc, c.env, e, v)
    || (Waiting(b, i).None? && ReadOnly(b.insts[i]) && Eval(mc, c.env, e, c.mem) == (c.mem, v))
  }

  lemma {:induction false} OldSurvives<M(!new)>(mc: Machine<M>, b: Code, i: nat, t: Trans, c: CState<M>, s: Ssa<M>, k: nat)
    requires WellFormed(b) && i < |b.insts| && Bound(b, t, i) && Agrees(mc, b, i, t, c, s)
    requires k < i && Live(b, t, k, i + 1) && (Waiting(b, i) == Some(k) ==> Takes(b, i))
    ensures Survives(mc, b, i, t.exprMap[k], s.vals[k], c)
  {
    LiveAfter(b, t, i, k);
    match Waiting(b, i)
    case None =>
      if !ReadOnly(b.insts[i]) {
        StableIsFree(mc, c.env, t.exprMap[k], c.mem, s.vals[k]);
      }
    case Some(w) =>
  }

  lemma {:induction false} OldOnesSurvive<M(!new)>(mc: Machine<M>, b: Code, i: nat, t: Trans, t': Trans, e: Expr, c: CState<M>, s: Ssa<M>)
    requires WellFormed(b) && i < |b.insts| && Bound(b, t, i) && Agrees(mc, b, i, t, c, s)
    requires t'.exprMap == t.exprMap[i := e]
    ensures forall k: nat {:trigger Live(b, t', k, i + 1)} ::
              k < i && Live(b, t', k, i + 1) && (Waiting(b, i) == Some(k) ==> Takes(b, i)) ==> Survives(mc, b, i, t'.exprMap[k], s.vals[k], c)
  {
    forall k: nat | k < i && Live(b, t', k, i + 1) && (Waiting(b, i) == Some(k) ==> Takes(b, i))
      ensures Survives(mc, b, i, t'.exprMap[k], s.vals[k], c)
    {
      assert Live(b, t, k, i + 1);
      OldSurvives(mc, b, i, t, c, s, k);
    }
  }

  ghost function WithTree(t: Trans, i: nat, e: Expr): Trans {
    t.(exprMap := t.exprMap[i := e])
  }

  /** The expression is kept for later: no statement. */
  lemma {:induction false} BoundAsTree<M(!new)>(mc: Machine<M>, b: Code, i: nat, t: Trans, c: CState<M>, s: Ssa<M>)
    requires WellFormed(b) && i < |b.insts| && KeepsPlace(b, i) && Bound(b, t, i) && Agrees(mc, b, i, t, c, s)
    requires !b.insts[i].Store? && !b.insts[i].Term? && Takes(b, i)
    requires var e := ExprOf(t.exprMap, b.insts[i]); (e.ELit? && e.c >= 0) || CanInline(b, i)
    ensures Agrees(mc, b, i + 1, WithTree(t, i, ExprOf(t.exprMap, b.insts[i])), c, Step(mc, b.insts[i], s))
  {
    var e := ExprOf(t.exprMap, b.insts[i]);
    InstructionEffect(mc, b, i, t, c, s);
    OldOnesSurvive(mc, b, i, t, WithTree(t, i, e), e, c, s);
    if Waiting(b, i).Some? {
      CountPositive(Operands(b.insts[i]), Waiting(b, i).value);
    }
  }

  /** The same while a call goes on waiting. */
  lemma {:induction false} BoundAsTreeWaiting<M(!new)>(mc: Machine<M>, b: Code, i: nat, t: Trans, c: CState<M>, s: Ssa<M>)
    requires WellFormed(b) && i < |b.insts| && KeepsPlace(b, i) && Bound(b, t, i) && Agrees(mc, b, i, t, c, s)
    requires !b.insts[i].Store? && !b.insts[i].Term? && !Takes(b, i)
    requires var e := ExprOf(t.exprMap, b.insts[i]); (e.ELit? && e.c >= 0) || CanInline(b, i)
    ensures Agrees(mc, b, i + 1, WithTree(t, i, ExprOf(t.exprMap, b.insts[i])), c, Step(mc, b.insts[i], s))
  {
    var e := ExprOf(t.exprMap, b.insts[i]);
    InstructionEffect(mc, b, i, t, c, s);
    OldOnesSurvive(mc, b, i, t, WithTree(t, i, e), e, c, s);
    WaitingStops(b, t, i, Waiting(b, i).value);
  }

  lemma {:induction false} KeptByVariables<M(!new)>(mc: Machine<M>, b: Code, i: nat, t: Trans, t': Trans, c: CState<M>, s: Ssa<M>, x: int, m: M)
    requires WellFormed(b) && i < |b.insts| && Bound(b, t, i) && Agrees(mc, b, i, t, c, s)
    requires t'.exprMap == t.exprMap[i := EVar(t.varCount)]
    requires Waiting(b, i).None? && ReadOnly(b.insts[i]) ==> m == c.mem
    ensures forall k: nat {:trigger Live(b, t', k, i + 1)} :: k < i && Live(b, t', k, i + 1) && (Waiting(b, i) == Some(k) ==> Takes(b, i)) ==>
              var env := c.env[t.varCount := x];
              && (Waiting(b, i).None? ==> Eval(mc, env, t'.exprMap[k], m) == (m, s.vals[k]))
              && (Waiting(b, i).Some? ==> Free(mc, env, t'.exprMap[k], s.vals[k]))
  {
    OldOnesSurvive(mc, b, i, t, t', EVar(t.varCount), c, s);
    forall k: nat | k < i && Live(b, t', k, i + 1) && (Waiting(b, i) == Some(k) ==> Takes(b, i))
      ensures Waiting(b, i).None? ==> Eval(mc, c.env[t.varCount := x], t'.exprMap[k], m) == (m, s.vals[k])
      ensures Waiting(b, i).Some? ==> Free(mc, c.env[t.varCount := x], t'.exprMap[k], s.vals[k])
    {
      KeptByVariable(mc, b, i, t.exprMap[k], s.vals[k], c, t.varCount, x, m);
    }
  }

  ghost function WithVariable(t: Trans, i: nat, e: Expr): Trans {
    Trans(t.exprMap[i := EVar(t.varCount)], t.stmts + [Declare(t.varCount), Assign(t.varCount, e)], t.varCount + 1)
  }

  /** The expression is evaluated now, into a fresh variable; so is the call waiting, if any. */
  lemma {:induction false} InVariable<M(!new)>(mc: Machine<M>, b: Code, i: nat, t: Trans, c: CState<M>, s: Ssa<M>)
    requires WellFormed(b) && i < |b.insts| && KeepsPlace(b, i) && Bound(b, t, i) && Agrees(mc, b, i, t, c, s)
    requires !b.insts[i].Store? && !b.insts[i].Term? && !CanInline(b, i) && Takes(b, i)
    ensures var e := ExprOf(t.exprMap, b.insts[i]);
            Agrees(mc, b, i + 1, WithVariable(t, i, e), Exec(mc, Assign(t.varCount, e), c), Step(mc, b.insts[i], s))
  {
    var e := ExprOf(t.exprMap, b.insts[i]);
    var x := Eval(mc, c.env, e, c.mem);
    InstructionEffect(mc, b, i, t, c, s);
    KeptByVariables(mc, b, i, t, WithVariable(t, i, e), c, s, x.1, x.0);
  }

  /** The same while a call goes on waiting. */
  lemma {:induction false} InVariableWaiting<M(!new)>(mc: Machine<M>, b: Code, i: nat, t: Trans, c: CState<M>, s: Ssa<M>)
    requires WellFormed(b) && i < |b.insts| && KeepsPlace(b, i) && Bound(b, t, i) && Agrees(mc, b, i, t, c, s)
    requires !b.insts[i].Store? && !b.insts[i].Term? && !CanInline(b, i) && !Takes(b, i)
    ensures var e := ExprOf(t.exprMap, b.insts[i]);
            Agrees(mc, b, i + 1, WithVariable(t, i, e), Exec(mc, Assign(t.varCount, e), c), Step(mc, b.insts[i], s))
  {
    var e := ExprOf(t.exprMap, b.insts[i]);
    var x := Eval(mc, c.env, e, c.mem);
    InstructionEffect(mc, b, i, t, c, s);
    KeptByVariables(mc, b, i, t, WithVariable(t, i, e), c, s, x.1, x.0);
    var w := Waiting(b, i).value;
    WaitingStops(b, t, i, w);
    FreshVar(mc, c.env, t.exprMap[w], t.varCount, x.1, c.mem);
  }

  lemma {:induction false} KeptByVariable<M(!new)>(mc: Machine<M>, b: Code, i: nat, e: Expr, u: int, c: CState<M>, v: nat, x: int, m: M)
    requires |b.outside| == |b.insts| && i < |b.insts| && Survives(mc, b, i, e, u, c) && VarsBelow(e, v)
    requires Waiting(b, i).None? && ReadOnly(b.insts[i]) ==> m == c.mem
    ensures Waiting(b, i).None? ==> Eval(mc, c.env[v := x], e, m) == (m, u)
    ensures Waiting(b, i).Some? ==> Free(mc, c.env[v := x], e, u)
  {
    if Free(mc, c.env, e, u) {
      FreeFresh(mc, c.env, e, u, v, x);
      assert Free(mc, c.env[v := x], e, u);
    } else {
      FreshVar(mc, c.env, e, v, x, m);
    }
  }

  /** A call nobody uses is evaluated where it stands. */
  lemma {:induction false} UnusedCall<M(!new)>(mc: Machine<M>, b: Code, i: nat, t: Trans, c: CState<M>, s: Ssa<M>)
    requires WellFormed(b) && i < |b.insts| && KeepsPlace(b, i) && Bound(b, t, i) && Agrees(mc, b, i, t, c, s)
    requires b.insts[i].Call? && Uses(b, i) == 0
    ensures var e := ExprOf(t.exprMap, b.insts[i]);
            var t' := t.(exprMap := t.exprMap[i := e], stmts := t.stmts + [Evaluate(e)]);
            Agrees(mc, b, i + 1, t', Exec(mc, Evaluate(e), c), Step(mc, b.insts[i], s))
  {
    var e := ExprOf(t.exprMap, b.insts[i]);
    var t' := t.(exprMap := t.exprMap[i := e], stmts := t.stmts + [Evaluate(e)]);
    InstructionEffect(mc, b, i, t, c, s);
    OldOnesSurvive(mc, b, i, t, t', e, c, s);
  }

  /** A store, or the terminator, meets its operands' values, and whatever waits is evaluated in it. */
  lemma {:induction false} OperandsHere<M(!new)>(mc: Machine<M>, b: Code, i: nat, t: Trans, c: CState<M>, s: Ssa<M>)
    requires WellFormed(b) && i < |b.insts| && Bound(b, t, i) && Agrees(mc, b, i, t, c, s)
    requires b.insts[i].Store? || b.insts[i].Term?
    ensures Takes(b, i) && Waiting(b, i + 1).None?
    ensures EvalAll(mc, c.env, OperandExprs(t.exprMap, Operands(b.insts[i])), c.mem) == (s.mem, Vals(mc, s.vals, Operands(b.insts[i])))
  {
    var args := Operands(b.insts[i]);
    match Waiting(b, i)
    case None =>
      EffectWhenNothingWaits(mc, b, i, t, c, s);
      QuietOperands(mc, c.env, t.exprMap, s.vals, args, c.mem);
    case Some(w) =>
      if !Takes(b, i) {
        WaitingStops(b, t, i, w);
      }
      UsedOnceHere(b, w, i);
      OthersAreFree(mc, b, i, t, c, s);
      OneBusyOperand(mc, c.env, t.exprMap, s.vals, args, w, c.mem, s.mem);
  }

  lemma {:induction false} PairEval<M>(mc: Machine<M>, env: Env, x: Expr, y: Expr, m: M)
    ensures var p := Eval(mc, env, x, m); var q := Eval(mc, env, y, p.0);
            EvalAll(mc, env, [x, y], m) == (q.0, [p.1, q.1])
  {
    var p := Eval(mc, env, x, m);
    assert [x, y][1..] == [y] && [y][1..] == [];
    var q := Eval(mc, env, y, p.0);
    assert EvalAll(mc, env, [y][1..], q.0) == (q.0, []);
    assert EvalAll(mc, env, [y], p.0) == (q.0, [q.1] + []);
    assert [p.1] + ([q.1] + []) == [p.1, q.1];
  }

  lemma {:induction false} PairOperands<M>(mc: Machine<M>, exprMap: map<nat, Expr>, vals: seq<int>, x: Operand, y: Operand)
    ensures OperandExprs(exprMap, [x, y]) == [OperandExpr(exprMap, x), OperandExpr(exprMap, y)]
    ensures Vals(mc, vals, [x, y]) == [Val(mc, vals, x), Val(mc, vals, y)]
  {
    assert [x, y][1..] == [y] && [y][1..] == [];
    assert OperandExprs(exprMap, [y]) == [OperandExpr(exprMap, y)] && Vals(mc, vals, [y]) == [Val(mc, vals, y)];
  }

  lemma {:induction false} StoreOrEnd<M(!new)>(mc: Machine<M>, b: Code, i: nat, t: Trans, c: CState<M>, s: Ssa<M>)
    requires WellFormed(b) && i < |b.insts| && Bound(b, t, i) && Agrees(mc, b, i, t, c, s)
    requires b.insts[i].Store? || b.insts[i].Term?
    ensures var inst := b.insts[i];
            var st := if inst.Store? then StoreTo(OperandExpr(t.exprMap, inst.ptr), OperandExpr(t.exprMap, inst.value))
                      else Finish(OperandExprs(t.exprMap, inst.args));
            Agrees(mc, b, i + 1, t.(stmts := t.stmts + [st]), Exec(mc, st, c), Step(mc, inst, s))
  {
    var inst := b.insts[i];
    OperandsHere(mc, b, i, t, c, s);
    forall k: nat | Live(b, t, k, i + 1)
      ensures Free(mc, c.env, t.exprMap[k], s.vals[k])
    {
      OldSurvives(mc, b, i, t, c, s, k);
    }
    if inst.Store? {
      var x, y := OperandExpr(t.exprMap, inst.ptr), OperandExpr(t.exprMap, inst.value);
      PairOperands(mc, t.exprMap, s.vals, inst.ptr, inst.value);
      PairEval(mc, c.env, x, y, c.mem);
    }
  }

  // ----- the block -----

  lemma {:induction false} AgreesAfterStep<M(!new)>(mc: Machine<M>, b: Code, i: nat, t: Trans, c0: CState<M>, s: Ssa<M>)
    requires WellFormed(b) && i < |b.insts| && KeepsPlace(b, i) && Bound(b, t, i)
    requires Agrees(mc, b, i, t, ExecAll(mc, t.stmts, c0), s)
    ensures var t' := TransStep(b, i, t); Agrees(mc, b, i + 1, t', ExecAll(mc, t'.stmts, c0), Step(mc, b.insts[i], s))
  {
    var inst := b.insts[i];
    var t' := TransStep(b, i, t);
    var c := ExecAll(mc, t.stmts, c0);
    if t'.stmts != t.stmts {
      ghost var new_ := t'.stmts[|t.stmts|..];
      assert t'.stmts == t.stmts + new_;
      ExecAppend(mc, t.stmts, new_, c0);
      if inst.Store? || inst.Term? {
        StoreOrEnd(mc, b, i, t, c, s);
      } else if inst.Call? && Uses(b, i) == 0 {
        UnusedCall(mc, b, i, t, c, s);
      } else {
        ExecDeclared(mc, t.varCount, ExprOf(t.exprMap, inst), c);
        if Takes(b, i) {
          InVariable(mc, b, i, t, c, s);
        } else {
          InVariableWaiting(mc, b, i, t, c, s);
        }
      }
    } else if Takes(b, i) {
      BoundAsTree(mc, b, i, t, c, s);
    } else {
      BoundAsTreeWaiting(mc, b, i, t, c, s);
    }
  }

  lemma {:induction false} ExecDeclared<M>(mc: Machine<M>, v: nat, e: Expr, c: CState<M>)
    ensures ExecAll(mc, [Declare(v), Assign(v, e)], c) == Exec(mc, Assign(v, e), c)
  {
    assert [Declare(v), Assign(v, e)][1..] == [Assign(v, e)] && [Assign(v, e)][1..] == [];
    assert ExecAll(mc, [Assign(v, e)], c) == Exec(mc, Assign(v, e), c);
  }

  /** What an instruction will find is what it should. */
  ghost predicate AgreesAt<M(!new)>(mc: Machine<M>, b: Code, m: M, i: nat)
    requires |b.outside| == |b.insts| && i <= |b.insts|
  {
    var t := Translated(b, i);
    Agrees(mc, b, i, t, ExecAll(mc, t.stmts, CState(map[], m, [])), SsaRun(mc, b, m, i))
  }

  lemma {:induction false} AgreesNext<M(!new)>(mc: Machine<M>, b: Code, m: M, i: nat)
    requires WellFormed(b) && i < |b.insts| && KeepsPlace(b, i) && AgreesAt(mc, b, m, i)
    ensures AgreesAt(mc, b, m, i + 1)
  {
    AlwaysBound(b, i);
    AgreesAfterStep(mc, b, i, Translated(b, i), CState(map[], m, []), SsaRun(mc, b, m, i));
  }

  /** At every point of the block. */
  lemma {:induction false} AgreesThroughout<M(!new)>(mc: Machine<M>, b: Code, m: M, i: nat)
    requires WellFormed(b) && i <= |b.insts| && KeepTheirPlace(b, i)
    ensures AgreesAt(mc, b, m, i)
  {
    if i > 0 {
      assert KeepsPlace(b, i - 1);
      AgreesThroughout(mc, b, m, i - 1);
      AgreesNext(mc, b, m, i - 1);
    }
  }

  lemma {:induction false} NothingWaitsAtTheEnd(b: Code, t: Trans, w: nat)
    requires WellFormed(b) && Live(b, t, w, |b.insts|)
    ensures Stable(t.exprMap[w])
  {
    if !Stable(t.exprMap[w]) {
      ScanReaches(b, w, w + 1, |b.insts|);
    }
  }

  /** The whole block: same memory, same operands for the terminator, and every instruction whose
      value is used later than the block has it in a variable or a literal. */
  lemma {:induction false} BlockPreserved<M(!new)>(mc: Machine<M>, b: Code, m: M)
    requires WellFormed(b) && CallsKeepTheirPlace(b)
    ensures var n := |b.insts|;
            var t := Translated(b, n);
            var c := ExecAll(mc, t.stmts, CState(map[], m, []));
            var s := SsaRun(mc, b, m, n);
            && c.mem == s.mem && c.out == s.out
            && forall k :: 0 <= k < n && !b.insts[k].Store? && !b.insts[k].Term? && b.outside[k] > 0 ==>
                 k in t.exprMap && Stable(t.exprMap[k]) && Free(mc, c.env, t.exprMap[k], s.vals[k])
  {
    var n := |b.insts|;
    var t := Translated(b, n);
    var c := ExecAll(mc, t.stmts, CState(map[], m, []));
    var s := SsaRun(mc, b, m, n);
    AgreesThroughout(mc, b, m, n);
    AlwaysBound(b, n);
    if Waiting(b, n).Some? {
      NothingWaitsAtTheEnd(b, t, Waiting(b, n).value);
    }
    forall k | 0 <= k < n && !b.insts[k].Store? && !b.insts[k].Term? && b.outside[k] > 0
      ensures k in t.exprMap && Stable(t.exprMap[k]) && Free(mc, c.env, t.exprMap[k], s.vals[k])
    {
      assert k in t.exprMap;
      if !Stable(t.exprMap[k]) {
        UsesSuffix(b, k, 0, k + 1);
        ScanNeedsUser(b, k, k + 1);
      }
      assert Live(b, t, k, n);
      StableIsFree(mc, c.env, t.exprMap[k], c.mem, s.vals[k]);
    }
  }

  lemma {:induction false} ScanNeedsUser(b: Code, k: nat, cur: nat)
    requires |b.outside| == |b.insts| && k < cur <= |b.insts| && UsesFrom(b, k, cur) == 0
    ensures !Scan(b, k, cur)
    decreases |b.insts| - cur
  {
    if cur < |b.insts| {
      ScanNeedsUser(b, k, cur + 1);
    }
  }

  // ----- where the translation does not preserve the block -----

  /** Memory counts the calls made, a load reads the count, an operation gives its first operand. */
  const COUNTER: Machine<int> := Machine(
    (op, args) => if |args| > 0 then args[0] else 0, (m, ptr) => m, (m, ptr, v) => m, (fn, m, args) => (m + 1, 0), p => 0)

  const OVERTAKING := Code([Call(0, []), Load(Const(0)), Op(0, [Ref(1), Ref(0)]), Term([Ref(2)])], [0, 0, 0, 0])

  lemma {:induction false} OvertakingWaits()
    ensures WellFormed(OVERTAKING) && !CallsKeepTheirPlace(OVERTAKING)
    ensures CanInline(OVERTAKING, 0) && CanInline(OVERTAKING, 1) && CanInline(OVERTAKING, 2)
  {
    var b := OVERTAKING;
    OvertakingUses();
    assert Waiting(b, 0) == None;
    assert Waiting(b, 1) == Some(0);
    assert !KeepsPlace(b, 1);
  }

  lemma {:induction false} OvertakingUses()
    ensures CanInline(OVERTAKING, 0) && CanInline(OVERTAKING, 1) && CanInline(OVERTAKING, 2)
  {
    var b := OVERTAKING;
    assert Count([Ref(1), Ref(0)], 0) == 1 && Count([Ref(1), Ref(0)], 1) == 1 && Count([Ref(2)], 2) == 1;
    assert CanInline(b, 0);
    assert CanInline(b, 1);
    assert CanInline(b, 2);
  }

  lemma {:induction false} OvertakingStarts()
    ensures Translated(OVERTAKING, 2) == Trans(map[0 := ECall(0, []), 1 := EDeref(ELit(0))], [], 0)
  {
    OvertakingWaits();
    assert Translated(OVERTAKING, 1) == Trans(map[0 := ECall(0, [])], [], 0);
  }

  lemma {:induction false} OvertakingTranslated()
    ensures Translated(OVERTAKING, 4).stmts == [Finish([EOp(0, [EDeref(ELit(0)), ECall(0, [])])])]
  {
    OvertakingStarts();
    OvertakingUses();
    var t2, t3 := Translated(OVERTAKING, 2), Translated(OVERTAKING, 3);
    var e := EOp(0, [EDeref(ELit(0)), ECall(0, [])]);
    PairOperands(COUNTER, t2.exprMap, [], Ref(1), Ref(0));
    assert t3 == Trans(t2.exprMap[2 := e], [], 0);
    assert OperandExprs(t3.exprMap, [Ref(2)]) == [e];
    assert TransStep(OVERTAKING, 3, t3).stmts == [] + [Finish([e])];
  }

  /** A call deferred past a load that is itself deferred to before the call: the load reads too early. */
  lemma {:induction false} LoadOvertakesCall()
    ensures WellFormed(OVERTAKING) && !CallsKeepTheirPlace(OVERTAKING)
    ensures SsaRun(COUNTER, OVERTAKING, 0, 4).out == [1]
    ensures ExecAll(COUNTER, Translated(OVERTAKING, 4).stmts, CState(map[], 0, [])).out == [0]
  {
    OvertakingWaits();
    OvertakingTranslated();
    OvertakingRuns();
  }

  lemma {:induction false} OvertakingRuns()
    ensures SsaRun(COUNTER, OVERTAKING, 0, 4).out == [1]
    ensures ExecAll(COUNTER, [Finish([EOp(0, [EDeref(ELit(0)), ECall(0, [])])])], CState(map[], 0, [])).out == [0]
  {
  }

  const BRANCHING := Code([Call(0, []), Select(Param(0), Ref(0), Const(7)), Term([Ref(1)])], [0, 0, 0])

  lemma {:induction false} BranchingWaits()
    ensures WellFormed(BRANCHING) && !CallsKeepTheirPlace(BRANCHING)
    ensures CanInline(BRANCHING, 0) && CanInline(BRANCHING, 1)
  {
    var b := BRANCHING;
    assert CanInline(b, 0) && CanInline(b, 1);
    assert Waiting(b, 0) == None;
    assert Waiting(b, 1) == Some(0);
    assert !KeepsPlace(b, 1);
  }

  /** A call deferred into the branch that is not taken is never made. */
  lemma {:induction false} CallLostInBranch()
    ensures WellFormed(BRANCHING) && !CallsKeepTheirPlace(BRANCHING)
    ensures SsaRun(COUNTER, BRANCHING, 0, 3).mem == 1
    ensures ExecAll(COUNTER, Translated(BRANCHING, 3).stmts, CState(map[], 0, [])).mem == 0
  {
    BranchingWaits();
    var b := BRANCHING;
    var t1, t2 := Translated(b, 1), Translated(b, 2);
    var e := ESelect(EParam(0), ECall(0, []), ELit(7));
    assert t1 == Trans(map[0 := ECall(0, [])], [], 0);
    assert t2 == Trans(map[0 := ECall(0, []), 1 := e], [], 0);
    BranchingRuns(t2.exprMap);
    assert Translated(b, 3).stmts == [] + [Finish([e])];
  }

  lemma {:induction false} BranchingRuns(exprMap: map<nat, Expr>)
    requires 1 in exprMap && exprMap[1] == ESelect(EParam(0), ECall(0, []), ELit(7))
    ensures OperandExprs(exprMap, [Ref(1)]) == [ESelect(EParam(0), ECall(0, []), ELit(7))]
    ensures ExecAll(COUNTER, [Finish([ESelect(EParam(0), ECall(0, []), ELit(7))])], CState(map[], 0, [])).mem == 0
  {
  }

  const CONDITION := Code([Call(0, []), Term([Ref(0)])], [0, 0])

  /** A call that only the branch uses, though nothing is wrong with that in the block, becomes the condition
      itself: it is evaluated wherever the condition is printed. */
  lemma {:induction false} CallInCondition()
    ensures WellFormed(CONDITION) && CallsKeepTheirPlace(CONDITION)
    ensures Translated(CONDITION, 2).stmts == [Finish([ECall(0, [])])]
  {
    var b := CONDITION;
    assert CanInline(b, 0);
    var t := Translated(b, 1);
    assert t == Trans(map[0 := ECall(0, [])], [], 0);
    assert [Ref(0)][1..] == [];
    assert OperandExprs(t.exprMap, [Ref(0)]) == [ECall(0, [])] + OperandExprs(t.exprMap, []) == [ECall(0, [])];
    assert TransStep(b, 1, t).stmts == [] + [Finish([ECall(0, [])])];
  }
}
