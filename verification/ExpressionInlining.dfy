/** Translating a basic block of SSA instructions to C statements. An instruction with one user is
    kept as an expression and evaluated only where it is used, if nothing but read-only instructions
    stand in between; otherwise it is assigned to a fresh variable. */
module ExpressionInlining {
  datatype Operand = Const(c: int) | Param(p: nat) | Ref(def: nat)

  /** `Op` stands for the side-effect-free operations in the read-only set; `Select` and `Freeze`
      have no side effects but are not in it. `Term` is the block's terminator. */
  datatype Inst =
    | Op(op: nat, args: seq<Operand>)
    | Load(ptr: Operand)
    | Store(value: Operand, ptr: Operand)
    | Call(fn: nat, args: seq<Operand>)
    | Select(cond: Operand, ifTrue: Operand, ifFalse: Operand)
    | Freeze(arg: Operand)
    | Term(args: seq<Operand>)

  /** The instructions of a block, and how often each is used outside of it. */
  datatype Code = Code(insts: seq<Inst>, outside: seq<nat>)

  function Operands(s: Inst): seq<Operand> {
    match s
    case Op(_, args) => args
    case Load(ptr) => [ptr]
    case Store(value, ptr) => [ptr, value]
    case Call(_, args) => args
    case Select(cond, ifTrue, ifFalse) => [cond, ifTrue, ifFalse]
    case Freeze(arg) => [arg]
    case Term(args) => args
  }

  predicate ReadOnly(s: Inst) {
    s.Op? || s.Load?
  }

  predicate WellFormed(b: Code) {
    && |b.outside| == |b.insts|
    && forall i, o :: 0 <= i < |b.insts| && o in Operands(b.insts[i]) && o.Ref? ==>
         o.def < i && !b.insts[o.def].Store? && !b.insts[o.def].Term?
  }

  // ----- uses -----

  function Count(args: seq<Operand>, k: nat): nat {
    if args == [] then 0 else (if args[0] == Ref(k) then 1 else 0) + Count(args[1..], k)
  }

  /** Uses of instruction `k` in the instructions from `i` on. */
  function UsesFrom(b: Code, k: nat, i: nat): nat
    requires i <= |b.insts|
    decreases |b.insts| - i
  {
    if i == |b.insts| then 0 else Count(Operands(b.insts[i]), k) + UsesFrom(b, k, i + 1)
  }

  function Uses(b: Code, k: nat): nat
    requires |b.outside| == |b.insts| && k < |b.insts|
  {
    UsesFrom(b, k, 0) + b.outside[k]
  }

  /** The scan from instruction `cur` on meets the user of `k` before anything not read-only. */
  predicate Scan(b: Code, k: nat, cur: nat)
    decreases |b.insts| - cur
  {
    cur < |b.insts| &&
    (Count(Operands(b.insts[cur]), k) > 0 || (ReadOnly(b.insts[cur]) && Scan(b, k, cur + 1)))
  }

  predicate CanInline(b: Code, k: nat)
    requires |b.outside| == |b.insts| && k < |b.insts|
  {
    Uses(b, k) == 1 && Scan(b, k, k + 1)
  }

  // ----- what the scan finds -----

  lemma {:induction false} CountIs(args: seq<Operand>, k: nat)
    ensures Count(args, k) == multiset(args)[Ref(k)]
    ensures Count(args, k) > 0 <==> Ref(k) in args
    decreases args
  {
    if args != [] {
      CountIs(args[1..], k);
      assert args == [args[0]] + args[1..];
    }
  }

  /** All uses from `i` on are in instruction `j`, or there are more than it has. */
  lemma {:induction false} UsesOnlyAt(b: Code, k: nat, i: nat, j: nat)
    requires i <= j < |b.insts|
    ensures UsesFrom(b, k, i) >= Count(Operands(b.insts[j]), k)
    ensures UsesFrom(b, k, i) == Count(Operands(b.insts[j]), k)
            <==> forall m :: i <= m < |b.insts| && m != j ==> Ref(k) !in Operands(b.insts[m])
    decreases |b.insts| - i
  {
    CountIs(Operands(b.insts[i]), k);
    if i < j {
      UsesOnlyAt(b, k, i + 1, j);
    } else {
      NoUses(b, k, i + 1);
    }
  }

  lemma {:induction false} NoUses(b: Code, k: nat, i: nat)
    requires i <= |b.insts|
    ensures UsesFrom(b, k, i) == 0 <==> forall m :: i <= m < |b.insts| ==> Ref(k) !in Operands(b.insts[m])
    decreases |b.insts| - i
  {
    if i < |b.insts| {
      CountIs(Operands(b.insts[i]), k);
      NoUses(b, k, i + 1);
    }
  }

  /** The scan that reaches instruction `j`, the first user of `k`. */
  lemma {:induction false} ScanIs(b: Code, k: nat, cur: nat)
    requires cur <= |b.insts|
    ensures Scan(b, k, cur) <==> exists j :: cur <= j < |b.insts| && Ref(k) in Operands(b.insts[j])
                                    && forall m :: cur <= m < j ==> Ref(k) !in Operands(b.insts[m]) && (b.insts[m].Op? || b.insts[m].Load?)
    decreases |b.insts| - cur
  {
    if cur < |b.insts| {
      CountIs(Operands(b.insts[cur]), k);
      ScanIs(b, k, cur + 1);
    }
  }

  /** The value is used exactly once, as an operand of instruction `j`, with nothing but operations and loads
      on the way. */
  ghost predicate OnlyUse(b: Code, k: nat, j: nat)
    requires |b.outside| == |b.insts| && k < |b.insts|
  {
    && k < j < |b.insts| && b.outside[k] == 0
    && multiset(Operands(b.insts[j]))[Ref(k)] == 1
    && (forall m :: 0 <= m < |b.insts| && m != j ==> Ref(k) !in Operands(b.insts[m]))
    && forall m :: k < m < j ==> b.insts[m].Op? || b.insts[m].Load?
  }

  ghost predicate FirstUse(b: Code, k: nat, j: nat) {
    && k < j < |b.insts| && Ref(k) in Operands(b.insts[j])
    && forall m :: k < m < j ==> Ref(k) !in Operands(b.insts[m]) && (b.insts[m].Op? || b.insts[m].Load?)
  }

  lemma {:induction false} InlinedHasUse(b: Code, k: nat, j: nat)
    requires |b.outside| == |b.insts| && k < |b.insts| && Uses(b, k) == 1 && FirstUse(b, k, j)
    ensures OnlyUse(b, k, j)
  {
    UsesOnlyAt(b, k, 0, j);
    CountIs(Operands(b.insts[j]), k);
  }

  lemma {:induction false} OnlyUseInlines(b: Code, k: nat, j: nat)
    requires |b.outside| == |b.insts| && k < |b.insts| && OnlyUse(b, k, j)
    ensures Uses(b, k) == 1 && FirstUse(b, k, j)
  {
    UsesOnlyAt(b, k, 0, j);
    CountIs(Operands(b.insts[j]), k);
  }

  /** An instruction can be inlined exactly if it has one use, in its own block, and every instruction
      strictly between is an operation or a load. */
  lemma {:induction false} CanInlineExact(b: Code, k: nat)
    requires |b.outside| == |b.insts| && k < |b.insts|
    ensures CanInline(b, k) <==> exists j: nat :: OnlyUse(b, k, j)
  {
    ScanIs(b, k, k + 1);
    if CanInline(b, k) {
      var j :| k + 1 <= j < |b.insts| && Ref(k) in Operands(b.insts[j])
               && forall m :: k + 1 <= m < j ==> Ref(k) !in Operands(b.insts[m]) && (b.insts[m].Op? || b.insts[m].Load?);
      InlinedHasUse(b, k, j);
    }
    if exists j: nat :: OnlyUse(b, k, j) {
      var j: nat :| OnlyUse(b, k, j);
      OnlyUseInlines(b, k, j);
    }
  }

  // ----- running the instructions -----

  /** The meaning of operations, memory and calls is arbitrary. */
  datatype Machine<!M> = Machine(
    op: (nat, seq<int>) -> int,
    load: (M, int) -> int,
    store: (M, int, int) -> M,
    call: (nat, M, seq<int>) -> (M, int),
    param: nat -> int)

  /** Values of the instructions run so far, the memory, and what the terminator was given. */
  datatype Ssa<M> = Ssa(vals: seq<int>, mem: M, out: seq<int>)

  function Val<M>(mc: Machine<M>, vals: seq<int>, o: Operand): int {
    match o
    case Const(c) => c
    case Param(p) => mc.param(p)
    case Ref(k) => if k < |vals| then vals[k] else 0
  }

  function Vals<M>(mc: Machine<M>, vals: seq<int>, args: seq<Operand>): seq<int> {
    if args == [] then [] else [Val(mc, vals, args[0])] + Vals(mc, vals, args[1..])
  }

  function Step<M>(mc: Machine<M>, s: Inst, t: Ssa<M>): Ssa<M> {
    match s
    case Op(op, args) => t.(vals := t.vals + [mc.op(op, Vals(mc, t.vals, args))])
    case Load(ptr) => t.(vals := t.vals + [mc.load(t.mem, Val(mc, t.vals, ptr))])
    case Store(value, ptr) =>
      t.(vals := t.vals + [0], mem := mc.store(t.mem, Val(mc, t.vals, ptr), Val(mc, t.vals, value)))
    case Call(fn, args) =>
      var r := mc.call(fn, t.mem, Vals(mc, t.vals, args));
      t.(vals := t.vals + [r.1], mem := r.0)
    case Select(cond, ifTrue, ifFalse) =>
      t.(vals := t.vals + [Val(mc, t.vals, if Val(mc, t.vals, cond) != 0 then ifTrue else ifFalse)])
    case Freeze(arg) => t.(vals := t.vals + [Val(mc, t.vals, arg)])
    case Term(args) => t.(vals := t.vals + [0], out := Vals(mc, t.vals, args))
  }

  /** The state after the first `i` instructions. */
  function SsaRun<M>(mc: Machine<M>, b: Code, m: M, i: nat): (r: Ssa<M>)
    requires i <= |b.insts|
    ensures |r.vals| == i
  {
    if i == 0 then Ssa([], m, []) else Step(mc, b.insts[i - 1], SsaRun(mc, b, m, i - 1))
  }

  // ----- C expressions and statements -----

  datatype Expr =
    | ELit(c: int)
    | EParam(p: nat)
    | EVar(v: nat)
    | EOp(op: nat, args: seq<Expr>)
    | EDeref(ptr: Expr)
    | ECall(fn: nat, args: seq<Expr>)
    | ESelect(cond: Expr, ifTrue: Expr, ifFalse: Expr)

  datatype CStmt =
    | Declare(v: nat)
    | Assign(v: nat, e: Expr)
    | StoreTo(ptr: Expr, value: Expr)
    | Evaluate(e: Expr)
    | Finish(args: seq<Expr>)

  type Env = map<nat, int>

  /** Evaluation may call functions, so it yields a memory too; `?:` evaluates one branch only. */
  function Eval<M>(mc: Machine<M>, env: Env, e: Expr, m: M): (M, int)
    decreases e, 0
  {
    match e
    case ELit(c) => (m, c)
    case EParam(p) => (m, mc.param(p))
    case EVar(v) => (m, if v in env then env[v] else 0)
    case EOp(op, args) => var r := EvalAll(mc, env, args, m); (r.0, mc.op(op, r.1))
    case EDeref(ptr) => var r := Eval(mc, env, ptr, m); (r.0, mc.load(r.0, r.1))
    case ECall(fn, args) => var r := EvalAll(mc, env, args, m); mc.call(fn, r.0, r.1)
    case ESelect(cond, ifTrue, ifFalse) =>
      var r := Eval(mc, env, cond, m);
      if r.1 != 0 then Eval(mc, env, ifTrue, r.0) else Eval(mc, env, ifFalse, r.0)
  }

  function EvalAll<M>(mc: Machine<M>, env: Env, es: seq<Expr>, m: M): (M, seq<int>)
    decreases es, 1
  {
    if es == [] then (m, [])
    else
      var r := Eval(mc, env, es[0], m);
      var q := EvalAll(mc, env, es[1..], r.0);
      (q.0, [r.1] + q.1)
  }

  datatype CState<M> = CState(env: Env, mem: M, out: seq<int>)

  function Exec<M>(mc: Machine<M>, s: CStmt, t: CState<M>): CState<M> {
    match s
    case Declare(_) => t
    case Assign(v, e) => var r := Eval(mc, t.env, e, t.mem); t.(env := t.env[v := r.1], mem := r.0)
    case StoreTo(ptr, value) =>
      var p := Eval(mc, t.env, ptr, t.mem);
      var x := Eval(mc, t.env, value, p.0);
      t.(mem := mc.store(x.0, p.1, x.1))
    case Evaluate(e) => t.(mem := Eval(mc, t.env, e, t.mem).0)
    case Finish(args) => var r := EvalAll(mc, t.env, args, t.mem); t.(mem := r.0, out := r.1)
  }

  function ExecAll<M>(mc: Machine<M>, ss: seq<CStmt>, t: CState<M>): CState<M> {
    if ss == [] then t else ExecAll(mc, ss[1..], Exec(mc, ss[0], t))
  }

  lemma {:induction false} ExecAppend<M>(mc: Machine<M>, a: seq<CStmt>, b: seq<CStmt>, t: CState<M>)
    ensures ExecAll(mc, a + b, t) == ExecAll(mc, b, ExecAll(mc, a, t))
    decreases a
  {
    if a == [] {
      assert a + b == b;
    } else {
      assert (a + b)[1..] == a[1..] + b;
      ExecAppend(mc, a[1..], b, Exec(mc, a[0], t));
    }
  }

  // ----- the translation -----

  /** Statements so far, the expression each instruction is bound to, and the next fresh variable. */
  datatype Trans = Trans(exprMap: map<nat, Expr>, stmts: seq<CStmt>, varCount: nat)

  function OperandExpr(exprMap: map<nat, Expr>, o: Operand): Expr {
    match o
    case Const(c) => ELit(c)
    case Param(p) => EParam(p)
    case Ref(k) => if k in exprMap then exprMap[k] else ELit(0)
  }

  function OperandExprs(exprMap: map<nat, Expr>, args: seq<Operand>): seq<Expr> {
    if args == [] then [] else [OperandExpr(exprMap, args[0])] + OperandExprs(exprMap, args[1..])
  }

  function ExprOf(exprMap: map<nat, Expr>, s: Inst): Expr
    requires !s.Store? && !s.Term?
  {
    match s
    case Op(op, args) => EOp(op, OperandExprs(exprMap, args))
    case Load(ptr) => EDeref(OperandExpr(exprMap, ptr))
    case Call(fn, args) => ECall(fn, OperandExprs(exprMap, args))
    case Select(cond, ifTrue, ifFalse) =>
      ESelect(OperandExpr(exprMap, cond), OperandExpr(exprMap, ifTrue), OperandExpr(exprMap, ifFalse))
    case Freeze(arg) => OperandExpr(exprMap, arg)
  }

  /** A literal is bound as it is, an inlinable expression too; anything else gets a variable. */
  function Bind(b: Code, i: nat, t: Trans, e: Expr): Trans
    requires |b.outside| == |b.insts| && i < |b.insts|
  {
    if (e.ELit? && e.c >= 0) || CanInline(b, i) then t.(exprMap := t.exprMap[i := e])
    else Trans(t.exprMap[i := EVar(t.varCount)], t.stmts + [Declare(t.varCount), Assign(t.varCount, e)], t.varCount + 1)
  }

  function TransStep(b: Code, i: nat, t: Trans): Trans
    requires |b.outside| == |b.insts| && i < |b.insts|
  {
    match b.insts[i]
    case Store(value, ptr) =>
      t.(stmts := t.stmts + [StoreTo(OperandExpr(t.exprMap, ptr), OperandExpr(t.exprMap, value))])
    case Term(args) => t.(stmts := t.stmts + [Finish(OperandExprs(t.exprMap, args))])
    case Call(_, _) =>
      var e := ExprOf(t.exprMap, b.insts[i]);
      if Uses(b, i) == 0 then t.(exprMap := t.exprMap[i := e], stmts := t.stmts + [Evaluate(e)])
      else Bind(b, i, t, e)
    case _ => Bind(b, i, t, ExprOf(t.exprMap, b.insts[i]))
  }

  function Translated(b: Code, i: nat): Trans
    requires |b.outside| == |b.insts| && i <= |b.insts|
  {
    if i == 0 then Trans(map[], [], 0) else TransStep(b, i - 1, Translated(b, i - 1))
  }

  /** The pass itself: one walk over the block that fills the expression map and appends statements. */
  class BlockTranslator {
    var exprMap: map<nat, Expr>
    var expressions: seq<CStmt>
    var varCount: nat

    constructor ()
      ensures State() == Trans(map[], [], 0)
    {
      exprMap, expressions, varCount := map[], [], 0;
    }

    ghost function State(): Trans
      reads this
    {
      Trans(exprMap, expressions, varCount)
    }

    method CanInlineNow(b: Code, k: nat) returns (r: bool)
      requires |b.outside| == |b.insts| && k < |b.insts|
      ensures r == CanInline(b, k)
      ensures r <==> exists j: nat :: OnlyUse(b, k, j)
    {
      CanInlineExact(b, k);
      if Uses(b, k) == 1 {
        var cur := k + 1;
        while cur < |b.insts|
          invariant cur <= |b.insts|
          invariant Scan(b, k, k + 1) == Scan(b, k, cur)
        {
          if Count(Operands(b.insts[cur]), k) > 0 {
            return true;
          }
          if !ReadOnly(b.insts[cur]) {
            return false;
          }
          cur := cur + 1;
        }
      }
      return false;
    }

    method InlineOrCreateVariable(b: Code, i: nat, e: Expr)
      requires |b.outside| == |b.insts| && i < |b.insts|
      modifies this
      ensures State() == Bind(b, i, old(State()), e)
    {
      if e.ELit? && e.c >= 0 {
        exprMap := exprMap[i := e];
        return;
      }
      var inlinable := CanInlineNow(b, i);
      if inlinable {
        exprMap := exprMap[i := e];
        return;
      }
      var v := varCount;
      varCount := varCount + 1;
      expressions := expressions + [Declare(v)];
      expressions := expressions + [Assign(v, e)];
      exprMap := exprMap[i := EVar(v)];
    }

    method CreateExpressions(b: Code)
      requires WellFormed(b) && State() == Trans(map[], [], 0)
      modifies this
      ensures State() == Translated(b, |b.insts|)
    {
      for i := 0 to |b.insts|
        invariant State() == Translated(b, i)
      {
        match b.insts[i] {
          case Store(value, ptr) =>
            expressions := expressions + [StoreTo(OperandExpr(exprMap, ptr), OperandExpr(exprMap, value))];
          case Term(args) =>
            expressions := expressions + [Finish(OperandExprs(exprMap, args))];
          case Call(_, _) =>
            var e := ExprOf(exprMap, b.insts[i]);
            if Uses(b, i) == 0 {
              exprMap := exprMap[i := e];
              expressions := expressions + [Evaluate(e)];
            } else {
              InlineOrCreateVariable(b, i, e);
            }
          case _ =>
            InlineOrCreateVariable(b, i, ExprOf(exprMap, b.insts[i]));
        }
      }
    }
  }
}
