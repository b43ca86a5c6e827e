/** Which statements the translation of a block writes: a variable is declared for exactly those
    instructions whose value cannot wait for its one use and is no literal. */
module InliningStatements {
  import opened ExpressionInlining

  datatype Option<T> = None | Some(value: T)

  /** The value is used exactly once, later in the block, with only operations and loads on the way. */
  ghost predicate Waits(b: Code, k: nat)
    requires |b.outside| == |b.insts| && k < |b.insts|
  {
    exists j: nat :: OnlyUse(b, k, j)
  }

  ghost predicate NeverUsed(b: Code, k: nat)
    requires |b.outside| == |b.insts| && k < |b.insts|
  {
    b.outside[k] == 0 && forall m :: 0 <= m < |b.insts| ==> Ref(k) !in Operands(b.insts[m])
  }

  /** The literal that an instruction is a frozen copy of. */
  ghost function LiteralOf(b: Code, i: nat): Option<int>
    requires |b.outside| == |b.insts| && i < |b.insts|
  {
    match b.insts[i]
    case Freeze(Const(c)) => Some(c)
    case Freeze(Ref(k)) =>
      if k < i && LiteralOf(b, k).Some? && (LiteralOf(b, k).value >= 0 || Waits(b, k)) then LiteralOf(b, k) else None
    case _ => None
  }

  ghost predicate GetsVariable(b: Code, i: nat)
    requires |b.outside| == |b.insts| && i < |b.insts|
  {
    && !b.insts[i].Store? && !b.insts[i].Term? && !(b.insts[i].Call? && NeverUsed(b, i))
    && !Waits(b, i) && !(LiteralOf(b, i).Some? && LiteralOf(b, i).value >= 0)
  }

  ghost predicate LiteralBound(b: Code, i: nat, t: map<nat, Expr>)
    requires |b.outside| == |b.insts| && i < |b.insts|
  {
    && i in t
    && (t[i].ELit? <==> LiteralOf(b, i).Some? && (LiteralOf(b, i).value >= 0 || Waits(b, i)))
    && (t[i].ELit? ==> t[i].c == LiteralOf(b, i).value)
  }

  lemma {:induction false} LaterStepsKeep(b: Code, i: nat, n: nat)
    requires |b.outside| == |b.insts| && i < n < |b.insts|
    ensures i in Translated(b, n + 1).exprMap <==> i in Translated(b, n).exprMap
    ensures i in Translated(b, n).exprMap ==> Translated(b, n + 1).exprMap[i] == Translated(b, n).exprMap[i]
  {
  }

  lemma {:induction false} BoundHere(b: Code, i: nat)
    requires WellFormed(b) && i < |b.insts| && !b.insts[i].Store? && !b.insts[i].Term?
    requires var e := ExprOf(Translated(b, i).exprMap, b.insts[i]);
             (e.ELit? <==> LiteralOf(b, i).Some?) && (e.ELit? ==> e.c == LiteralOf(b, i).value)
    ensures LiteralBound(b, i, Translated(b, i + 1).exprMap)
  {
    CanInlineExact(b, i);
    UsedExactly(b, i);
  }

  /** Instruction `i` is bound to a literal exactly if it is a frozen one. */
  lemma {:induction false} BoundToLiteral(b: Code, i: nat, n: nat)
    requires WellFormed(b) && i < n <= |b.insts| && !b.insts[i].Store? && !b.insts[i].Term?
    ensures LiteralBound(b, i, Translated(b, n).exprMap)
    decreases n, 0
  {
    if i < n - 1 {
      BoundToLiteral(b, i, n - 1);
      LaterStepsKeep(b, i, n - 1);
    } else {
      LiteralHere(b, i);
      BoundHere(b, i);
      assert n == i + 1;
    }
  }

  /** The expression of instruction `i` is a literal exactly if the instruction is a frozen one. */
  lemma {:induction false} LiteralHere(b: Code, i: nat)
    requires WellFormed(b) && i < |b.insts| && !b.insts[i].Store? && !b.insts[i].Term?
    ensures var e := ExprOf(Translated(b, i).exprMap, b.insts[i]);
            && (e.ELit? <==> LiteralOf(b, i).Some?)
            && (e.ELit? ==> e.c == LiteralOf(b, i).value)
    decreases i, 1
  {
    if b.insts[i].Freeze? && b.insts[i].arg.Ref? {
      assert b.insts[i].arg in Operands(b.insts[i]);
      BoundToLiteral(b, b.insts[i].arg.def, i);
    }
  }

  lemma {:induction false} UsedExactly(b: Code, i: nat)
    requires |b.outside| == |b.insts| && i < |b.insts|
    ensures Uses(b, i) == 0 <==> NeverUsed(b, i)
  {
    NoUses(b, i, 0);
  }

  /** What is written for instruction `i`, and what it is bound to. */
  lemma {:induction false} StatementsExact(b: Code, i: nat)
    requires WellFormed(b) && i < |b.insts|
    ensures var t, t' := Translated(b, i), Translated(b, i + 1);
            var inst := b.insts[i];
            && t.stmts <= t'.stmts
            && var new_ := t'.stmts[|t.stmts|..];
               if GetsVariable(b, i) then
                 && new_ == [Declare(t.varCount), Assign(t.varCount, ExprOf(t.exprMap, inst))]
                 && t'.exprMap == t.exprMap[i := EVar(t.varCount)] && t'.varCount == t.varCount + 1
               else
                 && t'.varCount == t.varCount
                 && (inst.Store? ==> new_ == [StoreTo(OperandExpr(t.exprMap, inst.ptr), OperandExpr(t.exprMap, inst.value))])
                 && (inst.Term? ==> new_ == [Finish(OperandExprs(t.exprMap, inst.args))])
                 && (!inst.Store? && !inst.Term? ==>
                       && t'.exprMap == t.exprMap[i := ExprOf(t.exprMap, inst)]
                       && new_ == if inst.Call? && NeverUsed(b, i) then [Evaluate(ExprOf(t.exprMap, inst))] else [])
  {
    CanInlineExact(b, i);
    UsedExactly(b, i);
    if !b.insts[i].Store? && !b.insts[i].Term? {
      LiteralHere(b, i);
    }
  }
}
