/** Phi nodes become assignments, one after the other, at the end of each predecessor. LLVM's phi nodes
    take their values all at once; this module says exactly when the two are the same. */
module PhiAssignments {
  /** `Op` stands for the operations without side effects, loads among them. `Select` is `c ? t : f`, with
      the condition perhaps negated. */
  datatype Expr =
    | Var(v: nat)
    | Op(op: nat, args: seq<Expr>)
    | Call(fn: nat, args: seq<Expr>)
    | Select(cond: Expr, ifTrue: Expr, ifFalse: Expr, negate: bool)

  datatype Assignment = Assignment(v: nat, e: Expr)

  /** A phi node and its incoming values by predecessor. */
  datatype Phi = Phi(v: nat, incoming: seq<Incoming>)

  datatype Incoming = Incoming(block: nat, e: Expr)

  datatype Option<T> = None | Some(value: T)

  /** In the latch of a loop the update must not happen when the loop ends. */
  datatype Guard = Guard(cond: Expr, negate: bool)

  function Guarded(v: nat, e: Expr, guard: Option<Guard>): Assignment {
    Assignment(v, if guard.Some? then Select(guard.value.cond, e, Var(v), guard.value.negate) else e)
  }

  // ----- generating the assignments -----

  function FromPhi(phi: Phi, block: nat, guard: Option<Guard>, i: nat): seq<Assignment>
    requires i <= |phi.incoming|
    decreases |phi.incoming| - i
  {
    if i == |phi.incoming| then []
    else
      (if phi.incoming[i].block == block then [Guarded(phi.v, phi.incoming[i].e, guard)] else [])
      + FromPhi(phi, block, guard, i + 1)
  }

  function FromPhis(phis: seq<Phi>, block: nat, guard: Option<Guard>): seq<Assignment> {
    if phis == [] then [] else FromPhi(phis[0], block, guard, 0) + FromPhis(phis[1..], block, guard)
  }

  method GeneratePhiAssignments(phis: seq<Phi>, block: nat, guard: Option<Guard>) returns (exprs: seq<Assignment>)
    ensures exprs == FromPhis(phis, block, guard)
  {
    exprs := [];
    for k := 0 to |phis|
      invariant exprs + FromPhis(phis[k..], block, guard) == FromPhis(phis, block, guard)
    {
      var phi := phis[k];
      ghost var before := exprs;
      for i := 0 to |phi.incoming|
        invariant exprs + FromPhi(phi, block, guard, i) == before + FromPhi(phi, block, guard, 0)
      {
        if phi.incoming[i].block == block {
          exprs := exprs + [Guarded(phi.v, phi.incoming[i].e, guard)];
        }
      }
      assert phis[k..][1..] == phis[k + 1..];
      assert exprs == before + FromPhi(phi, block, guard, 0);
      assert FromPhis(phis[k..], block, guard) == FromPhi(phi, block, guard, 0) + FromPhis(phis[k + 1..], block, guard);
    }
  }

  /** A phi node may have several entries for one block, when several edges lead from it; LLVM demands
      that they give the same value. */
  predicate OneValueEach(phis: seq<Phi>, block: nat) {
    && (forall k, l :: 0 <= k < l < |phis| ==> phis[k].v != phis[l].v)
    && forall k :: 0 <= k < |phis| ==> forall i, j :: 0 <= i < j < |phis[k].incoming| ==>
         phis[k].incoming[i].block == block && phis[k].incoming[j].block == block ==> phis[k].incoming[i].e == phis[k].incoming[j].e
  }

  // ----- meaning -----

  /** The meaning of operations, calls and truth is arbitrary; calls change the memory. */
  datatype Machine<!V, !M> = Machine(
    op: (nat, M, seq<V>) -> V,
    call: (nat, M, seq<V>) -> (M, V),
    truth: V -> bool)

  type Env<!V> = nat -> V

  function Eval<V, M>(mc: Machine<V, M>, e: Expr, env: Env<V>, m: M): (M, V)
    decreases e, 0
  {
    match e
    case Var(v) => (m, env(v))
    case Op(op, args) => var r := EvalAll(mc, args, env, m); (r.0, mc.op(op, r.0, r.1))
    case Call(fn, args) => var r := EvalAll(mc, args, env, m); mc.call(fn, r.0, r.1)
    case Select(c, t, f, negate) =>
      var r := Eval(mc, c, env, m);
      if mc.truth(r.1) != negate then Eval(mc, t, env, r.0) else Eval(mc, f, env, r.0)
  }

  function EvalAll<V, M>(mc: Machine<V, M>, es: seq<Expr>, env: Env<V>, m: M): (r: (M, seq<V>))
    ensures |r.1| == |es|
    decreases es, 1
  {
    if es == [] then (m, [])
    else
      var r := Eval(mc, es[0], env, m);
      var q := EvalAll(mc, es[1..], env, r.0);
      (q.0, [r.1] + q.1)
  }

  function Update<V>(env: Env<V>, v: nat, x: V): Env<V> {
    (u: nat) => if u == v then x else env(u)
  }

  /** One assignment after the other. */
  function InOrder<V, M>(mc: Machine<V, M>, s: seq<Assignment>, env: Env<V>, m: M): (Env<V>, M) {
    if s == [] then (env, m)
    else
      var before := InOrder(mc, s[..|s| - 1], env, m);
      var r := Eval(mc, s[|s| - 1].e, before.0, before.1);
      (Update(before.0, s[|s| - 1].v, r.1), r.0)
  }

  /** All at once, as the LLVM Language Reference has it. */
  function AtOnce<V, M>(mc: Machine<V, M>, s: seq<Assignment>, env: Env<V>, m: M, u: nat): V {
    if s == [] then env(u)
    else if s[|s| - 1].v == u then Eval(mc, s[|s| - 1].e, env, m).1
    else AtOnce(mc, s[..|s| - 1], env, m, u)
  }

  predicate Reads(e: Expr, v: nat) {
    match e
    case Var(u) => u == v
    case Op(_, args) => exists i :: 0 <= i < |args| && Reads(args[i], v)
    case Call(_, args) => exists i :: 0 <= i < |args| && Reads(args[i], v)
    case Select(c, t, f, _) => Reads(c, v) || Reads(t, v) || Reads(f, v)
  }

  /** Evaluating the expression may make a call. */
  predicate Calls(e: Expr) {
    match e
    case Var(_) => false
    case Op(_, args) => exists i :: 0 <= i < |args| && Calls(args[i])
    case Call(_, _) => true
    case Select(c, t, f, _) => Calls(c) || Calls(t) || Calls(f)
  }

  /** Incoming values are variables, literals and constant expressions: what is used by a phi node is used
      outside of its block or before its own place, and is never kept as an expression. */
  predicate NoCalls(s: seq<Assignment>) {
    forall i :: 0 <= i < |s| ==> !Calls(s[i].e)
  }

  /** Whatever an assignment reads has not been changed by an earlier one. */
  predicate Safe(s: seq<Assignment>) {
    forall i, j :: 0 <= i < j < |s| && Reads(s[j].e, s[i].v) ==> s[i].e == Var(s[i].v)
  }

  lemma {:induction false} EvalAgrees<V, M>(mc: Machine<V, M>, e: Expr, a: Env<V>, b: Env<V>, m: M)
    requires forall v :: Reads(e, v) ==> a(v) == b(v)
    ensures Eval(mc, e, a, m) == Eval(mc, e, b, m)
    decreases e, 0
  {
    match e
    case Var(v) => assert Reads(e, v);
    case Select(c, t, f, _) =>
      forall v | Reads(c, v) || Reads(t, v) || Reads(f, v)
        ensures a(v) == b(v)
      {
        assert Reads(e, v);
      }
      EvalAgrees(mc, c, a, b, m);
      EvalAgrees(mc, t, a, b, Eval(mc, c, a, m).0);
      EvalAgrees(mc, f, a, b, Eval(mc, c, a, m).0);
    case _ =>
      forall v, i | 0 <= i < |e.args| && Reads(e.args[i], v)
        ensures a(v) == b(v)
      {
        assert Reads(e, v);
      }
      EvalAllAgrees(mc, e.args, a, b, m);
  }

  lemma {:induction false} EvalAllAgrees<V, M>(mc: Machine<V, M>, es: seq<Expr>, a: Env<V>, b: Env<V>, m: M)
    requires forall v, i :: 0 <= i < |es| && Reads(es[i], v) ==> a(v) == b(v)
    ensures EvalAll(mc, es, a, m) == EvalAll(mc, es, b, m)
    decreases es, 1
  {
    if es != [] {
      EvalAgrees(mc, es[0], a, b, m);
      forall v, i | 0 <= i < |es[1..]| && Reads(es[1..][i], v)
        ensures a(v) == b(v)
      {
        assert Reads(es[i + 1], v);
      }
      EvalAllAgrees(mc, es[1..], a, b, Eval(mc, es[0], a, m).0);
    }
  }

  /** Without calls, memory stays. */
  lemma {:induction false} MemoryStays<V, M>(mc: Machine<V, M>, e: Expr, env: Env<V>, m: M)
    requires !Calls(e)
    ensures Eval(mc, e, env, m).0 == m
    decreases e, 0
  {
    match e
    case Var(_) =>
    case Op(_, args) => MemoryStaysAll(mc, args, env, m);
    case Select(c, t, f, _) =>
      MemoryStays(mc, c, env, m);
      MemoryStays(mc, t, env, m);
      MemoryStays(mc, f, env, m);
  }

  lemma {:induction false} MemoryStaysAll<V, M>(mc: Machine<V, M>, es: seq<Expr>, env: Env<V>, m: M)
    requires forall i :: 0 <= i < |es| ==> !Calls(es[i])
    ensures EvalAll(mc, es, env, m).0 == m
    decreases es, 1
  {
    if es != [] {
      MemoryStays(mc, es[0], env, m);
      MemoryStaysAll(mc, es[1..], env, m);
    }
  }

  lemma {:induction false} OrderKeepsMemory<V, M>(mc: Machine<V, M>, s: seq<Assignment>, env: Env<V>, m: M)
    requires NoCalls(s)
    ensures InOrder(mc, s, env, m).1 == m
  {
    if s != [] {
      OrderKeepsMemory(mc, s[..|s| - 1], env, m);
      MemoryStays(mc, s[|s| - 1].e, InOrder(mc, s[..|s| - 1], env, m).0, m);
    }
  }

  /** What holds of a variable in the update: its own assignment decides, or nothing. */
  lemma {:induction false} AtOnceCases<V, M>(mc: Machine<V, M>, s: seq<Assignment>, env: Env<V>, m: M, u: nat)
    ensures || (AtOnce(mc, s, env, m, u) == env(u) && forall i :: 0 <= i < |s| ==> s[i].v != u)
            || exists i :: 0 <= i < |s| && s[i].v == u && AtOnce(mc, s, env, m, u) == Eval(mc, s[i].e, env, m).1
  {
    if s != [] && s[|s| - 1].v != u {
      AtOnceCases(mc, s[..|s| - 1], env, m, u);
    }
  }

  lemma {:induction false} SafePrefix(s: seq<Assignment>)
    requires Safe(s) && s != []
    ensures Safe(s[..|s| - 1])
  {
  }

  /** Safe assignments do in order what they would do at once, whatever the operations mean. */
  lemma {:induction false} SafeIsAtOnce<V, M>(mc: Machine<V, M>, s: seq<Assignment>, env: Env<V>, m: M, u: nat)
    requires Safe(s) && NoCalls(s)
    ensures InOrder(mc, s, env, m).0(u) == AtOnce(mc, s, env, m, u) && InOrder(mc, s, env, m).1 == m
  {
    OrderKeepsMemory(mc, s, env, m);
    if s != [] {
      var n := |s| - 1;
      var before := InOrder(mc, s[..n], env, m);
      OrderKeepsMemory(mc, s[..n], env, m);
      SafePrefix(s);
      forall v | Reads(s[n].e, v)
        ensures before.0(v) == env(v)
      {
        SafeIsAtOnce(mc, s[..n], env, m, v);
        AtOnceCases(mc, s[..n], env, m, v);
      }
      EvalAgrees(mc, s[n].e, before.0, env, m);
      SafeIsAtOnce(mc, s[..n], env, m, u);
    }
  }

  // ----- the emitted list -----

  /** Assignments to one variable stand together and are the same. */
  predicate Grouped(s: seq<Assignment>) {
    forall i, j :: 0 <= i < j < |s| && s[i].v == s[j].v ==> s[j - 1] == s[j]
  }

  lemma {:induction false} OneGroup(s: seq<Assignment>, i: nat, j: nat)
    requires Grouped(s) && i <= j < |s| && s[i].v == s[j].v
    ensures s[i] == s[j]
    decreases j
  {
    if i < j {
      assert s[j - 1] == s[j];
      OneGroup(s, i, j - 1);
    }
  }

  lemma {:induction false} GroupedPrefix(s: seq<Assignment>)
    requires Grouped(s) && s != []
    ensures Grouped(s[..|s| - 1])
  {
  }

  lemma {:induction false} FromOnePhi(phi: Phi, block: nat, k: nat, i: nat)
    requires k <= |phi.incoming| && i < |FromPhi(phi, block, None, k)|
    ensures FromPhi(phi, block, None, k)[i].v == phi.v
    ensures exists j :: k <= j < |phi.incoming| && phi.incoming[j].block == block && FromPhi(phi, block, None, k)[i].e == phi.incoming[j].e
    decreases |phi.incoming| - k
  {
    if phi.incoming[k].block != block {
      FromOnePhi(phi, block, k + 1, i);
    } else if i > 0 {
      FromOnePhi(phi, block, k + 1, i - 1);
    }
  }

  lemma {:induction false} PhiAssigned(phi: Phi, block: nat, k: nat, j: nat)
    requires k <= j < |phi.incoming| && phi.incoming[j].block == block
    ensures Assignment(phi.v, phi.incoming[j].e) in FromPhi(phi, block, None, k)
    decreases j - k
  {
    if k < j {
      PhiAssigned(phi, block, k + 1, j);
    }
  }

  lemma {:induction false} OneValueFromPhi(phi: Phi, block: nat, i: nat, j: nat)
    requires OneValueEach([phi], block)
    requires i < |FromPhi(phi, block, None, 0)| && j < |FromPhi(phi, block, None, 0)|
    ensures FromPhi(phi, block, None, 0)[i] == FromPhi(phi, block, None, 0)[j]
  {
    var s := FromPhi(phi, block, None, 0);
    FromOnePhi(phi, block, 0, i);
    FromOnePhi(phi, block, 0, j);
    var k :| 0 <= k < |phi.incoming| && phi.incoming[k].block == block && s[i].e == phi.incoming[k].e;
    var l :| 0 <= l < |phi.incoming| && phi.incoming[l].block == block && s[j].e == phi.incoming[l].e;
    assert [phi][0].incoming[k].e == [phi][0].incoming[l].e;
  }

  lemma {:induction false} TargetsArePhis(phis: seq<Phi>, block: nat, i: nat)
    requires i < |FromPhis(phis, block, None)|
    ensures exists k :: 0 <= k < |phis| && FromPhis(phis, block, None)[i].v == phis[k].v
  {
    var first := FromPhi(phis[0], block, None, 0);
    if i < |first| {
      FromOnePhi(phis[0], block, 0, i);
    } else {
      TargetsArePhis(phis[1..], block, i - |first|);
      var k :| 0 <= k < |phis[1..]| && FromPhis(phis[1..], block, None)[i - |first|].v == phis[1..][k].v;
      assert phis[k + 1] == phis[1..][k];
    }
  }

  lemma {:induction false} TargetsGrouped(phis: seq<Phi>, block: nat)
    requires OneValueEach(phis, block)
    ensures Grouped(FromPhis(phis, block, None))
  {
    if phis != [] {
      var s := FromPhis(phis, block, None);
      var first, rest := FromPhi(phis[0], block, None, 0), FromPhis(phis[1..], block, None);
      TargetsGrouped(phis[1..], block);
      forall i, j | 0 <= i < j < |s| && s[i].v == s[j].v
        ensures s[j - 1] == s[j]
      {
        if j < |first| {
          OneValueFromPhi(phis[0], block, j - 1, j);
        } else if i < |first| {
          FromOnePhi(phis[0], block, 0, i);
          TargetsArePhis(phis[1..], block, j - |first|);
        } else {
          assert rest[i - |first|].v == rest[j - |first|].v;
        }
      }
    }
  }

  lemma {:induction false} PhiIsAssigned(phis: seq<Phi>, block: nat, k: nat, i: nat)
    requires k < |phis| && i < |phis[k].incoming| && phis[k].incoming[i].block == block
    ensures Assignment(phis[k].v, phis[k].incoming[i].e) in FromPhis(phis, block, None)
  {
    if k == 0 {
      PhiAssigned(phis[0], block, 0, i);
    } else {
      PhiIsAssigned(phis[1..], block, k - 1, i);
    }
  }

  // ----- conditions on the phi nodes themselves -----

  /** What phi node `phi` receives from `block`, by one of its entries. */
  predicate Receives(phi: Phi, block: nat, e: Expr) {
    exists i :: 0 <= i < |phi.incoming| && phi.incoming[i].block == block && phi.incoming[i].e == e
  }

  /** A phi node reads, of those before it in the list, only such as keep their value. */
  ghost predicate ReadsKept(phis: seq<Phi>, block: nat, k: nat, l: nat)
    requires k < l < |phis|
  {
    forall d, e :: Receives(phis[k], block, d) && Receives(phis[l], block, e) && Reads(e, phis[k].v) ==> d == Var(phis[k].v)
  }

  /** Where several edges lead from the block, the assignment is repeated, so it must not read its own
      variable, except to keep it. */
  ghost predicate Repeatable(phi: Phi, block: nat) {
    forall i, j :: 0 <= i < j < |phi.incoming| && phi.incoming[i].block == block && phi.incoming[j].block == block ==>
      (Reads(phi.incoming[j].e, phi.v) ==> phi.incoming[i].e == Var(phi.v))
  }

  /** No phi node reads one that stands before it and changes. */
  ghost predicate PhisSafe(phis: seq<Phi>, block: nat) {
    && (forall k, l :: 0 <= k < l < |phis| ==> ReadsKept(phis, block, k, l))
    && forall k :: 0 <= k < |phis| ==> Repeatable(phis[k], block)
  }

  /** What comes from the block makes no call. */
  ghost predicate PhisNoCalls(phis: seq<Phi>, block: nat) {
    forall k, e :: 0 <= k < |phis| && Receives(phis[k], block, e) ==> !Calls(e)
  }

  ghost predicate PhisPlain(phis: seq<Phi>, block: nat) {
    forall k, e :: 0 <= k < |phis| && Receives(phis[k], block, e) ==> Plain(e)
  }

  /** Two entries of one phi node, in the order in which they are assigned. */
  lemma {:induction false} EntriesInOrder(phi: Phi, block: nat, k: nat, i: nat, j: nat)
    requires k <= |phi.incoming| && i < j < |FromPhi(phi, block, None, k)|
    ensures exists p, q :: k <= p < q < |phi.incoming| && phi.incoming[p].block == block && phi.incoming[q].block == block
              && FromPhi(phi, block, None, k)[i].e == phi.incoming[p].e && FromPhi(phi, block, None, k)[j].e == phi.incoming[q].e
    decreases |phi.incoming| - k
  {
    if phi.incoming[k].block != block {
      EntriesInOrder(phi, block, k + 1, i, j);
    } else if i > 0 {
      EntriesInOrder(phi, block, k + 1, i - 1, j - 1);
    } else {
      FromOnePhi(phi, block, k + 1, j - 1);
    }
  }

  ghost predicate Before(s: seq<Assignment>, x: Assignment, y: Assignment) {
    exists i, j :: 0 <= i < j < |s| && s[i] == x && s[j] == y
  }

  lemma {:induction false} BeforeRight(a: seq<Assignment>, b: seq<Assignment>, x: Assignment, y: Assignment)
    requires Before(b, x, y)
    ensures Before(a + b, x, y)
  {
    var i, j :| 0 <= i < j < |b| && b[i] == x && b[j] == y;
    assert (a + b)[|a| + i] == x && (a + b)[|a| + j] == y;
  }

  lemma {:induction false} BeforeLeft(a: seq<Assignment>, b: seq<Assignment>, x: Assignment, y: Assignment)
    requires Before(a, x, y)
    ensures Before(a + b, x, y)
  {
    var i, j :| 0 <= i < j < |a| && a[i] == x && a[j] == y;
    assert (a + b)[i] == x && (a + b)[j] == y;
  }

  lemma {:induction false} BeforeAcross(a: seq<Assignment>, b: seq<Assignment>, x: Assignment, y: Assignment)
    requires x in a && y in b
    ensures Before(a + b, x, y)
  {
    var i :| 0 <= i < |a| && a[i] == x;
    var j :| 0 <= j < |b| && b[j] == y;
    assert (a + b)[i] == x && (a + b)[|a| + j] == y;
  }

  /** And back: entries in order are assigned in order. */
  lemma {:induction false} EntriesAssigned(phi: Phi, block: nat, k: nat, p: nat, q: nat)
    requires k <= p < q < |phi.incoming| && phi.incoming[p].block == block && phi.incoming[q].block == block
    ensures Before(FromPhi(phi, block, None, k), Assignment(phi.v, phi.incoming[p].e), Assignment(phi.v, phi.incoming[q].e))
    decreases p - k
  {
    var x, y := Assignment(phi.v, phi.incoming[p].e), Assignment(phi.v, phi.incoming[q].e);
    var here := if phi.incoming[k].block == block then [Assignment(phi.v, phi.incoming[k].e)] else [];
    var t := FromPhi(phi, block, None, k + 1);
    assert FromPhi(phi, block, None, k) == here + t;
    if k < p {
      EntriesAssigned(phi, block, k + 1, p, q);
      BeforeRight(here, t, x, y);
    } else {
      PhiAssigned(phi, block, k + 1, q);
      BeforeAcross(here, t, x, y);
    }
  }

  /** Every emitted assignment is a phi node's, with what it receives. */
  lemma {:induction false} Origin(phis: seq<Phi>, block: nat, i: nat) returns (k: nat)
    requires i < |FromPhis(phis, block, None)|
    ensures k < |phis| && FromPhis(phis, block, None)[i].v == phis[k].v && Receives(phis[k], block, FromPhis(phis, block, None)[i].e)
  {
    var first := FromPhi(phis[0], block, None, 0);
    if i < |first| {
      FromOnePhi(phis[0], block, 0, i);
      k := 0;
    } else {
      var l := Origin(phis[1..], block, i - |first|);
      k := l + 1;
    }
  }

  lemma {:induction false} SafeTail(phis: seq<Phi>, block: nat)
    requires PhisSafe(phis, block) && phis != []
    ensures PhisSafe(phis[1..], block)
  {
    var rest := phis[1..];
    forall k, l | 0 <= k < l < |rest|
      ensures ReadsKept(rest, block, k, l)
    {
      assert ReadsKept(phis, block, k + 1, l + 1);
    }
    forall k | 0 <= k < |rest|
      ensures Repeatable(rest[k], block)
    {
      assert Repeatable(phis[k + 1], block);
    }
  }

  /** Phi nodes that are safe in their order give safe assignments. */
  lemma {:induction false} SafeFromPhis(phis: seq<Phi>, block: nat)
    requires PhisSafe(phis, block)
    ensures Safe(FromPhis(phis, block, None))
  {
    if phis != [] {
      var s, first, rest := FromPhis(phis, block, None), FromPhi(phis[0], block, None, 0), FromPhis(phis[1..], block, None);
      SafeTail(phis, block);
      SafeFromPhis(phis[1..], block);
      forall i, j | 0 <= i < j < |s| && Reads(s[j].e, s[i].v)
        ensures s[i].e == Var(s[i].v)
      {
        if j < |first| {
          EntriesInOrder(phis[0], block, 0, i, j);
          var p, q :| 0 <= p < q < |phis[0].incoming| && phis[0].incoming[p].block == block && phis[0].incoming[q].block == block
                      && first[i].e == phis[0].incoming[p].e && first[j].e == phis[0].incoming[q].e;
          FromOnePhi(phis[0], block, 0, i);
          assert Repeatable(phis[0], block);
        } else if i < |first| {
          FromOnePhi(phis[0], block, 0, i);
          var p :| 0 <= p < |phis[0].incoming| && phis[0].incoming[p].block == block && first[i].e == phis[0].incoming[p].e;
          assert Receives(phis[0], block, s[i].e);
          var l := Origin(phis[1..], block, j - |first|);
          assert phis[1..][l] == phis[l + 1] && s[j] == rest[j - |first|];
          assert ReadsKept(phis, block, 0, l + 1);
        } else {
          assert s[i] == rest[i - |first|] && s[j] == rest[j - |first|];
        }
      }
    }
  }

  lemma {:induction false} ReceivedIsAssigned(phis: seq<Phi>, block: nat, k: nat, e: Expr)
    requires k < |phis| && Receives(phis[k], block, e)
    ensures Assignment(phis[k].v, e) in FromPhis(phis, block, None)
  {
    var i :| 0 <= i < |phis[k].incoming| && phis[k].incoming[i].block == block && phis[k].incoming[i].e == e;
    PhiIsAssigned(phis, block, k, i);
  }

  /** What two phi nodes receive is assigned in the order of the nodes. */
  lemma {:induction false} AssignedInOrder(phis: seq<Phi>, block: nat, k: nat, l: nat, d: Expr, e: Expr)
    requires k < l < |phis| && Receives(phis[k], block, d) && Receives(phis[l], block, e)
    ensures Before(FromPhis(phis, block, None), Assignment(phis[k].v, d), Assignment(phis[l].v, e))
  {
    var x, y := Assignment(phis[k].v, d), Assignment(phis[l].v, e);
    var first, rest := FromPhi(phis[0], block, None, 0), FromPhis(phis[1..], block, None);
    assert FromPhis(phis, block, None) == first + rest;
    if k == 0 {
      var p :| 0 <= p < |phis[0].incoming| && phis[0].incoming[p].block == block && phis[0].incoming[p].e == d;
      PhiAssigned(phis[0], block, 0, p);
      ReceivedIsAssigned(phis[1..], block, l - 1, e);
      BeforeAcross(first, rest, x, y);
    } else {
      AssignedInOrder(phis[1..], block, k - 1, l - 1, d, e);
      BeforeRight(first, rest, x, y);
    }
  }

  lemma {:induction false} RepeatedInOrder(phis: seq<Phi>, block: nat, k: nat, p: nat, q: nat)
    requires k < |phis| && p < q < |phis[k].incoming| && phis[k].incoming[p].block == block && phis[k].incoming[q].block == block
    ensures Before(FromPhis(phis, block, None), Assignment(phis[k].v, phis[k].incoming[p].e), Assignment(phis[k].v, phis[k].incoming[q].e))
  {
    var x, y := Assignment(phis[k].v, phis[k].incoming[p].e), Assignment(phis[k].v, phis[k].incoming[q].e);
    var first, rest := FromPhi(phis[0], block, None, 0), FromPhis(phis[1..], block, None);
    assert FromPhis(phis, block, None) == first + rest;
    if k == 0 {
      EntriesAssigned(phis[0], block, 0, p, q);
      BeforeLeft(first, rest, x, y);
    } else {
      RepeatedInOrder(phis[1..], block, k - 1, p, q);
      BeforeRight(first, rest, x, y);
    }
  }

  /** The emitted assignments are safe exactly if the phi nodes are, in their order. */
  lemma {:induction false} SafePhisExact(phis: seq<Phi>, block: nat)
    ensures Safe(FromPhis(phis, block, None)) <==> PhisSafe(phis, block)
  {
    if PhisSafe(phis, block) {
      SafeFromPhis(phis, block);
    }
    if Safe(FromPhis(phis, block, None)) {
      forall k, l | 0 <= k < l < |phis|
        ensures ReadsKept(phis, block, k, l)
      {
        forall d, e | Receives(phis[k], block, d) && Receives(phis[l], block, e) && Reads(e, phis[k].v)
          ensures d == Var(phis[k].v)
        {
          AssignedInOrder(phis, block, k, l, d, e);
        }
      }
      forall k | 0 <= k < |phis|
        ensures Repeatable(phis[k], block)
      {
        forall i, j | 0 <= i < j < |phis[k].incoming| && phis[k].incoming[i].block == block && phis[k].incoming[j].block == block
                      && Reads(phis[k].incoming[j].e, phis[k].v)
          ensures phis[k].incoming[i].e == Var(phis[k].v)
        {
          RepeatedInOrder(phis, block, k, i, j);
        }
      }
    }
  }

  lemma {:induction false} NoCallsFromPhis(phis: seq<Phi>, block: nat)
    requires PhisNoCalls(phis, block)
    ensures NoCalls(FromPhis(phis, block, None))
  {
    forall i | 0 <= i < |FromPhis(phis, block, None)|
      ensures !Calls(FromPhis(phis, block, None)[i].e)
    {
      var k := Origin(phis, block, i);
    }
  }

  lemma {:induction false} PlainFromPhis(phis: seq<Phi>, block: nat)
    requires PhisPlain(phis, block)
    ensures AllPlain(FromPhis(phis, block, None))
  {
    forall i | 0 <= i < |FromPhis(phis, block, None)|
      ensures Plain(FromPhis(phis, block, None)[i].e)
    {
      var k := Origin(phis, block, i);
    }
  }

  /** The phi node of variable `u` receives a value from the block. */
  ghost predicate Changes(phis: seq<Phi>, block: nat, u: nat) {
    exists k, e :: 0 <= k < |phis| && phis[k].v == u && Receives(phis[k], block, e)
  }

  /** The phi update of an edge: each phi node has what it receives, as evaluated before, and nothing else
      has changed. */
  ghost predicate Updated<V(!new), M>(mc: Machine<V, M>, phis: seq<Phi>, block: nat, env: Env<V>, m: M, after: Env<V>) {
    && (forall k, e :: 0 <= k < |phis| && Receives(phis[k], block, e) ==> after(phis[k].v) == Eval(mc, e, env, m).1)
    && forall u :: !Changes(phis, block, u) ==> after(u) == env(u)
  }

  lemma {:induction false} AtOnceReceives<V, M>(mc: Machine<V, M>, phis: seq<Phi>, block: nat, env: Env<V>, m: M, k: nat, e: Expr)
    requires OneValueEach(phis, block) && k < |phis| && Receives(phis[k], block, e)
    ensures AtOnce(mc, FromPhis(phis, block, None), env, m, phis[k].v) == Eval(mc, e, env, m).1
  {
    var s := FromPhis(phis, block, None);
    TargetsGrouped(phis, block);
    ReceivedIsAssigned(phis, block, k, e);
    var j :| 0 <= j < |s| && s[j] == Assignment(phis[k].v, e);
    Assigned(mc, s, env, m, j);
  }

  lemma {:induction false} AtOnceKeeps<V, M>(mc: Machine<V, M>, phis: seq<Phi>, block: nat, env: Env<V>, m: M, u: nat)
    requires !Changes(phis, block, u)
    ensures AtOnce(mc, FromPhis(phis, block, None), env, m, u) == env(u)
  {
    var s := FromPhis(phis, block, None);
    forall i | 0 <= i < |s|
      ensures s[i].v != u
    {
      var k := Origin(phis, block, i);
    }
    NotAssigned(mc, s, env, m, u);
  }

  /** At once means: the phi update. */
  lemma {:induction false} AtOnceUpdates<V(!new), M>(mc: Machine<V, M>, phis: seq<Phi>, block: nat, env: Env<V>, m: M, after: Env<V>)
    requires OneValueEach(phis, block)
    ensures (forall u :: after(u) == AtOnce(mc, FromPhis(phis, block, None), env, m, u)) <==> Updated(mc, phis, block, env, m, after)
  {
    var s := FromPhis(phis, block, None);
    forall k, e | 0 <= k < |phis| && Receives(phis[k], block, e)
      ensures AtOnce(mc, s, env, m, phis[k].v) == Eval(mc, e, env, m).1
    {
      AtOnceReceives(mc, phis, block, env, m, k, e);
    }
    forall u | !Changes(phis, block, u)
      ensures AtOnce(mc, s, env, m, u) == env(u)
    {
      AtOnceKeeps(mc, phis, block, env, m, u);
    }
    if Updated(mc, phis, block, env, m, after) {
      forall u
        ensures after(u) == AtOnce(mc, s, env, m, u)
      {
        if Changes(phis, block, u) {
          var k, e :| 0 <= k < |phis| && phis[k].v == u && Receives(phis[k], block, e);
          AtOnceReceives(mc, phis, block, env, m, k, e);
        }
      }
    }
  }

  /** On an edge, the emitted assignments are the phi update, and leave memory alone, if no phi node reads
      one before it that changes. */
  lemma {:induction false} EdgeUpdate<V(!new), M>(mc: Machine<V, M>, phis: seq<Phi>, block: nat, env: Env<V>, m: M)
    requires OneValueEach(phis, block) && PhisNoCalls(phis, block) && PhisSafe(phis, block)
    ensures EdgeRight(mc, phis, block, env, m)
  {
    var s := FromPhis(phis, block, None);
    SafeFromPhis(phis, block);
    NoCallsFromPhis(phis, block);
    var after := InOrder(mc, s, env, m).0;
    OrderKeepsMemory(mc, s, env, m);
    forall u
      ensures after(u) == AtOnce(mc, s, env, m, u)
    {
      SafeIsAtOnce(mc, s, env, m, u);
    }
    AtOnceUpdates(mc, phis, block, env, m, after);
  }

  ghost predicate EdgeRight<V(!new), M>(mc: Machine<V, M>, phis: seq<Phi>, block: nat, env: Env<V>, m: M) {
    var after := InOrder(mc, FromPhis(phis, block, None), env, m);
    Updated(mc, phis, block, env, m, after.0) && after.1 == m
  }

  lemma {:induction false} EdgeAgrees<V(!new), M>(mc: Machine<V, M>, phis: seq<Phi>, block: nat, env: Env<V>, m: M)
    requires OneValueEach(phis, block)
    ensures var s := FromPhis(phis, block, None); EdgeRight(mc, phis, block, env, m) <==> Agree(mc, s, s, env, m)
  {
    AtOnceUpdates(mc, phis, block, env, m, InOrder(mc, FromPhis(phis, block, None), env, m).0);
  }

  /** For all meanings and all values they are, exactly under that condition. */
  lemma {:induction false} EdgeExact(phis: seq<Phi>, block: nat)
    requires OneValueEach(phis, block) && PhisNoCalls(phis, block) && PhisPlain(phis, block)
    ensures (forall mc: Machine<Expr, int>, env: Env<Expr>, m: int :: EdgeRight(mc, phis, block, env, m)) <==> PhisSafe(phis, block)
  {
    var s := FromPhis(phis, block, None);
    TargetsGrouped(phis, block);
    NoCallsFromPhis(phis, block);
    PlainFromPhis(phis, block);
    forall mc: Machine<Expr, int>, env: Env<Expr>, m: int
      ensures EdgeRight(mc, phis, block, env, m) <==> Agree(mc, s, s, env, m)
    {
      EdgeAgrees(mc, phis, block, env, m);
    }
    InOrderExact(s);
    SafePhisExact(phis, block);
  }

  /** `prev = cur; cur = next;`: the phi node that reads the other one stands first. */
  lemma {:induction false} ShiftedValues<V(!new), M>(mc: Machine<V, M>, env: Env<V>, m: M, phis: seq<Phi>)
    requires phis == [Phi(0, [Incoming(7, Var(1))]), Phi(1, [Incoming(7, Var(2))])]
    ensures PhisSafe(phis, 7) && FromPhis(phis, 7, None) == [Assignment(0, Var(1)), Assignment(1, Var(2))]
    ensures var after := InOrder(mc, FromPhis(phis, 7, None), env, m).0; after(0) == env(1) && after(1) == env(2)
  {
    assert forall k, e :: 0 <= k < 2 && Receives(phis[k], 7, e) ==> e == phis[k].incoming[0].e;
    assert PhisSafe(phis, 7);
    assert FromPhi(phis[0], 7, None, 0) == [Assignment(0, Var(1))] + FromPhi(phis[0], 7, None, 1) == [Assignment(0, Var(1))];
    assert FromPhi(phis[1], 7, None, 0) == [Assignment(1, Var(2))] + FromPhi(phis[1], 7, None, 1) == [Assignment(1, Var(2))];
    assert phis[1..] == [phis[1]] && [phis[1]][1..] == [];
    assert FromPhis([phis[1]], 7, None) == [Assignment(1, Var(2))] + [];
    var s := [Assignment(0, Var(1)), Assignment(1, Var(2))];
    assert FromPhis(phis, 7, None) == s;
    assert s[..1] == [Assignment(0, Var(1))] && s[..1][..0] == [];
    assert InOrder(mc, s[..1], env, m).0(1) == env(1) && InOrder(mc, s[..1], env, m).0(2) == env(2);
  }

  /** Several edges from one block repeat an assignment. Repeating is safe exactly for the variable itself
      and for expressions that do not read it; variables and literals are always such. */
  lemma {:induction false} RepeatedSafe(x: Assignment)
    ensures Safe([x, x]) <==> x.e == Var(x.v) || !Reads(x.e, x.v)
    ensures x.e.Var? || (x.e.Op? && x.e.args == []) ==> Safe([x, x])
  {
    var s := [x, x];
    if Reads(x.e, x.v) {
      assert Reads(s[1].e, s[0].v);
    }
  }

  // ----- exactly when -----

  /** Values are expressions: every operation builds its term. Memory counts the calls. */
  function Terms(truth: Expr -> bool): Machine<Expr, int> {
    Machine((op, m, args) => Op(op, args), (fn, m, args) => (m + 1, Call(fn, args)), truth)
  }

  function Itself(): Env<Expr> {
    (v: nat) => Var(v)
  }

  /** An expression of the IR; its selects are operations like others. */
  predicate Plain(e: Expr) {
    match e
    case Var(_) => true
    case Op(_, args) => forall i :: 0 <= i < |args| ==> Plain(args[i])
    case Call(_, args) => forall i :: 0 <= i < |args| ==> Plain(args[i])
    case Select(_, _, _, _) => false
  }

  predicate AllPlain(s: seq<Assignment>) {
    forall i :: 0 <= i < |s| ==> Plain(s[i].e)
  }

  predicate Distinct(s: seq<Assignment>) {
    forall i, j :: 0 <= i < j < |s| ==> s[i].v != s[j].v
  }

  /** A term is left alone by a substitution exactly if each of its variables is. */
  lemma {:induction false} TermFixed(truth: Expr -> bool, e: Expr, env: Env<Expr>, m: int)
    requires Plain(e)
    ensures Eval(Terms(truth), e, env, m).1 == e <==> forall v :: Reads(e, v) ==> env(v) == Var(v)
    decreases e, 0
  {
    if e.Var? {
      assert Reads(e, e.v);
    } else if e.Op? || e.Call? {
      TermsFixed(truth, e.args, env, m);
      if forall v, i :: 0 <= i < |e.args| && Reads(e.args[i], v) ==> env(v) == Var(v) {
        forall v | Reads(e, v)
          ensures env(v) == Var(v)
        {
          var i :| 0 <= i < |e.args| && Reads(e.args[i], v);
        }
      }
      forall v, i | 0 <= i < |e.args| && Reads(e.args[i], v)
        ensures Reads(e, v)
      {
      }
    }
  }

  lemma {:induction false} TermsFixed(truth: Expr -> bool, es: seq<Expr>, env: Env<Expr>, m: int)
    requires forall i :: 0 <= i < |es| ==> Plain(es[i])
    ensures EvalAll(Terms(truth), es, env, m).1 == es <==> forall v, i :: 0 <= i < |es| && Reads(es[i], v) ==> env(v) == Var(v)
    decreases es, 1
  {
    if es != [] {
      var first := Eval(Terms(truth), es[0], env, m);
      TermFixed(truth, es[0], env, m);
      TermsFixed(truth, es[1..], env, first.0);
      var r := EvalAll(Terms(truth), es, env, m).1;
      assert r[0] == first.1 && r[1..] == EvalAll(Terms(truth), es[1..], env, first.0).1;
      assert r == es <==> r[0] == es[0] && r[1..] == es[1..] by {
        assert es == [es[0]] + es[1..] && r == [r[0]] + r[1..];
      }
      assert forall i :: 0 < i < |es| ==> es[i] == es[1..][i - 1];
      assert forall i :: 0 <= i < |es[1..]| ==> es[1..][i] == es[i + 1];
    }
  }

  lemma {:induction false} ItselfFixed(truth: Expr -> bool, e: Expr, m: int)
    requires Plain(e)
    ensures Eval(Terms(truth), e, Itself(), m).1 == e
  {
    TermFixed(truth, e, Itself(), m);
  }

  lemma {:induction false} DistinctIsGrouped(s: seq<Assignment>)
    requires Distinct(s)
    ensures Grouped(s)
  {
  }

  lemma {:induction false} Assigned<V, M>(mc: Machine<V, M>, s: seq<Assignment>, env: Env<V>, m: M, i: nat)
    requires Grouped(s) && i < |s|
    ensures AtOnce(mc, s, env, m, s[i].v) == Eval(mc, s[i].e, env, m).1
  {
    if s[|s| - 1].v == s[i].v {
      OneGroup(s, i, |s| - 1);
    } else {
      GroupedPrefix(s);
      Assigned(mc, s[..|s| - 1], env, m, i);
    }
  }

  lemma {:induction false} NotAssigned<V, M>(mc: Machine<V, M>, s: seq<Assignment>, env: Env<V>, m: M, u: nat)
    requires forall i :: 0 <= i < |s| ==> s[i].v != u
    ensures AtOnce(mc, s, env, m, u) == env(u) && InOrder(mc, s, env, m).0(u) == env(u)
  {
    if s != [] {
      NotAssigned(mc, s[..|s| - 1], env, m, u);
    }
  }

  /** The assignments `s` do what `t` does at once, and leave memory alone. */
  ghost predicate Agree<V(!new), M>(mc: Machine<V, M>, s: seq<Assignment>, t: seq<Assignment>, env: Env<V>, m: M) {
    && InOrder(mc, s, env, m).1 == m
    && forall u :: InOrder(mc, s, env, m).0(u) == AtOnce(mc, t, env, m, u)
  }

  lemma {:induction false} PrefixAgrees(truth: Expr -> bool, s: seq<Assignment>)
    requires s != [] && Grouped(s) && NoCalls(s) && Plain(s[|s| - 1].e) && Agree(Terms(truth), s, s, Itself(), 0)
    ensures Agree(Terms(truth), s[..|s| - 1], s[..|s| - 1], Itself(), 0)
  {
    var mc, env := Terms(truth), Itself();
    var p, last := s[..|s| - 1], s[|s| - 1];
    OrderKeepsMemory(mc, p, env, 0);
    forall u
      ensures InOrder(mc, p, env, 0).0(u) == AtOnce(mc, p, env, 0, u)
    {
      assert InOrder(mc, s, env, 0).0(u) == AtOnce(mc, s, env, 0, u);
      if u == last.v {
        if p != [] && p[|p| - 1] == last {
          RepeatedFixed(truth, s);
        } else {
          NotAssigned(mc, p, env, 0, u);
        }
      }
    }
  }

  /** If the second of two equal assignments of a term has the right value, so has the first. */
  lemma {:induction false} RepeatedFixed(truth: Expr -> bool, s: seq<Assignment>)
    requires |s| >= 2 && s[|s| - 2] == s[|s| - 1] && NoCalls(s) && Plain(s[|s| - 1].e) && Agree(Terms(truth), s, s, Itself(), 0)
    ensures var p, v := s[..|s| - 1], s[|s| - 1].v;
            InOrder(Terms(truth), p, Itself(), 0).0(v) == AtOnce(Terms(truth), p, Itself(), 0, v)
  {
    var mc, env := Terms(truth), Itself();
    var last := s[|s| - 1];
    var p := s[..|s| - 1];
    var start := InOrder(mc, p[..|p| - 1], env, 0);
    var before := InOrder(mc, p, env, 0);
    OrderKeepsMemory(mc, p, env, 0);
    OrderKeepsMemory(mc, p[..|p| - 1], env, 0);
    assert p[|p| - 1] == last;
    assert before.0(last.v) == Eval(mc, last.e, start.0, 0).1;
    assert InOrder(mc, s, env, 0).0(last.v) == AtOnce(mc, s, env, 0, last.v);
    ItselfFixed(truth, last.e, 0);
    TermFixed(truth, last.e, before.0, 0);
    assert Eval(mc, last.e, before.0, 0).1 == last.e;
    if !Reads(last.e, last.v) {
      EvalAgrees(mc, last.e, before.0, start.0, 0);
    } else {
      assert before.0(last.v) == Var(last.v);
    }
  }

  /** If assigning terms in order is assigning them at once, the assignments are safe. */
  lemma {:induction false} OrderMatters(truth: Expr -> bool, s: seq<Assignment>)
    requires Grouped(s) && AllPlain(s) && NoCalls(s) && Agree(Terms(truth), s, s, Itself(), 0)
    ensures Safe(s)
  {
    if s != [] {
      var mc, env := Terms(truth), Itself();
      var n := |s| - 1;
      var p := s[..n];
      var before := InOrder(mc, p, env, 0).0;
      PrefixAgrees(truth, s);
      GroupedPrefix(s);
      OrderMatters(truth, p);
      OrderKeepsMemory(mc, p, env, 0);
      assert InOrder(mc, s, env, 0).0(s[n].v) == AtOnce(mc, s, env, 0, s[n].v);
      ItselfFixed(truth, s[n].e, 0);
      TermFixed(truth, s[n].e, before, 0);
      forall i | 0 <= i < n && Reads(s[n].e, s[i].v)
        ensures s[i].e == Var(s[i].v)
      {
        Assigned(mc, p, env, 0, i);
        ItselfFixed(truth, s[i].e, 0);
        assert before(s[i].v) == AtOnce(mc, p, env, 0, s[i].v);
      }
    }
  }

  /** The main result for an edge: the emitted assignments are the phi update, for all meanings of the
      operations and all values, exactly if they are safe. */
  lemma {:induction false} InOrderExact(s: seq<Assignment>)
    requires Grouped(s) && AllPlain(s) && NoCalls(s)
    ensures (forall mc: Machine<Expr, int>, env: Env<Expr>, m: int :: Agree(mc, s, s, env, m)) <==> Safe(s)
  {
    if Safe(s) {
      forall mc: Machine<Expr, int>, env: Env<Expr>, m: int
        ensures Agree(mc, s, s, env, m)
      {
        OrderKeepsMemory(mc, s, env, m);
        forall u
          ensures InOrder(mc, s, env, m).0(u) == AtOnce(mc, s, env, m, u)
        {
          SafeIsAtOnce(mc, s, env, m, u);
        }
      }
    }
    if forall mc: Machine<Expr, int>, env: Env<Expr>, m: int :: Agree(mc, s, s, env, m) {
      assert Agree(Terms(t => true), s, s, Itself(), 0);
      OrderMatters(t => true, s);
    }
  }

  /** Two phi nodes that exchange their values. */
  lemma {:induction false} SwapIsLost<V, M>(mc: Machine<V, M>, env: Env<V>, m: M)
    ensures var swap := [Assignment(0, Var(1)), Assignment(1, Var(0))];
            !Safe(swap) && AtOnce(mc, swap, env, m, 1) == env(0) && InOrder(mc, swap, env, m).0(1) == env(1)
  {
    var swap := [Assignment(0, Var(1)), Assignment(1, Var(0))];
    assert Reads(swap[1].e, swap[0].v);
    assert swap[..1] == [Assignment(0, Var(1))] && swap[..1][..0] == [];
    assert InOrder(mc, swap[..1], env, m).0(0) == env(1);
  }

  // ----- the latch of a loop -----

  function WithGuard(s: seq<Assignment>, g: Guard): seq<Assignment> {
    seq(|s|, i requires 0 <= i < |s| => Guarded(s[i].v, s[i].e, Some(g)))
  }

  lemma {:induction false} GuardedFromPhi(phi: Phi, block: nat, g: Guard, i: nat)
    requires i <= |phi.incoming|
    ensures FromPhi(phi, block, Some(g), i) == WithGuard(FromPhi(phi, block, None, i), g)
    decreases |phi.incoming| - i
  {
    if i < |phi.incoming| {
      GuardedFromPhi(phi, block, g, i + 1);
    }
  }

  /** The list emitted in a latch is the list of the edge, guarded. */
  lemma {:induction false} GuardedFromPhis(phis: seq<Phi>, block: nat, g: Guard)
    ensures FromPhis(phis, block, Some(g)) == WithGuard(FromPhis(phis, block, None), g)
  {
    if phis != [] {
      GuardedFromPhi(phis[0], block, g, 0);
      GuardedFromPhis(phis[1..], block, g);
    }
  }

  /** The guard still means the same when an assignment that matters is reached, and no call is made. */
  predicate GuardSafe(s: seq<Assignment>, cond: Expr) {
    && Safe(s)
    && (forall i, j :: 0 <= i < j < |s| && Reads(cond, s[i].v) && s[j].e != Var(s[j].v) ==> s[i].e == Var(s[i].v))
    && (s == [] || !Calls(cond))
  }

  predicate Decides<V, M>(mc: Machine<V, M>, g: Guard, x: V) {
    mc.truth(x) != g.negate
  }

  predicate Taken<V, M>(mc: Machine<V, M>, g: Guard, env: Env<V>, m: M) {
    Decides(mc, g, Eval(mc, g.cond, env, m).1)
  }

  lemma {:induction false} GuardPrefix(s: seq<Assignment>, g: Guard)
    requires s != []
    ensures WithGuard(s, g)[..|s| - 1] == WithGuard(s[..|s| - 1], g)
    ensures WithGuard(s, g)[|s| - 1] == Assignment(s[|s| - 1].v, Select(g.cond, s[|s| - 1].e, Var(s[|s| - 1].v), g.negate))
  {
  }

  lemma {:induction false} GuardStep<V, M>(mc: Machine<V, M>, s: seq<Assignment>, g: Guard, env: Env<V>, m: M, u: nat)
    requires s != []
    ensures var n := |s| - 1;
            var before := InOrder(mc, WithGuard(s[..n], g), env, m);
            var after := InOrder(mc, WithGuard(s, g), env, m);
            var c := Eval(mc, g.cond, before.0, before.1).0;
            var taken := Taken(mc, g, before.0, before.1);
            && after.0(u) == (if u == s[n].v && taken then Eval(mc, s[n].e, before.0, c).1 else before.0(u))
            && after.1 == (if taken then Eval(mc, s[n].e, before.0, c).0 else c)
  {
    GuardPrefix(s, g);
    var w := WithGuard(s, g);
    var before := InOrder(mc, w[..|w| - 1], env, m);
    var last := s[|s| - 1];
    var r := Eval(mc, w[|w| - 1].e, before.0, before.1);
    assert InOrder(mc, w, env, m) == (Update(before.0, last.v, r.1), r.0);
    assert Eval(mc, Var(last.v), before.0, Eval(mc, g.cond, before.0, before.1).0).1 == before.0(last.v);
  }

  /** Without calls, guarded assignments leave memory alone. */
  lemma {:induction false} GuardedKeepMemory<V, M>(mc: Machine<V, M>, s: seq<Assignment>, g: Guard, env: Env<V>, m: M)
    requires NoCalls(s) && !Calls(g.cond)
    ensures InOrder(mc, WithGuard(s, g), env, m).1 == m
  {
    OrderKeepsMemory(mc, WithGuard(s, g), env, m);
  }

  /** Leaving the loop: nothing changes, whatever variables the guard reads. */
  lemma {:induction false} NothingWhenLeaving<V, M>(mc: Machine<V, M>, s: seq<Assignment>, g: Guard, env: Env<V>, m: M, u: nat)
    requires !Taken(mc, g, env, m) && NoCalls(s) && !Calls(g.cond)
    ensures InOrder(mc, WithGuard(s, g), env, m).0(u) == env(u) && InOrder(mc, WithGuard(s, g), env, m).1 == m
  {
    GuardedKeepMemory(mc, s, g, env, m);
    if s != [] {
      var n := |s| - 1;
      var before := InOrder(mc, WithGuard(s[..n], g), env, m);
      GuardStep(mc, s, g, env, m, u);
      GuardedKeepMemory(mc, s[..n], g, env, m);
      forall v | Reads(g.cond, v)
        ensures before.0(v) == env(v)
      {
        NothingWhenLeaving(mc, s[..n], g, env, m, v);
      }
      EvalAgrees(mc, g.cond, before.0, env, m);
      NothingWhenLeaving(mc, s[..n], g, env, m, u);
    }
  }

  /** Taking the back edge: the update happens, all at once. */
  lemma {:induction false} UpdateWhenStaying<V, M>(mc: Machine<V, M>, s: seq<Assignment>, g: Guard, env: Env<V>, m: M, u: nat)
    requires Taken(mc, g, env, m) && GuardSafe(s, g.cond) && Distinct(s) && NoCalls(s)
    ensures InOrder(mc, WithGuard(s, g), env, m).0(u) == AtOnce(mc, s, env, m, u)
    ensures InOrder(mc, WithGuard(s, g), env, m).1 == m
  {
    if s != [] {
      GuardedKeepMemory(mc, s, g, env, m);
      var n := |s| - 1;
      var before := InOrder(mc, WithGuard(s[..n], g), env, m).0;
      var last := s[n];
      GuardedKeepMemory(mc, s[..n], g, env, m);
      MemoryStays(mc, g.cond, before, m);
      GuardStep(mc, s, g, env, m, u);
      UpdateWhenStaying(mc, s[..n], g, env, m, u);
      if u == last.v {
        NotAssigned(mc, s[..n], env, m, u);
        if last.e != Var(u) {
          forall v | Reads(g.cond, v) || Reads(last.e, v)
            ensures before(v) == env(v)
          {
            UpdateWhenStaying(mc, s[..n], g, env, m, v);
            AtOnceCases(mc, s[..n], env, m, v);
          }
          EvalAgrees(mc, g.cond, before, env, m);
          EvalAgrees(mc, last.e, before, env, m);
        }
      }
    }
  }

  /** How many calls the machine of terms counts. */
  function CallCount(e: Expr): nat
    decreases e, 0
  {
    match e
    case Op(_, args) => CallCounts(args)
    case Call(_, args) => CallCounts(args) + 1
    case _ => 0
  }

  function CallCounts(es: seq<Expr>): nat
    decreases es, 1
  {
    if es == [] then 0 else CallCount(es[0]) + CallCounts(es[1..])
  }

  lemma {:induction false} CallsCounted(truth: Expr -> bool, e: Expr, env: Env<Expr>, m: int)
    requires Plain(e)
    ensures Eval(Terms(truth), e, env, m).0 == m + CallCount(e) && (CallCount(e) > 0 <==> Calls(e))
    decreases e, 0
  {
    if !e.Var? {
      AllCallsCounted(truth, e.args, env, m);
    }
  }

  lemma {:induction false} AllCallsCounted(truth: Expr -> bool, es: seq<Expr>, env: Env<Expr>, m: int)
    requires forall i :: 0 <= i < |es| ==> Plain(es[i])
    ensures EvalAll(Terms(truth), es, env, m).0 == m + CallCounts(es)
    ensures CallCounts(es) > 0 <==> exists i :: 0 <= i < |es| && Calls(es[i])
    decreases es, 1
  {
    if es != [] {
      CallsCounted(truth, es[0], env, m);
      AllCallsCounted(truth, es[1..], env, m + CallCount(es[0]));
      if i :| 0 <= i < |es| && Calls(es[i]) {
        assert i > 0 ==> Calls(es[1..][i - 1]);
      }
      if i :| 0 <= i < |es[1..]| && Calls(es[1..][i]) {
        assert Calls(es[i + 1]);
      }
    }
  }

  /** Each guarded assignment makes the calls of the guard once more. */
  lemma {:induction false} GuardedCalls(truth: Expr -> bool, s: seq<Assignment>, g: Guard, env: Env<Expr>, m: int)
    requires NoCalls(s) && Plain(g.cond)
    ensures InOrder(Terms(truth), WithGuard(s, g), env, m).1 == m + |s| * CallCount(g.cond)
  {
    if s != [] {
      var mc, n := Terms(truth), |s| - 1;
      var before := InOrder(mc, WithGuard(s[..n], g), env, m);
      GuardedCalls(truth, s[..n], g, env, m);
      GuardStep(mc, s, g, env, m, 0);
      CallsCounted(truth, g.cond, before.0, before.1);
      MemoryStays(mc, s[n].e, before.0, Eval(mc, g.cond, before.0, before.1).0);
      assert |s| * CallCount(g.cond) == n * CallCount(g.cond) + CallCount(g.cond);
    }
  }

  lemma {:induction false} GuardCallFree(truth: Expr -> bool, s: seq<Assignment>, g: Guard)
    requires s != [] && Plain(g.cond) && NoCalls(s) && InOrder(Terms(truth), WithGuard(s, g), Itself(), 0).1 == 0
    ensures !Calls(g.cond)
  {
    GuardedCalls(truth, s, g, Itself(), 0);
    CallsCounted(truth, g.cond, Itself(), 0);
    assert |s| * CallCount(g.cond) == 0;
  }

  /** If the guarded assignments perform the update however truth is defined, the guard is safe. */
  lemma {:induction false} GuardMatters(s: seq<Assignment>, g: Guard)
    requires Distinct(s) && Plain(g.cond) && AllPlain(s) && NoCalls(s)
    requires Agree(Terms(t => (t == g.cond) != g.negate), WithGuard(s, g), s, Itself(), 0)
    ensures GuardSafe(s, g.cond)
  {
    if s != [] {
      var mc := Terms(t => (t == g.cond) != g.negate);
      var p := s[..|s| - 1];
      GuardCallFree(t => (t == g.cond) != g.negate, s, g);
      GuardPrefixAgrees(mc, s, g, Itself(), 0);
      GuardMatters(p, g);
      LastMatters(s, g);
      GuardSafeNext(s, g.cond);
    }
  }

  lemma {:induction false} GuardSafeNext(s: seq<Assignment>, cond: Expr)
    requires s != [] && GuardSafe(s[..|s| - 1], cond) && !Calls(cond)
    requires forall i :: 0 <= i < |s| - 1 && (Reads(s[|s| - 1].e, s[i].v) || (Reads(cond, s[i].v) && s[|s| - 1].e != Var(s[|s| - 1].v)))
               ==> s[i].e == Var(s[i].v)
    ensures GuardSafe(s, cond)
  {
    var p := s[..|s| - 1];
    assert forall i :: 0 <= i < |p| ==> p[i] == s[i];
  }

  lemma {:induction false} GuardPrefixAgrees<V(!new), M>(mc: Machine<V, M>, s: seq<Assignment>, g: Guard, env: Env<V>, m: M)
    requires s != [] && Distinct(s) && NoCalls(s) && !Calls(g.cond) && Agree(mc, WithGuard(s, g), s, env, m)
    ensures Agree(mc, WithGuard(s[..|s| - 1], g), s[..|s| - 1], env, m)
  {
    var p := s[..|s| - 1];
    GuardedKeepMemory(mc, p, g, env, m);
    forall u
      ensures InOrder(mc, WithGuard(p, g), env, m).0(u) == AtOnce(mc, p, env, m, u)
    {
      assert InOrder(mc, WithGuard(s, g), env, m).0(u) == AtOnce(mc, s, env, m, u);
      GuardStep(mc, s, g, env, m, u);
      if u == s[|s| - 1].v {
        GuardLeaves(mc, p, g, env, m, u);
        NotAssigned(mc, p, env, m, u);
      }
    }
  }

  lemma {:induction false} LastMatters(s: seq<Assignment>, g: Guard)
    requires s != [] && Distinct(s) && Plain(g.cond) && AllPlain(s) && NoCalls(s) && !Calls(g.cond)
    requires var mc := Terms(t => (t == g.cond) != g.negate);
             Agree(mc, WithGuard(s, g), s, Itself(), 0) && Agree(mc, WithGuard(s[..|s| - 1], g), s[..|s| - 1], Itself(), 0)
    ensures forall i :: 0 <= i < |s| - 1 && (Reads(s[|s| - 1].e, s[i].v) || (Reads(g.cond, s[i].v) && s[|s| - 1].e != Var(s[|s| - 1].v)))
              ==> s[i].e == Var(s[i].v)
  {
    var truth := t => (t == g.cond) != g.negate;
    var mc, env := Terms(truth), Itself();
    var n := |s| - 1;
    var p, last := s[..n], s[n];
    var before := InOrder(mc, WithGuard(p, g), env, 0).0;
    GuardedKeepMemory(mc, p, g, env, 0);
    MemoryStays(mc, g.cond, before, 0);
    assert InOrder(mc, WithGuard(s, g), env, 0).0(last.v) == AtOnce(mc, s, env, 0, last.v);
    GuardStep(mc, s, g, env, 0, last.v);
    GuardLeaves(mc, p, g, env, 0, last.v);
    ItselfFixed(truth, last.e, 0);
    TermFixed(truth, last.e, before, 0);
    TermFixed(truth, g.cond, before, 0);
    forall i | 0 <= i < n && (Reads(last.e, s[i].v) || (Reads(g.cond, s[i].v) && last.e != Var(last.v)))
      ensures s[i].e == Var(s[i].v)
    {
      ValueSet(s, g, i);
    }
  }

  /** What the guarded prefix leaves in the variable of its assignment `i`. */
  lemma {:induction false} ValueSet(s: seq<Assignment>, g: Guard, i: nat)
    requires i < |s| - 1 && Distinct(s) && AllPlain(s)
    requires Agree(Terms(t => (t == g.cond) != g.negate), WithGuard(s[..|s| - 1], g), s[..|s| - 1], Itself(), 0)
    ensures InOrder(Terms(t => (t == g.cond) != g.negate), WithGuard(s[..|s| - 1], g), Itself(), 0).0(s[i].v) == s[i].e
  {
    var truth := t => (t == g.cond) != g.negate;
    var p := s[..|s| - 1];
    DistinctIsGrouped(p);
    Assigned(Terms(truth), p, Itself(), 0, i);
    ItselfFixed(truth, s[i].e, 0);
  }

  lemma {:induction false} GuardLeaves<V, M>(mc: Machine<V, M>, s: seq<Assignment>, g: Guard, env: Env<V>, m: M, u: nat)
    requires forall i :: 0 <= i < |s| ==> s[i].v != u
    ensures InOrder(mc, WithGuard(s, g), env, m).0(u) == env(u)
  {
    if s != [] {
      GuardStep(mc, s, g, env, m, u);
      GuardLeaves(mc, s[..|s| - 1], g, env, m, u);
    }
  }

  /** The guarded assignments by themselves, before the loop evaluates its condition. */
  lemma {:induction false} GuardExact(s: seq<Assignment>, g: Guard)
    requires Distinct(s) && Plain(g.cond) && AllPlain(s) && NoCalls(s)
    ensures Agree(Terms(t => (t == g.cond) != g.negate), WithGuard(s, g), s, Itself(), 0) <==> GuardSafe(s, g.cond)
  {
    var truth := t => (t == g.cond) != g.negate;
    if GuardSafe(s, g.cond) {
      ItselfFixed(truth, g.cond, 0);
      assert Agree(Terms(truth), WithGuard(s, g), s, Itself(), 0) by {
        forall u
          ensures InOrder(Terms(truth), WithGuard(s, g), Itself(), 0).0(u) == AtOnce(Terms(truth), s, Itself(), 0, u)
          ensures InOrder(Terms(truth), WithGuard(s, g), Itself(), 0).1 == 0
        {
          UpdateWhenStaying(Terms(truth), s, g, Itself(), 0, u);
        }
        UpdateWhenStaying(Terms(truth), s, g, Itself(), 0, 0);
      }
    } else if Agree(Terms(truth), WithGuard(s, g), s, Itself(), 0) {
      GuardMatters(s, g);
    }
  }

  // ----- the latch and the test of the loop -----

  /** The guarded assignments are the last statements of a do-while, whose condition is the guard again.
      The IR evaluates the condition once. Then the loop must go on exactly if the back edge was to be taken;
      then the phi nodes have their new values, and otherwise nothing has changed; and memory is what one
      evaluation of the condition makes it. */
  ghost predicate LatchRight<V(!new), M>(mc: Machine<V, M>, s: seq<Assignment>, g: Guard, env: Env<V>, m: M) {
    var once := Eval(mc, g.cond, env, m);
    var after := InOrder(mc, WithGuard(s, g), env, m);
    var again := Eval(mc, g.cond, after.0, after.1);
    && again.0 == once.0
    && (Decides(mc, g, again.1) <==> Decides(mc, g, once.1))
    && forall u :: after.0(u) == if Decides(mc, g, once.1) then AtOnce(mc, s, env, once.0, u) else env(u)
  }

  /** The condition of the loop reads no phi variable that the latch changes, and if there are any
      assignments, it makes no call. */
  predicate LatchSafe(s: seq<Assignment>, cond: Expr) {
    && Safe(s)
    && (forall i :: 0 <= i < |s| && Reads(cond, s[i].v) ==> s[i].e == Var(s[i].v))
    && (s == [] || !Calls(cond))
  }

  lemma {:induction false} LatchIsRight<V(!new), M>(mc: Machine<V, M>, s: seq<Assignment>, g: Guard, env: Env<V>, m: M)
    requires LatchSafe(s, g.cond) && Distinct(s) && NoCalls(s)
    ensures LatchRight(mc, s, g, env, m)
  {
    if s != [] {
      var after := InOrder(mc, WithGuard(s, g), env, m);
      var taken := Taken(mc, g, env, m);
      MemoryStays(mc, g.cond, env, m);
      GuardedKeepMemory(mc, s, g, env, m);
      forall u
        ensures after.0(u) == if taken then AtOnce(mc, s, env, m, u) else env(u)
        ensures Reads(g.cond, u) ==> after.0(u) == env(u)
      {
        if taken {
          UpdateWhenStaying(mc, s, g, env, m, u);
          AtOnceCases(mc, s, env, m, u);
        } else {
          NothingWhenLeaving(mc, s, g, env, m, u);
        }
      }
      EvalAgrees(mc, g.cond, after.0, env, m);
    }
  }

  /** The main result for a latch: guarded assignments and loop test do what the back edge or the exit
      does, for all meanings and all values, exactly if the assignments are safe, the condition reads
      nothing that they change, and it makes no call where there are assignments. */
  lemma {:induction false} LatchExact(s: seq<Assignment>, g: Guard)
    requires Distinct(s) && Plain(g.cond) && AllPlain(s) && NoCalls(s)
    ensures (forall mc: Machine<Expr, int>, env: Env<Expr>, m: int :: LatchRight(mc, s, g, env, m)) <==> LatchSafe(s, g.cond)
  {
    if LatchSafe(s, g.cond) {
      forall mc: Machine<Expr, int>, env: Env<Expr>, m: int
        ensures LatchRight(mc, s, g, env, m)
      {
        LatchIsRight(mc, s, g, env, m);
      }
    }
    if forall mc: Machine<Expr, int>, env: Env<Expr>, m: int :: LatchRight(mc, s, g, env, m) {
      assert LatchRight(Terms(t => (t == g.cond) != g.negate), s, g, Itself(), 0);
      LatchMatters(s, g);
    }
  }

  /** Two evaluations of a call are one too many. */
  lemma {:induction false} CallsMatter(truth: Expr -> bool, s: seq<Assignment>, g: Guard)
    requires Plain(g.cond) && NoCalls(s) && s != [] && LatchRight(Terms(truth), s, g, Itself(), 0)
    ensures !Calls(g.cond)
  {
    var mc := Terms(truth);
    var after := InOrder(mc, WithGuard(s, g), Itself(), 0);
    CallsCounted(truth, g.cond, Itself(), 0);
    GuardedCalls(truth, s, g, Itself(), 0);
    CallsCounted(truth, g.cond, after.0, after.1);
    var c := CallCount(g.cond);
    assert |s| * c == 0;
  }

  lemma {:induction false} LatchMatters(s: seq<Assignment>, g: Guard)
    requires Distinct(s) && Plain(g.cond) && AllPlain(s) && NoCalls(s)
    requires LatchRight(Terms(t => (t == g.cond) != g.negate), s, g, Itself(), 0)
    ensures LatchSafe(s, g.cond)
  {
    if s != [] {
      var truth := t => (t == g.cond) != g.negate;
      var mc := Terms(truth);
      var after := InOrder(mc, WithGuard(s, g), Itself(), 0);
      CallsMatter(truth, s, g);
      MemoryStays(mc, g.cond, Itself(), 0);
      GuardedKeepMemory(mc, s, g, Itself(), 0);
      ItselfFixed(truth, g.cond, 0);
      assert Taken(mc, g, Itself(), 0);
      assert Agree(mc, WithGuard(s, g), s, Itself(), 0);
      GuardMatters(s, g);
      TermFixed(truth, g.cond, after.0, 0);
      forall i | 0 <= i < |s| && Reads(g.cond, s[i].v)
        ensures s[i].e == Var(s[i].v)
      {
        DistinctIsGrouped(s);
        Assigned(mc, s, Itself(), 0, i);
        ItselfFixed(truth, s[i].e, 0);
        assert after.0(s[i].v) == AtOnce(mc, s, Itself(), 0, s[i].v);
      }
    }
  }

  /** One edge leads from the latch to the header: its other one leaves the loop. */
  ghost predicate OneEntryEach(phis: seq<Phi>, block: nat) {
    && (forall k, l :: 0 <= k < l < |phis| ==> phis[k].v != phis[l].v)
    && forall k :: 0 <= k < |phis| ==> OneEntry(phis[k], block)
  }

  ghost predicate OneEntry(phi: Phi, block: nat) {
    forall i, j :: 0 <= i < j < |phi.incoming| ==> !(phi.incoming[i].block == block && phi.incoming[j].block == block)
  }

  lemma {:induction false} OneEntryDistinct(phis: seq<Phi>, block: nat)
    requires OneEntryEach(phis, block)
    ensures Distinct(FromPhis(phis, block, None)) && OneValueEach(phis, block)
    ensures forall k :: 0 <= k < |phis| ==> Repeatable(phis[k], block)
  {
    forall k | 0 <= k < |phis|
      ensures Repeatable(phis[k], block)
      ensures forall i, j :: 0 <= i < j < |phis[k].incoming| ==> !(phis[k].incoming[i].block == block && phis[k].incoming[j].block == block)
    {
      assert OneEntry(phis[k], block);
    }
    OneEntriesDistinct(phis, block);
  }

  lemma {:induction false} OneEntriesDistinct(phis: seq<Phi>, block: nat)
    requires OneEntryEach(phis, block)
    ensures Distinct(FromPhis(phis, block, None))
  {
    if phis != [] {
      var s, first, rest := FromPhis(phis, block, None), FromPhi(phis[0], block, None, 0), FromPhis(phis[1..], block, None);
      assert OneEntry(phis[0], block);
      forall k | 0 <= k < |phis[1..]|
        ensures OneEntry(phis[1..][k], block)
      {
        assert OneEntry(phis[k + 1], block);
      }
      OneEntriesDistinct(phis[1..], block);
      forall i, j | 0 <= i < j < |s|
        ensures s[i].v != s[j].v
      {
        if j < |first| {
          EntriesInOrder(phis[0], block, 0, i, j);
        } else if i < |first| {
          FromOnePhi(phis[0], block, 0, i);
          var l := Origin(phis[1..], block, j - |first|);
          assert phis[1..][l] == phis[l + 1] && s[j] == rest[j - |first|];
        } else {
          assert s[i] == rest[i - |first|] && s[j] == rest[j - |first|];
        }
      }
    }
  }

  /** The header's phi nodes are safe, the loop's condition reads none that changes, and if any of them
      receives a value from the latch, it makes no call. */
  ghost predicate HeaderSafe(phis: seq<Phi>, block: nat, cond: Expr) {
    && PhisSafe(phis, block)
    && forall k, e :: 0 <= k < |phis| && Receives(phis[k], block, e) ==> Allows(cond, phis[k].v, e)
  }

  /** The condition may be evaluated after `e` has been assigned to `v`. */
  predicate Allows(cond: Expr, v: nat, e: Expr) {
    !Calls(cond) && (Reads(cond, v) ==> e == Var(v))
  }

  /** Repeating or not is decided by one evaluation of the condition, of whose memory the loop goes on or is
      left; repeating, the phi nodes are updated, and otherwise nothing has changed. */
  ghost predicate LoopsRight<V(!new), M>(mc: Machine<V, M>, phis: seq<Phi>, block: nat, g: Guard, env: Env<V>, m: M) {
    var once := Eval(mc, g.cond, env, m);
    var after := InOrder(mc, FromPhis(phis, block, Some(g)), env, m);
    var again := Eval(mc, g.cond, after.0, after.1);
    && again.0 == once.0 && (Decides(mc, g, again.1) <==> Decides(mc, g, once.1))
    && (if Decides(mc, g, once.1) then Updated(mc, phis, block, env, once.0, after.0) else forall u :: after.0(u) == env(u))
  }

  lemma {:induction false} AssignedAllowed(phis: seq<Phi>, block: nat, cond: Expr, k: nat, e: Expr)
    requires LatchSafe(FromPhis(phis, block, None), cond) && k < |phis| && Receives(phis[k], block, e)
    ensures Allows(cond, phis[k].v, e)
  {
    var s := FromPhis(phis, block, None);
    ReceivedIsAssigned(phis, block, k, e);
    var j :| 0 <= j < |s| && s[j] == Assignment(phis[k].v, e);
    assert Reads(cond, s[j].v) ==> s[j].e == Var(s[j].v);
  }

  lemma {:induction false} AllowedAssigned(phis: seq<Phi>, block: nat, cond: Expr, i: nat)
    requires HeaderSafe(phis, block, cond) && i < |FromPhis(phis, block, None)|
    ensures var a := FromPhis(phis, block, None)[i]; Allows(cond, a.v, a.e)
  {
    var k := Origin(phis, block, i);
    assert Allows(cond, phis[k].v, FromPhis(phis, block, None)[i].e);
  }

  lemma {:induction false} HeaderSafeExact(phis: seq<Phi>, block: nat, cond: Expr)
    ensures LatchSafe(FromPhis(phis, block, None), cond) <==> HeaderSafe(phis, block, cond)
  {
    var s := FromPhis(phis, block, None);
    SafePhisExact(phis, block);
    if LatchSafe(s, cond) {
      forall k, e | 0 <= k < |phis| && Receives(phis[k], block, e)
        ensures Allows(cond, phis[k].v, e)
      {
        AssignedAllowed(phis, block, cond, k, e);
      }
    }
    if HeaderSafe(phis, block, cond) {
      forall i | 0 <= i < |s|
        ensures Allows(cond, s[i].v, s[i].e)
      {
        AllowedAssigned(phis, block, cond, i);
      }
      assert s != [] ==> Allows(cond, s[0].v, s[0].e);
      assert LatchSafe(s, cond);
    }
  }

  lemma {:induction false} LatchLoops<V(!new), M>(mc: Machine<V, M>, phis: seq<Phi>, block: nat, g: Guard, env: Env<V>, m: M)
    requires OneEntryEach(phis, block)
    ensures LoopsRight(mc, phis, block, g, env, m) <==> LatchRight(mc, FromPhis(phis, block, None), g, env, m)
  {
    var s := FromPhis(phis, block, None);
    OneEntryDistinct(phis, block);
    GuardedFromPhis(phis, block, g);
    var once := Eval(mc, g.cond, env, m);
    AtOnceUpdates(mc, phis, block, env, once.0, InOrder(mc, WithGuard(s, g), env, m).0);
  }

  /** What the latch emits for the phi nodes of the header, and the test after it. */
  lemma {:induction false} BackEdge<V(!new), M>(mc: Machine<V, M>, phis: seq<Phi>, block: nat, g: Guard, env: Env<V>, m: M)
    requires OneEntryEach(phis, block) && PhisNoCalls(phis, block) && HeaderSafe(phis, block, g.cond)
    ensures LoopsRight(mc, phis, block, g, env, m)
  {
    HeaderSafeExact(phis, block, g.cond);
    OneEntryDistinct(phis, block);
    NoCallsFromPhis(phis, block);
    LatchIsRight(mc, FromPhis(phis, block, None), g, env, m);
    LatchLoops(mc, phis, block, g, env, m);
  }

  /** For all meanings, values and memories it is right exactly under these conditions on the phi nodes. */
  lemma {:induction false} BackEdgeExact(phis: seq<Phi>, block: nat, g: Guard)
    requires OneEntryEach(phis, block) && PhisNoCalls(phis, block) && PhisPlain(phis, block) && Plain(g.cond)
    ensures (forall mc: Machine<Expr, int>, env: Env<Expr>, m: int :: LoopsRight(mc, phis, block, g, env, m)) <==> HeaderSafe(phis, block, g.cond)
  {
    var s := FromPhis(phis, block, None);
    HeaderSafeExact(phis, block, g.cond);
    OneEntryDistinct(phis, block);
    NoCallsFromPhis(phis, block);
    PlainFromPhis(phis, block);
    forall mc: Machine<Expr, int>, env: Env<Expr>, m: int
      ensures LoopsRight(mc, phis, block, g, env, m) <==> LatchRight(mc, s, g, env, m)
    {
      LatchLoops(mc, phis, block, g, env, m);
    }
    LatchExact(s, g);
  }

  // ----- two loops that go wrong -----

  lemma {:induction false} EvalOne<V, M>(mc: Machine<V, M>, e: Expr, env: Env<V>, m: M)
    ensures EvalAll(mc, [e], env, m) == (Eval(mc, e, env, m).0, [Eval(mc, e, env, m).1])
  {
    var r := Eval(mc, e, env, m);
    assert [e][0] == e && [e][1..] == [];
    assert EvalAll(mc, [e][1..], env, r.0) == (r.0, []);
    assert [r.1] + [] == [r.1];
  }

  /** `do { .. i = n; } while (i < 1)`, with the old value of `i` meant in the condition: with `i` 0 and
      `n` 1, LLVM repeats the loop and C leaves it, although the assignment itself is right. */
  lemma {:induction false} ConditionChanges<M>(mc: Machine<int, M>, env: Env<int>, m: M, s: seq<Assignment>, g: Guard)
    requires s == [Assignment(0, Var(1))] && g == Guard(Op(1, [Var(0)]), false)
    requires env(0) == 0 && env(1) == 1 && forall x: int :: mc.truth(mc.op(1, m, [x])) <==> x < 1
    ensures GuardSafe(s, g.cond) && !LatchSafe(s, g.cond) && Taken(mc, g, env, m)
    ensures var after := InOrder(mc, WithGuard(s, g), env, m);
            after.0(0) == AtOnce(mc, s, env, m, 0) == 1 && !Taken(mc, g, after.0, after.1)
  {
    assert g.cond.args[0] == Var(0) && Reads(g.cond, s[0].v);
    assert GuardSafe(s, g.cond);
    EvalOne(mc, Var(0), env, m);
    UpdateWhenStaying(mc, s, g, env, m, 0);
    DistinctIsGrouped(s);
    Assigned(mc, s, env, m, 0);
    EvalOne(mc, Var(0), InOrder(mc, WithGuard(s, g), env, m).0, m);
  }

  /** Memory counts the calls, and a call gives their number before it. */
  function Counter(): Machine<int, int> {
    Machine((op, m, args) => 0, (fn, m, args) => (m + 1, m), x => x < 1)
  }

  /** `do { i = n; } while (f())`: the call is made for the assignment and again for the test, and the second
      result ends a loop that LLVM repeats. */
  lemma {:induction false} CalledTwice(env: Env<int>, s: seq<Assignment>, g: Guard)
    requires s == [Assignment(0, Var(1))] && g == Guard(Call(7, []), false)
    ensures !LatchSafe(s, g.cond) && Safe(s)
    ensures var once := Eval(Counter(), g.cond, env, 0);
            var after := InOrder(Counter(), WithGuard(s, g), env, 0);
            var again := Eval(Counter(), g.cond, after.0, after.1);
            once == (1, 0) && again == (2, 1) && Decides(Counter(), g, once.1) && !Decides(Counter(), g, again.1)
  {
    var mc := Counter();
    assert forall a: Env<int>, m: int :: Eval(mc, g.cond, a, m) == (m + 1, m);
    GuardStep(mc, s, g, env, 0, 0);
    assert WithGuard(s[..0], g) == [];
    assert InOrder(mc, WithGuard(s[..0], g), env, 0) == (env, 0);
  }
}
