/** C expressions as trees, what they denote, and the two rewriting systems applied to them. */
module ExprTrees {
  /** `Op` stands for the strict operators and casts, `Stmt` for the statement nodes. */
  datatype Kind =
    | Var(x: nat)
    | Literal(c: int)
    | Ref
    | Deref
    | Field(i: nat)
    | Arrow(i: nat)
    | Index
    | Shift
    | Gep
    | Extract
    | Assign
    | Select(negate: bool)
    | LogicalAnd
    | LogicalOr
    | Call(f: nat)
    | Op(op: nat)
    | Initializer
    | Stmt(s: nat)

  datatype Tree = Tree(kind: Kind, kids: seq<Tree>)

  // ----- rewriting -----

  datatype Pass = RefDeref | Arrowify

  /** Whether `simplify` replaces an expression of kind `k` whose only child is of kind `child`. */
  predicate Matches(pass: Pass, k: Kind, child: Kind) {
    match pass
    case RefDeref => (k.Ref? && child.Deref?) || (k.Deref? && child.Ref?)
    case Arrowify => k.Field? && child.Deref?
  }

  predicate IsRedex(pass: Pass, k: Kind, kids: seq<Tree>) {
    |kids| == 1 && |kids[0].kids| == 1 && Matches(pass, k, kids[0].kind)
  }

  function Reduce(pass: Pass, k: Kind, kids: seq<Tree>): Tree {
    if !IsRedex(pass, k, kids) then Tree(k, kids)
    else
      match pass
      case RefDeref => kids[0].kids[0]
      case Arrowify => Tree(Arrow(k.i), kids[0].kids)
  }

  /** One simplification at the top. */
  function Once(pass: Pass, t: Tree): Tree {
    Reduce(pass, t.kind, t.kids)
  }

  /** The normal form: bottom-up, everywhere. */
  function Nf(pass: Pass, t: Tree): Tree {
    Reduce(pass, t.kind, seq(|t.kids|, i requires 0 <= i < |t.kids| => Nf(pass, t.kids[i])))
  }

  predicate Normal(pass: Pass, t: Tree) {
    !IsRedex(pass, t.kind, t.kids) && forall i :: 0 <= i < |t.kids| ==> Normal(pass, t.kids[i])
  }

  lemma {:induction false} NfNormal(pass: Pass, t: Tree)
    ensures Normal(pass, Nf(pass, t))
  {
    var kids := seq(|t.kids|, i requires 0 <= i < |t.kids| => Nf(pass, t.kids[i]));
    forall i | 0 <= i < |kids|
      ensures Normal(pass, kids[i])
    {
      NfNormal(pass, t.kids[i]);
    }
    if IsRedex(pass, t.kind, kids) {
      assert Normal(pass, kids[0]);
      assert Normal(pass, kids[0].kids[0]);
    }
  }

  lemma {:induction false} NormalNf(pass: Pass, t: Tree)
    requires Normal(pass, t)
    ensures Nf(pass, t) == t
  {
    var kids := seq(|t.kids|, i requires 0 <= i < |t.kids| => Nf(pass, t.kids[i]));
    forall i | 0 <= i < |kids|
      ensures kids[i] == t.kids[i]
    {
      NormalNf(pass, t.kids[i]);
    }
    assert kids == t.kids;
  }

  lemma {:induction false} NfUnary(pass: Pass, k: Kind, x: Tree)
    ensures Nf(pass, Tree(k, [x])) == Reduce(pass, k, [Nf(pass, x)])
  {
    var t := Tree(k, [x]);
    assert seq(|t.kids|, i requires 0 <= i < |t.kids| => Nf(pass, t.kids[i])) == [Nf(pass, x)];
  }

  /** Rewriting at the top does not change the normal form. */
  lemma {:induction false} PairCancels(k: Kind, x: Tree)
    requires k.Ref? || k.Deref?
    ensures Nf(RefDeref, Tree(k, [Tree(if k.Ref? then Deref else Ref, [x])])) == Nf(RefDeref, x)
  {
    var inner := if k.Ref? then Deref else Ref;
    NfUnary(RefDeref, inner, x);
    NfUnary(RefDeref, k, Tree(inner, [x]));
    NfNormal(RefDeref, x);
    var n := Nf(RefDeref, x);
    if IsRedex(RefDeref, inner, [n]) {
      var y := n.kids[0];
      assert n == Tree(k, [y]);
      assert !IsRedex(RefDeref, n.kind, n.kids);
    }
  }

  lemma {:induction false} ArrowReplaces(i: nat, x: Tree)
    ensures Nf(Arrowify, Tree(Field(i), [Tree(Deref, [x])])) == Nf(Arrowify, Tree(Arrow(i), [x]))
  {
    NfUnary(Arrowify, Deref, x);
    NfUnary(Arrowify, Field(i), Tree(Deref, [x]));
    NfUnary(Arrowify, Arrow(i), x);
  }

  // ----- what expressions denote -----

  /** Memory, addressing, operators and functions are arbitrary. */
  datatype Machine<!S> = Machine(
    addr: nat -> int,
    load: (S, int) -> int,
    store: (S, int, int) -> S,
    field: (int, nat) -> int,
    member: (int, nat) -> int,
    index: (int, int) -> int,
    shift: (int, int) -> int,
    op: (nat, seq<int>) -> int,
    aggregate: seq<int> -> int,
    call: (nat, S, seq<int>) -> (S, int))

  /** A member of a loaded aggregate is what is loaded from the member's address. */
  ghost predicate Lawful<S(!new)>(mc: Machine<S>) {
    forall s: S, a: int, i: nat :: mc.load(s, mc.field(a, i)) == mc.member(mc.load(s, a), i)
  }

  datatype Option = None | Some(value: int)

  predicate Lvalue(t: Tree) {
    match t.kind
    case Var(_) => true
    case Deref => |t.kids| == 1
    case Arrow(_) => |t.kids| == 1
    case Shift => |t.kids| == 2
    case Index => |t.kids| == 2
    case Field(_) => |t.kids| == 1 && Lvalue(t.kids[0])
    case Gep => |t.kids| > 0 && Lvalue(t.kids[|t.kids| - 1])
    case Extract => |t.kids| > 0 && Lvalue(t.kids[|t.kids| - 1])
    case _ => false
  }

  /** Operands of `&`, of `[]` and on the left of `=` must be lvalues. */
  predicate NeedsLvalue(k: Kind) {
    k.Ref? || k.Index? || k.Assign?
  }

  predicate Typed(t: Tree) {
    && (NeedsLvalue(t.kind) ==> |t.kids| > 0 && Lvalue(t.kids[0]))
    && forall i :: 0 <= i < |t.kids| ==> Typed(t.kids[i])
  }

  /** The location an lvalue designates, and the memory after finding it. */
  function Place<S>(mc: Machine<S>, t: Tree, s: S): (S, Option)
    decreases t, 0
  {
    match t.kind
    case Var(x) => (s, Some(mc.addr(x)))
    case Deref => if |t.kids| == 1 then var v := Value(mc, t.kids[0], s); (v.0, Some(v.1)) else (s, None)
    case Arrow(i) => if |t.kids| == 1 then var v := Value(mc, t.kids[0], s); (v.0, Some(mc.field(v.1, i))) else (s, None)
    case Shift =>
      if |t.kids| == 2 then
        var p := Value(mc, t.kids[0], s);
        var m := Value(mc, t.kids[1], p.0);
        (m.0, Some(mc.shift(p.1, m.1)))
      else (s, None)
    case Index =>
      if |t.kids| == 2 then
        var p := Place(mc, t.kids[0], s);
        var m := Value(mc, t.kids[1], p.0);
        (m.0, if p.1.Some? then Some(mc.index(p.1.value, m.1)) else None)
      else (s, None)
    case Field(i) =>
      if |t.kids| == 1 then
        var p := Place(mc, t.kids[0], s);
        (p.0, if p.1.Some? then Some(mc.field(p.1.value, i)) else None)
      else (s, None)
    case Gep => if |t.kids| > 0 then Place(mc, t.kids[|t.kids| - 1], s) else (s, None)
    case Extract => if |t.kids| > 0 then Place(mc, t.kids[|t.kids| - 1], s) else (s, None)
    case _ => (s, None)
  }

  /** The value of an expression, and the memory after computing it. */
  function Value<S>(mc: Machine<S>, t: Tree, s: S): (S, int)
    decreases t, 1
  {
    match t.kind
    case Literal(c) => (s, c)
    case Ref => if |t.kids| == 1 then var p := Place(mc, t.kids[0], s); (p.0, if p.1.Some? then p.1.value else 0) else (s, 0)
    case Field(i) =>
      if Lvalue(t) then Loaded(mc, Place(mc, t, s))
      else if |t.kids| == 1 then var v := Value(mc, t.kids[0], s); (v.0, mc.member(v.1, i))
      else (s, 0)
    case Gep => if |t.kids| > 0 then Value(mc, t.kids[|t.kids| - 1], s) else (s, 0)
    case Extract => if |t.kids| > 0 then Value(mc, t.kids[|t.kids| - 1], s) else (s, 0)
    case Assign =>
      if |t.kids| == 2 then
        var p := Place(mc, t.kids[0], s);
        var v := Value(mc, t.kids[1], p.0);
        (if p.1.Some? then mc.store(v.0, p.1.value, v.1) else v.0, v.1)
      else (s, 0)
    case Select(negate) =>
      if |t.kids| == 3 then
        var c := Value(mc, t.kids[2], s);
        if (c.1 != 0) != negate then Value(mc, t.kids[0], c.0) else Value(mc, t.kids[1], c.0)
      else (s, 0)
    case LogicalAnd =>
      if |t.kids| == 2 then
        var x := Value(mc, t.kids[0], s);
        if x.1 == 0 then (x.0, 0) else var y := Value(mc, t.kids[1], x.0); (y.0, if y.1 != 0 then 1 else 0)
      else (s, 0)
    case LogicalOr =>
      if |t.kids| == 2 then
        var x := Value(mc, t.kids[0], s);
        if x.1 != 0 then (x.0, 1) else var y := Value(mc, t.kids[1], x.0); (y.0, if y.1 != 0 then 1 else 0)
      else (s, 0)
    case Call(f) => var r := Values(mc, t.kids, s); mc.call(f, r.0, r.1)
    case Op(op) => var r := Values(mc, t.kids, s); (r.0, mc.op(op, r.1))
    case Initializer => var r := Values(mc, t.kids, s); (r.0, mc.aggregate(r.1))
    case Stmt(_) => (s, 0)
    case _ => Loaded(mc, Place(mc, t, s))
  }

  function Loaded<S>(mc: Machine<S>, p: (S, Option)): (S, int) {
    (p.0, if p.1.Some? then mc.load(p.0, p.1.value) else 0)
  }

  function Values<S>(mc: Machine<S>, ts: seq<Tree>, s: S): (S, seq<int>)
    decreases ts, 2
  {
    if ts == [] then (s, [])
    else
      var v := Value(mc, ts[0], s);
      var r := Values(mc, ts[1..], v.0);
      (r.0, [v.1] + r.1)
  }
}
