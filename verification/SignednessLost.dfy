/** From the IR's arithmetic to C: the builder notes which operations are signed, the propagation of types
    notes the operands' signedness instead, and the sign casts follow what is noted. This module says for
    every expression what C then computes, and exactly when that is what the IR computes. */
module SignednessLost {
  import opened CIntegers
  import opened ModularArithmetic
  import opened SignCasts
  import OverflowHelpers

  /** An operand has the signedness recorded for its variable. `signed` stands for `nsw`, `sdiv` and `srem`. */
  datatype Source =
    | Operand(v: nat, unsigned: bool)
    | Binary(op: ArithOp, signed: bool, left: Source, right: Source)
    | Logic(bit: BitOp, left: Source, right: Source)
    | Shift(signed: bool, left: Source, right: Source)

  /** The value by the LLVM Language Reference. */
  function Meaning(s: Source, w: Width, env: Env): (r: Option<nat>)
    ensures r.Some? ==> r.value < Modulus(w)
  {
    match s
    case Operand(v, _) => Some(Bits(env(v), w))
    case Binary(op, signed, l, r) =>
      var a, b := Meaning(l, w, env), Meaning(r, w, env);
      if a.None? || b.None? then None else LlvmArith(op, !signed, w, a.value, b.value)
    case Logic(op, l, r) =>
      var a, b := Meaning(l, w, env), Meaning(r, w, env);
      if a.None? || b.None? then None else Some(BitwiseValue(op, a.value, b.value, w))
    case Shift(signed, l, r) =>
      var a, b := Meaning(l, w, env), Meaning(r, w, env);
      if a.None? || b.None? then None else LlvmShl(!signed, w, a.value, b.value)
  }

  // ----- the passes -----

  function ToSigned(t: Tree): Tree {
    Tree(Cast, t.ty.(unsigned := false), [t])
  }

  function ToUnsigned(t: Tree): Tree {
    Tree(Cast, t.ty.(unsigned := true), [t])
  }

  /** A binary node is given the type of its left operand; signed operations cast both operands first. The
      count of a shift is cast to unsigned after that. */
  function Built(s: Source, w: Width): Tree {
    match s
    case Operand(v, unsigned) => Tree(Other(v, 0, 0), IntType(w, unsigned), [])
    case Binary(op, signed, l, r) =>
      var a, b := Built(l, w), Built(r, w);
      var x, y := if signed then ToSigned(a) else a, if signed then ToSigned(b) else b;
      Tree(Arith(op, !signed), x.ty, [x, y])
    case Logic(op, l, r) => Tree(Bitwise(op), Built(l, w).ty, [Built(l, w), Built(r, w)])
    case Shift(signed, l, r) =>
      var a, b := Built(l, w), Built(r, w);
      var x, y := if signed then ToSigned(a) else a, if signed then ToSigned(b) else b;
      Tree(Shl(!signed), x.ty, [x, ToUnsigned(y)])
  }

  /** Types are taken from the left operand again, and the flag of an arithmetic operation from its type. */
  function Propagated(t: Tree): (r: Tree)
    requires Uniform(t)
    ensures Uniform(r) && r.ty.width == t.ty.width && r.kind.Cmp? == t.kind.Cmp?
  {
    if t.kind.Other? then t
    else
      var kids := seq(|t.kids|, i requires 0 <= i < |t.kids| => Propagated(t.kids[i]));
      var ty := if t.kind.Arith? || t.kind.Bitwise? || t.kind.Shl? then kids[0].ty else t.ty;
      Tree(if t.kind.Arith? then Arith(t.kind.op, ty.unsigned) else t.kind, ty, kids)
  }

  /** No bitwise operation has an operand recorded as signed on the left and an unsigned one on the right, and
      the left operand of a shift is recorded with the sign of the shift. */
  predicate Unmixed(t: Tree) {
    && (t.kind.Bitwise? && |t.kids| == 2 ==> (t.kids[1].ty.unsigned ==> t.kids[0].ty.unsigned))
    && (t.kind.Shl? && |t.kids| == 2 ==> t.kids[0].ty.unsigned == t.kind.isUnsigned)
    && (!t.kind.Other? ==> forall i :: 0 <= i < |t.kids| ==> Unmixed(t.kids[i]))
  }

  /** The propagation of types establishes what the sign casts need. */
  lemma {:induction false} PropagatedWellTyped(t: Tree)
    requires Uniform(t)
    ensures WellTyped(Propagated(t)) <==> Unmixed(Propagated(t))
  {
    var p := Propagated(t);
    if !t.kind.Other? {
      forall i | 0 <= i < |t.kids|
        ensures WellTyped(p.kids[i]) <==> Unmixed(p.kids[i])
      {
        PropagatedWellTyped(t.kids[i]);
      }
    }
  }

  // ----- which signedness C uses -----

  /** Recorded as unsigned. */
  predicate Recorded(s: Source) {
    match s
    case Operand(_, unsigned) => unsigned
    case Binary(_, signed, l, _) => !signed && Recorded(l)
    case Logic(_, l, _) => Recorded(l)
    case Shift(signed, l, _) => !signed && Recorded(l)
  }

  /** Unsigned in C. `visited` says whether the expression is one to which the sign casts are added. */
  predicate Actual(s: Source, visited: bool)
    decreases s, 0
  {
    match s
    case Operand(_, unsigned) => unsigned
    case Binary(_, signed, l, r) => !signed && (Actual(l, visited) || ActualRight(r, visited))
    case Logic(_, l, r) => Actual(l, visited) || Actual(r, visited)
    case Shift(signed, l, _) => !signed && (visited || Actual(l, visited))
  }

  /** A right operand recorded as unsigned is cast to the signedness of the left one. */
  predicate ActualRight(s: Source, visited: bool)
    decreases s, 1
  {
    Actual(s, visited) && !(visited && Recorded(s))
  }

  lemma {:induction false} RecordedIsActual(s: Source, visited: bool)
    requires Recorded(s)
    ensures Actual(s, visited)
  {
    if !s.Operand? {
      RecordedIsActual(s.left, visited);
    }
  }

  /** What the three passes make of an expression. */
  function Passed(t: Tree, visited: bool): Tree
    requires Uniform(t)
  {
    if visited then WithCasts(Propagated(t)) else Propagated(t)
  }

  /** A shift as C does it: a signed one of a negative value is undefined. */
  function ShiftInC(unsigned: bool, w: Width, a: nat, b: nat): (r: Option<nat>)
    requires a < Modulus(w)
    ensures r.Some? ==> r.value < Modulus(w)
  {
    if !unsigned && SignedValue(a, w) < 0 then None else LlvmShl(unsigned, w, a, b)
  }

  /** The result of an operation in C from those of its operands. */
  function Combined(k: Kind, unsigned: bool, w: Width, x: Option<nat>, y: Option<nat>): (r: Option<nat>)
    requires k.Arith? || k.Bitwise? || k.Shl?
    requires (x.Some? ==> x.value < Modulus(w)) && (y.Some? ==> y.value < Modulus(w))
    ensures r.Some? ==> r.value < Modulus(w)
  {
    if x.None? || y.None? then None
    else
      match k
      case Arith(op, _) => LlvmArith(op, unsigned, w, x.value, y.value)
      case Bitwise(op) => Some(BitwiseValue(op, x.value, y.value, w))
      case Shl(_) => ShiftInC(unsigned, w, x.value, y.value)
  }

  function KindOf(s: Source): (k: Kind)
    requires !s.Operand?
    ensures k.Arith? || k.Bitwise? || k.Shl?
  {
    match s
    case Binary(op, signed, _, _) => Arith(op, !signed)
    case Logic(op, _, _) => Bitwise(op)
    case Shift(signed, _, _) => Shl(!signed)
  }

  /** The value when every operation has the signedness C gives it. */
  function Performed(s: Source, w: Width, env: Env, visited: bool): (r: Option<nat>)
    ensures r.Some? ==> r.value < Modulus(w)
  {
    if s.Operand? then Some(Bits(env(s.v), w))
    else Combined(KindOf(s), Actual(s, visited), w, Performed(s.left, w, env, visited), Performed(s.right, w, env, visited))
  }

  // ----- what C computes -----

  /** The tree for an operand of an operation, its C type and value. */
  ghost predicate IsTree(o: Tree, w: Width, recorded: bool, actual: bool, value: Option<nat>, env: Env)
    requires value.Some? ==> value.value < Modulus(w)
  {
    && Uniform(o) && !o.kind.Cmp? && o.ty == IntType(w, recorded)
    && Shaped(o) && CEval(o, env) == Typed(IntType(w, actual), value)
  }

  lemma {:induction false} CastIsTree(o: Tree, w: Width, recorded: bool, actual: bool, value: Option<nat>, env: Env, to: bool)
    requires (value.Some? ==> value.value < Modulus(w)) && IsTree(o, w, recorded, actual, value, env)
    ensures IsTree(Tree(Cast, IntType(w, to), [o]), w, to, to, value, env)
  {
    if value.Some? {
      ConvertedBits(value.value, IntType(w, actual), IntType(w, to));
    }
  }

  lemma {:induction false} NeededCast(o: Tree, w: Width, recorded: bool, actual: bool, value: Option<nat>, env: Env, to: bool)
    requires (value.Some? ==> value.value < Modulus(w)) && IsTree(o, w, recorded, actual, value, env)
    ensures IsTree(CastIfNeeded(o, to), w, to, if recorded == to then actual else to, value, env)
  {
    if recorded != to {
      CastIsTree(o, w, recorded, actual, value, env, to);
    }
  }

  /** The passes on a cast and on a binary node, child by child. */
  lemma {:induction false} PassedCast(t: Tree, visited: bool)
    requires Uniform(t) && t.kind.Cast?
    ensures Passed(t, visited) == Tree(Cast, t.ty, [Passed(t.kids[0], visited)])
  {
    assert Propagated(t) == Tree(Cast, t.ty, [Propagated(t.kids[0])]);
    assert WithCasts(Propagated(t)).kids == [WithCasts(Propagated(t.kids[0]))];
  }

  predicate IsPair(t: Tree) {
    (t.kind.Arith? || t.kind.Bitwise? || t.kind.Shl? || t.kind.Cmp?) && |t.kids| == 2
  }

  lemma {:induction false} PassedPair(t: Tree, visited: bool)
    requires Uniform(t) && IsPair(t)
    ensures var p := Passed(t, visited);
            && p.kind == Propagated(t).kind && p.ty == Propagated(t).ty && |p.kids| == 2
            && (!t.kind.Arith? ==> p.kind == t.kind)
            && (!t.kind.Cmp? ==> p.ty == Propagated(t.kids[0]).ty)
            && (t.kind.Arith? ==> p.kind == Arith(t.kind.op, p.ty.unsigned))
            && forall i :: 0 <= i < 2 ==>
                 var k := Passed(t.kids[i], visited);
                 p.kids[i] == if visited then KidOf(p.kind, k) else k
  {
  }

  /** An operation on two trees. In an arithmetic or bitwise one, C uses an unsigned type if either has one;
      in a shift it uses the left one's. */
  lemma {:induction false} PairIsTree(p: Tree, w: Width, r0: bool, r1: bool, a0: bool, a1: bool, x: Option<nat>, y: Option<nat>, env: Env)
    requires (x.Some? ==> x.value < Modulus(w)) && (y.Some? ==> y.value < Modulus(w)) && IsWide(w)
    requires |p.kids| == 2 && IsTree(p.kids[0], w, r0, a0, x, env) && IsTree(p.kids[1], w, r1, a1, y, env)
    requires (p.kind.Arith? || p.kind.Bitwise? || p.kind.Shl?) && p.ty.width == w
    ensures var u := a0 || (!p.kind.Shl? && a1);
            IsTree(p, w, p.ty.unsigned, u, Combined(p.kind, u, w, x, y), env)
  {
    PairUniform(p, w);
    UniformShaped(p);
    if x.Some? && y.Some? {
      PairComputes(p.kind, w, a0, a1, x.value, y.value);
    }
  }

  lemma {:induction false} PairUniform(p: Tree, w: Width)
    requires IsPair(p) && p.ty.width == w
    requires forall i :: 0 <= i < 2 ==> Uniform(p.kids[i]) && !p.kids[i].kind.Cmp? && p.kids[i].ty.width == w
    ensures Uniform(p)
  {
  }

  /** C's operator on two values. */
  function COperator(k: Kind, c: CValue, d: CValue): Option<CValue>
    requires k.Arith? || k.Bitwise? || k.Shl?
  {
    match k
    case Arith(op, _) => CArith(op, c, d)
    case Bitwise(op) => Some(CBitwise(op, c, d))
    case Shl(_) => CShl(c, d)
  }

  lemma {:induction false} PairComputes(k: Kind, w: Width, a0: bool, a1: bool, a: nat, b: nat)
    requires (k.Arith? || k.Bitwise? || k.Shl?) && IsWide(w) && a < Modulus(w) && b < Modulus(w)
    ensures var s, t, u := IntType(w, a0), IntType(w, a1), a0 || (!k.Shl? && a1);
            COperator(k, CValue(s, Interpret(a, s)), CValue(t, Interpret(b, t))) == Typed(IntType(w, u), Combined(k, u, w, Some(a), Some(b)))
  {
    var s, t := IntType(w, a0), IntType(w, a1);
    BothConverted(a, s, b, t);
    match k
    case Arith(op, _) => ArithComputes(op, a, s, b, t);
    case Bitwise(op) => BitwiseComputes(op, a, s, b, t);
    case Shl(_) => ShlComputes(a, s, b, t);
  }

  lemma {:induction false} BuiltUniform(s: Source, w: Width)
    ensures var t := Built(s, w); Uniform(t) && t.ty.width == w && !t.kind.Cmp? && (!s.Operand? ==> IsPair(t))
  {
    if !s.Operand? {
      BuiltUniform(s.left, w);
      BuiltUniform(s.right, w);
      var t := Built(s, w);
      forall i | 0 <= i < 2
        ensures Uniform(t.kids[i]) && !t.kids[i].kind.Cmp? && t.kids[i].ty.width == w
      {
        if i == 0 {
          CastsUniform(Built(s.left, w));
        } else {
          CastsUniform(Built(s.right, w));
          CastsUniform(ToSigned(Built(s.right, w)));
        }
      }
      PairUniform(t, w);
    }
  }

  lemma {:induction false} CastsUniform(t: Tree)
    requires Uniform(t) && !t.kind.Cmp?
    ensures Uniform(ToSigned(t)) && Uniform(ToUnsigned(t))
  {
  }

  /** What an operand has become: cast by the builder or not, and passed on. */
  lemma {:induction false} OperandTree(t: Tree, w: Width, recorded: bool, actual: bool, value: Option<nat>, env: Env, visited: bool)
    requires (value.Some? ==> value.value < Modulus(w)) && Uniform(t) && !t.kind.Cmp? && t.ty.width == w
    requires IsTree(Passed(t, visited), w, recorded, actual, value, env)
    ensures Uniform(ToSigned(t)) && IsTree(Passed(ToSigned(t), visited), w, false, false, value, env)
    ensures Uniform(ToUnsigned(t)) && IsTree(Passed(ToUnsigned(t), visited), w, true, true, value, env)
  {
    CastsUniform(t);
    PassedCast(ToSigned(t), visited);
    PassedCast(ToUnsigned(t), visited);
    CastIsTree(Passed(t, visited), w, recorded, actual, value, env, false);
    CastIsTree(Passed(t, visited), w, recorded, actual, value, env, true);
  }

  /** A node over operands that are known: what it has become. */
  lemma {:induction false} NodeTree(t: Tree, w: Width, r0: bool, r1: bool, a0: bool, a1: bool, x: Option<nat>, y: Option<nat>,
                                    env: Env, visited: bool)
    requires (x.Some? ==> x.value < Modulus(w)) && (y.Some? ==> y.value < Modulus(w)) && IsWide(w)
    requires Uniform(t) && IsPair(t) && !t.kind.Cmp? && t.ty.width == w
    requires IsTree(Passed(t.kids[0], visited), w, r0, a0, x, env) && IsTree(Passed(t.kids[1], visited), w, r1, a1, y, env)
    requires r0 ==> a0
    ensures var flag := if t.kind.Shl? then t.kind.isUnsigned else r0;
            var left := if visited && t.kind.Shl? && flag != r0 then flag else a0;
            var right := if visited && t.kind.Arith? && flag != r1 then flag else a1;
            var u := left || (!t.kind.Shl? && right);
            IsTree(Passed(t, visited), w, r0, u, Combined(t.kind, u, w, x, y), env)
  {
    PassedPair(t, visited);
    var p := Passed(t, visited);
    assert p.ty == IntType(w, r0) by {
      assert Propagated(t.kids[0]).ty == Passed(t.kids[0], visited).ty;
    }
    var flag := if t.kind.Shl? then t.kind.isUnsigned else r0;
    if visited && CastsKids(p.kind) {
      NeededCast(Passed(t.kids[0], true), w, r0, a0, x, env, flag);
      NeededCast(Passed(t.kids[1], true), w, r1, a1, y, env, flag);
      PairIsTree(p, w, flag, flag, if r0 == flag then a0 else flag, if r1 == flag then a1 else flag, x, y, env);
    } else {
      PairIsTree(p, w, r0, r1, a0, a1, x, y, env);
    }
    assert forall u: bool :: Combined(p.kind, u, w, x, y) == Combined(t.kind, u, w, x, y);
  }

  /** What C computes for the expression after all passes: its type, and its value. */
  lemma {:induction false} PassedIsTree(s: Source, w: Width, env: Env, visited: bool)
    requires IsWide(w)
    ensures Uniform(Built(s, w))
    ensures IsTree(Passed(Built(s, w), visited), w, Recorded(s), Actual(s, visited), Performed(s, w, env, visited), env)
  {
    BuiltUniform(s, w);
    var t := Built(s, w);
    if s.Operand? {
      assert WithCasts(t).kids == [];
    } else {
      PassedIsTree(s.left, w, env, visited);
      PassedIsTree(s.right, w, env, visited);
      OperationIsTree(s, w, env, visited);
    }
  }

  ghost predicate Known(s: Source, w: Width, env: Env, visited: bool) {
    && Uniform(Built(s, w)) && Built(s, w).ty.width == w && !Built(s, w).kind.Cmp? && (Recorded(s) ==> Actual(s, visited))
    && IsTree(Passed(Built(s, w), visited), w, Recorded(s), Actual(s, visited), Performed(s, w, env, visited), env)
  }

  lemma {:induction false} OperationIsTree(s: Source, w: Width, env: Env, visited: bool)
    requires IsWide(w) && !s.Operand? && Uniform(Built(s, w)) && Uniform(Built(s.left, w)) && Uniform(Built(s.right, w))
    requires IsTree(Passed(Built(s.left, w), visited), w, Recorded(s.left), Actual(s.left, visited), Performed(s.left, w, env, visited), env)
    requires IsTree(Passed(Built(s.right, w), visited), w, Recorded(s.right), Actual(s.right, visited), Performed(s.right, w, env, visited), env)
    ensures IsTree(Passed(Built(s, w), visited), w, Recorded(s), Actual(s, visited), Performed(s, w, env, visited), env)
  {
    BuiltUniform(s, w);
    BuiltUniform(s.left, w);
    BuiltUniform(s.right, w);
    if Recorded(s.left) {
      RecordedIsActual(s.left, visited);
    }
    if Recorded(s.right) {
      RecordedIsActual(s.right, visited);
    }
    if s.Shift? {
      ShiftIsTree(s, w, env, visited);
    } else if s.Binary? && s.signed {
      SignedIsTree(s, w, env, visited);
    } else {
      PlainIsTree(s, w, env, visited);
    }
  }

  /** Operands as they are. */
  lemma {:induction false} PlainIsTree(s: Source, w: Width, env: Env, visited: bool)
    requires IsWide(w) && (s.Logic? || (s.Binary? && !s.signed)) && Uniform(Built(s, w)) && IsPair(Built(s, w))
    requires Known(s.left, w, env, visited) && Known(s.right, w, env, visited)
    ensures IsTree(Passed(Built(s, w), visited), w, Recorded(s), Actual(s, visited), Performed(s, w, env, visited), env)
  {
    NodeTree(Built(s, w), w, Recorded(s.left), Recorded(s.right), Actual(s.left, visited), Actual(s.right, visited),
             Performed(s.left, w, env, visited), Performed(s.right, w, env, visited), env, visited);
  }

  /** Both operands cast to signed. */
  lemma {:induction false} SignedIsTree(s: Source, w: Width, env: Env, visited: bool)
    requires IsWide(w) && s.Binary? && s.signed && Uniform(Built(s, w)) && IsPair(Built(s, w))
    requires Known(s.left, w, env, visited) && Known(s.right, w, env, visited)
    ensures IsTree(Passed(Built(s, w), visited), w, Recorded(s), Actual(s, visited), Performed(s, w, env, visited), env)
  {
    var x, y := Performed(s.left, w, env, visited), Performed(s.right, w, env, visited);
    OperandTree(Built(s.left, w), w, Recorded(s.left), Actual(s.left, visited), x, env, visited);
    OperandTree(Built(s.right, w), w, Recorded(s.right), Actual(s.right, visited), y, env, visited);
    NodeTree(Built(s, w), w, false, false, false, false, x, y, env, visited);
  }

  /** The count is cast to unsigned, both operands to signed before if the shift is. */
  lemma {:induction false} ShiftIsTree(s: Source, w: Width, env: Env, visited: bool)
    requires IsWide(w) && s.Shift? && Uniform(Built(s, w)) && IsPair(Built(s, w))
    requires Known(s.left, w, env, visited) && Known(s.right, w, env, visited)
    ensures IsTree(Passed(Built(s, w), visited), w, Recorded(s), Actual(s, visited), Performed(s, w, env, visited), env)
  {
    var x, y := Performed(s.left, w, env, visited), Performed(s.right, w, env, visited);
    var r := Built(s.right, w);
    OperandTree(r, w, Recorded(s.right), Actual(s.right, visited), y, env, visited);
    if s.signed {
      OperandTree(Built(s.left, w), w, Recorded(s.left), Actual(s.left, visited), x, env, visited);
      OperandTree(ToSigned(r), w, false, false, y, env, visited);
      NodeTree(Built(s, w), w, false, true, false, true, x, y, env, visited);
    } else {
      NodeTree(Built(s, w), w, Recorded(s.left), true, Actual(s.left, visited), true, x, y, env, visited);
    }
  }

  /** After all passes: what C computes, with the type C gives it. */
  lemma {:induction false} CPerforms(s: Source, w: Width, env: Env, visited: bool)
    requires IsWide(w)
    ensures Uniform(Built(s, w)) && Shaped(Passed(Built(s, w), visited))
    ensures CEval(Passed(Built(s, w), visited), env) == Typed(IntType(w, Actual(s, visited)), Performed(s, w, env, visited))
  {
    PassedIsTree(s, w, env, visited);
  }

  // ----- when signedness does not matter -----

  /** Signed and unsigned division give the same bits: both operands have their top bit clear, or the
      dividend alone has it and is divided by one, or the divisor alone has it and is larger in magnitude,
      or the operands are equal. `h` is half the modulus `m`. */
  predicate DivHarmless(m: int, h: int, a: nat, b: nat) {
    if a < h && b < h then true
    else if a >= h && b >= h then a == b
    else if a < h then a + b < m
    else b == 1
  }

  predicate RemHarmless(m: nat, h: int, a: nat, b: nat)
    requires b > 0 && a < m
  {
    if a < h && b < h then true
    else if a >= h && b >= h then a == b
    else if a < h then a + b < m
    else a % b == 0 && (m - a) % b == 0
  }

  /** An operation meant to be unsigned may be done signed on these operands. */
  predicate Harmless(op: ArithOp, w: Width, a: nat, b: nat)
    requires a < Modulus(w) && b < Modulus(w)
  {
    match op
    case Div => DivHarmless(Modulus(w), Modulus(w) / 2, a, b)
    case Rem => b > 0 && RemHarmless(Modulus(w), Modulus(w) / 2, a, b)
    case _ => Fits(Exact(op, SignedValue(a, w), SignedValue(b, w)).value, IntType(w, false))
  }

  lemma {:induction false} SmallQuotient(a: nat, b: nat)
    requires b > 0
    ensures a < b ==> a / b == 0 && a % b == a
    ensures b <= a < b + b ==> a / b == 1 && a % b == a - b
    ensures b == 1 ==> a / b == a && a % b == 0
    ensures a / b >= 0 && (a >= b ==> a / b >= 1)
    ensures b > 1 ==> a / b * 2 <= a
  {
    if a < b {
      RemainderUnique(a, 0, a, b);
    } else if a < b + b {
      RemainderUnique(a, 1, a - b, b);
    }
    QuotientBound(a, b);
    if b > 1 && a / b > 0 {
      Times(b, a / b);
      assert b * (a / b) == a / b * b;
    }
  }

  /** The bits of a signed result. */
  function Wrapped(v: int, m: int): int {
    if v < 0 then v + m else v
  }

  lemma {:induction false} DivSame(m: nat, h: int, a: nat, b: nat, x: int, y: int)
    requires 2 <= h && m == 2 * h && a < m && 0 < b < m
    requires x == (if a < h then a else a - m) && y == (if b < h then b else b - m)
    ensures var q := Quotient(x, y);
            -h <= q < h && Wrapped(q, m) == a / b <==> DivHarmless(m, h, a, b)
    ensures Quotient(a, b) == a / b && 0 <= a / b <= a
  {
    SmallQuotient(a, b);
    SmallQuotient(Magnitude(x), Magnitude(y));
    QuotientBound(a, b);
    QuotientBound(Magnitude(x), Magnitude(y));
  }

  lemma {:induction false} RemSame(m: nat, h: int, a: nat, b: nat, x: int, y: int)
    requires 2 <= h && m == 2 * h && a < m && 0 < b < m && !(x == -h && y == -1)
    requires x == (if a < h then a else a - m) && y == (if b < h then b else b - m)
    ensures Wrapped(Remainder(x, y), m) == a % b <==> RemHarmless(m, h, a, b)
    ensures -h <= Remainder(x, y) < h
    ensures Remainder(a, b) == a % b <= a
  {
    SmallQuotient(a, b);
    SmallQuotient(Magnitude(x), Magnitude(y));
    QuotientBound(a, b);
    QuotientBound(Magnitude(x), Magnitude(y));
    RemainderValue(x, y);
    RemainderValue(a, b);
  }

  lemma {:induction false} SignedParts(w: Width, a: nat)
    requires a < Modulus(w)
    ensures var m, h := Modulus(w), Modulus(w) / 2;
            2 <= h && m == 2 * h && SignedValue(a, w) == if a < h then a else a - m
  {
  }

  lemma {:induction false} FitsWrapped(v: int, w: Width)
    ensures var h := Modulus(w) / 2; Fits(v, IntType(w, false)) <==> -h <= v < h
    ensures Fits(v, IntType(w, false)) ==> Bits(v, w) == Wrapped(v, Modulus(w))
  {
    if Fits(v, IntType(w, false)) {
      SmallRemainder(v, Modulus(w));
    }
  }

  lemma {:induction false} UnsignedResult(op: ArithOp, w: Width, a: nat, b: nat, v: nat)
    requires a < Modulus(w) && b < Modulus(w) && Exact(op, a, b) == Some(v) && v < Modulus(w)
    ensures LlvmArith(op, true, w, a, b) == Some(v)
  {
    SmallRemainder(v, Modulus(w));
  }

  lemma {:induction false} SignedDivision(w: Width, a: nat, b: nat)
    requires a < Modulus(w) && 0 < b < Modulus(w)
    ensures SignedValue(b, w) != 0
    ensures var q := Quotient(SignedValue(a, w), SignedValue(b, w));
            LlvmArith(Div, false, w, a, b) == if Fits(q, IntType(w, false)) then Some(Bits(q, w)) else None
  {
  }

  /** Division: when the signed operation is defined and gives the bits of the unsigned one. */
  lemma {:induction false} DivExact(w: Width, a: nat, b: nat)
    requires a < Modulus(w) && 0 < b < Modulus(w)
    ensures LlvmArith(Div, false, w, a, b) == LlvmArith(Div, true, w, a, b) <==> Harmless(Div, w, a, b)
  {
    var m, h := Modulus(w), Modulus(w) / 2;
    var x, y := SignedValue(a, w), SignedValue(b, w);
    assert y != 0 by {
      SignedParts(w, b);
    }
    var q, d := Quotient(x, y), Quotient(a, b);
    assert 0 <= d <= a && (-h <= q < h && Wrapped(q, m) == d <==> DivHarmless(m, h, a, b)) by {
      SignedParts(w, a);
      SignedParts(w, b);
      DivSame(m, h, a, b, x, y);
    }
    assert LlvmArith(Div, true, w, a, b) == Some(d) by {
      UnsignedResult(Div, w, a, b, d);
    }
    assert LlvmArith(Div, false, w, a, b) == if -h <= q < h then Some(Wrapped(q, m)) else None by {
      SignedDivision(w, a, b);
      FitsWrapped(q, w);
    }
  }

  lemma {:induction false} RemExact(w: Width, a: nat, b: nat)
    requires a < Modulus(w) && 0 < b < Modulus(w)
    ensures LlvmArith(Rem, false, w, a, b) == LlvmArith(Rem, true, w, a, b) <==> Harmless(Rem, w, a, b)
  {
    var x, y := SignedValue(a, w), SignedValue(b, w);
    SignedParts(w, a);
    SignedParts(w, b);
    var r := Remainder(x, y);
    if x == -(Modulus(w) / 2) && y == -1 {
      assert LlvmArith(Rem, true, w, a, b).Some?;
    } else {
      RemSame(Modulus(w), Modulus(w) / 2, a, b, x, y);
      UnsignedResult(Rem, w, a, b, a % b);
      FitsWrapped(r, w);
    }
  }

  lemma {:induction false} WrapExact(op: ArithOp, w: Width, a: nat, b: nat)
    requires a < Modulus(w) && b < Modulus(w) && (op.Add? || op.Sub? || op.Mul?)
    ensures LlvmArith(op, false, w, a, b) == LlvmArith(op, true, w, a, b) <==> Harmless(op, w, a, b)
  {
    match op
    case Add => OverflowHelpers.SignedResult(OverflowHelpers.UAdd, w, a, b);
    case Sub => OverflowHelpers.SignedResult(OverflowHelpers.USub, w, a, b);
    case Mul => OverflowHelpers.SignedResult(OverflowHelpers.UMul, w, a, b);
  }

  /** An operation meant to be unsigned and done signed is right exactly if it is harmless: additions,
      subtractions and multiplications must not overflow, divisions not see the signs. */
  lemma {:induction false} SignednessExact(op: ArithOp, w: Width, a: nat, b: nat)
    requires a < Modulus(w) && b < Modulus(w) && LlvmArith(op, true, w, a, b).Some?
    ensures LlvmArith(op, false, w, a, b) == LlvmArith(op, true, w, a, b) <==> Harmless(op, w, a, b)
  {
    match op
    case Div => DivExact(w, a, b);
    case Rem => RemExact(w, a, b);
    case _ => WrapExact(op, w, a, b);
  }

  // ----- whole expressions -----

  /** C has the IR's value, where the IR has one. */
  predicate Right(s: Source, w: Width, env: Env, visited: bool) {
    Meaning(s, w, env).Some? ==> Performed(s, w, env, visited) == Meaning(s, w, env)
  }

  predicate RightEverywhere(s: Source, w: Width, env: Env, visited: bool) {
    Right(s, w, env, visited) && (!s.Operand? ==> RightEverywhere(s.left, w, env, visited) && RightEverywhere(s.right, w, env, visited))
  }

  /** An operation without `nsw`, or `udiv` or `urem`, that C does in a signed type: neither operand is
      unsigned in C any more when the operation is done. */
  predicate Lost(s: Source, visited: bool) {
    s.Binary? && !s.signed && !Actual(s, visited)
  }

  /** A shift that C does in a signed type must not shift a negative value, nor overflow. */
  predicate ShiftHarmless(w: Width, a: nat, b: nat)
    requires a < Modulus(w)
  {
    SignedValue(a, w) >= 0 && Fits(SignedValue(a, w) * Pow2(b), IntType(w, false))
  }

  lemma {:induction false} ShiftExact(signed: bool, w: Width, a: nat, b: nat)
    requires a < Modulus(w) && LlvmShl(!signed, w, a, b).Some?
    ensures ShiftInC(false, w, a, b) == LlvmShl(!signed, w, a, b) <==> ShiftHarmless(w, a, b)
  {
  }

  predicate HarmlessEverywhere(s: Source, w: Width, env: Env, visited: bool) {
    !s.Operand? ==>
      && HarmlessEverywhere(s.left, w, env, visited) && HarmlessEverywhere(s.right, w, env, visited)
      && (Lost(s, visited) && Meaning(s, w, env).Some? ==>
           Harmless(s.op, w, Meaning(s.left, w, env).value, Meaning(s.right, w, env).value))
      && (s.Shift? && !Actual(s, visited) && Meaning(s, w, env).Some? ==>
           ShiftHarmless(w, Meaning(s.left, w, env).value, Meaning(s.right, w, env).value))
  }

  /** The main result: an expression and all its parts have the IR's values in C exactly if every operation
      whose signedness got lost, and every signed shift, is harmless on the IR's values of its operands. */
  lemma {:induction false} RightExact(s: Source, w: Width, env: Env, visited: bool)
    ensures RightEverywhere(s, w, env, visited) <==> HarmlessEverywhere(s, w, env, visited)
  {
    if !s.Operand? {
      RightExact(s.left, w, env, visited);
      RightExact(s.right, w, env, visited);
      var a, b := Meaning(s.left, w, env), Meaning(s.right, w, env);
      if Lost(s, visited) && Meaning(s, w, env).Some? {
        SignednessExact(s.op, w, a.value, b.value);
      } else if s.Shift? && Meaning(s, w, env).Some? {
        ShiftExact(s.signed, w, a.value, b.value);
      }
    }
  }

  lemma {:induction false} TwoVariables(s: Source, w: Width, env: Env, visited: bool, u0: bool, u1: bool)
    requires s.Binary? && s.left == Operand(0, u0) && s.right == Operand(1, u1)
    ensures Actual(s, visited) == (!s.signed && (u0 || (u1 && !visited)))
    ensures var a, b := Bits(env(0), w), Bits(env(1), w);
            var r := LlvmArith(s.op, !s.signed, w, a, b);
            Right(s, w, env, visited) <==> (r.Some? ==> LlvmArith(s.op, Actual(s, visited), w, a, b) == r)
  {
    assert Actual(s.left, visited) == u0 && ActualRight(s.right, visited) == (u1 && !visited) && Recorded(s.right) == u1;
    assert Performed(s.left, w, env, visited) == Meaning(s.left, w, env) == Some(Bits(env(0), w));
    assert Performed(s.right, w, env, visited) == Meaning(s.right, w, env) == Some(Bits(env(1), w));
  }

  /** For an operation on two variables: right for all their values exactly if it is signed, or the left
      variable is recorded as unsigned, or the casts are left out and the right one is. */
  lemma {:induction false} VariablesExact(s: Source, w: Width, u0: bool, u1: bool, visited: bool)
    requires s.Binary? && s.left == Operand(0, u0) && s.right == Operand(1, u1)
    ensures (forall env: Env :: Right(s, w, env, visited)) <==> s.signed || u0 || (u1 && !visited)
  {
    forall env: Env
      ensures s.signed || u0 || (u1 && !visited) ==> Right(s, w, env, visited)
    {
      TwoVariables(s, w, env, visited, u0, u1);
    }
    if !(s.signed || u0 || (u1 && !visited)) {
      var env := Harmful(s.op, w);
      HarmfulIsHarmful(s.op, w);
      SignednessExact(s.op, w, env(0), env(1));
      SmallRemainder(env(0), Modulus(w));
      SmallRemainder(env(1), Modulus(w));
      TwoVariables(s, w, env, visited, u0, u1);
      assert !Right(s, w, env, visited);
    }
  }

  /** Values on which the signed operation is not the unsigned one. */
  function Harmful(op: ArithOp, w: Width): Env {
    var m := Modulus(w);
    var x := if op.Div? || op.Rem? then m - 1 else m / 2;
    var y := match op { case Div => 2 case Rem => 2 case Sub => 1 case _ => m / 2 };
    v => if v == 0 then x else y
  }

  lemma {:induction false} HarmfulDivision(op: ArithOp, w: Width)
    requires op.Div? || op.Rem?
    ensures var m := Modulus(w);
            m - 1 > 2 && LlvmArith(op, true, w, m - 1, 2).Some? && !Harmless(op, w, m - 1, 2)
  {
    SmallQuotient(Modulus(w) - 1, 2);
  }

  lemma {:induction false} HarmfulWrap(op: ArithOp, w: Width, y: nat)
    requires (op.Add? || op.Sub? || op.Mul?) && y == if op.Sub? then 1 else Modulus(w) / 2
    ensures var h := Modulus(w) / 2;
            y < Modulus(w) && LlvmArith(op, true, w, h, y).Some? && !Harmless(op, w, h, y)
  {
    var h := Modulus(w) / 2;
    SignedParts(w, h);
    SignedParts(w, y);
    if op.Mul? {
      assert Exact(op, -h, -h) == Some(h * h) && h * h >= h;
      FitsWrapped(h * h, w);
    } else {
      FitsWrapped(if op.Add? then -h - h else -h - 1, w);
    }
  }

  lemma {:induction false} HarmfulIsHarmful(op: ArithOp, w: Width)
    ensures var a, b := Harmful(op, w)(0), Harmful(op, w)(1);
            && a < Modulus(w) && b < Modulus(w) && LlvmArith(op, true, w, a, b).Some?
            && !Harmless(op, w, a, b)
  {
    if op.Div? || op.Rem? {
      HarmfulDivision(op, w);
    } else {
      HarmfulWrap(op, w, if op.Sub? then 1 else Modulus(w) / 2);
    }
  }

  // ----- comparisons -----

  /** Signed and unsigned comparison say the same. */
  predicate SignsAgree(op: CmpOp, w: Width, a: nat, b: nat) {
    op.Eq? || op.Ne? || (a < Modulus(w) / 2 <==> b < Modulus(w) / 2)
  }

  lemma {:induction false} CompareExact(op: CmpOp, w: Width, a: nat, b: nat)
    requires a < Modulus(w) && b < Modulus(w)
    ensures LlvmCompare(op, true, w, a, b) == LlvmCompare(op, false, w, a, b) <==> SignsAgree(op, w, a, b)
  {
  }

  /** The comparison that the builder makes: its flag is kept by the propagation of types. */
  function BuiltCompare(op: CmpOp, isUnsigned: bool, l: Source, r: Source, w: Width): Tree {
    Tree(Cmp(op, isUnsigned), IntType(w, false), [Built(l, w), Built(r, w)])
  }

  /** Whether C compares in an unsigned type. With casts, operands recorded with the wrong signedness are
      converted; what is recorded as signed but is unsigned in C stays unsigned. */
  predicate ComparedUnsigned(isUnsigned: bool, l: Source, r: Source, visited: bool) {
    if visited then isUnsigned || ActualRight(l, true) || ActualRight(r, true)
    else Actual(l, false) || Actual(r, false)
  }

  lemma {:induction false} CompareUniform(op: CmpOp, isUnsigned: bool, l: Source, r: Source, w: Width)
    requires IsWide(w)
    ensures Uniform(Built(l, w)) && Uniform(Built(r, w)) && Uniform(BuiltCompare(op, isUnsigned, l, r, w))
  {
    BuiltUniform(l, w);
    BuiltUniform(r, w);
    var t := BuiltCompare(op, isUnsigned, l, r, w);
    assert t.kids[0] == Built(l, w) && t.kids[1] == Built(r, w);
  }

  /** What C's comparison says. */
  lemma {:induction false} CComparesAs(op: CmpOp, isUnsigned: bool, l: Source, r: Source, w: Width, env: Env, visited: bool)
    requires IsWide(w)
    ensures var t := BuiltCompare(op, isUnsigned, l, r, w);
            Uniform(t) && Shaped(Passed(t, visited)) &&
            CEval(Passed(t, visited), env)
            == Compared(op, ComparedUnsigned(isUnsigned, l, r, visited), w, Performed(l, w, env, visited), Performed(r, w, env, visited))
  {
    var t := BuiltCompare(op, isUnsigned, l, r, w);
    CompareUniform(op, isUnsigned, l, r, w);
    PassedIsTree(l, w, env, visited);
    PassedIsTree(r, w, env, visited);
    PassedPair(t, visited);
    var x, y := Performed(l, w, env, visited), Performed(r, w, env, visited);
    assert t.kids[0] == Built(l, w) && t.kids[1] == Built(r, w);
    assert Passed(t, visited).kind == t.kind;
    if visited {
      CompareOperand(l, isUnsigned, w, env);
      CompareOperand(r, isUnsigned, w, env);
      CompareTree(Passed(t, true), w, isUnsigned, isUnsigned, isUnsigned || ActualRight(l, true), isUnsigned || ActualRight(r, true), x, y, env);
    } else {
      CompareTree(Passed(t, false), w, Recorded(l), Recorded(r), Actual(l, false), Actual(r, false), x, y, env);
    }
  }

  /** The outcome of a comparison from the values of its operands. */
  function Compared(op: CmpOp, unsigned: bool, w: Width, x: Option<nat>, y: Option<nat>): Option<CValue>
    requires (x.Some? ==> x.value < Modulus(w)) && (y.Some? ==> y.value < Modulus(w))
  {
    if x.None? || y.None? then None else Truth(Some(if LlvmCompare(op, unsigned, w, x.value, y.value) then 1 else 0))
  }

  lemma {:induction false} CompareOperand(s: Source, isUnsigned: bool, w: Width, env: Env)
    requires IsWide(w) && Uniform(Built(s, w))
    requires IsTree(Passed(Built(s, w), true), w, Recorded(s), Actual(s, true), Performed(s, w, env, true), env)
    ensures IsTree(CastIfNeeded(Passed(Built(s, w), true), isUnsigned), w, isUnsigned, isUnsigned || ActualRight(s, true),
                   Performed(s, w, env, true), env)
  {
    if Recorded(s) {
      RecordedIsActual(s, true);
    }
    NeededCast(Passed(Built(s, w), true), w, Recorded(s), Actual(s, true), Performed(s, w, env, true), env, isUnsigned);
  }

  lemma {:induction false} CompareTree(p: Tree, w: Width, r0: bool, r1: bool, a0: bool, a1: bool, x: Option<nat>, y: Option<nat>, env: Env)
    requires (x.Some? ==> x.value < Modulus(w)) && (y.Some? ==> y.value < Modulus(w)) && IsWide(w)
    requires |p.kids| == 2 && IsTree(p.kids[0], w, r0, a0, x, env) && IsTree(p.kids[1], w, r1, a1, y, env)
    requires p.kind.Cmp? && p.ty.width == w
    ensures Shaped(p)
    ensures CEval(p, env) == Compared(p.kind.cmp, a0 || a1, w, x, y)
  {
    if x.Some? && y.Some? {
      BothConverted(x.value, IntType(w, a0), y.value, IntType(w, a1));
      CompareComputes(p.kind.cmp, x.value, IntType(w, a0), y.value, IntType(w, a1));
    }
  }

  /** A comparison whose operands are right is right in C exactly if C compares with the meant signedness
      or the signs of the operands make no difference. */
  lemma {:induction false} ComparisonExact(op: CmpOp, isUnsigned: bool, l: Source, r: Source, w: Width, env: Env, visited: bool)
    requires IsWide(w) && Meaning(l, w, env).Some? && Meaning(r, w, env).Some?
    requires Right(l, w, env, visited) && Right(r, w, env, visited)
    ensures var t := BuiltCompare(op, isUnsigned, l, r, w);
            var a, b := Meaning(l, w, env), Meaning(r, w, env);
            && Uniform(t) && Shaped(Passed(t, visited))
            && (CEval(Passed(t, visited), env) == Compared(op, isUnsigned, w, a, b)
                <==> ComparedUnsigned(isUnsigned, l, r, visited) == isUnsigned || SignsAgree(op, w, a.value, b.value))
  {
    CComparesAs(op, isUnsigned, l, r, w, env, visited);
    CompareExact(op, w, Meaning(l, w, env).value, Meaning(r, w, env).value);
  }

  lemma {:induction false} OrZero(a: nat, n: nat)
    requires a < Pow2(n)
    ensures BitwiseDigits(Or, a, 0, n) == a
  {
    if n > 0 {
      OrZero(a / 2, n - 1);
    }
  }

  /** `(a | b) < c`, signed, with only `b` recorded as unsigned: the bitwise operation is recorded as signed
      and gets no cast, C compares unsigned, and says no for a negative `a` and 0 for `b` and `c`. */
  lemma {:induction false} MixedBitwise(w: Width, env: Env, l: Source, r: Source)
    requires IsWide(w) && env(0) == Modulus(w) / 2 && env(1) == 0 && env(2) == 0
    requires l == Logic(Or, Operand(0, false), Operand(1, true)) && r == Operand(2, false)
    ensures !Recorded(l) && Actual(l, true) && ComparedUnsigned(false, l, r, true)
    ensures Meaning(l, w, env) == Some(Modulus(w) / 2) && Meaning(r, w, env) == Some(0)
    ensures LlvmCompare(Lt, false, w, Modulus(w) / 2, 0)
    ensures var t := BuiltCompare(Lt, false, l, r, w);
            Uniform(t) && Shaped(Passed(t, true)) && CEval(Passed(t, true), env) == Truth(Some(0))
  {
    var h := Modulus(w) / 2;
    SmallRemainder(h, Modulus(w));
    Pow2Values();
    OrZero(h, Digits(w));
    assert Meaning(l.left, w, env) == Some(h) && Meaning(l.right, w, env) == Some(0);
    assert BitwiseValue(Or, h, 0, w) == h;
    assert Performed(l.left, w, env, true) == Some(h) && Performed(l.right, w, env, true) == Some(0);
    assert Actual(l.left, true) == false && Actual(l.right, true);
    CComparesAs(Lt, false, l, r, w, env, true);
  }

  /** The comparison `t` of two variables is right in a place where no casts are added. */
  ghost predicate RightUncast(t: Tree, w: Width, env: Env)
    requires t.kind.Cmp?
  {
    && Uniform(t) && Shaped(Propagated(t))
    && CEval(Propagated(t), env) == Compared(t.kind.cmp, t.kind.isUnsigned, w, Some(Bits(env(0), w)), Some(Bits(env(1), w)))
  }

  lemma {:induction false} RightUncastAt(op: CmpOp, isUnsigned: bool, w: Width, u0: bool, u1: bool, env: Env)
    requires IsWide(w)
    ensures RightUncast(BuiltCompare(op, isUnsigned, Operand(0, u0), Operand(1, u1), w), w, env)
            <==> isUnsigned == (u0 || u1) || SignsAgree(op, w, Bits(env(0), w), Bits(env(1), w))
  {
    ComparisonExact(op, isUnsigned, Operand(0, u0), Operand(1, u1), w, env, false);
  }

  /** Loop conditions get no casts: a comparison of two variables there is right for all values exactly
      if it is for equality, or one of them is recorded as unsigned just when the comparison is. */
  lemma {:induction false} LoopConditionExact(op: CmpOp, isUnsigned: bool, w: Width, u0: bool, u1: bool)
    requires IsWide(w)
    ensures (forall env: Env :: RightUncast(BuiltCompare(op, isUnsigned, Operand(0, u0), Operand(1, u1), w), w, env))
            <==> op.Eq? || op.Ne? || isUnsigned == (u0 || u1)
  {
    forall env: Env
      ensures RightUncast(BuiltCompare(op, isUnsigned, Operand(0, u0), Operand(1, u1), w), w, env)
              <==> isUnsigned == (u0 || u1) || SignsAgree(op, w, Bits(env(0), w), Bits(env(1), w))
    {
      RightUncastAt(op, isUnsigned, w, u0, u1, env);
    }
    var top: nat := Modulus(w) - 1;
    var env: Env := v => if v == 0 then 0 else top;
    SmallRemainder(0, Modulus(w));
    SmallRemainder(top, Modulus(w));
    assert SignsAgree(op, w, Bits(env(0), w), Bits(env(1), w)) <==> op.Eq? || op.Ne?;
    assert RightUncast(BuiltCompare(op, isUnsigned, Operand(0, u0), Operand(1, u1), w), w, env)
           <==> isUnsigned == (u0 || u1) || SignsAgree(op, w, Bits(env(0), w), Bits(env(1), w));
  }

  // ----- the casts of the builder -----

  /** Two for every signed operation, and one for the count of every shift. */
  function CastsWanted(s: Source): nat {
    match s
    case Operand(_, _) => 0
    case Binary(_, signed, l, r) => CastsWanted(l) + CastsWanted(r) + if signed then 2 else 0
    case Logic(_, l, r) => CastsWanted(l) + CastsWanted(r)
    case Shift(signed, l, r) => CastsWanted(l) + CastsWanted(r) + if signed then 3 else 1
  }

  lemma {:induction false} PairCount(t: Tree)
    requires |t.kids| == 2 && !t.kind.Cast?
    ensures CastCount(t) == CastCount(t.kids[0]) + CastCount(t.kids[1])
  {
    assert CastCounts(t, 2) == CastCounts(t, 1) + CastCount(t.kids[1]);
    assert CastCounts(t, 1) == CastCounts(t, 0) + CastCount(t.kids[0]);
  }

  lemma {:induction false} OneCastMore(t: Tree)
    ensures CastCount(ToSigned(t)) == CastCount(t) + 1 && CastCount(ToUnsigned(t)) == CastCount(t) + 1
  {
    var c, d := ToSigned(t), ToUnsigned(t);
    assert CastCounts(c, 1) == CastCounts(c, 0) + CastCount(t) && CastCounts(d, 1) == CastCounts(d, 0) + CastCount(t);
  }

  lemma {:induction false} BuiltCasts(s: Source, w: Width)
    ensures CastCount(Built(s, w)) == CastsWanted(s)
  {
    if !s.Operand? {
      BuiltCasts(s.left, w);
      BuiltCasts(s.right, w);
      OneCastMore(Built(s.left, w));
      OneCastMore(Built(s.right, w));
      OneCastMore(ToSigned(Built(s.right, w)));
      PairCount(Built(s, w));
    }
  }
}
