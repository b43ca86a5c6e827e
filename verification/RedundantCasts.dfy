/** Deleting redundant casts around and inside comparisons: what may be dropped, and exactly when
    dropping it keeps the truth value. */
module RedundantCasts {
  import opened CIntegers
  import opened ModularArithmetic
  import opened IntegerCasts

  datatype CmpOp = Eq | Ne | Lt | Le | Gt | Ge

  /** `Logical` stands for a logical operator's result. */
  datatype Tree =
    | Var(v: nat, ty: CType)
    | Logical(v: nat)
    | CastTo(ty: CType, e: Tree)
    | Cmp(op: CmpOp, isUnsigned: bool, l: Tree, r: Tree)

  // ----- the rewriting -----

  /** The recorded type, if it is an integer type that matters here. */
  function TypeOf(e: Tree): CType {
    match e
    case Var(_, ty) => ty
    case Logical(_) => Bool
    case CastTo(ty, _) => ty
    case Cmp(_, _, _, _) => Bool
  }

  predicate IsBoolean(e: Tree) {
    e.Cmp? || e.Logical? || TypeOf(e) == Bool
  }

  function SimplifyCast(ty: CType, e: Tree): Tree {
    var inner := if e.CastTo? && e.ty == ty then e.e else e;
    if IsBoolean(inner) then inner else CastTo(ty, inner)
  }

  predicate SameCasts(l: Tree, r: Tree) {
    l.CastTo? && r.CastTo? && l.ty == r.ty
  }

  predicate DropsBoth(op: CmpOp, isUnsigned: bool, l: Tree, r: Tree) {
    && SameCasts(l, r)
    && (|| op.Eq? || op.Ne?
        || (isUnsigned && IsUnsigned(TypeOf(l.e)) && IsUnsigned(l.ty) && TypeOf(l.e) == TypeOf(r.e)))
  }

  predicate IsUnsigned(ty: CType) {
    ty.Bool? || ty.ty.unsigned
  }

  function Simplify(e: Tree): Tree {
    match e
    case CastTo(ty, x) => SimplifyCast(ty, x)
    case Cmp(op, u, l, r) => if DropsBoth(op, u, l, r) then Cmp(op, u, l.e, r.e) else e
    case _ => e
  }

  /** The visit of a node: its children are visited, then simplified; the node itself is its parent's. */
  function Visited(e: Tree): Tree {
    match e
    case CastTo(ty, x) => CastTo(ty, Simplify(Visited(x)))
    case Cmp(op, u, l, r) => Cmp(op, u, Simplify(Visited(l)), Simplify(Visited(r)))
    case _ => e
  }

  // ----- meaning -----

  /** Values of the variables, of any type; logical operators give 0 or 1. */
  type Env = nat -> int

  /** The type C gives an operand of a comparison. */
  function Promoted(ty: CType): (p: IntType)
    ensures IsWide(p.width)
  {
    match ty
    case Bool => IntType(W32, false)
    case Int(t) => Promote(t)
  }

  predicate Compare(op: CmpOp, a: int, b: int) {
    match op
    case Eq => a == b
    case Ne => a != b
    case Lt => a < b
    case Le => a <= b
    case Gt => a > b
    case Ge => a >= b
  }

  /** Comparison after the usual arithmetic conversions. */
  predicate CompareC(op: CmpOp, a: int, s: CType, b: int, t: CType) {
    var c := Int(CommonOfWide(Promoted(s), Promoted(t)));
    Compare(op, ConvertTo(a, c), ConvertTo(b, c))
  }

  function Num(e: Tree, env: Env): int {
    match e
    case Var(v, ty) => ConvertTo(env(v), ty)
    case Logical(v) => ConvertTo(env(v), Bool)
    case CastTo(ty, x) => ConvertTo(Num(x, env), ty)
    case Cmp(op, _, l, r) => if CompareC(op, Num(l, env), TypeOf(l), Num(r, env), TypeOf(r)) then 1 else 0
  }

  predicate InType(v: int, ty: CType) {
    match ty
    case Bool => 0 <= v <= 1
    case Int(t) => Fits(v, t)
  }

  lemma {:induction false} NumInType(e: Tree, env: Env)
    ensures InType(Num(e, env), TypeOf(e))
  {
    match e
    case Var(v, ty) => ConvertedInType(env(v), ty);
    case CastTo(ty, x) => ConvertedInType(Num(x, env), ty);
    case _ =>
  }

  lemma {:induction false} ConvertedInType(v: int, ty: CType)
    ensures InType(ConvertTo(v, ty), ty)
  {
    if ty.Int? {
      InterpretFits(Bits(v, ty.ty.width), ty.ty);
    }
  }

  lemma {:induction false} ConvertInType(v: int, ty: CType)
    requires InType(v, ty)
    ensures ConvertTo(v, ty) == v
  {
    if ty.Int? {
      ValueOfBits(v, ty.ty);
    }
  }

  // ----- casts inside a chain -----

  /** A type that holds 0 and 1 holds them. */
  lemma {:induction false} BitStays(v: int, ty: CType)
    requires 0 <= v <= 1
    ensures ConvertTo(v, ty) == v
  {
    ConvertInType(v, ty) by { match ty case Bool => case Int(t) => match t.width case _ => }
  }

  /** Dropping a cast keeps the number; the type stays or becomes boolean. */
  lemma {:induction false} SimplifyCastKeeps(ty: CType, e: Tree, env: Env)
    ensures Num(SimplifyCast(ty, e), env) == ConvertTo(Num(e, env), ty)
    ensures TypeOf(SimplifyCast(ty, e)) == ty || TypeOf(SimplifyCast(ty, e)) == Bool
  {
    var inner := if e.CastTo? && e.ty == ty then e.e else e;
    if e.CastTo? && e.ty == ty {
      ConvertedInType(Num(e.e, env), ty);
      ConvertInType(Num(e, env), ty);
    }
    if IsBoolean(inner) {
      NumInType(inner, env);
      BitStays(Num(inner, env), ty);
    }
  }

  // ----- comparing -----

  /** The operand is boolean or has the signedness of the comparison, as the sign casts leave it. */
  predicate SignFits(ty: CType, isUnsigned: bool) {
    ty.Int? ==> ty.ty.unsigned == isUnsigned
  }

  lemma {:induction false} CommonHolds(v: int, s: CType, t: CType, isUnsigned: bool)
    requires InType(v, s) && SignFits(s, isUnsigned) && SignFits(t, isUnsigned)
    ensures InType(v, Int(CommonOfWide(Promoted(s), Promoted(t)))) && InType(v, Int(CommonOfWide(Promoted(t), Promoted(s))))
  {
  }

  /** With matching signs C compares the numbers. */
  lemma {:induction false} ComparesNumbers(op: CmpOp, a: int, s: CType, b: int, t: CType, isUnsigned: bool)
    requires InType(a, s) && InType(b, t) && SignFits(s, isUnsigned) && SignFits(t, isUnsigned)
    ensures CompareC(op, a, s, b, t) == Compare(op, a, b)
  {
    CommonHolds(a, s, t, isUnsigned);
    CommonHolds(b, t, s, isUnsigned);
    var c := Int(CommonOfWide(Promoted(s), Promoted(t)));
    ConvertInType(a, c);
    ConvertInType(b, c);
  }

  /** Two numbers are the same in a type exactly if they differ by a multiple of its modulus. */
  lemma {:induction false} SameInType(a: int, b: int, ty: IntType)
    ensures ConvertTo(a, Int(ty)) == ConvertTo(b, Int(ty)) <==> (a - b) % Modulus(ty.width) == 0
  {
    var m := Modulus(ty.width);
    BitsOfValue(Bits(a, ty.width), ty);
    BitsOfValue(Bits(b, ty.width), ty);
    assert ConvertTo(a, Int(ty)) == ConvertTo(b, Int(ty)) <==> a % m == b % m;
    SameRemainder(a, b, m);
  }

  function Least(ty: CType): int {
    match ty
    case Bool => 0
    case Int(t) => if t.unsigned then 0 else -Modulus(t.width) / 2
  }

  function Greatest(ty: CType): int {
    match ty
    case Bool => 1
    case Int(t) => if t.unsigned then Modulus(t.width) - 1 else Modulus(t.width) / 2 - 1
  }

  lemma {:induction false} Bounds(v: int, ty: CType)
    ensures InType(v, ty) <==> Least(ty) <= v <= Greatest(ty)
  {
  }

  /** Without the casts the operands are compared in this type. */
  function Between(s: CType, t: CType): Width {
    CommonOfWide(Promoted(s), Promoted(t)).width
  }

  /** When an equality may drop casts to `ty` from operands of types `s` and `t`: the comparison is done
      in the same width anyway, or no two values are as far apart as the narrower of the two widths wraps. */
  predicate MayDropEq(s: CType, t: CType, ty: CType) {
    match ty
    case Bool => s.Bool? && t.Bool?
    case Int(i) =>
      var c := Between(s, t);
      || c == i.width
      || (var m := if Modulus(c) < Modulus(i.width) then Modulus(c) else Modulus(i.width);
          Greatest(s) - Least(t) < m && Greatest(t) - Least(s) < m)
  }

  /** Dropping the casts keeps the outcome for these values. */
  ghost predicate Kept(op: CmpOp, s: CType, t: CType, ty: CType, a: int, b: int) {
    CompareC(op, ConvertTo(a, ty), ty, ConvertTo(b, ty), ty) == CompareC(op, a, s, b, t)
  }

  ghost predicate AlwaysKept(op: CmpOp, s: CType, t: CType, ty: CType) {
    forall a, b :: InType(a, s) && InType(b, t) ==> Kept(op, s, t, ty, a, b)
  }

  /** Both sides of an equality, as divisibility. */
  lemma {:induction false} EqualityIs(op: CmpOp, s: CType, t: CType, i: IntType, a: int, b: int)
    requires op.Eq? || op.Ne?
    ensures CompareC(op, ConvertTo(a, Int(i)), Int(i), ConvertTo(b, Int(i)), Int(i)) == (op.Eq? == ((a - b) % Modulus(i.width) == 0))
    ensures CompareC(op, a, s, b, t) == (op.Eq? == ((a - b) % Modulus(Between(s, t)) == 0))
  {
    SameInType(a, b, i);
    SameInType(a, b, CommonOfWide(Promoted(s), Promoted(t)));
    ConvertedInType(a, Int(i));
    ConvertedInType(b, Int(i));
    ComparesNumbers(op, ConvertTo(a, Int(i)), Int(i), ConvertTo(b, Int(i)), Int(i), i.unsigned);
  }

  lemma {:induction false} DropEqKeeps(op: CmpOp, s: CType, t: CType, ty: CType, a: int, b: int)
    requires (op.Eq? || op.Ne?) && MayDropEq(s, t, ty) && InType(a, s) && InType(b, t)
    ensures Kept(op, s, t, ty, a, b)
  {
    match ty
    case Bool =>
      ConvertInType(a, Bool);
      ConvertInType(b, Bool);
    case Int(i) =>
      EqualityIs(op, s, t, i, a, b);
      if Between(s, t) != i.width {
        Bounds(a, s);
        Bounds(b, t);
        SmallRemainder(a - b, Modulus(i.width));
        SmallRemainder(a - b, Modulus(Between(s, t)));
      }
  }

  /** Two values of the types that are `m` apart. */
  lemma {:induction false} Apart(s: CType, t: CType, m: int) returns (a: int, b: int)
    requires 0 < m <= Greatest(s) - Least(t)
    ensures InType(a, s) && InType(b, t) && a - b == m
  {
    b := if Least(t) >= Least(s) - m then Least(t) else Least(s) - m;
    a := b + m;
    Bounds(a, s);
    Bounds(b, t);
  }

  lemma {:induction false} MultipleOfNarrower(m: Width, n: Width)
    requires Modulus(m) < Modulus(n)
    ensures Modulus(m) % Modulus(m) == 0 && -Modulus(m) % Modulus(m) == 0
    ensures Modulus(m) % Modulus(n) != 0 && -Modulus(m) % Modulus(n) != 0
  {
  }

  lemma {:induction false} DropEqFails(op: CmpOp, s: CType, t: CType, i: IntType) returns (a: int, b: int)
    requires (op.Eq? || op.Ne?) && !MayDropEq(s, t, Int(i))
    ensures InType(a, s) && InType(b, t) && !Kept(op, s, t, Int(i), a, b)
  {
    var c := Between(s, t);
    var n, w := if Modulus(c) < Modulus(i.width) then c else i.width, if Modulus(c) < Modulus(i.width) then i.width else c;
    MultipleOfNarrower(n, w);
    if Greatest(s) - Least(t) >= Modulus(n) {
      a, b := Apart(s, t, Modulus(n));
      assert a - b == Modulus(n);
    } else {
      b, a := Apart(t, s, Modulus(n));
      assert a - b == -Modulus(n);
    }
    EqualityIs(op, s, t, i, a, b);
  }

  lemma {:induction false} OneIsNotTwo(op: CmpOp, s: CType, t: CType)
    requires op.Eq? || op.Ne?
    ensures CompareC(op, 1, s, 2, t) == op.Ne? && CompareC(op, 2, s, 1, t) == op.Ne?
  {
    var c := CommonOfWide(Promoted(s), Promoted(t));
    ConvertInType(1, Int(c));
    ConvertInType(2, Int(c));
  }

  lemma {:induction false} DropToBoolFails(op: CmpOp, s: CType, t: CType) returns (a: int, b: int)
    requires (op.Eq? || op.Ne?) && !MayDropEq(s, t, Bool)
    ensures InType(a, s) && InType(b, t) && !Kept(op, s, t, Bool, a, b)
  {
    a, b := if s.Bool? then 1 else 2, if s.Bool? then 2 else 1;
    Bounds(a, s);
    Bounds(b, t);
    OneIsNotTwo(op, s, t);
    ComparesNumbers(op, 1, Bool, 1, Bool, true);
  }

  /** Exactly when `==` and `!=` may drop the casts of both operands. */
  lemma {:induction false} DropEqExact(op: CmpOp, s: CType, t: CType, ty: CType)
    requires op.Eq? || op.Ne?
    ensures AlwaysKept(op, s, t, ty) <==> MayDropEq(s, t, ty)
  {
    if MayDropEq(s, t, ty) {
      forall a, b | InType(a, s) && InType(b, t)
        ensures Kept(op, s, t, ty, a, b)
      {
        DropEqKeeps(op, s, t, ty, a, b);
      }
    } else if ty.Bool? {
      var a, b := DropToBoolFails(op, s, t);
    } else {
      var a, b := DropEqFails(op, s, t, ty.ty);
    }
  }

  /** For operands of one type the rule is simple: the casts may go if they do not narrow. */
  lemma {:induction false} OneSourceType(s: IntType, ty: IntType)
    ensures MayDropEq(Int(s), Int(s), Int(ty)) <==> Modulus(ty.width) >= Modulus(s.width)
  {
  }

  /** Ordered comparisons are stripped only if all is unsigned; that is right if nothing is narrowed. */
  lemma {:induction false} DropOrderedExact(op: CmpOp, s: IntType, ty: IntType)
    requires !op.Eq? && !op.Ne? && s.unsigned && ty.unsigned
    ensures AlwaysKept(op, Int(s), Int(s), Int(ty)) <==> Modulus(ty.width) >= Modulus(s.width)
  {
    if Modulus(ty.width) >= Modulus(s.width) {
      forall a, b | InType(a, Int(s)) && InType(b, Int(s))
        ensures Kept(op, Int(s), Int(s), Int(ty), a, b)
      {
        OrderedKeeps(op, s, ty, a, b);
      }
    } else {
      var a, b := OrderedFails(op, s, ty);
    }
  }

  lemma {:induction false} OrderedKeeps(op: CmpOp, s: IntType, ty: IntType, a: int, b: int)
    requires s.unsigned && ty.unsigned && Modulus(ty.width) >= Modulus(s.width) && InType(a, Int(s)) && InType(b, Int(s))
    ensures Kept(op, Int(s), Int(s), Int(ty), a, b)
  {
    ConvertInType(a, Int(ty));
    ConvertInType(b, Int(ty));
    ComparesNumbers(op, a, Int(s), b, Int(s), true);
    ComparesNumbers(op, a, Int(ty), b, Int(ty), true);
  }

  lemma {:induction false} OrderedFails(op: CmpOp, s: IntType, ty: IntType) returns (a: int, b: int)
    requires !op.Eq? && !op.Ne? && s.unsigned && ty.unsigned && Modulus(ty.width) < Modulus(s.width)
    ensures InType(a, Int(s)) && InType(b, Int(s)) && !Kept(op, Int(s), Int(s), Int(ty), a, b)
  {
    var m := Modulus(ty.width);
    a, b := if op.Lt? || op.Ge? then 0 else m, if op.Lt? || op.Ge? then m else 0;
    assert ConvertTo(0, Int(ty)) == 0 && ConvertTo(m, Int(ty)) == 0;
    ComparesNumbers(op, a, Int(s), b, Int(s), true);
    ComparesNumbers(op, 0, Int(ty), 0, Int(ty), true);
  }

  // ----- operands that become boolean -----

  predicate Negative(ty: CType) {
    ty.Int? && !ty.ty.unsigned
  }

  /** When the operands of a comparison may get other types, boolean ones: equality does not mind, and an
      ordered comparison does only if it was unsigned by another operand's type and an operand may still be
      negative. */
  predicate TypesKeep(op: CmpOp, s: CType, t: CType, s': CType, t': CType) {
    || (s' == s && t' == t) || op.Eq? || op.Ne?
    || !CommonOfWide(Promoted(s), Promoted(t)).unsigned
    || (!Negative(s') && !Negative(t'))
  }

  lemma {:induction false} Holds(v: int, s: CType, t: CType)
    requires InType(v, s)
    ensures var c, d := CommonOfWide(Promoted(s), Promoted(t)), CommonOfWide(Promoted(t), Promoted(s));
            && (!c.unsigned || v >= 0 ==> InType(v, Int(c)))
            && (!d.unsigned || v >= 0 ==> InType(v, Int(d)))
            && c.unsigned == d.unsigned
  {
  }

  /** Compared as numbers, where the common type holds both. */
  lemma {:induction false} HeldNumbers(op: CmpOp, s: CType, t: CType, a: int, b: int)
    requires InType(a, s) && InType(b, t)
    requires !CommonOfWide(Promoted(s), Promoted(t)).unsigned || (a >= 0 && b >= 0)
    ensures CompareC(op, a, s, b, t) == Compare(op, a, b)
  {
    Holds(a, s, t);
    Holds(b, t, s);
    var c := Int(CommonOfWide(Promoted(s), Promoted(t)));
    ConvertInType(a, c);
    ConvertInType(b, c);
  }

  /** Equality with 0 or 1 is equality of numbers. */
  lemma {:induction false} EqualToBit(op: CmpOp, s: CType, t: CType, a: int, b: int)
    requires (op.Eq? || op.Ne?) && InType(a, s) && InType(b, t) && (0 <= a <= 1 || 0 <= b <= 1)
    ensures CompareC(op, a, s, b, t) == Compare(op, a, b)
  {
    EqualityIs(op, s, t, IntType(W64, true), a, b);
    NearBit(s, t, a, b);
    SmallRemainder(a - b, Modulus(Between(s, t)));
  }

  lemma {:induction false} NearBit(s: CType, t: CType, a: int, b: int)
    requires InType(a, s) && InType(b, t) && (0 <= a <= 1 || 0 <= b <= 1)
    ensures -Modulus(Between(s, t)) < a - b < Modulus(Between(s, t))
  {
  }

  lemma {:induction false} TypesKeepTruth(op: CmpOp, s: CType, t: CType, s': CType, t': CType, a: int, b: int)
    requires (s' == s || s' == Bool) && (t' == t || t' == Bool) && TypesKeep(op, s, t, s', t')
    requires InType(a, s) && InType(a, s') && InType(b, t) && InType(b, t')
    ensures CompareC(op, a, s, b, t) == CompareC(op, a, s', b, t')
  {
    if s' != s || t' != t {
      if op.Eq? || op.Ne? {
        EqualToBit(op, s, t, a, b);
        EqualToBit(op, s', t', a, b);
      } else {
        HeldNumbers(op, s, t, a, b);
        HeldNumbers(op, s', t', a, b);
      }
    }
  }

  ghost predicate AlwaysSame(op: CmpOp, s: CType, t: CType, s': CType, t': CType) {
    forall a, b {:trigger InType(a, s'), InType(b, t')} :: InType(a, s) && InType(a, s') && InType(b, t) && InType(b, t') ==>
      CompareC(op, a, s, b, t) == CompareC(op, a, s', b, t')
  }

  /** Exactly when operands may become boolean without changing any outcome. */
  lemma {:induction false} TypesKeepExact(op: CmpOp, s: CType, t: CType, s': CType, t': CType)
    requires (s' == s || s' == Bool) && (t' == t || t' == Bool)
    ensures AlwaysSame(op, s, t, s', t') <==> TypesKeep(op, s, t, s', t')
  {
    if TypesKeep(op, s, t, s', t') {
      forall a, b | InType(a, s) && InType(a, s') && InType(b, t) && InType(b, t')
        ensures CompareC(op, a, s, b, t) == CompareC(op, a, s', b, t')
      {
        TypesKeepTruth(op, s, t, s', t', a, b);
      }
    } else if Negative(s') {
      MinusOneDiffers(op, s, t);
      assert InType(-1, s') && InType(0, t') && InType(1, t');
    } else {
      MinusOneDiffers(op, t, s);
      assert InType(-1, t') && InType(0, s') && InType(1, s');
    }
  }

  /** -1 against 0, both ways round: compared as unsigned before, as signed after. */
  lemma {:induction false} MinusOneDiffers(op: CmpOp, s: CType, t: CType)
    requires !op.Eq? && !op.Ne? && Negative(s) && CommonOfWide(Promoted(s), Promoted(t)).unsigned
    ensures InType(-1, s) && InType(0, t) && InType(1, t)
    ensures CompareC(op, -1, s, 0, t) != CompareC(op, -1, s, 0, Bool)
    ensures CompareC(op, 0, t, -1, s) != CompareC(op, 0, Bool, -1, s)
  {
    var c := CommonOfWide(Promoted(s), Promoted(t));
    SmallRemainder(-1, Modulus(c.width));
    ConvertInType(0, Int(c));
    HeldNumbers(op, s, Bool, -1, 0);
    HeldNumbers(op, Bool, s, 0, -1);
  }

  // ----- the pass -----

  /** Where the pass is right: operands become boolean, and casts are dropped, only where they may. */
  predicate Sound(e: Tree) {
    match e
    case CastTo(_, x) => Sound(x)
    case Cmp(op, u, l, r) =>
      var l', r' := Simplify(Visited(l)), Simplify(Visited(r));
      && Sound(l) && Sound(r) && TypesKeep(op, TypeOf(l), TypeOf(r), TypeOf(l'), TypeOf(r')) && MayDrop(op, u, l', r')
    case _ => true
  }

  /** Operands of the comparison's own signedness, as the sign casts leave them, always may. */
  lemma {:induction false} SignFitsKeeps(op: CmpOp, u: bool, s: CType, t: CType, s': CType, t': CType)
    requires SignFits(s, u) && SignFits(t, u) && (s' == s || s' == Bool) && (t' == t || t' == Bool)
    ensures TypesKeep(op, s, t, s', t')
  {
  }

  predicate MayDrop(op: CmpOp, u: bool, l: Tree, r: Tree) {
    DropsBoth(op, u, l, r) ==>
      if op.Eq? || op.Ne? then MayDropEq(TypeOf(l.e), TypeOf(r.e), l.ty)
      else TypeOf(l.e).Int? && l.ty.Int? && Modulus(l.ty.ty.width) >= Modulus(TypeOf(l.e).ty.width)
  }

  lemma {:induction false} SimplifyCmpKeeps(op: CmpOp, u: bool, l: Tree, r: Tree, env: Env)
    requires MayDrop(op, u, l, r)
    ensures Num(Simplify(Cmp(op, u, l, r)), env) == Num(Cmp(op, u, l, r), env)
  {
    if DropsBoth(op, u, l, r) {
      var a, b := Num(l.e, env), Num(r.e, env);
      NumInType(l.e, env);
      NumInType(r.e, env);
      if op.Eq? || op.Ne? {
        DropEqKeeps(op, TypeOf(l.e), TypeOf(r.e), l.ty, a, b);
      } else {
        OrderedKeeps(op, TypeOf(l.e).ty, l.ty.ty, a, b);
      }
    }
  }

  /** The main result: every expression keeps its number, so every comparison its truth value. */
  lemma {:induction false} PassKeeps(e: Tree, env: Env)
    requires Sound(e)
    ensures Num(Visited(e), env) == Num(e, env) && Num(Simplify(Visited(e)), env) == Num(e, env)
    ensures TypeOf(Visited(e)) == TypeOf(e)
    ensures TypeOf(Simplify(Visited(e))) == TypeOf(e) || TypeOf(Simplify(Visited(e))) == Bool
  {
    match e
    case CastTo(ty, x) =>
      PassKeeps(x, env);
      SimplifyCastKeeps(ty, Simplify(Visited(x)), env);
    case Cmp(op, u, l, r) =>
      PassKeeps(l, env);
      PassKeeps(r, env);
      var l', r' := Simplify(Visited(l)), Simplify(Visited(r));
      NumInType(l, env);
      NumInType(r, env);
      NumInType(l', env);
      NumInType(r', env);
      TypesKeepTruth(op, TypeOf(l), TypeOf(r), TypeOf(l'), TypeOf(r'), Num(l, env), Num(r, env));
      SimplifyCmpKeeps(op, u, l', r', env);
    case _ =>
  }

  /** `(unsigned char)a == (unsigned char)b` on 32-bit variables: the casts are dropped, and 0 and 256
      are no longer equal. */
  lemma {:induction false} NarrowingDropped(env: Env)
    requires env(0) == 0 && env(1) == 256
    ensures var byte, word := Int(IntType(W8, true)), Int(IntType(W32, true));
            var e := Cmp(Eq, true, CastTo(byte, Var(0, word)), CastTo(byte, Var(1, word)));
            !Sound(e) && Num(e, env) == 1 && Num(Simplify(Visited(e)), env) == 0
  {
    var byte, word := Int(IntType(W8, true)), Int(IntType(W32, true));
    var l, r := CastTo(byte, Var(0, word)), CastTo(byte, Var(1, word));
    assert Visited(l) == l && Visited(r) == r && Simplify(l) == l && Simplify(r) == r;
    assert Num(Var(0, word), env) == 0 && Num(Var(1, word), env) == 256;
    assert Num(l, env) == 0 && Num(r, env) == 0;
    OneSourceType(IntType(W32, true), IntType(W8, true));
  }

  // ----- what is left -----

  /** An expression whose value is 0 or 1 by its kind or its type. */
  predicate IsTruth(e: Tree) {
    match e
    case Var(_, ty) => ty == Bool
    case Logical(_) => true
    case CastTo(ty, _) => ty == Bool
    case Cmp(_, _, _, _) => true
  }

  /** Nowhere is a cast put on a cast to the same type, or on a truth value. */
  predicate Lean(e: Tree) {
    match e
    case CastTo(ty, x) => !(x.CastTo? && x.ty == ty) && !IsTruth(x) && Lean(x)
    case Cmp(_, _, l, r) => Lean(l) && Lean(r)
    case _ => true
  }

  /** Both operands of the comparison are casts to one type that may be deleted together: for an equality
      always, otherwise if all is unsigned and the operands beneath have one type. */
  predicate Strippable(op: CmpOp, isUnsigned: bool, l: Tree, r: Tree) {
    && l.CastTo? && r.CastTo? && l.ty == r.ty
    && (op != Eq && op != Ne ==>
          && isUnsigned && TypeOf(l.e) == TypeOf(r.e)
          && (l.ty.Int? ==> l.ty.ty.unsigned) && (TypeOf(l.e).Int? ==> TypeOf(l.e).ty.unsigned))
  }

  /** One pass leaves no redundant cast in any expression that has a parent. */
  lemma {:induction false} SimplifiedLean(e: Tree)
    ensures Lean(Simplify(Visited(e)))
  {
    match e
    case CastTo(_, x) => SimplifiedLean(x);
    case Cmp(_, _, l, r) =>
      SimplifiedLean(l);
      SimplifiedLean(r);
    case _ =>
  }

  /** The children of a visited expression, which is itself not simplified by its own visit, have none. */
  lemma {:induction false} VisitedLean(e: Tree)
    ensures var v := Visited(e);
            && (v.CastTo? ==> Lean(v.e))
            && (v.Cmp? ==> Lean(v.l) && Lean(v.r))
  {
    match e
    case CastTo(_, x) => SimplifiedLean(x);
    case Cmp(_, _, l, r) =>
      SimplifiedLean(l);
      SimplifiedLean(r);
    case _ =>
  }

  /** A comparison loses one pair of casts, if it has one to lose: it still has such a pair exactly if there
      were two on top of each other. */
  lemma {:induction false} StrippedOnce(op: CmpOp, u: bool, l: Tree, r: Tree)
    ensures var l', r' := Simplify(Visited(l)), Simplify(Visited(r));
            var c := Simplify(Visited(Cmp(op, u, l, r)));
            && c.Cmp? && c.op == op && c.isUnsigned == u
            && (Strippable(op, u, l', r') ==> c.l == l'.e && c.r == r'.e)
            && (!Strippable(op, u, l', r') ==> c.l == l' && c.r == r')
            && (Strippable(op, u, c.l, c.r) <==> Strippable(op, u, l', r') && Strippable(op, u, l'.e, r'.e))
  {
  }

  /** Casts on top of each other collapse to the innermost of each type, and to the truth value. */
  lemma {:induction false} CastOfCast(ty: CType, x: Tree)
    ensures Simplify(Visited(CastTo(ty, CastTo(ty, x)))) == Simplify(Visited(CastTo(ty, x)))
    ensures IsTruth(Simplify(Visited(x))) ==> Simplify(Visited(CastTo(ty, x))) == Simplify(Visited(x))
  {
    SimplifiedLean(CastTo(ty, x));
    SimplifiedLean(x);
  }

  // ----- the visitor -----

  datatype Kind = KVar(v: nat, ty: CType) | KLogical(v: nat) | KCast(ty: CType) | KCmp(op: CmpOp, isUnsigned: bool)

  predicate HasChildren(k: Kind) {
    k.KCast? || k.KCmp?
  }

  /** A node whose child pointers the pass overwrites; a cast has a left child only. The nodes of the
      expression are in `repr`, its casts and comparisons also in `own`: variables may be shared freely. */
  class Node {
    const kind: Kind
    var left: Node?
    var right: Node?
    ghost const repr: set<Node>
    ghost const own: set<Node>

    constructor (kind: Kind, left: Node?, right: Node?)
      ensures this.kind == kind && this.left == left && this.right == right
      ensures repr == {this} + (if left == null then {} else left.repr) + (if right == null then {} else right.repr)
      ensures own == (if HasChildren(kind) then {this} else {})
                     + (if left == null then {} else left.own) + (if right == null then {} else right.own)
    {
      this.kind, this.left, this.right := kind, left, right;
      this.repr := {this} + (if left == null then {} else left.repr) + (if right == null then {} else right.repr);
      this.own := (if HasChildren(kind) then {this} else {})
                  + (if left == null then {} else left.own) + (if right == null then {} else right.own);
    }

    ghost predicate Valid()
      reads this, repr
      decreases repr
    {
      && this in repr && own <= repr && (forall n :: n in repr ==> (n in own <==> HasChildren(n.kind)))
      && (HasChildren(kind) ==> left != null && left in repr && left.repr <= repr && left.own <= own && this !in left.repr && left.Valid())
      && (kind.KCmp? ==> right != null && right in repr && right.repr <= repr && right.own <= own && this !in right.repr && right.Valid()
                         && left.own !! right.own)
    }

    ghost function Value(): (t: Tree)
      requires Valid()
      reads this, repr
      ensures TypeOf(t) == Type() && IsBoolean(t) == BooleanNode()
      decreases repr
    {
      match kind
      case KVar(v, ty) => Var(v, ty)
      case KLogical(v) => Logical(v)
      case KCast(ty) => CastTo(ty, left.Value())
      case KCmp(op, u) => Cmp(op, u, left.Value(), right.Value())
    }

    /** The recorded type. */
    function Type(): CType {
      match kind
      case KVar(_, ty) => ty
      case KCast(ty) => ty
      case _ => Bool
    }

    predicate BooleanNode() {
      kind.KCmp? || kind.KLogical? || Type() == Bool
    }
  }

  method SimplifyCastNode(e: Node) returns (r: Node)
    requires e.Valid() && e.kind.KCast?
    modifies e`left
    ensures r.Valid() && r in e.repr && r.repr <= e.repr && r.own <= e.own
    ensures r.Value() == Simplify(old(e.Value()))
  {
    if e.left.kind.KCast? && e.left.kind.ty == e.kind.ty {
      e.left := e.left.left;
    }
    if e.left.kind.KCast? && e.left.kind.ty == Bool {
      return e.left;
    }
    if e.left.BooleanNode() {
      return e.left;
    }
    return e;
  }

  method SimplifyCmpNode(e: Node)
    requires e.Valid() && e.kind.KCmp?
    modifies e`left, e`right
    ensures e.Valid() && e.Value() == Simplify(old(e.Value()))
  {
    if e.left.kind.KCast? && e.right.kind.KCast? && e.left.kind.ty == e.right.kind.ty {
      var op, u := e.kind.op, e.kind.isUnsigned;
      var s, t := e.left.left.Type(), e.right.left.Type();
      if op == Eq || op == Ne || (u && IsUnsigned(s) && IsUnsigned(e.left.kind.ty) && IsUnsigned(t) && s == t) {
        e.left, e.right := e.left.left, e.right.left;
      }
    }
  }

  method SimplifyNode(e: Node) returns (r: Node)
    requires e.Valid()
    modifies e.own
    ensures r.Valid() && r in e.repr && r.repr <= e.repr && r.own <= e.own
    ensures r.Value() == Simplify(old(e.Value()))
  {
    r := e;
    if e.kind.KCast? {
      r := SimplifyCastNode(e);
    } else if e.kind.KCmp? {
      SimplifyCmpNode(e);
    }
  }

  method VisitBoth(l: Node, r: Node)
    requires l.Valid() && r.Valid() && l.own !! r.own
    modifies l.own, r.own
    ensures l.Valid() && r.Valid()
    ensures l.Value() == Visited(old(l.Value())) && r.Value() == Visited(old(r.Value()))
    decreases l.own + r.own, 2
  {
    assert l.own !! r.repr && r.own !! l.repr;
    VisitNode(l);
    VisitNode(r);
  }

  method SimplifyBoth(l: Node, r: Node) returns (l': Node, r': Node)
    requires l.Valid() && r.Valid() && l.own !! r.own
    modifies l.own, r.own
    ensures l'.Valid() && l' in l.repr && l'.repr <= l.repr && l'.own <= l.own && l'.Value() == Simplify(old(l.Value()))
    ensures r'.Valid() && r' in r.repr && r'.repr <= r.repr && r'.own <= r.own && r'.Value() == Simplify(old(r.Value()))
  {
    assert l.own !! r.repr && r.own !! l.repr;
    l' := SimplifyNode(l);
    r' := SimplifyNode(r);
  }

  /** Visits both operands of a comparison, then simplifies both. */
  method VisitOperands(l: Node, r: Node) returns (l': Node, r': Node)
    requires l.Valid() && r.Valid() && l.own !! r.own
    modifies l.own, r.own
    ensures l'.Valid() && l' in l.repr && l'.repr <= l.repr && l'.own <= l.own && l'.Value() == Simplify(Visited(old(l.Value())))
    ensures r'.Valid() && r' in r.repr && r'.repr <= r.repr && r'.own <= r.own && r'.Value() == Simplify(Visited(old(r.Value())))
    decreases l.own + r.own, 3
  {
    VisitBoth(l, r);
    l', r' := SimplifyBoth(l, r);
  }

  method VisitCast(e: Node)
    requires e.Valid() && e.kind.KCast?
    modifies e.own
    ensures e.Valid() && e.Value() == Visited(old(e.Value()))
    decreases e.own, 0
  {
    var l := e.left;
    VisitNode(l);
    e.left := SimplifyNode(l);
  }

  method VisitCmp(e: Node)
    requires e.Valid() && e.kind.KCmp?
    modifies e.own
    ensures e.Valid() && e.Value() == Visited(old(e.Value()))
    decreases e.own, 0
  {
    ghost var was := e.Value();
    assert was == Cmp(e.kind.op, e.kind.isUnsigned, e.left.Value(), e.right.Value());
    var l, r := VisitOperands(e.left, e.right);
    assert e !in l.repr && e !in r.repr;
    e.left, e.right := l, r;
    assert l.Valid() && r.Valid();
  }

  method VisitNode(e: Node)
    requires e.Valid()
    modifies e.own
    ensures e.Valid() && e.Value() == Visited(old(e.Value()))
    decreases e.own, 1
  {
    if e.kind.KCast? {
      VisitCast(e);
    } else if e.kind.KCmp? {
      VisitCmp(e);
    }
  }
}
