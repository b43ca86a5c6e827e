/** Integer arithmetic and comparisons, the theorems for 32 and 64 bits: LLVM's operations on bit patterns, C's
    operators after the usual arithmetic conversions, and the casts that make the two agree. */
module SignCasts {
  import opened CIntegers
  import opened ModularArithmetic

  datatype ArithOp = Add | Sub | Mul | Div | Rem

  datatype BitOp = And | Or | Xor

  datatype CmpOp = Eq | Ne | Lt | Le | Gt | Ge

  /** `Other` is any node that is not integer arithmetic: a variable, a load, a call, a statement; it has
      `n` children, of which the visitor enters the first `enters`. */
  datatype Kind =
    | Other(v: nat, n: nat, enters: nat)
    | Cast
    | Arith(op: ArithOp, isUnsigned: bool)
    | Bitwise(bit: BitOp)
    | Shl(isUnsigned: bool)
    | Cmp(cmp: CmpOp, isUnsigned: bool)

  /** An expression with the integer type recorded in it; a comparison's is not used. */
  datatype Tree = Tree(kind: Kind, ty: IntType, kids: seq<Tree>)

  function Arity(k: Kind): nat {
    match k
    case Other(_, n, _) => n
    case Cast => 1
    case _ => 2
  }

  predicate Shaped(t: Tree) {
    |t.kids| == Arity(t.kind) && (!t.kind.Other? ==> forall i :: 0 <= i < |t.kids| ==> Shaped(t.kids[i]))
  }

  /** An integer expression: operands have their node's width, and comparisons stand at the root. */
  predicate Uniform(t: Tree) {
    && |t.kids| == Arity(t.kind)
    && (!t.kind.Other? ==> forall i :: 0 <= i < |t.kids| ==>
         Uniform(t.kids[i]) && !t.kids[i].kind.Cmp? && t.kids[i].ty.width == t.ty.width)
  }

  /** The signedness recorded in an arithmetic node is that of its operation, which is what the
      propagation of types establishes, and so it is in a shift; that of a bitwise node is its left
      operand's, and no unsigned right operand changes it. */
  predicate WellTyped(t: Tree) {
    && Uniform(t)
    && (!t.kind.Other? ==> forall i :: 0 <= i < |t.kids| ==> WellTyped(t.kids[i]))
    && (t.kind.Arith? || t.kind.Shl? ==> t.ty.unsigned == t.kind.isUnsigned)
    && (t.kind.Bitwise? ==> t.ty == t.kids[0].ty && (t.kids[1].ty.unsigned ==> t.ty.unsigned))
  }

  // ----- numbers -----

  function Magnitude(v: int): nat {
    if v < 0 then -v else v
  }

  /** Division truncates toward zero. */
  function Quotient(a: int, b: int): int
    requires b != 0
  {
    var q := Magnitude(a) / Magnitude(b);
    if (a < 0) != (b < 0) then -q else q
  }

  function Remainder(a: int, b: int): int
    requires b != 0
  {
    a - Quotient(a, b) * b
  }

  /** The mathematical result, if there is one. */
  function Exact(op: ArithOp, a: int, b: int): Option<int> {
    match op
    case Add => Some(a + b)
    case Sub => Some(a - b)
    case Mul => Some(a * b)
    case Div => if b == 0 then None else Some(Quotient(a, b))
    case Rem => if b == 0 then None else Some(Remainder(a, b))
  }

  function Compare(op: CmpOp, a: int, b: int): bool {
    match op
    case Eq => a == b
    case Ne => a != b
    case Lt => a < b
    case Le => a <= b
    case Gt => a > b
    case Ge => a >= b
  }

  function Digits(w: Width): nat {
    match w
    case W8 => 8
    case W16 => 16
    case W32 => 32
    case W64 => 64
  }

  /** Digit by digit, the last one first. */
  function BitwiseDigits(op: BitOp, a: nat, b: nat, n: nat): (r: nat)
    ensures r < Pow2(n)
  {
    if n == 0 then 0
    else
      var p, q := a % 2 == 1, b % 2 == 1;
      var d := match op { case And => p && q case Or => p || q case Xor => p != q };
      2 * BitwiseDigits(op, a / 2, b / 2, n - 1) + if d then 1 else 0
  }

  function BitwiseValue(op: BitOp, a: nat, b: nat, w: Width): (r: nat)
    ensures r < Modulus(w)
  {
    Pow2Values();
    BitwiseDigits(op, a, b, Digits(w))
  }

  // ----- LLVM -----

  type Env = nat -> nat

  /** `add`, `sub` and `mul` wrap, or with `nsw` must not overflow; division is `udiv` or `sdiv`. No
      result stands for poison and undefined behaviour. */
  function LlvmArith(op: ArithOp, isUnsigned: bool, w: Width, a: nat, b: nat): (r: Option<nat>)
    requires a < Modulus(w) && b < Modulus(w)
    ensures r.Some? ==> r.value < Modulus(w)
  {
    if isUnsigned then
      match Exact(op, a, b)
      case None => None
      case Some(v) => Some(Bits(v, w))
    else
      var x, y := SignedValue(a, w), SignedValue(b, w);
      if op.Rem? && y == -1 && x == -(Modulus(w) / 2) then None
      else
        match Exact(op, x, y)
        case None => None
        case Some(v) => if Fits(v, IntType(w, false)) then Some(Bits(v, w)) else None
  }

  /** `shl`: as many places as the width or more give poison, and so does, with `nsw`, an overflow. */
  function LlvmShl(isUnsigned: bool, w: Width, a: nat, b: nat): (r: Option<nat>)
    requires a < Modulus(w)
    ensures r.Some? ==> r.value < Modulus(w)
  {
    if b >= Digits(w) then None
    else if isUnsigned then Some(Bits(a * Pow2(b), w))
    else if Fits(SignedValue(a, w) * Pow2(b), IntType(w, false)) then Some(Bits(SignedValue(a, w) * Pow2(b), w))
    else None
  }

  function LlvmCompare(op: CmpOp, isUnsigned: bool, w: Width, a: nat, b: nat): bool
    requires a < Modulus(w) && b < Modulus(w)
  {
    if isUnsigned then Compare(op, a, b) else Compare(op, SignedValue(a, w), SignedValue(b, w))
  }

  /** The value of an expression as bits; casts between types of one width keep the bits. */
  function Llvm(t: Tree, env: Env): (r: Option<nat>)
    requires Uniform(t)
    ensures r.Some? && !t.kind.Cmp? ==> r.value < Modulus(t.ty.width)
    ensures r.Some? && t.kind.Cmp? ==> r.value <= 1
  {
    match t.kind
    case Other(v, _, _) => Some(Bits(env(v), t.ty.width))
    case Cast => Llvm(t.kids[0], env)
    case Arith(op, isUnsigned) =>
      var a, b := Llvm(t.kids[0], env), Llvm(t.kids[1], env);
      if a.None? || b.None? then None else LlvmArith(op, isUnsigned, t.ty.width, a.value, b.value)
    case Bitwise(op) =>
      var a, b := Llvm(t.kids[0], env), Llvm(t.kids[1], env);
      if a.None? || b.None? then None else Some(BitwiseValue(op, a.value, b.value, t.ty.width))
    case Shl(isUnsigned) =>
      var a, b := Llvm(t.kids[0], env), Llvm(t.kids[1], env);
      if a.None? || b.None? then None else LlvmShl(isUnsigned, t.ty.width, a.value, b.value)
    case Cmp(op, isUnsigned) =>
      var a, b := Llvm(t.kids[0], env), Llvm(t.kids[1], env);
      if a.None? || b.None? then None
      else Some(if LlvmCompare(op, isUnsigned, t.ty.width, a.value, b.value) then 1 else 0)
  }

  // ----- C -----

  function CArith(op: ArithOp, a: CValue, b: CValue): Option<CValue> {
    var ty := Common(a.ty, b.ty);
    var x, y := Convert(a, ty).v, Convert(b, ty).v;
    match Exact(op, x, y)
    case None => None
    case Some(v) =>
      if ty.unsigned then Some(CValue(ty, Bits(v, ty.width)))
      else if !Fits(v, ty) || (op.Rem? && !Fits(Quotient(x, y), ty)) then None
      else Some(CValue(ty, v))
  }

  /** The bitwise operators work on the representations, two's complement for signed types. */
  function CBitwise(op: BitOp, a: CValue, b: CValue): CValue {
    var ty := Common(a.ty, b.ty);
    var x, y := Bits(Convert(a, ty).v, ty.width), Bits(Convert(b, ty).v, ty.width);
    CValue(ty, Interpret(BitwiseValue(op, x, y, ty.width), ty))
  }

  /** A shift has the promoted type of its left operand; negative counts, too large ones, and signed shifts
      of negative values or with overflow are undefined; section 6.5.7. */
  function CShl(a: CValue, b: CValue): Option<CValue> {
    var ty := Promote(a.ty);
    var x, y := Convert(a, ty).v, Convert(b, Promote(b.ty)).v;
    if y < 0 || y >= Digits(ty.width) then None
    else if ty.unsigned then Some(CValue(ty, Bits(x * Pow2(y), ty.width)))
    else if x < 0 || !Fits(x * Pow2(y), ty) then None
    else Some(CValue(ty, x * Pow2(y)))
  }

  function CCompare(op: CmpOp, a: CValue, b: CValue): CValue {
    var ty := Common(a.ty, b.ty);
    CValue(IntType(W32, false), if Compare(op, Convert(a, ty).v, Convert(b, ty).v) then 1 else 0)
  }

  /** Evaluation by the rules of C, which know nothing of recorded types except in casts and of operands. */
  function CEval(t: Tree, env: Env): Option<CValue>
    requires Shaped(t)
  {
    match t.kind
    case Other(v, _, _) => Some(Convert(CValue(t.ty, env(v)), t.ty))
    case Shl(_) =>
      var a, b := CEval(t.kids[0], env), CEval(t.kids[1], env);
      if a.None? || b.None? then None else CShl(a.value, b.value)
    case Cast =>
      var a := CEval(t.kids[0], env);
      if a.None? then None else Some(Convert(a.value, t.ty))
    case Arith(op, _) =>
      var a, b := CEval(t.kids[0], env), CEval(t.kids[1], env);
      if a.None? || b.None? then None else CArith(op, a.value, b.value)
    case Bitwise(op) =>
      var a, b := CEval(t.kids[0], env), CEval(t.kids[1], env);
      if a.None? || b.None? then None else Some(CBitwise(op, a.value, b.value))
    case Cmp(op, _) =>
      var a, b := CEval(t.kids[0], env), CEval(t.kids[1], env);
      if a.None? || b.None? then None else Some(CCompare(op, a.value, b.value))
  }

  // ----- the pass, as a function of trees -----

  function Toggle(ty: IntType): IntType {
    ty.(unsigned := !ty.unsigned)
  }

  function CastIfNeeded(t: Tree, isUnsigned: bool): Tree {
    if t.ty.unsigned != isUnsigned then Tree(Cast, Toggle(t.ty), [t]) else t
  }

  predicate CastsKids(k: Kind) {
    k.Arith? || k.Shl? || k.Cmp?
  }

  predicate Enters(k: Kind, i: nat) {
    k.Other? ==> i < k.enters
  }

  function KidOf(k: Kind, t: Tree): Tree {
    if CastsKids(k) then CastIfNeeded(t, k.isUnsigned) else t
  }

  /** Every operand of an arithmetic, shift or comparison node gets the node's signedness. */
  function WithCasts(t: Tree): Tree {
    Tree(t.kind, t.ty, seq(|t.kids|, i requires 0 <= i < |t.kids| => KidOf(t.kind, WithCasts(t.kids[i]))))
  }

  /** Nothing is left to do wherever the visitor goes. */
  predicate Done(t: Tree) {
    forall i :: 0 <= i < |t.kids| && Enters(t.kind, i) ==> Done(t.kids[i]) && KidOf(t.kind, t.kids[i]) == t.kids[i]
  }

  /** The visitor goes everywhere. */
  predicate AllEntered(t: Tree) {
    forall i :: 0 <= i < |t.kids| ==> (t.kind.Other? ==> i < t.kind.enters) && AllEntered(t.kids[i])
  }

  lemma {:induction false} DoneIsWithCasts(t: Tree)
    requires Done(t) && AllEntered(t)
    ensures WithCasts(t) == t
  {
    forall i | 0 <= i < |t.kids|
      ensures WithCasts(t).kids[i] == t.kids[i]
    {
      assert AllEntered(t.kids[i]) && Enters(t.kind, i);
      DoneIsWithCasts(t.kids[i]);
    }
  }

  lemma {:induction false} WithCastsShaped(t: Tree)
    requires Shaped(t)
    ensures Shaped(WithCasts(t))
  {
    if !t.kind.Other? {
      forall i | 0 <= i < |t.kids|
        ensures Shaped(KidOf(t.kind, WithCasts(t.kids[i])))
      {
        WithCastsShaped(t.kids[i]);
      }
    }
  }

  lemma {:induction false} UniformShaped(t: Tree)
    requires Uniform(t)
    ensures Shaped(t)
  {
    if !t.kind.Other? {
      forall i | 0 <= i < |t.kids|
        ensures Shaped(t.kids[i])
      {
        UniformShaped(t.kids[i]);
      }
    }
  }

  /** A second run adds no cast. */
  lemma {:induction false} WithCastsTwice(t: Tree)
    ensures WithCasts(WithCasts(t)) == WithCasts(t)
  {
    var s := WithCasts(t);
    forall i | 0 <= i < |t.kids|
      ensures KidOf(t.kind, WithCasts(s.kids[i])) == s.kids[i]
    {
      WithCastsTwice(t.kids[i]);
      var k := WithCasts(t.kids[i]);
      if s.kids[i] != k {
        assert s.kids[i] == Tree(Cast, Toggle(k.ty), [k]);
        assert WithCasts(s.kids[i]).kids == [k];
      }
    }
    assert WithCasts(s).kids == s.kids;
  }

  /** What is not entered does not matter for the value. */
  lemma {:induction false} DoneEvaluates(t: Tree, env: Env)
    requires Shaped(t) && Done(t)
    ensures Shaped(WithCasts(t)) && CEval(WithCasts(t), env) == CEval(t, env)
  {
    WithCastsShaped(t);
    if !t.kind.Other? {
      forall i | 0 <= i < |t.kids|
        ensures Shaped(WithCasts(t).kids[i]) && CEval(WithCasts(t).kids[i], env) == CEval(t.kids[i], env)
      {
        var k := t.kids[i];
        assert Enters(t.kind, i);
        DoneEvaluates(k, env);
        assert KidOf(t.kind, k) == k;
        assert WithCasts(k).ty == k.ty;
      }
    }
  }

  // ----- agreement -----

  /** A number of type `ty`, from its bits. */
  function Typed(ty: IntType, bits: Option<nat>): Option<CValue>
    requires bits.Some? ==> bits.value < Modulus(ty.width)
  {
    match bits
    case None => None
    case Some(b) => Some(CValue(ty, Interpret(b, ty)))
  }

  lemma {:induction false} QuotientBound(a: nat, b: nat)
    requires b > 0
    ensures a == a / b * b + a % b && 0 <= a % b < b && a % b <= a
    ensures a / b <= a && (b > 1 && a > 0 ==> a / b < a) && (b == 1 ==> a / b == a)
  {
    var q := a / b;
    assert a == q * b + a % b;
    if q > 0 {
      Times(b, q);
      assert b * q == q * b;
    }
  }

  lemma {:induction false} RemainderValue(x: int, y: int)
    requires y != 0
    ensures Remainder(x, y) == if x < 0 then -(Magnitude(x) % Magnitude(y)) else Magnitude(x) % Magnitude(y)
  {
    var a, b := Magnitude(x), Magnitude(y);
    QuotientBound(a, b);
    var q: int, c: int := a / b, b;
    assert q * c == (-q) * (-c) && (-q) * c == q * (-c) == -(q * c);
  }

  lemma {:induction false} RemainderFits(x: int, y: int, h: int)
    requires y != 0 && -h <= x < h && -h <= y < h
    ensures -h <= Remainder(x, y) < h
    ensures -h <= Quotient(x, y) < h <==> !(x == -h && y == -1)
  {
    QuotientBound(Magnitude(x), Magnitude(y));
    RemainderValue(x, y);
  }

  lemma {:induction false} InOneType(op: ArithOp, ty: IntType, x: int, y: int)
    requires IsWide(ty.width) && Fits(x, ty) && Fits(y, ty)
    ensures CArith(op, CValue(ty, x), CValue(ty, y)) ==
            match Exact(op, x, y) {
              case None => None
              case Some(v) =>
                if ty.unsigned then Some(CValue(ty, Bits(v, ty.width)))
                else if !Fits(v, ty) || (op.Rem? && !Fits(Quotient(x, y), ty)) then None
                else Some(CValue(ty, v))
            }
  {
    ConvertFits(CValue(ty, x), ty);
    ConvertFits(CValue(ty, y), ty);
  }

  /** What a signed operation gives in C, from LLVM's bits. */
  function AsSigned(r: Option<nat>, w: Width): Option<CValue>
    requires r.Some? ==> r.value < Modulus(w)
  {
    match r
    case None => None
    case Some(c) => Some(CValue(IntType(w, false), SignedValue(c, w)))
  }

  lemma {:induction false} RemainderAgrees(w: Width, x: int, y: int)
    requires IsWide(w) && Fits(x, IntType(w, false)) && Fits(y, IntType(w, false)) && y != 0
    ensures Fits(Remainder(x, y), IntType(w, false))
    ensures SignedValue(Bits(Remainder(x, y), w), w) == Remainder(x, y)
    ensures Fits(Quotient(x, y), IntType(w, false)) <==> !(x == -(Modulus(w) / 2) && y == -1)
  {
    RemainderFits(x, y, Modulus(w) / 2);
    ValueOfBits(Remainder(x, y), IntType(w, false));
  }

  lemma {:induction false} SignedAgrees(op: ArithOp, w: Width, a: nat, b: nat)
    requires IsWide(w) && a < Modulus(w) && b < Modulus(w)
    ensures var ty := IntType(w, false);
            CArith(op, CValue(ty, SignedValue(a, w)), CValue(ty, SignedValue(b, w))) == AsSigned(LlvmArith(op, false, w, a, b), w)
  {
    var ty := IntType(w, false);
    var x, y := SignedValue(a, w), SignedValue(b, w);
    InterpretFits(a, ty);
    InterpretFits(b, ty);
    InOneType(op, ty, x, y);
    if op.Rem? {
      if y != 0 {
        RemainderAgrees(w, x, y);
      }
    } else {
      var v := Exact(op, x, y);
      if v.Some? && Fits(v.value, ty) {
        ValueOfBits(v.value, ty);
      }
    }
  }

  /** One operation: both operands in the type of the operation. */
  lemma {:induction false} OperationAgrees(op: ArithOp, ty: IntType, a: nat, b: nat)
    requires IsWide(ty.width) && a < Modulus(ty.width) && b < Modulus(ty.width)
    ensures CArith(op, CValue(ty, Interpret(a, ty)), CValue(ty, Interpret(b, ty)))
            == Typed(ty, LlvmArith(op, ty.unsigned, ty.width, a, b))
  {
    if ty.unsigned {
      InOneType(op, ty, a, b);
    } else {
      assert ty == IntType(ty.width, false);
      SignedAgrees(op, ty.width, a, b);
    }
  }

  // ----- what C computes for any expression -----

  /** The type C gives to an expression. */
  function CType(t: Tree): (ty: IntType)
    requires Uniform(t)
    ensures !t.kind.Cmp? && IsWide(t.ty.width) ==> ty.width == t.ty.width
  {
    match t.kind
    case Cmp(_, _) => IntType(W32, false)
    case Arith(_, _) => Common(CType(t.kids[0]), CType(t.kids[1]))
    case Bitwise(_) => Common(CType(t.kids[0]), CType(t.kids[1]))
    case Shl(_) => Promote(CType(t.kids[0]))
    case _ => t.ty
  }

  /** The same expression, each operation with the signedness that C's conversions give it. */
  function Flagged(t: Tree): (r: Tree)
    requires Uniform(t)
    ensures Uniform(r) && r.ty == t.ty && r.kind.Cmp? == t.kind.Cmp?
  {
    var kids := if t.kind.Other? then t.kids else seq(|t.kids|, i requires 0 <= i < |t.kids| => Flagged(t.kids[i]));
    var kind := match t.kind
      case Arith(op, _) => Arith(op, Common(CType(t.kids[0]), CType(t.kids[1])).unsigned)
      case Cmp(op, _) => Cmp(op, Common(CType(t.kids[0]), CType(t.kids[1])).unsigned)
      case Shl(_) => Shl(CType(t.kids[0]).unsigned)
      case k => k;
    Tree(kind, t.ty, kids)
  }

  /** Converting to a type of the same width keeps the bits. */
  lemma {:induction false} ConvertedBits(b: nat, ty: IntType, to: IntType)
    requires b < Modulus(ty.width) && to.width == ty.width
    ensures Convert(CValue(ty, Interpret(b, ty)), to) == CValue(to, Interpret(b, to))
  {
    BitsOfValue(b, ty);
  }

  lemma {:induction false} BothConverted(a: nat, s: IntType, b: nat, t: IntType)
    requires IsWide(s.width) && s.width == t.width && a < Modulus(s.width) && b < Modulus(s.width)
    ensures var ty := Common(s, t);
            && ty == IntType(s.width, s.unsigned || t.unsigned)
            && Convert(CValue(s, Interpret(a, s)), ty) == Convert(CValue(ty, Interpret(a, ty)), ty) == CValue(ty, Interpret(a, ty))
            && Convert(CValue(t, Interpret(b, t)), ty) == Convert(CValue(ty, Interpret(b, ty)), ty) == CValue(ty, Interpret(b, ty))
  {
    var ty := Common(s, t);
    ConvertedBits(a, s, ty);
    ConvertedBits(b, t, ty);
    ConvertedBits(a, ty, ty);
    ConvertedBits(b, ty, ty);
  }

  lemma {:induction false} ArithComputes(op: ArithOp, a: nat, s: IntType, b: nat, t: IntType)
    requires IsWide(s.width) && s.width == t.width && a < Modulus(s.width) && b < Modulus(s.width)
    ensures var ty := Common(s, t);
            CArith(op, CValue(s, Interpret(a, s)), CValue(t, Interpret(b, t))) == Typed(ty, LlvmArith(op, ty.unsigned, ty.width, a, b))
  {
    BothConverted(a, s, b, t);
    OperationAgrees(op, Common(s, t), a, b);
  }

  lemma {:induction false} BitwiseComputes(op: BitOp, a: nat, s: IntType, b: nat, t: IntType)
    requires IsWide(s.width) && s.width == t.width && a < Modulus(s.width) && b < Modulus(s.width)
    ensures var ty := Common(s, t);
            CBitwise(op, CValue(s, Interpret(a, s)), CValue(t, Interpret(b, t)))
            == CValue(ty, Interpret(BitwiseValue(op, a, b, ty.width), ty))
  {
    BothConverted(a, s, b, t);
    BitsOfValue(a, Common(s, t));
    BitsOfValue(b, Common(s, t));
  }

  lemma {:induction false} CompareComputes(op: CmpOp, a: nat, s: IntType, b: nat, t: IntType)
    requires IsWide(s.width) && s.width == t.width && a < Modulus(s.width) && b < Modulus(s.width)
    ensures var ty := Common(s, t);
            CCompare(op, CValue(s, Interpret(a, s)), CValue(t, Interpret(b, t)))
            == CValue(IntType(W32, false), if LlvmCompare(op, ty.unsigned, ty.width, a, b) then 1 else 0)
  {
    BothConverted(a, s, b, t);
  }

  // ----- shifts -----

  /** C shifts as LLVM does, except that it leaves signed shifts of negative values undefined. */
  lemma {:induction false} ShlComputes(a: nat, s: IntType, b: nat, t: IntType)
    requires IsWide(s.width) && s.width == t.width && a < Modulus(s.width) && b < Modulus(s.width)
    ensures var r := CShl(CValue(s, Interpret(a, s)), CValue(t, Interpret(b, t)));
            r == if !s.unsigned && Interpret(a, s) < 0 then None else Typed(s, LlvmShl(s.unsigned, s.width, a, b))
  {
    ConvertedBits(a, s, s);
    ConvertedBits(b, t, t);
    ShiftCount(b, t);
    if b < Digits(s.width) && !s.unsigned && Interpret(a, s) >= 0 {
      SignedShift(a, b, s);
    }
  }

  /** A count that is in range is the same number with either sign, and one that is not is not. */
  lemma {:induction false} ShiftCount(b: nat, t: IntType)
    requires b < Modulus(t.width)
    ensures Interpret(b, t) < 0 || Interpret(b, t) >= Digits(t.width) <==> b >= Digits(t.width)
    ensures b < Digits(t.width) ==> Interpret(b, t) == b
  {
  }

  lemma {:induction false} SignedShift(a: nat, b: nat, s: IntType)
    requires a < Modulus(s.width) && !s.unsigned && Interpret(a, s) >= 0
    ensures var v := SignedValue(a, s.width) * Pow2(b);
            Fits(v, s) ==> Interpret(Bits(v, s.width), s) == v
  {
    var v := SignedValue(a, s.width) * Pow2(b);
    if Fits(v, s) {
      ValueOfBits(v, s);
    }
  }

  /** No signed shift that LLVM defines meets a negative value. */
  ghost predicate ShiftsDefined(t: Tree, env: Env)
    requires Uniform(t)
  {
    !t.kind.Other? ==>
      && (forall i :: 0 <= i < |t.kids| ==> ShiftsDefined(t.kids[i], env))
      && (t.kind == Shl(false) && Llvm(t, env).Some? ==> SignedValue(Llvm(t.kids[0], env).value, t.ty.width) >= 0)
  }

  /** Whatever is recorded: C computes the bits LLVM would compute if each operation had the signedness
      that the usual arithmetic conversions give it. */
  lemma {:induction false} CComputes(t: Tree, env: Env)
    requires Uniform(t) && IsWide(t.ty.width) && !t.kind.Cmp? && ShiftsDefined(Flagged(t), env)
    ensures Shaped(t) && CEval(t, env) == Typed(CType(t), Llvm(Flagged(t), env))
  {
    UniformShaped(t);
    if !t.kind.Other? {
      forall i | 0 <= i < |t.kids|
        ensures CEval(t.kids[i], env) == Typed(CType(t.kids[i]), Llvm(Flagged(t.kids[i]), env))
      {
        assert Flagged(t).kids[i] == Flagged(t.kids[i]);
        CComputes(t.kids[i], env);
      }
    }
    OneComputes(t, env);
  }

  lemma {:induction false} OneComputes(t: Tree, env: Env)
    requires Uniform(t) && IsWide(t.ty.width) && !t.kind.Cmp? && Shaped(t) && ShiftsDefined(Flagged(t), env)
    requires !t.kind.Other? ==> forall i :: 0 <= i < |t.kids| ==> CEval(t.kids[i], env) == Typed(CType(t.kids[i]), Llvm(Flagged(t.kids[i]), env))
    ensures CEval(t, env) == Typed(CType(t), Llvm(Flagged(t), env))
  {
    match t.kind
    case Other(v, _, _) =>
    case Cast =>
      var a := Llvm(Flagged(t.kids[0]), env);
      if a.Some? {
        ConvertedBits(a.value, CType(t.kids[0]), t.ty);
      }
    case Arith(op, _) =>
      var a, b := Llvm(Flagged(t.kids[0]), env), Llvm(Flagged(t.kids[1]), env);
      if a.Some? && b.Some? {
        ArithComputes(op, a.value, CType(t.kids[0]), b.value, CType(t.kids[1]));
      }
    case Bitwise(op) =>
      var a, b := Llvm(Flagged(t.kids[0]), env), Llvm(Flagged(t.kids[1]), env);
      if a.Some? && b.Some? {
        BitwiseComputes(op, a.value, CType(t.kids[0]), b.value, CType(t.kids[1]));
      }
    case Shl(_) =>
      var a, b := Llvm(Flagged(t.kids[0]), env), Llvm(Flagged(t.kids[1]), env);
      if a.Some? && b.Some? {
        ShlComputes(a.value, CType(t.kids[0]), b.value, CType(t.kids[1]));
        assert Flagged(t).kids == [Flagged(t.kids[0]), Flagged(t.kids[1])];
      }
  }

  /** The truth value of a comparison, from bits. */
  function Truth(bits: Option<nat>): Option<CValue> {
    match bits
    case None => None
    case Some(b) => Some(CValue(IntType(W32, false), b))
  }

  lemma {:induction false} CCompares(t: Tree, env: Env)
    requires Uniform(t) && IsWide(t.ty.width) && t.kind.Cmp? && ShiftsDefined(Flagged(t), env)
    ensures Shaped(t) && CEval(t, env) == Truth(Llvm(Flagged(t), env))
  {
    UniformShaped(t);
    assert Flagged(t).kids[0] == Flagged(t.kids[0]) && Flagged(t).kids[1] == Flagged(t.kids[1]);
    CComputes(t.kids[0], env);
    CComputes(t.kids[1], env);
    var a, b := Llvm(Flagged(t.kids[0]), env), Llvm(Flagged(t.kids[1]), env);
    if a.Some? && b.Some? {
      CompareComputes(t.kind.cmp, a.value, CType(t.kids[0]), b.value, CType(t.kids[1]));
    }
  }

  // ----- what the pass achieves -----

  /** With the casts, C gives every operation the signedness of its flag, and every expression the
      recorded type. */
  lemma {:induction false} CastsGiveFlags(t: Tree, env: Env)
    requires WellTyped(t) && IsWide(t.ty.width)
    ensures var c := WithCasts(t);
            && Uniform(c) && (!t.kind.Cmp? ==> CType(c) == t.ty)
            && Llvm(Flagged(c), env) == Llvm(t, env)
            && (ShiftsDefined(Flagged(c), env) <==> ShiftsDefined(t, env))
  {
    if !t.kind.Other? {
      forall i | 0 <= i < |t.kids|
        ensures KidGivesFlags(t, i, env)
      {
        CastsGiveFlags(t.kids[i], env);
        OperandGivesFlags(t, i, env);
      }
      WithCastsUniform(t, env);
      OneGivesFlags(t, env);
    }
  }

  ghost predicate KidGivesFlags(t: Tree, i: nat, env: Env)
    requires WellTyped(t) && IsWide(t.ty.width) && !t.kind.Other? && i < |t.kids|
  {
    var o := KidOf(t.kind, WithCasts(t.kids[i]));
    && Uniform(o) && !o.kind.Cmp? && o.ty.width == t.ty.width
    && CType(o) == (if CastsKids(t.kind) then IntType(t.ty.width, t.kind.isUnsigned) else t.kids[i].ty)
    && Llvm(Flagged(o), env) == Llvm(t.kids[i], env)
    && (ShiftsDefined(Flagged(o), env) <==> ShiftsDefined(t.kids[i], env))
  }

  lemma {:induction false} CastGivesFlags(c: Tree, ty: IntType, env: Env)
    requires Uniform(c) && !c.kind.Cmp? && ty.width == c.ty.width
    ensures var o := Tree(Cast, ty, [c]);
            && Uniform(o) && CType(o) == ty && Llvm(Flagged(o), env) == Llvm(Flagged(c), env)
            && (ShiftsDefined(Flagged(o), env) <==> ShiftsDefined(Flagged(c), env))
  {
    assert Flagged(Tree(Cast, ty, [c])).kids == [Flagged(c)];
  }

  lemma {:induction false} OperandGivesFlags(t: Tree, i: nat, env: Env)
    requires WellTyped(t) && IsWide(t.ty.width) && !t.kind.Other? && i < |t.kids|
    requires var c := WithCasts(t.kids[i]);
             && Uniform(c) && CType(c) == t.kids[i].ty && Llvm(Flagged(c), env) == Llvm(t.kids[i], env)
             && (ShiftsDefined(Flagged(c), env) <==> ShiftsDefined(t.kids[i], env))
    ensures KidGivesFlags(t, i, env)
  {
    var c := WithCasts(t.kids[i]);
    var o := KidOf(t.kind, c);
    if o != c {
      CastGivesFlags(c, Toggle(c.ty), env);
    }
  }

  lemma {:induction false} WithCastsUniform(t: Tree, env: Env)
    requires WellTyped(t) && IsWide(t.ty.width) && !t.kind.Other? && forall i :: 0 <= i < |t.kids| ==> KidGivesFlags(t, i, env)
    ensures Uniform(WithCasts(t))
  {
    forall i | 0 <= i < |t.kids|
      ensures var o := WithCasts(t).kids[i]; Uniform(o) && !o.kind.Cmp? && o.ty.width == t.ty.width
    {
      assert KidGivesFlags(t, i, env);
    }
  }

  lemma {:induction false} FlaggedKids(c: Tree)
    requires Uniform(c) && !c.kind.Other?
    ensures |Flagged(c).kids| == |c.kids| && forall i :: 0 <= i < |c.kids| ==> Flagged(c).kids[i] == Flagged(c.kids[i])
  {
  }

  lemma {:induction false} OneGivesFlags(t: Tree, env: Env)
    requires WellTyped(t) && IsWide(t.ty.width) && !t.kind.Other? && Uniform(WithCasts(t))
    requires forall i :: 0 <= i < |t.kids| ==> KidGivesFlags(t, i, env)
    ensures var c := WithCasts(t);
            && (!t.kind.Cmp? ==> CType(c) == t.ty)
            && Llvm(Flagged(c), env) == Llvm(t, env)
            && (ShiftsDefined(Flagged(c), env) <==> ShiftsDefined(t, env))
  {
    var c := WithCasts(t);
    FlaggedKids(c);
    forall i | 0 <= i < |t.kids|
      ensures c.kids[i] == KidOf(t.kind, WithCasts(t.kids[i])) && Llvm(Flagged(c.kids[i]), env) == Llvm(t.kids[i], env)
      ensures ShiftsDefined(Flagged(c.kids[i]), env) <==> ShiftsDefined(t.kids[i], env)
      ensures CType(c.kids[i]) == (if CastsKids(t.kind) then IntType(t.ty.width, t.kind.isUnsigned) else t.kids[i].ty)
    {
      assert KidGivesFlags(t, i, env);
    }
    KindKept(t, c);
    SameShifts(t, Flagged(c), env);
  }

  /** The flag that C's conversions give the operation is its own. */
  lemma {:induction false} KindKept(t: Tree, c: Tree)
    requires WellTyped(t) && IsWide(t.ty.width) && !t.kind.Other? && Uniform(c) && c.kind == t.kind && c.ty == t.ty
    requires forall i :: 0 <= i < |c.kids| ==>
               CType(c.kids[i]) == if CastsKids(t.kind) then IntType(t.ty.width, t.kind.isUnsigned) else t.kids[i].ty
    ensures Flagged(c).kind == t.kind && (!t.kind.Cmp? ==> CType(c) == t.ty)
  {
    var left := CType(c.kids[0]);
    if !t.kind.Cast? {
      var right := CType(c.kids[1]);
    }
  }

  /** Equal kinds over equal values have equal values. */
  lemma {:induction false} SameShifts(t: Tree, f: Tree, env: Env)
    requires Uniform(t) && Uniform(f) && f.kind == t.kind && f.ty == t.ty && !t.kind.Other?
    requires forall i :: 0 <= i < |t.kids| ==> Llvm(f.kids[i], env) == Llvm(t.kids[i], env)
    requires forall i :: 0 <= i < |t.kids| ==> (ShiftsDefined(f.kids[i], env) <==> ShiftsDefined(t.kids[i], env))
    ensures Llvm(f, env) == Llvm(t, env)
    ensures ShiftsDefined(f, env) <==> ShiftsDefined(t, env)
  {
    assert Llvm(f.kids[0], env) == Llvm(t.kids[0], env);
    if !t.kind.Cast? {
      assert Llvm(f.kids[1], env) == Llvm(t.kids[1], env);
    }
  }

  /** For every tree: after the pass, C computes the bits LLVM computes, in the recorded type, and is
      undefined exactly where LLVM gives poison or undefined behaviour. */
  lemma {:induction false} CastsAgree(t: Tree, env: Env)
    requires WellTyped(t) && IsWide(t.ty.width) && !t.kind.Cmp? && ShiftsDefined(t, env)
    ensures Shaped(WithCasts(t)) && CEval(WithCasts(t), env) == Typed(t.ty, Llvm(t, env))
  {
    CastsGiveFlags(t, env);
    CComputes(WithCasts(t), env);
  }

  /** A comparison at the root has the truth value of `icmp`. */
  lemma {:induction false} ComparisonAgrees(t: Tree, env: Env)
    requires WellTyped(t) && IsWide(t.ty.width) && t.kind.Cmp? && ShiftsDefined(t, env)
    ensures Shaped(WithCasts(t)) && CEval(WithCasts(t), env) == Truth(Llvm(t, env))
  {
    CastsGiveFlags(t, env);
    CCompares(WithCasts(t), env);
  }

  /** The expression and all its parts have LLVM's values in C. */
  ghost predicate RightEverywhere(t: Tree, env: Env)
    requires WellTyped(t) && !t.kind.Cmp?
  {
    && Shaped(WithCasts(t)) && CEval(WithCasts(t), env) == Typed(t.ty, Llvm(t, env))
    && (!t.kind.Other? ==> forall i :: 0 <= i < |t.kids| ==> RightEverywhere(t.kids[i], env))
  }

  /** With shifts, exactly if none is a signed one, defined by LLVM, of a negative value. */
  lemma {:induction false} ShiftsExact(t: Tree, env: Env)
    requires WellTyped(t) && IsWide(t.ty.width) && !t.kind.Cmp?
    ensures RightEverywhere(t, env) <==> ShiftsDefined(t, env)
  {
    if !t.kind.Other? {
      forall i | 0 <= i < |t.kids|
        ensures RightEverywhere(t.kids[i], env) <==> ShiftsDefined(t.kids[i], env)
      {
        ShiftsExact(t.kids[i], env);
      }
    }
    if ShiftsDefined(t, env) {
      CastsAgree(t, env);
    } else if RightEverywhere(t, env) {
      NegativeShift(t, env);
    }
  }

  /** After the pass, C leaves a signed shift of a negative value undefined. */
  lemma {:induction false} NegativeShift(t: Tree, env: Env)
    requires WellTyped(t) && IsWide(t.ty.width) && t.kind == Shl(false) && Llvm(t, env).Some?
    requires SignedValue(Llvm(t.kids[0], env).value, t.ty.width) < 0
    requires forall i :: 0 <= i < 2 ==> ShiftsDefined(t.kids[i], env)
    ensures Shaped(WithCasts(t)) && CEval(WithCasts(t), env) == None
  {
    var c := WithCasts(t);
    CastsGiveFlags(t, env);
    UniformShaped(c);
    forall i | 0 <= i < 2
      ensures Uniform(c.kids[i]) && CEval(c.kids[i], env) == Typed(IntType(t.ty.width, false), Llvm(t.kids[i], env))
    {
      CastsGiveFlags(t.kids[i], env);
      OperandGivesFlags(t, i, env);
      assert c.kids[i] == KidOf(t.kind, WithCasts(t.kids[i]));
      CComputes(c.kids[i], env);
    }
    var ty := IntType(t.ty.width, false);
    ShlComputes(Llvm(t.kids[0], env).value, ty, Llvm(t.kids[1], env).value, ty);
  }

  // ----- comparison predicates -----

  datatype Predicate = EQ | NE | UGT | UGE | ULT | ULE | SGT | SGE | SLT | SLE

  predicate IsIntegerCompareUnsigned(p: Predicate) {
    match p
    case EQ => true
    case NE => true
    case UGT => true
    case UGE => true
    case ULT => true
    case ULE => true
    case _ => false
  }

  function ComparePredicate(p: Predicate): CmpOp {
    match p
    case EQ => Eq
    case NE => Ne
    case UGT => Gt
    case SGT => Gt
    case UGE => Ge
    case SGE => Ge
    case ULT => Lt
    case SLT => Lt
    case ULE => Le
    case SLE => Le
  }

  /** `icmp`, by the LLVM Language Reference. */
  predicate Icmp(p: Predicate, a: nat, b: nat, w: Width)
    requires a < Modulus(w) && b < Modulus(w)
  {
    var x, y := SignedValue(a, w), SignedValue(b, w);
    match p
    case EQ => a == b
    case NE => a != b
    case UGT => a > b
    case UGE => a >= b
    case ULT => a < b
    case ULE => a <= b
    case SGT => x > y
    case SGE => x >= y
    case SLT => x < y
    case SLE => x <= y
  }

  /** The two tables together: symbol and flag say what the predicate says. */
  lemma {:induction false} PredicateTables(p: Predicate, a: nat, b: nat, w: Width)
    requires a < Modulus(w) && b < Modulus(w)
    ensures Icmp(p, a, b, w) <==>
            if IsIntegerCompareUnsigned(p) then Compare(ComparePredicate(p), a, b)
            else Compare(ComparePredicate(p), SignedValue(a, w), SignedValue(b, w))
  {
  }

  /** The flag says for exactly which predicates the operands may be compared as unsigned numbers. */
  lemma {:induction false} FlagExact(p: Predicate, w: Width)
    ensures IsIntegerCompareUnsigned(p)
            <==> forall a: nat, b: nat :: a < Modulus(w) && b < Modulus(w) ==> (Icmp(p, a, b, w) <==> Compare(ComparePredicate(p), a, b))
  {
    var top: nat := Modulus(w) - 1;
    if !IsIntegerCompareUnsigned(p) {
      assert SignedValue(top, w) == -1 && SignedValue(0, w) == 0;
      assert Icmp(p, top, 0, w) != Compare(ComparePredicate(p), top, 0);
    }
  }

  /** From `icmp` to printed C: the symbol and the flag of the tables, and the casts, give its truth. */
  lemma {:induction false} IcmpAgrees(p: Predicate, t: Tree, env: Env)
    requires WellTyped(t) && IsWide(t.ty.width) && t.kind == Cmp(ComparePredicate(p), IsIntegerCompareUnsigned(p)) && ShiftsDefined(t, env)
    ensures Shaped(WithCasts(t))
    ensures var a, b := Llvm(t.kids[0], env), Llvm(t.kids[1], env);
            if a.None? || b.None? then CEval(WithCasts(t), env) == None
            else CEval(WithCasts(t), env)
                 == Some(CValue(IntType(W32, false), if Icmp(p, a.value, b.value, t.ty.width) then 1 else 0))
  {
    ComparisonAgrees(t, env);
    var a, b := Llvm(t.kids[0], env), Llvm(t.kids[1], env);
    if a.Some? && b.Some? {
      PredicateTables(p, a.value, b.value, t.ty.width);
    }
  }

  // ----- why the casts -----

  /** `-1 < 1`, unsigned in LLVM, on variables recorded as signed: without casts C says yes. */
  lemma {:induction false} CastsAreNeeded(env: Env, t: Tree)
    requires env(0) == 0xFFFF_FFFF && env(1) == 1
    requires t == Tree(Cmp(Lt, true), IntType(W32, false),
                       [Tree(Other(0, 0, 0), IntType(W32, false), []), Tree(Other(1, 0, 0), IntType(W32, false), [])])
    ensures WellTyped(t) && Shaped(t) && Llvm(t, env) == Some(0)
    ensures CEval(t, env) == Some(CValue(IntType(W32, false), 1))
  {
    var int32 := IntType(W32, false);
    assert Uniform(t.kids[0]) && Uniform(t.kids[1]);
    assert Llvm(t.kids[0], env) == Some(0xFFFF_FFFF) && Llvm(t.kids[1], env) == Some(1);
    assert CEval(t.kids[0], env) == Some(CValue(int32, -1)) && CEval(t.kids[1], env) == Some(CValue(int32, 1));
    ConvertFits(CValue(int32, -1), int32);
    ConvertFits(CValue(int32, 1), int32);
  }

  // ----- how many casts -----

  function CastCount(t: Tree): nat {
    (if t.kind.Cast? then 1 else 0) + CastCounts(t, |t.kids|)
  }

  function CastCounts(t: Tree, n: nat): nat
    requires n <= |t.kids|
    decreases t, n
  {
    if n == 0 then 0 else CastCounts(t, n - 1) + CastCount(t.kids[n - 1])
  }

  /** Operands of arithmetic, shifts and comparisons that are recorded with the other sign. */
  function Mismatches(t: Tree): nat {
    MismatchesIn(t, |t.kids|)
  }

  function MismatchesIn(t: Tree, n: nat): nat
    requires n <= |t.kids|
    decreases t, n
  {
    if n == 0 then 0
    else
      MismatchesIn(t, n - 1) + Mismatches(t.kids[n - 1])
      + if (t.kind.Arith? || t.kind.Shl? || t.kind.Cmp?) && t.kids[n - 1].ty.unsigned != t.kind.isUnsigned then 1 else 0
  }

  /** One cast for every mismatched operand, and no other. */
  lemma {:induction false} CastsAdded(t: Tree)
    ensures CastCount(WithCasts(t)) == CastCount(t) + Mismatches(t)
    decreases t, |t.kids| + 1
  {
    CastsAddedIn(t, |t.kids|);
  }

  lemma {:induction false} CastsAddedIn(t: Tree, n: nat)
    requires n <= |t.kids|
    ensures |WithCasts(t).kids| == |t.kids| && CastCounts(WithCasts(t), n) == CastCounts(t, n) + MismatchesIn(t, n)
    decreases t, n
  {
    if n > 0 {
      CastsAddedIn(t, n - 1);
      CastsAdded(t.kids[n - 1]);
      var k := WithCasts(t.kids[n - 1]);
      var o := WithCasts(t).kids[n - 1];
      assert o == KidOf(t.kind, k);
      if o != k {
        assert CastCounts(o, 1) == CastCounts(o, 0) + CastCount(k);
      }
    }
  }
}
