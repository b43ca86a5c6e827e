/** Reading printed expressions back: what the C grammar makes of the printed text, and when that is
    the expression that was meant. */
module PrintParse {
  import opened CGrammar
  import opened ExprPrinting
  import opened ExprTokens

  // ----- what is meant -----

  function LeafTree(v: Leaf): CTree {
    match v
    case Name(x) => CId(x)
    case Number(n) => CNum(n)
    case Negative(n) => CUnary(Negate, CNum(n))
    case Address(x) => CUnary(AddressOf, CId(x))
  }

  /** Index lists stand for their last element, a shifted pointer for the object it points to. */
  function Tree(e: Expr): CTree
    requires Valid(e)
  {
    match e
    case Value(v) => LeafTree(v)
    case Member(x, name, pointer) => if pointer then CArrow(Tree(x), name) else CMember(Tree(x), name)
    case Element(x, i) => CIndex(Tree(x), Tree(i))
    case Last(es) => Tree(es[|es| - 1])
    case CallExpr(f, ps) => CCall(Tree(f), seq(|ps|, i requires 0 <= i < |ps| => Tree(ps[i])))
    case PointerShift(ty, p, m) => if m == Value(Number(0)) then Tree(p) else CUnary(Indirect, CBinary(Add, CCast(ty, Tree(p)), Tree(m)))
    case Select(c, l, r, negate) => CCond(if negate then CUnary(Not, Tree(c)) else Tree(c), Tree(l), Tree(r))
    case Unary(u, x) => CUnary(u, Tree(x))
    case CastExpr(ty, x) => CCast(ty, Tree(x))
    case Binary(Plain(o), l, r) => CBinary(o, Tree(l), Tree(r))
    case Binary(AndExpr(leftBool, rightBool), l, r) => if leftBool && rightBool then CBinary(And, Tree(l), Tree(r)) else CBinary(BitAnd, Tree(l), Tree(r))
    case AssignExpr(l, r) => CAssign(Tree(l), Tree(r))
    case Lshr(l, r, cast) => CBinary(Shr, if cast.Some? then CCast(cast.value, Tree(l)) else Tree(l), Tree(r))
  }

  // ----- what the grammar makes of it -----

  /** The sign or address operator that an unparenthesised operand begins with. */
  function Leads(e: Expr): (u: Option<UnOp>)
    ensures u.Some? ==> u.value == Negate || u.value == AddressOf
  {
    match e
    case Value(Negative(_)) => Some(Negate)
    case Value(Address(_)) => Some(AddressOf)
    case CallExpr(f, _) => Leads(f)
    case _ => None
  }

  predicate IsNumber(e: Expr) {
    e.Value? && (e.v.Number? || e.v.Negative?)
  }

  datatype Suffix = SMember(name: string) | SArrow(name: string) | SIndex(i: CTree) | SCall(args: seq<CTree>)

  function Apply(s: Suffix, t: CTree): CTree {
    match s
    case SMember(name) => CMember(t, name)
    case SArrow(name) => CArrow(t, name)
    case SIndex(i) => CIndex(t, i)
    case SCall(args) => CCall(t, args)
  }

  /** A suffix binds tighter than an operator in front. */
  function Attach(lead: bool, s: Suffix, t: CTree): CTree {
    if lead && t.CUnary? then CUnary(t.u, Apply(s, t.e)) else Apply(s, t)
  }

  function Regroup(e: Expr): (t: CTree)
    requires Valid(e)
    ensures Leads(e).Some? ==> t.CUnary? && t.u == Leads(e).value
  {
    match e
    case Value(v) => LeafTree(v)
    case Member(x, name, pointer) => Attach(Leads(x).Some?, if pointer then SArrow(name) else SMember(name), Regroup(x))
    case Element(x, i) => Attach(Leads(x).Some?, SIndex(Regroup(i)), Regroup(x))
    case Last(es) => Regroup(es[|es| - 1])
    case CallExpr(f, ps) =>
      Attach(Leads(f).Some?, SCall(seq(|ps|, i requires 0 <= i < |ps| => Regroup(ps[i]))), Regroup(f))
    case PointerShift(ty, p, m) =>
      if IsZero(m) then Regroup(p) else CUnary(Indirect, CBinary(Add, CCast(ty, Regroup(p)), Regroup(m)))
    case Select(c, l, r, negate) => CCond(if negate then CUnary(Not, Regroup(c)) else Regroup(c), Regroup(l), Regroup(r))
    case Unary(u, x) => CUnary(u, Regroup(x))
    case CastExpr(ty, x) => CCast(ty, Regroup(x))
    case Binary(op, l, r) => CBinary(Symbol(op), Regroup(l), Regroup(r))
    case AssignExpr(l, r) => CAssign(Regroup(l), Regroup(r))
    case Lshr(l, r, cast) => CBinary(Shr, if cast.Some? then CCast(cast.value, Regroup(l)) else Regroup(l), Regroup(r))
  }

  /** No two tokens are taken for one: no `--`, `&&` or `5.x` arises. */
  predicate Unglued(e: Expr) {
    match e
    case Value(_) => true
    case Member(x, _, pointer) => Unglued(x) && (pointer || !IsNumber(x))
    case Element(x, i) => Unglued(x) && Unglued(i)
    case Last(es) => es != [] ==> Unglued(es[|es| - 1])
    case CallExpr(f, ps) => Unglued(f) && forall i :: 0 <= i < |ps| ==> Unglued(ps[i])
    case PointerShift(_, p, m) => Unglued(p) && Unglued(m)
    case Select(c, l, r, _) => Unglued(c) && Unglued(l) && Unglued(r)
    case Unary(u, x) => Unglued(x) && Leads(x) != Some(u)
    case CastExpr(_, x) => Unglued(x)
    case Binary(_, l, r) => Unglued(l) && Unglued(r)
    case AssignExpr(l, r) => Unglued(l) && Unglued(r)
    case Lshr(l, r, _) => Unglued(l) && Unglued(r)
  }

  // ----- what may follow -----

  predicate StartsSuffix(k: Toks) {
    k.Cons? && (k.head.LBracket? || k.head.LParen? || k.head.Dot? || k.head.Arrow?)
  }

  /** The end of an assignment expression. */
  predicate Stops(k: Toks) {
    k.Cons? ==> k.head.RParen? || k.head.RBracket? || k.head.Colon? || k.head.Comma?
  }

  predicate StopsExpr(k: Toks) {
    Stops(k) && (k.Cons? ==> !k.head.Comma?)
  }

  /** No binary operator follows that would take the operand. */
  predicate NoOperator(k: Toks, above: nat) {
    k.Cons? && k.head.Op? ==> Level(k.head.op) <= above
  }

  // ----- climbing the levels of the grammar -----

  lemma {:induction false} Climb(p: nat, q: nat, ts: Toks, t: CTree, k: Toks)
    requires 1 <= q <= p <= 11 && ParseBinary(p, ts) == Ok(t, k) && NoOperator(k, q - 1)
    ensures ParseBinary(q, ts) == Ok(t, k)
    decreases p - q
  {
    if q < p {
      Climb(p, q + 1, ts, t, k);
    }
  }

  lemma {:induction false} CastToConditional(ts: Toks, t: CTree, k: Toks)
    requires ParseCast(ts) == Ok(t, k) && NoOperator(k, 0) && (k.Cons? ==> !k.head.Question?)
    ensures ParseConditional(ts) == Ok(t, k)
  {
    Climb(11, 1, ts, t, k);
  }

  /** A unary expression on its own is an assignment expression. */
  lemma {:induction false} UnaryToAssignment(ts: Toks, t: CTree, k: Toks)
    requires ParseUnary(ts) == Ok(t, k) && !StartsCast(ts) && Stops(k)
    ensures ParseAssignment(ts) == Ok(t, k)
  {
    CastToConditional(ts, t, k);
  }

  lemma {:induction false} AssignmentToExpr(ts: Toks, t: CTree, k: Toks)
    requires ParseAssignment(ts) == Ok(t, k) && StopsExpr(k)
    ensures ParseExpr(ts) == Ok(t, k)
  {
  }

  /** A parenthesised type name is no expression. */
  lemma {:induction false} TypeNameFails(ty: string, k: Toks)
    ensures ParseAssignment(Cons(TypeName(ty), k)) == Fail && ParseExpr(Cons(TypeName(ty), k)) == Fail
  {
    var ts := Cons(TypeName(ty), k);
    assert ParsePrimary(ts) == Fail;
    assert ParseUnary(ts) == Fail;
    assert ParseCast(ts) == Fail;
    BinaryFails(1, ts);
  }

  lemma {:induction false} BinaryFails(p: nat, ts: Toks)
    requires 1 <= p <= 11 && ParseCast(ts) == Fail
    ensures ParseBinary(p, ts) == Fail
    decreases 11 - p
  {
    if p < 11 {
      BinaryFails(p + 1, ts);
    }
  }

  /** A cast is a conditional expression, not a unary one. */
  lemma {:induction false} CastToAssignment(ty: string, ts: Toks, t: CTree, k: Toks)
    requires ParseCast(ts) == Ok(t, k) && Stops(k)
    ensures ParseCast(CastTo(ty, ts)) == Ok(CCast(ty, t), k)
    ensures ParseUnary(CastTo(ty, ts)) == Fail
    ensures ParseAssignment(CastTo(ty, ts)) == Ok(CCast(ty, t), k)
  {
    CastFailsAsUnary(ty, ts);
    CastToConditional(CastTo(ty, ts), CCast(ty, t), k);
  }

  lemma {:induction false} CastFailsAsUnary(ty: string, ts: Toks)
    ensures ParseUnary(CastTo(ty, ts)) == Fail
  {
    TypeNameFails(ty, Cons(RParen, ts));
    assert ParsePrimary(CastTo(ty, ts)) == Fail;
    assert ParsePostfix(CastTo(ty, ts)) == Fail;
  }

  /** One binary operator between two cast expressions. */
  lemma {:induction false} OperatorParses(op: BinOp, ts: Toks, l: CTree, rs: Toks, r: CTree, k: Toks)
    requires ParseCast(ts) == Ok(l, Cons(Op(op), rs)) && ParseCast(rs) == Ok(r, k) && Stops(k)
    ensures ParseConditional(ts) == Ok(CBinary(op, l, r), k)
  {
    var p := Level(op);
    Climb(11, p + 1, ts, l, Cons(Op(op), rs));
    Climb(11, p + 1, rs, r, k);
    assert ParseOperators(p, CBinary(op, l, r), k) == Ok(CBinary(op, l, r), k);
    assert ParseOperators(p, l, Cons(Op(op), rs)) == Ok(CBinary(op, l, r), k);
    assert ParseBinary(p, ts) == Ok(CBinary(op, l, r), k);
    Climb(p, 1, ts, CBinary(op, l, r), k);
  }

  // ----- parsing what is printed -----

  /** No printed expression begins with a type name or a closing parenthesis. */
  lemma {:induction false} Begins(e: Expr, k: Toks)
    requires Valid(e)
    ensures OperandTo(e, k).Cons? && !OperandTo(e, k).head.TypeName? && !OperandTo(e, k).head.RParen?
    ensures TextTo(e, k).Cons? && !TextTo(e, k).head.TypeName? && !TextTo(e, k).head.RParen?
    decreases e
  {
    match e
    case Member(x, name, pointer) => Begins(x, Cons(if pointer then Arrow else Dot, Cons(Id(name), k)));
    case Element(x, i) => Begins(x, Cons(LBracket, TextTo(i, Cons(RBracket, k))));
    case Last(es) => Begins(es[|es| - 1], k);
    case CallExpr(f, ps) => Begins(f, Cons(LParen, ParamsTo(ps, 0, Cons(RParen, k))));
    case PointerShift(_, p, m) => if IsZero(m) { Begins(p, k); }
    case Select(c, l, r, negate) =>
      if !negate { Begins(c, Cons(Question, OperandTo(l, Cons(Colon, OperandTo(r, k))))); }
    case Binary(op, l, r) => Begins(l, Cons(Op(Symbol(op)), OperandTo(r, k)));
    case AssignExpr(l, r) => Begins(l, Cons(Equals, OperandTo(r, k)));
    case _ =>
  }

  /** The token an operand begins with, if it is a sign or an address operator. */
  lemma {:induction false} BeginsWithLead(e: Expr, k: Toks)
    requires Valid(e)
    ensures OperandTo(e, k).Cons?
    ensures OperandTo(e, k).head == Op(Sub) <==> Leads(e) == Some(Negate)
    ensures OperandTo(e, k).head == Op(BitAnd) <==> Leads(e) == Some(AddressOf)
    decreases e
  {
    if e.CallExpr? {
      BeginsWithLead(e.callee, Cons(LParen, ParamsTo(e.params, 0, Cons(RParen, k))));
    }
  }

  function Under(lead: Option<UnOp>, t: CTree, k: Toks): Result<CTree> {
    if lead.Some? && t.CUnary? then
      var r := ParseSuffixes(t.e, k);
      if r.Ok? then Ok(CUnary(lead.value, r.t), r.rest) else Fail
    else ParseSuffixes(t, k)
  }

  ghost predicate Fits(e: Expr, k: Toks) {
    StartsDot(k) ==> !IsNumber(e)
  }

  lemma {:induction false} NameParses(t: Tok, k: Toks)
    requires t.Id? || t.Num?
    ensures var e := if t.Id? then CId(t.x) else CNum(t.n);
            && ParseUnary(Cons(t, k)) == ParseSuffixes(e, k) && ParseCast(Cons(t, k)) == ParseSuffixes(e, k)
  {
    var e := if t.Id? then CId(t.x) else CNum(t.n);
    assert ParsePrimary(Cons(t, k)) == Ok(e, k);
    assert ParsePostfix(Cons(t, k)) == ParseSuffixes(e, k);
  }

  lemma {:induction false} SignedName(t: Tok, k: Toks, u: UnOp)
    requires (t.Id? || t.Num?) && (u == Negate || u == AddressOf)
    ensures var e := if t.Id? then CId(t.x) else CNum(t.n);
            ParseUnary(Cons(UnaryTok(u), Cons(t, k))) == Under(Some(u), CUnary(u, e), k)
  {
    NameParses(t, k);
  }

  lemma {:induction false} ValueAt(v: Leaf, k: Toks)
    requires Fits(Value(v), k)
    ensures !StartsCast(TextTo(Value(v), k))
    ensures ParseUnary(TextTo(Value(v), k)) == Under(Leads(Value(v)), LeafTree(v), k)
  {
    match v
    case Name(x) => NameParses(Id(x), k);
    case Number(n) => NameParses(Num(n), k);
    case Negative(n) => SignedName(Num(n), k, Negate);
    case Address(x) => SignedName(Id(x), k, AddressOf);
  }

  /** An operand, whatever suffix follows it. */
  lemma {:induction false} OperandAt(e: Expr, k: Toks)
    requires Valid(e) && Unglued(e) && Fits(e, k)
    ensures !StartsCast(OperandTo(e, k))
    ensures ParseUnary(OperandTo(e, k)) == Under(Leads(e), Regroup(e), k)
    decreases e, 2
  {
    match e
    case Value(v) => ValueAt(v, k);
    case CallExpr(f, ps) => CallAt(f, ps, k);
    case _ => ParenAt(e, k);
  }

  lemma {:induction false} OperandAlone(e: Expr, k: Toks)
    requires Valid(e) && Unglued(e) && !StartsSuffix(k)
    ensures !StartsCast(OperandTo(e, k))
    ensures ParseUnary(OperandTo(e, k)) == Ok(Regroup(e), k) && ParseCast(OperandTo(e, k)) == Ok(Regroup(e), k)
    decreases e, 3
  {
    OperandAt(e, k);
  }

  lemma {:induction false} ParenAt(e: Expr, k: Toks)
    requires Valid(e) && Unglued(e)
    ensures !StartsCast(ParenTo(e, k))
    ensures ParseUnary(ParenTo(e, k)) == ParseSuffixes(Regroup(e), k)
    decreases e, 1
  {
    Begins(e, Cons(RParen, k));
    AssignmentAt(e, Cons(RParen, k));
    AssignmentToExpr(TextTo(e, Cons(RParen, k)), Regroup(e), Cons(RParen, k));
    assert ParsePrimary(ParenTo(e, k)) == Ok(Regroup(e), k);
  }

  lemma {:induction false} SuffixAt(x: Expr, s: Suffix, k1: Toks, k: Toks)
    requires Valid(x) && Unglued(x) && Fits(x, k1)
    requires forall t {:trigger Apply(s, t)} :: ParseSuffixes(t, k1) == ParseSuffixes(Apply(s, t), k)
    requires ParseUnary(OperandTo(x, k1)) == Under(Leads(x), Regroup(x), k1)
    ensures ParseUnary(OperandTo(x, k1)) == Under(Leads(x), Attach(Leads(x).Some?, s, Regroup(x)), k)
  {
    var t := Regroup(x);
    assert ParseSuffixes(t, k1) == ParseSuffixes(Apply(s, t), k);
    if Leads(x).Some? {
      assert ParseSuffixes(t.e, k1) == ParseSuffixes(Apply(s, t.e), k);
    }
  }

  lemma {:induction false} CallAt(f: Expr, ps: seq<Expr>, k: Toks)
    requires Valid(CallExpr(f, ps)) && Unglued(CallExpr(f, ps))
    ensures !StartsCast(TextTo(CallExpr(f, ps), k))
    ensures ParseUnary(TextTo(CallExpr(f, ps), k)) == Under(Leads(f), Regroup(CallExpr(f, ps)), k)
    decreases CallExpr(f, ps), 0, 1
  {
    var args := seq(|ps|, i requires 0 <= i < |ps| => Regroup(ps[i]));
    var k1 := Cons(LParen, ParamsTo(ps, 0, Cons(RParen, k)));
    OperandAt(f, k1);
    ArgumentsAt(f, ps, k);
    SuffixAt(f, SCall(args), k1, k);
  }

  lemma {:induction false} ArgumentsAt(f: Expr, ps: seq<Expr>, k: Toks)
    requires Valid(CallExpr(f, ps)) && Unglued(CallExpr(f, ps))
    ensures ParseArguments(ParamsTo(ps, 0, Cons(RParen, k))) == Ok(seq(|ps|, i requires 0 <= i < |ps| => Regroup(ps[i])), k)
    decreases CallExpr(f, ps), 0, 0
  {
    var args := seq(|ps|, i requires 0 <= i < |ps| => Regroup(ps[i]));
    if ps != [] {
      ArgumentListAt(f, ps, 0, k);
      Begins(ps[0], ParamsTo(ps, 1, Cons(RParen, k)));
      assert args[0..] == args;
    }
  }

  lemma {:induction false} ArgumentListAt(f: Expr, ps: seq<Expr>, i: nat, k: Toks)
    requires Valid(CallExpr(f, ps)) && Unglued(CallExpr(f, ps)) && i < |ps|
    ensures ParseArgumentList(TextTo(ps[i], ParamsTo(ps, i + 1, Cons(RParen, k))))
            == Ok(seq(|ps|, j requires 0 <= j < |ps| => Regroup(ps[j]))[i..], k)
    decreases ps, |ps| - i
  {
    var args := seq(|ps|, j requires 0 <= j < |ps| => Regroup(ps[j]));
    var k1 := ParamsTo(ps, i + 1, Cons(RParen, k));
    AssignmentAt(ps[i], k1);
    assert args[i..] == [args[i]] + args[i + 1..];
    if i + 1 < |ps| {
      ArgumentListAt(f, ps, i + 1, k);
    } else {
      assert args[i..] == [args[i]];
    }
  }

  /** The main step: a printed expression, up to a token that ends it. */
  lemma {:induction false} AssignmentAt(e: Expr, k: Toks)
    requires Valid(e) && Unglued(e) && Stops(k)
    ensures ParseAssignment(TextTo(e, k)) == Ok(Regroup(e), k)
    decreases e, 0
  {
    match e
    case Value(v) =>
      ValueAt(v, k);
      UnaryToAssignment(TextTo(e, k), Regroup(e), k);
    case Member(x, name, pointer) => MemberAt(x, name, pointer, k);
    case Element(x, i) => ElementAt(x, i, k);
    case Last(es) => AssignmentAt(es[|es| - 1], k);
    case CallExpr(f, ps) =>
      CallAt(f, ps, k);
      UnaryToAssignment(TextTo(e, k), Regroup(e), k);
    case PointerShift(_, _, _) => ShiftAt(e, k);
    case Select(_, _, _, _) => SelectAt(e, k);
    case Unary(u, x) => PrefixAt(u, x, k);
    case CastExpr(ty, x) =>
      OperandAlone(x, k);
      CastToAssignment(ty, OperandTo(x, k), Regroup(x), k);
    case Binary(_, _, _) => BinaryAt(e, k);
    case AssignExpr(_, _) => AssignAt(e, k);
    case Lshr(_, _, _) => LshrAt(e, k);
  }

  lemma {:induction false} BinaryAt(e: Expr, k: Toks)
    requires Valid(e) && Unglued(e) && Stops(k) && e.Binary?
    ensures ParseAssignment(TextTo(e, k)) == Ok(Regroup(e), k)
    decreases e, 0, 0
  {
    var op := Symbol(e.op);
    var rs := OperandTo(e.r, k);
    OperandAlone(e.r, k);
    OperandAlone(e.l, Cons(Op(op), rs));
    OperatorParses(op, TextTo(e, k), Regroup(e.l), rs, Regroup(e.r), k);
    GroupedSum(TextTo(e, k), Regroup(e.l), Cons(Op(op), rs), CBinary(op, Regroup(e.l), Regroup(e.r)), k);
  }

  lemma {:induction false} AssignAt(e: Expr, k: Toks)
    requires Valid(e) && Unglued(e) && Stops(k) && e.AssignExpr?
    ensures ParseAssignment(TextTo(e, k)) == Ok(Regroup(e), k)
    decreases e, 0, 0
  {
    var rs := OperandTo(e.r, k);
    OperandAlone(e.r, k);
    UnaryToAssignment(rs, Regroup(e.r), k);
    OperandAlone(e.l, Cons(Equals, rs));
  }

  /** An operand with a suffix, on its own. */
  lemma {:induction false} SuffixedAlone(x: Expr, s: Suffix, k1: Toks, k: Toks)
    requires Valid(x) && Unglued(x) && Stops(k) && !StartsCast(OperandTo(x, k1))
    requires ParseUnary(OperandTo(x, k1)) == Under(Leads(x), Attach(Leads(x).Some?, s, Regroup(x)), k)
    ensures ParseAssignment(OperandTo(x, k1)) == Ok(Attach(Leads(x).Some?, s, Regroup(x)), k)
  {
    UnaryToAssignment(OperandTo(x, k1), Attach(Leads(x).Some?, s, Regroup(x)), k);
  }

  lemma {:induction false} MemberSuffix(s: Suffix, k: Toks, t: CTree)
    requires s.SMember? || s.SArrow?
    ensures ParseSuffixes(t, Cons(if s.SArrow? then Arrow else Dot, Cons(Id(s.name), k))) == ParseSuffixes(Apply(s, t), k)
  {
  }

  lemma {:induction false} MemberAt(x: Expr, name: string, pointer: bool, k: Toks)
    requires Valid(x) && Unglued(Member(x, name, pointer)) && Stops(k)
    ensures ParseAssignment(TextTo(Member(x, name, pointer), k)) == Ok(Regroup(Member(x, name, pointer)), k)
    decreases Member(x, name, pointer), 0, 0
  {
    var s := if pointer then SArrow(name) else SMember(name);
    var k1 := Cons(if pointer then Arrow else Dot, Cons(Id(name), k));
    OperandAt(x, k1);
    forall t {:trigger Apply(s, t)}
      ensures ParseSuffixes(t, k1) == ParseSuffixes(Apply(s, t), k)
    {
      MemberSuffix(s, k, t);
    }
    SuffixAt(x, s, k1, k);
    SuffixedAlone(x, s, k1, k);
  }

  lemma {:induction false} IndexSuffix(i: CTree, ts: Toks, k: Toks, t: CTree)
    requires ParseExpr(ts) == Ok(i, Cons(RBracket, k))
    ensures ParseSuffixes(t, Cons(LBracket, ts)) == ParseSuffixes(CIndex(t, i), k)
  {
  }

  lemma {:induction false} ElementAt(x: Expr, i: Expr, k: Toks)
    requires Valid(x) && Valid(i) && Unglued(x) && Unglued(i) && Stops(k)
    ensures ParseAssignment(TextTo(Element(x, i), k)) == Ok(Regroup(Element(x, i)), k)
    decreases Element(x, i), 0, 0
  {
    var s := SIndex(Regroup(i));
    var k2 := Cons(RBracket, k);
    var ts := TextTo(i, k2);
    var k1 := Cons(LBracket, ts);
    AssignmentAt(i, k2);
    AssignmentToExpr(ts, Regroup(i), k2);
    OperandAt(x, k1);
    forall t {:trigger Apply(s, t)}
      ensures ParseSuffixes(t, k1) == ParseSuffixes(Apply(s, t), k)
    {
      IndexSuffix(Regroup(i), ts, k, t);
    }
    SuffixAt(x, s, k1, k);
    SuffixedAlone(x, s, k1, k);
  }

  lemma {:induction false} PrefixParses(u: UnOp, ts: Toks, t: CTree, k: Toks)
    requires u != Decrement && ParseCast(ts) == Ok(t, k) && Stops(k)
    ensures ParseAssignment(Cons(UnaryTok(u), ts)) == Ok(CUnary(u, t), k)
  {
    assert ParseUnary(Cons(UnaryTok(u), ts)) == Ok(CUnary(u, t), k);
    UnaryToAssignment(Cons(UnaryTok(u), ts), CUnary(u, t), k);
  }

  lemma {:induction false} PrefixAt(u: UnOp, x: Expr, k: Toks)
    requires Valid(Unary(u, x)) && Unglued(Unary(u, x)) && Stops(k)
    ensures ParseAssignment(TextTo(Unary(u, x), k)) == Ok(CUnary(u, Regroup(x)), k)
    decreases Unary(u, x), 0, 0
  {
    OperandAlone(x, k);
    BeginsWithLead(x, k);
    assert TextTo(Unary(u, x), k) == Cons(UnaryTok(u), OperandTo(x, k));
    PrefixParses(u, OperandTo(x, k), Regroup(x), k);
  }

  /** `(((T)(p)) + m)`. */
  lemma {:induction false} SumAt(e: Expr, k: Toks)
    requires Valid(e) && Unglued(e) && !StartsSuffix(k) && e.PointerShift?
    ensures var k3 := Cons(Op(Add), OperandTo(e.move, Cons(RParen, k)));
            var ts := Cons(LParen, Cons(LParen, CastTo(e.ty, ParenTo(e.p, Cons(RParen, k3)))));
            ParseCast(ts) == Ok(CBinary(Add, CCast(e.ty, Regroup(e.p)), Regroup(e.move)), k)
    decreases e, 0, 1
  {
    var k4 := Cons(RParen, k);
    var k3 := Cons(Op(Add), OperandTo(e.move, k4));
    var cast := CCast(e.ty, Regroup(e.p));
    var sum := CBinary(Add, cast, Regroup(e.move));
    var ts := Cons(LParen, CastTo(e.ty, ParenTo(e.p, Cons(RParen, k3))));
    PointerAt(e, k3);
    OperandAlone(e.move, k4);
    OperatorParses(Add, ts, cast, OperandTo(e.move, k4), Regroup(e.move), k4);
    GroupedSum(ts, cast, k3, sum, k4);
    GroupParses(ts, sum, k);
  }

  /** `((T)(p))`. */
  lemma {:induction false} PointerAt(e: Expr, k: Toks)
    requires Valid(e) && Unglued(e) && !StartsSuffix(k) && e.PointerShift?
    ensures var ts := Cons(LParen, CastTo(e.ty, ParenTo(e.p, Cons(RParen, k))));
            var t := CCast(e.ty, Regroup(e.p));
            ParseUnary(ts) == Ok(t, k) && ParseCast(ts) == Ok(t, k)
    decreases e, 0, 0
  {
    var k2 := Cons(RParen, k);
    ParenAt(e.p, k2);
    assert ParseCast(ParenTo(e.p, k2)) == Ok(Regroup(e.p), k2);
    CastToAssignment(e.ty, ParenTo(e.p, k2), Regroup(e.p), k2);
    GroupParses(CastTo(e.ty, ParenTo(e.p, k2)), CCast(e.ty, Regroup(e.p)), k);
  }

  lemma {:induction false} ShiftAt(e: Expr, k: Toks)
    requires Valid(e) && Unglued(e) && Stops(k) && e.PointerShift?
    ensures ParseAssignment(TextTo(e, k)) == Ok(Regroup(e), k)
    decreases e, 0, 2
  {
    if IsZero(e.move) {
      AssignmentAt(e.p, k);
    } else {
      SumAt(e, k);
      var k3 := Cons(Op(Add), OperandTo(e.move, Cons(RParen, k)));
      var ts := Cons(LParen, Cons(LParen, CastTo(e.ty, ParenTo(e.p, Cons(RParen, k3)))));
      PrefixParses(Indirect, ts, CBinary(Add, CCast(e.ty, Regroup(e.p)), Regroup(e.move)), k);
    }
  }

  /** Something in parentheses that is not a cast. */
  lemma {:induction false} GroupParses(ts: Toks, t: CTree, k: Toks)
    requires ParseAssignment(ts) == Ok(t, Cons(RParen, k)) && ts.Cons? && !ts.head.TypeName? && !StartsSuffix(k)
    ensures !StartsCast(Cons(LParen, ts))
    ensures ParseUnary(Cons(LParen, ts)) == Ok(t, k) && ParseCast(Cons(LParen, ts)) == Ok(t, k)
  {
    AssignmentToExpr(ts, t, Cons(RParen, k));
    assert ParsePrimary(Cons(LParen, ts)) == Ok(t, k);
    assert ParseSuffixes(t, k) == Ok(t, k);
    assert ParsePostfix(Cons(LParen, ts)) == Ok(t, k);
  }

  /** A conditional expression that begins with a unary expression not followed by `=`. */
  lemma {:induction false} GroupedSum(ts: Toks, l: CTree, k1: Toks, t: CTree, k: Toks)
    requires ParseUnary(ts) == Ok(l, k1) && (k1.Cons? ==> !k1.head.Equals?) && ParseConditional(ts) == Ok(t, k)
    ensures ParseAssignment(ts) == Ok(t, k)
  {
  }

  lemma {:induction false} ConditionAt(c: Expr, negate: bool, k: Toks)
    requires Valid(c) && Unglued(c) && k.Cons? && k.head.Question?
    ensures var t := if negate then CUnary(Not, Regroup(c)) else Regroup(c);
            ParseUnary(ConditionTo(c, negate, k)) == Ok(t, k) && ParseCast(ConditionTo(c, negate, k)) == Ok(t, k)
    decreases c, 4
  {
    if negate {
      var k1 := Cons(RParen, k);
      OperandAlone(c, k1);
      UnaryToAssignment(OperandTo(c, k1), Regroup(c), k1);
      Begins(c, k1);
      GroupParses(OperandTo(c, k1), Regroup(c), k);
    } else {
      OperandAlone(c, k);
    }
  }

  lemma {:induction false} ConditionalParses(ts: Toks, c: CTree, ls: Toks, l: CTree, rs: Toks, r: CTree, k: Toks)
    requires ParseCast(ts) == Ok(c, Cons(Question, ls)) && ParseExpr(ls) == Ok(l, Cons(Colon, rs)) && ParseConditional(rs) == Ok(r, k)
    ensures ParseConditional(ts) == Ok(CCond(c, l, r), k)
  {
    Climb(11, 1, ts, c, Cons(Question, ls));
  }

  lemma {:induction false} SelectAt(e: Expr, k: Toks)
    requires Valid(e) && Unglued(e) && Stops(k) && e.Select?
    ensures ParseAssignment(TextTo(e, k)) == Ok(Regroup(e), k)
    decreases e, 0, 0
  {
    var k3 := OperandTo(e.r, k);
    var k2 := Cons(Colon, k3);
    var ls := OperandTo(e.l, k2);
    var c := if e.negate then CUnary(Not, Regroup(e.comp)) else Regroup(e.comp);
    ConditionAt(e.comp, e.negate, Cons(Question, ls));
    OperandAlone(e.l, k2);
    UnaryToAssignment(ls, Regroup(e.l), k2);
    AssignmentToExpr(ls, Regroup(e.l), k2);
    OperandAlone(e.r, k);
    CastToConditional(k3, Regroup(e.r), k);
    ConditionalParses(TextTo(e, k), c, ls, Regroup(e.l), k3, Regroup(e.r), k);
    GroupedSum(TextTo(e, k), c, Cons(Question, ls), CCond(c, Regroup(e.l), Regroup(e.r)), k);
  }

  /** `(l) >> (r)`, perhaps with a cast in front, as an assignment expression. */
  lemma {:induction false} ShiftRight(ts: Toks, l: CTree, k1: Toks, r: CTree, k: Toks)
    requires ParseCast(ts) == Ok(l, Cons(Op(Shr), k1)) && ParseCast(k1) == Ok(r, k) && Stops(k)
    requires ParseUnary(ts) == Fail || ParseUnary(ts) == Ok(l, Cons(Op(Shr), k1))
    ensures ParseAssignment(ts) == Ok(CBinary(Shr, l, r), k)
  {
    OperatorParses(Shr, ts, l, k1, r, k);
  }

  lemma {:induction false} LshrAt(e: Expr, k: Toks)
    requires Valid(e) && Unglued(e) && Stops(k) && e.Lshr?
    ensures ParseAssignment(TextTo(e, k)) == Ok(Regroup(e), k)
    decreases e, 0, 0
  {
    var k2 := ParenTo(e.r, k);
    var k1 := Cons(Op(Shr), k2);
    var l := ParenTo(e.l, k1);
    ParenAt(e.r, k);
    ParenAt(e.l, k1);
    assert ParseCast(k2) == Ok(Regroup(e.r), k);
    assert ParseCast(l) == Ok(Regroup(e.l), k1) && ParseUnary(l) == Ok(Regroup(e.l), k1);
    if e.cast.Some? {
      CastFailsAsUnary(e.cast.value, l);
      assert ParseCast(CastTo(e.cast.value, l)) == Ok(CCast(e.cast.value, Regroup(e.l)), k1);
      ShiftRight(CastTo(e.cast.value, l), CCast(e.cast.value, Regroup(e.l)), k2, Regroup(e.r), k);
    } else {
      ShiftRight(l, Regroup(e.l), k2, Regroup(e.r), k);
    }
  }
}
