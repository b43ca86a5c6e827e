/** Printing and parsing give back the expression exactly when no operand that begins with a sign or an
    address operator stands where its first character, or a suffix, would be read differently. */
module RoundTrip {
  import opened CGrammar
  import opened ExprPrinting
  import opened ExprTokens
  import opened PrintParse

  // ----- a weight that parsing conserves -----

  function TokWeight(t: Tok): int {
    match t
    case Op(BitAnd) => 1
    case MinusMinus => -1
    case PPNumber => -1
    case _ => 0
  }

  function Weight(ts: Toks): int {
    if ts.End? then 0 else TokWeight(ts.head) + Weight(ts.tail)
  }

  function TreeWeight(t: CTree): int
    decreases t, 0
  {
    match t
    case CId(_) => 0
    case CNum(_) => 0
    case CIndex(e, i) => TreeWeight(e) + TreeWeight(i)
    case CCall(f, args) => TreeWeight(f) + Weights(args)
    case CMember(e, _) => TreeWeight(e)
    case CArrow(e, _) => TreeWeight(e)
    case CUnary(u, e) => (if u == AddressOf then 1 else if u == Decrement then -1 else 0) + TreeWeight(e)
    case CCast(_, e) => TreeWeight(e)
    case CBinary(op, l, r) => (if op == BitAnd then 1 else 0) + TreeWeight(l) + TreeWeight(r)
    case CCond(c, l, r) => TreeWeight(c) + TreeWeight(l) + TreeWeight(r)
    case CAssign(l, r) => TreeWeight(l) + TreeWeight(r)
    case CComma(l, r) => TreeWeight(l) + TreeWeight(r)
  }

  function Weights(ts: seq<CTree>): int
    decreases ts, 1
  {
    if ts == [] then 0 else TreeWeight(ts[0]) + Weights(ts[1..])
  }

  ghost predicate Conserved(ts: Toks, r: Result<CTree>) {
    r.Ok? ==> Weight(ts) == TreeWeight(r.t) + Weight(r.rest)
  }

  lemma {:induction false} PrimaryWeight(ts: Toks)
    ensures Conserved(ts, ParsePrimary(ts))
    decreases Len(ts), 0
  {
    if ts.Cons? && ts.head.LParen? {
      ExprWeight(ts.tail);
    }
  }

  lemma {:induction false} SuffixesWeight(acc: CTree, ts: Toks)
    ensures var r := ParseSuffixes(acc, ts); r.Ok? ==> TreeWeight(acc) + Weight(ts) == TreeWeight(r.t) + Weight(r.rest)
    decreases Len(ts), 1
  {
    if ts.Cons? {
      match ts.head
      case LBracket => IndexWeight(acc, ts);
      case LParen => CallWeight(acc, ts);
      case Dot => MemberWeight(acc, ts);
      case Arrow => MemberWeight(acc, ts);
      case _ =>
    }
  }

  lemma {:induction false} IndexWeight(acc: CTree, ts: Toks)
    requires ts.Cons? && ts.head.LBracket?
    ensures var r := ParseSuffixes(acc, ts); r.Ok? ==> TreeWeight(acc) + Weight(ts) == TreeWeight(r.t) + Weight(r.rest)
    decreases Len(ts), 0
  {
    ExprWeight(ts.tail);
    var i := ParseExpr(ts.tail);
    if i.Ok? && i.rest.Cons? {
      SuffixesWeight(CIndex(acc, i.t), i.rest.tail);
    }
  }

  lemma {:induction false} CallWeight(acc: CTree, ts: Toks)
    requires ts.Cons? && ts.head.LParen?
    ensures var r := ParseSuffixes(acc, ts); r.Ok? ==> TreeWeight(acc) + Weight(ts) == TreeWeight(r.t) + Weight(r.rest)
    decreases Len(ts), 0
  {
    ArgumentsWeight(ts.tail);
    var args := ParseArguments(ts.tail);
    if args.Ok? {
      SuffixesWeight(CCall(acc, args.t), args.rest);
    }
  }

  lemma {:induction false} MemberWeight(acc: CTree, ts: Toks)
    requires ts.Cons? && (ts.head.Dot? || ts.head.Arrow?)
    ensures var r := ParseSuffixes(acc, ts); r.Ok? ==> TreeWeight(acc) + Weight(ts) == TreeWeight(r.t) + Weight(r.rest)
    decreases Len(ts), 0
  {
    if ts.tail.Cons? && ts.tail.head.Id? {
      assert Len(ts.tail) == 1 + Len(ts.tail.tail) && Weight(ts.tail) == Weight(ts.tail.tail);
      SuffixesWeight(if ts.head.Dot? then CMember(acc, ts.tail.head.x) else CArrow(acc, ts.tail.head.x), ts.tail.tail);
    }
  }

  lemma {:induction false} ArgumentsWeight(ts: Toks)
    ensures var r := ParseArguments(ts); r.Ok? ==> Weight(ts) == Weights(r.t) + Weight(r.rest)
    decreases Len(ts), 20
  {
    if !(ts.Cons? && ts.head.RParen?) {
      ArgumentListWeight(ts);
    }
  }

  lemma {:induction false} ArgumentListWeight(ts: Toks)
    ensures var r := ParseArgumentList(ts); r.Ok? ==> Weight(ts) == Weights(r.t) + Weight(r.rest)
    decreases Len(ts), 19
  {
    AssignmentWeight(ts);
    var a := ParseAssignment(ts);
    if a.Ok? && a.rest.Cons? {
      assert [a.t][1..] == [] && Weights([a.t]) == TreeWeight(a.t);
      if a.rest.head.Comma? {
        ArgumentListWeight(a.rest.tail);
        var more := ParseArgumentList(a.rest.tail);
        if more.Ok? {
          assert ([a.t] + more.t)[1..] == more.t;
        }
      }
    }
  }

  lemma {:induction false} UnaryWeight(ts: Toks)
    ensures Conserved(ts, ParseUnary(ts))
    decreases Len(ts), 2
  {
    if ts.Cons? && Prefix(ts.head).Some? {
      CastWeight(ts.tail);
    } else if ts.Cons? && ts.head.MinusMinus? {
      UnaryWeight(ts.tail);
    } else {
      PrimaryWeight(ts);
      var p := ParsePrimary(ts);
      if p.Ok? {
        SuffixesWeight(p.t, p.rest);
      }
    }
  }

  lemma {:induction false} CastWeight(ts: Toks)
    ensures Conserved(ts, ParseCast(ts))
    decreases Len(ts), 3
  {
    if StartsCast(ts) {
      var rest := ts.tail.tail;
      assert Len(ts) == 3 + Len(rest.tail) && Weight(ts) == Weight(rest.tail) by {
        assert Weight(ts.tail) == Weight(rest) == Weight(rest.tail);
        assert Len(ts.tail) == 1 + Len(rest) == 2 + Len(rest.tail);
      }
      CastWeight(rest.tail);
    } else {
      UnaryWeight(ts);
    }
  }

  lemma {:induction false} OperatorsWeight(p: nat, acc: CTree, ts: Toks)
    requires 1 <= p <= 10
    ensures var r := ParseOperators(p, acc, ts); r.Ok? ==> TreeWeight(acc) + Weight(ts) == TreeWeight(r.t) + Weight(r.rest)
    decreases Len(ts), 0
  {
    if AtOperator(ts, p) {
      BinaryWeight(p + 1, ts.tail);
      var e := ParseBinary(p + 1, ts.tail);
      if e.Ok? {
        OperatorsWeight(p, CBinary(ts.head.op, acc, e.t), e.rest);
        assert ParseOperators(p, acc, ts) == ParseOperators(p, CBinary(ts.head.op, acc, e.t), e.rest);
        assert Weight(ts) == TokWeight(ts.head) + Weight(ts.tail);
      }
    }
  }

  lemma {:induction false} BinaryWeight(p: nat, ts: Toks)
    requires 1 <= p <= 11
    ensures Conserved(ts, ParseBinary(p, ts))
    decreases Len(ts), 15 - p
  {
    if p == 11 {
      CastWeight(ts);
    } else {
      BinaryWeight(p + 1, ts);
      var e := ParseBinary(p + 1, ts);
      if e.Ok? {
        OperatorsWeight(p, e.t, e.rest);
      }
    }
  }

  lemma {:induction false} ConditionalWeight(ts: Toks)
    ensures Conserved(ts, ParseConditional(ts))
    decreases Len(ts), 16
  {
    BinaryWeight(1, ts);
    var c := ParseBinary(1, ts);
    if c.Ok? && c.rest.Cons? && c.rest.head.Question? {
      ExprWeight(c.rest.tail);
      var l := ParseExpr(c.rest.tail);
      if l.Ok? && l.rest.Cons? {
        ConditionalWeight(l.rest.tail);
      }
    }
  }

  lemma {:induction false} AssignmentWeight(ts: Toks)
    ensures Conserved(ts, ParseAssignment(ts))
    decreases Len(ts), 17
  {
    UnaryWeight(ts);
    ConditionalWeight(ts);
    var l := ParseUnary(ts);
    if l.Ok? && l.rest.Cons? {
      AssignmentWeight(l.rest.tail);
    }
  }

  lemma {:induction false} CommasWeight(acc: CTree, ts: Toks)
    ensures var r := ParseCommas(acc, ts); r.Ok? ==> TreeWeight(acc) + Weight(ts) == TreeWeight(r.t) + Weight(r.rest)
    decreases Len(ts), 0
  {
    if ts.Cons? && ts.head.Comma? {
      AssignmentWeight(ts.tail);
      var e := ParseAssignment(ts.tail);
      if e.Ok? {
        CommasWeight(CComma(acc, e.t), e.rest);
        assert TreeWeight(CComma(acc, e.t)) == TreeWeight(acc) + TreeWeight(e.t);
        assert ParseCommas(acc, ts) == ParseCommas(CComma(acc, e.t), e.rest);
        assert Weight(ts) == Weight(ts.tail);
      }
    } else {
      assert ParseCommas(acc, ts) == Ok(acc, ts);
    }
  }

  lemma {:induction false} ExprWeight(ts: Toks)
    ensures Conserved(ts, ParseExpr(ts))
    decreases Len(ts), 18
  {
    AssignmentWeight(ts);
    var e := ParseAssignment(ts);
    if e.Ok? {
      CommasWeight(e.t, e.rest);
    }
  }

  // ----- the weight of what is printed -----

  /** What printing loses, compared with the tree that is meant. */
  function Lost(e: Expr, k: Toks): int
    requires Valid(e)
  {
    TreeWeight(Tree(e)) + Weight(k) - Weight(TextTo(e, k))
  }

  function LostOperand(e: Expr, k: Toks): int
    requires Valid(e)
  {
    TreeWeight(Tree(e)) + Weight(k) - Weight(OperandTo(e, k))
  }

  lemma {:induction false} ParenLoses(e: Expr, k: Toks)
    requires Valid(e)
    ensures Weight(ParenTo(e, k)) == TreeWeight(Tree(e)) + Weight(k) - Lost(e, Cons(RParen, k))
  {
  }

  lemma {:induction false} OperandLoses(e: Expr, k: Toks)
    requires Valid(e)
    ensures LostOperand(e, k) >= 0 && (LostOperand(e, k) == 0 <==> Unglued(e) && Fits(e, k))
    decreases e, 1
  {
    if IsSimple(e) {
      PrintingLoses(e, k);
    } else {
      PrintingLoses(e, Cons(RParen, k));
      ParenLoses(e, k);
    }
  }

  lemma {:induction false} PrintingLoses(e: Expr, k: Toks)
    requires Valid(e) && (StartsDot(k) ==> IsSimple(e))
    ensures Lost(e, k) >= 0 && (Lost(e, k) == 0 <==> Unglued(e) && Fits(e, k))
    decreases e, 0
  {
    match e
    case Value(v) => NumberLoses(v, k);
    case Member(_, _, _) => PostfixLoses(e, k);
    case Element(_, _) => PostfixLoses(e, k);
    case Last(es) => PrintingLoses(es[|es| - 1], k);
    case CallExpr(_, _) => CallLoses(e, k);
    case PointerShift(_, _, _) => ShiftLoses(e, k);
    case Select(_, _, _, _) => SelectLoses(e, k);
    case Unary(u, x) => PrefixLoses(u, x, k);
    case CastExpr(_, _) => CastLoses(e, k);
    case Binary(_, _, _) => BinaryLoses(e, k);
    case AssignExpr(_, _) => AssignLoses(e, k);
    case Lshr(_, _, _) => LshrLoses(e, k);
  }

  lemma {:induction false} PostfixLoses(e: Expr, k: Toks)
    requires Valid(e) && (e.Member? || e.Element?) && !StartsDot(k)
    ensures Lost(e, k) >= 0 && (Lost(e, k) == 0 <==> Unglued(e))
    decreases e, 0, 0
  {
    if e.Member? {
      var k2 := Cons(Id(e.name), k);
      OperandLoses(e.e, Cons(if e.pointer then Arrow else Dot, k2));
      assert Weight(Cons(if e.pointer then Arrow else Dot, k2)) == Weight(k2) == Weight(k);
    } else {
      var k2 := TextTo(e.i, Cons(RBracket, k));
      PrintingLoses(e.i, Cons(RBracket, k));
      OperandLoses(e.e, Cons(LBracket, k2));
      assert Weight(Cons(LBracket, k2)) == Weight(k2) && Weight(Cons(RBracket, k)) == Weight(k);
    }
  }

  lemma {:induction false} CallLoses(e: Expr, k: Toks)
    requires Valid(e) && e.CallExpr?
    ensures Lost(e, k) >= 0 && (Lost(e, k) == 0 <==> Unglued(e))
    decreases e, 0, 0
  {
    var ps := e.params;
    var k2 := ParamsTo(ps, 0, Cons(RParen, k));
    var trees := seq(|ps|, i requires 0 <= i < |ps| => Tree(ps[i]));
    ParamsLose(e.callee, ps, trees, 0, Cons(RParen, k));
    OperandLoses(e.callee, Cons(LParen, k2));
    assert Weight(Cons(LParen, k2)) == Weight(k2) && Weight(Cons(RParen, k)) == Weight(k);
    assert trees[0..] == trees;
  }

  lemma {:induction false} CastLoses(e: Expr, k: Toks)
    requires Valid(e) && e.CastExpr? && !StartsDot(k)
    ensures Lost(e, k) >= 0 && (Lost(e, k) == 0 <==> Unglued(e))
    decreases e, 0, 0
  {
    OperandLoses(e.e, k);
    CastWeighsNothing(e.ty, OperandTo(e.e, k));
  }

  /** Two operands and a token between them. */
  lemma {:induction false} PairLoses(l: Expr, t: Tok, r: Expr, k: Toks, e: Expr)
    requires Valid(l) && Valid(r) && !StartsDot(k) && !t.Dot?
    requires e == AssignExpr(l, r) || (e.Binary? && e.l == l && e.r == r)
    ensures var lost := TreeWeight(Tree(l)) + TokWeight(t) + TreeWeight(Tree(r)) + Weight(k) - Weight(OperandTo(l, Cons(t, OperandTo(r, k))));
            lost >= 0 && (lost == 0 <==> Unglued(l) && Unglued(r))
    decreases e, 0, 0
  {
    var k2 := OperandTo(r, k);
    OperandLoses(r, k);
    OperandLoses(l, Cons(t, k2));
    assert Weight(Cons(t, k2)) == TokWeight(t) + Weight(k2);
  }

  lemma {:induction false} BinaryLoses(e: Expr, k: Toks)
    requires Valid(e) && e.Binary? && !StartsDot(k)
    ensures Lost(e, k) >= 0 && (Lost(e, k) == 0 <==> Unglued(e))
    decreases e, 0, 1
  {
    PairLoses(e.l, Op(Symbol(e.op)), e.r, k, e);
  }

  lemma {:induction false} AssignLoses(e: Expr, k: Toks)
    requires Valid(e) && e.AssignExpr? && !StartsDot(k)
    ensures Lost(e, k) >= 0 && (Lost(e, k) == 0 <==> Unglued(e))
    decreases e, 0, 1
  {
    PairLoses(e.l, Equals, e.r, k, e);
  }

  lemma {:induction false} CastWeighsNothing(ty: string, k: Toks)
    ensures Weight(CastTo(ty, k)) == Weight(k)
  {
    assert Weight(Cons(TypeName(ty), Cons(RParen, k))) == Weight(Cons(RParen, k)) == Weight(k);
  }

  lemma {:induction false} NumberLoses(v: Leaf, k: Toks)
    ensures Lost(Value(v), k) >= 0 && (Lost(Value(v), k) == 0 <==> Fits(Value(v), k))
  {
    match v
    case Address(x) =>
      assert Weight(Cons(Id(x), k)) == Weight(k);
      assert TreeWeight(CUnary(AddressOf, CId(x))) == 1 + TreeWeight(CId(x)) == 1;
    case Negative(n) =>
      DotWeight(n, k);
      assert Weight(Cons(Op(Sub), NumTo(n, k))) == Weight(NumTo(n, k));
      assert TreeWeight(CUnary(Negate, CNum(n))) == TreeWeight(CNum(n)) == 0;
    case Number(n) => DotWeight(n, k);
    case _ =>
  }

  lemma {:induction false} DotWeight(n: nat, k: Toks)
    ensures Weight(NumTo(n, k)) == Weight(k) - if StartsDot(k) then 1 else 0
  {
    if StartsDot(k) {
      assert Weight(k) == Weight(k.tail);
    }
  }

  ghost predicate AllUnglued(ps: seq<Expr>, i: nat) {
    forall j :: i <= j < |ps| ==> Unglued(ps[j])
  }

  lemma {:induction false} ParamsLose(f: Expr, ps: seq<Expr>, trees: seq<CTree>, i: nat, k: Toks)
    requires i <= |ps| && Valid(CallExpr(f, ps)) && !StartsDot(k)
    requires |trees| == |ps| && forall j :: 0 <= j < |ps| ==> trees[j] == Tree(ps[j])
    ensures !StartsDot(ParamsTo(ps, i, k)) || i == 0
    ensures var lost := Weights(trees[i..]) + Weight(k) - Weight(ParamsTo(ps, i, k));
            lost >= 0 && (lost == 0 <==> AllUnglued(ps, i))
    decreases ps, |ps| - i
  {
    if i < |ps| {
      var more := ParamsTo(ps, i + 1, k);
      ParamsLose(f, ps, trees, i + 1, k);
      PrintingLoses(ps[i], more);
      WeightsStep(trees, i);
      assert Weight(ParamsTo(ps, i, k)) == Weight(TextTo(ps[i], more));
      assert AllUnglued(ps, i) <==> Unglued(ps[i]) && AllUnglued(ps, i + 1);
    }
  }

  lemma {:induction false} WeightsStep(ts: seq<CTree>, i: nat)
    requires i < |ts|
    ensures Weights(ts[i..]) == TreeWeight(ts[i]) + Weights(ts[i + 1..])
  {
    assert ts[i..][1..] == ts[i + 1..];
  }

  lemma {:induction false} MunchLoses(u: UnOp, ts: Toks)
    requires u != Decrement && ts.Cons?
    ensures Weight(Munch(UnaryTok(u), ts))
            == Weight(ts) + (if u == AddressOf then 1 else 0)
               - if Merge(UnaryTok(u)) && ts.head == UnaryTok(u) then (if u == AddressOf then 2 else 1) else 0
  {
  }

  lemma {:induction false} PrefixLoses(u: UnOp, x: Expr, k: Toks)
    requires Valid(Unary(u, x)) && !StartsDot(k)
    ensures Lost(Unary(u, x), k) >= 0 && (Lost(Unary(u, x), k) == 0 <==> Unglued(Unary(u, x)))
    decreases Unary(u, x), 0, 0
  {
    OperandLoses(x, k);
    BeginsWithLead(x, k);
    MunchLoses(u, OperandTo(x, k));
    var glued := Merge(UnaryTok(u)) && OperandTo(x, k).head == UnaryTok(u);
    assert glued <==> Leads(x) == Some(u);
    assert TreeWeight(Tree(Unary(u, x))) == (if u == AddressOf then 1 else 0) + TreeWeight(Tree(x));
  }

  lemma {:induction false} ShiftWeighs(e: Expr, k: Toks, k2: Toks, k3: Toks)
    requires Valid(e) && e.PointerShift? && !IsZero(e.move)
    requires k3 == Cons(Op(Add), OperandTo(e.move, Cons(RParen, k))) && k2 == Cons(RParen, k3)
    ensures Weight(TextTo(e, k)) == Weight(ParenTo(e.p, k2)) && Weight(k2) == Weight(OperandTo(e.move, Cons(RParen, k)))
    ensures TreeWeight(Tree(e)) == TreeWeight(Tree(e.p)) + TreeWeight(Tree(e.move))
  {
    CastWeighsNothing(e.ty, ParenTo(e.p, k2));
    var ts := CastTo(e.ty, ParenTo(e.p, k2));
    assert Weight(Cons(LParen, Cons(LParen, ts))) == Weight(Cons(LParen, ts)) == Weight(ts);
    assert Weight(k2) == Weight(k3);
    var sum := CBinary(Add, CCast(e.ty, Tree(e.p)), Tree(e.move));
    assert TreeWeight(CUnary(Indirect, sum)) == TreeWeight(sum);
    assert TreeWeight(CCast(e.ty, Tree(e.p))) == TreeWeight(Tree(e.p));
  }

  lemma {:induction false} ShiftLoses(e: Expr, k: Toks)
    requires Valid(e) && e.PointerShift? && !StartsDot(k)
    ensures Lost(e, k) >= 0 && (Lost(e, k) == 0 <==> Unglued(e))
    decreases e, 0, 0
  {
    if IsZero(e.move) {
      PrintingLoses(e.p, k);
      assert Unglued(e.move);
    } else {
      var k3 := Cons(Op(Add), OperandTo(e.move, Cons(RParen, k)));
      var k2 := Cons(RParen, k3);
      OperandLoses(e.move, Cons(RParen, k));
      PrintingLoses(e.p, Cons(RParen, k2));
      ParenLoses(e.p, k2);
      ShiftWeighs(e, k, k2, k3);
    }
  }

  lemma {:induction false} ConditionLoses(c: Expr, negate: bool, k: Toks)
    requires Valid(c) && !StartsDot(k)
    ensures var t := if negate then CUnary(Not, Tree(c)) else Tree(c);
            var lost := TreeWeight(t) + Weight(k) - Weight(ConditionTo(c, negate, k));
            lost >= 0 && (lost == 0 <==> Unglued(c))
    decreases c, 2
  {
    if negate {
      var ts := OperandTo(c, Cons(RParen, k));
      OperandLoses(c, Cons(RParen, k));
      assert Weight(Cons(Bang, Cons(LParen, ts))) == Weight(Cons(LParen, ts)) == Weight(ts);
      assert TreeWeight(CUnary(Not, Tree(c))) == TreeWeight(Tree(c));
    } else {
      OperandLoses(c, k);
    }
  }

  lemma {:induction false} SelectLoses(e: Expr, k: Toks)
    requires Valid(e) && e.Select? && !StartsDot(k)
    ensures Lost(e, k) >= 0 && (Lost(e, k) == 0 <==> Unglued(e))
    decreases e, 0, 0
  {
    var k2 := Cons(Colon, OperandTo(e.r, k));
    var k1 := Cons(Question, OperandTo(e.l, k2));
    OperandLoses(e.r, k);
    OperandLoses(e.l, k2);
    ConditionLoses(e.comp, e.negate, k1);
    assert Weight(k1) == Weight(OperandTo(e.l, k2)) && Weight(k2) == Weight(OperandTo(e.r, k));
  }

  lemma {:induction false} LshrLoses(e: Expr, k: Toks)
    requires Valid(e) && e.Lshr? && !StartsDot(k)
    ensures Lost(e, k) >= 0 && (Lost(e, k) == 0 <==> Unglued(e))
    decreases e, 0, 0
  {
    var k2 := ParenTo(e.r, k);
    var k1 := Cons(Op(Shr), k2);
    PrintingLoses(e.r, Cons(RParen, k));
    ParenLoses(e.r, k);
    PrintingLoses(e.l, Cons(RParen, k1));
    ParenLoses(e.l, k1);
    assert Weight(k1) == Weight(k2);
    if e.cast.Some? {
      CastWeighsNothing(e.cast.value, ParenTo(e.l, k1));
      assert TreeWeight(CCast(e.cast.value, Tree(e.l))) == TreeWeight(Tree(e.l));
    }
  }

  // ----- the round trip -----

  /** No suffix is put on an operand that begins with a sign or an address operator. */
  predicate Grouped(e: Expr) {
    match e
    case Value(_) => true
    case Member(x, _, _) => Grouped(x) && Leads(x).None?
    case Element(x, i) => Grouped(x) && Grouped(i) && Leads(x).None?
    case Last(es) => es != [] ==> Grouped(es[|es| - 1])
    case CallExpr(f, ps) => Grouped(f) && Leads(f).None? && forall i :: 0 <= i < |ps| ==> Grouped(ps[i])
    case PointerShift(_, p, m) => Grouped(p) && Grouped(m)
    case Select(c, l, r, _) => Grouped(c) && Grouped(l) && Grouped(r)
    case Unary(u, x) => Grouped(x)
    case CastExpr(_, x) => Grouped(x)
    case Binary(_, l, r) => Grouped(l) && Grouped(r)
    case AssignExpr(l, r) => Grouped(l) && Grouped(r)
    case Lshr(l, r, _) => Grouped(l) && Grouped(r)
  }

  /** With an operator in front, the suffix ends up inside: another tree. */
  lemma {:induction false} AttachIs(x: Expr, s: Suffix, s': Suffix)
    requires Valid(x) && (Regroup(x) == Tree(x) <==> Grouped(x))
    requires (s.SMember? && s' == s) || (s.SArrow? && s' == s) || (s.SIndex? && s'.SIndex?) || (s.SCall? && s'.SCall?)
    ensures Attach(Leads(x).Some?, s, Regroup(x)) == Apply(s', Tree(x)) <==> s == s' && Grouped(x) && Leads(x).None?
  {
  }

  lemma {:induction false} CallRegroup(f: Expr, ps: seq<Expr>)
    requires Valid(CallExpr(f, ps)) && (Regroup(f) == Tree(f) <==> Grouped(f))
    requires forall i :: 0 <= i < |ps| ==> (Regroup(ps[i]) == Tree(ps[i]) <==> Grouped(ps[i]))
    ensures Regroup(CallExpr(f, ps)) == Tree(CallExpr(f, ps)) <==> Grouped(CallExpr(f, ps))
  {
    AttachIs(f, SCall(seq(|ps|, i requires 0 <= i < |ps| => Regroup(ps[i]))), SCall(seq(|ps|, i requires 0 <= i < |ps| => Tree(ps[i]))));
    ParamsRegroup(ps);
  }

  lemma {:induction false} RegroupIsTree(e: Expr)
    requires Valid(e)
    ensures Regroup(e) == Tree(e) <==> Grouped(e)
  {
    match e
    case Member(x, name, pointer) =>
      RegroupIsTree(x);
      var s := if pointer then SArrow(name) else SMember(name);
      AttachIs(x, s, s);
    case Element(x, i) =>
      RegroupIsTree(x);
      RegroupIsTree(i);
      AttachIs(x, SIndex(Regroup(i)), SIndex(Tree(i)));
    case Last(es) => RegroupIsTree(es[|es| - 1]);
    case CallExpr(f, ps) =>
      RegroupIsTree(f);
      forall i | 0 <= i < |ps|
        ensures Regroup(ps[i]) == Tree(ps[i]) <==> Grouped(ps[i])
      {
        RegroupIsTree(ps[i]);
      }
      CallRegroup(f, ps);
    case PointerShift(_, p, m) =>
      RegroupIsTree(p);
      RegroupIsTree(m);
    case Select(c, l, r, _) =>
      RegroupIsTree(c);
      RegroupIsTree(l);
      RegroupIsTree(r);
    case Unary(_, x) => RegroupIsTree(x);
    case CastExpr(_, x) => RegroupIsTree(x);
    case Binary(_, l, r) =>
      RegroupIsTree(l);
      RegroupIsTree(r);
    case AssignExpr(l, r) =>
      RegroupIsTree(l);
      RegroupIsTree(r);
    case Lshr(l, r, _) =>
      RegroupIsTree(l);
      RegroupIsTree(r);
    case _ =>
  }

  lemma {:induction false} ParamsRegroup(ps: seq<Expr>)
    requires forall i :: 0 <= i < |ps| ==> Valid(ps[i]) && (Regroup(ps[i]) == Tree(ps[i]) <==> Grouped(ps[i]))
    ensures seq(|ps|, i requires 0 <= i < |ps| => Regroup(ps[i])) == seq(|ps|, i requires 0 <= i < |ps| => Tree(ps[i]))
            <==> forall i :: 0 <= i < |ps| ==> Grouped(ps[i])
  {
    var a := seq(|ps|, i requires 0 <= i < |ps| => Regroup(ps[i]));
    var b := seq(|ps|, i requires 0 <= i < |ps| => Tree(ps[i]));
    if a == b {
      forall i | 0 <= i < |ps|
        ensures Grouped(ps[i])
      {
        assert a[i] == b[i];
      }
    }
  }

  /** Every printed expression without merged tokens is read as the regrouped tree. */
  lemma {:induction false} ReadBack(e: Expr)
    requires Valid(e) && Unglued(e)
    ensures ParseExpr(Lex(Text(e))) == Ok(Regroup(e), End)
  {
    LexText(e, []);
    assert Text(e) + [] == Text(e);
    AssignmentAt(e, End);
    AssignmentToExpr(TextTo(e, End), Regroup(e), End);
  }

  /** The round trip, for every expression: it succeeds exactly if no operand that begins with a sign or
      an address operator directly follows the same operator or has a suffix, and no number has a member. */
  lemma {:induction false} PrintedIsParsed(e: Expr)
    requires Valid(e)
    ensures ParseExpr(Lex(Text(e))) == Ok(Tree(e), End) <==> Unglued(e) && Grouped(e)
  {
    LexText(e, []);
    assert Text(e) + [] == Text(e);
    if Unglued(e) {
      ReadBack(e);
      RegroupIsTree(e);
    } else {
      PrintingLoses(e, End);
      ExprWeight(TextTo(e, End));
    }
  }

  /** An operator is read as the one that was meant; "and" as the logical one exactly if both operands are
      boolean. */
  lemma {:induction false} OperatorIsRead(o: BinOp, leftBool: bool, rightBool: bool, l: Expr, r: Expr)
    requires Valid(l) && Valid(r) && Unglued(l) && Unglued(r) && Grouped(l) && Grouped(r)
    ensures ParseExpr(Lex(Text(Binary(Plain(o), l, r)))) == Ok(CBinary(o, Tree(l), Tree(r)), End)
    ensures var e := Binary(AndExpr(leftBool, rightBool), l, r);
            && (ParseExpr(Lex(Text(e))) == Ok(CBinary(And, Tree(l), Tree(r)), End) <==> leftBool && rightBool)
            && (ParseExpr(Lex(Text(e))) == Ok(CBinary(BitAnd, Tree(l), Tree(r)), End) <==> !(leftBool && rightBool))
  {
    PrintedIsParsed(Binary(Plain(o), l, r));
    PrintedIsParsed(Binary(AndExpr(leftBool, rightBool), l, r));
  }
}
