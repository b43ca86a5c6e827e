/** The expression grammar of section 6.5 of ISO/IEC 9899:2011, as a recursive-descent parser on
    tokens: one function per nonterminal, the binary operators by level. */
module CGrammar {
  datatype BinOp =
    | Mul | Div | Rem | Add | Sub | Shl | Shr | Lt | Gt | Le | Ge | Eq | Ne | BitAnd | BitXor | BitOr | And | Or

  /** `*`, `&` and `-` serve two purposes each; a type name is one token. `PPNumber` stands for a
      preprocessing number that is no constant. */
  datatype Tok =
    | Id(x: string)
    | Num(n: nat)
    | TypeName(ty: string)
    | LParen | RParen | LBracket | RBracket | Dot | Arrow | Comma | Question | Colon | Equals
    | Bang | MinusMinus | Op(op: BinOp)
    | PPNumber

  datatype Toks = End | Cons(head: Tok, tail: Toks)

  datatype UnOp = AddressOf | Indirect | Negate | Not | Decrement

  datatype CTree =
    | CId(x: string)
    | CNum(n: nat)
    | CIndex(e: CTree, i: CTree)
    | CCall(f: CTree, args: seq<CTree>)
    | CMember(e: CTree, name: string)
    | CArrow(e: CTree, name: string)
    | CUnary(u: UnOp, e: CTree)
    | CCast(ty: string, e: CTree)
    | CBinary(op: BinOp, l: CTree, r: CTree)
    | CCond(c: CTree, l: CTree, r: CTree)
    | CAssign(l: CTree, r: CTree)
    | CComma(l: CTree, r: CTree)

  /** From multiplication, the tightest, down to logical or. */
  function Level(op: BinOp): (p: nat)
    ensures 1 <= p <= 10
  {
    match op
    case Mul => 10 case Div => 10 case Rem => 10
    case Add => 9 case Sub => 9
    case Shl => 8 case Shr => 8
    case Lt => 7 case Gt => 7 case Le => 7 case Ge => 7
    case Eq => 6 case Ne => 6
    case BitAnd => 5
    case BitXor => 4
    case BitOr => 3
    case And => 2
    case Or => 1
  }

  function Prefix(t: Tok): (r: Option<UnOp>) {
    match t
    case Op(BitAnd) => Some(AddressOf)
    case Op(Mul) => Some(Indirect)
    case Op(Sub) => Some(Negate)
    case Bang => Some(Not)
    case _ => None
  }

  datatype Option<T> = None | Some(value: T)

  function Len(ts: Toks): nat {
    if ts.End? then 0 else 1 + Len(ts.tail)
  }

  datatype Result<T> = Fail | Ok(t: T, rest: Toks)

  // ----- the nonterminals -----

  function ParsePrimary(ts: Toks): (r: Result<CTree>)
    ensures r.Ok? ==> Len(r.rest) < Len(ts)
    decreases Len(ts), 0
  {
    if ts.End? then Fail
    else
      match ts.head
      case Id(x) => Ok(CId(x), ts.tail)
      case Num(n) => Ok(CNum(n), ts.tail)
      case LParen =>
        var e := ParseExpr(ts.tail);
        if e.Ok? && e.rest.Cons? && e.rest.head.RParen? then Ok(e.t, e.rest.tail) else Fail
      case _ => Fail
  }

  function ParseSuffixes(acc: CTree, ts: Toks): (r: Result<CTree>)
    ensures r.Ok? ==> Len(r.rest) <= Len(ts)
    decreases Len(ts), 0
  {
    if ts.End? then Ok(acc, ts)
    else
      match ts.head
      case LBracket =>
        var i := ParseExpr(ts.tail);
        if i.Ok? && i.rest.Cons? && i.rest.head.RBracket? then ParseSuffixes(CIndex(acc, i.t), i.rest.tail) else Fail
      case LParen =>
        var args := ParseArguments(ts.tail);
        if args.Ok? then ParseSuffixes(CCall(acc, args.t), args.rest) else Fail
      case Dot =>
        assert ts.tail.Cons? ==> Len(ts.tail) == 1 + Len(ts.tail.tail);
        if ts.tail.Cons? && ts.tail.head.Id? then ParseSuffixes(CMember(acc, ts.tail.head.x), ts.tail.tail) else Fail
      case Arrow =>
        assert ts.tail.Cons? ==> Len(ts.tail) == 1 + Len(ts.tail.tail);
        if ts.tail.Cons? && ts.tail.head.Id? then ParseSuffixes(CArrow(acc, ts.tail.head.x), ts.tail.tail) else Fail
      case _ => Ok(acc, ts)
  }

  function ParsePostfix(ts: Toks): (r: Result<CTree>)
    ensures r.Ok? ==> Len(r.rest) < Len(ts)
    decreases Len(ts), 1
  {
    var p := ParsePrimary(ts);
    if p.Ok? then ParseSuffixes(p.t, p.rest) else Fail
  }

  /** The arguments of a call and the closing parenthesis. */
  function ParseArguments(ts: Toks): (r: Result<seq<CTree>>)
    ensures r.Ok? ==> Len(r.rest) < Len(ts)
    decreases Len(ts), 20
  {
    if ts.Cons? && ts.head.RParen? then Ok([], ts.tail)
    else ParseArgumentList(ts)
  }

  function ParseArgumentList(ts: Toks): (r: Result<seq<CTree>>)
    ensures r.Ok? ==> Len(r.rest) < Len(ts)
    decreases Len(ts), 19
  {
    var a := ParseAssignment(ts);
    if !a.Ok? || a.rest.End? then Fail
    else
      match a.rest.head
      case RParen => Ok([a.t], a.rest.tail)
      case Comma =>
        var more := ParseArgumentList(a.rest.tail);
        if more.Ok? then Ok([a.t] + more.t, more.rest) else Fail
      case _ => Fail
  }

  function ParseUnary(ts: Toks): (r: Result<CTree>)
    ensures r.Ok? ==> Len(r.rest) < Len(ts)
    decreases Len(ts), 2
  {
    if ts.Cons? && Prefix(ts.head).Some? then
      var e := ParseCast(ts.tail);
      if e.Ok? then Ok(CUnary(Prefix(ts.head).value, e.t), e.rest) else Fail
    else if ts.Cons? && ts.head.MinusMinus? then
      var e := ParseUnary(ts.tail);
      if e.Ok? then Ok(CUnary(Decrement, e.t), e.rest) else Fail
    else ParsePostfix(ts)
  }

  predicate StartsCast(ts: Toks) {
    ts.Cons? && ts.head.LParen? && ts.tail.Cons? && ts.tail.head.TypeName? && ts.tail.tail.Cons? && ts.tail.tail.head.RParen?
  }

  function ParseCast(ts: Toks): (r: Result<CTree>)
    ensures r.Ok? ==> Len(r.rest) < Len(ts)
    decreases Len(ts), 3
  {
    if StartsCast(ts) then
      assert Len(ts.tail) == 1 + Len(ts.tail.tail) == 2 + Len(ts.tail.tail.tail);
      var e := ParseCast(ts.tail.tail.tail);
      if e.Ok? then Ok(CCast(ts.tail.head.ty, e.t), e.rest) else Fail
    else ParseUnary(ts)
  }

  predicate AtOperator(ts: Toks, p: nat) {
    ts.Cons? && ts.head.Op? && Level(ts.head.op) == p
  }

  /** Operators of level `p`, left to right. */
  function ParseOperators(p: nat, acc: CTree, ts: Toks): (r: Result<CTree>)
    requires 1 <= p <= 10
    ensures r.Ok? ==> Len(r.rest) <= Len(ts)
    decreases Len(ts), 0
  {
    if AtOperator(ts, p) then
      var e := ParseBinary(p + 1, ts.tail);
      if e.Ok? then ParseOperators(p, CBinary(ts.head.op, acc, e.t), e.rest) else Fail
    else Ok(acc, ts)
  }

  function ParseBinary(p: nat, ts: Toks): (r: Result<CTree>)
    requires 1 <= p <= 11
    ensures r.Ok? ==> Len(r.rest) < Len(ts)
    decreases Len(ts), 15 - p
  {
    if p == 11 then ParseCast(ts)
    else
      var e := ParseBinary(p + 1, ts);
      if e.Ok? then ParseOperators(p, e.t, e.rest) else Fail
  }

  function ParseConditional(ts: Toks): (r: Result<CTree>)
    ensures r.Ok? ==> Len(r.rest) < Len(ts)
    decreases Len(ts), 16
  {
    var c := ParseBinary(1, ts);
    if !c.Ok? then Fail
    else if c.rest.Cons? && c.rest.head.Question? then
      var l := ParseExpr(c.rest.tail);
      if l.Ok? && l.rest.Cons? && l.rest.head.Colon? then
        var r := ParseConditional(l.rest.tail);
        if r.Ok? then Ok(CCond(c.t, l.t, r.t), r.rest) else Fail
      else Fail
    else c
  }

  /** A unary expression before `=`, or a conditional expression. */
  function ParseAssignment(ts: Toks): (r: Result<CTree>)
    ensures r.Ok? ==> Len(r.rest) < Len(ts)
    decreases Len(ts), 17
  {
    var l := ParseUnary(ts);
    if l.Ok? && l.rest.Cons? && l.rest.head.Equals? then
      var r := ParseAssignment(l.rest.tail);
      if r.Ok? then Ok(CAssign(l.t, r.t), r.rest) else Fail
    else ParseConditional(ts)
  }

  function ParseCommas(acc: CTree, ts: Toks): (r: Result<CTree>)
    ensures r.Ok? ==> Len(r.rest) <= Len(ts)
    decreases Len(ts), 0
  {
    if ts.Cons? && ts.head.Comma? then
      var e := ParseAssignment(ts.tail);
      if e.Ok? then ParseCommas(CComma(acc, e.t), e.rest) else Fail
    else Ok(acc, ts)
  }

  function ParseExpr(ts: Toks): (r: Result<CTree>)
    ensures r.Ok? ==> Len(r.rest) < Len(ts)
    decreases Len(ts), 18
  {
    var e := ParseAssignment(ts);
    if e.Ok? then ParseCommas(e.t, e.rest) else Fail
  }
}
