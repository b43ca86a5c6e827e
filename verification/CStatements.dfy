/** The C statements the writer prints for a function body, and a small-step semantics for them:
    `goto` (section 6.8.6.1 of ISO/IEC 9899:2011) may jump into the middle of a `do` body and
    `do` (section 6.8.5.2) tests its condition after every pass. */
module CStatements {
  import opened ControlFlow

  datatype CStmt =
    | COp(op: nat)
    | CGoto(target: Label)
    | CIf(cond: nat, thn: seq<CStmt>, els: seq<CStmt>)
    | CSwitch(sel: nat, arms: seq<Arm>, default: seq<CStmt>)
    | CReturn(value: nat)
    | CDo(body: seq<CStmt>, cond: nat, negate: bool)
    | CLabel(name: Label)

  datatype Arm = Arm(key: int, code: seq<CStmt>)

  /** What happens once the statements at hand are exhausted: the function falls off its end,
      or the enclosing `do` tests its condition and then either repeats or goes on with `rest`. */
  datatype Kont = KStop | KDo(body: seq<CStmt>, cond: nat, negate: bool, rest: seq<CStmt>, next: Kont)

  datatype CState<S> =
    | Running(code: seq<CStmt>, k: Kont, w: World<S>)
    | Done(value: int, w: World<S>)
    | FellOff(w: World<S>)
    | Stuck(w: World<S>)

  function Flatten(arms: seq<Arm>): seq<CStmt> {
    if arms == [] then [] else arms[0].code + Flatten(arms[1..])
  }

  function ArmKeys(arms: seq<Arm>): seq<int> {
    seq(|arms|, i requires 0 <= i < |arms| => arms[i].key)
  }

  function Size(code: seq<CStmt>): nat {
    if code == [] then 0 else StmtSize(code[0]) + Size(code[1..])
  }

  function StmtSize(s: CStmt): (n: nat)
    ensures n >= 1
    decreases s, 0
  {
    match s
    case CIf(_, thn, els) => 1 + Size(thn) + Size(els)
    case CSwitch(_, arms, default) => 1 + ArmsSize(arms) + Size(default)
    case CDo(body, _, _) => 1 + Size(body)
    case _ => 1
  }

  function ArmsSize(arms: seq<Arm>): nat {
    if arms == [] then 0 else Size(arms[0].code) + ArmsSize(arms[1..])
  }

  lemma SizeAppend(a: seq<CStmt>, b: seq<CStmt>)
    ensures Size(a + b) == Size(a) + Size(b)
  {
    if a == [] {
      assert a + b == b;
    } else {
      assert (a + b)[1..] == a[1..] + b;
    }
  }

  lemma SizeFlatten(arms: seq<Arm>)
    ensures Size(Flatten(arms)) == ArmsSize(arms)
  {
    if arms != [] {
      SizeAppend(arms[0].code, Flatten(arms[1..]));
      SizeFlatten(arms[1..]);
    }
  }

  /** The statements that follow the first occurrence of a label, with their continuation. */
  function FindLabel(l: Label, code: seq<CStmt>, k: Kont): (r: Option<(seq<CStmt>, Kont)>)
    decreases Size(code)
  {
    if code == [] then None
    else
      var rest := code[1..];
      match code[0]
      case CLabel(name) =>
        if name == l then Some((rest, k)) else FindLabel(l, rest, k)
      case CIf(_, thn, els) =>
        assert StmtSize(code[0]) == 1 + Size(thn) + Size(els);
        SizeAppend(thn, rest);
        SizeAppend(els, rest);
        var r := FindLabel(l, thn + rest, k);
        if r.Some? then r else FindLabel(l, els + rest, k)
      case CSwitch(_, arms, default) =>
        assert StmtSize(code[0]) == 1 + ArmsSize(arms) + Size(default);
        SizeFlatten(arms);
        SizeAppend(Flatten(arms) + default, rest);
        SizeAppend(Flatten(arms), default);
        FindLabel(l, Flatten(arms) + default + rest, k)
      case CDo(body, cond, negate) =>
        assert StmtSize(code[0]) == 1 + Size(body);
        var r := FindLabel(l, body, KDo(body, cond, negate, rest, k));
        if r.Some? then r else FindLabel(l, rest, k)
      case _ => FindLabel(l, rest, k)
  }

  datatype Option<T> = None | Some(value: T)

  /** One step inside a function whose body is `fn`. A `switch` arm falls through into the next. */
  function CStep<S>(m: Machine<S>, fn: seq<CStmt>, s: CState<S>): CState<S> {
    if !s.Running? then s
    else if s.code == [] then
      match s.k
      case KStop => FellOff(s.w)
      case KDo(body, cond, negate, rest, next) =>
        if m.test(cond, s.w.mem) != negate then Running(body, s.k, s.w) else Running(rest, next, s.w)
    else
      var rest := s.code[1..];
      match s.code[0]
      case COp(op) => Running(rest, s.k, World(m.exec(op, s.w.mem), s.w.trace + [op]))
      case CLabel(_) => Running(rest, s.k, s.w)
      case CReturn(v) => Done(m.value(v, s.w.mem), s.w)
      case CGoto(l) =>
        var r := FindLabel(l, fn, KStop);
        if r.Some? then Running(r.value.0, r.value.1, s.w) else Stuck(s.w)
      case CIf(cond, thn, els) =>
        Running((if m.test(cond, s.w.mem) then thn else els) + rest, s.k, s.w)
      case CSwitch(sel, arms, default) =>
        var i := KeyIndex(ArmKeys(arms), m.select(sel, s.w.mem));
        Running((if i < |arms| then Flatten(arms[i..]) + default else default) + rest, s.k, s.w)
      case CDo(body, cond, negate) => Running(body, KDo(body, cond, negate, rest, s.k), s.w)
  }

  function CRun<S>(m: Machine<S>, fn: seq<CStmt>, s: CState<S>, n: nat): CState<S>
    decreases n
  {
    if n == 0 then s else CRun(m, fn, CStep(m, fn, s), n - 1)
  }

  lemma {:induction false} CRunAdd<S>(m: Machine<S>, fn: seq<CStmt>, s: CState<S>, a: nat, b: nat)
    ensures CRun(m, fn, s, a + b) == CRun(m, fn, CRun(m, fn, s, a), b)
    decreases a
  {
    if a > 0 {
      CRunAdd(m, fn, CStep(m, fn, s), a - 1, b);
    }
  }

  lemma {:induction false} CRunStays<S>(m: Machine<S>, fn: seq<CStmt>, s: CState<S>, n: nat)
    requires !s.Running?
    ensures CRun(m, fn, s, n) == s
    decreases n
  {
    if n > 0 {
      CRunStays(m, fn, s, n - 1);
    }
  }

  // ----- operations, labels and gotos in a piece of code -----

  function Ops(ops: seq<nat>): (code: seq<CStmt>) {
    if ops == [] then [] else [COp(ops[0])] + Ops(ops[1..])
  }

  lemma {:induction false} OpsRun<S>(m: Machine<S>, fn: seq<CStmt>, ops: seq<nat>, rest: seq<CStmt>, k: Kont, w: World<S>)
    ensures CRun(m, fn, Running(Ops(ops) + rest, k, w), |ops|) == Running(rest, k, RunOps(m, ops, w))
    decreases ops
  {
    if ops == [] {
      assert Ops(ops) + rest == rest;
    } else {
      assert (Ops(ops) + rest)[1..] == Ops(ops[1..]) + rest;
      OpsRun(m, fn, ops[1..], rest, k, World(m.exec(ops[0], w.mem), w.trace + [ops[0]]));
    }
  }

  function Labels(code: seq<CStmt>): multiset<Label> {
    if code == [] then multiset{} else StmtLabels(code[0]) + Labels(code[1..])
  }

  function StmtLabels(s: CStmt): multiset<Label>
    decreases s, 0
  {
    match s
    case CLabel(name) => multiset{name}
    case CIf(_, thn, els) => Labels(thn) + Labels(els)
    case CSwitch(_, arms, default) => ArmsLabels(arms) + Labels(default)
    case CDo(body, _, _) => Labels(body)
    case _ => multiset{}
  }

  function ArmsLabels(arms: seq<Arm>): multiset<Label> {
    if arms == [] then multiset{} else Labels(arms[0].code) + ArmsLabels(arms[1..])
  }

  lemma LabelsAppend(a: seq<CStmt>, b: seq<CStmt>)
    ensures Labels(a + b) == Labels(a) + Labels(b)
  {
    if a == [] {
      assert a + b == b;
    } else {
      assert (a + b)[1..] == a[1..] + b;
    }
  }

  lemma LabelsFlatten(arms: seq<Arm>)
    ensures Labels(Flatten(arms)) == ArmsLabels(arms)
  {
    if arms != [] {
      LabelsAppend(arms[0].code, Flatten(arms[1..]));
      LabelsFlatten(arms[1..]);
    }
  }

  lemma LabelsOps(ops: seq<nat>)
    ensures Labels(Ops(ops)) == multiset{}
  {
    if ops != [] {
      assert Ops(ops)[1..] == Ops(ops[1..]);
      LabelsOps(ops[1..]);
    }
  }

  /** A `goto` finds its label exactly when the label is printed. */
  lemma {:induction false} FindLabelIff(l: Label, code: seq<CStmt>, k: Kont)
    ensures FindLabel(l, code, k).Some? <==> l in Labels(code)
    decreases Size(code)
  {
    if code != [] {
      var rest := code[1..];
      match code[0]
      case CIf(_, thn, els) =>
        assert StmtSize(code[0]) == 1 + Size(thn) + Size(els);
        SizeAppend(thn, rest);
        SizeAppend(els, rest);
        LabelsAppend(thn, rest);
        LabelsAppend(els, rest);
        FindLabelIff(l, thn + rest, k);
        FindLabelIff(l, els + rest, k);
      case CSwitch(_, arms, default) =>
        assert StmtSize(code[0]) == 1 + ArmsSize(arms) + Size(default);
        SizeFlatten(arms);
        SizeAppend(Flatten(arms) + default, rest);
        SizeAppend(Flatten(arms), default);
        LabelsFlatten(arms);
        LabelsAppend(Flatten(arms) + default, rest);
        LabelsAppend(Flatten(arms), default);
        FindLabelIff(l, Flatten(arms) + default + rest, k);
      case CDo(body, cond, negate) =>
        assert StmtSize(code[0]) == 1 + Size(body);
        FindLabelIff(l, body, KDo(body, cond, negate, rest, k));
        FindLabelIff(l, rest, k);
      case _ => FindLabelIff(l, rest, k);
    }
  }

  /** Targets of all gotos in a piece of code. */
  function Gotos(code: seq<CStmt>): set<Label> {
    if code == [] then {} else StmtGotos(code[0]) + Gotos(code[1..])
  }

  function StmtGotos(s: CStmt): set<Label>
    decreases s, 0
  {
    match s
    case CGoto(target) => {target}
    case CIf(_, thn, els) => Gotos(thn) + Gotos(els)
    case CSwitch(_, arms, default) => ArmsGotos(arms) + Gotos(default)
    case CDo(body, _, _) => Gotos(body)
    case _ => {}
  }

  function ArmsGotos(arms: seq<Arm>): set<Label> {
    if arms == [] then {} else Gotos(arms[0].code) + ArmsGotos(arms[1..])
  }

  lemma GotosAppend(a: seq<CStmt>, b: seq<CStmt>)
    ensures Gotos(a + b) == Gotos(a) + Gotos(b)
  {
    if a == [] {
      assert a + b == b;
    } else {
      assert (a + b)[1..] == a[1..] + b;
    }
  }

  lemma GotosOps(ops: seq<nat>)
    ensures Gotos(Ops(ops)) == {}
  {
    if ops != [] {
      assert Ops(ops)[1..] == Ops(ops[1..]);
      GotosOps(ops[1..]);
    }
  }
}
