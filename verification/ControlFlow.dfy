/** The control-flow graph of one LLVM function, the rotated loops LoopInfo reports for it,
    and what it means to run it. Blocks hold opaque operations: a `Machine` says what an
    operation, a branch condition, a switch selector and a returned operand mean, so every
    statement about runs holds for every such meaning. */
module ControlFlow {
  type Label = nat

  datatype Terminator =
    | Ret(value: nat)
    | Br(target: Label)
    | CondBr(cond: nat, ifTrue: Label, ifFalse: Label)
    | Switch(sel: nat, cases: seq<Case>, default: Label)

  datatype Case = Case(key: int, target: Label)

  datatype BasicBlock = BasicBlock(body: seq<nat>, term: Terminator)

  datatype Cfg = Cfg(entry: Label, blocks: map<Label, BasicBlock>)

  /** A rotated loop: its only latch is exiting and conditional. */
  datatype Loop = Loop(preheader: Label, header: Label, latch: Label, blocks: set<Label>)

  datatype Unit = Unit(cfg: Cfg, loops: set<Loop>)

  // ----- meaning of the opaque parts -----

  datatype Machine<!S> = Machine(
    exec: (nat, S) -> S,
    test: (nat, S) -> bool,
    select: (nat, S) -> int,
    value: (nat, S) -> int)

  /** The store together with the operations performed so far. */
  datatype World<S> = World(mem: S, trace: seq<nat>)

  function RunOps<S>(m: Machine<S>, ops: seq<nat>, w: World<S>): World<S> {
    if ops == [] then w
    else RunOps(m, ops[1..], World(m.exec(ops[0], w.mem), w.trace + [ops[0]]))
  }

  /** Position of the first key equal to `v`, or the number of keys. */
  function KeyIndex(keys: seq<int>, v: int): (i: nat)
    ensures i <= |keys|
  {
    if keys == [] || keys[0] == v then 0 else 1 + KeyIndex(keys[1..], v)
  }

  function CaseKeys(cases: seq<Case>): (r: seq<int>) {
    seq(|cases|, i requires 0 <= i < |cases| => cases[i].key)
  }

  function CaseTargets(cases: seq<Case>): seq<Label> {
    seq(|cases|, i requires 0 <= i < |cases| => cases[i].target)
  }

  // ----- runs of the graph -----

  datatype CfgState<S> = At(b: Label, w: World<S>) | Returned(value: int, w: World<S>)

  function NextBlock<S>(m: Machine<S>, t: Terminator, s: S): Label
    requires !t.Ret?
  {
    match t
    case Br(target) => target
    case CondBr(c, ifTrue, ifFalse) => if m.test(c, s) then ifTrue else ifFalse
    case Switch(sel, cases, default) =>
      var i := KeyIndex(CaseKeys(cases), m.select(sel, s));
      if i < |cases| then cases[i].target else default
  }

  /** Executes the block control is at. */
  function CfgStep<S>(m: Machine<S>, g: Cfg, s: CfgState<S>): CfgState<S>
  {
    if s.Returned? || s.b !in g.blocks then s
    else
      var w := RunOps(m, g.blocks[s.b].body, s.w);
      match g.blocks[s.b].term
      case Ret(v) => Returned(m.value(v, w.mem), w)
      case _ => At(NextBlock(m, g.blocks[s.b].term, w.mem), w)
  }

  function CfgRun<S>(m: Machine<S>, g: Cfg, s: CfgState<S>, n: nat): CfgState<S>
    decreases n
  {
    if n == 0 then s else CfgRun(m, g, CfgStep(m, g, s), n - 1)
  }

  // ----- edges -----

  function Succs(t: Terminator): seq<Label> {
    match t
    case Ret(_) => []
    case Br(target) => [target]
    case CondBr(_, ifTrue, ifFalse) => [ifTrue, ifFalse]
    case Switch(_, cases, default) => CaseTargets(cases) + [default]
  }

  predicate Edge(g: Cfg, p: Label, b: Label) {
    p in g.blocks && b in Succs(g.blocks[p].term)
  }

  /** One element for every edge into `b`, so a switch with two cases for `b` counts twice. */
  function PredEdges(g: Cfg, b: Label): set<(Label, nat)> {
    set p, i | p in g.blocks && 0 <= i < |Succs(g.blocks[p].term)| && Succs(g.blocks[p].term)[i] == b :: (p, i)
  }

  predicate SinglePred(g: Cfg, b: Label) {
    |PredEdges(g, b)| == 1
  }

  ghost predicate WellFormedCfg(g: Cfg) {
    && g.entry in g.blocks
    && (forall p, b :: Edge(g, p, b) ==> b in g.blocks && b != g.entry)
    && (forall b {:trigger Reachable(g, b)} :: b in g.blocks ==> Reachable(g, b))
  }

  // ----- distance from the entry block -----

  ghost predicate Path(g: Cfg, p: seq<Label>) {
    if |p| <= 1 then p == [g.entry]
    else Edge(g, p[|p| - 2], p[|p| - 1]) && Path(g, p[..|p| - 1])
  }

  ghost predicate HasPath(g: Cfg, b: Label, n: nat) {
    exists p :: Path(g, p) && |p| == n + 1 && p[n] == b
  }

  ghost predicate Reachable(g: Cfg, b: Label) {
    exists n: nat :: HasPath(g, b, n)
  }

  ghost function LeastFrom(g: Cfg, b: Label, i: nat, n: nat): (d: nat)
    requires i <= n && HasPath(g, b, n)
    ensures HasPath(g, b, d)
    ensures forall j: nat :: i <= j < d ==> !HasPath(g, b, j)
    decreases n - i
  {
    if HasPath(g, b, i) then i else LeastFrom(g, b, i + 1, n)
  }

  /** Number of edges on a shortest path from entry. */
  ghost function Dist(g: Cfg, b: Label): (d: nat)
    requires Reachable(g, b)
    ensures HasPath(g, b, d)
    ensures forall j: nat :: j < d ==> !HasPath(g, b, j)
  {
    var n: nat :| HasPath(g, b, n);
    LeastFrom(g, b, 0, n)
  }

  /** A block other than entry has a predecessor strictly nearer to entry. */
  lemma {:induction false} NearerPred(g: Cfg, b: Label) returns (p: Label)
    requires WellFormedCfg(g) && b in g.blocks && b != g.entry
    ensures Edge(g, p, b) && p in g.blocks && Dist(g, p) < Dist(g, b)
  {
    var d := Dist(g, b);
    var q :| Path(g, q) && |q| == d + 1 && q[d] == b;
    p := q[d - 1];
    assert Path(g, q[..d]) && q[..d][d - 1] == p;
    assert HasPath(g, p, d - 1);
  }

  lemma {:induction false} SinglePredUnique(g: Cfg, b: Label, p: Label, i: nat, q: Label, j: nat)
    requires SinglePred(g, b)
    requires p in g.blocks && i < |Succs(g.blocks[p].term)| && Succs(g.blocks[p].term)[i] == b
    requires q in g.blocks && j < |Succs(g.blocks[q].term)| && Succs(g.blocks[q].term)[j] == b
    ensures p == q && i == j
  {
    var s := PredEdges(g, b);
    assert (p, i) in s && (q, j) in s - {(p, i)} + {(p, i)};
    assert |s - {(p, i)}| == 0;
  }

  /** Successor number `i` of block `p` is `b`. */
  predicate EdgeAt(g: Cfg, p: Label, i: nat, b: Label) {
    p in g.blocks && i < |Succs(g.blocks[p].term)| && Succs(g.blocks[p].term)[i] == b
  }

  /** One edge leads to the block, and no other, not even from the same block. */
  lemma {:induction false} SinglePredExact(g: Cfg, b: Label)
    ensures SinglePred(g, b) <==> exists p, i: nat :: EdgeAt(g, p, i, b) && forall q, j: nat :: EdgeAt(g, q, j, b) ==> q == p && j == i
  {
    var s := PredEdges(g, b);
    if SinglePred(g, b) {
      var e :| e in s;
      assert EdgeAt(g, e.0, e.1, b);
      forall q, j: nat | EdgeAt(g, q, j, b)
        ensures q == e.0 && j == e.1
      {
        SinglePredUnique(g, b, q, j, e.0, e.1);
      }
    }
    if exists p, i: nat :: EdgeAt(g, p, i, b) && forall q, j: nat :: EdgeAt(g, q, j, b) ==> q == p && j == i {
      var p: Label, i: nat :| EdgeAt(g, p, i, b) && forall q, j: nat :: EdgeAt(g, q, j, b) ==> q == p && j == i;
      forall e | e in s
        ensures e == (p, i)
      {
        assert EdgeAt(g, e.0, e.1, b);
      }
      assert (p, i) in s;
      assert s == {(p, i)};
    }
  }

  /** A block with a single predecessor lies strictly farther from entry than it. */
  lemma {:induction false} SinglePredFarther(g: Cfg, p: Label, b: Label)
    requires WellFormedCfg(g) && SinglePred(g, b) && Edge(g, p, b)
    ensures Dist(g, p) < Dist(g, b)
  {
    var q := NearerPred(g, b);
    var i :| 0 <= i < |Succs(g.blocks[p].term)| && Succs(g.blocks[p].term)[i] == b;
    var j :| 0 <= j < |Succs(g.blocks[q].term)| && Succs(g.blocks[q].term)[j] == b;
    SinglePredUnique(g, b, p, i, q, j);
  }

  // ----- rotated loops in simplified form -----

  function LatchCond(g: Cfg, l: Loop): nat
    requires l.latch in g.blocks && g.blocks[l.latch].term.CondBr?
  {
    g.blocks[l.latch].term.cond
  }

  /** The loop repeats when the latch condition is false. */
  predicate Negated(g: Cfg, l: Loop)
    requires l.latch in g.blocks && g.blocks[l.latch].term.CondBr?
  {
    g.blocks[l.latch].term.ifTrue != l.header
  }

  function Exit(g: Cfg, l: Loop): Label
    requires l.latch in g.blocks && g.blocks[l.latch].term.CondBr?
  {
    if g.blocks[l.latch].term.ifFalse == l.header then g.blocks[l.latch].term.ifTrue
    else g.blocks[l.latch].term.ifFalse
  }

  /** A preheader in front of the header, and a latch that repeats the loop or leaves it. */
  ghost predicate LoopShape(g: Cfg, l: Loop) {
    && {l.preheader, l.header, l.latch} <= g.blocks.Keys
    && l.header in l.blocks && l.latch in l.blocks && l.preheader !in l.blocks
    && g.blocks[l.preheader].term == Br(l.header)
    && g.blocks[l.latch].term.CondBr?
    && l.header in Succs(g.blocks[l.latch].term)
    && Exit(g, l) !in l.blocks
  }

  /** What LoopInfo, the loop-simplify pass and rotation guarantee about one loop: its shape, a
      single latch, and no way in except from the preheader to the header. */
  ghost predicate WellFormedLoop(g: Cfg, l: Loop) {
    && LoopShape(g, l)
    && g.entry !in l.blocks
    && (forall p :: Edge(g, p, l.header) ==> p == l.preheader || p == l.latch)
    && (forall p, b :: Edge(g, p, b) && b in l.blocks && b != l.header ==> p in l.blocks)
  }

  /** Loops have distinct headers; a latch branches to its own header and to a dedicated exit,
      so it is no other loop's header and its exit is not a loop header. */
  ghost predicate WellFormed(u: Unit) {
    && WellFormedCfg(u.cfg)
    && (forall l :: l in u.loops ==> WellFormedLoop(u.cfg, l))
    && (forall l, k :: l in u.loops && k in u.loops && l != k ==> l.header != k.header && l.header != k.latch)
    && (forall l, k :: l in u.loops && k in u.loops ==> Exit(u.cfg, l) != k.header)
  }

  /** The only block after the header is the latch. */
  predicate HeaderGoesToLatch(g: Cfg, l: Loop)
    requires l.header in g.blocks
  {
    Succs(g.blocks[l.header].term) == [l.latch]
  }

  lemma {:induction false} LoopBlocksBehindHeader(g: Cfg, l: Loop, b: Label)
    requires WellFormedCfg(g) && WellFormedLoop(g, l) && b in l.blocks && b in g.blocks
    ensures Dist(g, l.header) <= Dist(g, b)
    decreases Dist(g, b)
  {
    if b != l.header {
      var p := NearerPred(g, b);
      LoopBlocksBehindHeader(g, l, p);
    }
  }

  lemma {:induction false} PreheaderBeforeHeader(g: Cfg, l: Loop)
    requires WellFormedCfg(g) && WellFormedLoop(g, l)
    ensures Dist(g, l.preheader) < Dist(g, l.header)
  {
    var p := NearerPred(g, l.header);
    if p == l.latch {
      LoopBlocksBehindHeader(g, l, l.latch);
    }
  }

  lemma {:induction false} ShortLoopBlocks(g: Cfg, l: Loop, b: Label)
    requires WellFormedCfg(g) && WellFormedLoop(g, l) && HeaderGoesToLatch(g, l)
    requires b in l.blocks && b in g.blocks
    ensures b == l.header || b == l.latch
    decreases Dist(g, b)
  {
    if b != l.header {
      var p := NearerPred(g, b);
      ShortLoopBlocks(g, l, p);
      if p == l.latch {
        LatchSuccs(g, l, b);
      }
    }
  }

  /** In a loop whose header goes straight to the latch, the latch has no other predecessor. */
  lemma {:induction false} ShortLoopLatchPred(g: Cfg, l: Loop, p: Label)
    requires WellFormedCfg(g) && WellFormedLoop(g, l) && HeaderGoesToLatch(g, l)
    requires l.header != l.latch && Edge(g, p, l.latch)
    ensures p == l.header
  {
    ShortLoopBlocks(g, l, p);
    assert Edge(g, l.latch, Exit(g, l));
  }

  lemma {:induction false} LatchSuccs(g: Cfg, l: Loop, b: Label)
    requires WellFormedLoop(g, l) && Edge(g, l.latch, b)
    ensures b == l.header || b == Exit(g, l)
  {
  }

  lemma {:induction false} LatchDeterminesLoop(u: Unit, l: Loop, k: Loop)
    requires WellFormed(u) && l in u.loops && k in u.loops && l.latch == k.latch
    ensures l == k
  {
    if l != k {
      assert Edge(u.cfg, l.latch, k.header);
      LatchSuccs(u.cfg, l, k.header);
    }
  }

  // ----- an example: one rotated loop inside another -----

  const OUTER := Loop(1, 2, 4, {2, 3, 4})
  const INNER := Loop(2, 3, 3, {3})

  /** Blocks 0 to 5; block 2 is the header of the outer loop and the preheader of the inner one. */
  ghost predicate IsNested(g: Cfg) {
    && g.entry == 0 && g.blocks.Keys == {0, 1, 2, 3, 4, 5}
    && g.blocks[0].term == Br(1) && g.blocks[1].term == Br(2) && g.blocks[2].term == Br(3)
    && g.blocks[3].term == CondBr(7, 3, 4) && g.blocks[4].term == CondBr(8, 5, 2) && g.blocks[5].term == Ret(9)
  }

  ghost predicate NestedEdge(p: Label, b: Label) {
    (p < 4 && b == p + 1) || (p == 3 && b == 3) || (p == 4 && (b == 5 || b == 2))
  }

  lemma {:induction false} NestedEdges(g: Cfg, p: Label, b: Label)
    requires IsNested(g)
    ensures Edge(g, p, b) <==> NestedEdge(p, b)
  {
  }

  lemma {:induction false} ReachedNext(g: Cfg, p: Label, b: Label, path: seq<Label>)
    requires path != [] && Path(g, path) && path[|path| - 1] == p && Edge(g, p, b)
    ensures Path(g, path + [b]) && Reachable(g, b)
  {
    var q := path + [b];
    assert q[..|q| - 1] == path;
    assert HasPath(g, b, |path|);
  }

  lemma {:induction false} NestedPath(g: Cfg, b: Label) returns (path: seq<Label>)
    requires IsNested(g) && b <= 5
    ensures path != [] && Path(g, path) && path[|path| - 1] == b && Reachable(g, b)
  {
    if b == 0 {
      path := [0];
      assert HasPath(g, 0, 0);
    } else {
      path := NestedPath(g, b - 1);
      NestedEdges(g, b - 1, b);
      ReachedNext(g, b - 1, b, path);
      path := path + [b];
    }
  }

  lemma {:induction false} NestedCfg(g: Cfg)
    requires IsNested(g)
    ensures WellFormedCfg(g)
  {
    forall p, b | Edge(g, p, b)
      ensures b in g.blocks && b != g.entry
    {
      NestedEdges(g, p, b);
    }
    forall b {:trigger Reachable(g, b)} | b in g.blocks
      ensures Reachable(g, b)
    {
      var path := NestedPath(g, b);
    }
  }

  lemma {:induction false} NestedLoop(g: Cfg, l: Loop)
    requires IsNested(g) && (l == OUTER || l == INNER)
    ensures WellFormedLoop(g, l)
  {
    forall p, b | Edge(g, p, b)
      ensures b == l.header ==> p == l.preheader || p == l.latch
      ensures b in l.blocks && b != l.header ==> p in l.blocks
    {
      NestedEdges(g, p, b);
    }
    forall p | Edge(g, p, l.header)
      ensures p == l.preheader || p == l.latch
    {
    }
  }

  /** What is assumed of a function can be met, nested loops included. */
  lemma {:induction false} NestedIsWellFormed(g: Cfg)
    requires IsNested(g)
    ensures WellFormed(Unit(g, {OUTER, INNER}))
  {
    NestedCfg(g);
    NestedLoop(g, OUTER);
    NestedLoop(g, INNER);
  }
}
