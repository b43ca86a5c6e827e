/** What each pass does to the blocks of a function, as a function of their state, and that all of
    them together leave every block with the statements and the flag `Structuring` describes. */
module PassEffects {
  import opened ControlFlow
  import opened CStatements
  import opened Structuring
  import opened Simulation
  import opened Rewriting

  /** The fields of a block, as a value. */
  datatype BlockState = BlockState(exprs: seq<Stmt>, doInline: bool, handled: bool)

  type FuncState = map<Label, BlockState>

  // ----- the loop forest -----

  /** A loop as LoopInfo lists it. For a loop that is not rotated only its blocks matter. */
  datatype LoopTree = LoopTree(rotated: bool, loop: Loop, order: seq<Label>, subLoops: seq<LoopTree>)

  ghost function Rotated(t: LoopTree): set<Loop> {
    (if t.rotated then {t.loop} else {}) + RotatedIn(t.subLoops)
  }

  ghost function RotatedIn(ts: seq<LoopTree>): set<Loop> {
    if ts == [] then {} else Rotated(ts[0]) + RotatedIn(ts[1..])
  }

  /** The blocks that handling a loop may touch: its own, and its preheader. */
  ghost function Area(t: LoopTree): set<Label> {
    t.loop.blocks + if t.rotated then {t.loop.preheader} else {}
  }

  ghost predicate Disjoint(ts: seq<LoopTree>) {
    forall i, j :: 0 <= i < j < |ts| ==> Area(ts[i]) !! Area(ts[j])
  }

  /** Loops nest: inner loops and their preheaders lie inside, side by side, and away from the
      outer latch; a preheader or a latch inside a loop belongs to it or to a loop inside it. */
  ghost predicate Nested(u: Unit, t: LoopTree) {
    && (forall b :: b in t.order <==> b in t.loop.blocks)
    && t.loop.blocks <= u.cfg.blocks.Keys
    && (t.rotated ==> t.loop in u.loops)
    && Disjoint(t.subLoops)
    && (forall s :: s in t.subLoops ==>
         Nested(u, s) && Area(s) <= t.loop.blocks && (t.rotated ==> t.loop.latch !in Area(s)))
    && (forall l :: l in u.loops && l.preheader in t.loop.blocks ==> l in RotatedIn(t.subLoops))
    && (forall l :: l in u.loops && l.latch in t.loop.blocks ==> l in Rotated(t))
  }

  ghost predicate IsForest(u: Unit, forest: seq<LoopTree>) {
    && Disjoint(forest)
    && RotatedIn(forest) == u.loops
    && forall t :: t in forest ==> Nested(u, t)
  }

  lemma {:induction false} RotatedInHas(ts: seq<LoopTree>, i: nat)
    requires i < |ts|
    ensures Rotated(ts[i]) <= RotatedIn(ts)
    decreases ts
  {
    if i > 0 {
      RotatedInHas(ts[1..], i - 1);
    }
  }

  lemma {:induction false} RotatedInPrefix(ts: seq<LoopTree>, i: nat)
    requires i < |ts|
    ensures RotatedIn(ts[..i + 1]) == RotatedIn(ts[..i]) + Rotated(ts[i])
    decreases ts
  {
    if i == 0 {
      assert ts[..1] == [ts[0]] && ts[..0] == [];
      assert RotatedIn([ts[0]]) == Rotated(ts[0]) + RotatedIn([ts[0]][1..]);
    } else {
      assert ts[..i + 1][1..] == ts[1..][..i] && ts[..i][1..] == ts[1..][..i - 1];
      RotatedInPrefix(ts[1..], i - 1);
    }
  }

  lemma {:induction false} NestedLoops(inner: LoopTree, outer: LoopTree)
    requires inner == LoopTree(true, INNER, [3], []) && outer == LoopTree(true, OUTER, [2, 3, 4], [inner])
    ensures RotatedIn(inner.subLoops) == {} && Rotated(inner) == {INNER} && RotatedIn(outer.subLoops) == {INNER}
    ensures Rotated(outer) == {OUTER, INNER} && RotatedIn([outer]) == {OUTER, INNER}
  {
  }

  lemma {:induction false} InnerIsNested(u: Unit, inner: LoopTree, outer: LoopTree)
    requires u.cfg.blocks.Keys == {0, 1, 2, 3, 4, 5} && u.loops == {OUTER, INNER}
    requires inner == LoopTree(true, INNER, [3], []) && outer == LoopTree(true, OUTER, [2, 3, 4], [inner])
    ensures Nested(u, inner)
  {
    NestedLoops(inner, outer);
  }

  lemma {:induction false} OuterIsNested(u: Unit, inner: LoopTree, outer: LoopTree)
    requires u.cfg.blocks.Keys == {0, 1, 2, 3, 4, 5} && u.loops == {OUTER, INNER}
    requires inner == LoopTree(true, INNER, [3], []) && outer == LoopTree(true, OUTER, [2, 3, 4], [inner])
    ensures Nested(u, outer)
  {
    NestedLoops(inner, outer);
    InnerIsNested(u, inner, outer);
  }

  /** What is assumed of the loops and the order of blocks can be met too, by the nested pair. */
  lemma {:induction false} NestedIsForest(g: Cfg, inner: LoopTree, outer: LoopTree)
    requires IsNested(g)
    requires inner == LoopTree(true, INNER, [3], []) && outer == LoopTree(true, OUTER, [2, 3, 4], [inner])
    ensures WellFormed(Unit(g, {OUTER, INNER})) && IsForest(Unit(g, {OUTER, INNER}), [outer])
    ensures Enumerates(Unit(g, {OUTER, INNER}), [0, 1, 2, 3, 4, 5])
  {
    NestedIsWellFormed(g);
    ForestOfTwo(Unit(g, {OUTER, INNER}), inner, outer);
    BlocksInOrder(Unit(g, {OUTER, INNER}));
  }

  lemma {:induction false} ForestOfTwo(u: Unit, inner: LoopTree, outer: LoopTree)
    requires u.cfg.blocks.Keys == {0, 1, 2, 3, 4, 5} && u.loops == {OUTER, INNER}
    requires inner == LoopTree(true, INNER, [3], []) && outer == LoopTree(true, OUTER, [2, 3, 4], [inner])
    ensures IsForest(u, [outer])
  {
    NestedLoops(inner, outer);
    OuterIsNested(u, inner, outer);
  }

  lemma {:induction false} BlocksInOrder(u: Unit)
    requires u.cfg.blocks.Keys == {0, 1, 2, 3, 4, 5}
    ensures Enumerates(u, [0, 1, 2, 3, 4, 5])
  {
    forall b
      ensures b in [0, 1, 2, 3, 4, 5] <==> b in u.cfg.blocks
    {
      assert b in u.cfg.blocks <==> b in u.cfg.blocks.Keys;
    }
  }

  // ----- one function -----

  /** A block's statements before its terminator is parsed; switches are already in place. */
  function Initial(bb: BasicBlock): seq<Stmt> {
    OpStmts(bb.body) + if bb.term.Switch? then TermStmts(bb.term) else []
  }

  // ----- what parsing does to the blocks, as a function of their state -----

  /** Appending the translation of a block's own terminator; switches are in place already. */
  function Parsed(bb: BasicBlock, s: BlockState): BlockState {
    if bb.term.Switch? then s
    else s.(exprs := s.exprs + TermStmts(bb.term), handled := true)
  }

  /** A rotated loop becomes a do-while at the end of its preheader, followed by the loop's exit. */
  function LoopParsed(g: Cfg, l: Loop, st: FuncState): (r: FuncState)
    requires st.Keys == g.blocks.Keys && LoopShape(g, l)
    ensures r.Keys == st.Keys
  {
    var st1 := st[l.header := st[l.header].(doInline := true)];
    var st2 := st1[l.latch := st1[l.latch].(handled := true)];
    st2[l.preheader := st2[l.preheader].(exprs := st[l.preheader].exprs + LoopStmts(g, l), handled := true)]
  }

  function RestParsed(g: Cfg, order: seq<Label>, st: FuncState): (r: FuncState)
    requires st.Keys == g.blocks.Keys && forall b :: b in order ==> b in g.blocks
    ensures r.Keys == st.Keys
    decreases order
  {
    if order == [] then st
    else
      var b := order[0];
      RestParsed(g, order[1..], if st[b].handled then st else st[b := Parsed(g.blocks[b], st[b])])
  }

  ghost predicate Fits(g: Cfg, t: LoopTree) {
    && (t.rotated ==> LoopShape(g, t.loop))
    && (forall b :: b in t.order ==> b in g.blocks)
    && (forall s :: s in t.subLoops ==> Fits(g, s))
  }

  /** Inner loops first, then the loop itself, then its remaining blocks. */
  ghost function NestParsed(g: Cfg, t: LoopTree, st: FuncState): (r: FuncState)
    requires st.Keys == g.blocks.Keys && Fits(g, t)
    ensures r.Keys == st.Keys
    decreases t, 0
  {
    var st1 := NestsParsed(g, t.subLoops, st);
    RestParsed(g, t.order, if t.rotated then LoopParsed(g, t.loop, st1) else st1)
  }

  ghost function NestsParsed(g: Cfg, ts: seq<LoopTree>, st: FuncState): (r: FuncState)
    requires st.Keys == g.blocks.Keys && forall t :: t in ts ==> Fits(g, t)
    ensures r.Keys == st.Keys
    decreases ts, 1
  {
    if ts == [] then st else NestsParsed(g, ts[1..], NestParsed(g, ts[0], st))
  }

  lemma {:induction false} RestParsedLast(g: Cfg, order: seq<Label>, i: nat, st: FuncState)
    requires st.Keys == g.blocks.Keys && (forall b :: b in order ==> b in g.blocks) && i < |order|
    ensures var r := RestParsed(g, order[..i], st);
            RestParsed(g, order[..i + 1], st)
              == if r[order[i]].handled then r else r[order[i] := Parsed(g.blocks[order[i]], r[order[i]])]
    decreases order
  {
    var b := order[0];
    var st1 := if st[b].handled then st else st[b := Parsed(g.blocks[b], st[b])];
    assert order[..i + 1][1..] == order[1..][..i];
    if i == 0 {
      assert order[..i] == [];
    } else {
      assert order[..i][1..] == order[1..][..i - 1];
      RestParsedLast(g, order[1..], i - 1, st1);
    }
  }

  lemma {:induction false} NestsParsedLast(g: Cfg, ts: seq<LoopTree>, i: nat, st: FuncState)
    requires st.Keys == g.blocks.Keys && (forall t :: t in ts ==> Fits(g, t)) && i < |ts|
    ensures NestsParsed(g, ts[..i + 1], st) == NestParsed(g, ts[i], NestsParsed(g, ts[..i], st))
    decreases ts
  {
    assert ts[..i + 1][1..] == ts[1..][..i];
    if i == 0 {
      assert ts[..i] == [];
    } else {
      assert ts[..i][1..] == ts[1..][..i - 1];
      NestsParsedLast(g, ts[1..], i - 1, NestParsed(g, ts[0], st));
    }
  }

  // ----- parsing every loop nest finishes every block -----

  /** A block is either untouched or finished. */
  ghost predicate BlockOk(u: Unit, b: Label, s: BlockState)
    requires WellFormed(u) && b in u.cfg.blocks
  {
    s.exprs == if s.handled then Exprs(u, b) else Initial(u.cfg.blocks[b])
  }

  /** The block is in front of one of these loops, or at its end. */
  ghost predicate EndOf(loops: set<Loop>, b: Label) {
    exists l :: l in loops && (l.preheader == b || l.latch == b)
  }

  ghost predicate HeaderOf(loops: set<Loop>, b: Label) {
    exists l :: l in loops && l.header == b
  }

  /** How handling loops with these blocks and rotated loops changes block `b`. */
  ghost predicate Evolves(u: Unit, b: Label, s: BlockState, r: BlockState, area: set<Label>, loops: set<Loop>)
    requires WellFormed(u) && b in u.cfg.blocks
  {
    && BlockOk(u, b, r)
    && (b !in area ==> r.handled == s.handled)
    && (EndOf(loops, b) ==> r.handled)
    && (r.doInline <==> s.doInline || HeaderOf(loops, b))
  }

  /** Only blocks not yet handled are parsed, each once; a switch needs no parsing. */
  lemma {:induction false} RestParsedAt(g: Cfg, order: seq<Label>, st: FuncState, b: Label)
    requires st.Keys == g.blocks.Keys && (forall x :: x in order ==> x in g.blocks) && b in st
    ensures RestParsed(g, order, st)[b] == if b in order && !st[b].handled then Parsed(g.blocks[b], st[b]) else st[b]
    decreases order
  {
    if order != [] {
      var x := order[0];
      RestParsedAt(g, order[1..], if st[x].handled then st else st[x := Parsed(g.blocks[x], st[x])], b);
    }
  }

  lemma {:induction false} LatchExprs(u: Unit, l: Loop)
    requires WellFormed(u) && l in u.loops
    ensures Exprs(u, l.latch) == Initial(u.cfg.blocks[l.latch])
  {
    assert IsLatch(u, l.latch);
  }

  lemma {:induction false} PreheaderExprs(u: Unit, l: Loop)
    requires WellFormed(u) && l in u.loops
    ensures Exprs(u, l.preheader) == Initial(u.cfg.blocks[l.preheader]) + LoopStmts(u.cfg, l)
  {
    LoopAfterPreheader(u, l);
  }

  lemma {:induction false} PlainExprs(u: Unit, b: Label)
    requires WellFormed(u) && b in u.cfg.blocks && !IsLatch(u, b) && !IsPreheader(u, b)
    ensures Exprs(u, b) == Initial(u.cfg.blocks[b])
      + if u.cfg.blocks[b].term.Switch? then [] else TermStmts(u.cfg.blocks[b].term)
  {
  }

  lemma {:induction false} LoopParsedAt(u: Unit, l: Loop, st: FuncState, b: Label)
    requires WellFormed(u) && l in u.loops && st.Keys == u.cfg.blocks.Keys && b in st && BlockOk(u, b, st[b])
    requires b == l.preheader || b == l.latch ==> !st[b].handled
    ensures Evolves(u, b, st[b], LoopParsed(u.cfg, l, st)[b], {l.preheader, l.latch}, {l})
  {
    LatchExprs(u, l);
    PreheaderExprs(u, l);
    assert l.preheader != l.latch && l.preheader != l.header;
    assert l in {l};
  }

  /** Once the ends of a nest's loops are handled, its other blocks end no loop. */
  lemma {:induction false} PlainInNest(u: Unit, t: LoopTree, b: Label)
    requires WellFormed(u) && Nested(u, t) && b in t.loop.blocks && !EndOf(Rotated(t), b)
    ensures !IsLatch(u, b) && !IsPreheader(u, b)
  {
    assert !IsPreheader(u, b);
  }

  lemma {:induction false} NestFits(u: Unit, t: LoopTree)
    requires WellFormed(u) && Nested(u, t)
    ensures Fits(u.cfg, t)
    decreases t
  {
    forall s | s in t.subLoops
      ensures Fits(u.cfg, s)
    {
      NestFits(u, s);
    }
  }

  /** The union of the areas of some loops. */
  ghost function AreaIn(ts: seq<LoopTree>): set<Label> {
    if ts == [] then {} else Area(ts[0]) + AreaIn(ts[1..])
  }

  lemma {:induction false} AreaInHas(ts: seq<LoopTree>, b: Label)
    requires b in AreaIn(ts)
    ensures exists i :: 0 <= i < |ts| && b in Area(ts[i])
    decreases ts
  {
    if b !in Area(ts[0]) {
      AreaInHas(ts[1..], b);
      var i :| 0 <= i < |ts[1..]| && b in Area(ts[1..][i]);
      assert b in Area(ts[i + 1]);
    }
  }

  lemma {:induction false} InnerAreas(u: Unit, t: LoopTree)
    requires Nested(u, t)
    ensures AreaIn(t.subLoops) <= t.loop.blocks
    ensures t.rotated ==> t.loop.latch !in AreaIn(t.subLoops)
  {
    forall b | b in AreaIn(t.subLoops)
      ensures b in t.loop.blocks && (t.rotated ==> b != t.loop.latch)
    {
      AreaInHas(t.subLoops, b);
      var i :| 0 <= i < |t.subLoops| && b in Area(t.subLoops[i]);
      assert t.subLoops[i] in t.subLoops;
    }
  }

  lemma {:induction false} EvolvesTwice(u: Unit, b: Label, s: BlockState, r: BlockState, q: BlockState,
                                        area1: set<Label>, area2: set<Label>, loops1: set<Loop>, loops2: set<Loop>)
    requires WellFormed(u) && b in u.cfg.blocks
    requires Evolves(u, b, s, r, area1, loops1) && Evolves(u, b, r, q, area2, loops2)
    requires r.handled ==> q.handled
    ensures Evolves(u, b, s, q, area1 + area2, loops1 + loops2)
  {
    if EndOf(loops1 + loops2, b) {
      assert EndOf(loops1, b) || EndOf(loops2, b);
    }
    if l :| l in loops1 && l.header == b {
      assert l in loops1 + loops2;
    }
    if l :| l in loops2 && l.header == b {
      assert l in loops1 + loops2;
    }
  }

  /** Handling a loop nest finishes its blocks, marks its rotated headers, and leaves the rest alone. */
  lemma {:induction false} NestParsedAt(u: Unit, t: LoopTree, st: FuncState, b: Label)
    requires WellFormed(u) && Nested(u, t) && st.Keys == u.cfg.blocks.Keys && b in st && BlockOk(u, b, st[b])
    requires b in Area(t) ==> !st[b].handled
    ensures Fits(u.cfg, t)
    ensures Evolves(u, b, st[b], NestParsed(u.cfg, t, st)[b], Area(t), Rotated(t))
    decreases t, 2
  {
    NestFits(u, t);
    InnerAreas(u, t);
    NestsParsedAt(u, t.subLoops, st, b);
    var st1 := NestsParsed(u.cfg, t.subLoops, st);
    var st2 := LoopAt(u, t, st, st1, b);
    RestParsedAt(u.cfg, t.order, st2, b);
    if b in t.order && !st2[b].handled {
      PlainInNest(u, t, b);
      PlainExprs(u, b);
    }
  }

  /** The rotated loop itself, after its inner loops. */
  lemma {:induction false} LoopAt(u: Unit, t: LoopTree, st: FuncState, st1: FuncState, b: Label) returns (st2: FuncState)
    requires WellFormed(u) && Nested(u, t) && st1.Keys == st.Keys == u.cfg.blocks.Keys && b in st
    requires b in Area(t) ==> !st[b].handled
    requires Evolves(u, b, st[b], st1[b], AreaIn(t.subLoops), RotatedIn(t.subLoops))
    ensures t.rotated ==> LoopShape(u.cfg, t.loop)
    ensures st2 == if t.rotated then LoopParsed(u.cfg, t.loop, st1) else st1
    ensures Evolves(u, b, st[b], st2[b], Area(t), Rotated(t))
  {
    InnerAreas(u, t);
    st2 := st1;
    if t.rotated {
      var l := t.loop;
      LoopParsedAt(u, l, st1, b);
      st2 := LoopParsed(u.cfg, l, st1);
      EvolvesTwice(u, b, st[b], st1[b], st2[b], AreaIn(t.subLoops), {l.preheader, l.latch}, RotatedIn(t.subLoops), {l});
      assert RotatedIn(t.subLoops) + {l} == Rotated(t);
    } else {
      assert RotatedIn(t.subLoops) == Rotated(t);
    }
  }

  lemma {:induction false} NestsParsedAt(u: Unit, ts: seq<LoopTree>, st: FuncState, b: Label)
    requires WellFormed(u) && Disjoint(ts) && (forall t :: t in ts ==> Nested(u, t))
    requires st.Keys == u.cfg.blocks.Keys && b in st && BlockOk(u, b, st[b])
    requires b in AreaIn(ts) ==> !st[b].handled
    ensures forall t :: t in ts ==> Fits(u.cfg, t)
    ensures Evolves(u, b, st[b], NestsParsed(u.cfg, ts, st)[b], AreaIn(ts), RotatedIn(ts))
    decreases ts, 3
  {
    forall t | t in ts
      ensures Fits(u.cfg, t)
    {
      NestFits(u, t);
    }
    if ts != [] {
      NestParsedAt(u, ts[0], st, b);
      var st1 := NestParsed(u.cfg, ts[0], st);
      if b in AreaIn(ts[1..]) {
        AreaInHas(ts[1..], b);
        assert b !in Area(ts[0]);
      }
      NestsParsedAt(u, ts[1..], st1, b);
      var r := NestsParsed(u.cfg, ts, st)[b];
      EvolvesTwice(u, b, st[b], st1[b], r, Area(ts[0]), AreaIn(ts[1..]), Rotated(ts[0]), RotatedIn(ts[1..]));
    }
  }

  ghost predicate Fresh(u: Unit, st: FuncState) {
    && st.Keys == u.cfg.blocks.Keys
    && forall b {:trigger st[b]} :: b in st ==> st[b] == BlockState(Initial(u.cfg.blocks[b]), false, false)
  }

  /** Whatever the order in which loops and blocks are listed, parsing gives every block exactly
      the statements `Exprs` describes and marks exactly the headers of rotated loops. */
  lemma {:induction false} ParsedExactly(u: Unit, forest: seq<LoopTree>, order: seq<Label>, st: FuncState, b: Label)
    requires WellFormed(u) && IsForest(u, forest) && Fresh(u, st)
    requires (forall x :: x in order <==> x in u.cfg.blocks) && b in u.cfg.blocks
    ensures forall t :: t in forest ==> Fits(u.cfg, t)
    ensures var r := RestParsed(u.cfg, order, NestsParsed(u.cfg, forest, st))[b];
            r.exprs == Exprs(u, b) && (r.doInline <==> IsHeader(u, b))
  {
    assert st[b] == BlockState(Initial(u.cfg.blocks[b]), false, false);
    NestsParsedAt(u, forest, st, b);
    var st1 := NestsParsed(u.cfg, forest, st);
    RestParsedAt(u.cfg, order, st1, b);
    if !st1[b].handled {
      assert !EndOf(u.loops, b);
      PlainExprs(u, b);
    }
  }

  /** The goto that parsing the preheader appends is popped again. */
  lemma {:induction false} PoppedGoto(g: Cfg, l: Loop, s: BlockState)
    requires LoopShape(g, l)
    ensures var p := Parsed(g.blocks[l.preheader], s);
            p.(exprs := p.exprs[..|p.exprs| - 1]) == s.(handled := true)
  {
    assert Parsed(g.blocks[l.preheader], s).exprs == s.exprs + [Goto(l.header)];
    assert (s.exprs + [Goto(l.header)])[..|s.exprs|] == s.exprs;
  }

  lemma {:induction false} LoopParsedSteps(g: Cfg, l: Loop, st: FuncState)
    requires st.Keys == g.blocks.Keys && LoopShape(g, l)
    ensures var st1 := st[l.preheader := st[l.preheader].(handled := true)];
            var st2 := st1[l.header := st1[l.header].(doInline := true)];
            var st3 := st2[l.latch := st2[l.latch].(handled := true)];
            LoopParsed(g, l, st) ==
              st3[l.preheader := st3[l.preheader].(exprs := st3[l.preheader].exprs + LoopStmts(g, l))]
  {
  }

  // ----- which blocks are inlinable, as a function of their state -----

  /** A single predecessor, or nothing but a return. */
  predicate IsSafeToInline(g: Cfg, b: Label, exprs: seq<Stmt>) {
    SinglePred(g, b) || (|exprs| == 1 && exprs[0].Return?)
  }

  function SafeMarked(g: Cfg, order: seq<Label>, st: FuncState): (r: FuncState)
    requires st.Keys == g.blocks.Keys && forall b :: b in order ==> b in g.blocks
    ensures r.Keys == st.Keys
  {
    if order == [] then st
    else
      var b := order[0];
      SafeMarked(g, order[1..], if st[b].doInline then st else st[b := st[b].(doInline := IsSafeToInline(g, b, st[b].exprs))])
  }

  lemma {:induction false} SafeMarkedLast(g: Cfg, order: seq<Label>, i: nat, st: FuncState)
    requires st.Keys == g.blocks.Keys && (forall b :: b in order ==> b in g.blocks) && i < |order|
    ensures var r := SafeMarked(g, order[..i], st);
            var b := order[i];
            SafeMarked(g, order[..i + 1], st)
              == if r[b].doInline then r else r[b := r[b].(doInline := IsSafeToInline(g, b, r[b].exprs))]
    decreases order
  {
    var b := order[0];
    var st1 := if st[b].doInline then st else st[b := st[b].(doInline := IsSafeToInline(g, b, st[b].exprs))];
    assert order[..i + 1][1..] == order[1..][..i];
    if i == 0 {
      assert order[..i] == [];
    } else {
      assert order[..i][1..] == order[1..][..i - 1];
      SafeMarkedLast(g, order[1..], i - 1, st1);
    }
  }

  lemma {:induction false} SafeMarkedAt(g: Cfg, order: seq<Label>, st: FuncState, b: Label)
    requires st.Keys == g.blocks.Keys && (forall x :: x in order ==> x in g.blocks) && b in st
    ensures SafeMarked(g, order, st)[b]
         == if b in order then st[b].(doInline := st[b].doInline || IsSafeToInline(g, b, st[b].exprs)) else st[b]
    decreases order
  {
    if order != [] {
      var x := order[0];
      SafeMarkedAt(g, order[1..], if st[x].doInline then st else st[x := st[x].(doInline := IsSafeToInline(g, x, st[x].exprs))], b);
    }
  }

  function Identified(g: Cfg, b: Label, s: BlockState): BlockState {
    s.(doInline := b != g.entry && (s.doInline || IsSafeToInline(g, b, s.exprs)))
  }

  /** While gotos are replaced, a rotated loop's latch is inlinable only if control falls into it. */
  function LatchesReset(g: Cfg, ts: seq<LoopTree>, st: FuncState): (r: FuncState)
    requires st.Keys == g.blocks.Keys && forall t :: t in ts ==> Fits(g, t)
    ensures r.Keys == st.Keys
    decreases ts, 1
  {
    if ts == [] then st else LatchesReset(g, ts[1..], LatchReset(g, ts[0], st))
  }

  function LatchReset(g: Cfg, t: LoopTree, st: FuncState): (r: FuncState)
    requires st.Keys == g.blocks.Keys && Fits(g, t)
    ensures r.Keys == st.Keys
    decreases t, 0
  {
    var l := t.loop;
    LatchesReset(g, t.subLoops, if t.rotated then st[l.latch := st[l.latch].(doInline := !WrapsLatch(g, l))] else st)
  }

  function LatchesMarked(g: Cfg, ts: seq<LoopTree>, st: FuncState): (r: FuncState)
    requires st.Keys == g.blocks.Keys && forall t :: t in ts ==> Fits(g, t)
    ensures r.Keys == st.Keys
    decreases ts, 1
  {
    if ts == [] then st else LatchesMarked(g, ts[1..], LatchMarked(g, ts[0], st))
  }

  function LatchMarked(g: Cfg, t: LoopTree, st: FuncState): (r: FuncState)
    requires st.Keys == g.blocks.Keys && Fits(g, t)
    ensures r.Keys == st.Keys
    decreases t, 0
  {
    LatchesMarked(g, t.subLoops, if t.rotated then st[t.loop.latch := st[t.loop.latch].(doInline := true)] else st)
  }

  lemma {:induction false} LatchesResetLast(g: Cfg, ts: seq<LoopTree>, i: nat, st: FuncState)
    requires st.Keys == g.blocks.Keys && (forall t :: t in ts ==> Fits(g, t)) && i < |ts|
    ensures LatchesReset(g, ts[..i + 1], st) == LatchReset(g, ts[i], LatchesReset(g, ts[..i], st))
    ensures LatchesMarked(g, ts[..i + 1], st) == LatchMarked(g, ts[i], LatchesMarked(g, ts[..i], st))
    decreases ts
  {
    assert ts[..i + 1][1..] == ts[1..][..i];
    if i == 0 {
      assert ts[..i] == [];
    } else {
      assert ts[..i][1..] == ts[1..][..i - 1];
      LatchesResetLast(g, ts[1..], i - 1, LatchReset(g, ts[0], st));
      LatchesResetLast(g, ts[1..], i - 1, LatchMarked(g, ts[0], st));
    }
  }

  ghost predicate LatchOf(loops: set<Loop>, b: Label) {
    exists l :: l in loops && l.latch == b
  }

  lemma {:induction false} LatchesResetAt(u: Unit, ts: seq<LoopTree>, st: FuncState, b: Label)
    requires WellFormed(u) && (forall t :: t in ts ==> Fits(u.cfg, t)) && RotatedIn(ts) <= u.loops
    requires st.Keys == u.cfg.blocks.Keys && b in st
    ensures var r := LatchesReset(u.cfg, ts, st)[b];
            && r == st[b].(doInline := r.doInline)
            && (if LatchOf(RotatedIn(ts), b) then r.doInline == (exists l :: l in u.loops && l.latch == b && !WrapsLatch(u.cfg, l))
                else r.doInline == st[b].doInline)
    decreases ts
  {
    if ts != [] {
      var t := ts[0];
      var l := t.loop;
      assert t in ts;
      if t.rotated && l.latch == b {
        assert l in Rotated(t);
        forall k | k in u.loops && k.latch == b
          ensures k == l
        {
          LatchDeterminesLoop(u, k, l);
        }
      }
      var st1 := if t.rotated then st[l.latch := st[l.latch].(doInline := !WrapsLatch(u.cfg, l))] else st;
      LatchesResetAt(u, t.subLoops, st1, b);
      LatchesResetAt(u, ts[1..], LatchReset(u.cfg, t, st), b);
      LatchOfCons(ts, b);
    }
  }

  lemma {:induction false} LatchesMarkedAt(g: Cfg, ts: seq<LoopTree>, st: FuncState, b: Label)
    requires (forall t :: t in ts ==> Fits(g, t)) && st.Keys == g.blocks.Keys && b in st
    ensures LatchesMarked(g, ts, st)[b] == st[b].(doInline := st[b].doInline || LatchOf(RotatedIn(ts), b))
    decreases ts
  {
    if ts != [] {
      var t := ts[0];
      assert t in ts;
      var st1 := if t.rotated then st[t.loop.latch := st[t.loop.latch].(doInline := true)] else st;
      LatchesMarkedAt(g, t.subLoops, st1, b);
      LatchesMarkedAt(g, ts[1..], LatchMarked(g, t, st), b);
      LatchOfCons(ts, b);
    }
  }

  lemma {:induction false} LatchOfCons(ts: seq<LoopTree>, b: Label)
    requires ts != []
    ensures LatchOf(RotatedIn(ts), b) <==>
      (ts[0].rotated && ts[0].loop.latch == b) || LatchOf(RotatedIn(ts[0].subLoops), b) || LatchOf(RotatedIn(ts[1..]), b)
  {
    if ts[0].rotated && ts[0].loop.latch == b {
      assert ts[0].loop in RotatedIn(ts);
    }
    if l :| l in RotatedIn(ts[0].subLoops) && l.latch == b {
      assert l in RotatedIn(ts);
    }
    if l :| l in RotatedIn(ts[1..]) && l.latch == b {
      assert l in RotatedIn(ts);
    }
  }

  /** The flag the passes compute is the one `Inlinable` describes. */
  lemma {:induction false} FlagsExactly(u: Unit, forest: seq<LoopTree>, st: FuncState, b: Label)
    requires WellFormed(u) && IsForest(u, forest) && (forall t :: t in forest ==> Fits(u.cfg, t))
    requires st.Keys == u.cfg.blocks.Keys && b in st
    requires exists s: BlockState :: s.exprs == Exprs(u, b) && (s.doInline <==> IsHeader(u, b)) && st[b] == Identified(u.cfg, b, s)
    ensures LatchesReset(u.cfg, forest, st)[b].exprs == Exprs(u, b)
    ensures LatchesReset(u.cfg, forest, st)[b].doInline <==> Inlinable(u, b)
  {
    LatchesResetAt(u, forest, st, b);
    if !IsLatch(u, b) {
      ReturnOnlyExprs(u, b);
    }
  }

  lemma {:induction false} ReturnOnlyExprs(u: Unit, b: Label)
    requires WellFormed(u) && b in u.cfg.blocks && !IsLatch(u, b)
    ensures |Exprs(u, b)| == 1 && Exprs(u, b)[0].Return? <==> ReturnOnly(u.cfg, b)
  {
    var ops := OpStmts(u.cfg.blocks[b].body);
    if |ops| > 0 {
      assert Exprs(u, b)[0] == ops[0];
    }
  }

  // ----- replacing gotos while some blocks are rewritten already -----

  /** Flags are final, and every statement is either as parsed or already rewritten. */
  ghost predicate Current(u: Unit, b: Label, s: BlockState)
    requires WellFormed(u) && b in u.cfg.blocks
  {
    && (s.doInline <==> Inlinable(u, b))
    && |s.exprs| == |Exprs(u, b)|
    && forall i {:trigger s.exprs[i]} :: 0 <= i < |s.exprs| ==> s.exprs[i] == Exprs(u, b)[i] || s.exprs[i] == Final(u, b)[i]
  }

  ghost predicate AllCurrent(u: Unit, st: FuncState)
    requires WellFormed(u)
  {
    st.Keys == u.cfg.blocks.Keys && forall b {:trigger Current(u, b, st[b])} :: b in st ==> Current(u, b, st[b])
  }

  /** Rewriting a current statement gives the final one, whether or not it was rewritten before. */
  lemma {:induction false} CurrentRewrites(u: Unit, b: Label, s: BlockState, i: nat)
    requires WellFormed(u) && b in u.cfg.blocks && Current(u, b, s) && i < |s.exprs|
    ensures Below(u, s.exprs[i], Measure(u, b))
    ensures Rewrite(u, s.exprs[i], Measure(u, b)) == Final(u, b)[i]
  {
    ExprsBelow(u, b);
    var e := Exprs(u, b);
    assert e[i] in e;
    RewriteAllAt(u, e, i, Measure(u, b));
    RewriteTwice(u, e[i], Measure(u, b), Measure(u, b));
  }

  lemma {:induction false} CurrentRewritesAll(u: Unit, b: Label, s: BlockState)
    requires WellFormed(u) && b in u.cfg.blocks && Current(u, b, s)
    ensures BelowAll(u, s.exprs, Measure(u, b)) && RewriteAll(u, s.exprs, Measure(u, b)) == Final(u, b)
  {
    var m := Measure(u, b);
    forall e | e in s.exprs
      ensures Below(u, e, m)
    {
      var i :| 0 <= i < |s.exprs| && s.exprs[i] == e;
      CurrentRewrites(u, b, s, i);
    }
    forall i | 0 <= i < |s.exprs|
      ensures RewriteAll(u, s.exprs, m)[i] == Final(u, b)[i]
    {
      CurrentRewrites(u, b, s, i);
      RewriteAllAt(u, s.exprs, i, m);
    }
  }

  /** Block `b` with its first `i` statements rewritten. */
  ghost function RewrittenUpTo(u: Unit, b: Label, s: BlockState, i: nat): BlockState
    requires WellFormed(u) && b in u.cfg.blocks && Current(u, b, s) && i <= |s.exprs|
  {
    s.(exprs := Final(u, b)[..i] + s.exprs[i..])
  }

  lemma {:induction false} UpToIsCurrent(u: Unit, b: Label, s: BlockState, i: nat)
    requires WellFormed(u) && b in u.cfg.blocks && Current(u, b, s) && i <= |s.exprs|
    ensures Current(u, b, RewrittenUpTo(u, b, s, i))
  {
  }

  lemma {:induction false} RewrittenIsCurrent(u: Unit, st: FuncState, b: Label, i: nat)
    requires WellFormed(u) && AllCurrent(u, st) && b in st && Current(u, b, st[b]) && i <= |st[b].exprs|
    ensures AllCurrent(u, st[b := RewrittenUpTo(u, b, st[b], i)])
  {
    var st' := st[b := RewrittenUpTo(u, b, st[b], i)];
    forall x {:trigger Current(u, x, st'[x])} | x in st'
      ensures Current(u, x, st'[x])
    {
      assert Current(u, x, st[x]);
      if x == b {
        UpToIsCurrent(u, b, st[b], i);
      }
    }
  }

  lemma {:induction false} RewriteNext(u: Unit, b: Label, s: BlockState, i: nat)
    requires WellFormed(u) && b in u.cfg.blocks && Current(u, b, s) && i < |s.exprs|
    ensures var r := RewrittenUpTo(u, b, s, i);
            && |r.exprs| == |s.exprs| && r.exprs[i] == s.exprs[i]
            && r.(exprs := r.exprs[i := Final(u, b)[i]]) == RewrittenUpTo(u, b, s, i + 1)
  {
    SpliceNext(Final(u, b), s.exprs, i);
  }

  lemma {:induction false} SpliceNext<T>(f: seq<T>, e: seq<T>, i: nat)
    requires |f| == |e| && i < |e|
    ensures var r := f[..i] + e[i..];
            |r| == |e| && r[i] == e[i] && r[i := f[i]] == f[..i + 1] + e[i + 1..]
  {
  }

  ghost function PartState(u: Unit, st: FuncState, b: Label, i: nat): FuncState
    requires WellFormed(u) && b in st && b in u.cfg.blocks && Current(u, b, st[b]) && i <= |st[b].exprs|
  {
    st[b := RewrittenUpTo(u, b, st[b], i)]
  }

  lemma {:induction false} NextState(u: Unit, st: FuncState, b: Label, i: nat)
    requires WellFormed(u) && AllCurrent(u, st) && b in st && Current(u, b, st[b]) && i < |st[b].exprs|
    ensures var r := PartState(u, st, b, i);
            && AllCurrent(u, r) && b in r && Current(u, b, r[b]) && i < |r[b].exprs|
            && r[b := r[b].(exprs := r[b].exprs[i := Final(u, b)[i]])] == PartState(u, st, b, i + 1)
  {
    RewrittenIsCurrent(u, st, b, i);
    RewriteNext(u, b, st[b], i);
    assert Current(u, b, PartState(u, st, b, i)[b]);
  }

  lemma {:induction false} RewrittenAll(u: Unit, b: Label, s: BlockState)
    requires WellFormed(u) && b in u.cfg.blocks && Current(u, b, s)
    ensures RewrittenUpTo(u, b, s, |s.exprs|) == s.(exprs := Final(u, b))
    ensures RewrittenUpTo(u, b, s, 0) == s
  {
    var n := |s.exprs|;
    assert Final(u, b)[..n] + s.exprs[n..] == Final(u, b);
    assert Final(u, b)[..0] + s.exprs[0..] == s.exprs;
  }

  /** The first blocks of `order` are final, the others current. */
  ghost predicate RewrittenSome(u: Unit, st: FuncState, order: seq<Label>)
    requires WellFormed(u)
  {
    AllCurrent(u, st) && forall b :: b in order && b in st ==> st[b].exprs == Final(u, b)
  }

  lemma {:induction false} RewrittenMore(u: Unit, st: FuncState, order: seq<Label>, b: Label)
    requires WellFormed(u) && RewrittenSome(u, st, order) && b in st && Current(u, b, st[b])
    ensures RewrittenSome(u, st[b := st[b].(exprs := Final(u, b))], order + [b])
  {
    RewrittenAll(u, b, st[b]);
    RewrittenIsCurrent(u, st, b, |st[b].exprs|);
  }

  lemma {:induction false} RewrittenNext(u: Unit, st: FuncState, order: seq<Label>, i: nat)
    requires WellFormed(u) && i < |order| && order[i] in st && RewrittenSome(u, st, order[..i])
    ensures Current(u, order[i], st[order[i]])
    ensures RewrittenSome(u, st[order[i] := st[order[i]].(exprs := Final(u, order[i]))], order[..i + 1])
  {
    assert Current(u, order[i], st[order[i]]);
    RewrittenMore(u, st, order[..i], order[i]);
    assert order[..i + 1] == order[..i] + [order[i]];
  }

  lemma {:induction false} LatchFinal(u: Unit, l: Loop)
    requires WellFormed(u) && l in u.loops
    ensures Final(u, l.latch) == OpStmts(u.cfg.blocks[l.latch].body)
  {
    LatchExprs(u, l);
    var ops := OpStmts(u.cfg.blocks[l.latch].body);
    assert ops + [] == ops;
    RewriteOps(u, u.cfg.blocks[l.latch].body, Measure(u, l.latch));
  }

  // ----- the passes one after the other -----

  ghost function AfterIdentify(g: Cfg, forest: seq<LoopTree>, order: seq<Label>, st: FuncState): FuncState
    requires st.Keys == g.blocks.Keys && (forall t :: t in forest ==> Fits(g, t)) && g.entry in g.blocks
    requires forall b :: b in order <==> b in g.blocks
  {
    var r := SafeMarked(g, order, RestParsed(g, order, NestsParsed(g, forest, st)));
    r[g.entry := r[g.entry].(doInline := false)]
  }

  lemma {:induction false} ReadyToInline(u: Unit, forest: seq<LoopTree>, order: seq<Label>, st: FuncState)
    requires WellFormed(u) && IsForest(u, forest) && Fresh(u, st) && Enumerates(u, order)
    ensures forall t :: t in forest ==> Fits(u.cfg, t)
    ensures AllCurrent(u, LatchesReset(u.cfg, forest, AfterIdentify(u.cfg, forest, order, st)))
  {
    ParsedExactly(u, forest, order, st, u.cfg.entry);
    var r := AfterIdentify(u.cfg, forest, order, st);
    var c := LatchesReset(u.cfg, forest, r);
    forall b {:trigger Current(u, b, c[b])} | b in c
      ensures Current(u, b, c[b])
    {
      CurrentAt(u, forest, order, st, b);
    }
  }

  lemma {:induction false} CurrentAt(u: Unit, forest: seq<LoopTree>, order: seq<Label>, st: FuncState, b: Label)
    requires WellFormed(u) && IsForest(u, forest) && Fresh(u, st) && Enumerates(u, order) && b in u.cfg.blocks
    requires forall t :: t in forest ==> Fits(u.cfg, t)
    ensures Current(u, b, LatchesReset(u.cfg, forest, AfterIdentify(u.cfg, forest, order, st))[b])
  {
    var g := u.cfg;
    ParsedExactly(u, forest, order, st, b);
    var p := RestParsed(g, order, NestsParsed(g, forest, st));
    SafeMarkedAt(g, order, p, b);
    var r := AfterIdentify(g, forest, order, st);
    assert r[b] == Identified(g, b, p[b]);
    FlagsExactly(u, forest, r, b);
  }

  /** What the writer meets: every block rewritten, and every latch flagged as inlined too. */
  ghost predicate ReadyToWrite(u: Unit, st: FuncState)
    requires WellFormed(u)
  {
    && st.Keys == u.cfg.blocks.Keys
    && forall b {:trigger st[b]} :: b in st ==>
         st[b].exprs == Final(u, b) && (st[b].doInline <==> !Printed(u, b))
  }

  lemma {:induction false} MarkedIsReady(u: Unit, forest: seq<LoopTree>, order: seq<Label>, st: FuncState)
    requires WellFormed(u) && IsForest(u, forest) && (forall t :: t in forest ==> Fits(u.cfg, t))
    requires RewrittenSome(u, st, order) && Enumerates(u, order)
    ensures ReadyToWrite(u, LatchesMarked(u.cfg, forest, st))
  {
    var r := LatchesMarked(u.cfg, forest, st);
    forall b {:trigger r[b]} | b in r
      ensures r[b].exprs == Final(u, b) && (r[b].doInline <==> !Printed(u, b))
    {
      LatchesMarkedAt(u.cfg, forest, st, b);
      assert Current(u, b, st[b]);
    }
  }

  lemma {:induction false} ReadyLatches(u: Unit, st: FuncState, latches: map<Label, seq<Stmt>>)
    requires WellFormed(u) && ReadyToWrite(u, st)
    requires latches == map b | b in st :: st[b].exprs
    ensures LatchesOk(u, latches)
  {
    forall l {:trigger WellFormedLoop(u.cfg, l)} | l in u.loops
      ensures WellFormedLoop(u.cfg, l) && l.latch in latches
      ensures latches[l.latch] == OpStmts(u.cfg.blocks[l.latch].body)
    {
      LatchFinal(u, l);
    }
  }

  /** What the writer emits for a block after the entry. */
  ghost function RestOf(u: Unit, b: Label): seq<CStmt>
    requires WellFormed(u) && b in u.cfg.blocks
  {
    if b != u.cfg.entry && Printed(u, b) then LabelledCode(u, b) else []
  }

  lemma {:induction false} RestCons(u: Unit, b: Label, order: seq<Label>)
    requires WellFormed(u) && b in u.cfg.blocks && forall c :: c in order ==> c in u.cfg.blocks
    ensures Rest(u, [b] + order) == RestOf(u, b) + Rest(u, order)
  {
    assert ([b] + order)[1..] == order;
  }

  lemma {:induction false} RestNext(u: Unit, order: seq<Label>, i: nat)
    requires WellFormed(u) && (forall b :: b in order ==> b in u.cfg.blocks) && i < |order|
    ensures Rest(u, order[..i + 1]) == Rest(u, order[..i]) + RestOf(u, order[i])
    decreases order
  {
    var rest := order[1..];
    if i == 0 {
      assert order[..1] == [order[0]] + [] && order[..0] == [];
      RestCons(u, order[0], []);
      assert RestOf(u, order[0]) + [] == [] + RestOf(u, order[0]);
    } else {
      assert order[..i + 1] == [order[0]] + rest[..i] && order[..i] == [order[0]] + rest[..i - 1];
      RestCons(u, order[0], rest[..i]);
      RestCons(u, order[0], rest[..i - 1]);
      RestNext(u, rest, i - 1);
    }
  }
}
