/** The passes themselves, as they update the blocks of one function: parseBreaks,
    identifyInlinableBlocks, inlineBlocks and the writer's loop over the block map. */
module FunctionPasses {
  import opened ControlFlow
  import opened CStatements
  import opened Structuring
  import opened Simulation
  import opened Rewriting
  import opened PassEffects

  class Block {
    var expressions: seq<Stmt>
    var doInline: bool
    var brHandled: bool

    constructor (exprs: seq<Stmt>)
      ensures State() == BlockState(exprs, false, false)
    {
      expressions, doInline, brHandled := exprs, false, false;
    }

    ghost function State(): BlockState
      reads this
    {
      BlockState(expressions, doInline, brHandled)
    }

    method AddExpr(s: Stmt)
      modifies this
      ensures State() == old(State()).(exprs := old(expressions) + [s])
    {
      expressions := expressions + [s];
    }
  }

  class Func {
    const g: Cfg
    const blockMap: map<Label, Block>

    ghost predicate Valid() {
      && blockMap.Keys == g.blocks.Keys
      && forall a, b :: a in blockMap && b in blockMap && a != b ==> blockMap[a] != blockMap[b]
    }

    ghost function State(): (st: FuncState)
      reads blockMap.Values
      ensures st.Keys == blockMap.Keys
    {
      map b | b in blockMap :: blockMap[b].State()
    }

    /** Appends the translation of a block's own terminator. */
    method ParseBlock(b: Label)
      requires Valid() && b in blockMap
      modifies blockMap.Values
      ensures State() == old(State())[b := Parsed(g.blocks[b], old(State())[b])]
    {
      var block := blockMap[b];
      match g.blocks[b].term {
        case Ret(v) =>
          block.AddExpr(Return(v));
          block.brHandled := true;
        case CondBr(c, ifTrue, ifFalse) =>
          block.AddExpr(If(c, OneGoto(ifTrue), OneGoto(ifFalse)));
          block.brHandled := true;
        case Br(target) =>
          block.AddExpr(Goto(target));
          block.brHandled := true;
        case Switch(_, _, _) =>
      }
    }

    /** Statements of the do-while: the latch label goes last, the latch's phi assignments are
        rotated to the front, the header's are appended. */
    method BuildDoBody(l: Loop) returns (body: seq<Stmt>)
      requires l.header in g.blocks
      ensures body == DoBody(g, l)
    {
      body := [Goto(l.header)];
      var afterHeader := Succs(g.blocks[l.header].term);
      var headerGoesToLatch := |afterHeader| == 1 && afterHeader[0] == l.latch;
      if l.header != l.latch && !headerGoesToLatch {
        body := body + [Latch(l.latch)];
      }
      if l.header != l.latch {
        body := body + [ExprList([])];
        body := [body[|body| - 1]] + body[..|body| - 1];
      }
      body := body + [ExprList([])];
    }

    method PopExpr(b: Label)
      requires Valid() && b in blockMap && |blockMap[b].expressions| > 0
      modifies blockMap.Values
      ensures var s := old(State())[b];
              State() == old(State())[b := s.(exprs := s.exprs[..|s.exprs| - 1])]
    {
      var block := blockMap[b];
      block.expressions := block.expressions[..|block.expressions| - 1];
    }

    method PushExpr(b: Label, s: Stmt)
      requires Valid() && b in blockMap
      modifies blockMap.Values
      ensures State() == old(State())[b := old(State())[b].(exprs := old(State())[b].exprs + [s])]
    {
      blockMap[b].AddExpr(s);
    }

    method SetInline(b: Label, value: bool)
      requires Valid() && b in blockMap
      modifies blockMap.Values
      ensures State() == old(State())[b := old(State())[b].(doInline := value)]
    {
      blockMap[b].doInline := value;
    }

    method SetHandled(b: Label)
      requires Valid() && b in blockMap
      modifies blockMap.Values
      ensures State() == old(State())[b := old(State())[b].(handled := true)]
    {
      blockMap[b].brHandled := true;
    }

    /** The do-while and the goto to the loop's exit. */
    method BuildLoop(l: Loop) returns (do: Stmt, exit: Stmt)
      requires LoopShape(g, l)
      ensures [do, exit] == LoopStmts(g, l)
    {
      var branch := g.blocks[l.latch].term;
      var body := BuildDoBody(l);
      do := DoWhile(ExprList(body), branch.cond, branch.ifTrue != l.header);
      exit := OneGoto(if branch.ifFalse == l.header then branch.ifTrue else branch.ifFalse);
    }

    method ParseRotated(l: Loop)
      requires Valid() && LoopShape(g, l)
      modifies blockMap.Values
      ensures State() == LoopParsed(g, l, old(State()))
    {
      LoopParsedSteps(g, l, State());
      var do, exit := BuildLoop(l);
      PreparePreheader(l);
      SetInline(l.header, true);
      SetHandled(l.latch);
      AppendLoop(l, do, exit);
    }

    method PreparePreheader(l: Loop)
      requires Valid() && LoopShape(g, l)
      modifies blockMap.Values
      ensures State() == old(State())[l.preheader := old(State())[l.preheader].(handled := true)]
    {
      PoppedGoto(g, l, State()[l.preheader]);
      ParseBlock(l.preheader);
      PopExpr(l.preheader);
    }

    method AppendLoop(l: Loop, do: Stmt, exit: Stmt)
      requires Valid() && l.preheader in blockMap
      modifies blockMap.Values
      ensures State() == old(State())[l.preheader := old(State())[l.preheader].(exprs := old(State())[l.preheader].exprs + [do, exit])]
    {
      PushExpr(l.preheader, do);
      PushExpr(l.preheader, exit);
      assert old(State())[l.preheader].exprs + [do] + [exit] == old(State())[l.preheader].exprs + [do, exit];
    }

    /** Turns a loop nest into do-whiles, inner loops first. */
    method ParseLoop(t: LoopTree)
      requires Valid() && Fits(g, t)
      modifies blockMap.Values
      ensures State() == NestParsed(g, t, old(State()))
      decreases t, 0
    {
      ParseLoops(t.subLoops);
      if t.rotated {
        ParseRotated(t.loop);
      }
      ParseRemaining(t.order);
    }

    method ParseLoops(ts: seq<LoopTree>)
      requires Valid() && forall t :: t in ts ==> Fits(g, t)
      modifies blockMap.Values
      ensures State() == NestsParsed(g, ts, old(State()))
      decreases ts, 1
    {
      for i := 0 to |ts|
        invariant State() == NestsParsed(g, ts[..i], old(State()))
      {
        NestsParsedLast(g, ts, i, old(State()));
        ParseLoop(ts[i]);
      }
      assert ts[..|ts|] == ts;
    }

    method ParseRemaining(order: seq<Label>)
      requires Valid() && forall b :: b in order ==> b in g.blocks
      modifies blockMap.Values
      ensures State() == RestParsed(g, order, old(State()))
    {
      for i := 0 to |order|
        invariant State() == RestParsed(g, order[..i], old(State()))
      {
        RestParsedLast(g, order, i, old(State()));
        if !blockMap[order[i]].brHandled {
          ParseBlock(order[i]);
        }
      }
      assert order[..|order|] == order;
    }

    method ParseBreaks(forest: seq<LoopTree>, order: seq<Label>)
      requires Valid() && (forall t :: t in forest ==> Fits(g, t)) && forall b :: b in order ==> b in g.blocks
      modifies blockMap.Values
      ensures State() == RestParsed(g, order, NestsParsed(g, forest, old(State())))
    {
      ParseLoops(forest);
      ParseRemaining(order);
    }

    method IdentifyInlinableBlocks(order: seq<Label>)
      requires Valid() && g.entry in g.blocks && forall b :: b in order <==> b in g.blocks
      modifies blockMap.Values
      ensures var st := SafeMarked(g, order, old(State()));
              State() == st[g.entry := st[g.entry].(doInline := false)]
    {
      for i := 0 to |order|
        invariant State() == SafeMarked(g, order[..i], old(State()))
      {
        SafeMarkedLast(g, order, i, old(State()));
        var block := blockMap[order[i]];
        if !block.doInline {
          SetInline(order[i], IsSafeToInline(g, order[i], block.expressions));
        }
      }
      assert order[..|order|] == order;
      SetInline(g.entry, false);
    }

    method DoNotInlineLatchBlocksIntoGotoLatch(ts: seq<LoopTree>)
      requires Valid() && forall t :: t in ts ==> Fits(g, t)
      modifies blockMap.Values
      ensures State() == LatchesReset(g, ts, old(State()))
      decreases ts, 1
    {
      for i := 0 to |ts|
        invariant State() == LatchesReset(g, ts[..i], old(State()))
      {
        LatchesResetLast(g, ts, i, old(State()));
        DoNotInlineSubloopLatchBlockIntoGotoLatch(ts[i]);
      }
      assert ts[..|ts|] == ts;
    }

    method DoNotInlineSubloopLatchBlockIntoGotoLatch(t: LoopTree)
      requires Valid() && Fits(g, t)
      modifies blockMap.Values
      ensures State() == LatchReset(g, t, old(State()))
      decreases t, 0
    {
      if t.rotated {
        var afterHeader := Succs(g.blocks[t.loop.header].term);
        var headerGoesToLatch := |afterHeader| == 1 && afterHeader[0] == t.loop.latch;
        SetInline(t.loop.latch, t.loop.latch == t.loop.header || headerGoesToLatch);
      }
      DoNotInlineLatchBlocksIntoGotoLatch(t.subLoops);
    }

    method MarkLatchBlocksAsInlined(ts: seq<LoopTree>)
      requires Valid() && forall t :: t in ts ==> Fits(g, t)
      modifies blockMap.Values
      ensures State() == LatchesMarked(g, ts, old(State()))
      decreases ts, 1
    {
      for i := 0 to |ts|
        invariant State() == LatchesMarked(g, ts[..i], old(State()))
      {
        LatchesResetLast(g, ts, i, old(State()));
        MarkLatchBlockAsInlined(ts[i]);
      }
      assert ts[..|ts|] == ts;
    }

    method MarkLatchBlockAsInlined(t: LoopTree)
      requires Valid() && Fits(g, t)
      modifies blockMap.Values
      ensures State() == LatchMarked(g, t, old(State()))
      decreases t, 0
    {
      if t.rotated {
        SetInline(t.loop.latch, true);
      }
      MarkLatchBlocksAsInlined(t.subLoops);
    }

    /** Visits a statement and simplifies it: a goto to an inlinable block becomes the list of that
        block's statements, themselves visited and simplified, whatever has been done to them before. */
    method Inlined(s: Stmt, ghost u: Unit, ghost m: nat) returns (r: Stmt)
      requires Valid() && u.cfg == g && WellFormed(u) && AllCurrent(u, State()) && Below(u, s, m)
      ensures r == Rewrite(u, s, m)
      decreases m, s, 2
    {
      match s {
        case Goto(target) =>
          r := InlinedGoto(target, u, m);
        case ExprList(stmts) =>
          var list := InlinedAll(stmts, u, m);
          r := ExprList(list);
        case If(cond, thn, els) =>
          var thn1 := Inlined(thn, u, m);
          var els1 := Inlined(els, u, m);
          r := If(cond, thn1, els1);
        case SwitchStmt(sel, arms, default) =>
          var arms1 := InlinedArms(arms, u, m);
          var default1 := Inlined(default, u, m);
          r := SwitchStmt(sel, arms1, default1);
        case DoWhile(body, cond, negate) =>
          var body1 := Inlined(body, u, m);
          r := DoWhile(body1, cond, negate);
        case _ =>
          r := s;
      }
    }

    method InlinedGoto(target: Label, ghost u: Unit, ghost m: nat) returns (r: Stmt)
      requires Valid() && u.cfg == g && WellFormed(u) && AllCurrent(u, State()) && Below(u, Goto(target), m)
      ensures r == Rewrite(u, Goto(target), m)
      decreases m, Goto(target), 0
    {
      r := Goto(target);
      if target in blockMap {
        ghost var s := State()[target];
        assert Current(u, target, s);
        if blockMap[target].doInline {
          CurrentRewritesAll(u, target, s);
          var list := InlinedAll(blockMap[target].expressions, u, Measure(u, target));
          r := ExprList(list);
        }
      }
    }

    method InlinedAll(stmts: seq<Stmt>, ghost u: Unit, ghost m: nat) returns (list: seq<Stmt>)
      requires Valid() && u.cfg == g && WellFormed(u) && AllCurrent(u, State()) && BelowAll(u, stmts, m)
      ensures list == RewriteAll(u, stmts, m)
      decreases m, stmts, 3
    {
      list := [];
      for i := 0 to |stmts|
        invariant list == RewriteAll(u, stmts, m)[..i]
      {
        RewriteAllAt(u, stmts, i, m);
        var e := Inlined(stmts[i], u, m);
        list := list + [e];
      }
    }

    method InlinedArms(arms: seq<StmtArm>, ghost u: Unit, ghost m: nat) returns (list: seq<StmtArm>)
      requires Valid() && u.cfg == g && WellFormed(u) && AllCurrent(u, State()) && forall a :: a in arms ==> Below(u, a.arm, m)
      ensures list == RewriteArms(u, arms, m)
      decreases m, arms, 3
    {
      list := [];
      for i := 0 to |arms|
        invariant list == RewriteArms(u, arms, m)[..i]
      {
        assert arms[i].arm < arms[i];
        RewriteArmsAt(u, arms, i, m);
        var e := Inlined(arms[i].arm, u, m);
        list := list + [StmtArm(arms[i].key, e)];
      }
    }

    method ReplaceExpr(b: Label, i: nat, s: Stmt)
      requires Valid() && b in blockMap && i < |blockMap[b].expressions|
      modifies blockMap.Values
      ensures State() == old(State())[b := old(State())[b].(exprs := old(State())[b].exprs[i := s])]
    {
      var block := blockMap[b];
      block.expressions := block.expressions[i := s];
    }

    method InlineOne(b: Label, i: nat, ghost u: Unit)
      requires Valid() && u.cfg == g && WellFormed(u) && AllCurrent(u, State())
      requires b in blockMap && i < |blockMap[b].expressions| && Current(u, b, State()[b])
      modifies blockMap.Values
      ensures State() == old(State())[b := old(State())[b].(exprs := old(State())[b].exprs[i := Final(u, b)[i]])]
    {
      CurrentRewrites(u, b, State()[b], i);
      var e := Inlined(blockMap[b].expressions[i], u, Measure(u, b));
      ReplaceExpr(b, i, e);
    }

    method InlineIntoBlock(b: Label, ghost u: Unit)
      requires Valid() && u.cfg == g && WellFormed(u) && AllCurrent(u, State()) && b in blockMap
      requires Current(u, b, State()[b])
      modifies blockMap.Values
      ensures State() == old(State())[b := old(State())[b].(exprs := Final(u, b))]
    {
      ghost var st := State();
      RewrittenAll(u, b, st[b]);
      var n := |blockMap[b].expressions|;
      for i := 0 to n
        invariant State() == PartState(u, st, b, i)
      {
        NextState(u, st, b, i);
        InlineOne(b, i, u);
      }
    }

    method InlineNext(order: seq<Label>, i: nat, ghost u: Unit)
      requires Valid() && u.cfg == g && WellFormed(u)
      requires i < |order| && order[i] in blockMap && RewrittenSome(u, State(), order[..i])
      modifies blockMap.Values
      ensures RewrittenSome(u, State(), order[..i + 1])
    {
      RewrittenNext(u, State(), order, i);
      InlineIntoBlock(order[i], u);
    }

    /** Visits every block in map order; blocks already visited are met again inside others. */
    method InlineIntoBlocks(order: seq<Label>, ghost u: Unit)
      requires Valid() && u.cfg == g && WellFormed(u) && AllCurrent(u, State())
      requires forall b :: b in order <==> b in g.blocks
      modifies blockMap.Values
      ensures RewrittenSome(u, State(), order)
    {
      for i := 0 to |order|
        invariant RewrittenSome(u, State(), order[..i])
      {
        assert order[i] in order;
        InlineNext(order, i, u);
      }
      assert order[..|order|] == order;
    }

    method WriteBlock(b: Label, latches: map<Label, seq<Stmt>>) returns (out: seq<CStmt>)
      requires b in blockMap
      ensures out == [CLabel(b)] + PrintAll(latches, blockMap[b].expressions)
    {
      out := [CLabel(b)];
      var exprs := blockMap[b].expressions;
      for i := 0 to |exprs|
        invariant out == [CLabel(b)] + PrintAll(latches, exprs[..i])
      {
        assert exprs[..i + 1] == exprs[..i] + [exprs[i]];
        PrintAllAppend(latches, exprs[..i], [exprs[i]]);
        OneStmt(latches, exprs[i]);
        out := out + Print(latches, exprs[i]);
      }
      assert exprs[..|exprs|] == exprs;
    }

    method WriteFinalBlock(b: Label, latches: map<Label, seq<Stmt>>, ghost u: Unit) returns (out: seq<CStmt>)
      requires b in blockMap && WellFormed(u) && b in u.cfg.blocks && LatchesOk(u, latches)
      requires blockMap[b].expressions == Final(u, b)
      ensures out == LabelledCode(u, b)
    {
      out := WriteBlock(b, latches);
      PrintFinal(u, latches, b);
    }

    method CollectLatches(ghost u: Unit) returns (latches: map<Label, seq<Stmt>>)
      requires Valid() && WellFormed(u) && ReadyToWrite(u, State())
      ensures LatchesOk(u, latches)
    {
      latches := map b | b in blockMap :: blockMap[b].expressions;
      assert latches == map b | b in State() :: State()[b].exprs;
      ReadyLatches(u, State(), latches);
    }

    /** The entry block first, then every other block that was not inlined. */
    method FunctionDefinition(order: seq<Label>, ghost u: Unit) returns (out: seq<CStmt>)
      requires Valid() && u.cfg == g && WellFormed(u) && Enumerates(u, order) && ReadyToWrite(u, State())
      ensures out == FunctionBody(u, order)
    {
      var latches := CollectLatches(u);
      assert State()[g.entry].exprs == Final(u, g.entry);
      out := WriteFinalBlock(g.entry, latches, u);
      var rest := WriteRest(order, latches, u);
      out := out + rest;
    }

    method WriteRest(order: seq<Label>, latches: map<Label, seq<Stmt>>, ghost u: Unit) returns (out: seq<CStmt>)
      requires Valid() && u.cfg == g && WellFormed(u) && ReadyToWrite(u, State()) && LatchesOk(u, latches)
      requires forall b :: b in order ==> b in u.cfg.blocks
      ensures out == Rest(u, order)
    {
      out := [];
      for i := 0 to |order|
        invariant out == Rest(u, order[..i])
      {
        RestNext(u, order, i);
        assert State()[order[i]].exprs == Final(u, order[i]);
        if order[i] != g.entry && !blockMap[order[i]].doInline {
          var block := WriteFinalBlock(order[i], latches, u);
          out := out + block;
        }
      }
      assert order[..|order|] == order;
    }

    /** The passes in the order the program parser runs them, and then the writer. */
    method TranslateFunction(forest: seq<LoopTree>, order: seq<Label>, ghost u: Unit) returns (out: seq<CStmt>)
      requires Valid() && u.cfg == g && WellFormed(u) && IsForest(u, forest) && Enumerates(u, order)
      requires Fresh(u, State())
      modifies blockMap.Values
      ensures out == FunctionBody(u, order)
    {
      ghost var st := State();
      ReadyToInline(u, forest, order, st);
      ParseBreaks(forest, order);
      IdentifyInlinableBlocks(order);
      assert State() == AfterIdentify(g, forest, order, st);
      DoNotInlineLatchBlocksIntoGotoLatch(forest);
      InlineIntoBlocks(order, u);
      MarkedIsReady(u, forest, order, State());
      MarkLatchBlocksAsInlined(forest);
      out := FunctionDefinition(order, u);
    }
  }
}
