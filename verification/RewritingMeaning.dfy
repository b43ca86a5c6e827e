/** Normalising an expression keeps what it denotes: its value and its effect always, and the
    location it designates when it was an lvalue; section 6.5.3.2 of ISO/IEC 9899:2011. */
module RewritingMeaning {
  import opened ExprTrees

  ghost predicate Keeps<S(!new)>(mc: Machine<S>, t: Tree, t': Tree) {
    && (Lvalue(t) ==> Lvalue(t'))
    && forall s: S ::
         Value(mc, t, s) == Value(mc, t', s) && (Lvalue(t) ==> Place(mc, t, s) == Place(mc, t', s))
  }

  lemma {:induction false} LvalueLoads<S>(mc: Machine<S>, t: Tree, s: S)
    requires Typed(t) && Lvalue(t)
    ensures Place(mc, t, s).1.Some? && Value(mc, t, s) == Loaded(mc, Place(mc, t, s))
    decreases t
  {
    match t.kind
    case Field(_) => LvalueLoads(mc, t.kids[0], s);
    case Index => LvalueLoads(mc, t.kids[0], s);
    case Gep => LvalueLoads(mc, t.kids[|t.kids| - 1], s);
    case Extract => LvalueLoads(mc, t.kids[|t.kids| - 1], s);
    case _ =>
  }

  lemma {:induction false} ValuesKept<S(!new)>(mc: Machine<S>, ts: seq<Tree>, ts': seq<Tree>, s: S)
    requires |ts| == |ts'| && forall i :: 0 <= i < |ts| ==> Keeps(mc, ts[i], ts'[i])
    ensures Values(mc, ts, s) == Values(mc, ts', s)
    decreases |ts|
  {
    if ts != [] {
      assert Keeps(mc, ts[0], ts'[0]);
      forall i | 0 <= i < |ts| - 1
        ensures Keeps(mc, ts[1..][i], ts'[1..][i])
      {
        assert Keeps(mc, ts[i + 1], ts'[i + 1]);
      }
      ValuesKept(mc, ts[1..], ts'[1..], Value(mc, ts[0], s).0);
    }
  }

  /** A member of an aggregate: the aggregate may become an lvalue. */
  lemma {:induction false} FieldKept<S(!new)>(mc: Machine<S>, i: nat, x: Tree, x': Tree)
    requires Lawful(mc) && Typed(x) && Typed(x') && Keeps(mc, x, x')
    ensures Keeps(mc, Tree(Field(i), [x]), Tree(Field(i), [x']))
  {
    var t, t' := Tree(Field(i), [x]), Tree(Field(i), [x']);
    forall s: S
      ensures Value(mc, t, s) == Value(mc, t', s) && (Lvalue(t) ==> Place(mc, t, s) == Place(mc, t', s))
    {
      if Lvalue(x') {
        LvalueLoads(mc, x', s);
      }
    }
  }

  lemma {:induction false} PlacesKept<S(!new)>(mc: Machine<S>, k: Kind, kids: seq<Tree>, kids': seq<Tree>)
    requires |kids| == |kids'| && forall i :: 0 <= i < |kids| ==> Keeps(mc, kids[i], kids'[i])
    requires k.Deref? || k.Arrow? || k.Shift? || k.Index? || k.Gep? || k.Extract?
    requires Typed(Tree(k, kids))
    ensures Keeps(mc, Tree(k, kids), Tree(k, kids'))
  {
    if |kids| > 0 {
      assert Keeps(mc, kids[0], kids'[0]) && Keeps(mc, kids[|kids| - 1], kids'[|kids| - 1]);
    }
    if |kids| > 1 {
      assert Keeps(mc, kids[1], kids'[1]);
    }
    var t, t' := Tree(k, kids), Tree(k, kids');
    forall s: S
      ensures Value(mc, t, s) == Value(mc, t', s) && (Lvalue(t) ==> Place(mc, t, s) == Place(mc, t', s))
    {
      if k.Shift? || k.Index? || k.Deref? || k.Arrow? {
        assert Place(mc, t, s) == Place(mc, t', s);
        assert Value(mc, t, s) == Loaded(mc, Place(mc, t, s));
      }
    }
  }

  lemma {:induction false} ValueKept<S(!new)>(mc: Machine<S>, k: Kind, kids: seq<Tree>, kids': seq<Tree>, s: S)
    requires |kids| == |kids'| && forall i :: 0 <= i < |kids| ==> Keeps(mc, kids[i], kids'[i])
    requires k.Ref? || k.Assign? || k.Select? || k.LogicalAnd? || k.LogicalOr?
    requires Typed(Tree(k, kids))
    ensures Value(mc, Tree(k, kids), s) == Value(mc, Tree(k, kids'), s)
  {
    if |kids| > 0 {
      assert Keeps(mc, kids[0], kids'[0]);
    }
    if |kids| > 1 {
      assert Keeps(mc, kids[1], kids'[1]);
    }
    if |kids| > 2 {
      assert Keeps(mc, kids[2], kids'[2]);
    }
  }

  lemma {:induction false} KidsKept<S(!new)>(mc: Machine<S>, k: Kind, kids: seq<Tree>, kids': seq<Tree>)
    requires Lawful(mc) && Typed(Tree(k, kids)) && Typed(Tree(k, kids'))
    requires |kids| == |kids'| && forall i :: 0 <= i < |kids| ==> Keeps(mc, kids[i], kids'[i])
    ensures Keeps(mc, Tree(k, kids), Tree(k, kids'))
  {
    if k.Field? {
      if |kids| == 1 {
        assert kids == [kids[0]] && kids' == [kids'[0]];
        FieldKept(mc, k.i, kids[0], kids'[0]);
      }
    } else if k.Deref? || k.Arrow? || k.Shift? || k.Index? || k.Gep? || k.Extract? {
      PlacesKept(mc, k, kids, kids');
    } else {
      forall s: S
        ensures Value(mc, Tree(k, kids), s) == Value(mc, Tree(k, kids'), s)
      {
        if k.Ref? || k.Assign? || k.Select? || k.LogicalAnd? || k.LogicalOr? {
          ValueKept(mc, k, kids, kids', s);
        } else {
          ValuesKept(mc, kids, kids', s);
        }
      }
    }
  }

  lemma {:induction false} ReduceKept<S(!new)>(mc: Machine<S>, pass: Pass, k: Kind, kids: seq<Tree>)
    requires Typed(Tree(k, kids))
    ensures Typed(Reduce(pass, k, kids)) && Keeps(mc, Tree(k, kids), Reduce(pass, k, kids))
  {
    if IsRedex(pass, k, kids) {
      var r, x := kids[0], kids[0].kids[0];
      var t := Tree(k, kids);
      assert Typed(r) && Typed(x) && r.kids == [x];
      forall s: S
        ensures Value(mc, t, s) == Value(mc, Reduce(pass, k, kids), s)
        ensures Lvalue(t) ==> Place(mc, t, s) == Place(mc, Reduce(pass, k, kids), s)
      {
        if k.Deref? {
          LvalueLoads(mc, x, s);
          assert Value(mc, r, s) == (Place(mc, x, s).0, Place(mc, x, s).1.value);
          assert Value(mc, t, s) == Loaded(mc, Place(mc, t, s));
        } else {
          assert Place(mc, r, s) == (Value(mc, x, s).0, Some(Value(mc, x, s).1));
          if k.Field? {
            var v := Value(mc, x, s);
            assert Lvalue(r) && Place(mc, t, s) == (v.0, Some(mc.field(v.1, k.i)));
            assert Value(mc, t, s) == Loaded(mc, Place(mc, t, s));
            assert Place(mc, Tree(Arrow(k.i), kids[0].kids), s) == (v.0, Some(mc.field(v.1, k.i)));
          } else {
            assert Value(mc, t, s) == (Place(mc, r, s).0, Place(mc, r, s).1.value);
          }
        }
      }
    }
  }

  /** The main result about meaning: normal forms denote the same. */
  lemma {:induction false} NfKeeps<S(!new)>(mc: Machine<S>, pass: Pass, t: Tree)
    requires Lawful(mc) && Typed(t)
    ensures Typed(Nf(pass, t)) && Keeps(mc, t, Nf(pass, t))
  {
    var kids := seq(|t.kids|, i requires 0 <= i < |t.kids| => Nf(pass, t.kids[i]));
    forall i | 0 <= i < |kids|
      ensures Typed(kids[i]) && Keeps(mc, t.kids[i], kids[i])
    {
      NfKeeps(mc, pass, t.kids[i]);
    }
    if NeedsLvalue(t.kind) {
      assert Keeps(mc, t.kids[0], kids[0]);
    }
    assert Typed(Tree(t.kind, kids));
    KidsKept(mc, t.kind, t.kids, kids);
    ReduceKept(mc, pass, t.kind, kids);
  }

  /** Two expressions with one normal form denote the same wherever the first may stand. */
  lemma {:induction false} SameNormalForm<S(!new)>(mc: Machine<S>, pass: Pass, t: Tree, t': Tree)
    requires Lawful(mc) && Typed(t) && Typed(t') && Nf(pass, t) == Nf(pass, t') && (Lvalue(t) ==> Lvalue(t'))
    ensures Keeps(mc, t, t')
  {
    NfKeeps(mc, pass, t);
    NfKeeps(mc, pass, t');
  }
}
