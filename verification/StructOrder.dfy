/** The order in which struct definitions are printed: a struct after the structs it embeds. */
module StructOrder {
  datatype Type = Scalar | Struct(name: string) | Array(elem: Type) | Pointer(to: Type)

  /** A named struct and the types of its items. */
  datatype StructType = StructType(name: string, items: seq<Type>)

  // ----- flags kept with array and pointer types -----

  predicate IsStructArray(t: Type) {
    t.Array? && (t.elem.Struct? || IsStructArray(t.elem))
  }

  predicate IsArrayPointer(t: Type) {
    t.Pointer? && (t.to.Array? || IsArrayPointer(t.to))
  }

  predicate IsStructPointer(t: Type) {
    t.Pointer? && (t.to.Struct? || IsStructArray(t.to) || IsStructPointer(t.to))
  }

  function StructName(t: Type): string {
    match t
    case Scalar => ""
    case Struct(name) => name
    case Array(elem) => StructName(elem)
    case Pointer(to) => StructName(to)
  }

  /** Whether the printer first defines the struct named in an item's type. */
  predicate Followed(t: Type) {
    IsStructArray(t) || (IsStructPointer(t) && IsArrayPointer(t)) || t.Struct?
  }

  // ----- what C demands -----

  /** The struct that must be complete where an item of type `t` is declared: elements of arrays have
      complete types, pointers may point to incomplete ones; sections 6.7.2.1 and 6.7.6.2 of
      ISO/IEC 9899:2011. */
  predicate NeedsComplete(t: Type) {
    match t
    case Scalar => false
    case Struct(_) => true
    case Array(elem) => NeedsComplete(elem)
    case Pointer(to) => !to.Struct? && NeedsComplete(to)
  }

  /** Somewhere inside there is an array of pointers that lead to arrays of structs. */
  predicate Hidden(t: Type) {
    match t
    case Array(elem) => (elem.Pointer? && NeedsComplete(elem)) || Hidden(elem)
    case Pointer(to) => Hidden(to)
    case _ => false
  }

  lemma {:induction false} PointersInArray(t: Type)
    requires t.Array? && t.elem.Pointer?
    ensures !IsStructArray(t) && (NeedsComplete(t) ==> Hidden(t))
  {
    assert NeedsComplete(t) == NeedsComplete(t.elem);
  }

  lemma {:induction false} ArraysInArray(t: Type)
    requires t.Array? && t.elem.Array?
    ensures IsStructArray(t) == IsStructArray(t.elem)
    ensures NeedsComplete(t) == NeedsComplete(t.elem) && Hidden(t) == Hidden(t.elem)
  {
  }

  lemma {:induction false} ArrayFollowed(t: Type)
    requires t.Array?
    ensures IsStructArray(t) <==> NeedsComplete(t) && !Hidden(t)
  {
    match t.elem
    case Array(_) =>
      ArrayFollowed(t.elem);
      ArraysInArray(t);
    case Pointer(_) => PointersInArray(t);
    case _ =>
  }

  lemma {:induction false} PointerFollowed(t: Type)
    requires t.Pointer?
    ensures IsStructPointer(t) && IsArrayPointer(t) <==> NeedsComplete(t) && !Hidden(t)
  {
    match t.to
    case Array(_) => ArrayFollowed(t.to);
    case Pointer(_) => PointerFollowed(t.to);
    case _ =>
  }

  /** The printer follows exactly the items whose struct must be complete, unless an array of pointers
      hides it. */
  lemma {:induction false} FollowedExact(t: Type)
    ensures Followed(t) <==> NeedsComplete(t) && !Hidden(t)
  {
    match t
    case Array(_) => ArrayFollowed(t);
    case Pointer(_) => PointerFollowed(t);
    case _ =>
  }

  // ----- embedding -----

  datatype Option<T> = None | Some(value: T)

  /** The first struct with that name, if any: named structs are searched before unnamed ones. */
  function GetStruct(structs: seq<StructType>, name: string): (s: Option<nat>)
    ensures s.None? ==> forall i :: 0 <= i < |structs| ==> structs[i].name != name
    ensures s.Some? ==> s.value < |structs| && structs[s.value].name == name
    ensures s.Some? ==> forall i :: 0 <= i < s.value ==> structs[i].name != name
  {
    if structs == [] then None
    else if structs[0].name == name then Some(0)
    else
      var s := GetStruct(structs[1..], name);
      assert forall i :: 0 < i < |structs| ==> structs[i] == structs[1..][i - 1];
      if s.None? then None else Some(s.value + 1)
  }

  function ItemStruct(structs: seq<StructType>, s: nat, i: nat): (t: Option<nat>)
    requires s < |structs| && i < |structs[s].items|
    ensures t.Some? ==> t.value < |structs|
  {
    GetStruct(structs, StructName(structs[s].items[i]))
  }

  /** Every struct that is followed is one of the program's. */
  ghost predicate Resolved(structs: seq<StructType>) {
    forall s, i {:trigger structs[s].items[i]} :: 0 <= s < |structs| && 0 <= i < |structs[s].items| && Followed(structs[s].items[i]) ==>
      ItemStruct(structs, s, i).Some?
  }

  function Target(structs: seq<StructType>, s: nat, i: nat): (t: nat)
    requires Resolved(structs) && s < |structs| && i < |structs[s].items| && Followed(structs[s].items[i])
    ensures t < |structs|
  {
    ItemStruct(structs, s, i).value
  }

  predicate Embeds(structs: seq<StructType>, s: nat, t: nat)
    requires Resolved(structs) && s < |structs|
  {
    exists i :: 0 <= i < |structs[s].items| && Followed(structs[s].items[i]) && Target(structs, s, i) == t
  }

  ghost predicate Acyclic(structs: seq<StructType>, rank: seq<nat>)
    requires Resolved(structs)
  {
    |rank| == |structs| && forall s, t :: 0 <= s < |structs| && 0 <= t < |structs| && Embeds(structs, s, t) ==> rank[t] < rank[s]
  }

  /** The recursion that starts at struct `s` is at most `depth` calls deep. */
  ghost predicate Finishes(structs: seq<StructType>, s: nat, depth: nat)
    requires Resolved(structs) && s < |structs|
    decreases depth
  {
    depth > 0 && forall t :: 0 <= t < |structs| && Embeds(structs, s, t) ==> Finishes(structs, t, depth - 1)
  }

  ghost predicate AllFinish(structs: seq<StructType>, depth: nat)
    requires Resolved(structs)
  {
    forall s :: 0 <= s < |structs| ==> Finishes(structs, s, depth)
  }

  lemma {:induction false} RankBoundsDepth(structs: seq<StructType>, rank: seq<nat>, s: nat, depth: nat)
    requires Resolved(structs) && Acyclic(structs, rank) && s < |structs| && rank[s] < depth
    ensures Finishes(structs, s, depth)
    decreases depth
  {
    forall t | 0 <= t < |structs| && Embeds(structs, s, t)
      ensures Finishes(structs, t, depth - 1)
    {
      RankBoundsDepth(structs, rank, t, depth - 1);
    }
  }

  /** The least depth that suffices. */
  ghost function Height(structs: seq<StructType>, s: nat, depth: nat): (h: nat)
    requires Resolved(structs) && s < |structs| && Finishes(structs, s, depth)
    ensures Finishes(structs, s, h) && h <= depth && (h == 0 || !Finishes(structs, s, h - 1))
  {
    if Finishes(structs, s, depth - 1) then Height(structs, s, depth - 1) else depth
  }

  lemma {:induction false} MoreDepth(structs: seq<StructType>, s: nat, d: nat, e: nat)
    requires Resolved(structs) && s < |structs| && Finishes(structs, s, d) && d <= e
    ensures Finishes(structs, s, e)
    decreases d
  {
    forall t | 0 <= t < |structs| && Embeds(structs, s, t)
      ensures Finishes(structs, t, e - 1)
    {
      MoreDepth(structs, t, d - 1, e - 1);
    }
  }

  lemma {:induction false} HeightsDescend(structs: seq<StructType>, s: nat, t: nat, depth: nat)
    requires Resolved(structs) && s < |structs| && t < |structs| && Embeds(structs, s, t)
    requires Finishes(structs, s, depth) && Finishes(structs, t, depth)
    ensures Height(structs, t, depth) < Height(structs, s, depth)
  {
    var h, k := Height(structs, s, depth), Height(structs, t, depth);
    assert Finishes(structs, t, h - 1);
    if k > h - 1 {
      MoreDepth(structs, t, h - 1, k - 1);
    }
  }

  /** Printing terminates for every starting struct exactly if the embedding relation is acyclic. */
  lemma {:induction false} TerminatesIffAcyclic(structs: seq<StructType>)
    requires Resolved(structs)
    ensures (exists d :: AllFinish(structs, d)) <==> exists rank :: Acyclic(structs, rank)
  {
    if d :| AllFinish(structs, d) {
      var rank := seq(|structs|, s requires 0 <= s < |structs| => Height(structs, s, d));
      forall s, t | 0 <= s < |structs| && 0 <= t < |structs| && Embeds(structs, s, t)
        ensures rank[t] < rank[s]
      {
        HeightsDescend(structs, s, t, d);
      }
      assert Acyclic(structs, rank);
    }
    if rank :| Acyclic(structs, rank) {
      var d := Bound(rank);
      forall s | 0 <= s < |structs|
        ensures Finishes(structs, s, d)
      {
        RankBoundsDepth(structs, rank, s, d);
      }
      assert AllFinish(structs, d);
    }
  }

  ghost function Bound(rank: seq<nat>): (b: nat)
    ensures forall i :: 0 <= i < |rank| ==> rank[i] < b
  {
    if rank == [] then 0
    else
      var b := Bound(rank[1..]);
      assert forall i :: 0 < i < |rank| ==> rank[i] == rank[1..][i - 1] < b;
      if rank[0] < b then b else rank[0] + 1
  }

  /** A struct with a pointer to an array of its own kind: followed although no such item can make a
      struct contain itself; the relation is cyclic and printing does not terminate. */
  lemma {:induction false} OwnArrayPointer(structs: seq<StructType>, d: nat)
    requires structs == [StructType("node", [Pointer(Array(Struct("node")))])]
    ensures Resolved(structs) && !Finishes(structs, 0, d)
    decreases d
  {
    assert Followed(structs[0].items[0]) && StructName(structs[0].items[0]) == "node";
    assert structs[0].name == "node";
    assert Target(structs, 0, 0) == 0;
    assert Embeds(structs, 0, 0);
    if d > 0 {
      OwnArrayPointer(structs, d - 1);
    }
  }

  // ----- printing -----

  ghost predicate EmbeddedBefore(structs: seq<StructType>, out: seq<nat>, i: nat)
    requires Resolved(structs) && i < |out| && out[i] < |structs|
  {
    forall t :: 0 <= t < |structs| && Embeds(structs, out[i], t) ==> t in out[..i]
  }

  /** Each struct at most once, embedded ones first. */
  ghost predicate Ordered(structs: seq<StructType>, out: seq<nat>)
    requires Resolved(structs)
  {
    && (forall i, j :: 0 <= i < j < |out| ==> out[i] != out[j])
    && (forall i :: 0 <= i < |out| ==> out[i] < |structs|)
    && forall i :: 0 <= i < |out| ==> EmbeddedBefore(structs, out, i)
  }

  lemma {:induction false} PrintNext(structs: seq<StructType>, out: seq<nat>, s: nat)
    requires Resolved(structs) && Ordered(structs, out) && s < |structs| && s !in out
    requires forall t :: 0 <= t < |structs| && Embeds(structs, s, t) ==> t in out
    ensures Ordered(structs, out + [s])
  {
    var next := out + [s];
    forall i | 0 <= i < |next|
      ensures EmbeddedBefore(structs, next, i)
    {
      if i < |out| {
        assert EmbeddedBefore(structs, out, i);
        assert next[..i] == out[..i];
      } else {
        assert next[..i] == out;
      }
    }
  }

  // ----- what is printed, as a function -----

  /** What is printed after the first `i` items of struct `s` have been followed. */
  ghost function AfterItems(structs: seq<StructType>, rank: seq<nat>, s: nat, i: nat, out: seq<nat>): seq<nat>
    requires Resolved(structs) && Acyclic(structs, rank) && s < |structs| && i <= |structs[s].items|
    decreases rank[s], 0, i
  {
    if i == 0 then out
    else
      var before := AfterItems(structs, rank, s, i - 1, out);
      if Followed(structs[s].items[i - 1]) then
        assert Embeds(structs, s, Target(structs, s, i - 1));
        AfterStruct(structs, rank, Target(structs, s, i - 1), before)
      else before
  }

  ghost function AfterStruct(structs: seq<StructType>, rank: seq<nat>, s: nat, out: seq<nat>): seq<nat>
    requires Resolved(structs) && Acyclic(structs, rank) && s < |structs|
    decreases rank[s], 1, 0
  {
    var before := AfterItems(structs, rank, s, |structs[s].items|, out);
    if s in before then before else before + [s]
  }

  ghost function AfterList(structs: seq<StructType>, rank: seq<nat>, list: seq<nat>): seq<nat>
    requires Resolved(structs) && Acyclic(structs, rank) && forall i :: 0 <= i < |list| ==> list[i] < |structs|
  {
    if list == [] then []
    else AfterStruct(structs, rank, list[|list| - 1], AfterList(structs, rank, list[..|list| - 1]))
  }

  /** Struct `t` is embedded in `s`, at any depth. */
  ghost predicate Reaches(structs: seq<StructType>, rank: seq<nat>, s: nat, t: nat)
    requires Resolved(structs) && Acyclic(structs, rank) && s < |structs|
    decreases rank[s]
  {
    exists u :: 0 <= u < |structs| && Embeds(structs, s, u) && (u == t || Reaches(structs, rank, u, t))
  }

  /** A struct is printed after what it embeds; nothing else is printed on the way. */
  ghost predicate Grows(structs: seq<StructType>, rank: seq<nat>, s: nat, out: seq<nat>, next: seq<nat>)
    requires Resolved(structs) && Acyclic(structs, rank) && s < |structs|
  {
    && Ordered(structs, next) && out <= next
    && forall t :: t in next && t !in out ==> t == s || Reaches(structs, rank, s, t)
  }

  lemma {:induction false} GrowsFurther(structs: seq<StructType>, rank: seq<nat>, s: nat, t: nat, out: seq<nat>, mid: seq<nat>, next: seq<nat>)
    requires Resolved(structs) && Acyclic(structs, rank) && s < |structs| && t < |structs| && Embeds(structs, s, t)
    requires Grows(structs, rank, s, out, mid) && Grows(structs, rank, t, mid, next)
    requires s in mid ==> s in out || Reaches(structs, rank, s, s)
    ensures Grows(structs, rank, s, out, next)
    ensures s in next ==> s in out || Reaches(structs, rank, s, s)
  {
    forall u | u in next && u !in out
      ensures u == s || Reaches(structs, rank, s, u)
      ensures u == s ==> Reaches(structs, rank, s, u)
    {
      if u !in mid {
        assert u == t || Reaches(structs, rank, t, u);
      }
    }
  }

  ghost predicate ItemsGrown(structs: seq<StructType>, rank: seq<nat>, s: nat, i: nat, out: seq<nat>, next: seq<nat>)
    requires Resolved(structs) && Acyclic(structs, rank) && s < |structs| && i <= |structs[s].items|
  {
    && Grows(structs, rank, s, out, next)
    && (s in next ==> s in out || Reaches(structs, rank, s, s))
    && forall j :: 0 <= j < i && Followed(structs[s].items[j]) ==> Target(structs, s, j) in next
  }

  lemma {:induction false} ItemGrown(structs: seq<StructType>, rank: seq<nat>, s: nat, i: nat, out: seq<nat>, mid: seq<nat>, next: seq<nat>)
    requires Resolved(structs) && Acyclic(structs, rank) && s < |structs| && i < |structs[s].items|
    requires ItemsGrown(structs, rank, s, i, out, mid) && Followed(structs[s].items[i])
    requires Grows(structs, rank, Target(structs, s, i), mid, next) && Target(structs, s, i) in next
    ensures ItemsGrown(structs, rank, s, i + 1, out, next)
  {
    var t := Target(structs, s, i);
    assert Embeds(structs, s, t);
    GrowsFurther(structs, rank, s, t, out, mid, next);
  }

  lemma {:induction false} ItemsNext(structs: seq<StructType>, rank: seq<nat>, s: nat, i: nat, out: seq<nat>, mid: seq<nat>)
    requires Resolved(structs) && Acyclic(structs, rank) && s < |structs| && i < |structs[s].items|
    requires AfterItems(structs, rank, s, i, out) == mid && ItemsGrown(structs, rank, s, i, out, mid)
    requires Followed(structs[s].items[i]) ==>
               var t := Target(structs, s, i);
               var next := AfterStruct(structs, rank, t, mid);
               Grows(structs, rank, t, mid, next) && t in next
    ensures ItemsGrown(structs, rank, s, i + 1, out, AfterItems(structs, rank, s, i + 1, out))
  {
    if Followed(structs[s].items[i]) {
      ItemGrown(structs, rank, s, i, out, mid, AfterStruct(structs, rank, Target(structs, s, i), mid));
    }
  }

  lemma {:induction false} ItemsGrow(structs: seq<StructType>, rank: seq<nat>, s: nat, i: nat, out: seq<nat>)
    requires Resolved(structs) && Acyclic(structs, rank) && s < |structs| && i <= |structs[s].items| && Ordered(structs, out)
    ensures ItemsGrown(structs, rank, s, i, out, AfterItems(structs, rank, s, i, out))
    decreases rank[s], 0, i
  {
    if i > 0 {
      ItemsGrow(structs, rank, s, i - 1, out);
      var mid := AfterItems(structs, rank, s, i - 1, out);
      if Followed(structs[s].items[i - 1]) {
        var t := Target(structs, s, i - 1);
        assert Embeds(structs, s, t);
        StructGrows(structs, rank, t, mid);
      }
      ItemsNext(structs, rank, s, i - 1, out, mid);
    }
  }

  lemma {:induction false} StructGrows(structs: seq<StructType>, rank: seq<nat>, s: nat, out: seq<nat>)
    requires Resolved(structs) && Acyclic(structs, rank) && s < |structs| && Ordered(structs, out)
    ensures var next := AfterStruct(structs, rank, s, out); Grows(structs, rank, s, out, next) && s in next
    decreases rank[s], 1, 0
  {
    var n := |structs[s].items|;
    ItemsGrow(structs, rank, s, n, out);
    var before := AfterItems(structs, rank, s, n, out);
    if s !in before {
      forall t | 0 <= t < |structs| && Embeds(structs, s, t)
        ensures t in before
      {
        var i :| 0 <= i < n && Followed(structs[s].items[i]) && Target(structs, s, i) == t;
      }
      PrintNext(structs, before, s);
    }
  }

  lemma {:induction false} ListGrows(structs: seq<StructType>, rank: seq<nat>, list: seq<nat>, i: nat)
    requires Resolved(structs) && Acyclic(structs, rank) && (forall i :: 0 <= i < |list| ==> list[i] < |structs|) && i <= |list|
    ensures var out := AfterList(structs, rank, list);
            && Ordered(structs, out) && AfterList(structs, rank, list[..i]) <= out
            && forall s :: s in list ==> s in out
    decreases |list|
  {
    var n := |list|;
    if i == n {
      assert list[..i] == list;
    }
    if n > 0 {
      var most := list[..n - 1];
      assert list == most + [list[n - 1]];
      ListGrows(structs, rank, most, if i < n then i else 0);
      StructGrows(structs, rank, list[n - 1], AfterList(structs, rank, most));
      if i < n {
        assert most[..i] == list[..i];
      }
    }
  }

  // ----- complete types in time -----

  /** An item of `s` demands that `t` be complete. */
  predicate Needs(structs: seq<StructType>, s: nat, t: nat)
    requires s < |structs|
  {
    exists i :: 0 <= i < |structs[s].items| && NeedsComplete(structs[s].items[i]) && ItemStruct(structs, s, i) == Some(t)
  }

  ghost predicate InTime(structs: seq<StructType>, out: seq<nat>) {
    forall i, t :: 0 <= i < |out| && out[i] < |structs| && 0 <= t < |structs| && Needs(structs, out[i], t) ==> t in out[..i]
  }

  /** Every struct, in any order; a struct listed twice does no harm. */
  ghost predicate Lists(structs: seq<StructType>, list: seq<nat>) {
    && (forall i :: 0 <= i < |list| ==> list[i] < |structs|)
    && forall s :: 0 <= s < |structs| ==> s in list
  }

  lemma {:induction false} ReachedIsBefore(structs: seq<StructType>, rank: seq<nat>, out: seq<nat>, i: nat, t: nat)
    requires Resolved(structs) && Acyclic(structs, rank) && Ordered(structs, out)
    requires i < |out| && out[i] < |structs| && Reaches(structs, rank, out[i], t)
    ensures t in out[..i]
    decreases rank[out[i]]
  {
    var u :| 0 <= u < |structs| && Embeds(structs, out[i], u) && (u == t || Reaches(structs, rank, u, t));
    assert EmbeddedBefore(structs, out, i);
    if u != t {
      var j :| 0 <= j < i && out[j] == u;
      ReachedIsBefore(structs, rank, out, j, t);
    }
  }

  lemma {:induction false} NothingReachesItself(structs: seq<StructType>, rank: seq<nat>, s: nat, t: nat)
    requires Resolved(structs) && Acyclic(structs, rank) && s < |structs| && t < |structs| && Reaches(structs, rank, s, t)
    ensures rank[t] < rank[s]
    decreases rank[s]
  {
    var u :| 0 <= u < |structs| && Embeds(structs, s, u) && (u == t || Reaches(structs, rank, u, t));
    if u != t {
      NothingReachesItself(structs, rank, u, t);
    }
  }

  /** The list that begins with `s`: whatever `s` does not reach is printed after it. */
  lemma {:induction false} FirstInList(structs: seq<StructType>, rank: seq<nat>, list: seq<nat>, t: nat)
    requires Resolved(structs) && Acyclic(structs, rank) && Lists(structs, list) && list != [] && t < |structs|
    requires Needs(structs, list[0], t) && InTime(structs, AfterList(structs, rank, list))
    ensures Reaches(structs, rank, list[0], t)
  {
    var s := list[0];
    var out := AfterList(structs, rank, list);
    assert list[..1] == [s] && list[..1][..0] == [];
    var first := AfterStruct(structs, rank, s, []);
    assert AfterList(structs, rank, list[..1]) == first;
    ListGrows(structs, rank, list, 1);
    ItemsGrow(structs, rank, s, |structs[s].items|, []);
    var before := AfterItems(structs, rank, s, |structs[s].items|, []);
    if s in before {
      NothingReachesItself(structs, rank, s, s);
    }
    assert first == before + [s];
    assert out[|before|] == s && out[..|before|] == before;
    assert t in before;
    if t == s {
      NothingReachesItself(structs, rank, s, s);
    }
  }

  ghost predicate NeededAreReached(structs: seq<StructType>, rank: seq<nat>)
    requires Resolved(structs) && Acyclic(structs, rank)
  {
    forall s, t :: 0 <= s < |structs| && 0 <= t < |structs| && Needs(structs, s, t) ==> Reaches(structs, rank, s, t)
  }

  lemma {:induction false} ReachedInTime(structs: seq<StructType>, rank: seq<nat>, list: seq<nat>)
    requires Resolved(structs) && Acyclic(structs, rank) && Lists(structs, list) && NeededAreReached(structs, rank)
    ensures InTime(structs, AfterList(structs, rank, list))
  {
    var out := AfterList(structs, rank, list);
    ListGrows(structs, rank, list, 0);
    forall i, t | 0 <= i < |out| && out[i] < |structs| && 0 <= t < |structs| && Needs(structs, out[i], t)
      ensures t in out[..i]
    {
      ReachedIsBefore(structs, rank, out, i, t);
    }
  }

  lemma {:induction false} ListFrom(structs: seq<StructType>, s: nat) returns (list: seq<nat>)
    requires s < |structs|
    ensures Lists(structs, list) && list != [] && list[0] == s
  {
    var all := seq(|structs|, i => i);
    list := [s] + all;
    forall t | 0 <= t < |structs|
      ensures t in list
    {
      assert list[t + 1] == t;
    }
  }

  /** For every order of the list, each struct that an item needs complete is printed before it: this
      holds exactly if each such struct is reached through the items the printer follows. */
  lemma {:induction false} InTimeExact(structs: seq<StructType>, rank: seq<nat>)
    requires Resolved(structs) && Acyclic(structs, rank)
    ensures (forall list :: Lists(structs, list) ==> InTime(structs, AfterList(structs, rank, list))) <==> NeededAreReached(structs, rank)
  {
    if NeededAreReached(structs, rank) {
      forall list | Lists(structs, list)
        ensures InTime(structs, AfterList(structs, rank, list))
      {
        ReachedInTime(structs, rank, list);
      }
    }
    if forall list :: Lists(structs, list) ==> InTime(structs, AfterList(structs, rank, list)) {
      forall s, t | 0 <= s < |structs| && 0 <= t < |structs| && Needs(structs, s, t)
        ensures Reaches(structs, rank, s, t)
      {
        var list := ListFrom(structs, s);
        FirstInList(structs, rank, list, t);
      }
    }
  }

  /** Where no array of pointers hides it, a struct that must be complete is reached. */
  lemma {:induction false} NotHiddenIsReached(structs: seq<StructType>, rank: seq<nat>, s: nat, k: nat)
    requires Resolved(structs) && Acyclic(structs, rank) && s < |structs| && k < |structs[s].items|
    requires NeedsComplete(structs[s].items[k]) && !Hidden(structs[s].items[k])
    ensures ItemStruct(structs, s, k).Some? && Reaches(structs, rank, s, ItemStruct(structs, s, k).value)
  {
    FollowedExact(structs[s].items[k]);
    assert Embeds(structs, s, Target(structs, s, k));
  }

  lemma {:induction false} HiddenItem(t: Type)
    requires t == Array(Pointer(Array(Struct("b"))))
    ensures NeedsComplete(t) && !Followed(t) && StructName(t) == "b"
  {
    assert NeedsComplete(t.elem) && Hidden(t);
    FollowedExact(t);
  }

  lemma {:induction false} OneMore(structs: seq<StructType>, rank: seq<nat>, list: seq<nat>, s: nat, out: seq<nat>)
    requires Resolved(structs) && Acyclic(structs, rank) && (forall i :: 0 <= i < |list| ==> list[i] < |structs|) && s < |structs|
    requires AfterList(structs, rank, list) == out && s !in out
    requires forall i :: 0 <= i < |structs[s].items| ==> !Followed(structs[s].items[i])
    ensures AfterList(structs, rank, list + [s]) == out + [s]
  {
    NoItemsFollowed(structs, rank, s, |structs[s].items|, out);
    assert (list + [s])[..|list|] == list;
  }

  lemma {:induction false} NoEdges(structs: seq<StructType>, rank: seq<nat>)
    requires |structs| == |rank| == 2 && forall s, i :: 0 <= s < 2 && 0 <= i < |structs[s].items| ==> !Followed(structs[s].items[i])
    ensures Resolved(structs) && Acyclic(structs, rank)
  {
  }

  lemma {:induction false} NothingFollowed(structs: seq<StructType>, rank: seq<nat>)
    requires |structs| == |rank| == 2 && forall s, i :: 0 <= s < 2 && 0 <= i < |structs[s].items| ==> !Followed(structs[s].items[i])
    ensures Resolved(structs) && Acyclic(structs, rank)
    ensures AfterList(structs, rank, [0, 1]) == [0, 1]
  {
    NoEdges(structs, rank);
    OneMore(structs, rank, [], 0, []);
    assert [] + [0] == [0];
    OneMore(structs, rank, [0], 1, [0]);
    assert [0] + [1] == [0, 1];
  }

  lemma {:induction false} NoItemsFollowed(structs: seq<StructType>, rank: seq<nat>, s: nat, i: nat, out: seq<nat>)
    requires Resolved(structs) && Acyclic(structs, rank) && s < |structs| && i <= |structs[s].items|
    requires forall j :: 0 <= j < |structs[s].items| ==> !Followed(structs[s].items[j])
    ensures AfterItems(structs, rank, s, i, out) == out
  {
    if i > 0 {
      NoItemsFollowed(structs, rank, s, i - 1, out);
    }
  }

  /** An array of pointers to arrays of structs: the structs must be complete, and are printed later. */
  lemma {:induction false} HiddenIsLate(structs: seq<StructType>)
    requires structs == [StructType("a", [Array(Pointer(Array(Struct("b"))))]), StructType("b", [Scalar])]
    ensures Resolved(structs) && Acyclic(structs, [0, 0])
    ensures AfterList(structs, [0, 0], [0, 1]) == [0, 1]
    ensures Needs(structs, 0, 1) && !InTime(structs, [0, 1])
  {
    HiddenItem(structs[0].items[0]);
    NothingFollowed(structs, [0, 0]);
    var t := ItemStruct(structs, 0, 0);
    assert structs[1].name == "b";
    assert |structs[0].name| == 1 && structs[0].name[0] == 'a' && structs[0].name != "b";
    assert t == Some(1);
    assert Needs(structs, 0, 1);
    assert [0, 1][..0] == [] && [0, 1][0] == 0;
  }

  lemma {:induction false} Embedded(name: string)
    ensures Followed(Struct(name)) && StructName(Struct(name)) == name && !Followed(Scalar)
  {
  }

  /** A struct of two others: they are printed in the order of the items, and only then the struct. */
  lemma {:induction false} ItemsInOrder(structs: seq<StructType>, rank: seq<nat>)
    requires |structs| == 3 && structs[0].items == [Struct("b"), Struct("c")] && structs[1].items == structs[2].items == [Scalar]
    requires structs[1].name == "b" && structs[2].name == "c" && structs[0].name != "b" && structs[0].name != "c"
    requires rank == [1, 0, 0]
    ensures Resolved(structs) && Acyclic(structs, rank) && AfterStruct(structs, rank, 0, []) == [1, 2, 0]
  {
    Embedded("b");
    Embedded("c");
    assert "b"[0] != "c"[0];
    assert ItemStruct(structs, 0, 0) == Some(1) && ItemStruct(structs, 0, 1) == Some(2);
    assert Resolved(structs) && Acyclic(structs, rank);
    NoItemsFollowed(structs, rank, 1, 1, []);
    NoItemsFollowed(structs, rank, 2, 1, [1]);
    assert AfterItems(structs, rank, 0, 0, []) == [];
    assert AfterItems(structs, rank, 0, 1, []) == AfterStruct(structs, rank, 1, []) == [1];
    assert AfterItems(structs, rank, 0, 2, []) == AfterStruct(structs, rank, 2, [1]) == [1, 2];
  }

  class StructPrinter {
    var printed: set<nat>
    /** The definitions written, in order. */
    var out: seq<nat>

    constructor ()
      ensures printed == {} && out == []
    {
      printed, out := {}, [];
    }

    ghost predicate Valid(structs: seq<StructType>)
      reads this
    {
      Resolved(structs) && Ordered(structs, out) && forall s :: s in printed <==> s in out
    }

    /** The embedded structs come first; whether the struct is printed already is asked only then. */
    method StructDefinition(structs: seq<StructType>, s: nat, ghost rank: seq<nat>)
      requires Valid(structs) && Acyclic(structs, rank) && s < |structs|
      modifies this
      ensures Valid(structs) && old(out) <= out && s in out
      ensures out == AfterStruct(structs, rank, s, old(out))
      decreases rank[s]
    {
      ghost var before := out;
      StructGrows(structs, rank, s, before);
      var items := structs[s].items;
      for i := 0 to |items|
        invariant Valid(structs) && out == AfterItems(structs, rank, s, i, before)
      {
        if IsStructArray(items[i]) {
          assert Followed(items[i]) && Embeds(structs, s, Target(structs, s, i));
          StructDefinition(structs, GetStruct(structs, StructName(items[i])).value, rank);
        }
        if IsStructPointer(items[i]) && IsArrayPointer(items[i]) {
          assert Followed(items[i]) && Embeds(structs, s, Target(structs, s, i));
          StructDefinition(structs, GetStruct(structs, StructName(items[i])).value, rank);
        }
        if items[i].Struct? {
          assert Followed(items[i]) && Embeds(structs, s, Target(structs, s, i));
          StructDefinition(structs, GetStruct(structs, items[i].name).value, rank);
        }
      }
      if s in printed {
        return;
      }
      printed := printed + {s};
      out := out + [s];
    }

    /** All structs, named ones before unnamed ones in the list, whatever the order of the list. */
    method StructDefinitions(structs: seq<StructType>, list: seq<nat>, ghost rank: seq<nat>)
      requires Resolved(structs) && Acyclic(structs, rank) && Lists(structs, list) && printed == {} && out == []
      modifies this
      ensures Ordered(structs, out) && forall s :: s in out <==> 0 <= s < |structs|
      ensures out == AfterList(structs, rank, list)
    {
      for i := 0 to |list|
        invariant Valid(structs) && out == AfterList(structs, rank, list[..i])
      {
        StructDefinition(structs, list[i], rank);
        assert list[..i + 1][..i] == list[..i];
      }
      assert list[..|list|] == list;
      ListGrows(structs, rank, list, 0);
    }
  }
}
