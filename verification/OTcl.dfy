/**
 The in-place class graph of OTcl: class objects with mutable superclass and
 subclass lists, a colour and a cached `order`.  Each method computes the function
 of the same purpose in ClassStore, so what is proved of stores holds of the
 objects.
 */
module OTcl {
  import opened Prelude
  import opened Digraph
  import opened ClassStore
  import opened ClassInvariant
  import ClassRuns

  datatype Color = WHITE | GRAY | BLACK

  class OTclClass {
    var super: seq<OTclClass>
    var sub: seq<OTclClass>
    var color: Color
    var order: seq<OTclClass>

    constructor ()
      ensures super == [] && sub == [] && color == WHITE && order == []
    {
      super, sub, color, order := [], [], WHITE, [];
    }
  }

  // ---------------------------------------------------------------------
  // The store that a set of class objects represents
  // ---------------------------------------------------------------------

  ghost function Supers(S: set<OTclClass>): Graph<OTclClass>
    reads S`super
  {
    map c | c in S :: c.super
  }

  ghost function Subs(S: set<OTclClass>): Graph<OTclClass>
    reads S`sub
  {
    map c | c in S :: c.sub
  }

  ghost function Orders(S: set<OTclClass>): Graph<OTclClass>
    reads S`order
  {
    map c | c in S :: c.order
  }

  ghost function Blacks(S: set<OTclClass>): set<OTclClass>
    reads S`color
  {
    set c | c in S && c.color == BLACK
  }

  ghost function Snapshot(S: set<OTclClass>): Store<OTclClass>
    reads S
  {
    Store(Supers(S), Subs(S), Blacks(S), Orders(S))
  }

  /** Between operations no class is GRAY, and links stay among the classes. */
  ghost predicate Valid(S: set<OTclClass>)
    reads S
  {
    WellFormed<OTclClass>(Snapshot(S)) && forall c :: c in S ==> c.color != GRAY
  }

  lemma ListsOf(S: set<OTclClass>, cl: OTclClass)
    requires cl in S
    ensures Supers(S).Keys == Subs(S).Keys == Orders(S).Keys == S
    ensures Supers(S)[cl] == cl.super && Subs(S)[cl] == cl.sub && Orders(S)[cl] == cl.order
  {
  }

  ghost function Links(S: set<OTclClass>, dir: Direction): Graph<OTclClass>
    reads S`super, S`sub
  {
    match dir
    case Super => Supers(S)
    case Sub => Subs(S)
  }

  // ---------------------------------------------------------------------
  // The coloured sort
  // ---------------------------------------------------------------------

  /** Colours tell the classes being visited, the finished ones and the rest apart. */
  ghost predicate Coloured(S: set<OTclClass>, stack: set<OTclClass>, black: set<OTclClass>)
    reads S`color
  {
    forall c :: c in S ==> c.color == if c in stack then GRAY else if c in black then BLACK else WHITE
  }

  /** g is the graph of the lists of this direction. */
  ghost predicate Shows(S: set<OTclClass>, dir: Direction, g: Graph<OTclClass>)
    reads S`super, S`sub
  {
    g.Keys == S && forall c :: c in S ==> g[c] == if dir.Super? then c.super else c.sub
  }

  lemma ShownList(S: set<OTclClass>, dir: Direction, g: Graph<OTclClass>, cl: OTclClass)
    requires Shows(S, dir, g) && cl in S
    ensures g.Keys == S && g[cl] == if dir.Super? then cl.super else cl.sub
  {
  }

  method TopoSort(cl: OTclClass, base: OTclClass, dir: Direction, ghost S: set<OTclClass>,
                  ghost g: Graph<OTclClass>, ghost stack: set<OTclClass>, ghost skip: set<OTclClass>)
    returns (ok: bool)
    requires cl in S && base in S && Closed<OTclClass>(g) && Shows(S, dir, g)
    requires stack <= S && cl !in stack && cl !in skip + Elems<OTclClass>(base.order) && Elems<OTclClass>(base.order) <= S - skip
    requires Coloured(S - {cl}, stack, skip + Elems<OTclClass>(base.order)) && stack !! skip + Elems<OTclClass>(base.order)
    requires if cl == base then stack == {} && base.order == [] else base in stack
    modifies S`color, base`order
    ensures Visited(ok, base.order) == Visit<OTclClass>(g, cl, stack, skip, old(base.order))
    ensures Elems<OTclClass>(base.order) <= S - skip
    ensures cl != base ==> Coloured(S, stack, skip + Elems<OTclClass>(base.order)) && stack !! skip + Elems<OTclClass>(base.order)
    ensures cl == base ==> Coloured(S, {}, LeftBlack<OTclClass>(g, base, skip, base.order))
    decreases S - stack, 1
  {
    hide Visit, VisitAll, GivesUpAtSelf, LeftBlack, Closed, Elems, StoppedAt;
    VisitIsVisitAll<OTclClass>(g, cl, stack, skip, base.order);
    LeftBlackCases<OTclClass>(g, base, skip);
    cl.color := GRAY;
    var stop, at := VisitList(cl, base, dir, S, g, stack + {cl}, skip);
    if cl == base {
      StopTells(g, base, skip, stop, at);
    }
    ok := Leave(cl, base, stop, S, stack, skip);
  }

  /** The way out of the sort of cl: an unreported class turns WHITE again, a reported
      one BLACK, and at the base the reported classes are reset, unless a GRAY
      successor was met. */
  method Leave(cl: OTclClass, base: OTclClass, stop: Stop,
               ghost S: set<OTclClass>, ghost stack: set<OTclClass>, ghost skip: set<OTclClass>)
    returns (ok: bool)
    requires cl in S && base in S && cl !in stack && cl !in skip + Elems<OTclClass>(base.order)
    requires Elems<OTclClass>(base.order) <= S - skip && stack !! skip + Elems<OTclClass>(base.order)
    requires Coloured(S, stack + {cl}, skip + Elems<OTclClass>(base.order)) && (cl == base ==> stack == {})
    modifies S`color, base`order
    ensures ok == stop.Finished? && base.order == if ok then [cl] + old(base.order) else old(base.order)
    ensures Elems<OTclClass>(base.order) <= S - skip
    ensures cl != base ==> Coloured(S, stack, skip + Elems<OTclClass>(base.order)) && stack !! skip + Elems<OTclClass>(base.order)
    ensures cl == base ==> Coloured(S, {}, if stop.MetGray? then skip + Elems<OTclClass>(base.order) else skip)
  {
    hide Elems;
    if !stop.Finished? {
      cl.color := WHITE;
      if cl == base && stop.BelowFailed? {
        Whiten(base, S, skip);
      }
      return false;
    }
    cl.color := BLACK;
    ElemsCons(cl, base.order);
    base.order := [cl] + base.order;
    if cl == base {
      Whiten(base, S, skip);
    }
    return true;
  }

  lemma ElemsCons(c: OTclClass, d: seq<OTclClass>)
    ensures Elems<OTclClass>([c] + d) == Elems<OTclClass>(d) + {c}
  {
  }

  /** How the loop over the successors of a class ends. */
  datatype Stop = Finished | MetGray | BelowFailed

  /** The loop got as far as entry `at` without trouble, and what it found there. */
  ghost predicate StoppedAt(g: Graph<OTclClass>, cl: OTclClass, up: set<OTclClass>, skip: set<OTclClass>,
                            done: seq<OTclClass>, stop: Stop, at: nat)
    requires Closed<OTclClass>(g) && cl in g
  {
    && at <= |g[cl]|
    && VisitAll<OTclClass>(g, Taken<OTclClass>(g, cl, at), up, skip, done).ok
    && (stop.Finished? <==> at == |g[cl]|)
    && (stop.MetGray? ==> g[cl][at] in up)
    && (stop.BelowFailed? ==> g[cl][at] !in up && !VisitAll<OTclClass>(g, Taken<OTclClass>(g, cl, at + 1), up, skip, done).ok)
  }

  lemma StopsHere(g: Graph<OTclClass>, cl: OTclClass, up: set<OTclClass>, skip: set<OTclClass>,
                  done: seq<OTclClass>, stop: Stop, i: nat)
    requires Closed<OTclClass>(g) && cl in g && i <= |g[cl]|
    requires VisitAll<OTclClass>(g, Taken<OTclClass>(g, cl, i), up, skip, done).ok
    requires stop.Finished? <==> i == |g[cl]|
    requires i < |g[cl]| ==> (stop.MetGray? <==> g[cl][i] in up)
    requires stop.BelowFailed? ==> !VisitAll<OTclClass>(g, Taken<OTclClass>(g, cl, i + 1), up, skip, done).ok
    ensures StoppedAt(g, cl, up, skip, done, stop, i)
  {
  }

  lemma StopTells(g: Graph<OTclClass>, base: OTclClass, skip: set<OTclClass>, stop: Stop, at: nat)
    requires Closed<OTclClass>(g) && base in g && StoppedAt(g, base, {} + {base}, skip, [], stop, at)
    ensures stop.MetGray? <==> GivesUpAtSelf<OTclClass>(g, base, skip)
  {
    assert {} + {base} == {base};
    WhereItStops<OTclClass>(g, base, at, skip);
  }

  method VisitList(cl: OTclClass, base: OTclClass, dir: Direction, ghost S: set<OTclClass>,
                   ghost g: Graph<OTclClass>, ghost up: set<OTclClass>, ghost skip: set<OTclClass>)
    returns (stop: Stop, ghost at: nat)
    requires cl in S && base in S && Closed<OTclClass>(g) && Shows(S, dir, g)
    requires up <= S && cl in up && base in up && Elems<OTclClass>(base.order) <= S - skip
    requires Coloured(S, up, skip + Elems<OTclClass>(base.order)) && up !! skip + Elems<OTclClass>(base.order)
    modifies S`color, base`order
    ensures Coloured(S, up, skip + Elems<OTclClass>(base.order)) && up !! skip + Elems<OTclClass>(base.order)
    ensures Elems<OTclClass>(base.order) <= S - skip
    ensures Visited(stop.Finished?, base.order) == VisitAll<OTclClass>(g, g[cl], up, skip, old(base.order))
    ensures StoppedAt(g, cl, up, skip, old(base.order), stop, at)
    decreases S - up, 3
  {
    hide VisitOne, VisitAll, Taken, Closed, Shows, Elems, StoppedAt, Coloured;
    ghost var done := base.order;
    ShownList(S, dir, g, cl);
    VisitAllNone<OTclClass>(g, cl, up, skip, done);
    var sl := if dir.Super? then cl.super else cl.sub;
    var i := 0;
    while i < |sl|
      invariant 0 <= i <= |sl|
      invariant Shows(S, dir, g)
      invariant Coloured(S, up, skip + Elems<OTclClass>(base.order)) && up !! skip + Elems<OTclClass>(base.order)
      invariant Elems<OTclClass>(base.order) <= S - skip
      invariant VisitAll<OTclClass>(g, Taken<OTclClass>(g, cl, i), up, skip, done) == Visited(true, base.order)
    {
      VisitOneMore<OTclClass>(g, cl, i, up, skip, done);
      stop := Follow(sl[i], base, dir, S, g, up, skip);
      if !stop.Finished? {
        StopsHere(g, cl, up, skip, done, stop, i);
        return stop, i;
      }
      i := i + 1;
    }
    StopsHere(g, cl, up, skip, done, Finished, i);
    return Finished, i;
  }

  /** One successor: a GRAY one ends the loop, a WHITE one is sorted, a BLACK one passed over. */
  method Follow(sc: OTclClass, base: OTclClass, dir: Direction, ghost S: set<OTclClass>,
                ghost g: Graph<OTclClass>, ghost up: set<OTclClass>, ghost skip: set<OTclClass>)
    returns (stop: Stop)
    requires sc in S && base in S && Closed<OTclClass>(g) && Shows(S, dir, g)
    requires up <= S && base in up && Elems<OTclClass>(base.order) <= S - skip
    requires Coloured(S, up, skip + Elems<OTclClass>(base.order)) && up !! skip + Elems<OTclClass>(base.order)
    modifies S`color, base`order
    ensures Coloured(S, up, skip + Elems<OTclClass>(base.order)) && up !! skip + Elems<OTclClass>(base.order)
    ensures Elems<OTclClass>(base.order) <= S - skip
    ensures Visited(stop.Finished?, base.order) == VisitOne<OTclClass>(g, sc, up, skip, old(base.order))
    ensures stop.MetGray? <==> sc in up
    decreases S - up, 2
  {
    hide Visit, Closed, Elems;
    if sc.color == GRAY {
      return MetGray;
    }
    if sc.color == WHITE {
      var ok := TopoSort(sc, base, dir, S, g, up, skip);
      if !ok {
        return BelowFailed;
      }
    }
    return Finished;
  }

  /** The loop that resets reported classes. */
  method Whiten(base: OTclClass, ghost S: set<OTclClass>, ghost skip: set<OTclClass>)
    requires Elems<OTclClass>(base.order) <= S - skip
    requires Coloured(S, {}, skip + Elems<OTclClass>(base.order))
    modifies S`color
    ensures Coloured(S, {}, skip)
  {
    var i := 0;
    while i < |base.order|
      invariant 0 <= i <= |base.order|
      invariant Coloured(S, {}, skip + (Elems<OTclClass>(base.order) - Elems<OTclClass>(base.order[..i])))
    {
      var pc := base.order[i];
      assert pc in Elems<OTclClass>(base.order);
      pc.color := WHITE;
      assert base.order[..i + 1] == base.order[..i] + [pc];
      i := i + 1;
    }
    assert base.order[..i] == base.order;
  }

  // ---------------------------------------------------------------------
  // Caches
  // ---------------------------------------------------------------------

  lemma LinksShown(S: set<OTclClass>, dir: Direction)
    requires Valid(S)
    ensures Shows(S, dir, Links(S, dir)) && Closed<OTclClass>(Links(S, dir)) && Links(S, dir).Keys == S
  {
  }

  lemma LeftBlackInside(g: Graph<OTclClass>, cl: OTclClass, skip: set<OTclClass>, list: seq<OTclClass>)
    requires Closed<OTclClass>(g) && cl in g && skip <= g.Keys && Elems<OTclClass>(list) <= g.Keys
    ensures LeftBlack<OTclClass>(g, cl, skip, list) <= g.Keys
  {
  }

  lemma NoElems()
    ensures Elems<OTclClass>([]) == {}
  {
  }

  lemma ColouredBlacks(S: set<OTclClass>, black: set<OTclClass>)
    requires black <= S && Coloured(S, {}, black)
    ensures Blacks(S) == black && forall c :: c in S ==> c.color != GRAY
  {
  }

  lemma BlacksColoured(S: set<OTclClass>, cl: OTclClass)
    requires forall c :: c in S ==> c.color != GRAY
    ensures Coloured(S - {cl}, {}, (Blacks(S) - {cl}) + Elems<OTclClass>([]))
  {
  }

  /** A sort from the top, seen as a change of the represented store. */
  method SortSlot(cl: OTclClass, dir: Direction, ghost S: set<OTclClass>) returns (ok: bool)
    requires Valid(S) && cl in S && cl.order == []
    modifies S`color, cl`order
    ensures Visited(ok, cl.order) == Visit<OTclClass>(Edges<OTclClass>(old(Snapshot(S)), dir), cl, {}, old(Snapshot(S)).black - {cl}, [])
    ensures Snapshot(S) == SortedStore(old(Snapshot(S)), cl, dir, cl.order)
    ensures forall c :: c in S ==> c.color != GRAY
  {
    hide Visit, LeftBlack, WellFormed, Elems, Coloured;
    LinksShown(S, dir);
    ok := SortFromTop(cl, dir, S);
    LeftBlackInside(old(Links(S, dir)), cl, old(Blacks(S)) - {cl}, cl.order);
    ColouredBlacks(S, LeftBlack<OTclClass>(old(Links(S, dir)), cl, old(Blacks(S)) - {cl}, cl.order));
    assert Orders(S) == old(Orders(S))[cl := cl.order];
  }

  method SortFromTop(cl: OTclClass, dir: Direction, ghost S: set<OTclClass>) returns (ok: bool)
    requires Valid(S) && cl in S && cl.order == []
    requires Closed<OTclClass>(Links(S, dir)) && Links(S, dir).Keys == S
    modifies S`color, cl`order
    ensures Visited(ok, cl.order) == Visit<OTclClass>(old(Links(S, dir)), cl, {}, old(Blacks(S)) - {cl}, [])
    ensures Coloured(S, {}, LeftBlack<OTclClass>(old(Links(S, dir)), cl, old(Blacks(S)) - {cl}, cl.order))
    ensures Elems<OTclClass>(cl.order) <= S
  {
    hide Visit, LeftBlack, WellFormed, Closed, Elems, Coloured, Shows, Supers, Subs;
    BlacksColoured(S, cl);
    LinksShown(S, dir);
    NoElems();
    ok := TopoSort(cl, cl, dir, S, Links(S, dir), {}, Blacks(S) - {cl});
  }

  /** st after a sort of cl that left `list` in its slot. */
  ghost function SortedStore(st: Store<OTclClass>, cl: OTclClass, dir: Direction, list: seq<OTclClass>): Store<OTclClass>
    requires WellFormed<OTclClass>(st) && cl in st.sup
  {
    Store(st.sup, st.sub, LeftBlack<OTclClass>(Edges<OTclClass>(st, dir), cl, st.black - {cl}, list), st.order[cl := list])
  }

  method SetOrder(cl: OTclClass, l: seq<OTclClass>, ghost S: set<OTclClass>)
    requires cl in S
    modifies cl`order
    ensures cl.order == l
    ensures Snapshot(S) == old(Snapshot(S)).(order := old(Orders(S))[cl := l])
    ensures old(Valid(S)) ==> Valid(S)
  {
    cl.order := l;
    assert Orders(S) == old(Orders(S))[cl := l];
  }

  lemma ComputeIs(st: Store<OTclClass>, cl: OTclClass, dir: Direction, ok: bool, list: seq<OTclClass>)
    requires WellFormed<OTclClass>(st) && cl in st.sup && st.order[cl] == []
    requires Visited(ok, list) == Visit<OTclClass>(Edges<OTclClass>(st, dir), cl, {}, st.black - {cl}, [])
    ensures var t := SortedStore(st, cl, dir, list);
            Compute<OTclClass>(st, cl, dir) == t.(order := t.order[cl := if ok then list else []])
    ensures ok ==> Compute<OTclClass>(st, cl, dir) == SortedStore(st, cl, dir, list)
    ensures WellFormed<OTclClass>(Compute<OTclClass>(st, cl, dir))
  {
  }

  lemma ComputeFilled(st: Store<OTclClass>, cl: OTclClass, dir: Direction)
    requires WellFormed<OTclClass>(st) && cl in st.sup && st.order[cl] != []
    ensures Compute<OTclClass>(st, cl, dir) == st
  {
  }

  /** ComputePrecedence and ComputeDependents: sort into an empty slot, and empty it
      again if the sort fails. */
  method ComputeOrder(cl: OTclClass, dir: Direction, ghost S: set<OTclClass>) returns (pl: seq<OTclClass>)
    requires Valid(S) && cl in S
    modifies S`color, cl`order
    ensures Snapshot(S) == Compute<OTclClass>(old(Snapshot(S)), cl, dir)
    ensures Valid(S)
    ensures pl == cl.order
  {
    hide WellFormed, Compute, Supers, Subs, Orders, Blacks;
    ListsOf(S, cl);
    if cl.order == [] {
      FillSlot(cl, dir, S);
    } else {
      ComputeFilled(Snapshot(S), cl, dir);
    }
    pl := cl.order;
  }

  method FillSlot(cl: OTclClass, dir: Direction, ghost S: set<OTclClass>)
    requires Valid(S) && cl in S && cl.order == []
    modifies S`color, cl`order
    ensures Snapshot(S) == Compute<OTclClass>(old(Snapshot(S)), cl, dir)
    ensures Valid(S)
  {
    hide Visit, SortedStore, WellFormed, Compute, Supers, Subs, Orders, Blacks;
    ListsOf(S, cl);
    var ok := SortSlot(cl, dir, S);
    ComputeIs(old(Snapshot(S)), cl, dir, ok, cl.order);
    if !ok {
      SetOrder(cl, [], S);
    }
  }

  lemma ComputedList(st: Store<OTclClass>, cl: OTclClass, dir: Direction)
    requires WellFormed<OTclClass>(st) && cl in st.sup && st.order[cl] == []
    ensures var pl := Compute<OTclClass>(st, cl, dir).order[cl];
            (pl != [] ==> pl[0] == cl) && forall c :: c in pl ==> c in st.sup
  {
    TopoSortListed<OTclClass>(Edges<OTclClass>(st, dir), st.black, cl);
  }

  method FlushPrecedences(cl: OTclClass, ghost S: set<OTclClass>)
    requires Valid(S) && cl in S
    modifies S`color, S`order
    ensures Snapshot(S) == Flush<OTclClass>(old(Snapshot(S)), cl)
    ensures Valid(S)
  {
    hide WellFormed, Compute;
    SetOrder(cl, [], S);
    ComputedList(Snapshot(S), cl, Sub);
    var pc := ComputeOrder(cl, Sub, S);
    assert Snapshot(S).order[cl] == pc;
    EmptySlots(cl, pc, S);
    assert WellFormed<OTclClass>(Flush<OTclClass>(old(Snapshot(S)), cl));
  }

  /** The loop that frees the lists of the classes found, then the borrowed slot. */
  method EmptySlots(cl: OTclClass, pc: seq<OTclClass>, ghost S: set<OTclClass>)
    requires cl in S && (pc != [] ==> pc[0] == cl) && forall c :: c in pc ==> c in S
    modifies S`order
    ensures Orders(S) == Clear<OTclClass>(old(Orders(S)), cl, pc)
  {
    hide Elems;
    ghost var cleared: set<OTclClass> := {};
    ElemsSteps(pc);
    var i := 1;
    while i < |pc|
      invariant 1 <= i && (pc == [] || i <= |pc|)
      invariant cleared + {cl} == if pc == [] then {cl} else Elems<OTclClass>(pc[..i])
      invariant forall c :: c in S ==> c.order == if c in cleared then [] else old(c.order)
    {
      assert pc[i] in pc;
      pc[i].order := [];
      cleared := cleared + {pc[i]};
      i := i + 1;
    }
    cl.order := [];
    assert cleared + {cl} == Elems<OTclClass>(pc) + {cl};
    ClearedOrders(S, old(Orders(S)), cl, pc, cleared);
  }

  lemma ElemsSteps(pc: seq<OTclClass>)
    ensures pc == [] ==> Elems<OTclClass>(pc) == {}
    ensures pc != [] ==> Elems<OTclClass>(pc[..1]) == {pc[0]} && Elems<OTclClass>(pc[..|pc|]) == Elems<OTclClass>(pc)
    ensures forall i :: 0 <= i < |pc| ==> Elems<OTclClass>(pc[..i + 1]) == Elems<OTclClass>(pc[..i]) + {pc[i]}
  {
    assert pc[..|pc|] == pc;
    forall i | 0 <= i < |pc|
      ensures Elems<OTclClass>(pc[..i + 1]) == Elems<OTclClass>(pc[..i]) + {pc[i]}
    {
      assert pc[..i + 1] == pc[..i] + [pc[i]];
    }
    assert pc[..0] == [];
  }

  lemma ClearedOrders(S: set<OTclClass>, o: Graph<OTclClass>, cl: OTclClass, pc: seq<OTclClass>, cleared: set<OTclClass>)
    requires o.Keys == S && cl in S
    requires cleared + {cl} == Elems<OTclClass>(pc) + {cl}
    requires forall c :: c in S ==> c.order == if c in cleared || c == cl then [] else o[c]
    ensures Orders(S) == Clear<OTclClass>(o, cl, pc)
  {
    forall c | c in S
      ensures c.order == if c == cl || c in pc then [] else o[c]
    {
      assert c in pc <==> c in Elems<OTclClass>(pc);
      assert c in cleared + {cl} <==> c in Elems<OTclClass>(pc) + {cl};
    }
  }

  // ---------------------------------------------------------------------
  // Links
  // ---------------------------------------------------------------------

  /** AS: walk the list for s, prepend s if the walk falls off the end. */
  method AS(l: seq<OTclClass>, s: OTclClass) returns (r: seq<OTclClass>)
    ensures r == Prepend<OTclClass>(l, s)
  {
    var i := 0;
    while i < |l| && l[i] != s
      invariant 0 <= i <= |l| && s !in l[..i]
    {
      i := i + 1;
    }
    if i == |l| {
      assert l[..i] == l;
      return [s] + l;
    }
    return l;
  }

  /** RS: unlink the first s of the list, and say whether there was one. */
  method RS(l: seq<OTclClass>, s: OTclClass) returns (r: seq<OTclClass>, found: bool)
    ensures r == Drop<OTclClass>(l, s) && found == (s in l)
  {
    var passed, rest := [], l;
    while rest != [] && rest[0] != s
      invariant l == passed + rest && s !in passed
      invariant Drop<OTclClass>(l, s) == passed + Drop<OTclClass>(rest, s)
      decreases |rest|
    {
      passed, rest := passed + [rest[0]], rest[1..];
    }
    if rest == [] {
      return l, false;
    }
    return passed + rest[1..], true;
  }

  method SetSuper(cl: OTclClass, l: seq<OTclClass>, ghost S: set<OTclClass>)
    requires cl in S
    modifies cl`super
    ensures Snapshot(S) == old(Snapshot(S)).(sup := old(Supers(S))[cl := l])
  {
    cl.super := l;
    assert Supers(S) == old(Supers(S))[cl := l];
  }

  method SetSub(cl: OTclClass, l: seq<OTclClass>, ghost S: set<OTclClass>)
    requires cl in S
    modifies cl`sub
    ensures Snapshot(S) == old(Snapshot(S)).(sub := old(Subs(S))[cl := l])
  {
    cl.sub := l;
    assert Subs(S) == old(Subs(S))[cl := l];
  }

  method LinkSuper(cl: OTclClass, s: OTclClass, ghost S: set<OTclClass>)
    requires Valid(S) && cl in S && s in S
    modifies cl`super, s`sub
    ensures Snapshot(S) == AddSuper<OTclClass>(old(Snapshot(S)), cl, s)
    ensures Valid(S)
  {
    hide WellFormed, Prepend, Supers, Subs, Orders, Blacks;
    ListsOf(S, cl);
    ListsOf(S, s);
    var l := AS(cl.super, s);
    var m := AS(s.sub, cl);
    SetSuper(cl, l, S);
    SetSub(s, m, S);
  }

  method UnlinkSuper(cl: OTclClass, s: OTclClass, ghost S: set<OTclClass>) returns (both: bool)
    requires Valid(S) && cl in S && s in S
    modifies cl`super, s`sub
    ensures Snapshot(S) == RemoveSuper<OTclClass>(old(Snapshot(S)), cl, s)
    ensures Valid(S)
    ensures both <==> s in old(cl.super) && cl in old(s.sub)
  {
    hide WellFormed, Drop, Supers, Subs, Orders, Blacks;
    ListsOf(S, cl);
    ListsOf(S, s);
    var l, sp := RS(cl.super, s);
    var m, sb := RS(s.sub, cl);
    SetSuper(cl, l, S);
    SetSub(s, m, S);
    both := sp && sb;
  }

  /** Unlink everything above cl, remembering it in reverse. */
  method UnlinkAllSupers(cl: OTclClass, ghost S: set<OTclClass>) returns (osl: seq<OTclClass>)
    requires Valid(S) && cl in S
    modifies S`super, S`sub
    ensures Snapshot(S) == UnlinkSupers<OTclClass>(old(Snapshot(S)), cl)
    ensures Valid(S)
    ensures osl == Reverse<OTclClass>(old(cl.super))
  {
    osl := [];
    while cl.super != []
      invariant Valid(S)
      invariant UnlinkSupers<OTclClass>(Snapshot(S), cl) == UnlinkSupers<OTclClass>(old(Snapshot(S)), cl)
      invariant Reverse<OTclClass>(cl.super) + osl == Reverse<OTclClass>(old(cl.super))
      decreases |cl.super|
    {
      var sc := cl.super[0];
      InLists(S, cl);
      ReverseStep(cl.super, osl);
      hide WellFormed, Reverse, Drop;
      osl := [sc] + osl;
      var both := UnlinkSuper(cl, sc, S);
      assert Snapshot(S).sup[cl] == cl.super;
    }
  }

  lemma ReverseStep(l: seq<OTclClass>, osl: seq<OTclClass>)
    requires l != []
    ensures Reverse<OTclClass>(Drop<OTclClass>(l, l[0])) + ([l[0]] + osl) == Reverse<OTclClass>(l) + osl
  {
  }

  lemma InLists(S: set<OTclClass>, cl: OTclClass)
    requires Valid(S) && cl in S
    ensures Snapshot(S).sup[cl] == cl.super && Snapshot(S).sub[cl] == cl.sub && Snapshot(S).order[cl] == cl.order
    ensures cl.super != [] ==> cl.super[0] in S
    ensures cl.sub != [] ==> cl.sub[0] in S
  {
    assert cl.super != [] ==> cl.super[0] in Snapshot(S).sup[cl];
    assert cl.sub != [] ==> cl.sub[0] in Snapshot(S).sub[cl];
  }

  method UnlinkAllSubs(cl: OTclClass, ghost S: set<OTclClass>)
    requires Valid(S) && cl in S
    modifies S`super, S`sub
    ensures Snapshot(S) == UnlinkSubs<OTclClass>(old(Snapshot(S)), cl)
    ensures Valid(S)
  {
    while cl.sub != []
      invariant Valid(S)
      invariant UnlinkSubs<OTclClass>(Snapshot(S), cl) == UnlinkSubs<OTclClass>(old(Snapshot(S)), cl)
      decreases |cl.sub|
    {
      InLists(S, cl);
      hide WellFormed;
      var both := UnlinkSuper(cl.sub[0], cl, S);
      assert Snapshot(S).sub[cl] == cl.sub;
    }
  }

  method LinkAllSupers(cl: OTclClass, ss: seq<OTclClass>, ghost S: set<OTclClass>)
    requires Valid(S) && cl in S && forall s :: s in ss ==> s in S
    modifies S`super, S`sub
    ensures Snapshot(S) == AddSupers<OTclClass>(old(Snapshot(S)), cl, ss)
    ensures Valid(S)
  {
    hide WellFormed, AddSuper;
    var i := 0;
    while i < |ss|
      invariant 0 <= i <= |ss|
      invariant Valid(S)
      invariant AddSupers<OTclClass>(Snapshot(S), cl, ss[i..]) == AddSupers<OTclClass>(old(Snapshot(S)), cl, ss)
    {
      assert ss[i..][0] == ss[i] && ss[i..][1..] == ss[i + 1..] && ss[i] in ss;
      LinkSuper(cl, ss[i], S);
      i := i + 1;
    }
  }

  // ---------------------------------------------------------------------
  // Operations
  // ---------------------------------------------------------------------

  /** The dependence check, with the sort it still starts after a reversal is found. */
  method CheckOrder(scl: seq<OTclClass>, ghost S: set<OTclClass>) returns (reversed: bool)
    requires Valid(S) && forall c :: c in scl ==> c in S
    modifies S`color, S`order
    ensures Checked(Snapshot(S), reversed) == Check<OTclClass>(old(Snapshot(S)), scl, 0)
    ensures Valid(S)
  {
    hide WellFormed, Compute, CheckAgainst;
    reversed := false;
    var i := 0;
    while i < |scl|
      invariant 0 <= i <= |scl|
      invariant Valid(S)
      invariant Check<OTclClass>(old(Snapshot(S)), scl, 0)
             == if reversed then Checked(Snapshot(S), true) else Check<OTclClass>(Snapshot(S), scl, i)
    {
      if reversed {
        break;
      }
      reversed := CheckOne(scl, i, S);
      i := i + 1;
    }
  }

  method CheckOne(scl: seq<OTclClass>, i: nat, ghost S: set<OTclClass>) returns (reversed: bool)
    requires Valid(S) && i < |scl| && forall c :: c in scl ==> c in S
    modifies S`color, S`order
    ensures Checked(Snapshot(S), reversed) == CheckAgainst<OTclClass>(old(Snapshot(S)), scl, i, i + 1, false)
    ensures Valid(S)
  {
    hide WellFormed, Compute, CheckAgainst, Supers, Subs, Orders, Blacks, Live;
    reversed := false;
    var j := i + 1;
    AllLive(S, scl);
    while j < |scl|
      invariant i < j <= |scl|
      invariant Valid(S) && Live<OTclClass>(Snapshot(S), scl)
      invariant CheckAgainst<OTclClass>(Snapshot(S), scl, i, j, reversed)
             == CheckAgainst<OTclClass>(old(Snapshot(S)), scl, i, i + 1, false)
    {
      assert scl[j] in scl;
      ListsOf(S, scl[j]);
      AgainstStep(Snapshot(S), scl, i, j, reversed);
      var dl := ComputeOrder(scl[j], Super, S);
      ListsOf(S, scl[j]);
      AllLive(S, scl);
      if reversed {
        break;
      }
      reversed := Contains(dl, scl[i]);
      j := j + 1;
    }
    if j == |scl| {
      AgainstDone(Snapshot(S), scl, i, reversed);
    }
  }

  lemma AllLive(S: set<OTclClass>, scl: seq<OTclClass>)
    requires forall c :: c in scl ==> c in S
    ensures Live<OTclClass>(Snapshot(S), scl)
  {
  }

  lemma AgainstStep(st: Store<OTclClass>, scl: seq<OTclClass>, i: nat, j: nat, reversed: bool)
    requires WellFormed<OTclClass>(st) && Live<OTclClass>(st, scl) && i < j < |scl| && scl[j] in st.sup
    ensures var next := Compute<OTclClass>(st, scl[j], Super);
      CheckAgainst<OTclClass>(st, scl, i, j, reversed)
      == if reversed then Checked(next, true)
         else CheckAgainst<OTclClass>(next, scl, i, j + 1, scl[i] in next.order[scl[j]])
  {
  }

  lemma AgainstDone(st: Store<OTclClass>, scl: seq<OTclClass>, i: nat, reversed: bool)
    requires WellFormed<OTclClass>(st) && Live<OTclClass>(st, scl) && i < |scl|
    ensures CheckAgainst<OTclClass>(st, scl, i, |scl|, reversed) == Checked(st, reversed)
  {
  }

  /** The walk along a list in search of a class. */
  method Contains(dl: seq<OTclClass>, c: OTclClass) returns (found: bool)
    ensures found == (c in dl)
  {
    var k := 0;
    while k < |dl|
      invariant 0 <= k <= |dl| && c !in dl[..k]
    {
      if dl[k] == c {
        return true;
      }
      k := k + 1;
    }
    assert dl[..k] == dl;
    return false;
  }

  /** OTclCSuperClassMethod, for a request whose names are already resolved. */
  method SetSuperclass(cl: OTclClass, scl: seq<OTclClass>, ghost S: set<OTclClass>) returns (r: Outcome)
    requires Valid(S) && cl in S && forall c :: c in scl ==> c in S
    modifies S
    ensures Answer(Snapshot(S), r) == SuperClass<OTclClass>(old(Snapshot(S)), cl, scl)
    ensures Valid(S)
    ensures old(Inv<OTclClass>(Snapshot(S))) ==>
              && r == ClassRuns.Verdict<OTclClass>(old(Supers(S)), cl, scl)
              && (Inv<OTclClass>(Snapshot(S)) <==> !ClassRuns.SelfInside<OTclClass>(old(Supers(S)), cl, scl))
  {
    hide WellFormed, Compute, Flush, UnlinkSupers, AddSupers, Reverse, Check, Relink, Inv, ClassRuns.Verdict, ClassRuns.SelfInside;
    if Inv<OTclClass>(Snapshot(S)) {
      OnObjects(Snapshot(S), ClassRuns.SetSuperclass(cl, scl));
    }
    var reversed := CheckOrder(scl, S);
    if reversed {
      return NotInDependenceOrder;
    }
    r := RelinkClass(cl, scl, S);
  }

  /** The effect on the invariant of an operation on the represented store. */
  lemma OnObjects(st: Store<OTclClass>, op: ClassRuns.Op<OTclClass>)
    requires Inv<OTclClass>(st) && ClassRuns.Enabled<OTclClass>(st, op)
    ensures Inv<OTclClass>(ClassRuns.Step<OTclClass>(st, op)) <==> !ClassRuns.Spoils<OTclClass>(st, op)
    ensures op.SetSuperclass? ==>
              SuperClass<OTclClass>(st, op.c, op.req).result == ClassRuns.Verdict<OTclClass>(st.sup, op.c, op.req)
  {
    ClassRuns.StepKeepsInv<OTclClass>(st, op);
    if op.SetSuperclass? {
      ClassRuns.SuperClassTransaction<OTclClass>(st, op.c, op.req);
    }
  }

  method RelinkClass(cl: OTclClass, scl: seq<OTclClass>, ghost S: set<OTclClass>) returns (r: Outcome)
    requires Valid(S) && cl in S && forall c :: c in scl ==> c in S
    modifies S
    ensures Answer(Snapshot(S), r) == Relink<OTclClass>(old(Snapshot(S)), cl, scl)
    ensures Valid(S)
  {
    ReversedInside(S, cl);
    hide WellFormed, Compute, Flush, UnlinkSupers, AddSupers, Reverse;
    var osl := UnlinkAllSupers(cl, S);
    LinkAllSupers(cl, scl, S);
    FlushPrecedences(cl, S);
    var pl := ComputeOrder(cl, Super, S);
    if pl == [] {
      var _ := UnlinkAllSupers(cl, S);
      LinkAllSupers(cl, osl, S);
      return WouldBeCyclic;
    }
    return Accepted;
  }

  lemma ReversedInside(S: set<OTclClass>, cl: OTclClass)
    requires Valid(S) && cl in S
    ensures forall c :: c in Reverse<OTclClass>(cl.super) ==> c in S
    ensures Snapshot(S).sup[cl] == cl.super
  {
    forall c | c in Reverse<OTclClass>(cl.super)
      ensures c in S
    {
      ReverseMember<OTclClass>(cl.super, c);
      assert c in Snapshot(S).sup[cl];
    }
  }

  /** `info superclass ?class?`. */
  method AskSuperclass(cl: OTclClass, isc: OTclClass, ghost S: set<OTclClass>) returns (r: bool)
    requires Valid(S) && cl in S
    modifies S`color, cl`order
    ensures Answer(Snapshot(S), r) == InfoSuperclass<OTclClass>(old(Snapshot(S)), cl, isc)
    ensures Valid(S)
    ensures old(Inv<OTclClass>(Snapshot(S))) ==> Inv<OTclClass>(Snapshot(S))
  {
    hide WellFormed, Compute, Inv;
    if Inv<OTclClass>(Snapshot(S)) {
      OnObjects(Snapshot(S), ClassRuns.AskSuperclass(cl, isc));
    }
    var pl := ComputeOrder(cl, Super, S);
    assert Snapshot(S).order[cl] == pl;
    r := Contains(pl, isc);
  }

  /** `info subclass ?class?`, which saves and restores the slot it borrows. */
  method AskSubclass(cl: OTclClass, isc: OTclClass, ghost S: set<OTclClass>) returns (r: bool)
    requires Valid(S) && cl in S
    modifies S`color, cl`order
    ensures Answer(Snapshot(S), r) == InfoSubclass<OTclClass>(old(Snapshot(S)), cl, isc)
    ensures Valid(S)
    ensures old(Inv<OTclClass>(Snapshot(S))) ==> Inv<OTclClass>(Snapshot(S))
  {
    hide WellFormed, Compute, Inv;
    if Inv<OTclClass>(Snapshot(S)) {
      OnObjects(Snapshot(S), ClassRuns.AskSubclass(cl, isc));
    }
    var saved := cl.order;
    SetOrder(cl, [], S);
    var pl := ComputeOrder(cl, Sub, S);
    assert Snapshot(S).order[cl] == pl;
    r := Contains(pl, isc);
    SetOrder(cl, saved, S);
  }

  /** PrimitiveCInit. */
  method NewClass(parent: Option<OTclClass>, ghost S: set<OTclClass>) returns (cl: OTclClass)
    requires Valid(S) && (parent.Some? ==> parent.value in S)
    modifies S`sub
    ensures fresh(cl)
    ensures Snapshot(S + {cl}) == Create<OTclClass>(old(Snapshot(S)), cl, parent)
    ensures Valid(S + {cl})
    ensures old(Inv<OTclClass>(Snapshot(S))) ==> Inv<OTclClass>(Snapshot(S + {cl}))
  {
    hide Inv;
    cl := new OTclClass();
    BareClass(S, cl);
    if Inv<OTclClass>(Snapshot(S)) {
      OnObjects(Snapshot(S), ClassRuns.NewClass(cl, parent));
    }
    if parent.Some? {
      LinkSuper(cl, parent.value, S + {cl});
    }
  }

  lemma BareClass(S: set<OTclClass>, cl: OTclClass)
    requires Valid(S) && cl !in S && cl.super == [] && cl.sub == [] && cl.order == [] && cl.color == WHITE
    ensures Snapshot(S + {cl}) == Create<OTclClass>(Snapshot(S), cl, None)
    ensures Valid(S + {cl})
  {
    var r := Create<OTclClass>(Snapshot(S), cl, None);
    hide Closed;
    assert Supers(S + {cl}) == r.sup;
    assert Subs(S + {cl}) == r.sub;
    assert Orders(S + {cl}) == r.order;
    assert Blacks(S + {cl}) == r.black;
  }

  /** The unlinking in PrimitiveCDestroy; afterwards the class is gone. */
  method DestroyClass(cl: OTclClass, ghost S: set<OTclClass>)
    requires Valid(S) && cl in S
    modifies S
    ensures Snapshot(S - {cl}) == Destroy<OTclClass>(old(Snapshot(S)), cl)
    ensures forall c :: c in S ==> c.color != GRAY
    ensures old(Inv<OTclClass>(Snapshot(S))) ==> Inv<OTclClass>(Snapshot(S - {cl}))
  {
    hide WellFormed, Flush, UnlinkSupers, UnlinkSubs, Inv;
    if Inv<OTclClass>(Snapshot(S)) {
      OnObjects(Snapshot(S), ClassRuns.DestroyClass(cl));
    }
    FlushPrecedences(cl, S);
    var _ := UnlinkAllSupers(cl, S);
    UnlinkAllSubs(cl, S);
    Shrunk(S, cl);
  }

  lemma Shrunk(S: set<OTclClass>, cl: OTclClass)
    requires cl in S
    ensures var st := Snapshot(S);
            Snapshot(S - {cl}) == Store(st.sup - {cl}, st.sub - {cl}, st.black - {cl}, st.order - {cl})
  {
    assert Supers(S - {cl}) == Supers(S) - {cl};
    assert Subs(S - {cl}) == Subs(S) - {cl};
    assert Orders(S - {cl}) == Orders(S) - {cl};
    assert Blacks(S - {cl}) == Blacks(S) - {cl};
  }
}
