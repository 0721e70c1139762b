/**
 What goes wrong after the one request that leaves colours behind: a class left
 BLACK is passed over by every later sort, so it is missing from the precedence
 lists of its own subclasses.
 */
module ClassSpoiled {
  import opened Digraph
  import opened ClassStore
  import opened ClassInvariant
  import opened ClassRuns

  lemma {:induction false} VisitSkips<C>(g: Graph<C>, c: C, stack: set<C>, skip: set<C>, done: seq<C>, x: C)
    requires Closed(g) && c in g && c !in stack && x in skip && x !in done && c != x
    ensures x !in Visit(g, c, stack, skip, done).done
    decreases g.Keys - stack, 0
  {
    VisitAllSkips(g, g[c], stack + {c}, skip, done, x);
  }

  lemma {:induction false} VisitAllSkips<C>(g: Graph<C>, cs: seq<C>, stack: set<C>, skip: set<C>, done: seq<C>, x: C)
    requires Closed(g) && (forall c :: c in cs ==> c in g) && x in skip && x !in done
    ensures x !in VisitAll(g, cs, stack, skip, done).done
    decreases g.Keys - stack, |cs|
  {
    if cs == [] || cs[0] in stack {
    } else if cs[0] in done || cs[0] in skip {
      VisitAllSkips(g, cs[1..], stack, skip, done, x);
    } else {
      VisitSkips(g, cs[0], stack, skip, done, x);
      var r := Visit(g, cs[0], stack, skip, done);
      if r.ok {
        VisitAllSkips(g, cs[1..], stack, skip, r.done, x);
      }
    }
  }

  /** A BLACK class is missing from every precedence list computed afterwards, although
      the computation succeeds. */
  lemma BlackIsOmitted<C>(st: Store<C>, d: C, x: C)
    requires WellFormed(st) && Acyclic(st.sup) && d in st.sup && x in st.black && d != x && st.order[d] == []
    ensures Compute(st, d, Super).order[d] != [] && x !in Compute(st, d, Super).order[d]
  {
    VisitSkips(st.sup, d, {}, st.black - {d}, [], x);
    if !Visit(st.sup, d, {}, st.black - {d}, []).ok {
      VisitFails(st.sup, d, {}, st.black - {d}, []);
    }
  }

  /** s stands after c in the request. */
  ghost predicate NamedAfter<C>(req: seq<C>, c: C, s: C) {
    exists i, j :: 0 <= i < j < |req| && req[i] == c && req[j] == s
  }

  /** s was named after c, and x is in its heritage. */
  ghost predicate InLaterHeritage<C>(g: Graph<C>, req: seq<C>, c: C, x: C) {
    exists s :: s in req && NamedAfter(req, c, s) && Reaches(g, s, x)
  }

  /** A successful visit of cs reports exactly what they reach. */
  lemma ReportedExactly<C>(g: Graph<C>, cs: seq<C>, stack: set<C>, x: C)
    requires Closed(g) && (forall c :: c in cs ==> c in g) && VisitAll(g, cs, stack, {}, []).ok
    ensures x in VisitAll(g, cs, stack, {}, []).done <==> exists s :: s in cs && Reaches(g, s, x)
  {
    var d := VisitAll(g, cs, stack, {}, []).done;
    VisitAllSound(g, cs, stack, []);
    if x in d {
      var s := VisitAllAdds(g, cs, stack, [], x);
    }
    if s :| s in cs && Reaches(g, s, x) {
      OrderedHoldsReachable(g, d, s, x);
    }
  }

  /** In the list that the request makes, the entries before c are those named after c. */
  lemma BeforeSelfIsAfter<C>(h: Graph<C>, c: C, req: seq<C>, s: C)
    requires Closed(h) && c in h && h[c] == Reverse(req) && NoDup(req) && c in req && c in h[c]
    ensures s in BeforeSelf(h, c) <==> NamedAfter(req, c, s)
  {
    var b, n := BeforeSelf(h, c), |req|;
    var k := |b|;
    assert h[c][k] == c && b == h[c][..k] by {
      assert b == h[c][..First(h[c], c)];
    }
    ReverseAt(req, k);
    NoDupIndices(req);
    if s in b {
      var i :| 0 <= i < k && b[i] == s;
      ReverseAt(req, i);
      assert req[n - 1 - k] == c && req[n - 1 - i] == s;
    }
    if i, j :| 0 <= i < j < n && req[i] == c && req[j] == s {
      ReverseAt(req, n - 1 - j);
      assert h[c][n - 1 - j] == s && i == n - 1 - k;
      assert b[n - 1 - j] == s;
    }
  }

  /** Reachability from a class that does not reach c is the same in both graphs. */
  lemma SameReach<C>(g: Graph<C>, h: Graph<C>, c: C, s: C, x: C)
    requires SameButAt(g, h, c) && !Reaches(g, s, c)
    ensures Reaches(g, s, x) <==> Reaches(h, s, x)
  {
    ReachesChanged(g, h, c, s);
    if Reaches(h, s, x) {
      var n: nat :| Steps(h, n, s, x);
      Detour(g, h, c, n, s, x);
    }
    if Reaches(g, s, x) {
      var n: nat :| Steps(g, n, s, x);
      Detour(h, g, c, n, s, x);
    }
  }

  lemma LaterDoesNotReach<C>(g: Graph<C>, c: C, req: seq<C>, s: C)
    requires !OutOfOrder(g, req) && NamedAfter(req, c, s)
    ensures !Reaches(g, s, c)
  {
  }

  /** The sort of the graph that a spoiling request makes leaves BLACK exactly the
      heritage of the classes named after c. */
  lemma SortLeavesHeritage<C>(g: Graph<C>, c: C, req: seq<C>, x: C)
    requires Closed(g) && Acyclic(g) && c in g && (forall s :: s in req ==> s in g) && SelfInside(g, c, req)
    ensures Closed(g[c := Reverse(req)])
    ensures x in TopoSort(g[c := Reverse(req)], {}, c).black <==> InLaterHeritage(g, req, c, x)
  {
    hide GivesUpAtSelf, TopoSort, VisitAll, Acyclic, OutOfOrder;
    var h := g[c := Reverse(req)];
    SelfInsideGivesUp(g, c, req);
    ReverseMembers(req);
    InOrderHasNoDup(g, req);
    SelfEntry(h, c);
    var b := BeforeSelf(h, c);
    SelfLeavesBlack(h, c);
    ReportedExactly(h, b, {c}, x);
    if s :| s in b && Reaches(h, s, x) {
      BeforeSelfIsAfter(h, c, req, s);
      LaterDoesNotReach(g, c, req, s);
      SameReach(g, h, c, s, x);
    }
    if s :| s in req && NamedAfter(req, c, s) && Reaches(g, s, x) {
      BeforeSelfIsAfter(h, c, req, s);
      LaterDoesNotReach(g, c, req, s);
      SameReach(g, h, c, s, x);
    }
  }

  lemma SelfEntry<C>(h: Graph<C>, c: C)
    requires Closed(h) && c in h && GivesUpAtSelf(h, c, {})
    ensures c in h[c] && VisitAll(h, BeforeSelf(h, c), {c}, {}, []).ok
  {
  }

  /** After a spoiling request exactly the classes named after c, and everything they
      inherit from, are left BLACK; and there are some. */
  lemma SpoiledExactly<C>(st: Store<C>, c: C, req: seq<C>)
    requires Inv(st) && c in st.sup && Live(st, req) && SelfInside(st.sup, c, req)
    ensures forall x :: x in SuperClass(st, c, req).st.black <==> InLaterHeritage(st.sup, req, c, x)
    ensures req[|req| - 1] in SuperClass(st, c, req).st.black
  {
    hide Relink, Check, TopoSort, Inv;
    InvParts(st);
    var k := Check(st, req, 0);
    CheckExact(st, req);
    InOrderHasNoDup(st.sup, req);
    ReachesSelf(st.sup, c);
    InvParts(k.st);
    RelinkRefused(k.st, c, req);
    forall x
      ensures x in SuperClass(st, c, req).st.black <==> InLaterHeritage(st.sup, req, c, x)
    {
      SortLeavesHeritage(st.sup, c, req, x);
    }
    LastIsAfter(req, c);
    ReachesSelf(st.sup, req[|req| - 1]);
  }

  lemma InvParts<C>(st: Store<C>)
    requires Inv(st)
    ensures WellFormed(st) && Closed(st.sup) && Acyclic(st.sup)
  {
  }

  lemma LastIsAfter<C>(req: seq<C>, c: C)
    requires c in req && req[|req| - 1] != c
    ensures NamedAfter(req, c, req[|req| - 1])
  {
    var i :| 0 <= i < |req| && req[i] == c;
  }

  /** Every class that has such a class x in its heritage, and no list cached, computes
      its precedence list without x. */
  lemma SpoiledStoreMisleads<C>(st: Store<C>, c: C, req: seq<C>, x: C, d: C)
    requires Inv(st) && c in st.sup && Live(st, req) && SelfInside(st.sup, c, req)
    requires InLaterHeritage(st.sup, req, c, x)
    requires d in st.sup && d != x && Reaches(st.sup, d, x)
    requires d in SuperClass(st, c, req).st.order && SuperClass(st, c, req).st.order[d] == []
    ensures SuperClass(st, c, req).st.sup == st.sup
    ensures var list := Compute(SuperClass(st, c, req).st, d, Super).order[d];
            list != [] && x !in list && x in Linearise(st.sup, d).done
  {
    hide SuperClass, Compute;
    SuperClassTransaction(st, c, req);
    assert c in req;
    ReachesSelf(st.sup, c);
    SpoiledExactly(st, c, req);
    BlackIsOmitted(SuperClass(st, c, req).st, d, x);
    AcyclicLinearises(st.sup, d);
    LineariseCorrect(st.sup, d);
  }

  // ---------------------------------------------------------------------
  // Two classes
  // ---------------------------------------------------------------------

  const UNRELATED: Graph<int> := map[1 := [], 2 := []]

  /** Two unrelated classes 1 and 2, nothing cached. */
  ghost function TwoClasses(): (st: Store<int>)
    ensures Inv(st) && st.sup == st.sub == UNRELATED
  {
    var st := Store(UNRELATED, UNRELATED, {}, UNRELATED);
    assert Acyclic(st.sup) by {
      forall c | c in st.sup ensures !OnCycle(st.sup, c) {
      }
    }
    st
  }

  lemma OnlyItself(g: Graph<int>, a: int, b: int)
    requires a in g && g[a] == []
    ensures Reaches(g, a, b) <==> a == b
  {
    ReachesSelf(g, a);
  }

  lemma OneInside()
    ensures SelfInside(UNRELATED, 1, [1, 2])
    ensures Verdict(UNRELATED, 1, [1, 2]) == WouldBeCyclic
  {
    OnlyItself(UNRELATED, 2, 1);
    assert !OutOfOrder(UNRELATED, [1, 2]);
    ReachesSelf(UNRELATED, 1);
    assert 1 in [1, 2];
  }

  lemma HeritageOfTwo(x: int)
    ensures InLaterHeritage(UNRELATED, [1, 2], 1, x) <==> x == 2
  {
    hide Reaches;
    OnlyItself(UNRELATED, 2, x);
    LastIsAfter([1, 2], 1);
    assert 2 in [1, 2];
    if s :| s in [1, 2] && NamedAfter([1, 2], 1, s) && Reaches(UNRELATED, s, x) {
      assert s == 2;
    }
  }

  lemma NoEdges(g: Graph<int>)
    requires SameMembers(g, UNRELATED)
    ensures g == UNRELATED
  {
    forall x | x in g
      ensures g[x] == []
    {
      SomeMember(g[x]);
    }
  }

  lemma SomeMember(l: seq<int>)
    ensures l == [] || exists y :: y in l
  {
    if l != [] {
      var y := l[0];
      assert y in l;
    }
  }

  /** `1 superclass {1 2}` is refused, as it should be, but leaves 2 BLACK. */
  lemma FirstRequest()
    ensures Live(TwoClasses(), [1, 2])
    ensures var r := SuperClass(TwoClasses(), 1, [1, 2]);
            r.result == WouldBeCyclic && r.st.black == {2} && r.st.sup == r.st.sub == UNRELATED
  {
    hide SuperClass, Inv, TwoClasses, SelfInside, Verdict, InLaterHeritage, SameMembers, Linked, Acyclic, Coherent, NamedAfter;
    var st := TwoClasses();
    InvParts(st);
    var r := SuperClass(st, 1, [1, 2]);
    OneInside();
    SuperClassTransaction(st, 1, [1, 2]);
    SpoiledExactly(st, 1, [1, 2]);
    forall x
      ensures x in r.st.black <==> x == 2
    {
      HeritageOfTwo(x);
    }
    NoEdges(r.st.sub);
  }

  /** With 2 BLACK, linking 1 below 2 and sorting. */
  lemma SortPassesOver(st: Store<int>)
    requires WellFormed(st) && st.black == {2} && st.sup == map[1 := [2], 2 := []] && st.sub == map[1 := [], 2 := [1]]
    ensures Flush(st, 1).black == {2} && Flush(st, 1).order[1] == []
    ensures TopoSort(st.sup, {2}, 1) == Sorted(true, [1], {2})
  {
    var none: set<int> := {};
    assert {2} - {1} == {2} && none + {1} == {1};
    assert VisitAll(st.sub, [], {1}, {2}, []) == Visited(true, []);
    assert VisitAll(st.sup, [2], {1}, {2}, []) == VisitAll(st.sup, [], {1}, {2}, []);
    assert TopoSort(st.sub, {2}, 1) == Sorted(true, [1], {2});
  }

  lemma LinkOne(st: Store<int>)
    requires WellFormed(st) && st.sup == st.sub == UNRELATED
    ensures Live(st, [2])
    ensures AddSupers(UnlinkSupers(st, 1), 1, [2]).sup == map[1 := [2], 2 := []]
    ensures AddSupers(UnlinkSupers(st, 1), 1, [2]).sub == map[1 := [], 2 := [1]]
  {
    var u := UnlinkSupers(st, 1);
    assert u == st;
    assert [2][1..] == [];
    assert AddSupers(st, 1, [2]) == AddSuper(st, 1, 2);
    assert Prepend([], 2) == [2] && Prepend([], 1) == [1];
    assert UNRELATED[1 := [2]] == map[1 := [2], 2 := []];
    assert UNRELATED[2 := [1]] == map[1 := [], 2 := [1]];
  }

  lemma SecondRequest(st: Store<int>)
    requires WellFormed(st) && st.black == {2} && st.sup == st.sub == UNRELATED
    ensures Live(st, [2])
    ensures var r := SuperClass(st, 1, [2]);
            r.result == Accepted && r.st.sup == map[1 := [2], 2 := []] && 1 in r.st.order && r.st.order[1] == [1]
  {
    hide Flush, Compute, TopoSort, Reverse, WellFormed, AddSupers, UnlinkSupers, Closed;
    LinkOne(st);
    assert CheckAgainst(st, [2], 0, 1, false) == Checked(st, false);
    assert Check(st, [2], 0) == Checked(st, false);
    var l := AddSupers(UnlinkSupers(st, 1), 1, [2]);
    SortPassesOver(l);
    ComputeByHand(Flush(l, 1));
    SlotsExist(Compute(Flush(l, 1), 1, Super));
  }

  lemma SlotsExist(st: Store<int>)
    requires WellFormed(st)
    ensures st.order.Keys == st.sup.Keys
  {
  }

  lemma ComputeByHand(st: Store<int>)
    requires WellFormed(st) && 1 in st.sup && st.order[1] == [] && TopoSort(st.sup, st.black, 1) == Sorted(true, [1], {2})
    ensures Compute(st, 1, Super).order[1] == [1]
  {
  }

  /** A later `1 superclass 2` is then accepted, with a precedence list of 1 that lacks
      its only superclass. */
  lemma SpoiledExample()
    ensures Live(TwoClasses(), [1, 2])
    ensures var first := SuperClass(TwoClasses(), 1, [1, 2]);
            first.result == WouldBeCyclic && 1 in first.st.sup && Live(first.st, [2])
            && var second := SuperClass(first.st, 1, [2]);
               second.result == Accepted && second.st.sup == map[1 := [2], 2 := []]
               && 1 in second.st.order && second.st.order[1] == [1]
  {
    hide SuperClass, Inv, TwoClasses, WellFormed;
    FirstRequest();
    InvParts(TwoClasses());
    SecondRequest(SuperClass(TwoClasses(), 1, [1, 2]).st);
  }
}
