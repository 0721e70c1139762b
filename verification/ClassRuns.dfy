/**
 The operations of the class graph keep the invariant, say exactly what they
 decide, and so does every run of them.
 */
module ClassRuns {
  import opened Prelude
  import opened Digraph
  import opened ClassStore
  import opened ClassInvariant

  // ---------------------------------------------------------------------
  // The dependence check
  // ---------------------------------------------------------------------

  /** Some class of the request stands before one of its own descendants. */
  ghost predicate OutOfOrder<C>(g: Graph<C>, req: seq<C>) {
    exists i, j :: 0 <= i < j < |req| && Reaches(g, req[j], req[i])
  }

  ghost predicate SomeReaches<C>(g: Graph<C>, req: seq<C>, j: nat, target: C)
    decreases |req| - j
  {
    j < |req| && (Reaches(g, req[j], target) || SomeReaches(g, req, j + 1, target))
  }

  ghost predicate OutOfOrderFrom<C>(g: Graph<C>, req: seq<C>, i: nat)
    decreases |req| - i
  {
    i < |req| && (SomeReaches(g, req, i + 1, req[i]) || OutOfOrderFrom(g, req, i + 1))
  }

  lemma {:induction false} SomeReachesIndices<C>(g: Graph<C>, req: seq<C>, j: nat, target: C)
    ensures SomeReaches(g, req, j, target) <==> exists k :: j <= k < |req| && Reaches(g, req[k], target)
    decreases |req| - j
  {
    if j < |req| {
      SomeReachesIndices(g, req, j + 1, target);
    }
  }

  lemma {:induction false} OutOfOrderIndices<C>(g: Graph<C>, req: seq<C>, i: nat)
    ensures OutOfOrderFrom(g, req, i) <==> exists a, b :: i <= a < b < |req| && Reaches(g, req[b], req[a])
    decreases |req| - i
  {
    if i < |req| {
      SomeReachesIndices(g, req, i + 1, req[i]);
      OutOfOrderIndices(g, req, i + 1);
    }
  }

  lemma {:induction false} CheckAgainstExact<C>(st: Store<C>, req: seq<C>, i: nat, j: nat, reversed: bool)
    requires Inv(st) && Live(st, req) && i < |req|
    ensures Inv(CheckAgainst(st, req, i, j, reversed).st)
    ensures CheckAgainst(st, req, i, j, reversed).reversed <==> reversed || SomeReaches(st.sup, req, j, req[i])
    decreases |req| - j
  {
    hide Mirror, NoDups, Closed, Linearise, Compute;
    if j < |req| {
      assert req[j] in req;
      ComputeKeepsInv(st, req[j]);
      LineariseCorrect(st.sup, req[j]);
      if !reversed {
        CheckAgainstExact(Compute(st, req[j], Super), req, i, j + 1, Reaches(st.sup, req[j], req[i]));
      }
    }
  }

  lemma {:induction false} CheckFromExact<C>(st: Store<C>, req: seq<C>, i: nat)
    requires Inv(st) && Live(st, req)
    ensures Inv(Check(st, req, i).st)
    ensures Check(st, req, i).reversed <==> OutOfOrderFrom(st.sup, req, i)
    decreases |req| - i
  {
    if i < |req| {
      CheckAgainstExact(st, req, i, i + 1, false);
      var k := CheckAgainst(st, req, i, i + 1, false);
      if !k.reversed {
        CheckFromExact(k.st, req, i + 1);
      }
    }
  }

  /** The check refuses exactly the requests that list a class before one of its descendants. */
  lemma CheckExact<C>(st: Store<C>, req: seq<C>)
    requires Inv(st) && Live(st, req)
    ensures Inv(Check(st, req, 0).st)
    ensures Check(st, req, 0).reversed <==> OutOfOrder(st.sup, req)
  {
    CheckFromExact(st, req, 0);
    OutOfOrderIndices(st.sup, req, 0);
  }

  lemma InOrderHasNoDup<C>(g: Graph<C>, req: seq<C>)
    requires !OutOfOrder(g, req)
    ensures NoDup(req)
  {
    NoDupIndices(req);
    forall i, j | 0 <= i < j < |req|
      ensures req[i] != req[j]
    {
      ReachesSelf(g, req[j]);
    }
  }

  // ---------------------------------------------------------------------
  // Relinking
  // ---------------------------------------------------------------------

  function Relinked<C(==)>(st: Store<C>, c: C, req: seq<C>): (r: Store<C>)
    requires WellFormed(st) && c in st.sup && Live(st, req)
    ensures WellFormed(r) && r.sup.Keys == st.sup.Keys
  {
    AddSupers(UnlinkSupers(st, c), c, req)
  }

  /** Unlinking everything above c and linking a duplicate-free list instead. */
  lemma LinksReplaced<C>(st: Store<C>, c: C, req: seq<C>)
    requires Linked(st) && c in st.sup && Live(st, req) && NoDup(req)
    ensures Linked(Relinked(st, c, req))
    ensures Relinked(st, c, req).sup == st.sup[c := Reverse(req)]
    ensures Relinked(st, c, req).sub == InFront(Without(st.sub, c), c, req)
    ensures Relinked(st, c, req).order == st.order && Relinked(st, c, req).black == st.black
  {
    hide Mirror, NoDups, Closed, UnlinkSupers, AddSupers, Without, InFront, Reverse;
    UnlinkSupersExact(st, c);
    var u := UnlinkSupers(st, c);
    assert u.sup[c] == [];
    AddSupersExact(u, c, req);
    assert Reverse(req) + [] == Reverse(req);
  }

  lemma SelfLinkIsFirst<C>(st: Store<C>, c: C, req: seq<C>)
    requires Linked(st) && c in st.sup
    ensures var h := InFront(Without(st.sub, c), c, req);
            c in h[c] ==> h[c][0] == c
  {
    DropNoDup(st.sub[c], c);
  }

  lemma {:induction false} NoDupReverse<C>(l: seq<C>)
    requires NoDup(l)
    ensures NoDup(Reverse(l))
  {
    NoDupIndices(l);
    NoDupIndices(Reverse(l));
    forall i, j | 0 <= i < j < |l|
      ensures Reverse(l)[i] != Reverse(l)[j]
    {
      ReverseAt(l, i);
      ReverseAt(l, j);
    }
  }

  /** Cached lists of classes that do not reach c survive a change above c. */
  lemma CoherentOffC<C>(g: Graph<C>, h: Graph<C>, c: C, x: C)
    requires Closed(g) && Closed(h) && SameButAt(g, h, c) && x in g && !Reaches(h, x, c)
    ensures Linearise(g, x) == Linearise(h, x)
  {
    ReachesChanged(g, h, c, x);
    LineariseCongruent(g, h, x);
  }

  lemma RelinkAccepted<C>(st: Store<C>, c: C, req: seq<C>)
    requires Inv(st) && c in st.sup && Live(st, req) && NoDup(req)
    requires forall s :: s in req ==> !Reaches(st.sup, s, c)
    ensures var r := Relink(st, c, req);
            && r.result == Accepted
            && Inv(r.st)
            && r.st.sup == st.sup[c := Reverse(req)]
            && r.st.sub == InFront(Without(st.sub, c), c, req)
            && Visited(true, r.st.order[c]) == Linearise(r.st.sup, c)
  {
    var l := Relinked(st, c, req);
    LinksReplaced(st, c, req);
    ReverseMembers(req);
    ReplacedAcyclic(st.sup, l.sup, c);
    FlushAcyclic(l, c);
    var f := Flush(l, c);
    forall x | x in f.sup && f.order[x] != []
      ensures Linearise(f.sup, x) == Visited(true, f.order[x])
    {
      CoherentOffC(st.sup, l.sup, c, x);
    }
    ComputeKeepsInv(f, c);
  }

  /** A cyclic relinking is noticed, and touches no slot but that of c. */
  lemma CyclicSorted<C>(st: Store<C>, l: Store<C>, c: C)
    requires Linked(st) && Acyclic(st.sup) && st.black == {} && c in st.sup
    requires Linked(l) && SameButAt(st.sup, l.sup, c) && l.order == st.order && l.black == {}
    requires c in l.sub[c] ==> l.sub[c][0] == c
    requires exists s :: s in l.sup[c] && Reaches(st.sup, s, c)
    ensures Compute(Flush(l, c), c, Super).order == st.order[c := []]
    ensures Compute(Flush(l, c), c, Super).black == TopoSort(l.sup, {}, c).black
    ensures Compute(Flush(l, c), c, Super).black != {}
       <==> c in l.sup[c] && l.sup[c][0] != c && GivesUpAtSelf(l.sup, c, {})
  {
    ReplacedAcyclic(st.sup, l.sup, c);
    FlushCyclic(l, c);
    var f := Flush(l, c);
    ReachesSelf(f.sup, c);
    LineariseCorrect(f.sup, c);
    SortFromClean(f.sup, c);
    OverwrittenTwice(st.order, c, []);
  }

  lemma LinkedSame<C>(l: Store<C>, k: Store<C>)
    requires Linked(l) && WellFormed(k) && k.sup == l.sup && k.sub == l.sub
    ensures Linked(k)
  {
  }

  lemma CoherentSame<C>(st: Store<C>, r: Store<C>, c: C)
    requires WellFormed(st) && Coherent(st) && c in st.sup
    requires WellFormed(r) && r.sup == st.sup && r.order == st.order[c := []]
    ensures Coherent(r)
  {
    hide Closed;
    forall x | x in r.sup && r.order[x] != []
      ensures Linearise(r.sup, x) == Visited(true, r.order[x])
    {
      assert r.order[x] == st.order[x];
    }
  }

  /** A refused request puts every superclass list back in its old order, and every
      subclass list back with c moved to the front. */
  lemma RelinkRefused<C>(st: Store<C>, c: C, req: seq<C>)
    requires Inv(st) && c in st.sup && Live(st, req) && NoDup(req)
    requires exists s :: s in req && Reaches(st.sup, s, c)
    ensures Relink(st, c, req).result == WouldBeCyclic
    ensures Linked(Relink(st, c, req).st) && Coherent(Relink(st, c, req).st)
    ensures Relink(st, c, req).st.sup == st.sup
    ensures Relink(st, c, req).st.sub == InFront(Without(st.sub, c), c, st.sup[c])
    ensures Closed(st.sup[c := Reverse(req)])
    ensures Relink(st, c, req).st.black == TopoSort(st.sup[c := Reverse(req)], {}, c).black
    ensures Relink(st, c, req).st.black != {}
       <==> c in Reverse(req) && Reverse(req)[0] != c && GivesUpAtSelf(st.sup[c := Reverse(req)], c, {})
  {
    hide Mirror, NoDups, Acyclic, UnlinkSupers, AddSupers, Without, InFront, Reverse, NoDup, GivesUpAtSelf, Flush, Compute, TopoSort;
    ReverseMembers(st.sup[c]);
    assert Live(st, Reverse(st.sup[c]));
    var l := Relinked(st, c, req);
    LinksReplaced(st, c, req);
    SelfLinkIsFirst(st, c, req);
    ReverseMembers(req);
    CyclicSorted(st, l, c);
    var k := Compute(Flush(l, c), c, Super);
    LinkedSame(l, k);
    RollBack(st, k, c, req);
    CoherentSame(st, Relinked(k, c, Reverse(st.sup[c])), c);
  }

  lemma RollBack<C>(st: Store<C>, k: Store<C>, c: C, req: seq<C>)
    requires Linked(st) && Linked(k) && c in st.sup && NoDup(req)
    requires k.sup == st.sup[c := Reverse(req)]
    requires k.sub == InFront(Without(st.sub, c), c, req)
    requires Live(k, Reverse(st.sup[c]))
    ensures Linked(Relinked(k, c, Reverse(st.sup[c])))
    ensures Relinked(k, c, Reverse(st.sup[c])).sup == st.sup
    ensures Relinked(k, c, Reverse(st.sup[c])).sub == InFront(Without(st.sub, c), c, st.sup[c])
    ensures Relinked(k, c, Reverse(st.sup[c])).order == k.order
    ensures Relinked(k, c, Reverse(st.sup[c])).black == k.black
  {
    hide Mirror, Closed, Relinked, UnlinkSupers, AddSupers, Without, InFront, Reverse;
    var osl := Reverse(st.sup[c]);
    NoDupReverse(st.sup[c]);
    LinksReplaced(k, c, osl);
    ReverseReverse(st.sup[c]);
    assert k.sup[c := st.sup[c]] == st.sup;
    WithoutInFront(st.sub, c, req);
    ReverseMembers(st.sup[c]);
    InFrontSame(Without(st.sub, c), c, osl, st.sup[c]);
  }

  lemma WithoutInFront<C>(g: Graph<C>, c: C, req: seq<C>)
    requires NoDups(g)
    ensures Without(InFront(Without(g, c), c, req), c) == Without(g, c)
  {
    forall x | x in g
      ensures Drop(InFront(Without(g, c), c, req)[x], c) == Drop(g[x], c)
    {
      DropNoDup(g[x], c);
      DropMembers(Drop(g[x], c), c);
    }
  }

  lemma InFrontSame<C>(g: Graph<C>, c: C, a: seq<C>, b: seq<C>)
    requires forall x :: x in a <==> x in b
    ensures InFront(g, c, a) == InFront(g, c, b)
  {
  }

  // ---------------------------------------------------------------------
  // The superclass method
  // ---------------------------------------------------------------------

  /** Outcome of `superclass req` on c, read off the old superclass graph alone. */
  ghost function Verdict<C>(g: Graph<C>, c: C, req: seq<C>): Outcome {
    if OutOfOrder(g, req) then NotInDependenceOrder
    else if exists s :: s in req && Reaches(g, s, c) then WouldBeCyclic
    else Accepted
  }

  /** The request names the class itself, somewhere but last, and is in order. */
  ghost predicate SelfInside<C>(g: Graph<C>, c: C, req: seq<C>) {
    !OutOfOrder(g, req) && c in req && req[|req| - 1] != c
  }

  /** A class named after c in an orderly request cannot reach c, so the sort of c
      reports it and then gives up. */
  lemma SelfInsideGivesUp<C>(g: Graph<C>, c: C, req: seq<C>)
    requires Closed(g) && Acyclic(g) && c in g && (forall s :: s in req ==> s in g) && SelfInside(g, c, req)
    ensures Closed(g[c := Reverse(req)]) && GivesUpAtSelf(g[c := Reverse(req)], c, {})
  {
    var h := g[c := Reverse(req)];
    ReverseMembers(req);
    InOrderHasNoDup(g, req);
    var later := BeforeSelf(h, c);
    var k := |later|;
    forall s | s in later
      ensures !Reaches(g, s, c)
    {
      var i: nat :| i < k && later[i] == s;
      ReverseAt(req, i);
      var m: nat :| m < |req| && Reverse(req)[m] == c;
      ReverseAt(req, m);
      assert h[c][..k] == later;
      assert !OutOfOrder(g, req);
    }
    var p := g[c := later];
    ReplacedAcyclic(g, p, c);
    AcyclicLinearises(p, c);
    assert {} + {c} == {c};
    assert VisitAll(p, later, {c}, {}, []).ok;
    forall s | s in later
      ensures AgreeBelow(p, h, s)
    {
      ReachesChanged(g, p, c, s);
      ReachesChanged(p, h, c, s);
    }
    VisitAllCongruent(p, h, later, {c}, []);
  }

  /** The whole transaction. */
  lemma SuperClassTransaction<C>(st: Store<C>, c: C, req: seq<C>)
    requires Inv(st) && c in st.sup && Live(st, req)
    ensures var r := SuperClass(st, c, req);
            && r.result == Verdict(st.sup, c, req)
            && Linked(r.st) && Acyclic(r.st.sup) && Coherent(r.st)
            && (r.st.black != {} <==> SelfInside(st.sup, c, req))
            && (r.result.Accepted? ==>
                  && r.st.sup == st.sup[c := Reverse(req)]
                  && r.st.order[c] == Linearise(r.st.sup, c).done
                  && forall i, j :: 0 <= i < j < |req| ==> Before(r.st.order[c], req[i], req[j]))
            && (!r.result.Accepted? ==>
                  && r.st.sup == st.sup
                  && SameMembers(r.st.sub, st.sub))
  {
    CheckExact(st, req);
    var k := Check(st, req, 0);
    var r := SuperClass(st, c, req);
    if !k.reversed {
      InOrderHasNoDup(st.sup, req);
      if exists s :: s in req && Reaches(st.sup, s, c) {
        RelinkRefused(k.st, c, req);
        MovedToFront(k.st, c);
        SelfInsideDecides(st.sup, c, req);
      } else {
        RelinkAccepted(k.st, c, req);
        if c in req {
          ReachesSelf(st.sup, c);
        }
        LocalPrecedence(st.sup, r.st.sup, c, req);
      }
    }
  }

  lemma SelfInsideDecides<C>(g: Graph<C>, c: C, req: seq<C>)
    requires Closed(g) && Closed(g[c := Reverse(req)]) && Acyclic(g) && c in g && !OutOfOrder(g, req)
    requires forall s :: s in req ==> s in g
    ensures SelfInside(g, c, req)
       <==> c in Reverse(req) && Reverse(req)[0] != c && GivesUpAtSelf(g[c := Reverse(req)], c, {})
  {
    hide GivesUpAtSelf, OutOfOrder, Closed, Acyclic, Reverse;
    ReverseMembers(req);
    if req != [] {
      ReverseAt(req, 0);
    }
    if SelfInside(g, c, req) {
      SelfInsideGivesUp(g, c, req);
    }
  }

  /** The two graphs have the same edges, perhaps listed in another order. */
  ghost predicate SameMembers<C>(g: Graph<C>, h: Graph<C>) {
    && g.Keys == h.Keys
    && (forall x, y {:trigger y in g[x]} :: x in g && y in g[x] ==> y in h[x])
    && (forall x, y {:trigger y in h[x]} :: x in g && y in h[x] ==> y in g[x])
  }

  lemma MovedToFront<C>(st: Store<C>, c: C)
    requires Linked(st) && c in st.sup
    ensures SameMembers(InFront(Without(st.sub, c), c, st.sup[c]), st.sub)
  {
    var g := InFront(Without(st.sub, c), c, st.sup[c]);
    forall x, y {:trigger y in g[x]} | x in g && y in g[x]
      ensures y in st.sub[x]
    {
      DropMembers(st.sub[x], c);
    }
    forall x, y {:trigger y in st.sub[x]} | x in g && y in st.sub[x]
      ensures y in g[x]
    {
      DropMembers(st.sub[x], c);
      if y == c {
        assert x in st.sup[c];
      }
    }
  }

  lemma {:induction false} NoForwardReachIndices<C>(g: Graph<C>, cs: seq<C>)
    requires forall i, j :: 0 <= i < j < |cs| ==> !Reaches(g, cs[i], cs[j])
    ensures NoForwardReach(g, cs)
  {
    if cs != [] {
      var rest := cs[1..];
      forall i, j | 0 <= i < j < |rest|
        ensures !Reaches(g, rest[i], rest[j])
      {
        assert rest[i] == cs[i + 1] && rest[j] == cs[j + 1];
      }
      NoForwardReachIndices(g, rest);
    }
  }

  lemma {:induction false} ReversedInAt<C>(d: seq<C>, cs: seq<C>, i: nat, j: nat)
    requires ReversedIn(d, cs) && i < j < |cs|
    ensures Before(d, cs[j], cs[i])
  {
    assert cs[j] == cs[1..][j - 1];
    if i > 0 {
      ReversedInAt(d, cs[1..], i - 1, j - 1);
    }
  }

  lemma ReversedInReverse<C>(d: seq<C>, req: seq<C>)
    requires ReversedIn(d, Reverse(req))
    ensures forall i, j :: 0 <= i < j < |req| ==> Before(d, req[i], req[j])
  {
    forall i, j | 0 <= i < j < |req|
      ensures Before(d, req[i], req[j])
    {
      ReverseAt(req, |req| - 1 - i);
      ReverseAt(req, |req| - 1 - j);
      ReversedInAt(d, Reverse(req), |req| - 1 - j, |req| - 1 - i);
    }
  }

  /** Local precedence order: the requested classes stand in the new precedence list
      in exactly the requested order. */
  lemma LocalPrecedence<C>(g: Graph<C>, h: Graph<C>, c: C, req: seq<C>)
    requires Closed(g) && Acyclic(g) && c in g && h == g[c := Reverse(req)] && Closed(h)
    requires Verdict(g, c, req) == Accepted
    ensures Linearise(h, c).ok
    ensures forall i, j :: 0 <= i < j < |req| ==> Before(Linearise(h, c).done, req[i], req[j])
  {
    ReverseMembers(req);
    InOrderHasNoDup(g, req);
    NoDupReverse(req);
    ReverseNoForwardReach(g, c, req);
    ReplacedAcyclic(g, h, c);
    AcyclicLinearises(h, c);
    SuccessorsReversed(h, c);
    ReversedInReverse(Linearise(h, c).done, req);
  }

  lemma ReverseNoForwardReach<C>(g: Graph<C>, c: C, req: seq<C>)
    requires Closed(g) && c in g && Verdict(g, c, req) == Accepted
    ensures NoForwardReach(g[c := Reverse(req)], Reverse(req))
  {
    var h := g[c := Reverse(req)];
    var r := Reverse(req);
    ReverseMembers(req);
    forall i, j | 0 <= i < j < |r|
      ensures !Reaches(h, r[i], r[j])
    {
      ReverseAt(req, i);
      ReverseAt(req, j);
      assert r[i] in req;
      assert !Reaches(g, r[i], c) && !Reaches(g, r[i], r[j]);
      if Reaches(h, r[i], r[j]) {
        var m: nat :| Steps(h, m, r[i], r[j]);
        Detour(g, h, c, m, r[i], r[j]);
      }
    }
    NoForwardReachIndices(h, r);
  }

  // ---------------------------------------------------------------------
  // Queries, creation and destruction
  // ---------------------------------------------------------------------

  lemma InfoSuperclassExact<C>(st: Store<C>, c: C, isc: C)
    requires Inv(st) && c in st.sup
    ensures Inv(InfoSuperclass(st, c, isc).st)
    ensures InfoSuperclass(st, c, isc).st.sup == st.sup
    ensures InfoSuperclass(st, c, isc).result <==> Reaches(st.sup, c, isc)
  {
    ComputeKeepsInv(st, c);
    LineariseCorrect(st.sup, c);
  }

  /** The slot borrowed for the downward sort comes back untouched, and the answer
      is whether isc inherits from c. */
  lemma InfoSubclassExact<C>(st: Store<C>, c: C, isc: C)
    requires Inv(st) && c in st.sup
    ensures InfoSubclass(st, c, isc).st == st
    ensures InfoSubclass(st, c, isc).result <==> Reaches(st.sup, isc, c)
  {
    hide Compute, Mirror, NoDups, Coherent;
    SubSorted(st, c);
    LineariseCorrect(st.sub, c);
    if Reaches(st.sup, isc, c) {
      ReachesFrom(st.sup, isc, c);
      ReachesMirror(st.sup, st.sub, isc, c);
    }
    if Reaches(st.sub, c, isc) {
      MirrorBack(st.sup, st.sub);
      ReachesMirror(st.sub, st.sup, c, isc);
    }
    assert st.order[c := []][c := Linearise(st.sub, c).done][c := st.order[c]] == st.order;
  }

  lemma ReachesFrom<C>(g: Graph<C>, a: C, b: C)
    requires b in g && Reaches(g, a, b)
    ensures a in g
  {
  }

  lemma MirrorBack<C>(g: Graph<C>, h: Graph<C>)
    requires Mirror(g, h)
    ensures Mirror(h, g)
  {
  }

  /** The downward sort through the borrowed slot. */
  lemma SubSorted<C>(st: Store<C>, c: C)
    requires Inv(st) && c in st.sup
    ensures Linearise(st.sub, c).ok
    ensures Compute(st.(order := st.order[c := []]), c, Sub)
         == st.(order := st.order[c := []][c := Linearise(st.sub, c).done])
  {
    hide Mirror, NoDups, Coherent;
    AcyclicMirror(st.sup, st.sub);
    AcyclicHasNoSelf(st.sub, c);
    SortFromClean(st.sub, c);
    AcyclicLinearises(st.sub, c);
  }

  lemma FreshUnreached<C>(g: Graph<C>, h: Graph<C>, c: C, x: C)
    requires Closed(g) && c !in g && x in g && forall y :: y in g ==> y in h && h[y] == g[y]
    ensures !Reaches(h, x, c) && AgreeBelow(g, h, x)
  {
    if Reaches(h, x, c) {
      var n: nat :| Steps(h, n, x, c);
      StepsStayIn(h, n, x, c, g.Keys);
    }
  }

  lemma CreateKeepsInv<C>(st: Store<C>, c: C, parent: Option<C>)
    requires Inv(st) && c !in st.sup && (parent.Some? ==> parent.value in st.sup)
    ensures Inv(Create(st, c, parent))
    ensures Create(st, c, parent).sup == st.sup[c := if parent.Some? then [parent.value] else []]
  {
    hide Create, Mirror, NoDups;
    CreateLinks(st, c, parent);
    var r := Create(st, c, parent);
    BareAcyclic(st.sup, c);
    FreshAcyclic(st.sup, st.sup[c := []], r.sup, c, parent);
    forall x | x in r.sup && r.order[x] != []
      ensures Linearise(r.sup, x) == Visited(true, r.order[x])
    {
      FreshUnreached(st.sup, r.sup, c, x);
      LineariseCongruent(st.sup, r.sup, x);
    }
  }

  lemma CreateLinks<C>(st: Store<C>, c: C, parent: Option<C>)
    requires Linked(st) && c !in st.sup && (parent.Some? ==> parent.value in st.sup)
    ensures Linked(Create(st, c, parent))
    ensures Create(st, c, parent).sup == st.sup[c := if parent.Some? then [parent.value] else []]
    ensures Create(st, c, parent).order == st.order[c := []] && Create(st, c, parent).black == st.black
  {
    hide Mirror, NoDups, Closed;
    BareLinked(st, c);
    var bare := Create(st, c, None);
    if parent.Some? {
      AddSuperLinked(bare, c, parent.value);
      assert [parent.value] + [] == [parent.value];
    }
  }

  lemma BareLinked<C>(st: Store<C>, c: C)
    requires Linked(st) && c !in st.sup
    ensures Linked(Create(st, c, None))
  {
    var r := Create(st, c, None);
    forall x, t {:trigger t in r.sup[x]} {:trigger x in r.sub[t]} | x in r.sup && t in r.sup
      ensures t in r.sup[x] <==> x in r.sub[t]
    {
    }
  }

  lemma BareAcyclic<C>(g: Graph<C>, c: C)
    requires Closed(g) && Acyclic(g) && c !in g
    ensures Acyclic(g[c := []])
  {
    var h := g[c := []];
    if x :| x in h && OnCycle(h, x) {
      var n: nat :| n > 0 && Steps(h, n, x, x);
      assert x != c;
      StepsUnchanged(g, h, n, x, x);
      assert OnCycle(g, x);
    }
  }

  lemma {:induction false} StepsUnchanged<C>(g: Graph<C>, h: Graph<C>, n: nat, a: C, b: C)
    requires Closed(g) && a in g && (forall x :: x in g ==> x in h && h[x] == g[x]) && Steps(h, n, a, b)
    ensures Steps(g, n, a, b)
  {
    if n > 0 {
      var m :| m in h[a] && Steps(h, n - 1, m, b);
      StepsUnchanged(g, h, n - 1, m, b);
    }
  }

  lemma FreshAcyclic<C>(g: Graph<C>, bare: Graph<C>, h: Graph<C>, c: C, parent: Option<C>)
    requires Closed(g) && c !in g && bare == g[c := []] && Acyclic(bare) && Closed(bare)
    requires parent.Some? ==> parent.value in g
    requires h == g[c := if parent.Some? then [parent.value] else []]
    ensures Acyclic(h)
  {
    if parent.Some? {
      FreshUnreached(g, bare, c, parent.value);
      ReplacedAcyclic(bare, h, c);
    }
  }

  lemma DestroyLinks<C>(st: Store<C>, c: C)
    requires Inv(st) && c in st.sup
    ensures Destroy(st, c).sup == Without(st.sup, c) - {c}
    ensures Destroy(st, c).sub == Without(st.sub, c) - {c}
    ensures Destroy(st, c).black == {}
    ensures Destroy(st, c).order == Flush(st, c).order - {c}
  {
    hide UnlinkSupers, UnlinkSubs, Flush, Mirror, NoDups, Closed, Drop;
    FlushAcyclic(st, c);
    var f := Flush(st, c);
    UnlinkSupersExact(f, c);
    var u := UnlinkSupers(f, c);
    UnlinkSubsExact(u, c);
    assert st.sub.Keys == st.sup.Keys;
    DroppedAtRemoved(st.sup, c);
    DroppedAtRemoved2(st.sub, c);
  }

  lemma DroppedAtRemoved<C>(g: Graph<C>, c: C)
    requires c in g
    ensures Without(g[c := []], c) - {c} == Without(g, c) - {c}
  {
  }

  lemma DroppedAtRemoved2<C>(g: Graph<C>, c: C)
    requires c in g
    ensures Without(g, c)[c := []] - {c} == Without(g, c) - {c}
  {
  }

  /** After destruction nothing mentions c, and nothing else has changed. */
  lemma DestroyKeepsInv<C>(st: Store<C>, c: C)
    requires Inv(st) && c in st.sup
    ensures Inv(Destroy(st, c))
    ensures Destroy(st, c).sup == Without(st.sup, c) - {c}
    ensures Destroy(st, c).sub == Without(st.sub, c) - {c}
    ensures forall x :: x in Destroy(st, c).sup ==> c !in Destroy(st, c).sup[x] && c !in Destroy(st, c).sub[x]
  {
    hide Destroy, Flush, Mirror, NoDups, Without;
    DestroyLinks(st, c);
    FlushAcyclic(st, c);
    var r := Destroy(st, c);
    DropsEverywhere(st.sup, r.sup, c);
    DropsEverywhere(st.sub, r.sub, c);
    WithoutMirror(st, r, c);
    SubgraphAcyclic(st.sup, r.sup);
    forall x | x in r.sup && r.order[x] != []
      ensures Linearise(r.sup, x) == Visited(true, r.order[x])
    {
      UnreachedSurvives(st.sup, r.sup, c, x);
      LineariseCongruent(st.sup, r.sup, x);
    }
  }

  lemma SubgraphAcyclic<C>(g: Graph<C>, h: Graph<C>)
    requires h.Keys <= g.Keys && (forall x, s {:trigger s in h[x]} :: x in h && s in h[x] ==> s in g[x]) && Acyclic(g)
    ensures Acyclic(h)
  {
    forall x | x in h
      ensures !OnCycle(h, x)
    {
      if OnCycle(h, x) {
        var n: nat :| n > 0 && Steps(h, n, x, x);
        StepsSubgraph(g, h, n, x, x);
        assert OnCycle(g, x);
      }
    }
  }

  lemma DropsEverywhere<C>(g: Graph<C>, h: Graph<C>, c: C)
    requires Closed(g) && NoDups(g) && h == Without(g, c) - {c}
    ensures Closed(h) && NoDups(h)
    ensures forall x :: x in h ==> c !in h[x]
    ensures forall x, s {:trigger s in h[x]} :: x in h && s in h[x] ==> s in g[x]
  {
    forall x | x in h
      ensures c !in h[x] && NoDup(h[x]) && forall s :: s in h[x] ==> s in g[x]
    {
      DropNoDup(g[x], c);
      DropMembers(g[x], c);
    }
  }

  lemma WithoutMirror<C>(st: Store<C>, r: Store<C>, c: C)
    requires Mirror(st.sup, st.sub)
    requires r.sup == Without(st.sup, c) - {c} && r.sub == Without(st.sub, c) - {c}
    ensures Mirror(r.sup, r.sub)
  {
    forall x, t {:trigger t in r.sup[x]} {:trigger x in r.sub[t]} | x in r.sup && t in r.sup
      ensures t in r.sup[x] <==> x in r.sub[t]
    {
      DropMembers(st.sup[x], c);
      DropMembers(st.sub[t], c);
    }
  }

  lemma UnreachedSurvives<C>(g: Graph<C>, h: Graph<C>, c: C, x: C)
    requires h == Without(g, c) - {c} && x in g && !Reaches(g, x, c)
    ensures AgreeBelow(g, h, x)
  {
    forall y | y in g && Reaches(g, x, y)
      ensures y in h && h[y] == g[y]
    {
      DropMembers(g[y], c);
      if c in g[y] {
        EdgeReaches(g, y, c);
        ReachesTransitive(g, x, y, c);
      }
    }
  }

  // ---------------------------------------------------------------------
  // Runs
  // ---------------------------------------------------------------------

  datatype Op<C> =
    | NewClass(c: C, parent: Option<C>)
    | SetSuperclass(c: C, req: seq<C>)
    | AskSuperclass(c: C, isc: C)
    | AskSubclass(c: C, isc: C)
    | DestroyClass(c: C)

  /** The classes an operation names exist (or, for a new one, do not). */
  ghost predicate Enabled<C>(st: Store<C>, op: Op<C>) {
    match op
    case NewClass(c, parent) => c !in st.sup && (parent.Some? ==> parent.value in st.sup)
    case SetSuperclass(c, req) => c in st.sup && Live(st, req)
    case AskSuperclass(c, _) => c in st.sup
    case AskSubclass(c, _) => c in st.sup
    case DestroyClass(c) => c in st.sup
  }

  /** The one request that leaves colours behind. */
  ghost predicate Spoils<C>(st: Store<C>, op: Op<C>) {
    op.SetSuperclass? && SelfInside(st.sup, op.c, op.req)
  }

  function Step<C(==)>(st: Store<C>, op: Op<C>): (r: Store<C>)
    requires WellFormed(st) && Enabled(st, op)
  {
    match op
    case NewClass(c, parent) => Create(st, c, parent)
    case SetSuperclass(c, req) => SuperClass(st, c, req).st
    case AskSuperclass(c, isc) => InfoSuperclass(st, c, isc).st
    case AskSubclass(c, isc) => InfoSubclass(st, c, isc).st
    case DestroyClass(c) => Destroy(st, c)
  }

  /** Each operation keeps the invariant, with that one exception exactly. */
  lemma StepKeepsInv<C>(st: Store<C>, op: Op<C>)
    requires Inv(st) && Enabled(st, op)
    ensures Inv(Step(st, op)) <==> !Spoils(st, op)
  {
    match op
    case NewClass(c, parent) => CreateKeepsInv(st, c, parent);
    case SetSuperclass(c, req) => SuperClassTransaction(st, c, req);
    case AskSuperclass(c, isc) => InfoSuperclassExact(st, c, isc);
    case AskSubclass(c, isc) => InfoSubclassExact(st, c, isc);
    case DestroyClass(c) => DestroyKeepsInv(st, c);
  }

  ghost predicate RunOk<C>(st: Store<C>, ops: seq<Op<C>>)
    requires Inv(st)
    decreases |ops|
  {
    ops == [] ||
    (Enabled(st, ops[0]) && !Spoils(st, ops[0])
     && (StepKeepsInv(st, ops[0]); RunOk(Step(st, ops[0]), ops[1..])))
  }

  ghost function Run<C>(st: Store<C>, ops: seq<Op<C>>): (r: Store<C>)
    requires Inv(st) && RunOk(st, ops)
    decreases |ops|
  {
    if ops == [] then st
    else
      StepKeepsInv(st, ops[0]);
      Run(Step(st, ops[0]), ops[1..])
  }

  ghost function EmptyStore<C>(): (st: Store<C>) {
    Store(map[], map[], {}, map[])
  }

  /** Whole runs from the empty store: every cached precedence list equals a fresh
      sort of the current graph, the graph is acyclic, links mirror each other and
      no class is left coloured. */
  lemma {:induction false} RunsKeepInv<C>(st: Store<C>, ops: seq<Op<C>>)
    requires Inv(st) && RunOk(st, ops)
    ensures Inv(Run(st, ops))
    decreases |ops|
  {
    if ops != [] {
      StepKeepsInv(st, ops[0]);
      RunsKeepInv(Step(st, ops[0]), ops[1..]);
    }
  }

  lemma EmptyStoreOk<C>()
    ensures Inv(EmptyStore<C>())
  {
  }
}
