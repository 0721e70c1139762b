/**
 What the class store keeps over every run: links that mirror each other, no
 cycle, no colour left behind, and caches that equal a fresh sort.
 */
module ClassInvariant {
  import opened Digraph
  import opened ClassStore

  ghost predicate NoDups<C>(g: Graph<C>) {
    forall c :: c in g ==> NoDup(g[c])
  }

  /** The links alone: lists without duplicates that mirror each other. */
  ghost predicate Linked<C>(st: Store<C>) {
    && WellFormed(st)
    && NoDups(st.sup) && NoDups(st.sub)
    && Mirror(st.sup, st.sub)
  }

  ghost predicate Coherent<C>(st: Store<C>)
    requires WellFormed(st)
  {
    forall c :: c in st.sup && st.order[c] != [] ==> Linearise(st.sup, c) == Visited(true, st.order[c])
  }

  ghost predicate Inv<C>(st: Store<C>) {
    && Linked(st)
    && Acyclic(st.sup)
    && st.black == {}
    && Coherent(st)
  }

  // ---------------------------------------------------------------------
  // One replaced successor list
  // ---------------------------------------------------------------------

  /** g and h differ at most in the successors of c. */
  ghost predicate SameButAt<C>(g: Graph<C>, h: Graph<C>, c: C) {
    g.Keys == h.Keys && forall x :: x in g && x != c ==> g[x] == h[x]
  }

  /** A walk either stays off c until its end, or passes through c. */
  lemma {:induction false} Detour<C>(g: Graph<C>, h: Graph<C>, c: C, n: nat, a: C, b: C)
    requires SameButAt(g, h, c) && Steps(h, n, a, b)
    ensures Reaches(g, a, b) || (Reaches(g, a, c) && Reaches(h, a, c) && Reaches(h, c, b))
  {
    ReachesSelf(g, a);
    ReachesSelf(h, a);
    if n > 0 {
      if a == c {
      } else {
        var m :| m in h[a] && Steps(h, n - 1, m, b);
        Detour(g, h, c, n - 1, m, b);
        EdgeReaches(g, a, m);
        EdgeReaches(h, a, m);
        if Reaches(g, m, b) {
          ReachesTransitive(g, a, m, b);
        } else {
          ReachesTransitive(g, a, m, c);
          ReachesTransitive(h, a, m, c);
        }
      }
    }
  }

  lemma ReachesChanged<C>(g: Graph<C>, h: Graph<C>, c: C, a: C)
    requires SameButAt(g, h, c)
    ensures Reaches(g, a, c) <==> Reaches(h, a, c)
    ensures !Reaches(g, a, c) && Closed(g) && a in g ==> AgreeBelow(g, h, a)
  {
    if Reaches(h, a, c) {
      var n: nat :| Steps(h, n, a, c);
      Detour(g, h, c, n, a, c);
    }
    if Reaches(g, a, c) {
      var n: nat :| Steps(g, n, a, c);
      Detour(h, g, c, n, a, c);
    }
  }

  /** Replacing the successors of c in an acyclic graph makes a cycle exactly when
      one of the new successors already reaches c; the cycle then runs through c. */
  lemma ReplacedAcyclic<C>(g: Graph<C>, h: Graph<C>, c: C)
    requires Closed(g) && c in g && SameButAt(g, h, c) && Acyclic(g)
    ensures Acyclic(h) <==> forall s :: s in h[c] ==> !Reaches(g, s, c)
    ensures Acyclic(h) <==> !OnCycle(h, c)
  {
    if s :| s in h[c] && Reaches(g, s, c) {
      ReachesChanged(g, h, c, s);
      EdgeClosesCycle(h, s, c);
      EdgeReaches(h, c, s);
      var n: nat :| Steps(h, n, s, c);
      StepsAppend(h, 1, n, c, s, c);
      assert OnCycle(h, c);
    }
    if x :| x in h && OnCycle(h, x) {
      CycleIsThroughChanged(g, h, c, x);
      var s := CycleSuccessor(h, c);
      ReachesChanged(g, h, c, s);
    }
  }

  lemma CycleIsThroughChanged<C>(g: Graph<C>, h: Graph<C>, c: C, x: C)
    requires c in g && SameButAt(g, h, c) && Acyclic(g) && x in h && OnCycle(h, x)
    ensures OnCycle(h, c)
  {
    var n: nat :| n > 0 && Steps(h, n, x, x);
    if x != c {
      var s :| s in h[x] && Steps(h, n - 1, s, x);
      Detour(g, h, c, n - 1, s, x);
      if Reaches(g, s, x) {
        EdgeReaches(g, x, s);
        var m: nat :| Steps(g, m, s, x);
        StepsAppend(g, 1, m, x, s, x);
        assert OnCycle(g, x);
        assert false;
      } else {
        EdgeReaches(h, x, s);
        ReachesTransitive(h, x, s, c);
        var i: nat :| Steps(h, i, x, c);
        var j: nat :| Steps(h, j, c, x);
        assert i > 0;
        StepsAppend(h, j, i, c, x, c);
      }
    }
  }

  lemma {:induction false} StepsSubgraph<C>(g: Graph<C>, h: Graph<C>, n: nat, a: C, b: C)
    requires h.Keys <= g.Keys && forall c, s {:trigger s in h[c]} :: c in h && s in h[c] ==> s in g[c]
    requires Steps(h, n, a, b)
    ensures Steps(g, n, a, b)
  {
    if n > 0 {
      var m :| m in h[a] && Steps(h, n - 1, m, b);
      StepsSubgraph(g, h, n - 1, m, b);
    }
  }

  // ---------------------------------------------------------------------
  // Sorting
  // ---------------------------------------------------------------------

  /** With no colour left behind the sort is the linearisation, and it leaves a
      colour behind exactly when the class is in its own list, not first, and the
      classes listed before it sort without meeting a cycle. */
  lemma SortFromClean<C>(g: Graph<C>, c: C)
    requires Closed(g) && c in g
    ensures var t := TopoSort(g, {}, c);
            var v := Linearise(g, c);
            && t.ok == v.ok && t.list == v.done
            && (t.black != {} <==> c in g[c] && g[c][0] != c && GivesUpAtSelf(g, c, {}))
  {
    var none: set<C> := {};
    assert none - {c} == none;
    var t := TopoSort(g, {}, c);
    if GivesUpAtSelf(g, c, {}) {
      var b := BeforeSelf(g, c);
      var p := VisitAll(g, b, {c}, {}, []);
      SelfLeavesBlack(g, c);
      VisitAllSound(g, b, {c}, []);
      if |b| > 0 {
        assert g[c][0] == b[0] && b[0] in b;
        assert g[c][0] in t.black;
      } else {
        assert p.done == [];
      }
    }
  }

  /** A sort that gives up at its own entry leaves BLACK what it had reported by then. */
  lemma SelfLeavesBlack<C>(g: Graph<C>, c: C)
    requires Closed(g) && c in g && GivesUpAtSelf(g, c, {})
    ensures TopoSort(g, {}, c).list == VisitAll(g, BeforeSelf(g, c), {c}, {}, []).done
    ensures TopoSort(g, {}, c).black == Elems(VisitAll(g, BeforeSelf(g, c), {c}, {}, []).done)
  {
    var none: set<C> := {};
    assert none - {c} == none;
    var b := BeforeSelf(g, c);
    var k := |b|;
    assert g[c] == b + g[c][k..];
    VisitAllAppend(g, b, g[c][k..], {c}, {}, []);
    assert {} + {c} == {c};
  }

  lemma {:induction false} VisitAllAppend<C>(g: Graph<C>, cs: seq<C>, ds: seq<C>, stack: set<C>, skip: set<C>, done: seq<C>)
    requires Closed(g) && forall c :: c in cs + ds ==> c in g
    ensures (forall c :: c in cs ==> c in g) && forall c :: c in ds ==> c in g
    ensures var r := VisitAll(g, cs, stack, skip, done);
            VisitAll(g, cs + ds, stack, skip, done)
            == if r.ok then VisitAll(g, ds, stack, skip, r.done) else r
    decreases |cs|
  {
    assert forall c :: c in cs ==> c in cs + ds;
    assert forall c :: c in ds ==> c in cs + ds;
    if cs == [] {
      assert cs + ds == ds;
    } else {
      assert (cs + ds)[1..] == cs[1..] + ds;
      if cs[0] in stack {
      } else if cs[0] in done || cs[0] in skip {
        VisitAllAppend(g, cs[1..], ds, stack, skip, done);
      } else {
        var r := Visit(g, cs[0], stack, skip, done);
        if r.ok {
          VisitAllAppend(g, cs[1..], ds, stack, skip, r.done);
        }
      }
    }
  }

  lemma VisitIsVisitAll<C>(g: Graph<C>, c: C, stack: set<C>, skip: set<C>, done: seq<C>)
    requires Closed(g) && c in g && c !in stack
    ensures var r := VisitAll(g, g[c], stack + {c}, skip, done);
            Visit(g, c, stack, skip, done) == if r.ok then Visited(true, [c] + r.done) else r
  {
  }

  lemma LeftBlackCases<C>(g: Graph<C>, base: C, skip: set<C>)
    requires Closed(g) && base in g
    ensures forall d: seq<C> :: LeftBlack(g, base, skip, d)
                                == if GivesUpAtSelf(g, base, skip) then skip + Elems(d) else skip
  {
  }

  lemma VisitAllNone<C>(g: Graph<C>, c: C, stack: set<C>, skip: set<C>, done: seq<C>)
    requires Closed(g) && c in g
    ensures VisitAll(g, Taken(g, c, 0), stack, skip, done) == Visited(true, done)
    ensures Taken(g, c, |g[c]|) == g[c]
  {
  }

  /** What the loop of the sort does with one entry s. */
  function VisitOne<C(==)>(g: Graph<C>, s: C, stack: set<C>, skip: set<C>, done: seq<C>): (r: Visited<C>)
    requires Closed(g) && s in g
  {
    if s in stack then Visited(false, done)
    else if s in skip + Elems(done) then Visited(true, done)
    else Visit(g, s, stack, skip, done)
  }

  /** One more entry of the list of c. */
  lemma VisitOneMore<C>(g: Graph<C>, c: C, i: nat, stack: set<C>, skip: set<C>, done: seq<C>)
    requires Closed(g) && c in g && i < |g[c]| && VisitAll(g, Taken(g, c, i), stack, skip, done).ok
    ensures g[c][i] in g
    ensures var d := VisitAll(g, Taken(g, c, i), stack, skip, done).done;
            VisitAll(g, Taken(g, c, i + 1), stack, skip, done)
            == VisitOne(g, g[c][i], stack, skip, d)
    ensures !VisitAll(g, Taken(g, c, i + 1), stack, skip, done).ok
            ==> VisitAll(g, g[c], stack, skip, done) == VisitAll(g, Taken(g, c, i + 1), stack, skip, done)
  {
    var s := g[c][i];
    assert s in g[c];
    assert Taken(g, c, i + 1) == Taken(g, c, i) + [s];
    VisitAllAppend(g, Taken(g, c, i), [s], stack, skip, done);
    assert [s][1..] == [];
    assert g[c] == Taken(g, c, i + 1) + g[c][i + 1..];
    VisitAllAppend(g, Taken(g, c, i + 1), g[c][i + 1..], stack, skip, done);
  }

  lemma {:induction false} VisitAllAvoids<C>(g: Graph<C>, cs: seq<C>, stack: set<C>, skip: set<C>, done: seq<C>)
    requires Closed(g) && (forall c :: c in cs ==> c in g) && VisitAll(g, cs, stack, skip, done).ok
    ensures forall c :: c in cs ==> c !in stack
    decreases |cs|
  {
    if cs == [] {
    } else if cs[0] in done || cs[0] in skip {
      VisitAllAvoids(g, cs[1..], stack, skip, done);
    } else {
      VisitAllAvoids(g, cs[1..], stack, skip, Visit(g, cs[0], stack, skip, done).done);
    }
  }

  /** Where the sort of base stops tells whether it gave up at its own entry. */
  lemma WhereItStops<C>(g: Graph<C>, base: C, i: nat, skip: set<C>)
    requires Closed(g) && base in g && i <= |g[base]|
    requires VisitAll(g, Taken(g, base, i), {base}, skip, []).ok
    ensures i == |g[base]| ==> !GivesUpAtSelf(g, base, skip)
    ensures i < |g[base]| && g[base][i] == base ==> GivesUpAtSelf(g, base, skip)
    ensures i < |g[base]| && g[base][i] != base && !VisitAll(g, Taken(g, base, i + 1), {base}, skip, []).ok
            ==> !GivesUpAtSelf(g, base, skip)
  {
    var t := Taken(g, base, i);
    VisitAllAvoids(g, t, {base}, skip, []);
    if base in g[base] {
      var b := BeforeSelf(g, base);
      assert g[base][|b|] == base by {
        assert b == g[base][..First(g[base], base)];
      }
      assert forall k :: 0 <= k < i ==> t[k] != base && t[k] == g[base][k];
      assert forall k :: 0 <= k < |b| ==> b[k] != base && b[k] == g[base][k];
      if g[base][i] == base {
        assert b == t;
      } else {
        var t' := Taken(g, base, i + 1);
        assert b == t' + b[i + 1..];
        VisitAllAppend(g, t', b[i + 1..], {base}, skip, []);
      }
    }
  }

  function Taken<C>(g: Graph<C>, c: C, i: nat): (t: seq<C>)
    requires Closed(g) && c in g && i <= |g[c]|
    ensures forall x :: x in t ==> x in g && x in g[c]
  {
    assert forall k :: 0 <= k < i ==> g[c][k] in g[c];
    g[c][..i]
  }

  lemma AcyclicHasNoSelf<C>(g: Graph<C>, c: C)
    requires Acyclic(g) && c in g
    ensures c !in g[c]
  {
    if c in g[c] {
      EdgeReaches(g, c, c);
      assert OnCycle(g, c);
    }
  }

  /** Using a precedence list fills the slot with the linearisation and changes nothing else. */
  lemma ComputeKeepsInv<C>(st: Store<C>, c: C)
    requires Inv(st) && c in st.sup
    ensures Inv(Compute(st, c, Super))
    ensures Linearise(st.sup, c).ok && Compute(st, c, Super).order == st.order[c := Linearise(st.sup, c).done]
  {
    AcyclicLinearises(st.sup, c);
    AcyclicHasNoSelf(st.sup, c);
    SortFromClean(st.sup, c);
    var r := Compute(st, c, Super);
    assert st.order[c] != [] ==> st.order == st.order[c := st.order[c]];
    forall x | x in r.sup && r.order[x] != []
      ensures Linearise(r.sup, x) == Visited(true, r.order[x])
    {
      if x != c {
        assert r.order[x] == st.order[x];
      }
    }
  }

  /** In a graph without cycles, flushing c empties exactly the slots of c and of
      the classes below it. */
  lemma FlushAcyclic<C>(st: Store<C>, c: C)
    requires Linked(st) && st.black == {} && c in st.sup && Acyclic(st.sup)
    ensures Flush(st, c).black == {}
    ensures forall x :: x in st.sup ==>
                          Flush(st, c).order[x] == if Reaches(st.sup, x, c) then [] else st.order[x]
  {
    AcyclicMirror(st.sup, st.sub);
    AcyclicHasNoSelf(st.sub, c);
    SortFromClean(st.sub, c);
    LineariseCorrect(st.sub, c);
    AcyclicLinearises(st.sub, c);
    var d := Linearise(st.sub, c).done;
    assert Mirror(st.sub, st.sup);
    forall x | x in st.sup
      ensures Flush(st, c).order[x] == if Reaches(st.sup, x, c) then [] else st.order[x]
    {
      if Reaches(st.sup, x, c) {
        ReachesMirror(st.sup, st.sub, x, c);
        assert x in d;
      } else if Reaches(st.sub, c, x) {
        ReachesMirror(st.sub, st.sup, c, x);
      }
      ReachesSelf(st.sup, c);
    }
  }

  lemma ClearNone<C>(order: Graph<C>, c: C)
    requires c in order
    ensures Clear(order[c := []], c, []) == order[c := []]
  {
  }

  lemma OverwrittenTwice<C>(g: Graph<C>, c: C, l: seq<C>)
    requires c in g
    ensures g[c := l][c := []] == g[c := []]
  {
  }

  /** When a cycle runs through c the flush empties only the slot of c. */
  lemma FlushCyclic<C>(st: Store<C>, c: C)
    requires Linked(st) && st.black == {} && c in st.sup && OnCycle(st.sup, c)
    requires c in st.sub[c] ==> st.sub[c][0] == c
    ensures Flush(st, c).black == {}
    ensures Flush(st, c).order == st.order[c := []]
  {
    hide Mirror, NoDups, Closed;
    var n: nat :| n > 0 && Steps(st.sup, n, c, c);
    StepsMirror(st.sup, st.sub, n, c, c);
    ReachesSelf(st.sub, c);
    assert OnCycle(st.sub, c);
    LineariseCorrect(st.sub, c);
    SortFromClean(st.sub, c);
    OverwrittenTwice(st.order, c, []);
    ClearNone(st.order, c);
  }

  // ---------------------------------------------------------------------
  // Links
  // ---------------------------------------------------------------------

  lemma {:induction false} DropNoDup<C>(l: seq<C>, s: C)
    requires NoDup(l)
    ensures NoDup(Drop(l, s)) && s !in Drop(l, s)
  {
    if l != [] && l[0] != s {
      DropNoDup(l[1..], s);
      DropMembers(l[1..], s);
      NoDupCons(l[0], Drop(l[1..], s));
    }
  }

  /** Every list of g without c. */
  function Without<C(==)>(g: Graph<C>, c: C): (h: Graph<C>)
    ensures h.Keys == g.Keys
  {
    map x | x in g :: Drop(g[x], c)
  }

  lemma WithoutAbsent<C>(g: Graph<C>, c: C)
    requires forall x :: x in g ==> c !in g[x]
    ensures Without(g, c) == g
  {
    forall x | x in g
      ensures Drop(g[x], c) == g[x]
    {
      DropMembers(g[x], c);
    }
  }

  lemma WithoutTwice<C>(g: Graph<C>, c: C, s: C)
    requires s in g && NoDup(g[s])
    ensures Without(g[s := Drop(g[s], c)], c) == Without(g, c)
  {
    DropNoDup(g[s], c);
    DropMembers(Drop(g[s], c), c);
  }

  lemma RemoveSuperLinked<C>(st: Store<C>, c: C, s: C)
    requires Linked(st) && c in st.sup && s in st.sup && s in st.sup[c]
    ensures Linked(RemoveSuper(st, c, s))
  {
    DropNoDup(st.sup[c], s);
    DropMembers(st.sup[c], s);
    DropNoDup(st.sub[s], c);
    DropMembers(st.sub[s], c);
    var r := RemoveSuper(st, c, s);
    forall x, t {:trigger t in r.sup[x]} {:trigger x in r.sub[t]} | x in r.sup && t in r.sup
      ensures t in r.sup[x] <==> x in r.sub[t]
    {
    }
  }

  lemma NothingToUnlink<C>(g: Graph<C>, h: Graph<C>, c: C)
    requires Mirror(g, h) && c in g && g[c] == []
    ensures g == g[c := []] && Without(h, c) == h
  {
    WithoutAbsent(h, c);
  }

  lemma {:induction false} UnlinkSupersExact<C>(st: Store<C>, c: C)
    requires Linked(st) && c in st.sup
    ensures Linked(UnlinkSupers(st, c))
    ensures UnlinkSupers(st, c).sup == st.sup[c := []]
    ensures UnlinkSupers(st, c).sub == Without(st.sub, c)
    decreases |st.sup[c]|
  {
    if st.sup[c] == [] {
      NothingToUnlink(st.sup, st.sub, c);
    } else {
      var s := st.sup[c][0];
      assert s in st.sup[c];
      RemoveSuperLinked(st, c, s);
      OverwrittenTwice(st.sup, c, Drop(st.sup[c], s));
      WithoutTwice(st.sub, c, s);
      UnlinkSupersExact(RemoveSuper(st, c, s), c);
    }
  }

  lemma {:induction false} UnlinkSubsExact<C>(st: Store<C>, c: C)
    requires Linked(st) && c in st.sup
    ensures Linked(UnlinkSubs(st, c))
    ensures UnlinkSubs(st, c).sub == st.sub[c := []]
    ensures UnlinkSubs(st, c).sup == Without(st.sup, c)
    decreases |st.sub[c]|
  {
    if st.sub[c] == [] {
      NothingToUnlink(st.sub, st.sup, c);
    } else {
      var s := st.sub[c][0];
      assert s in st.sub[c];
      RemoveSuperLinked(st, s, c);
      OverwrittenTwice(st.sub, c, Drop(st.sub[c], s));
      WithoutTwice(st.sup, c, s);
      UnlinkSubsExact(RemoveSuper(st, s, c), c);
    }
  }

  /** The subclass lists of the classes in ss, with c put in front. */
  function InFront<C(==)>(g: Graph<C>, c: C, ss: seq<C>): (h: Graph<C>)
    ensures h.Keys == g.Keys
  {
    map x | x in g :: if x in ss then [c] + g[x] else g[x]
  }

  lemma AddSuperLinked<C>(st: Store<C>, c: C, s: C)
    requires Linked(st) && c in st.sup && s in st.sup
    ensures Linked(AddSuper(st, c, s))
  {
    var r := AddSuper(st, c, s);
    if s !in st.sup[c] {
      NoDupCons(s, st.sup[c]);
      NoDupCons(c, st.sub[s]);
    }
    forall x, t {:trigger t in r.sup[x]} {:trigger x in r.sub[t]} | x in r.sup && t in r.sup
      ensures t in r.sup[x] <==> x in r.sub[t]
    {
    }
  }

  lemma InFrontCons<C>(g: Graph<C>, c: C, ss: seq<C>)
    requires ss != [] && ss[0] in g && ss[0] !in ss[1..]
    ensures InFront(g[ss[0] := [c] + g[ss[0]]], c, ss[1..]) == InFront(g, c, ss)
  {
    assert ss == [ss[0]] + ss[1..];
  }

  lemma InFrontNone<C>(g: Graph<C>, c: C)
    ensures InFront(g, c, []) == g
  {
  }

  lemma PrependThenRest<C>(g: Graph<C>, c: C, ss: seq<C>)
    requires c in g && ss != [] && ss[0] !in g[c]
    ensures var h := g[c := Prepend(g[c], ss[0])];
            h[c := Reverse(ss[1..]) + h[c]] == g[c := Reverse(ss) + g[c]]
  {
    hide Reverse;
    ReverseShift(ss, g[c]);
  }

  lemma ReverseShift<C>(ss: seq<C>, l: seq<C>)
    requires ss != []
    ensures Reverse(ss[1..]) + ([ss[0]] + l) == Reverse(ss) + l
  {
  }

  lemma {:induction false} AddSupersExact<C>(st: Store<C>, c: C, ss: seq<C>)
    requires Linked(st) && c in st.sup && Live(st, ss)
    requires NoDup(ss) && forall s :: s in ss ==> s !in st.sup[c]
    ensures Linked(AddSupers(st, c, ss))
    ensures AddSupers(st, c, ss).sup == st.sup[c := Reverse(ss) + st.sup[c]]
    ensures AddSupers(st, c, ss).sub == InFront(st.sub, c, ss)
    decreases |ss|
  {
    hide NoDups, Closed;
    if ss == [] {
      assert Reverse(ss) + st.sup[c] == st.sup[c];
      InFrontNone(st.sub, c);
    } else {
      assert ss[0] in ss && c !in st.sub[ss[0]];
      AddSuperLinked(st, c, ss[0]);
      assert forall s :: s in ss[1..] ==> s in ss;
      PrependThenRest(st.sup, c, ss);
      InFrontCons(st.sub, c, ss);
      AddSupersExact(AddSuper(st, c, ss[0]), c, ss[1..]);
    }
  }

  lemma ReverseReverse<C>(l: seq<C>)
    ensures Reverse(Reverse(l)) == l
  {
    forall i | 0 <= i < |l|
      ensures Reverse(Reverse(l))[i] == l[i]
    {
      ReverseAt(Reverse(l), i);
      ReverseAt(l, |l| - 1 - i);
    }
  }
}
