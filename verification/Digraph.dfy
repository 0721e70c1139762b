/**
 Directed graphs given by ordered successor lists, reachability in them, and the
 depth-first linearisation that OTcl uses for class precedence.

 `Visit` is the reference form of the sort: it knows which nodes are on the
 recursion stack and which are done, and has no colours.  The lemmas below say
 what it computes without mentioning how.
 */
module Digraph {

  type Graph<C> = map<C, seq<C>>

  ghost predicate Closed<C>(g: Graph<C>) {
    forall c, s {:trigger s in g[c]} :: c in g && s in g[c] ==> s in g
  }

  ghost predicate NoDup<C>(d: seq<C>) {
    d == [] || (d[0] !in d[1..] && NoDup(d[1..]))
  }

  lemma NoDupCons<C>(x: C, d: seq<C>)
    requires NoDup(d) && x !in d
    ensures NoDup([x] + d)
  {
    assert ([x] + d)[1..] == d;
  }

  lemma {:induction false} NoDupIndices<C>(d: seq<C>)
    ensures NoDup(d) <==> forall i, j :: 0 <= i < j < |d| ==> d[i] != d[j]
  {
    if d != [] {
      NoDupIndices(d[1..]);
      assert forall i :: 0 < i < |d| ==> d[i] == d[1..][i - 1];
      assert forall i :: 0 <= i < |d| - 1 ==> d[1..][i] == d[i + 1];
    }
  }

  /** x stands somewhere before y in d. */
  ghost predicate Before<C>(d: seq<C>, x: C, y: C) {
    d != [] && ((d[0] == x && y in d[1..]) || Before(d[1..], x, y))
  }

  /** There is a walk of n edges from a to b. */
  ghost predicate Steps<C>(g: Graph<C>, n: nat, a: C, b: C) {
    if n == 0 then a == b
    else a in g && exists m :: m in g[a] && Steps(g, n - 1, m, b)
  }

  ghost predicate Reaches<C>(g: Graph<C>, a: C, b: C) {
    exists n: nat :: Steps(g, n, a, b)
  }

  ghost predicate OnCycle<C>(g: Graph<C>, c: C) {
    exists n: nat :: n > 0 && Steps(g, n, c, c)
  }

  ghost predicate CyclicFrom<C>(g: Graph<C>, c: C) {
    exists x {:trigger OnCycle(g, x)} :: x in g && Reaches(g, c, x) && OnCycle(g, x)
  }

  ghost predicate Acyclic<C>(g: Graph<C>) {
    forall c {:trigger OnCycle(g, c)} :: c in g ==> !OnCycle(g, c)
  }

  // ---------------------------------------------------------------------
  // Walks
  // ---------------------------------------------------------------------

  lemma {:induction false} StepsAppend<C>(g: Graph<C>, n: nat, m: nat, a: C, b: C, c: C)
    requires Steps(g, n, a, b) && Steps(g, m, b, c)
    ensures Steps(g, n + m, a, c)
  {
    if n > 0 {
      var k :| k in g[a] && Steps(g, n - 1, k, b);
      StepsAppend(g, n - 1, m, k, b, c);
    }
  }

  lemma {:induction false} StepsSplitLast<C>(g: Graph<C>, n: nat, a: C, b: C) returns (m: C)
    requires n > 0 && Steps(g, n, a, b)
    ensures Steps(g, n - 1, a, m) && m in g && b in g[m]
  {
    var k :| k in g[a] && Steps(g, n - 1, k, b);
    if n == 1 {
      m := a;
    } else {
      m := StepsSplitLast(g, n - 1, k, b);
    }
  }

  lemma {:induction false} StepsStayIn<C>(g: Graph<C>, n: nat, a: C, b: C, x: set<C>)
    requires Steps(g, n, a, b) && a in x
    requires forall c, s {:trigger s in g[c]} :: c in x && c in g && s in g[c] ==> s in x
    ensures b in x
  {
    if n > 0 {
      var k :| k in g[a] && Steps(g, n - 1, k, b);
      StepsStayIn(g, n - 1, k, b, x);
    }
  }

  lemma ReachesSelf<C>(g: Graph<C>, a: C)
    ensures Reaches(g, a, a)
  {
    assert Steps(g, 0, a, a);
  }

  lemma ReachesTransitive<C>(g: Graph<C>, a: C, b: C, c: C)
    requires Reaches(g, a, b) && Reaches(g, b, c)
    ensures Reaches(g, a, c)
  {
    var n: nat :| Steps(g, n, a, b);
    var m: nat :| Steps(g, m, b, c);
    StepsAppend(g, n, m, a, b, c);
  }

  lemma EdgeReaches<C>(g: Graph<C>, a: C, s: C)
    requires a in g && s in g[a]
    ensures Steps(g, 1, a, s) && Reaches(g, a, s)
  {
    assert Steps(g, 0, s, s);
    assert Steps(g, 1, a, s);
  }

  lemma EdgeClosesCycle<C>(g: Graph<C>, a: C, b: C)
    requires Reaches(g, a, b) && b in g && a in g[b]
    ensures OnCycle(g, a)
  {
    var n: nat :| Steps(g, n, a, b);
    EdgeReaches(g, b, a);
    StepsAppend(g, n, 1, a, b, a);
  }

  lemma CyclicThrough<C>(g: Graph<C>, a: C, b: C)
    requires Reaches(g, a, b) && CyclicFrom(g, b)
    ensures CyclicFrom(g, a)
  {
    var x :| x in g && Reaches(g, b, x) && OnCycle(g, x);
    ReachesTransitive(g, a, b, x);
  }

  /** A walk of positive length starts with an edge. */
  lemma CycleSuccessor<C>(g: Graph<C>, a: C) returns (s: C)
    requires OnCycle(g, a)
    ensures a in g && s in g[a] && Reaches(g, s, a)
  {
    var n: nat :| n > 0 && Steps(g, n, a, a);
    s :| s in g[a] && Steps(g, n - 1, s, a);
  }

  // ---------------------------------------------------------------------
  // The linearisation
  // ---------------------------------------------------------------------

  datatype Visited<C> = Visited(ok: bool, done: seq<C>)

  /** Depth-first visit of c.  `stack` holds the nodes being visited, `done` those
      reported so far (latest first), `skip` nodes to be passed over unseen. */
  function Visit<C(==)>(g: Graph<C>, c: C, stack: set<C>, skip: set<C>, done: seq<C>): (r: Visited<C>)
    requires Closed(g) && c in g && c !in stack
    ensures r.ok ==> r.done != [] && r.done[0] == c
    decreases g.Keys - stack, 0
  {
    var r := VisitAll(g, g[c], stack + {c}, skip, done);
    if r.ok then Visited(true, [c] + r.done) else r
  }

  function VisitAll<C(==)>(g: Graph<C>, cs: seq<C>, stack: set<C>, skip: set<C>, done: seq<C>): (r: Visited<C>)
    requires Closed(g) && forall c :: c in cs ==> c in g
    decreases g.Keys - stack, |cs|
  {
    if cs == [] then Visited(true, done)
    else if cs[0] in stack then Visited(false, done)
    else if cs[0] in done || cs[0] in skip then VisitAll(g, cs[1..], stack, skip, done)
    else
      var r := Visit(g, cs[0], stack, skip, done);
      if r.ok then VisitAll(g, cs[1..], stack, skip, r.done) else r
  }

  /** The linearisation of everything reachable from c. */
  function Linearise<C(==)>(g: Graph<C>, c: C): (r: Visited<C>)
    requires Closed(g) && c in g
    ensures r.ok ==> r.done != [] && r.done[0] == c
  {
    Visit(g, c, {}, {}, [])
  }

  /** A list of distinct nodes in which every node precedes all its successors. */
  ghost predicate Ordered<C>(g: Graph<C>, d: seq<C>) {
    d == [] ||
    (&& d[0] in g
     && d[0] !in d[1..]
     && (forall s :: s in g[d[0]] ==> s in d[1..])
     && Ordered(g, d[1..]))
  }

  lemma OrderedCons<C>(g: Graph<C>, c: C, d: seq<C>)
    requires Ordered(g, d) && c in g && c !in d
    requires forall s :: s in g[c] ==> s in d
    ensures Ordered(g, [c] + d)
  {
    assert ([c] + d)[1..] == d;
  }

  /** The same, read in terms of pairs: x stands before each of its successors. */
  lemma {:induction false} OrderedBefore<C>(g: Graph<C>, d: seq<C>, x: C, s: C)
    requires Ordered(g, d) && x in d && x in g && s in g[x]
    ensures Before(d, x, s)
  {
    if d[0] != x {
      OrderedBefore(g, d[1..], x, s);
    }
  }

  lemma {:induction false} OrderedMembers<C>(g: Graph<C>, d: seq<C>)
    requires Ordered(g, d)
    ensures NoDup(d) && forall x :: x in d ==> x in g
  {
    if d != [] {
      OrderedMembers(g, d[1..]);
      assert d == [d[0]] + d[1..];
    }
  }

  lemma {:induction false} OrderedClosed<C>(g: Graph<C>, d: seq<C>, x: C, s: C)
    requires Ordered(g, d) && x in d && x in g && s in g[x]
    ensures s in d
  {
    if d[0] != x {
      OrderedClosed(g, d[1..], x, s);
    }
  }

  lemma OrderedHoldsReachable<C>(g: Graph<C>, d: seq<C>, x: C, b: C)
    requires Ordered(g, d) && x in d && Reaches(g, x, b)
    ensures b in d
  {
    var n: nat :| Steps(g, n, x, b);
    forall c, s {:trigger s in g[c]} | c in d && c in g && s in g[c]
      ensures s in d
    {
      OrderedClosed(g, d, c, s);
    }
    StepsStayIn(g, n, x, b, set y | y in d);
  }

  lemma {:induction false} OrderedIsAcyclic<C>(g: Graph<C>, d: seq<C>, x: C)
    requires Ordered(g, d) && x in d
    ensures !OnCycle(g, x)
  {
    if d[0] != x {
      OrderedIsAcyclic(g, d[1..], x);
    } else if OnCycle(g, x) {
      var s := CycleSuccessor(g, x);
      OrderedHoldsReachable(g, d[1..], s, x);
    }
  }

  ghost predicate Suffix<C>(s: seq<C>, d: seq<C>) {
    |s| <= |d| && d[|d| - |s|..] == s
  }

  /** What a successful visit adds to an ordered list. */
  ghost predicate Extends<C>(g: Graph<C>, from: seq<C>, stack: set<C>, done: seq<C>, d: seq<C>) {
    && Ordered(g, d)
    && Suffix(done, d)
    && (forall x :: x in d ==> x !in stack)
    && (forall c :: c in from ==> c in d)
  }

  lemma {:induction false} VisitSound<C>(g: Graph<C>, c: C, stack: set<C>, done: seq<C>)
    requires Closed(g) && c in g && c !in stack && c !in done
    requires Ordered(g, done) && forall x :: x in done ==> x !in stack
    requires Visit(g, c, stack, {}, done).ok
    ensures Extends(g, [c], stack, done, Visit(g, c, stack, {}, done).done)
    decreases g.Keys - stack, 0
  {
    VisitAllSound(g, g[c], stack + {c}, done);
    var d := VisitAll(g, g[c], stack + {c}, {}, done).done;
    OrderedCons(g, c, d);
    var e := [c] + d;
    assert e[|e| - |done|..] == d[|d| - |done|..];
  }

  lemma {:induction false} VisitAllSound<C>(g: Graph<C>, cs: seq<C>, stack: set<C>, done: seq<C>)
    requires Closed(g) && forall c :: c in cs ==> c in g
    requires Ordered(g, done) && forall x :: x in done ==> x !in stack
    requires VisitAll(g, cs, stack, {}, done).ok
    ensures Extends(g, cs, stack, done, VisitAll(g, cs, stack, {}, done).done)
    decreases g.Keys - stack, |cs|
  {
    if cs == [] {
    } else if cs[0] in done {
      VisitAllSound(g, cs[1..], stack, done);
      SuffixMembers(done, VisitAll(g, cs, stack, {}, done).done);
    } else {
      VisitSound(g, cs[0], stack, done);
      var d := Visit(g, cs[0], stack, {}, done).done;
      VisitAllSound(g, cs[1..], stack, d);
      var e := VisitAll(g, cs, stack, {}, done).done;
      SuffixMembers(d, e);
      SuffixTransitive(done, d, e);
    }
  }

  /** A visit reports only what it reaches. */
  lemma {:induction false} VisitAdds<C>(g: Graph<C>, c: C, stack: set<C>, done: seq<C>, x: C)
    requires Closed(g) && c in g && c !in stack
    requires x in Visit(g, c, stack, {}, done).done && x !in done
    ensures Reaches(g, c, x)
    decreases g.Keys - stack, 0
  {
    ReachesSelf(g, c);
    if x in VisitAll(g, g[c], stack + {c}, {}, done).done {
      var s := VisitAllAdds(g, g[c], stack + {c}, done, x);
      EdgeReaches(g, c, s);
      ReachesTransitive(g, c, s, x);
    }
  }

  lemma {:induction false} VisitAllAdds<C>(g: Graph<C>, cs: seq<C>, stack: set<C>, done: seq<C>, x: C) returns (s: C)
    requires Closed(g) && forall c :: c in cs ==> c in g
    requires x in VisitAll(g, cs, stack, {}, done).done && x !in done
    ensures s in cs && Reaches(g, s, x)
    decreases g.Keys - stack, |cs|
  {
    if cs[0] in done {
      s := VisitAllAdds(g, cs[1..], stack, done, x);
    } else {
      var r := Visit(g, cs[0], stack, {}, done);
      if x in r.done {
        VisitAdds(g, cs[0], stack, done, x);
        s := cs[0];
      } else {
        s := VisitAllAdds(g, cs[1..], stack, r.done, x);
      }
    }
  }

  lemma SuffixMembers<C>(s: seq<C>, d: seq<C>)
    requires Suffix(s, d)
    ensures forall x :: x in s ==> x in d
  {
    forall x | x in s
      ensures x in d
    {
      var i :| 0 <= i < |s| && s[i] == x;
      assert d[|d| - |s|..][i] == x;
    }
  }

  lemma SuffixTransitive<C>(a: seq<C>, b: seq<C>, c: seq<C>)
    requires Suffix(a, b) && Suffix(b, c)
    ensures Suffix(a, c)
  {
    assert c[|c| - |a|..] == c[|c| - |b|..][|b| - |a|..];
  }

  /** A visit fails only because there is a cycle. */
  lemma {:induction false} VisitFails<C>(g: Graph<C>, c: C, stack: set<C>, skip: set<C>, done: seq<C>)
    requires Closed(g) && c in g && c !in stack
    requires forall s :: s in stack ==> Reaches(g, s, c)
    requires !Visit(g, c, stack, skip, done).ok
    ensures CyclicFrom(g, c)
    decreases g.Keys - stack, 0
  {
    ReachesSelf(g, c);
    VisitAllFails(g, c, g[c], stack + {c}, skip, done);
  }

  lemma {:induction false} VisitAllFails<C>(g: Graph<C>, c: C, cs: seq<C>, stack: set<C>, skip: set<C>, done: seq<C>)
    requires Closed(g) && c in g && forall s :: s in cs ==> s in g[c]
    requires forall s :: s in stack ==> Reaches(g, s, c)
    requires !VisitAll(g, cs, stack, skip, done).ok
    ensures CyclicFrom(g, c)
    decreases g.Keys - stack, |cs|
  {
    assert cs[0] in g[c];
    EdgeReaches(g, c, cs[0]);
    if cs[0] in stack {
      EdgeClosesCycle(g, cs[0], c);
    } else if cs[0] in done || cs[0] in skip {
      VisitAllFails(g, c, cs[1..], stack, skip, done);
    } else {
      var r := Visit(g, cs[0], stack, skip, done);
      if r.ok {
        VisitAllFails(g, c, cs[1..], stack, skip, r.done);
      } else {
        forall s | s in stack
          ensures Reaches(g, s, cs[0])
        {
          ReachesTransitive(g, s, c, cs[0]);
        }
        VisitFails(g, cs[0], stack, skip, done);
        CyclicThrough(g, c, cs[0]);
      }
    }
  }

  /** The sort succeeds exactly when no cycle is reachable; then it lists the
      reachable nodes once each, c first, every node before its successors. */
  lemma LineariseCorrect<C>(g: Graph<C>, c: C)
    requires Closed(g) && c in g
    ensures Linearise(g, c).ok <==> !CyclicFrom(g, c)
    ensures Linearise(g, c).ok ==>
              var d := Linearise(g, c).done;
              Ordered(g, d) && d != [] && d[0] == c && forall x :: x in d <==> Reaches(g, c, x)
  {
    var r := Linearise(g, c);
    if r.ok {
      VisitSound(g, c, {}, []);
      forall x
        ensures x in r.done <==> Reaches(g, c, x)
      {
        if x in r.done {
          VisitAdds(g, c, {}, [], x);
        }
        if Reaches(g, c, x) {
          OrderedHoldsReachable(g, r.done, c, x);
        }
      }
      if CyclicFrom(g, c) {
        var x :| x in g && Reaches(g, c, x) && OnCycle(g, x);
        OrderedIsAcyclic(g, r.done, x);
      }
    } else {
      VisitFails(g, c, {}, {}, []);
    }
  }

  lemma AcyclicLinearises<C>(g: Graph<C>, c: C)
    requires Closed(g) && c in g && Acyclic(g)
    ensures Linearise(g, c).ok
  {
    LineariseCorrect(g, c);
  }

  // ---------------------------------------------------------------------
  // The linearisation depends only on what is reachable
  // ---------------------------------------------------------------------

  ghost predicate AgreeBelow<C>(g: Graph<C>, h: Graph<C>, c: C) {
    forall x {:trigger Reaches(g, c, x)} :: x in g && Reaches(g, c, x) ==> x in h && h[x] == g[x]
  }

  lemma AgreeBelowSuccessor<C>(g: Graph<C>, h: Graph<C>, c: C, s: C)
    requires c in g && s in g[c] && AgreeBelow(g, h, c)
    ensures AgreeBelow(g, h, s)
  {
    EdgeReaches(g, c, s);
    forall x | x in g && Reaches(g, s, x)
      ensures x in h && h[x] == g[x]
    {
      ReachesTransitive(g, c, s, x);
    }
  }

  lemma {:induction false} VisitCongruent<C>(g: Graph<C>, h: Graph<C>, c: C, stack: set<C>, done: seq<C>)
    requires Closed(g) && Closed(h) && c in g && c in h && c !in stack
    requires AgreeBelow(g, h, c)
    ensures Visit(g, c, stack, {}, done) == Visit(h, c, stack, {}, done)
    decreases g.Keys - stack, 0
  {
    ReachesSelf(g, c);
    forall s | s in g[c]
      ensures AgreeBelow(g, h, s)
    {
      AgreeBelowSuccessor(g, h, c, s);
    }
    VisitAllCongruent(g, h, g[c], stack + {c}, done);
  }

  lemma {:induction false} VisitAllCongruent<C>(g: Graph<C>, h: Graph<C>, cs: seq<C>, stack: set<C>, done: seq<C>)
    requires Closed(g) && Closed(h) && forall c :: c in cs ==> c in g && c in h
    requires forall c :: c in cs ==> AgreeBelow(g, h, c)
    ensures VisitAll(g, cs, stack, {}, done) == VisitAll(h, cs, stack, {}, done)
    decreases g.Keys - stack, |cs|
  {
    if cs == [] || cs[0] in stack {
    } else if cs[0] in done {
      VisitAllCongruent(g, h, cs[1..], stack, done);
    } else {
      VisitCongruent(g, h, cs[0], stack, done);
      var r := Visit(g, cs[0], stack, {}, done);
      if r.ok {
        VisitAllCongruent(g, h, cs[1..], stack, r.done);
      }
    }
  }

  lemma LineariseCongruent<C>(g: Graph<C>, h: Graph<C>, c: C)
    requires Closed(g) && Closed(h) && c in g && c in h && AgreeBelow(g, h, c)
    ensures Linearise(g, c) == Linearise(h, c)
  {
    VisitCongruent(g, h, c, {}, []);
  }

  // ---------------------------------------------------------------------
  // Later successors come out first
  // ---------------------------------------------------------------------

  /** No node of the list reaches a later one. */
  ghost predicate NoForwardReach<C>(g: Graph<C>, cs: seq<C>) {
    cs == [] || ((forall y :: y in cs[1..] ==> !Reaches(g, cs[0], y)) && NoForwardReach(g, cs[1..]))
  }

  /** Every node of the list stands in d after all later ones. */
  ghost predicate ReversedIn<C>(d: seq<C>, cs: seq<C>) {
    cs == [] || ((forall y :: y in cs[1..] ==> Before(d, y, cs[0])) && ReversedIn(d, cs[1..]))
  }

  lemma {:induction false} BeforeFromSuffix<C>(d: seq<C>, s: seq<C>, x: C, y: C)
    requires Suffix(s, d) && x in d && x !in s && y in s
    ensures Before(d, x, y)
  {
    assert d != s;
    assert d[1..][|d| - 1 - |s|..] == d[|d| - |s|..];
    if d[0] == x {
      SuffixMembers(s, d[1..]);
    } else {
      BeforeFromSuffix(d[1..], s, x, y);
    }
  }

  lemma {:induction false} VisitAllReverses<C>(g: Graph<C>, cs: seq<C>, stack: set<C>, done: seq<C>)
    requires Closed(g) && forall c :: c in cs ==> c in g
    requires Ordered(g, done) && forall x :: x in done ==> x !in stack
    requires NoDup(cs) && NoForwardReach(g, cs) && forall c :: c in cs ==> c !in done
    requires VisitAll(g, cs, stack, {}, done).ok
    ensures ReversedIn(VisitAll(g, cs, stack, {}, done).done, cs)
    decreases |cs|
  {
    hide Ordered;
    if cs != [] {
      assert cs[0] in cs;
      var d := Visit(g, cs[0], stack, {}, done).done;
      VisitSound(g, cs[0], stack, done);
      forall c | c in cs[1..]
        ensures c !in d
      {
        assert c in cs;
        if c in d {
          VisitAdds(g, cs[0], stack, done, c);
        }
      }
      VisitAllReverses(g, cs[1..], stack, d);
      VisitAllSound(g, cs[1..], stack, d);
      var e := VisitAll(g, cs, stack, {}, done).done;
      forall y | y in cs[1..]
        ensures Before(e, y, cs[0])
      {
        BeforeFromSuffix(e, d, y, cs[0]);
      }
    }
  }

  /** In the linearisation from c, the successors of c stand in the reverse of
      their listed order, provided none reaches a later one. */
  lemma SuccessorsReversed<C>(g: Graph<C>, c: C)
    requires Closed(g) && c in g && Linearise(g, c).ok
    requires NoDup(g[c]) && NoForwardReach(g, g[c])
    ensures ReversedIn(Linearise(g, c).done, g[c])
  {
    assert {} + {c} == {c};
    VisitAllReverses(g, g[c], {c}, []);
    var d := VisitAll(g, g[c], {c}, {}, []).done;
    assert Linearise(g, c).done == [c] + d;
    ReversedInCons(c, d, g[c]);
  }

  lemma {:induction false} ReversedInCons<C>(c: C, d: seq<C>, cs: seq<C>)
    requires ReversedIn(d, cs)
    ensures ReversedIn([c] + d, cs)
  {
    if cs != [] {
      ReversedInCons(c, d, cs[1..]);
      assert ([c] + d)[1..] == d;
    }
  }

  // ---------------------------------------------------------------------
  // Mirrored graphs
  // ---------------------------------------------------------------------

  /** h has exactly the edges of g, turned round. */
  ghost predicate Mirror<C>(g: Graph<C>, h: Graph<C>) {
    && g.Keys == h.Keys
    && (forall c, t {:trigger t in g[c]} {:trigger c in h[t]} :: c in g && t in g ==> (t in g[c] <==> c in h[t]))
  }

  lemma {:induction false} StepsMirror<C>(g: Graph<C>, h: Graph<C>, n: nat, a: C, b: C)
    requires Closed(g) && Mirror(g, h) && a in g && Steps(g, n, a, b)
    ensures b in h && Steps(h, n, b, a)
  {
    if n > 0 {
      var m := StepsSplitLast(g, n, a, b);
      StepsMirror(g, h, n - 1, a, m);
    }
  }

  lemma ReachesMirror<C>(g: Graph<C>, h: Graph<C>, a: C, b: C)
    requires Closed(g) && Mirror(g, h) && a in g && Reaches(g, a, b)
    ensures b in h && Reaches(h, b, a)
  {
    var n: nat :| Steps(g, n, a, b);
    StepsMirror(g, h, n, a, b);
  }

  lemma AcyclicMirror<C>(g: Graph<C>, h: Graph<C>)
    requires Closed(g) && Closed(h) && Mirror(g, h)
    ensures Acyclic(g) <==> Acyclic(h)
  {
    if c :| c in g && OnCycle(g, c) {
      var n: nat :| n > 0 && Steps(g, n, c, c);
      StepsMirror(g, h, n, c, c);
    }
    if c :| c in h && OnCycle(h, c) {
      var n: nat :| n > 0 && Steps(h, n, c, c);
      assert Mirror(h, g);
      StepsMirror(h, g, n, c, c);
    }
  }
}
