/**
 Method dispatch and `next` along a precedence list.  A method table is the set of
 names a class defines; running a method means naming the class whose method is
 launched, since the bodies belong to the Tcl interpreter.
 */
module Dispatch {
  import opened Prelude
  import opened Digraph
  import opened ClassStore
  import opened ClassInvariant

  type Tables<!C> = map<C, set<string>>

  predicate Defines<C(==)>(procs: Tables<C>, c: C, nm: string) {
    c in procs && nm in procs[c]
  }

  /** The classes of pl that define nm, in order. */
  function Definers<C(==)>(pl: seq<C>, procs: Tables<C>, nm: string): (r: seq<C>)
    ensures forall c :: c in r ==> c in pl && Defines(procs, c, nm)
    ensures forall c :: c in pl && Defines(procs, c, nm) ==> c in r
  {
    if pl == [] then []
    else
      assert pl == [pl[0]] + pl[1..];
      (if Defines(procs, pl[0], nm) then [pl[0]] else []) + Definers(pl[1..], procs, nm)
  }

  /** r is the class of pl that defines nm and stands first, None if there is none. */
  ghost predicate FirstDefiner<C>(pl: seq<C>, procs: Tables<C>, nm: string, r: Option<C>) {
    match r
    case None => forall c :: c in pl ==> !Defines(procs, c, nm)
    case Some(c) => exists i :: 0 <= i < |pl| && pl[i] == c && Defines(procs, c, nm)
                                && forall j :: 0 <= j < i ==> !Defines(procs, pl[j], nm)
  }

  /** The head of the definers is the first of them in the list. */
  lemma {:induction false} DefinersFirst<C>(pl: seq<C>, procs: Tables<C>, nm: string)
    ensures var d := Definers(pl, procs, nm);
            FirstDefiner(pl, procs, nm, if d == [] then None else Some(d[0]))
  {
    if pl != [] {
      var d, rest := Definers(pl, procs, nm), Definers(pl[1..], procs, nm);
      if Defines(procs, pl[0], nm) {
        assert d[0] == pl[0];
      } else {
        assert d == rest;
        DefinersFirst(pl[1..], procs, nm);
        if d != [] {
          var i :| 0 <= i < |pl[1..]| && pl[1..][i] == d[0] && forall j :: 0 <= j < i ==> !Defines(procs, pl[1..][j], nm);
          assert forall j :: 0 < j < i + 1 ==> pl[j] == pl[1..][j - 1];
          assert pl[i + 1] == d[0];
        }
      }
    }
  }

  /** SearchCMethod: the loop up the precedence list. */
  method SearchCMethod<C(==)>(pl: seq<C>, procs: Tables<C>, nm: string) returns (r: Option<C>)
    ensures FirstDefiner(pl, procs, nm, r)
    ensures r == var d := Definers(pl, procs, nm); if d == [] then None else Some(d[0])
  {
    DefinersFirst(pl, procs, nm);
    var i := 0;
    while i < |pl|
      invariant 0 <= i <= |pl|
      invariant Definers(pl[i..], procs, nm) == Definers(pl, procs, nm)
    {
      assert pl[i..][1..] == pl[i + 1..];
      if Defines(procs, pl[i], nm) {
        return Some(pl[i]);
      }
      i := i + 1;
    }
    return None;
  }

  /** What is left of the list once `cl` has been passed; nothing if it never is. */
  function Past<C(==)>(pl: seq<C>, cl: C): (r: seq<C>)
    ensures |r| <= |pl|
    ensures cl in pl ==> |r| < |pl|
  {
    if pl == [] then [] else if pl[0] == cl then pl[1..] else Past(pl[1..], cl)
  }

  /** The part of the list that `next` searches: all of it when called from an
      object's own procedure, else what follows the calling class. */
  function Ahead<C(==)>(pl: seq<C>, from: Option<C>): (r: seq<C>)
  {
    match from
    case None => pl
    case Some(cl) => Past(pl, cl)
  }

  /** What is past cl starts right after its first place; past a class that is not there
      is nothing. */
  lemma {:induction false} PastIsAfter<C>(pl: seq<C>, cl: C)
    ensures cl !in pl ==> Past(pl, cl) == []
    ensures cl in pl ==> Past(pl, cl) == pl[ClassStore.First(pl, cl) + 1..]
  {
    if pl != [] && pl[0] != cl {
      PastIsAfter(pl[1..], cl);
      if cl in pl {
        assert cl in pl[1..];
        FirstShift(pl, cl);
      }
    }
  }

  lemma FirstShift<C>(pl: seq<C>, cl: C)
    requires pl != [] && cl in pl[1..] && pl[0] != cl
    ensures ClassStore.First(pl, cl) == ClassStore.First(pl[1..], cl) + 1
  {
  }

  /** OTclNextMethod: walk past the calling class, then search on.  A class that is not in
      the list has nothing after it. */
  method NextMethod<C(==)>(prec: seq<C>, from: Option<C>, procs: Tables<C>, nm: string) returns (r: Option<C>)
    ensures from.None? ==> FirstDefiner(prec, procs, nm, r)
    ensures from.Some? && from.value in prec ==>
              FirstDefiner(prec[ClassStore.First(prec, from.value) + 1..], procs, nm, r)
    ensures from.Some? && from.value !in prec ==> r.None?
    ensures r == var d := Definers(Ahead(prec, from), procs, nm); if d == [] then None else Some(d[0])
  {
    hide Definers, FirstDefiner, Defines, First;
    var cl := from;
    var i := 0;
    while i < |prec| && cl.Some?
      invariant 0 <= i <= |prec|
      invariant cl.Some? ==> cl == from
      invariant Ahead(prec[i..], cl) == Ahead(prec, from)
    {
      assert prec[i..][1..] == prec[i + 1..];
      if prec[i] == cl.value {
        cl := None;
      }
      i := i + 1;
    }
    assert prec[i..] == Ahead(prec, from);
    if from.Some? {
      PastIsAfter(prec, from.value);
      if from.value !in prec {
        NoDefiner(procs, nm, prec[i..]);
      }
    }
    r := SearchCMethod(prec[i..], procs, nm);
  }

  lemma NoDefiner<C>(procs: Tables<C>, nm: string, pl: seq<C>)
    requires pl == []
    ensures Definers(pl, procs, nm) == []
  {
  }

  /** OTclDispatch: the object's own procedures come first. */
  datatype Target<C> = Own | OfClass(c: C) | NoMethod

  method DispatchMessage<C(==)>(own: set<string>, prec: seq<C>, procs: Tables<C>, nm: string) returns (t: Target<C>)
    ensures t.Own? <==> nm in own
    ensures nm !in own ==> FirstDefiner(prec, procs, nm, if t.OfClass? then Some(t.c) else None)
    ensures t == Start(own, prec, procs, nm)
  {
    if nm in own {
      return Own;
    }
    var r := SearchCMethod(prec, procs, nm);
    return if r.Some? then OfClass(r.value) else NoMethod;
  }

  function Start<C(==)>(own: set<string>, prec: seq<C>, procs: Tables<C>, nm: string): (t: Target<C>) {
    var d := Definers(prec, procs, nm);
    if nm in own then Own else if d == [] then NoMethod else OfClass(d[0])
  }

  // ---------------------------------------------------------------------
  // Whole chains
  // ---------------------------------------------------------------------

  /** The classes whose methods run when each method in turn calls `next`.  On a list
      with a repeated class this would go round for ever. */
  function Nexts<C(==)>(prec: seq<C>, from: Option<C>, procs: Tables<C>, nm: string): (run: seq<C>)
    requires NoDup(prec)
    decreases |Ahead(prec, from)|
  {
    var d := Definers(Ahead(prec, from), procs, nm);
    if d == [] then []
    else
      AheadShrinks(prec, from, d[0]);
      [d[0]] + Nexts(prec, Some(d[0]), procs, nm)
  }

  lemma {:induction false} PastMembers<C>(l: seq<C>, b: C, c: C)
    requires NoDup(l) && c in Past(l, b)
    ensures c in l && c != b
  {
    if l[0] != b {
      PastMembers(l[1..], b, c);
    }
  }

  /** Passing b and then c is passing c. */
  lemma {:induction false} PastPast<C>(l: seq<C>, b: C, c: C)
    requires NoDup(l) && c in Past(l, b)
    ensures Past(l, c) == Past(Past(l, b), c)
  {
    if l[0] == b {
      PastMembers(l, b, c);
    } else {
      PastMembers(l[1..], b, c);
      PastPast(l[1..], b, c);
    }
  }

  lemma AheadShrinks<C>(prec: seq<C>, from: Option<C>, c: C)
    requires NoDup(prec) && c in Ahead(prec, from)
    ensures |Past(prec, c)| < |Ahead(prec, from)|
  {
    if from.Some? {
      PastPast(prec, from.value, c);
    }
  }

  lemma {:induction false} PastNoDup<C>(l: seq<C>, b: C)
    requires NoDup(l)
    ensures NoDup(Past(l, b))
  {
    if l != [] && l[0] != b {
      PastNoDup(l[1..], b);
    }
  }

  /** Past the first definer come the other definers. */
  lemma {:induction false} DefinersPast<C>(l: seq<C>, procs: Tables<C>, nm: string)
    requires NoDup(l) && Definers(l, procs, nm) != []
    ensures Definers(Past(l, Definers(l, procs, nm)[0]), procs, nm) == Definers(l, procs, nm)[1..]
  {
    if !Defines(procs, l[0], nm) {
      DefinersPast(l[1..], procs, nm);
    }
  }

  /** Repeated `next` runs exactly the defining classes still ahead, in order. */
  lemma {:induction false} NextsExact<C>(prec: seq<C>, from: Option<C>, procs: Tables<C>, nm: string)
    requires NoDup(prec)
    ensures Nexts(prec, from, procs, nm) == Definers(Ahead(prec, from), procs, nm)
    decreases |Ahead(prec, from)|
  {
    var l := Ahead(prec, from);
    var d := Definers(l, procs, nm);
    if d != [] {
      AheadShrinks(prec, from, d[0]);
      NextsExact(prec, Some(d[0]), procs, nm);
      if from.Some? {
        PastPast(prec, from.value, d[0]);
        PastNoDup(prec, from.value);
      }
      DefinersPast(l, procs, nm);
    }
  }

  /** All that a message to an object runs: its own procedure if it has one, then methods
      of classes. */
  function Chain<C(==)>(own: set<string>, prec: seq<C>, procs: Tables<C>, nm: string): (run: seq<Target<C>>)
    requires NoDup(prec)
  {
    match Start(own, prec, procs, nm)
    case Own => [Own] + Methods(Nexts(prec, None, procs, nm))
    case OfClass(c) => [OfClass(c)] + Methods(Nexts(prec, Some(c), procs, nm))
    case NoMethod => []
  }

  function Methods<C>(cs: seq<C>): (run: seq<Target<C>>)
    ensures |run| == |cs| && forall i :: 0 <= i < |cs| ==> run[i] == OfClass(cs[i])
  {
    if cs == [] then [] else [OfClass(cs[0])] + Methods(cs[1..])
  }

  lemma MethodsCons<C>(c: C, cs: seq<C>)
    ensures Methods([c] + cs) == [OfClass(c)] + Methods(cs)
  {
    assert ([c] + cs)[1..] == cs;
  }

  /** The object's own procedure runs first if there is one, then the defining classes of
      the list, in order. */
  lemma ChainExact<C>(own: set<string>, prec: seq<C>, procs: Tables<C>, nm: string)
    requires NoDup(prec)
    ensures Chain(own, prec, procs, nm) == (if nm in own then [Own] else []) + Methods(Definers(prec, procs, nm))
  {
    var d := Definers(prec, procs, nm);
    NextsExact(prec, None, procs, nm);
    if d != [] {
      NextsExact(prec, Some(d[0]), procs, nm);
      DefinersPast(prec, procs, nm);
      MethodsCons(d[0], d[1..]);
      assert d == [d[0]] + d[1..];
    }
  }

  lemma ChainStart<C>(own: set<string>, prec: seq<C>, procs: Tables<C>, nm: string, t: Target<C>)
    requires NoDup(prec) && t == Start(own, prec, procs, nm)
    ensures t.NoMethod? ==> Chain(own, prec, procs, nm) == []
    ensures !t.NoMethod? ==>
              Chain(own, prec, procs, nm) == [t] + Methods(Nexts(prec, if t.Own? then None else Some(t.c), procs, nm))
  {
  }

  lemma NextsStep<C>(prec: seq<C>, from: Option<C>, procs: Tables<C>, nm: string, r: Option<C>)
    requires NoDup(prec) && r == var d := Definers(Ahead(prec, from), procs, nm); if d == [] then None else Some(d[0])
    ensures r.None? ==> Methods(Nexts(prec, from, procs, nm)) == []
    ensures r.Some? ==> Methods(Nexts(prec, from, procs, nm)) == [OfClass(r.value)] + Methods(Nexts(prec, r, procs, nm))
    ensures r.Some? ==> |Ahead(prec, r)| < |Ahead(prec, from)|
  {
    if r.Some? {
      AheadShrinks(prec, from, r.value);
      MethodsCons(r.value, Nexts(prec, r, procs, nm));
    }
  }

  /** A message sent, and sent on by `next` from every method it runs. */
  method SendMessage<C(==)>(own: set<string>, prec: seq<C>, procs: Tables<C>, nm: string) returns (run: seq<Target<C>>)
    requires NoDup(prec)
    ensures run == Chain(own, prec, procs, nm)
  {
    hide Definers, Chain, Start, Ahead, Past, FirstDefiner, Methods, Nexts, NoDup, Defines, First;
    var t := DispatchMessage(own, prec, procs, nm);
    ChainStart(own, prec, procs, nm, t);
    if t.NoMethod? {
      return [];
    }
    run := [t];
    var from := if t.Own? then None else Some(t.c);
    var more := true;
    while more
      invariant more ==> Chain(own, prec, procs, nm) == run + Methods(Nexts(prec, from, procs, nm))
      invariant !more ==> Chain(own, prec, procs, nm) == run
      decreases more, |Ahead(prec, from)|
    {
      var r := NextMethod(prec, from, procs, nm);
      NextsStep(prec, from, procs, nm, r);
      if r.None? {
        more := false;
      } else {
        run := run + [OfClass(r.value)];
        from := r;
      }
    }
  }

  lemma {:induction false} DefinersOrder<C>(l: seq<C>, procs: Tables<C>, nm: string, x: C, y: C)
    requires Before(l, x, y) && Defines(procs, x, nm) && Defines(procs, y, nm)
    ensures Before(Definers(l, procs, nm), x, y)
  {
    var d := Definers(l, procs, nm);
    if Defines(procs, l[0], nm) {
      assert d == [l[0]] + Definers(l[1..], procs, nm);
      assert d[1..] == Definers(l[1..], procs, nm);
    } else {
      assert d == Definers(l[1..], procs, nm);
    }
    if !(l[0] == x && y in l[1..]) {
      DefinersOrder(l[1..], procs, nm, x, y);
    }
  }

  lemma {:induction false} DefinersNoDup<C>(l: seq<C>, procs: Tables<C>, nm: string)
    requires NoDup(l)
    ensures NoDup(Definers(l, procs, nm))
  {
    if l != [] {
      DefinersNoDup(l[1..], procs, nm);
      if Defines(procs, l[0], nm) {
        NoDupCons(l[0], Definers(l[1..], procs, nm));
      } else {
        assert Definers(l, procs, nm) == Definers(l[1..], procs, nm);
      }
    }
  }

  /** run is what a message nm should run along prec: the own procedure exactly if there
      is one, and first; then a class's method exactly if the class is in the heritage of
      c and defines it, once each, subclasses before superclasses. */
  ghost predicate RunsHeritage<C>(run: seq<Target<C>>, classes: seq<C>, g: Graph<C>, c: C, own: set<string>, procs: Tables<C>, nm: string) {
    && run == (if nm in own then [Own] else []) + Methods(classes)
    && NoDup(classes)
    && (forall x :: x in classes ==> x in g)
    && (forall x :: x in g ==> (x in classes <==> Reaches(g, c, x) && Defines(procs, x, nm)))
    && (forall x, s {:trigger s in g[x]} :: x in classes && x in g && s in g[x] && s in classes ==> Before(classes, x, s))
  }

  /** Along a linearisation the chain does. */
  lemma ChainOfLinearisation<C>(g: Graph<C>, c: C, own: set<string>, procs: Tables<C>, nm: string)
    requires Closed(g) && c in g && Linearise(g, c).ok
    ensures NoDup(Linearise(g, c).done)
    ensures var prec := Linearise(g, c).done;
            RunsHeritage(Chain(own, prec, procs, nm), Definers(prec, procs, nm), g, c, own, procs, nm)
  {
    hide Chain, Definers;
    var prec := Linearise(g, c).done;
    LineariseCorrect(g, c);
    OrderedMembers(g, prec);
    ChainExact(own, prec, procs, nm);
    var d := Definers(prec, procs, nm);
    DefinersNoDup(prec, procs, nm);
    forall x, s {:trigger s in g[x]} | x in d && x in g && s in g[x] && s in d
      ensures Before(d, x, s)
    {
      OrderedBefore(g, prec, x, s);
      DefinersOrder(prec, procs, nm, x, s);
    }
  }

  /** A message to an object of class c, sent on by `next` until it stops, runs the
      object's own procedure first if it has one, then the method of every class in c's
      heritage that defines it.  The list is the one in the slot of c, which every `next`
      finds unchanged. */
  lemma ChainRunsHeritage<C>(st: Store<C>, c: C, own: set<string>, procs: Tables<C>, nm: string)
    requires Inv(st) && c in st.sup
    ensures var read := Compute(st, c, Super);
            Inv(read) && Compute(read, c, Super) == read && NoDup(read.order[c])
    ensures exists classes ::
              RunsHeritage(Chain(own, Compute(st, c, Super).order[c], procs, nm), classes, st.sup, c, own, procs, nm)
  {
    ComputeKeepsInv(st, c);
    LineariseCorrect(st.sup, c);
    ChainOfLinearisation(st.sup, c, own, procs, nm);
  }
}
