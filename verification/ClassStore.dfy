/**
 The OTcl class store as a value: superclass and subclass lists, the classes left
 coloured BLACK, and the one `order` slot per class that caches its precedence
 list.  Every operation of the class graph is a function on stores, step for step
 as the C code performs it; what those functions guarantee is proved in
 ClassInvariant.dfy, and OTcl.dfy proves that the in-place code computes them.
 */
module ClassStore {
  import opened Prelude
  import opened Digraph

  datatype Store<C> = Store(sup: Graph<C>, sub: Graph<C>, black: set<C>, order: Graph<C>)

  datatype Direction = Super | Sub

  datatype Outcome = Accepted | NotInDependenceOrder | WouldBeCyclic

  ghost predicate WellFormed<C>(st: Store<C>) {
    && st.sup.Keys == st.sub.Keys == st.order.Keys
    && st.black <= st.sup.Keys
    && Closed(st.sup) && Closed(st.sub)
  }

  function Edges<C>(st: Store<C>, dir: Direction): (g: Graph<C>)
  {
    match dir
    case Super => st.sup
    case Sub => st.sub
  }

  // ---------------------------------------------------------------------
  // Lists
  // ---------------------------------------------------------------------

  function Prepend<C(==)>(l: seq<C>, s: C): (r: seq<C>)
    ensures s in r
    ensures forall x :: x in r ==> x == s || x in l
    ensures forall x :: x in l ==> x in r
  {
    if s in l then l else [s] + l
  }

  /** l without its first s. */
  function Drop<C(==)>(l: seq<C>, s: C): (r: seq<C>)
    ensures |r| == if s in l then |l| - 1 else |l|
  {
    if l == [] then []
    else if l[0] == s then l[1..]
    else [l[0]] + Drop(l[1..], s)
  }

  lemma {:induction false} DropMembers<C>(l: seq<C>, s: C)
    ensures forall x :: x in Drop(l, s) ==> x in l
    ensures forall x :: x in l && x != s ==> x in Drop(l, s)
    ensures s !in l ==> Drop(l, s) == l
  {
    if l == [] || l[0] == s {
    } else {
      DropMembers(l[1..], s);
      assert l == [l[0]] + l[1..];
    }
  }

  function First<C(==)>(l: seq<C>, s: C): (k: nat)
    requires s in l
    ensures k < |l| && l[k] == s && s !in l[..k]
  {
    if l[0] == s then 0 else
      var k := First(l[1..], s);
      assert l[..k + 1] == [l[0]] + l[1..][..k];
      k + 1
  }

  function Reverse<C>(l: seq<C>): (r: seq<C>)
    ensures |r| == |l|
  {
    if l == [] then [] else Reverse(l[1..]) + [l[0]]
  }

  lemma {:induction false} ReverseMember<C>(l: seq<C>, x: C)
    ensures x in Reverse(l) <==> x in l
  {
    if l != [] {
      ReverseMember(l[1..], x);
      assert l == [l[0]] + l[1..];
    }
  }

  lemma ReverseMembers<C>(l: seq<C>)
    ensures forall x :: x in Reverse(l) <==> x in l
  {
    forall x
      ensures x in Reverse(l) <==> x in l
    {
      ReverseMember(l, x);
    }
  }

  lemma {:induction false} ReverseAt<C>(l: seq<C>, i: nat)
    requires i < |l|
    ensures Reverse(l)[i] == l[|l| - 1 - i]
  {
    if i < |l| - 1 {
      ReverseAt(l[1..], i);
    }
  }

  // ---------------------------------------------------------------------
  // Sorting into the order slot
  // ---------------------------------------------------------------------

  datatype Sorted<C> = Sorted(ok: bool, list: seq<C>, black: set<C>)

  /** The entries of base's own list that stand before base. */
  function BeforeSelf<C(==)>(g: Graph<C>, base: C): (p: seq<C>)
    requires Closed(g) && base in g && base in g[base]
    ensures p < g[base] && base !in p
    ensures forall c :: c in p ==> c in g && c in g[base]
  {
    var p := g[base][..First(g[base], base)];
    assert forall i :: 0 <= i < |p| ==> p[i] in g[base];
    p
  }

  /** The sort of base gives up at its own entry in its own list, and so returns
      without resetting the colours of the classes already reported. */
  predicate GivesUpAtSelf<C(==)>(g: Graph<C>, base: C, skip: set<C>)
    requires Closed(g) && base in g
  {
    base in g[base] && VisitAll(g, BeforeSelf(g, base), {base}, skip, []).ok
  }

  function Elems<C(==)>(d: seq<C>): (s: set<C>)
  {
    set x | x in d
  }

  /** The classes BLACK after the sort of base, when `reported` were reported. */
  function LeftBlack<C(==)>(g: Graph<C>, base: C, skip: set<C>, reported: seq<C>): (black: set<C>)
    requires Closed(g) && base in g
  {
    if GivesUpAtSelf(g, base, skip) then skip + Elems(reported) else skip
  }

  function TopoSort<C(==)>(g: Graph<C>, black: set<C>, base: C): (r: Sorted<C>)
    requires Closed(g) && base in g
  {
    var skip := black - {base};
    var v := Visit(g, base, {}, skip, []);
    Sorted(v.ok, v.done, LeftBlack(g, base, skip, v.done))
  }

  /** ComputePrecedence and ComputeDependents: use the slot if filled, else sort into it. */
  function Compute<C(==)>(st: Store<C>, c: C, dir: Direction): (r: Store<C>)
    requires WellFormed(st) && c in st.sup
    ensures WellFormed(r) && r.sup == st.sup && r.sub == st.sub
  {
    if st.order[c] != [] then st
    else
      var t := TopoSort(Edges(st, dir), st.black, c);
      TopoSortListed(Edges(st, dir), st.black, c);
      st.(order := st.order[c := if t.ok then t.list else []], black := t.black)
  }

  /** Only classes of the graph are ever reported. */
  lemma TopoSortListed<C>(g: Graph<C>, black: set<C>, base: C)
    requires Closed(g) && base in g
    ensures forall x :: x in TopoSort(g, black, base).list ==> x in g
  {
    VisitListed(g, base, {}, black - {base}, []);
  }

  lemma {:induction false} VisitListed<C>(g: Graph<C>, c: C, stack: set<C>, skip: set<C>, done: seq<C>)
    requires Closed(g) && c in g && c !in stack && forall x :: x in done ==> x in g
    ensures forall x :: x in Visit(g, c, stack, skip, done).done ==> x in g
    decreases g.Keys - stack, 0
  {
    VisitAllListed(g, g[c], stack + {c}, skip, done);
  }

  lemma {:induction false} VisitAllListed<C>(g: Graph<C>, cs: seq<C>, stack: set<C>, skip: set<C>, done: seq<C>)
    requires Closed(g) && (forall c :: c in cs ==> c in g) && forall x :: x in done ==> x in g
    ensures forall x :: x in VisitAll(g, cs, stack, skip, done).done ==> x in g
    decreases g.Keys - stack, |cs|
  {
    if cs == [] || cs[0] in stack {
    } else if cs[0] in done || cs[0] in skip {
      VisitAllListed(g, cs[1..], stack, skip, done);
    } else {
      VisitListed(g, cs[0], stack, skip, done);
      var r := Visit(g, cs[0], stack, skip, done);
      if r.ok {
        VisitAllListed(g, cs[1..], stack, skip, r.done);
      }
    }
  }

  function Clear<C(==)>(order: Graph<C>, c: C, cs: seq<C>): (r: Graph<C>)
    ensures r.Keys == order.Keys
  {
    map x | x in order :: if x == c || x in cs then [] else order[x]
  }

  /** FlushPrecedences: sort downwards through the borrowed slot, then clear the
      slots of everything found, and the borrowed one. */
  function Flush<C(==)>(st: Store<C>, c: C): (r: Store<C>)
    requires WellFormed(st) && c in st.sup
    ensures WellFormed(r) && r.sup == st.sup && r.sub == st.sub
  {
    var st := Compute(st.(order := st.order[c := []]), c, Sub);
    st.(order := Clear(st.order, c, st.order[c]))
  }

  // ---------------------------------------------------------------------
  // Links
  // ---------------------------------------------------------------------

  function AddSuper<C(==)>(st: Store<C>, c: C, s: C): (r: Store<C>)
    requires WellFormed(st) && c in st.sup && s in st.sup
    ensures WellFormed(r) && r.sup.Keys == st.sup.Keys && r.order == st.order && r.black == st.black
  {
    st.(sup := st.sup[c := Prepend(st.sup[c], s)], sub := st.sub[s := Prepend(st.sub[s], c)])
  }

  function AddSupers<C(==)>(st: Store<C>, c: C, ss: seq<C>): (r: Store<C>)
    requires WellFormed(st) && c in st.sup && forall s :: s in ss ==> s in st.sup
    ensures WellFormed(r) && r.sup.Keys == st.sup.Keys && r.order == st.order && r.black == st.black
    decreases |ss|
  {
    if ss == [] then st else AddSupers(AddSuper(st, c, ss[0]), c, ss[1..])
  }

  function RemoveSuper<C(==)>(st: Store<C>, c: C, s: C): (r: Store<C>)
    requires WellFormed(st) && c in st.sup && s in st.sup
    ensures WellFormed(r) && r.sup.Keys == st.sup.Keys && r.order == st.order && r.black == st.black
  {
    DropMembers(st.sup[c], s);
    DropMembers(st.sub[s], c);
    st.(sup := st.sup[c := Drop(st.sup[c], s)], sub := st.sub[s := Drop(st.sub[s], c)])
  }

  function UnlinkSupers<C(==)>(st: Store<C>, c: C): (r: Store<C>)
    requires WellFormed(st) && c in st.sup
    ensures WellFormed(r) && r.sup.Keys == st.sup.Keys && r.order == st.order && r.black == st.black
    decreases |st.sup[c]|
  {
    if st.sup[c] == [] then st else
      assert st.sup[c][0] in st.sup[c];
      UnlinkSupers(RemoveSuper(st, c, st.sup[c][0]), c)
  }

  function UnlinkSubs<C(==)>(st: Store<C>, c: C): (r: Store<C>)
    requires WellFormed(st) && c in st.sup
    ensures WellFormed(r) && r.sup.Keys == st.sup.Keys && r.order == st.order && r.black == st.black
    decreases |st.sub[c]|
  {
    if st.sub[c] == [] then st else
      assert st.sub[c][0] in st.sub[c];
      UnlinkSubs(RemoveSuper(st, st.sub[c][0], c), c)
  }

  // ---------------------------------------------------------------------
  // Operations
  // ---------------------------------------------------------------------

  datatype Checked<C> = Checked(st: Store<C>, reversed: bool)

  ghost predicate Live<C>(st: Store<C>, cs: seq<C>) {
    forall c {:trigger c in cs} :: c in cs ==> c in st.sup
  }

  /** The inner loop of the dependence check: does req[i] precede some later req[j]'s heritage? */
  function CheckAgainst<C(==)>(st: Store<C>, req: seq<C>, i: nat, j: nat, reversed: bool): (r: Checked<C>)
    requires WellFormed(st) && Live(st, req) && i < |req|
    ensures WellFormed(r.st) && r.st.sup == st.sup && r.st.sub == st.sub
    decreases |req| - j
  {
    if j >= |req| then Checked(st, reversed)
    else
      assert req[j] in req;
      var st := Compute(st, req[j], Super);
      if reversed then Checked(st, true)
      else CheckAgainst(st, req, i, j + 1, req[i] in st.order[req[j]])
  }

  function Check<C(==)>(st: Store<C>, req: seq<C>, i: nat): (r: Checked<C>)
    requires WellFormed(st) && Live(st, req)
    ensures WellFormed(r.st) && r.st.sup == st.sup && r.st.sub == st.sub
    decreases |req| - i
  {
    if i >= |req| then Checked(st, false)
    else
      var k := CheckAgainst(st, req, i, i + 1, false);
      if k.reversed then k else Check(k.st, req, i + 1)
  }

  datatype Answer<C, R> = Answer(st: Store<C>, result: R)

  /** The `superclass` method once the dependence check has passed. */
  function Relink<C(==)>(st: Store<C>, c: C, req: seq<C>): (r: Answer<C, Outcome>)
    requires WellFormed(st) && c in st.sup && Live(st, req)
    ensures WellFormed(r.st)
  {
    var osl := Reverse(st.sup[c]);
    ReverseMembers(st.sup[c]);
    var linked := AddSupers(UnlinkSupers(st, c), c, req);
    var sorted := Compute(Flush(linked, c), c, Super);
    if sorted.order[c] == [] then
      Answer(AddSupers(UnlinkSupers(sorted, c), c, osl), WouldBeCyclic)
    else
      Answer(sorted, Accepted)
  }

  function SuperClass<C(==)>(st: Store<C>, c: C, req: seq<C>): (r: Answer<C, Outcome>)
    requires WellFormed(st) && c in st.sup && Live(st, req)
    ensures WellFormed(r.st)
  {
    var k := Check(st, req, 0);
    if k.reversed then Answer(k.st, NotInDependenceOrder) else Relink(k.st, c, req)
  }

  /** `info superclass ?class?` and every other use of the precedence list. */
  function InfoSuperclass<C(==)>(st: Store<C>, c: C, isc: C): (r: Answer<C, bool>)
    requires WellFormed(st) && c in st.sup
    ensures WellFormed(r.st)
  {
    var st := Compute(st, c, Super);
    Answer(st, isc in st.order[c])
  }

  /** `info subclass ?class?`: the slot is saved, used for a downward sort and restored. */
  function InfoSubclass<C(==)>(st: Store<C>, c: C, isc: C): (r: Answer<C, bool>)
    requires WellFormed(st) && c in st.sup
    ensures WellFormed(r.st)
  {
    var sorted := Compute(st.(order := st.order[c := []]), c, Sub);
    Answer(sorted.(order := sorted.order[c := st.order[c]]), isc in sorted.order[c])
  }

  /** PrimitiveCInit: a fresh class below `parent`, when there is one. */
  function Create<C(==)>(st: Store<C>, c: C, parent: Option<C>): (r: Store<C>)
    requires WellFormed(st) && c !in st.sup && (parent.Some? ==> parent.value in st.sup)
    ensures WellFormed(r)
  {
    var st := Store(st.sup[c := []], st.sub[c := []], st.black, st.order[c := []]);
    if parent.Some? then AddSuper(st, c, parent.value) else st
  }

  /** The unlinking part of PrimitiveCDestroy, and the end of the class. */
  function Destroy<C(==)>(st: Store<C>, c: C): (r: Store<C>)
    requires WellFormed(st) && c in st.sup
  {
    var st := UnlinkSubs(UnlinkSupers(Flush(st, c), c), c);
    Store(st.sup - {c}, st.sub - {c}, st.black - {c}, st.order - {c})
  }
}
