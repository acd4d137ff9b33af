/** Reachability in a finite graph through nodes of a given colour. */
module Reachability {

  /** Nodes reachable from a node in at most n steps, each of which ends in a white node. */
  ghost function Within<T>(g: map<T, set<T>>, white: set<T>, from: T, n: nat): set<T> {
    if n == 0 then {from}
    else
      var near := Within(g, white, from, n - 1);
      near + set v, w | v in near && v in g && w in g[v] && w in white :: w
  }

  ghost predicate Reaches<T>(g: map<T, set<T>>, white: set<T>, from: T, to: T) {
    exists n: nat :: to in Within(g, white, from, n)
  }

  lemma ReachesSelf<T>(g: map<T, set<T>>, white: set<T>, from: T)
    ensures Reaches(g, white, from, from)
  {
    assert from in Within(g, white, from, 0);
  }

  lemma ReachesStep<T>(g: map<T, set<T>>, white: set<T>, from: T, v: T, w: T)
    requires Reaches(g, white, from, v) && v in g && w in g[v] && w in white
    ensures Reaches(g, white, from, w)
  {
    var n: nat :| v in Within(g, white, from, n);
    assert w in Within(g, white, from, n + 1);
  }

  /** What a white successor reaches over fewer white nodes is reached from the node itself. */
  lemma {:induction false} ReachesThrough<T>(g: map<T, set<T>>, white: set<T>, less: set<T>, from: T, v: T, to: T)
    requires less <= white && from in g && v in g[from] && v in white
    requires Reaches(g, less, v, to)
    ensures Reaches(g, white, from, to)
  {
    var n: nat :| to in Within(g, less, v, n);
    WithinThrough(g, white, less, from, v, n);
    assert to in Within(g, white, from, n + 1);
  }

  lemma {:induction false} WithinThrough<T>(g: map<T, set<T>>, white: set<T>, less: set<T>, from: T, v: T, n: nat)
    requires less <= white && from in g && v in g[from] && v in white
    ensures Within(g, less, v, n) <= Within(g, white, from, n + 1)
  {
    if n == 0 {
      assert from in Within(g, white, from, 0);
    } else {
      WithinThrough(g, white, less, from, v, n - 1);
    }
  }

  /** A set that holds the start and is closed under white steps holds everything reachable. */
  lemma {:induction false} ReachableInClosed<T>(g: map<T, set<T>>, white: set<T>, from: T, closed: set<T>, to: T)
    requires from in closed
    requires forall v, w :: v in closed && v in g && w in g[v] && w in white ==> w in closed
    requires Reaches(g, white, from, to)
    ensures to in closed
  {
    var n: nat :| to in Within(g, white, from, n);
    WithinInClosed(g, white, from, closed, n);
  }

  lemma {:induction false} WithinInClosed<T>(g: map<T, set<T>>, white: set<T>, from: T, closed: set<T>, n: nat)
    requires from in closed
    requires forall v, w :: v in closed && v in g && w in g[v] && w in white ==> w in closed
    ensures Within(g, white, from, n) <= closed
  {
    if n > 0 {
      WithinInClosed(g, white, from, closed, n - 1);
    }
  }

  // ----- Invariants of a depth-first search -----

  /** The search from a node has marked reachable nodes only, and every white successor of a finished one. */
  ghost predicate Searching<T>(g: map<T, set<T>>, white: set<T>, from: T, marked: set<T>) {
    && from in marked && marked <= white + {from}
    && (forall t {:trigger Reaches(g, white, from, t)} :: t in marked ==> Reaches(g, white, from, t))
    && (forall t, w {:trigger w in g[t]} :: t in marked && t != from && t in g && w in g[t] && w in white ==> w in marked)
  }

  ghost predicate IsReachSet<T>(g: map<T, set<T>>, white: set<T>, from: T, S: set<T>, reached: set<T>) {
    forall t {:trigger Reaches(g, white, from, t)} :: t in S ==> (t in reached <==> Reaches(g, white, from, t))
  }

  lemma WhiteSuccessors<T>(g: map<T, set<T>>, white: set<T>, from: T, to: T)
    requires Reaches(g, white, from, to)
    ensures to == from || to in white
  {
    var n: nat :| to in Within(g, white, from, n);
    WithinWhite(g, white, from, n);
  }

  lemma {:induction false} WithinWhite<T>(g: map<T, set<T>>, white: set<T>, from: T, n: nat)
    ensures Within(g, white, from, n) <= white + {from}
  {
    if n > 0 {
      WithinWhite(g, white, from, n - 1);
    }
  }

  /** A nested search over the nodes still white keeps the invariant of the outer one. */
  lemma NestedSearch<T>(g: map<T, set<T>>, white: set<T>, from: T, marked: set<T>, v: T, S: set<T>, reached: set<T>)
    requires Searching(g, white, from, marked)
    requires from in g && v in g[from] && v in white - marked && white <= S
    requires reached <= S && IsReachSet(g, white - marked, v, S, reached)
    ensures Searching(g, white, from, marked + reached) && v in reached && reached !! marked
  {
    var less := white - marked;
    ReachesSelf(g, less, v);
    forall t | t in reached
      ensures t in less && Reaches(g, white, from, t)
    {
      WhiteSuccessors(g, less, v, t);
      ReachesThrough(g, white, less, from, v, t);
    }
    forall t, w | t in reached && t in g && w in g[t] && w in white
      ensures w in marked + reached
    {
      if w !in marked {
        ReachesStep(g, less, v, t, w);
      }
    }
  }

  /** A finished search has marked exactly what is reachable. */
  lemma SearchDone<T>(g: map<T, set<T>>, white: set<T>, from: T, S: set<T>, marked: set<T>)
    requires Searching(g, white, from, marked)
    requires from in g ==> forall w :: w in g[from] && w in white ==> w in marked
    ensures IsReachSet(g, white, from, S, marked)
  {
    forall t | t in S && Reaches(g, white, from, t)
      ensures t in marked
    {
      ReachableInClosed(g, white, from, marked, t);
    }
  }

  // ----- Spreading from several sources -----

  /** Every marked node was white, is reachable from the source on record, and its white successors are marked. */
  ghost predicate Spread<T>(g: map<T, set<T>>, white: set<T>, sources: set<T>, origin: map<T, T>) {
    && origin.Keys <= white
    && (forall t {:trigger origin[t]} :: t in origin ==> origin[t] in sources && Reaches(g, white, origin[t], t))
    && (forall t, w {:trigger w in g[t]} :: t in origin && t in g && w in g[t] && w in white ==> w in origin)
  }

  /** A search from a white successor of a source extends the spread. */
  lemma SpreadFurther<T>(g: map<T, set<T>>, white: set<T>, sources: set<T>, origin: map<T, T>,
                         source: T, v: T, S: set<T>, reached: set<T>)
    requires Spread(g, white, sources, origin) && white <= S
    requires source in sources && source in g && v in g[source] && v in white - origin.Keys
    requires reached <= S && IsReachSet(g, white - origin.Keys, v, S, reached)
    ensures v in reached && reached <= white && reached !! origin.Keys
    ensures Spread(g, white, sources, origin + map t | t in reached :: source)
  {
    var less := white - origin.Keys;
    var after := origin + map t | t in reached :: source;
    ReachesSelf(g, less, v);
    forall t | t in reached
      ensures t in less && Reaches(g, white, source, t)
    {
      WhiteSuccessors(g, less, v, t);
      ReachesThrough(g, white, less, source, v, t);
    }
    forall t, w | t in reached && t in g && w in g[t] && w in white
      ensures w in after
    {
      if w !in origin {
        ReachesStep(g, less, v, t, w);
      }
    }
  }

  lemma SpreadIsClosed<T>(g: map<T, set<T>>, white: set<T>, sources: set<T>, origin: map<T, T>, t: T, w: T)
    requires Spread(g, white, sources, origin) && t in origin && t in g && w in g[t] && w in white
    ensures w in origin
  {
  }

  /** Once the white successors of a source are marked, so is everything it reaches. */
  lemma SpreadReaches<T>(g: map<T, set<T>>, white: set<T>, sources: set<T>, origin: map<T, T>, s: T, t: T)
    requires Spread(g, white, sources, origin)
    requires s in g ==> forall w :: w in g[s] && w in white ==> w in origin
    requires Reaches(g, white, s, t)
    ensures t == s || t in origin
  {
    ReachableInClosed(g, white, s, origin.Keys + {s}, t);
  }
}

/** Spreading clientdata over the converter-free casts. */
module ClientData {
  import opened CastLists
  import opened Reachability

  type Graph = map<TypeInfo, set<TypeInfo>>

  /** The nodes of all cast lists of S. */
  ghost function Nodes(S: set<TypeInfo>): (N: set<CastInfo>)
    reads S`casts
    ensures forall t, c :: t in S && c in t.casts ==> c in N
  {
    set t, c | t in S && c in t.casts :: c
  }

  ghost predicate WellFormed(S: set<TypeInfo>)
    reads S`cast, S`casts, Nodes(S)
  {
    forall t :: t in S ==> t.Sound(S)
  }

  /** The converter-free cast graph over S. */
  ghost function CastGraph(S: set<TypeInfo>): Graph
    reads S`casts, Nodes(S)`ty
  {
    map t | t in S :: t.Targets()
  }

  ghost function DataOf(S: set<TypeInfo>): map<TypeInfo, Pointer>
    reads S`clientdata
  {
    map t | t in S :: t.clientdata
  }

  /** The types without clientdata. */
  ghost function White(S: set<TypeInfo>): set<TypeInfo>
    reads S`clientdata
  {
    set t | t in S && t.clientdata == 0
  }

  /** A lookup in one list leaves the others and the cast graph as they are. */
  method CheckIn(ty: TypeInfo, q: Query, ghost S: set<TypeInfo>) returns (r: CastInfo?)
    requires WellFormed(S) && ty in S
    modifies ty`cast, ty`casts, NodesOf(ty)`next, NodesOf(ty)`prev
    ensures WellFormed(S) && CastGraph(S) == old(CastGraph(S))
    ensures ty.casts == Touch(old(ty.casts), old(Place(ty.casts, q)))
    ensures r == old(Lookup(ty.casts, q))
  {
    assert ty.Sound(S);
    ghost var touched := NodesOf(ty);
    r := Check(ty, q);
    CheckedSound(ty, S, touched);
    forall t | t in S
      ensures t.Sound(S) && t.Targets() == old(t.Targets())
    {
      if t != ty {
        assert old(t.Sound(S));
        forall k | 0 <= k < |t.casts|
          ensures t.casts[k].Same()
        {
          assert old(t.casts[k].owner) == t;
        }
        t.Kept(S);
      }
    }
  }

  /** A reordered list is sound again. */
  lemma CheckedSound(ty: TypeInfo, S: set<TypeInfo>, nodes: set<CastInfo>)
    requires ty.ListOK() && nodes == NodesOf(ty)
    requires forall c :: c in nodes ==> c.ty in S && c.ty.name == c.targetName
    ensures ty.Sound(S) && ty.Targets() == set c | c in nodes && !c.converter :: c.ty
  {
  }

  /** Writing clientdata does not touch the lists. */
  method SetClientData(ti: TypeInfo, clientdata: Pointer, ghost S: set<TypeInfo>)
    requires clientdata != 0 && ti in S && WellFormed(S)
    modifies ti`clientdata
    ensures ti.clientdata == clientdata
    ensures WellFormed(S) && CastGraph(S) == old(CastGraph(S)) && White(S) == old(White(S)) - {ti}
  {
    ti.clientdata := clientdata;
    forall t | t in S
      ensures t.Sound(S)
      ensures t.Targets() == old(t.Targets())
    {
      t.Kept(S);
    }
  }

  /**
   * SWIG_TypeClientData: the recursion uses "clientdata is null" as its mark of an unvisited type. It ends on every
   * graph, and exactly the types reachable over converter-free casts through types without data receive the data.
   */
  method TypeClientData(ti: TypeInfo, clientdata: Pointer, ghost S: set<TypeInfo>)
    returns (ghost reached: set<TypeInfo>)
    requires clientdata != 0 && ti in S && WellFormed(S)
    modifies S`clientdata
    ensures WellFormed(S) && CastGraph(S) == old(CastGraph(S))
    ensures reached <= S && IsReachSet<TypeInfo>(old(CastGraph(S)), old(White(S)), ti, S, reached)
    ensures forall t {:trigger t.clientdata} :: t in S ==>
      t.clientdata == if t in reached then clientdata else old(t.clientdata)
    ensures White(S) == old(White(S)) - reached
    decreases White(S) - {ti}, 1
  {
    ghost var g, white := CastGraph(S), White(S);
    var cast := ti.cast;
    SetClientData(ti, clientdata, S);
    ReachesSelf<TypeInfo>(g, white, ti);
    ghost var k, casts := 0, ti.casts;
    reached := {ti};
    while cast != null
      invariant WellFormed(S) && CastGraph(S) == g && White(S) == white - reached
      invariant 0 <= k <= |casts| && cast == (if k < |casts| then casts[k] else null)
      invariant ti.casts == casts
      invariant reached <= S && Searching<TypeInfo>(g, white, ti, reached)
      invariant forall t {:trigger t.clientdata} :: t in S ==>
        t.clientdata == if t in reached then clientdata else old(t.clientdata)
      invariant Followed(casts[..k], white - reached)
      decreases |casts| - k
    {
      assert ti.ListOK() && casts[..k + 1] == casts[..k] + [cast];
      reached := VisitCast(ti, casts[..k], cast, clientdata, S, g, white, reached);
      cast := cast.next;
      k := k + 1;
    }
    assert casts[..k] == casts;
    AllFollowed(ti, white - reached);
    SearchDone<TypeInfo>(g, white, ti, S, reached);
  }

  /** The loop body of SWIG_TypeClientData, for a search that has marked reached so far. */
  method VisitCast(ti: TypeInfo, ghost before: seq<CastInfo>, cast: CastInfo, clientdata: Pointer,
                   ghost S: set<TypeInfo>, ghost g: Graph, ghost white: set<TypeInfo>, ghost reached: set<TypeInfo>)
    returns (ghost after: set<TypeInfo>)
    requires clientdata != 0 && ti in S && cast in ti.casts
    requires WellFormed(S) && CastGraph(S) == g && White(S) == white - reached && white <= S
    requires reached <= S && Searching<TypeInfo>(g, white, ti, reached) && Followed(before, white - reached)
    modifies S`clientdata
    ensures WellFormed(S) && CastGraph(S) == g && White(S) == white - after
    ensures reached <= after <= S && Searching<TypeInfo>(g, white, ti, after)
    ensures forall t {:trigger t.clientdata} :: t in S ==>
      t.clientdata == if t in after - reached then clientdata else old(t.clientdata)
    ensures Followed(before + [cast], white - after)
    decreases White(S), 0
  {
    after := reached;
    assert ti.Sound(S);
    if !cast.converter {
      var tc := cast.ty;
      assert tc in ti.Targets() && tc in g[ti];
      if tc.clientdata == 0 {
        ghost var nested := TypeClientData(tc, clientdata, S);
        NestedSearch<TypeInfo>(g, white, ti, reached, tc, S, nested);
        after := reached + nested;
      }
    }
  }

  /** These casts have a converter or lead to types that have data. */
  ghost predicate Followed(casts: seq<CastInfo>, white: set<TypeInfo>)
    reads casts`ty
  {
    forall j :: 0 <= j < |casts| && !casts[j].converter ==> casts[j].ty !in white
  }

  lemma AllFollowed(ti: TypeInfo, white: set<TypeInfo>)
    requires Followed(ti.casts, white)
    ensures ti.Targets() !! white
  {
    forall w | w in ti.Targets()
      ensures w !in white
    {
      var c :| c in ti.casts && !c.converter && c.ty == w;
      var j :| 0 <= j < |ti.casts| && ti.casts[j] == c;
    }
  }

  // ----- In terms of the casts themselves -----

  /** From every type of the set, each cast without a converter to a type of empty leads into the set. */
  ghost predicate PassesOn(marked: set<TypeInfo>, S: set<TypeInfo>, empty: set<TypeInfo>)
    reads S`casts, Nodes(S)`ty
  {
    forall t, c :: t in marked && t in S && c in t.casts && !c.converter && c.ty in empty ==> c.ty in marked
  }

  /** The reached types are the least set with ti that passes on: they pass on, and lie in every set that does. */
  lemma ReachedIsLeast(S: set<TypeInfo>, empty: set<TypeInfo>, ti: TypeInfo, reached: set<TypeInfo>)
    requires WellFormed(S) && ti in S && reached <= S
    requires IsReachSet<TypeInfo>(CastGraph(S), empty, ti, S, reached)
    ensures ti in reached && PassesOn(reached, S, empty)
    ensures forall closed: set<TypeInfo> {:trigger reached <= closed} :: ti in closed && PassesOn(closed, S, empty) ==> reached <= closed
  {
    var g := CastGraph(S);
    ReachesSelf<TypeInfo>(g, empty, ti);
    forall t, c | t in reached && c in t.casts && !c.converter && c.ty in empty
      ensures c.ty in reached
    {
      assert t.Sound(S) && c.ty in t.Targets() && c.ty in g[t];
      ReachesStep<TypeInfo>(g, empty, ti, t, c.ty);
    }
    forall closed: set<TypeInfo> | ti in closed && PassesOn(closed, S, empty)
      ensures reached <= closed
    {
      forall t | t in reached
        ensures t in closed
      {
        ClosedReach(S, empty, ti, closed, t);
      }
    }
  }

  lemma ClosedReach(S: set<TypeInfo>, empty: set<TypeInfo>, from: TypeInfo, closed: set<TypeInfo>, t: TypeInfo)
    requires from in closed && PassesOn(closed, S, empty) && Reaches<TypeInfo>(CastGraph(S), empty, from, t)
    ensures t in closed
  {
    ReachableInClosed<TypeInfo>(CastGraph(S), empty, from, closed, t);
  }
}
