/** SWIG_PropagateClientData: spreading the clientdata of all types of a module. */
module Propagation {
  import opened CastLists
  import opened Reachability
  import opened ClientData
  import opened ModuleRing

  /** The types of the table that have data. */
  ghost function Sources(table: seq<TypeInfo>, white: set<TypeInfo>): set<TypeInfo> {
    set t | t in table && t !in white
  }

  /**
   * The data of a type to which data has spread is that of its source; all other data is as before. The definition is
   * unfolded by mentioning Unfold(0), and is otherwise passed on as a whole.
   */
  ghost predicate Marks(S: set<TypeInfo>, g: Graph, white: set<TypeInfo>, sources: set<TypeInfo>,
                        origin: map<TypeInfo, TypeInfo>, data: map<TypeInfo, Pointer>, now: map<TypeInfo, Pointer>) {
    forall key {:trigger Unfold(key)} :: Unfold(key) ==>
      && Spread<TypeInfo>(g, white, sources, origin) && white <= S && sources <= S
      && data.Keys == now.Keys == S
      && (forall t {:trigger now[t]} :: t in S ==>
            now[t] == if t in origin && origin[t] in S then data[origin[t]] else data[t])
  }

  /** A state of the propagation, for the graph g and the types white that had no data when it began. */
  ghost predicate Spreading(S: set<TypeInfo>, g: Graph, white: set<TypeInfo>, sources: set<TypeInfo>,
                            origin: map<TypeInfo, TypeInfo>, data: map<TypeInfo, Pointer>)
    reads S`cast, S`casts, S`clientdata, Nodes(S)
  {
    && WellFormed(S) && CastGraph(S) == g && White(S) == white - origin.Keys && white <= S
    && Marks(S, g, white, sources, origin, data, DataOf(S))
  }

  /** A search that starts from a target of a source carries the data of that source. */
  lemma MarksFurther(S: set<TypeInfo>, g: Graph, white: set<TypeInfo>, sources: set<TypeInfo>,
                     origin: map<TypeInfo, TypeInfo>, data: map<TypeInfo, Pointer>, now: map<TypeInfo, Pointer>,
                     ti: TypeInfo, tc: TypeInfo, reached: set<TypeInfo>, later: map<TypeInfo, Pointer>)
    returns (after: map<TypeInfo, TypeInfo>)
    requires Marks(S, g, white, sources, origin, data, now) && white <= S
    requires ti in S && ti in sources && ti !in white && ti in g && tc in g[ti] && tc in white - origin.Keys
    requires reached <= S && IsReachSet<TypeInfo>(g, white - origin.Keys, tc, S, reached)
    requires now.Keys == later.Keys == S
    requires forall t {:trigger later[t]} :: t in S ==> later[t] == if t in reached then now[ti] else now[t]
    ensures Marks(S, g, white, sources, after, data, later)
    ensures after.Keys == origin.Keys + reached && tc in reached
    ensures white - after.Keys == white - origin.Keys - reached
  {
    assert Unfold(0);
    SpreadFurther<TypeInfo>(g, white, sources, origin, ti, tc, S, reached);
    after := origin + map t | t in reached :: ti;
    assert now[ti] == data[ti];
    assert forall t {:trigger later[t]} :: t in S ==>
      later[t] == if t in after && after[t] in S then data[after[t]] else data[t];
  }

  /** The recursive call of the propagation, for a target without data. */
  method SpreadTo(ti: TypeInfo, tc: TypeInfo, ghost S: set<TypeInfo>, ghost g: Graph, ghost white: set<TypeInfo>,
                  ghost sources: set<TypeInfo>, ghost origin: map<TypeInfo, TypeInfo>, ghost data: map<TypeInfo, Pointer>)
    returns (ghost after: map<TypeInfo, TypeInfo>)
    requires Spreading(S, g, white, sources, origin, data)
    requires ti in S && ti.clientdata != 0 && ti in sources && ti !in white
    requires tc in S && tc in g[ti] && tc.clientdata == 0
    modifies S`clientdata
    ensures Spreading(S, g, white, sources, after, data) && origin.Keys <= after.Keys && tc in after
  {
    assert tc in White(S);
    ghost var now := DataOf(S);
    ghost var reached := TypeClientData(tc, ti.clientdata, S);
    after := MarksFurther(S, g, white, sources, origin, data, now, ti, tc, reached, DataOf(S));
  }

  /** The body of the inner loop, at the k-th cast. */
  method PropagateCast(ti: TypeInfo, ghost k: nat, equiv: CastInfo, ghost S: set<TypeInfo>, ghost g: Graph,
                       ghost white: set<TypeInfo>, ghost sources: set<TypeInfo>,
                       ghost origin: map<TypeInfo, TypeInfo>, ghost data: map<TypeInfo, Pointer>)
    returns (next: CastInfo?, ghost after: map<TypeInfo, TypeInfo>)
    requires Spreading(S, g, white, sources, origin, data)
    requires ti in S && ti !in white - origin.Keys && (ti in white || ti in sources)
    requires k < |ti.casts| && equiv == ti.casts[k] && Followed(ti.casts[..k], white - origin.Keys)
    modifies S`clientdata
    ensures Spreading(S, g, white, sources, after, data) && origin.Keys <= after.Keys
    ensures Followed(ti.casts[..k + 1], white - after.Keys)
    ensures next == if k + 1 < |ti.casts| then ti.casts[k + 1] else null
  {
    after := origin;
    assert ti.Sound(S) && ti !in White(S);
    assert ti.casts[..k + 1] == ti.casts[..k] + [equiv];
    if !equiv.converter {
      var tc := equiv.ty;
      assert tc in ti.Targets() && tc in g[ti];
      if tc.clientdata == 0 {
        assert tc in White(S);
        if ti in origin {
          assert Unfold(0);
          SpreadIsClosed<TypeInfo>(g, white, sources, origin, ti, tc);
          assert false;
        }
        after := SpreadTo(ti, tc, S, g, white, sources, origin, data);
      } else {
        assert tc !in White(S);
      }
    }
    next := equiv.next;
  }

  /** The inner loop: spreading the data of one type that has some. */
  method PropagateType(ti: TypeInfo, ghost S: set<TypeInfo>, ghost g: Graph, ghost white: set<TypeInfo>,
                       ghost sources: set<TypeInfo>, ghost origin: map<TypeInfo, TypeInfo>,
                       ghost data: map<TypeInfo, Pointer>)
    returns (ghost after: map<TypeInfo, TypeInfo>)
    requires Spreading(S, g, white, sources, origin, data)
    requires ti in S && ti !in white - origin.Keys && (ti in white || ti in sources)
    modifies S`clientdata
    ensures Spreading(S, g, white, sources, after, data)
    ensures origin.Keys <= after.Keys && g[ti] !! white - after.Keys
  {
    after := origin;
    var equiv := ti.cast;
    assert ti.Sound(S);
    ghost var k := 0;
    while equiv != null
      invariant Spreading(S, g, white, sources, after, data) && origin.Keys <= after.Keys
      invariant 0 <= k <= |ti.casts| && equiv == (if k < |ti.casts| then ti.casts[k] else null)
      invariant Followed(ti.casts[..k], white - after.Keys)
      decreases |ti.casts| - k
    {
      equiv, after := PropagateCast(ti, k, equiv, S, g, white, sources, after, data);
      k := k + 1;
    }
    assert ti.casts[..k] == ti.casts;
    AllFollowed(ti, white - after.Keys);
    assert CastGraph(S)[ti] == ti.Targets();
  }

  /** Types of the table with data have data on all their converter-free cast targets. */
  ghost predicate ClosedUpTo(table: seq<TypeInfo>, i: nat, g: Graph, white: set<TypeInfo>)
    requires i <= |table|
  {
    forall j {:trigger table[j]} :: 0 <= j < i && table[j] in g && table[j] !in white ==> g[table[j]] !! white
  }

  /**
   * SWIG_PropagateClientData. The first run gives data to exactly the types that a type of the module with data
   * reaches over converter-free casts through types without data, each of them the data of such a type; afterwards
   * no type of the module with data has a converter-free cast to a type without. Later runs change nothing.
   */
  method PropagateClientData(m: ModuleInfo, ghost S: set<TypeInfo>) returns (ghost origin: map<TypeInfo, TypeInfo>)
    requires m.TableOK() && WellFormed(S) && forall t :: t in m.table ==> t in S
    modifies m`propagated, S`clientdata
    ensures m.propagated
    ensures old(m.propagated) ==> DataOf(S) == old(DataOf(S))
    ensures !old(m.propagated) ==>
      Spreading(S, old(CastGraph(S)), old(White(S)), Sources(m.table, old(White(S))), origin, old(DataOf(S)))
    ensures !old(m.propagated) ==> ClosedUpTo(m.table, |m.table|, CastGraph(S), White(S))
  {
    origin := map[];
    if m.propagated {
      return;
    }
    ghost var g, white, data := CastGraph(S), White(S), DataOf(S);
    SetPropagated(m, S, data);
    origin := PropagateTypes(m, S, g, white, data);
  }

  method SetPropagated(m: ModuleInfo, ghost S: set<TypeInfo>, ghost data: map<TypeInfo, Pointer>)
    requires m.TableOK() && WellFormed(S) && (forall t :: t in m.table ==> t in S) && data == DataOf(S)
    modifies m`propagated
    ensures m.propagated && m.TableOK() && DataOf(S) == data && CastGraph(S) == old(CastGraph(S)) && White(S) == old(White(S))
    ensures PropagatedUpTo(m, 0, S, CastGraph(S), White(S), map[], data)
  {
    m.propagated := true;
  }

  /** The outer loop. */
  method PropagateTypes(m: ModuleInfo, ghost S: set<TypeInfo>, ghost g: Graph, ghost white: set<TypeInfo>,
                        ghost data: map<TypeInfo, Pointer>)
    returns (ghost origin: map<TypeInfo, TypeInfo>)
    requires PropagatedUpTo(m, 0, S, g, white, map[], data)
    modifies S`clientdata
    ensures PropagatedUpTo(m, m.size, S, g, white, origin, data)
  {
    origin := map[];
    var i := 0;
    while i < m.size
      invariant 0 <= i <= m.size && PropagatedUpTo(m, i, S, g, white, origin, data)
    {
      origin := PropagateAt(m, i, S, g, white, origin, data);
      i := i + 1;
    }
  }

  /** The state of the outer loop. */
  ghost predicate PropagatedUpTo(m: ModuleInfo, i: nat, S: set<TypeInfo>, g: Graph, white: set<TypeInfo>,
                                 origin: map<TypeInfo, TypeInfo>, data: map<TypeInfo, Pointer>)
    reads m`table, m.types, S`cast, S`casts, S`clientdata, Nodes(S)
  {
    && m.TableOK() && i <= m.size && (forall t :: t in m.table ==> t in S)
    && Spreading(S, g, white, Sources(m.table, white), origin, data)
    && ClosedUpTo(m.table, i, g, white - origin.Keys)
  }

  /** The body of the outer loop. */
  method PropagateAt(m: ModuleInfo, i: nat, ghost S: set<TypeInfo>, ghost g: Graph, ghost white: set<TypeInfo>,
                     ghost origin: map<TypeInfo, TypeInfo>, ghost data: map<TypeInfo, Pointer>)
    returns (ghost after: map<TypeInfo, TypeInfo>)
    requires i < m.size && PropagatedUpTo(m, i, S, g, white, origin, data)
    modifies S`clientdata
    ensures PropagatedUpTo(m, i + 1, S, g, white, after, data)
  {
    var ti := m.types[i];
    assert ti == m.table[i] && ti in S;
    after := origin;
    ghost var sources := Sources(m.table, white);
    if ti.clientdata != 0 {
      assert ti !in White(S);
      after := PropagateType(ti, S, g, white, sources, origin, data);
    } else {
      assert ti in White(S);
    }
    assert Unfold(0);
    ClosedGrows(m.table, i, g, white, sources, origin, after);
  }

  /** Types that receive data during the propagation are closed themselves. */
  lemma ClosedGrows(table: seq<TypeInfo>, i: nat, g: Graph, white: set<TypeInfo>, sources: set<TypeInfo>,
                    origin: map<TypeInfo, TypeInfo>, after: map<TypeInfo, TypeInfo>)
    requires i < |table| && ClosedUpTo(table, i, g, white - origin.Keys) && origin.Keys <= after.Keys
    requires Spread<TypeInfo>(g, white, sources, after)
    requires table[i] in g && table[i] !in white - after.Keys ==> g[table[i]] !! white - after.Keys
    ensures ClosedUpTo(table, i + 1, g, white - after.Keys)
  {
    forall j {:trigger table[j]} | 0 <= j <= i && table[j] in g && table[j] !in white - after.Keys
      ensures g[table[j]] !! white - after.Keys
    {
      if j < i && table[j] in after {
        assert forall w :: w in g[table[j]] && w in white ==> w in after;
      }
    }
  }

  /** What the marks of a completed propagation mean for one type: data iff it had some or a source reaches it. */
  lemma PropagationIsReachability(m: ModuleInfo, S: set<TypeInfo>, g: Graph, white: set<TypeInfo>,
                                  origin: map<TypeInfo, TypeInfo>, data: map<TypeInfo, Pointer>, t: TypeInfo)
    requires Spreading(S, g, white, Sources(m.table, white), origin, data)
    requires ClosedUpTo(m.table, |m.table|, g, White(S)) && forall u :: u in m.table ==> u in S
    requires t in S
    ensures t.clientdata != 0 <==>
      t !in white || exists s :: s in Sources(m.table, white) && Reaches<TypeInfo>(g, white, s, t)
  {
    assert Unfold(0);
    if t !in White(S) && t in white {
      assert origin[t] in Sources(m.table, white);
    }
    forall s | s in Sources(m.table, white) && Reaches<TypeInfo>(g, white, s, t) && t in white
      ensures t in origin
    {
      var j :| 0 <= j < |m.table| && m.table[j] == s;
      assert forall w :: w in g[s] && w in white ==> w in origin;
      SpreadReaches<TypeInfo>(g, white, Sources(m.table, white), origin, s, t);
    }
  }

  // ----- In terms of the types and casts themselves -----

  /**
   * After the first run: data is kept; new data is that of a type of the module that reaches the type; and the types of
   * the module, and those that gained data, have casts without a converter to types with data only.
   */
  lemma PropagationMeans(m: ModuleInfo, S: set<TypeInfo>, white: set<TypeInfo>,
                         origin: map<TypeInfo, TypeInfo>, data: map<TypeInfo, Pointer>)
    requires Spreading(S, CastGraph(S), white, Sources(m.table, white), origin, data)
    requires ClosedUpTo(m.table, |m.table|, CastGraph(S), White(S)) && forall u :: u in m.table ==> u in S
    requires data.Keys == S && white == set t | t in S && data[t] == 0
    ensures forall t :: t in S && data[t] != 0 ==> t.clientdata == data[t]
    ensures forall t :: t in S && data[t] == 0 && t.clientdata != 0 ==>
      (exists s :: s in m.table && s in S && data[s] != 0 && t.clientdata == data[s] &&
        Reaches<TypeInfo>(CastGraph(S), white, s, t))
    ensures forall t, c :: t in S && (t in m.table || data[t] == 0) && t.clientdata != 0 && c in t.casts && !c.converter ==>
      c.ty.clientdata != 0
  {
    assert Unfold(0);
    var g, sources := CastGraph(S), Sources(m.table, white);
    forall t | t in S
      ensures data[t] != 0 ==> t.clientdata == data[t]
      ensures data[t] == 0 && t.clientdata != 0 ==>
        t in origin && origin[t] in sources && t.clientdata == data[origin[t]] && Reaches<TypeInfo>(g, white, origin[t], t)
    {
      assert DataOf(S)[t] == t.clientdata;
      assert t in origin ==> t in white;
    }
    forall t, c | t in S && (t in m.table || data[t] == 0) && t.clientdata != 0 && c in t.casts && !c.converter
      ensures c.ty.clientdata != 0
    {
      assert t.Sound(S) && c.ty in t.Targets() && c.ty in g[t];
      if t in m.table {
        var j :| 0 <= j < |m.table| && m.table[j] == t;
        assert g[m.table[j]] !! White(S);
      } else {
        assert t in origin;
      }
    }
  }

  /** Any set that holds the types of the module with data and passes on holds all types that gained data. */
  lemma PropagationIsLeast(m: ModuleInfo, S: set<TypeInfo>, white: set<TypeInfo>, origin: map<TypeInfo, TypeInfo>,
                           data: map<TypeInfo, Pointer>, closed: set<TypeInfo>)
    requires Spreading(S, CastGraph(S), white, Sources(m.table, white), origin, data)
    requires ClosedUpTo(m.table, |m.table|, CastGraph(S), White(S)) && forall u :: u in m.table ==> u in S
    requires data.Keys == S && white == set t | t in S && data[t] == 0
    requires PassesOn(closed, S, white) && forall s :: s in m.table && data[s] != 0 ==> s in closed
    ensures forall t :: t in S && data[t] == 0 && t.clientdata != 0 ==> t in closed
  {
    PropagationMeans(m, S, white, origin, data);
    forall t | t in S && data[t] == 0 && t.clientdata != 0
      ensures t in closed
    {
      var s :| s in m.table && s in S && data[s] != 0 && Reaches<TypeInfo>(CastGraph(S), white, s, t);
      ClosedReach(S, white, s, closed, t);
    }
  }
}
