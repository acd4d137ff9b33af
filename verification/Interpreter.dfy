/** One interpreter: the ring of its modules and the registry of types they share. */
module Interpreters {
  import opened CStrings
  import opened CastLists
  import opened CastMerging
  import opened ClientData
  import opened ModuleRing
  import opened TypeRegistry
  import opened Reachability
  import opened Propagation

  /** The next pointers form one cycle through exactly these modules. */
  ghost predicate Cycle(ring: seq<ModuleInfo>)
    reads ring`next
  {
    && Distinct<ModuleInfo>(ring)
    && forall k {:trigger ring[k].next} :: 0 <= k < |ring| ==>
         ring[k].next == if k + 1 < |ring| then ring[k + 1] else ring[0]
  }

  /** The ring behind a module that was linked in after the head, up to that module. */
  ghost function Others(ring: seq<ModuleInfo>): seq<ModuleInfo> {
    if ring == [] then [] else ring[1..] + [ring[0]]
  }

  ghost function Inserted(ring: seq<ModuleInfo>, m: ModuleInfo): seq<ModuleInfo> {
    if ring == [] then [m] else [ring[0], m] + ring[1..]
  }

  /** From a newly linked module the ring leads through all the others. */
  lemma AheadIsOthers(ring: seq<ModuleInfo>, m: ModuleInfo)
    requires m !in ring && Cycle(Inserted(ring, m))
    ensures Ahead(m, Others(ring))
  {
    var all, others := Inserted(ring, m), Others(ring);
    if ring == [] {
      assert all[0].next == m;
    } else {
      var n := |ring|;
      assert all[0] == ring[0] == others[n - 1] && all[1] == m;
      assert forall k {:trigger others[k]} :: 0 <= k < n - 1 ==> others[k] == all[k + 2];
      assert all[0].next == all[1] && all[1].next == others[0];
      forall k | 0 <= k < n
        ensures others[k].next == (if k + 1 < n then others[k + 1] else m) && others[k] != m
      {
        if k < n - 1 {
          assert all[k + 2].next == if k + 3 < |all| then all[k + 3] else all[0];
        }
      }
    }
  }

  lemma SameModules(ring: seq<ModuleInfo>, m: ModuleInfo, o: ModuleInfo)
    ensures o in Others(ring) <==> o in ring
    ensures o in Inserted(ring, m) <==> o == m || o in ring
  {
    if ring != [] {
      assert ring == [ring[0]] + ring[1..];
    }
  }

  /** From every module of the ring the walk round the ring comes back to it. */
  lemma RoundTrip(ring: seq<ModuleInfo>, i: nat)
    requires Cycle(ring) && i < |ring|
    ensures Walk(ring[i], ring[i], ring[i..] + ring[..i])
  {
    var round, n := ring[i..] + ring[..i], |ring|;
    forall k | 0 <= k < n
      ensures 0 < k ==> round[k] != ring[i]
      ensures round[k].next == if k + 1 < n then round[k + 1] else ring[i]
    {
      var j := if k < n - i then k + i else k - (n - i);
      assert round[k] == ring[j] && ring[j].next == if j + 1 < n then ring[j + 1] else ring[0];
    }
  }

  /** What is published does not depend on the order of the modules. */
  lemma PublishedReordered(a: seq<ModuleInfo>, b: seq<ModuleInfo>, registry: Registry)
    requires Published(a, registry) && forall o :: o in a <==> o in b
    ensures Published(b, registry)
  {
    forall name | name in registry
      ensures !NoneBefore(b, |b|, Named(name))
    {
      var j :| 0 <= j < |a| && !NoHit(a[j].table, Named(name));
      assert a[j] in b;
      var k :| 0 <= k < |b| && b[k] == a[j];
    }
  }

  lemma RoundTripFrom(ring: seq<ModuleInfo>, start: ModuleInfo, registry: Registry) returns (round: seq<ModuleInfo>)
    requires Cycle(ring) && start in ring && Published(ring, registry)
    ensures Walk(start, start, round) && Published(round, registry)
    ensures multiset(round) == multiset(ring)
  {
    var i :| 0 <= i < |ring| && ring[i] == start;
    RoundTrip(ring, i);
    round := ring[i..] + ring[..i];
    assert ring == ring[..i] + ring[i..];
    assert forall o :: o in ring <==> o in round;
    PublishedReordered(ring, round, registry);
  }

  lemma PublishedRotated(ring: seq<ModuleInfo>, registry: Registry)
    requires Published(ring, registry)
    ensures Published(Others(ring), registry)
  {
    forall o
      ensures o in Others(ring) <==> o in ring
    {
      SameModules(ring, o, o);
    }
    PublishedReordered(ring, Others(ring), registry);
  }

  // ----- What a load does to the registry -----

  /** The registry after a load: every name of the module is registered, and what was registered stays. */
  ghost function Extend(registry: Registry, initial: seq<TypeInfo>): Registry {
    if initial == [] then registry
    else
      var before, t := Extend(registry, initial[..|initial| - 1]), initial[|initial| - 1];
      if t.name in before then before else before[t.name := t]
  }

  lemma {:induction false} ExtendKeeps(registry: Registry, initial: seq<TypeInfo>)
    ensures forall name :: name in registry ==> name in Extend(registry, initial) && Extend(registry, initial)[name] == registry[name]
    ensures forall name :: name in Extend(registry, initial) && name !in registry ==>
      Extend(registry, initial)[name] in initial && Extend(registry, initial)[name].name == name
  {
    if initial != [] {
      var front := initial[..|initial| - 1];
      ExtendKeeps(registry, front);
      assert forall t :: t in front ==> t in initial;
    }
  }

  lemma {:induction false} ExtendCovers(registry: Registry, initial: seq<TypeInfo>)
    ensures registry.Keys + NamesOf(initial) == Extend(registry, initial).Keys
  {
    if initial != [] {
      var front, last := initial[..|initial| - 1], initial[|initial| - 1];
      ExtendCovers(registry, front);
      assert initial == front + [last];
      assert NamesOf(initial) == NamesOf(front) + {last.name};
    }
  }

  /** A sorted module resolves each of its types to what the extended registry holds under the name. */
  lemma {:induction false} ExtendResolves(registry: Registry, initial: seq<TypeInfo>, i: nat)
    requires Sorted(initial) && i < |initial|
    ensures initial[i].name in Extend(registry, initial)
    ensures Extend(registry, initial)[initial[i].name] == Resolve(registry, initial[i])
  {
    var front, last := initial[..|initial| - 1], initial[|initial| - 1];
    if i < |front| {
      ExtendResolves(registry, front, i);
      assert front[i] == initial[i];
    } else {
      ExtendKeeps(registry, front);
    }
  }

  lemma RegisteredByLoad(registry: Registry, initial: seq<TypeInfo>)
    requires Sorted(initial) && RegistryNamed(registry)
    ensures Registered(Resolved(registry, initial), Extend(registry, initial))
  {
    var table := Resolved(registry, initial);
    forall i {:trigger table[i]} | 0 <= i < |table|
      ensures table[i].name in Extend(registry, initial) && Extend(registry, initial)[table[i].name] == table[i]
    {
      ExtendResolves(registry, initial, i);
      assert table[i] == Resolve(registry, initial[i]) && table[i].name == initial[i].name;
    }
  }

  ghost predicate RegistryNamed(registry: Registry) {
    forall name :: name in registry ==> registry[name].name == name
  }

  lemma RegisteredStays(table: seq<TypeInfo>, registry: Registry, registry': Registry)
    requires Registered(table, registry)
    requires forall name :: name in registry ==> name in registry' && registry'[name] == registry[name]
    ensures Registered(table, registry')
  {
  }

  /** The ring of a load publishes the extended registry. */
  lemma PublishedByLoad(ring: seq<ModuleInfo>, m: ModuleInfo, registry: Registry)
    requires Published(Others(ring), registry) && RegistryNamed(registry) && m !in ring
    requires Sorted(m.typeInitial) && m.TableOK() && m.table == Resolved(registry, m.typeInitial)
    ensures Published(Inserted(ring, m), Extend(registry, m.typeInitial))
  {
    var all, others, registry' := Inserted(ring, m), Others(ring), Extend(registry, m.typeInitial);
    ExtendKeeps(registry, m.typeInitial);
    RegisteredByLoad(registry, m.typeInitial);
    forall o | o in all
      ensures o.TableOK() && Registered(o.table, registry')
    {
      if o != m {
        SameModules(ring, m, o);
        RegisteredStays(o.table, registry, registry');
      }
    }
    forall name | name in registry'
      ensures !NoneBefore(all, |all|, Named(name))
    {
      if name in registry {
        var k :| 0 <= k < |others| && !NoHit(others[k].table, Named(name));
        SameModules(ring, m, others[k]);
        var j :| 0 <= j < |all| && all[j] == others[k];
      } else {
        var i :| 0 <= i < |m.typeInitial| && m.typeInitial[i] == registry'[name];
        assert m.table[i].name == name;
        SameModules(ring, m, m);
        var j :| 0 <= j < |all| && all[j] == m;
      }
    }
  }

  // ----- What a load does to the lists -----

  ghost function NamesOf(types: seq<TypeInfo>): set<string> {
    set t | t in types :: t.name
  }

  /** Every list has at most one entry for a name, and names known types only. */
  ghost predicate TidyLists(lists: map<TypeInfo, seq<CastInfo>>, known: set<string>) {
    forall t :: t in lists ==> TidyList(lists[t], known)
  }

  /** The rows of a module name each of their targets once, and all of them are types of the module. */
  ghost predicate TidyRows(m: ModuleInfo) {
    forall j {:trigger m.castInitial[j]} :: 0 <= j < |m.castInitial| ==>
      UniqueTargets(m.castInitial[j]) && NameSet(m.castInitial[j]) <= NamesOf(m.typeInitial)
  }

  lemma ResolvedDistinct(m: ModuleInfo, registry: Registry, i: nat, j: nat)
    requires Sorted(m.typeInitial) && RegistryNamed(registry) && i < j < |m.typeInitial|
    ensures Resolved(registry, m.typeInitial)[i] != Resolved(registry, m.typeInitial)[j]
  {
    assert Compare(m.typeInitial[i].name, m.typeInitial[j].name) < 0;
  }

  /** The list of a type changes only in the type's own turn. */
  lemma {:induction false} ListsWaitTheirTurn(m: ModuleInfo, i: nat, registry: Registry,
                                              lists: map<TypeInfo, seq<CastInfo>>, t: TypeInfo)
    requires i <= |m.typeInitial| == |m.castInitial| && t in lists
    requires forall u :: u in Resolved(registry, m.typeInitial) ==> u in lists
    requires t !in Resolved(registry, m.typeInitial)[..i]
    ensures ListsAfter(m, i, registry, lists)[t] == lists[t]
  {
    if i > 0 {
      var table := Resolved(registry, m.typeInitial);
      assert table[..i] == table[..i - 1] + [table[i - 1]];
      ListsWaitTheirTurn(m, i - 1, registry, lists, t);
    }
  }

  lemma RowStaysTidy(list: seq<CastInfo>, row: seq<CastInfo>, known: set<string>, own: bool, names: set<string>)
    requires UniqueTargets(list) && NameSet(list) <= known && UniqueTargets(row) && NameSet(row) <= names
    requires own ==> list == []
    ensures UniqueTargets(AttachAll(list, row, known, own)) && NameSet(AttachAll(list, row, known, own)) <= known + names
  {
    RowStaysUnique(list, row, known, own);
    RowNames(list, row, known, own);
  }

  ghost predicate TidyList(list: seq<CastInfo>, known: set<string>) {
    UniqueTargets(list) && NameSet(list) <= known
  }

  lemma ListTakesItsTurn(m: ModuleInfo, j: nat, registry: Registry, lists: map<TypeInfo, seq<CastInfo>>)
    requires j < |m.typeInitial| == |m.castInitial| && Sorted(m.typeInitial) && RegistryNamed(registry)
    requires forall u :: u in Resolved(registry, m.typeInitial) ==> u in lists
    ensures ListsAfter(m, j + 1, registry, lists)[Resolved(registry, m.typeInitial)[j]] == ListAtEnd(m, j, registry, lists)
  {
    var last := Resolved(registry, m.typeInitial)[j];
    NotEarlier(m, registry, j);
    ListsWaitTheirTurn(m, j, registry, lists, last);
    assert ListsAfter(m, j, registry, lists)[last] == lists[last];
  }

  /** The final list of the type at index j. */
  ghost function ListAtEnd(m: ModuleInfo, j: nat, registry: Registry, lists: map<TypeInfo, seq<CastInfo>>): seq<CastInfo>
    requires j < |m.typeInitial| == |m.castInitial|
    requires forall u :: u in Resolved(registry, m.typeInitial) ==> u in lists
  {
    var t := Resolved(registry, m.typeInitial)[j];
    assert t in Resolved(registry, m.typeInitial);
    AttachAll(lists[t], m.castInitial[j], registry.Keys, t == m.typeInitial[j])
  }

  /** In its turn the list of a type takes up the row of the type, once. */
  lemma {:induction false} ListTakesItsRow(m: ModuleInfo, i: nat, registry: Registry,
                                           lists: map<TypeInfo, seq<CastInfo>>, j: nat)
    requires j < i <= |m.typeInitial| == |m.castInitial| && Sorted(m.typeInitial) && RegistryNamed(registry)
    requires forall u :: u in Resolved(registry, m.typeInitial) ==> u in lists
    ensures Resolved(registry, m.typeInitial)[j] in lists
    ensures ListsAfter(m, i, registry, lists)[Resolved(registry, m.typeInitial)[j]] == ListAtEnd(m, j, registry, lists)
  {
    assert Resolved(registry, m.typeInitial)[j] in Resolved(registry, m.typeInitial);
    if j < i - 1 {
      ResolvedDistinct(m, registry, j, i - 1);
      ListTakesItsRow(m, i - 1, registry, lists, j);
    } else {
      ListTakesItsTurn(m, j, registry, lists);
    }
  }

  lemma NotEarlier(m: ModuleInfo, registry: Registry, j: nat)
    requires Sorted(m.typeInitial) && RegistryNamed(registry) && j < |m.typeInitial|
    ensures Resolved(registry, m.typeInitial)[j] !in Resolved(registry, m.typeInitial)[..j]
  {
    forall k | 0 <= k < j
      ensures Resolved(registry, m.typeInitial)[k] != Resolved(registry, m.typeInitial)[j]
    {
      ResolvedDistinct(m, registry, k, j);
    }
  }

  lemma TouchStaysTidy(list: seq<CastInfo>, k: nat, known: set<string>)
    requires TidyList(list, known)
    ensures TidyList(Touch(list, k), known)
  {
    if k < |list| {
      MovedUnique(list, k);
      MoveToFrontKeeps(list, k);
      assert forall c: CastInfo :: c in MoveToFront(list, k) <==> c in multiset(MoveToFront(list, k));
    }
  }

  lemma OneTouchStaysTidy(lists: map<TypeInfo, seq<CastInfo>>, ty: TypeInfo, k: nat, known: set<string>)
    requires ty in lists
    ensures TidyLists(lists, known) ==> TidyLists(lists[ty := Touch(lists[ty], k)], known)
  {
    if TidyLists(lists, known) {
      TouchStaysTidy(lists[ty], k, known);
    }
  }

  /** The data of a type changes only in the type's own turn. */
  lemma {:induction false} DataWaitsItsTurn(m: ModuleInfo, i: nat, registry: Registry, data: map<TypeInfo, Pointer>, t: TypeInfo)
    requires i <= |m.typeInitial| && t in data
    requires forall u :: u in m.typeInitial ==> u in data
    requires forall u :: u in Resolved(registry, m.typeInitial) ==> u in data
    requires t !in Resolved(registry, m.typeInitial)[..i]
    ensures DataAfter(m, i, registry, data)[t] == data[t]
  {
    if i > 0 {
      var table := Resolved(registry, m.typeInitial);
      assert table[..i] == table[..i - 1] + [table[i - 1]];
      DataWaitsItsTurn(m, i - 1, registry, data, t);
    }
  }

  /** A type of the module that is not registered itself is entered in its own place only. */
  lemma InitialNotEarlier(m: ModuleInfo, registry: Registry, j: nat)
    requires Sorted(m.typeInitial) && RegistryNamed(registry) && j < |m.typeInitial|
    requires m.typeInitial[j] !in registry.Values
    ensures m.typeInitial[j] !in Resolved(registry, m.typeInitial)[..j]
  {
    forall k | 0 <= k < j
      ensures Resolved(registry, m.typeInitial)[k] != m.typeInitial[j]
    {
      assert Compare(m.typeInitial[k].name, m.typeInitial[j].name) < 0;
    }
  }

  /**
   * After a load, each type of the table has the data that the module gives it, and what it had before when the
   * module gives none; all other types keep theirs.
   */
  lemma {:induction false} DataTakesItsTurn(m: ModuleInfo, i: nat, registry: Registry, data: map<TypeInfo, Pointer>, j: nat)
    requires j < i <= |m.typeInitial| && Sorted(m.typeInitial) && RegistryNamed(registry)
    requires forall u :: u in m.typeInitial ==> u in data && u !in registry.Values
    requires forall u :: u in Resolved(registry, m.typeInitial) ==> u in data
    ensures m.typeInitial[j] in m.typeInitial && Resolved(registry, m.typeInitial)[j] in Resolved(registry, m.typeInitial)
    ensures DataAfter(m, i, registry, data)[Resolved(registry, m.typeInitial)[j]] ==
      Overwritten(data[m.typeInitial[j]], data[Resolved(registry, m.typeInitial)[j]])
    ensures data[m.typeInitial[j]] != 0 ==>
      DataAfter(m, i, registry, data)[Resolved(registry, m.typeInitial)[j]] == data[m.typeInitial[j]]
    ensures data[m.typeInitial[j]] == 0 ==>
      DataAfter(m, i, registry, data)[Resolved(registry, m.typeInitial)[j]] == data[Resolved(registry, m.typeInitial)[j]]
  {
    if j < i - 1 {
      ResolvedDistinct(m, registry, j, i - 1);
      DataTakesItsTurn(m, i - 1, registry, data, j);
    } else {
      NotEarlier(m, registry, j);
      InitialNotEarlier(m, registry, j);
      DataWaitsItsTurn(m, j, registry, data, Resolved(registry, m.typeInitial)[j]);
      DataWaitsItsTurn(m, j, registry, data, m.typeInitial[j]);
    }
  }

  /** Loading keeps the lists tidy. */
  lemma ListStaysTidy(m: ModuleInfo, registry: Registry, lists: map<TypeInfo, seq<CastInfo>>, t: TypeInfo)
    requires |m.typeInitial| == |m.castInitial| && Sorted(m.typeInitial) && RegistryNamed(registry)
    requires forall u :: u in Resolved(registry, m.typeInitial) ==> u in lists
    requires t in lists && TidyList(lists[t], registry.Keys) && TidyRows(m)
    requires t in m.typeInitial ==> lists[t] == []
    ensures TidyList(ListsAfter(m, |m.typeInitial|, registry, lists)[t], registry.Keys + NamesOf(m.typeInitial))
  {
    var table, n := Resolved(registry, m.typeInitial), |m.typeInitial|;
    if t in table {
      var j :| 0 <= j < n && table[j] == t;
      ListTakesItsRow(m, n, registry, lists, j);
      assert m.typeInitial[j] in m.typeInitial;
      RowStaysTidy(lists[t], m.castInitial[j], registry.Keys, t == m.typeInitial[j], NamesOf(m.typeInitial));
    } else {
      assert table[..n] == table;
      ListsWaitTheirTurn(m, n, registry, lists, t);
    }
  }

  lemma ListsStayTidy(m: ModuleInfo, registry: Registry, lists: map<TypeInfo, seq<CastInfo>>)
    requires |m.typeInitial| == |m.castInitial| && Sorted(m.typeInitial) && RegistryNamed(registry)
    requires forall u :: u in Resolved(registry, m.typeInitial) ==> u in lists
    requires TidyLists(lists, registry.Keys) && TidyRows(m)
    requires forall t :: t in m.typeInitial && t in lists ==> lists[t] == []
    ensures TidyLists(ListsAfter(m, |m.typeInitial|, registry, lists), registry.Keys + NamesOf(m.typeInitial))
  {
    forall t | t in lists
      ensures TidyList(ListsAfter(m, |m.typeInitial|, registry, lists)[t], registry.Keys + NamesOf(m.typeInitial))
    {
      ListStaysTidy(m, registry, lists, t);
    }
  }

  /** Where a load leaves each of the module's casts pointing. */
  lemma {:induction false} TargetsOfRow(m: ModuleInfo, i: nat, registry: Registry, targets: map<CastInfo, TypeInfo>,
                                        j: nat, c: CastInfo)
    requires i <= |m.typeInitial| == |m.castInitial| && RowsDisjoint(m)
    requires j < |m.castInitial| && c in m.castInitial[j] && c in targets
    ensures c in TargetsAfter(m, i, registry, targets)
    ensures TargetsAfter(m, i, registry, targets)[c] ==
      if j < i && Resolve(registry, m.typeInitial[j]) == m.typeInitial[j] then Resolve(registry, targets[c]) else targets[c]
  {
    if i > 0 {
      TargetsOfRow(m, i - 1, registry, targets, j, c);
      assert i - 1 < j ==> c !in m.castInitial[i - 1];
      assert j < i - 1 ==> c !in m.castInitial[i - 1];
    }
  }

  /**
   * After a load a cast of row j points to the registered type of its name exactly when the type of the row or the
   * target is new: in the remaining case, both loaded before, it keeps pointing to the module's own copy.
   */
  lemma CanonicalTargetExactly(m: ModuleInfo, registry: Registry, targets: map<CastInfo, TypeInfo>, j: nat, c: CastInfo)
    requires |m.typeInitial| == |m.castInitial| && RowsDisjoint(m) && Sorted(m.typeInitial)
    requires forall t :: t in m.typeInitial ==> t !in registry.Values
    requires j < |m.castInitial| && c in m.castInitial[j]
    requires c in targets && targets[c] in m.typeInitial && targets[c].name == c.targetName
    ensures c in TargetsAfter(m, |m.typeInitial|, registry, targets)
    ensures c.targetName in Extend(registry, m.typeInitial)
    ensures TargetsAfter(m, |m.typeInitial|, registry, targets)[c] == Extend(registry, m.typeInitial)[c.targetName]
      <==> m.typeInitial[j].name !in registry || c.targetName !in registry
  {
    TargetsOfRow(m, |m.typeInitial|, registry, targets, j, c);
    var k :| 0 <= k < |m.typeInitial| && m.typeInitial[k] == targets[c];
    ExtendResolves(registry, m.typeInitial, k);
    assert m.typeInitial[j] in m.typeInitial;
  }

  class Interpreter {
    var head: ModuleInfo?
    ghost var ring: seq<ModuleInfo>       // the loaded modules, head first
    ghost var registry: Registry          // the one type of each name
    ghost var universe: set<TypeInfo>     // all types of the loaded modules

    constructor ()
      ensures Valid() && Tidy()
      ensures head == null && ring == [] && registry == map[] && universe == {}
    {
      head, ring, registry, universe := null, [], map[], {};
    }

    ghost predicate RingOK()
      reads this`head, this`ring, ring`next
    {
      head == (if ring == [] then null else ring[0]) && Cycle(ring)
    }

    /** The search for an already loaded module. */
    method Search(m: ModuleInfo) returns (found: bool)
      requires RingOK() && head != null
      ensures found <==> m in ring
    {
      var iter := head;
      ghost var k := 0;
      found := false;
      while true
        invariant 0 <= k < |ring| && iter == ring[k] && m !in ring[..k]
        decreases |ring| - k
      {
        if iter == m {
          return true;
        }
        iter := iter.next;
        k := k + 1;
        if iter == head { break; }
      }
      assert ring[..k] == ring;
    }

    /** Linking a module behind the head, or making it the only one. */
    method Link(m: ModuleInfo)
      requires RingOK() && m !in ring && m.next == m
      modifies this`head, this`ring, m`next, ring`next
      ensures RingOK() && ring == Inserted(old(ring), m)
      ensures old(head) == null ==> head == m && m.next == m
      ensures old(head) != null ==> head == old(head) && head.next == m && m.next == old(head.next)
      ensures forall o :: o in old(ring) && o != old(head) ==> o.next == old(o.next)
    {
      if head == null {
        head := m;
      } else {
        m.next := head.next;
        head.next := m;
      }
      ring := Inserted(ring, m);
    }

    /** The modules share the registered types and nothing else. */
    ghost predicate TablesOK()
      reads this, ring`table, set m | m in ring :: m.types
    {
      && Published(ring, registry) && RegistryIn(registry, universe)
      && DistinctArrays(ring)
    }

    ghost predicate Valid()
      reads this, ring`next, ring`table, set m | m in ring :: m.types
      reads universe`cast, universe`casts, Nodes(universe)
    {
      RingOK() && TablesOK() && WellFormed(universe)
    }

    /** No cast list has two entries for one name, and all the names are registered. */
    ghost predicate Tidy()
      reads this`registry, this`universe, universe`casts
    {
      TidyLists(CastsOf(universe), registry.Keys)
    }

    /** A module as its generated code declares it, before it is loaded. */
    ghost predicate Loadable(m: ModuleInfo)
      reads this, m.typeInitial, RowsFrom(m, 0)
    {
      && m !in ring
      && m.size == |m.typeInitial| == |m.castInitial| && m.types.Length == m.size + 1
      && Sorted(m.typeInitial) && RowsDisjoint(m)
      && (forall o :: o in ring ==> o.types != m.types)
      && (forall t :: t in m.typeInitial ==> t !in universe && t.cast == null && t.casts == [])
      && (forall c :: c in RowsFrom(m, 0) ==> c.Pristine() && c.ty in m.typeInitial)
    }

    /** The nodes a load of m may touch. */
    ghost function LoadNodes(m: ModuleInfo): set<CastInfo>
      reads this, With(universe, m.typeInitial)`casts
    {
      Nodes(With(universe, m.typeInitial)) + RowsFrom(m, 0)
    }

    ghost function LoadOf(m: ModuleInfo): Load
      reads this, With(universe, m.typeInitial), LoadNodes(m)
    {
      var S, N := With(universe, m.typeInitial), LoadNodes(m);
      Load(Others(ring), registry, S, N, CastsOf(S), DataOf(S), TargetsOf(N))
    }

    lemma ReadyToLoad(m: ModuleInfo)
      requires Valid() && Loadable(m)
      ensures Admissible(m, ring, LoadOf(m)) && Start(m, LoadOf(m))
    {
      PublishedRotated(ring, registry);
      WellFormedWith(universe, m.typeInitial);
      forall o
        ensures o in Others(ring) <==> o in ring
      {
        SameModules(ring, m, o);
      }
    }

    /** A new module first forms a ring of its own. */
    method LinkToSelf(m: ModuleInfo, ghost load: Load)
      requires RingOK() && m !in ring && Start(m, load)
      modifies m`next
      ensures RingOK() && m.next == m && Start(m, load)
    {
      m.next := m;
    }

    /** Linking a new module. */
    method LinkNew(m: ModuleInfo, ghost load: Load)
      requires RingOK() && m !in ring && m.next == m && Start(m, load)
      modifies this`head, this`ring, m`next, ring`next
      ensures RingOK() && ring == Inserted(old(ring), m) && Ahead(m, Others(old(ring)))
      ensures head == if old(head) == null then m else old(head)
      ensures Start(m, load)
    {
      ghost var before := ring;
      Link(m);
      AheadIsOthers(before, m);
    }

    /** Filling the table of a linked module: the interpreter's own fields and its ring stay. */
    method FillNew(m: ModuleInfo, ghost load: Load)
      requires RingOK() && Unloaded(m, load) && Start(m, load) && Ahead(m, load.others)
      modifies m`table, m.types, load.S`clientdata, load.S`cast, load.S`casts, load.N
      ensures RingOK() && Completed(m, load)
    {
      StartsProgress(m, load);
      FillTypes(m, load);
      ProgressCompletes(m, load);
    }

    /** What a completed load amounts to. */
    ghost predicate IsLoaded(m: ModuleInfo, load: Load)
      requires Unloaded(m, load)
      reads this`registry, this`universe, m`table, m.types, load.others`table, set o | o in load.others :: o.types
      reads load.S`cast, load.S`casts, load.S`clientdata, Nodes(load.S), load.N`ty
    {
      registry == Extend(load.registry, m.typeInitial) && universe == load.S && Completed(m, load)
    }

    /** Once the table is filled, recording the new registry and universe makes the interpreter valid again. */
    ghost method Record(m: ModuleInfo, before: seq<ModuleInfo>, load: Load)
      requires RingOK() && ring == Inserted(before, m) && Admissible(m, before, load) && Completed(m, load)
      modifies this`registry, this`universe
      ensures Valid() && IsLoaded(m, load)
    {
      ResolvedSorted(m, load);
      RecordFields(Extend(load.registry, m.typeInitial), load.S, m, load);
      RecordedTables(before, m, load);
    }

    ghost method RecordFields(registry': Registry, universe': set<TypeInfo>, m: ModuleInfo, load: Load)
      requires RingOK() && m.TableOK() && Published(load.others, load.registry) && WellFormed(load.S)
      modifies this`registry, this`universe
      ensures registry == registry' && universe == universe'
      ensures RingOK() && m.table == old(m.table) && m.TableOK()
      ensures Published(load.others, load.registry)
      ensures WellFormed(load.S)
      ensures CastsOf(load.S) == old(CastsOf(load.S))
      ensures DataOf(load.S) == old(DataOf(load.S))
      ensures TargetsOf(load.N) == old(TargetsOf(load.N))
    {
      registry, universe := registry', universe';
    }

    lemma RecordedTables(before: seq<ModuleInfo>, m: ModuleInfo, load: Load)
      requires ring == Inserted(before, m) && Admissible(m, before, load) && Published(load.others, load.registry)
      requires m.table == Resolved(load.registry, m.typeInitial) && m.TableOK()
      requires registry == Extend(load.registry, m.typeInitial) && universe == load.S
      ensures TablesOK()
    {
      PublishedByLoad(before, m, load.registry);
      ExtendKeeps(load.registry, m.typeInitial);
      forall o
        ensures o in ring <==> o == m || o in before
        ensures o in load.others <==> o in before
      {
        SameModules(before, m, o);
      }
    }

    lemma RecordedLists(m: ModuleInfo, load: Load)
      requires Unloaded(m, load) && TidyRows(m)
      requires TidyLists(load.lists, load.registry.Keys) && forall t :: t in m.typeInitial ==> load.lists[t] == []
      requires IsLoaded(m, load)
      ensures TidyLists(CastsOf(universe), registry.Keys)
    {
      ResolvedSorted(m, load);
      ExtendCovers(load.registry, m.typeInitial);
      ListsStayTidy(m, load.registry, load.lists);
    }

    /** The loading of a module that forms a ring of its own so far. */
    method LoadNew(m: ModuleInfo, ghost load: Load)
      requires RingOK() && Admissible(m, ring, load) && m.next == m && Start(m, load)
      modifies this, m`next, m`table, m.types, ring`next
      modifies load.S`clientdata, load.S`cast, load.S`casts, load.N
      ensures Valid() && ring == Inserted(old(ring), m) && IsLoaded(m, load)
      ensures head == if old(head) == null then m else old(head)
    {
      ghost var before := ring;
      LinkNew(m, load);
      FillNew(m, load);
      Record(m, before, load);
    }

    /** Equal names in any loaded modules stand for one type object. */
    lemma OneTypePerName(m: ModuleInfo, o: ModuleInfo, t: TypeInfo, u: TypeInfo)
      requires Valid() && m in ring && o in ring && t in m.table && u in o.table
      ensures t == u <==> t.name == u.name
      ensures t.name in registry && registry[t.name] == t && t in universe
    {
      assert Registered(m.table, registry) && Registered(o.table, registry);
      var j :| 0 <= j < |m.table| && m.table[j] == t;
      var k :| 0 <= k < |o.table| && o.table[k] == u;
    }

    /**
     * A query by mangled name all the way round: from whichever module it starts, it answers what is registered.
     */
    method MangledTypeQuery(start: ModuleInfo, name: string) returns (ret: TypeInfo?)
      requires Valid() && start in ring
      ensures ret == if name in registry then registry[name] else null
      ensures ret != null ==> ret.name == name && exists m :: m in ring && ret in m.table
      ensures ret == null ==> forall m, t :: m in ring && t in m.table ==> t.name != name
    {
      ghost var round := RoundTripFrom(ring, start, registry);
      ret := MangledTypeQueryModule(start, start, name, round);
      FindsIsLookup(round, registry, name, ret);
    }

    /** A lookup in the cast list of a loaded type, by name or by type. */
    method CheckCast(ty: TypeInfo, q: Query) returns (r: CastInfo?)
      requires Valid() && ty in universe
      modifies ty`cast, ty`casts, NodesOf(ty)`next, NodesOf(ty)`prev
      ensures Valid() && CastGraph(universe) == old(CastGraph(universe))
      ensures r == old(Lookup(ty.casts, q))
      ensures ty.casts == Touch(old(ty.casts), old(Place(ty.casts, q)))
      ensures old(Tidy()) ==> Tidy()
    {
      ghost var lists, k := CastsOf(universe), Place(ty.casts, q);
      r := CheckIn(ty, q, universe);
      CastsUpdated(universe, lists, ty);
      OneTouchStaysTidy(lists, ty, k, registry.Keys);
    }

    /** Setting the data of a loaded type. */
    method TypeClientData(ti: TypeInfo, clientdata: Pointer) returns (ghost reached: set<TypeInfo>)
      requires Valid() && ti in universe && clientdata != 0
      modifies universe`clientdata
      ensures Valid() && CastGraph(universe) == old(CastGraph(universe))
      ensures IsReachSet<TypeInfo>(old(CastGraph(universe)), old(White(universe)), ti, universe, reached)
      ensures forall t :: t in universe ==> t.clientdata == if t in reached then clientdata else old(t.clientdata)
      ensures reached <= universe && ti in reached
      ensures forall t, c :: t in reached && c in t.casts && !c.converter && c.ty in universe && old(c.ty.clientdata) == 0 ==>
        c.ty in reached
      ensures forall closed: set<TypeInfo> {:trigger reached <= closed} ::
        (ti in closed && forall t, c ::
          t in closed && t in universe && c in t.casts && !c.converter && c.ty in universe && old(c.ty.clientdata) == 0 ==>
            c.ty in closed)
        ==> reached <= closed
      ensures old(Tidy()) ==> Tidy()
    {
      ghost var empty := White(universe);
      reached := ClientData.TypeClientData(ti, clientdata, universe);
      ReachedIsLeast(universe, empty, ti, reached);
      forall closed: set<TypeInfo> | ti in closed &&
        forall t, c :: t in closed && t in universe && c in t.casts && !c.converter && c.ty in universe && old(c.ty.clientdata) == 0 ==>
          c.ty in closed
        ensures reached <= closed
      {
        assert PassesOn(closed, universe, empty);
      }
    }

    /** The call itself, which keeps the interpreter valid. */
    method Propagate(m: ModuleInfo) returns (ghost origin: map<TypeInfo, TypeInfo>)
      requires Valid() && m in ring
      modifies m`propagated, universe`clientdata
      ensures Valid() && m.propagated && CastGraph(universe) == old(CastGraph(universe))
      ensures old(m.propagated) ==> DataOf(universe) == old(DataOf(universe))
      ensures !old(m.propagated) ==>
        Spreading(universe, CastGraph(universe), old(White(universe)), Sources(m.table, old(White(universe))), origin, old(DataOf(universe)))
      ensures !old(m.propagated) ==> ClosedUpTo(m.table, |m.table|, CastGraph(universe), White(universe))
      ensures forall t :: t in m.table ==> t in universe
      ensures old(Tidy()) ==> Tidy()
    {
      ghost var before := CastGraph(universe);
      origin := Propagation.PropagateClientData(m, universe);
      forall t | t in universe
        ensures t.Targets() == old(t.Targets())
      {
        assert old(t.Sound(universe));
      }
    }

    /** Propagating the data of a loaded module. */
    method PropagateClientData(m: ModuleInfo) returns (ghost origin: map<TypeInfo, TypeInfo>)
      requires Valid() && m in ring
      modifies m`propagated, universe`clientdata
      ensures Valid() && m.propagated
      ensures !old(m.propagated) ==> ClosedUpTo(m.table, |m.table|, CastGraph(universe), White(universe))
      ensures old(m.propagated) ==> forall t :: t in universe ==> t.clientdata == old(t.clientdata)
      ensures forall t :: t in universe && old(t.clientdata) != 0 ==> t.clientdata == old(t.clientdata)
      ensures !old(m.propagated) ==> forall t :: t in universe && old(t.clientdata) == 0 && t.clientdata != 0 ==>
        (exists s :: s in universe && s in m.table && old(s.clientdata) != 0 && t.clientdata == old(s.clientdata) &&
          Reaches<TypeInfo>(CastGraph(universe), old(White(universe)), s, t))
      ensures !old(m.propagated) ==> forall t, c ::
        t in universe && (t in m.table || old(t.clientdata) == 0) && t.clientdata != 0 && c in t.casts && !c.converter ==>
          c.ty.clientdata != 0
      ensures old(Tidy()) ==> Tidy()
    {
      ghost var again, white, data := m.propagated, White(universe), DataOf(universe);
      origin := Propagate(m);
      assert forall t :: t in universe ==> data[t] == old(t.clientdata);
      if again {
        assert forall t :: t in universe ==> t.clientdata == DataOf(universe)[t];
      } else {
        PropagationMeans(m, universe, white, origin, data);
      }
    }

    /** What a load has done, type by type. */
    lemma LoadedMeans(m: ModuleInfo, load: Load)
      requires Unloaded(m, load) && IsLoaded(m, load) && RegistryNamed(load.registry)
      ensures |m.table| == m.size
      ensures forall j {:trigger LoadedEntry(m, load, j)} :: 0 <= j < m.size ==> LoadedEntry(m, load, j)
      ensures forall t :: t in load.S && t !in m.table ==> t.clientdata == load.data[t] && t.casts == load.lists[t]
    {
      assert m.TableOK();
      forall j | 0 <= j < m.size
        ensures LoadedEntry(m, load, j)
      {
        EntryIsLoaded(m, load, j);
      }
      forall t | t in load.S && t !in m.table
        ensures t.clientdata == load.data[t] && t.casts == load.lists[t]
      {
        OtherIsKept(m, load, t);
      }
    }

    lemma EntryIsLoaded(m: ModuleInfo, load: Load, j: nat)
      requires Unloaded(m, load) && IsLoaded(m, load) && RegistryNamed(load.registry) && j < m.size
      ensures |m.table| == m.size && LoadedEntry(m, load, j)
    {
      ResolvedSorted(m, load);
      var n, t, own, row := m.size, m.table[j], m.typeInitial[j], m.castInitial[j];
      assert t in m.table && own in m.typeInitial && t in load.S && own in load.S;
      ListTakesItsRow(m, n, load.registry, load.lists, j);
      DataTakesItsTurn(m, n, load.registry, load.data, j);
      RowNames(load.lists[t], row, load.registry.Keys, t == own);
      RowKeeps(load.lists[t], row, load.registry.Keys, t == own);
      assert CastsOf(load.S)[t] == t.casts && DataOf(load.S)[t] == t.clientdata;
    }

    lemma OtherIsKept(m: ModuleInfo, load: Load, t: TypeInfo)
      requires Unloaded(m, load) && IsLoaded(m, load) && t in load.S && t !in m.table
      ensures t.clientdata == load.data[t] && t.casts == load.lists[t]
    {
      ResolvedSorted(m, load);
      assert Resolved(load.registry, m.typeInitial)[..m.size] == m.table;
      ListsWaitTheirTurn(m, m.size, load.registry, load.lists, t);
      DataWaitsItsTurn(m, m.size, load.registry, load.data, t);
      assert CastsOf(load.S)[t] == t.casts && DataOf(load.S)[t] == t.clientdata;
    }

    /** Entry j of the table is the registered type of its name or the module's own, with its data and casts. */
    ghost predicate LoadedEntry(m: ModuleInfo, load: Load, j: nat)
      requires j < |m.table| && j < |m.typeInitial| && j < |m.castInitial|
      reads m`table, m.table
    {
      var t, own, row := m.table[j], m.typeInitial[j], m.castInitial[j];
      && t.name == own.name && t == (if own.name in load.registry then load.registry[own.name] else own)
      && t in load.data && own in load.data && t in load.lists
      && t.clientdata == (if load.data[own] != 0 then load.data[own] else load.data[t])
      && NameSet(t.casts) == NameSet(load.lists[t]) + NameSet(row)
      && multiset(load.lists[t]) <= multiset(t.casts) <= multiset(load.lists[t]) + multiset(row)
    }

    /** The second half of SWIG_InitializeModule: nothing more is done for a module that the search finds. */
    method Enter(m: ModuleInfo, ghost load: Load)
      requires RingOK() && (m !in ring ==> Admissible(m, ring, load) && m.next == m && Start(m, load))
      modifies this, m`next, m`table, m.types, ring`next
      modifies load.S`clientdata, load.S`cast, load.S`casts, load.N
      ensures if old(m in ring) then Untouched(m, load)
              else Valid() && ring == Inserted(old(ring), m) && Admissible(m, old(ring), load) && IsLoaded(m, load)
      ensures head == if old(head) == null then m else old(head)
    {
      if head != null {
        var found := Search(m);
        if found { return; }
      }
      LoadNew(m, load);
    }

    /** Nothing that a load could touch has been touched. */
    twostate predicate Untouched(m: ModuleInfo, load: Load)
      reads this, m, m.types, ring, load.S, load.N
    {
      unchanged(this) && unchanged(m) && unchanged(m.types) && unchanged(ring) && unchanged(load.S) && unchanged(load.N)
    }

    /** The same, spelled out. */
    ghost predicate EntryMeans(m: ModuleInfo, load: Load, j: nat)
      requires j < m.types.Length && j < |m.typeInitial| && j < |m.castInitial|
      reads m.types, load.S
    {
      var own, row := m.typeInitial[j], m.castInitial[j];
      var t := if own.name in load.registry then load.registry[own.name] else own;
      && t in load.S && own in load.S && load.data.Keys == load.S == load.lists.Keys
      && m.types[j] == t
      && t.clientdata == (if load.data[own] != 0 then load.data[own] else load.data[t])
      && NameSet(t.casts) == NameSet(load.lists[t]) + NameSet(row)
    }

    lemma EntryIsMeant(m: ModuleInfo, load: Load, j: nat)
      requires Unloaded(m, load) && IsLoaded(m, load) && j < m.size
      ensures EntryMeans(m, load, j)
    {
      assert RegistryNamed(load.registry);
      EntryIsLoaded(m, load, j);
      ResolvedSorted(m, load);
      assert m.types[j] == m.table[j] && m.typeInitial[j] in m.typeInitial && m.table[j] in m.table;
    }

    /** Where the load has left cast c of row j pointing. */
    lemma CastIsAimed(m: ModuleInfo, load: Load, j: nat, c: CastInfo)
      requires Unloaded(m, load) && IsLoaded(m, load) && j < m.size && c in m.castInitial[j]
      ensures m.types[j] == m.table[j] && c in load.targets
      ensures c.ty == if m.types[j] == m.typeInitial[j] then Resolve(load.registry, load.targets[c]) else load.targets[c]
    {
      assert m.TableOK() && c in RowsFrom(m, 0);
      TargetsOfRow(m, m.size, load.registry, load.targets, j, c);
      assert TargetsOf(load.N)[c] == c.ty;
    }

    lemma NotInTable(m: ModuleInfo, t: TypeInfo)
      requires m.TableOK() && forall own :: own in m.typeInitial ==> own.name != t.name
      ensures t !in m.table
    {
      assert forall j :: 0 <= j < |m.table| ==> m.table[j].name == m.typeInitial[j].name && m.typeInitial[j] in m.typeInitial;
    }

    lemma AllMeant(m: ModuleInfo, load: Load)
      requires Unloaded(m, load) && IsLoaded(m, load)
      ensures forall j {:trigger EntryMeans(m, load, j)} :: 0 <= j < m.size ==> EntryMeans(m, load, j)
      ensures forall t :: t in load.S && (forall own :: own in m.typeInitial ==> own.name != t.name) ==>
        t.clientdata == load.data[t] && t.casts == load.lists[t]
    {
      forall j | 0 <= j < m.size
        ensures EntryMeans(m, load, j)
      {
        EntryIsMeant(m, load, j);
      }
      forall t | t in load.S && forall own :: own in m.typeInitial ==> own.name != t.name
        ensures t.clientdata == load.data[t] && t.casts == load.lists[t]
      {
        NotInTable(m, t);
        OtherIsKept(m, load, t);
      }
    }

    /** The two halves together. */
    method Initialize(m: ModuleInfo)
      requires Valid() && (m in ring || (m.next == null && Loadable(m)))
      modifies this, m`next, m`table, m.types, ring`next
      modifies With(universe, m.typeInitial)`clientdata, With(universe, m.typeInitial)`cast, With(universe, m.typeInitial)`casts
      modifies LoadNodes(m)
      ensures Valid()
      ensures old(m in ring) ==> Untouched(m, old(LoadOf(m)))
      ensures old(m !in ring) ==> ring == Inserted(old(ring), m)
      ensures old(m !in ring) ==> Admissible(m, old(ring), old(LoadOf(m))) && IsLoaded(m, old(LoadOf(m)))
      ensures old(Tidy()) && (old(m !in ring) ==> TidyRows(m)) ==> Tidy()
      ensures head == if old(head) == null then m else old(head)
    {
      ghost var load, tidy, new_ := LoadOf(m), Tidy(), m !in ring;
      if tidy && new_ {
        TidyWith(universe, m.typeInitial, registry.Keys);
      }
      if m.next == null {
        ReadyToLoad(m);
        LinkToSelf(m, load);
      }
      Enter(m, load);
      if tidy && new_ && TidyRows(m) {
        RecordedLists(m, load);
      }
    }

    /**
     * SWIG_InitializeModule. A module of the ring is left alone; a new one is linked in behind the head, its table is
     * filled with the registered types, and its casts are merged into the lists of those types. Lists without
     * duplicates stay so when the rows of the new module have none.
     */
    method InitializeModule(m: ModuleInfo)
      requires Valid() && (m in ring || (m.next == null && Loadable(m)))
      modifies this, m`next, m`table, m.types, ring`next
      modifies With(universe, m.typeInitial)`clientdata, With(universe, m.typeInitial)`cast, With(universe, m.typeInitial)`casts
      modifies LoadNodes(m)
      ensures Valid()
      ensures old(m in ring) ==> Untouched(m, old(LoadOf(m)))
      ensures old(m !in ring) ==> ring == Inserted(old(ring), m)
      ensures old(m !in ring) ==> Admissible(m, old(ring), old(LoadOf(m))) && IsLoaded(m, old(LoadOf(m)))
      ensures old(Tidy()) && (old(m !in ring) ==> TidyRows(m)) ==> Tidy()
      ensures head == if old(head) == null then m else old(head)
      ensures old(m in ring) ==> ring == old(ring) && registry == old(registry) && universe == old(universe)
      ensures old(m in ring) ==> forall t :: t in universe ==> t.clientdata == old(t.clientdata) && t.casts == old(t.casts)
      ensures old(m !in ring) ==> forall j {:trigger m.typeInitial[j]} :: 0 <= j < m.size ==>
        var own := m.typeInitial[j];
        var t := if own.name in old(registry) then old(registry)[own.name] else own;
        && m.types[j] == t
        && t.clientdata == (if old(own.clientdata) != 0 then old(own.clientdata) else old(t.clientdata))
        && NameSet(t.casts) == NameSet(old(t.casts)) + NameSet(m.castInitial[j])
      ensures old(m !in ring) ==> forall j, c {:trigger c in m.castInitial[j]} :: 0 <= j < m.size && c in m.castInitial[j] ==>
        c.ty == if m.types[j] == m.typeInitial[j] && old(c.ty).name in old(registry) then old(registry)[old(c.ty).name] else old(c.ty)
      ensures old(m !in ring) ==> forall t :: t in old(universe) && (forall own :: own in m.typeInitial ==> own.name != t.name) ==>
        t.clientdata == old(t.clientdata) && t.casts == old(t.casts)
    {
      ghost var load, new_ := LoadOf(m), m !in ring;
      Initialize(m);
      if new_ {
        AllMeant(m, load);
        forall j, c {:trigger c in m.castInitial[j]} | 0 <= j < m.size && c in m.castInitial[j]
          ensures c.ty ==
            if m.types[j] == m.typeInitial[j] && old(c.ty).name in old(registry) then old(registry)[old(c.ty).name] else old(c.ty)
        {
          CastIsAimed(m, load, j, c);
        }
        forall j {:trigger m.typeInitial[j]} | 0 <= j < m.size
          ensures var own := m.typeInitial[j];
            var t := if own.name in old(registry) then old(registry)[own.name] else own;
            && m.types[j] == t
            && t.clientdata == (if old(own.clientdata) != 0 then old(own.clientdata) else old(t.clientdata))
            && NameSet(t.casts) == NameSet(old(t.casts)) + NameSet(m.castInitial[j])
        {
          assert EntryMeans(m, load, j);
        }
      }
    }
  }

  ghost predicate DistinctArrays(ring: seq<ModuleInfo>) {
    forall i, j :: 0 <= i < j < |ring| ==> ring[i].types != ring[j].types
  }

  /** The facts about a load that do not depend on the state. */
  ghost predicate Admissible(m: ModuleInfo, ring: seq<ModuleInfo>, load: Load) {
    && m !in ring && load.others == Others(ring) && Unloaded(m, load)
    && (forall t :: t in m.typeInitial ==> load.lists[t] == [])
    && DistinctArrays(ring)
  }

  ghost function With(universe: set<TypeInfo>, initial: seq<TypeInfo>): set<TypeInfo> {
    universe + set t | t in initial
  }

  lemma WellFormedWith(universe: set<TypeInfo>, initial: seq<TypeInfo>)
    requires WellFormed(universe) && forall t :: t in initial ==> t.cast == null && t.casts == []
    ensures WellFormed(With(universe, initial))
  {
    var S := With(universe, initial);
    forall t | t in S
      ensures t.Sound(S)
    {
      if t in universe {
        assert t.Sound(universe);
      }
    }
  }

  lemma TidyWith(universe: set<TypeInfo>, initial: seq<TypeInfo>, known: set<string>)
    requires TidyLists(CastsOf(universe), known) && forall t :: t in initial ==> t.casts == []
    ensures TidyLists(CastsOf(With(universe, initial)), known)
  {
    forall t | t in With(universe, initial)
      ensures TidyList(t.casts, known)
    {
      if t in universe {
        assert TidyList(CastsOf(universe)[t], known);
      }
    }
  }
}
