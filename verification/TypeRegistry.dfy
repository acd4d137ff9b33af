/** Loading modules into one interpreter: SWIG_InitializeModule. */
module TypeRegistry {
  import opened CStrings
  import opened CastLists
  import opened CastMerging
  import opened ClientData
  import opened ModuleRing

  type Registry = map<string, TypeInfo>

  /** The type that stands for all types of t's name. */
  ghost function Resolve(registry: Registry, t: TypeInfo): (r: TypeInfo) {
    if t.name in registry then registry[t.name] else t
  }

  /** The tables of the modules hold exactly the registered types. */
  ghost predicate Published(modules: seq<ModuleInfo>, registry: Registry)
    reads modules`table, set m | m in modules :: m.types
  {
    && (forall m :: m in modules ==> m.TableOK() && Registered(m.table, registry))
    && (forall name :: name in registry ==> !NoneBefore(modules, |modules|, Named(name)))
  }

  ghost predicate Registered(table: seq<TypeInfo>, registry: Registry) {
    forall i {:trigger table[i]} :: 0 <= i < |table| ==> table[i].name in registry && registry[table[i].name] == table[i]
  }

  /** Searching published modules by mangled name is looking the name up in the registry. */
  lemma FindsIsLookup(modules: seq<ModuleInfo>, registry: Registry, name: string, ret: TypeInfo?)
    requires Published(modules, registry) && Finds(modules, Named(name), ret)
    ensures ret == if name in registry then registry[name] else null
  {
    if ret != null {
      var k :| 0 <= k < |modules| && NoneBefore(modules, k, Named(name)) && FirstHit(modules[k].table, Named(name), ret);
      assert modules[k] in modules && Registered(modules[k].table, registry);
    }
  }

  /** The two searches of SWIG_InitializeModule, made only if there are other modules. */
  method Loaded(m: ModuleInfo, name: string, ghost others: seq<ModuleInfo>, ghost registry: Registry)
    returns (t: TypeInfo?)
    requires Linked(m, others, registry)
    ensures t == if name in registry then registry[name] else null
  {
    t := null;
    assert Unfold(0);
    if m.next != m {
      t := MangledTypeQueryModule(m.next, m, name, others);
      FindsIsLookup(others, registry, name, t);
    } else {
      assert Finds(others, Named(name), null);
      FindsIsLookup(others, registry, name, null);
    }
  }

  ghost predicate RegistryIn(registry: Registry, S: set<TypeInfo>) {
    forall name :: name in registry ==> registry[name] in S && registry[name].name == name
  }

  /** m.next leads through the other modules, which hold the registered types. Folded, see Unfold. */
  ghost predicate Linked(m: ModuleInfo, others: seq<ModuleInfo>, registry: Registry)
    reads m`next, others`next, others`table, set o | o in others :: o.types
  {
    forall key {:trigger Unfold(key)} :: Unfold(key) ==> Published(others, registry) && Ahead(m, others)
  }

  ghost predicate Ahead(m: ModuleInfo, others: seq<ModuleInfo>)
    reads m`next, others`next
  {
    if others == [] then m.next == m else m.next != null && m.next != m && Walk(m.next, m, others)
  }

  /** The casts of an own type point to the registered types; the others still point to what they were made for. */
  ghost predicate Retargeted(row: seq<CastInfo>, targets: seq<TypeInfo>, registry: Registry, own: bool)
    requires |row| == |targets|
    reads row`ty
  {
    RetargetedUpTo(row, targets, |row|, registry, own)
  }

  ghost predicate RetargetedUpTo(row: seq<CastInfo>, targets: seq<TypeInfo>, k: nat, registry: Registry, own: bool)
    requires k <= |row| == |targets|
    reads row`ty
  {
    forall j {:trigger row[j]} :: 0 <= j < k ==> row[j].ty == Aim(own, registry, targets[j])
  }

  /** Where a cast made for a type points once it is loaded. */
  ghost function Aim(own: bool, registry: Registry, t: TypeInfo): TypeInfo {
    if own then Resolve(registry, t) else t
  }

  /** The body of the loop over the casts of one row. */
  method LoadCast(m: ModuleInfo, ty: TypeInfo, cast: CastInfo, own: bool,
                  ghost others: seq<ModuleInfo>, ghost registry: Registry, ghost S: set<TypeInfo>)
    requires Linked(m, others, registry) && RegistryIn(registry, S)
    requires ty.Sound(S) && cast.Pristine() && cast.ty in S
    modifies ty`cast, ty`casts, NodesOf(ty)`next, NodesOf(ty)`prev, cast
    ensures ty.Sound(S) && ty.casts == Attach(old(ty.casts), cast, registry.Keys, own)
    ensures forall c :: c in ty.casts ==> c in old(ty.casts) || c == cast
    ensures forall c: CastInfo {:trigger c.Pristine()} ::
      old(allocated(c)) && old(c.Pristine()) && c != cast ==> c.Pristine() && c.ty == old(c.ty)
    ensures cast.ty == Aim(own, registry, old(cast.ty))
  {
    forall c: CastInfo | c.Pristine()
      ensures c !in ty.casts
    {
      assert forall k {:trigger ty.casts[k]} :: 0 <= k < |ty.casts| ==> ty.casts[k].owner == ty;
    }
    var ret := Loaded(m, cast.ty.name, others, registry);
    AttachKeeps(ty.casts, cast, registry.Keys, own);
    AttachCast(ty, cast, ret, own, registry.Keys, S);
    forall c | c in ty.casts
      ensures c in old(ty.casts) || c == cast
    {
      assert c in multiset(ty.casts);
    }
  }

  /** The state of the loop over the casts of one row: the first k are attached, the others are as generated. */
  ghost predicate RowProgress(ty: TypeInfo, row: seq<CastInfo>, k: nat, list: seq<CastInfo>, targets: seq<TypeInfo>,
                              own: bool, registry: Registry, S: set<TypeInfo>)
    requires k <= |row| == |targets|
    reads ty`cast, ty`casts, ty.casts, row
  {
    && ty.Sound(S) && ty.casts == AttachFirst(list, row, k, registry.Keys, own)
    && (forall c :: c in ty.casts ==> c in list || c in row)
    && (forall j {:trigger row[j]} :: k <= j < |row| ==> row[j].Pristine() && row[j].ty == targets[j] && targets[j] in S)
    && RetargetedUpTo(row, targets, k, registry, own)
  }

  /** One round of that loop. */
  method LoadCastAt(m: ModuleInfo, ty: TypeInfo, row: seq<CastInfo>, k: nat, own: bool,
                    ghost list: seq<CastInfo>, ghost targets: seq<TypeInfo>,
                    ghost others: seq<ModuleInfo>, ghost registry: Registry, ghost S: set<TypeInfo>)
    requires Linked(m, others, registry) && RegistryIn(registry, S)
    requires k < |row| == |targets| && Distinct(row)
    requires RowProgress(ty, row, k, list, targets, own, registry, S)
    modifies ty`cast, ty`casts, NodesOf(ty)`next, NodesOf(ty)`prev, row[k]
    ensures RowProgress(ty, row, k + 1, list, targets, own, registry, S)
  {
    assert row[k].ty == targets[k];
    assert RetargetedUpTo(row, targets, k, registry, own);
    forall j {:trigger row[j]} | 0 <= j < k
      ensures row[j] != row[k]
      ensures row[j].ty == Aim(own, registry, targets[j])
    {
    }
    assert row[k] in row;
    LoadCast(m, ty, row[k], own, others, registry, S);
    assert ty.casts == AttachFirst(list, row, k + 1, registry.Keys, own);
    assert forall j {:trigger row[j]} :: k < j < |row| ==> row[j] != row[k];
  }

  /** The loop over the casts of one row. */
  method LoadRow(m: ModuleInfo, ty: TypeInfo, row: seq<CastInfo>, own: bool,
                 ghost others: seq<ModuleInfo>, ghost registry: Registry, ghost S: set<TypeInfo>)
    requires Linked(m, others, registry) && RegistryIn(registry, S)
    requires ty.Sound(S) && Distinct(row) && forall c :: c in row ==> c.Pristine() && c.ty in S
    modifies ty`cast, ty`casts, NodesOf(ty)`next, NodesOf(ty)`prev, row
    ensures ty.Sound(S) && ty.casts == AttachAll(old(ty.casts), row, registry.Keys, own)
    ensures forall c :: c in ty.casts ==> c in old(ty.casts) || c in row
    ensures Retargeted(row, old(Types(row)), registry, own)
  {
    var k := 0;
    ghost var list, targets := ty.casts, Types(row);
    while k < |row|
      invariant 0 <= k <= |row| && RowProgress(ty, row, k, list, targets, own, registry, S)
    {
      LoadCastAt(m, ty, row, k, own, list, targets, others, registry, S);
      k := k + 1;
    }
  }

  ghost function CastsOf(S: set<TypeInfo>): (lists: map<TypeInfo, seq<CastInfo>>)
    reads S`casts
  {
    map t | t in S :: t.casts
  }

  /** The same within the types of S: the other lists stay as they are. */
  method LoadRowOf(m: ModuleInfo, ty: TypeInfo, row: seq<CastInfo>, own: bool,
                   ghost others: seq<ModuleInfo>, ghost registry: Registry, ghost S: set<TypeInfo>)
    requires Linked(m, others, registry) && RegistryIn(registry, S)
    requires WellFormed(S) && ty in S && Distinct(row) && forall c :: c in row ==> c.Pristine() && c.ty in S
    modifies ty`cast, ty`casts, NodesOf(ty)`next, NodesOf(ty)`prev, row
    ensures WellFormed(S) && ty.casts == AttachAll(old(ty.casts), row, registry.Keys, own)
    ensures forall c :: c in ty.casts ==> c in old(ty.casts) || c in row
    ensures Retargeted(row, old(Types(row)), registry, own)
  {
    assert ty.Sound(S);
    ghost var touched := NodesOf(ty);
    LoadRow(m, ty, row, own, others, registry, S);
    forall t | t in S && t != ty
      ensures t.Sound(S)
    {
      assert old(t.Sound(S));
      forall k | 0 <= k < |t.casts|
        ensures t.casts[k].Same()
      {
        var c := t.casts[k];
        assert old(c.owner) == t;
        assert c !in touched && c !in row;
      }
      t.Kept(S);
    }
  }

  /** What that means for the lists and the data of S as a whole. */
  method LoadRowIn(m: ModuleInfo, ty: TypeInfo, row: seq<CastInfo>, own: bool,
                   ghost others: seq<ModuleInfo>, ghost registry: Registry, ghost S: set<TypeInfo>)
    requires Linked(m, others, registry) && RegistryIn(registry, S)
    requires WellFormed(S) && ty in S && Distinct(row) && forall c :: c in row ==> c.Pristine() && c.ty in S
    modifies ty`cast, ty`casts, NodesOf(ty)`next, NodesOf(ty)`prev, row
    ensures WellFormed(S) && CastsOf(S) == old(CastsOf(S))[ty := AttachAll(old(ty.casts), row, registry.Keys, own)]
    ensures DataOf(S) == old(DataOf(S))
    ensures forall c :: c in ty.casts ==> c in old(ty.casts) || c in row
    ensures Retargeted(row, old(Types(row)), registry, own)
  {
    ghost var lists, data := CastsOf(S), DataOf(S);
    LoadRowOf(m, ty, row, own, others, registry, S);
    CastsUpdated(S, lists, ty);
    DataKept(S, data);
  }

  lemma DataKept(S: set<TypeInfo>, data: map<TypeInfo, Pointer>)
    requires data.Keys == S && forall t {:trigger t.clientdata} :: t in S ==> t.clientdata == data[t]
    ensures DataOf(S) == data
  {
  }

  lemma CastsUpdated(S: set<TypeInfo>, lists: map<TypeInfo, seq<CastInfo>>, ty: TypeInfo)
    requires lists.Keys == S && ty in S
    requires forall t {:trigger t.casts} :: t in S && t != ty ==> t.casts == lists[t]
    ensures CastsOf(S) == lists[ty := ty.casts]
  {
  }

  function Overwritten(given: Pointer, before: Pointer): Pointer {
    if given != 0 then given else before
  }

  /** The choice between the loaded type and the module's own, with the overwriting of clientdata. */
  method ChooseType(m: ModuleInfo, initial: TypeInfo,
                    ghost others: seq<ModuleInfo>, ghost registry: Registry, ghost S: set<TypeInfo>)
    returns (ty: TypeInfo)
    requires Linked(m, others, registry) && RegistryIn(registry, S) && WellFormed(S)
    requires initial in S && initial !in registry.Values
    modifies S`clientdata
    ensures WellFormed(S) && ty == Resolve(registry, initial)
    ensures ty == if initial.name in registry then registry[initial.name] else initial
    ensures DataOf(S) == old(DataOf(S))[ty := Overwritten(old(initial.clientdata), old(ty.clientdata))]
    ensures old(initial.clientdata) != 0 ==> ty.clientdata == old(initial.clientdata)
    ensures old(initial.clientdata) == 0 ==> ty.clientdata == old(ty.clientdata)
    ensures CastsOf(S) == old(CastsOf(S))
  {
    var found := Loaded(m, initial.name, others, registry);
    if found == null {
      return initial;
    }
    ty := found;
    OverwriteData(ty, initial.clientdata, S);
  }

  method OverwriteData(ty: TypeInfo, given: Pointer, ghost S: set<TypeInfo>)
    requires ty in S && WellFormed(S)
    modifies ty`clientdata
    ensures WellFormed(S) && CastsOf(S) == old(CastsOf(S))
    ensures DataOf(S) == old(DataOf(S))[ty := Overwritten(given, old(ty.clientdata))]
    ensures ty.clientdata == if given != 0 then given else old(ty.clientdata)
  {
    if given != 0 {
      ty.clientdata := given;
    }
    forall t | t in S
      ensures t.Sound(S)
    {
      assert old(t.Sound(S));
      t.Kept(S);
    }
  }

  /** The body of the loop over the types of the module. */
  method LoadType(m: ModuleInfo, i: nat,
                  ghost others: seq<ModuleInfo>, ghost registry: Registry, ghost S: set<TypeInfo>)
    returns (ty: TypeInfo)
    requires Linked(m, others, registry) && RegistryIn(registry, S) && WellFormed(S)
    requires i < |m.typeInitial| == |m.castInitial|
    requires m.typeInitial[i] in S && m.typeInitial[i] !in registry.Values
    requires Distinct(m.castInitial[i]) && forall c :: c in m.castInitial[i] ==> c.Pristine() && c.ty in S
    modifies S`clientdata, S`cast, S`casts, Nodes(S)`next, Nodes(S)`prev, m.castInitial[i]
    ensures WellFormed(S) && ty == Resolve(registry, m.typeInitial[i])
    ensures CastsOf(S) == old(CastsOf(S))[ty := AttachAll(old(ty.casts), m.castInitial[i], registry.Keys, ty == m.typeInitial[i])]
    ensures forall t {:trigger t.casts} :: t in S ==> forall c :: c in t.casts ==> c in old(Nodes(S)) || c in m.castInitial[i]
    ensures DataOf(S) == old(DataOf(S))[ty := Overwritten(old(m.typeInitial[i].clientdata), old(ty.clientdata))]
    ensures Retargeted(m.castInitial[i], old(Types(m.castInitial[i])), registry, ty == m.typeInitial[i])
  {
    ty := ChooseType(m, m.typeInitial[i], others, registry, S);
    LoadRowIn(m, ty, m.castInitial[i], ty == m.typeInitial[i], others, registry, S);
  }

  // ----- The loop over the types of the module -----

  /** The table the module ends up with. */
  ghost function Resolved(registry: Registry, initial: seq<TypeInfo>): (r: seq<TypeInfo>) {
    seq(|initial|, i requires 0 <= i < |initial| => Resolve(registry, initial[i]))
  }

  /** What loading the type at index i does to the lists. */
  ghost function ListsStep(m: ModuleInfo, i: nat, registry: Registry, lists: map<TypeInfo, seq<CastInfo>>)
    : map<TypeInfo, seq<CastInfo>>
    requires i < |m.typeInitial| == |m.castInitial| && Resolve(registry, m.typeInitial[i]) in lists
  {
    var t := Resolve(registry, m.typeInitial[i]);
    lists[t := AttachAll(lists[t], m.castInitial[i], registry.Keys, t == m.typeInitial[i])]
  }

  /** The lists once the first i types have been loaded. */
  ghost function ListsAfter(m: ModuleInfo, i: nat, registry: Registry, lists: map<TypeInfo, seq<CastInfo>>)
    : (after: map<TypeInfo, seq<CastInfo>>)
    requires i <= |m.typeInitial| == |m.castInitial|
    requires forall t :: t in Resolved(registry, m.typeInitial) ==> t in lists
    ensures after.Keys == lists.Keys
  {
    if i == 0 then lists
    else
      assert Resolved(registry, m.typeInitial)[i - 1] in lists;
      ListsStep(m, i - 1, registry, ListsAfter(m, i - 1, registry, lists))
  }

  /** What loading the type at index i does to the clientdata. */
  ghost function DataStep(m: ModuleInfo, i: nat, registry: Registry, data: map<TypeInfo, Pointer>)
    : map<TypeInfo, Pointer>
    requires i < |m.typeInitial| && m.typeInitial[i] in data && Resolve(registry, m.typeInitial[i]) in data
  {
    var t := Resolve(registry, m.typeInitial[i]);
    data[t := Overwritten(data[m.typeInitial[i]], data[t])]
  }

  /** The clientdata once the first i types have been loaded. */
  ghost function DataAfter(m: ModuleInfo, i: nat, registry: Registry, data: map<TypeInfo, Pointer>)
    : (after: map<TypeInfo, Pointer>)
    requires i <= |m.typeInitial|
    requires forall t :: t in m.typeInitial ==> t in data
    requires forall t :: t in Resolved(registry, m.typeInitial) ==> t in data
    ensures after.Keys == data.Keys
  {
    if i == 0 then data
    else
      assert Resolved(registry, m.typeInitial)[i - 1] in data;
      DataStep(m, i - 1, registry, DataAfter(m, i - 1, registry, data))
  }

  /** The casts in the rows from i on. */
  ghost function RowsFrom(m: ModuleInfo, i: nat): set<CastInfo> {
    set j, c | i <= j < |m.castInitial| && c in m.castInitial[j] :: c
  }

  ghost predicate AllReady(nodes: set<CastInfo>, S: set<TypeInfo>)
    reads nodes
  {
    forall c {:trigger c in nodes} :: c in nodes ==> c.Pristine() && c.ty in S
  }

  ghost predicate RowsDisjoint(m: ModuleInfo) {
    && (forall j {:trigger m.castInitial[j]} :: 0 <= j < |m.castInitial| ==> Distinct(m.castInitial[j]))
    && (forall i, j, c {:trigger c in m.castInitial[i], m.castInitial[j]} ::
          0 <= i < j < |m.castInitial| && c in m.castInitial[i] ==> c !in m.castInitial[j])
  }

  lemma RowSplit(m: ModuleInfo, i: nat)
    requires RowsDisjoint(m) && i < |m.castInitial|
    ensures Distinct(m.castInitial[i])
    ensures RowsFrom(m, i) == RowsFrom(m, i + 1) + set c | c in m.castInitial[i]
    ensures forall c :: c in RowsFrom(m, i + 1) ==> c !in m.castInitial[i]
    ensures RowsFrom(m, i) <= RowsFrom(m, 0)
    ensures forall c :: c in m.castInitial[i] ==> c in RowsFrom(m, i)
  {
  }

  /** What a load starts from: the other modules and their registry, all types and cast nodes in play, and what
      the lists, the clientdata and the targets of the new casts are before it. */
  datatype Load = Load(others: seq<ModuleInfo>, registry: Registry, S: set<TypeInfo>, N: set<CastInfo>,
                       lists: map<TypeInfo, seq<CastInfo>>, data: map<TypeInfo, Pointer>,
                       targets: map<CastInfo, TypeInfo>)

  /** A module as the generated code sets it up, not sharing anything with the loaded ones. */
  ghost predicate Unloaded(m: ModuleInfo, load: Load) {
    && m.size == |m.typeInitial| == |m.castInitial| && m.types.Length == m.size + 1
    && Sorted(m.typeInitial) && RowsDisjoint(m)
    && (forall o :: o in load.others ==> o != m && o.types != m.types)
    && (forall t :: t in m.typeInitial ==> t in load.S && t !in load.registry.Values)
    && RegistryIn(load.registry, load.S)
    && load.lists.Keys == load.data.Keys == load.S
    && RowsFrom(m, 0) <= load.N == load.targets.Keys
  }

  ghost function TargetsOf(nodes: set<CastInfo>): map<CastInfo, TypeInfo>
    reads nodes`ty
  {
    map c | c in nodes :: c.ty
  }

  /** The targets once one row has been loaded. */
  ghost function Retarget(targets: map<CastInfo, TypeInfo>, row: seq<CastInfo>, registry: Registry, own: bool)
    : map<CastInfo, TypeInfo>
  {
    map c | c in targets :: Aim(c in row && own, registry, targets[c])
  }

  /** The targets once the first i rows have been loaded. */
  ghost function TargetsAfter(m: ModuleInfo, i: nat, registry: Registry, targets: map<CastInfo, TypeInfo>)
    : map<CastInfo, TypeInfo>
    requires i <= |m.typeInitial| == |m.castInitial|
  {
    if i == 0 then targets
    else Retarget(TargetsAfter(m, i - 1, registry, targets), m.castInitial[i - 1], registry,
                  Resolve(registry, m.typeInitial[i - 1]) == m.typeInitial[i - 1])
  }

  /** LoadType among all cast nodes N: the nodes of the later rows stay as generated. */
  method LoadTypeAt(m: ModuleInfo, i: nat, ghost others: seq<ModuleInfo>, ghost registry: Registry,
                    ghost S: set<TypeInfo>, ghost N: set<CastInfo>, ghost later: set<CastInfo>)
    returns (ty: TypeInfo)
    requires Linked(m, others, registry) && RegistryIn(registry, S) && WellFormed(S) && Nodes(S) <= N
    requires i < |m.typeInitial| == |m.castInitial|
    requires m.typeInitial[i] in S && m.typeInitial[i] !in registry.Values
    requires Distinct(m.castInitial[i]) && forall c :: c in m.castInitial[i] ==> c.Pristine() && c.ty in S && c in N && c !in later
    requires AllReady(later, S) && later <= N
    modifies S`clientdata, S`cast, S`casts, N
    ensures WellFormed(S) && Nodes(S) <= N && AllReady(later, S) && Linked(m, others, registry)
    ensures ty == Resolve(registry, m.typeInitial[i])
    ensures CastsOf(S) == old(CastsOf(S))[
      ty := AttachAll(old(ty.casts), m.castInitial[i], registry.Keys, ty == m.typeInitial[i])]
    ensures DataOf(S) == old(DataOf(S))[ty := Overwritten(old(m.typeInitial[i].clientdata), old(ty.clientdata))]
    ensures Retargeted(m.castInitial[i], old(Types(m.castInitial[i])), registry, ty == m.typeInitial[i])
    ensures forall c {:trigger c in N} :: c in N && c !in m.castInitial[i] ==> c.ty == old(c.ty)
  {
    ghost var row, nodes := m.castInitial[i], Nodes(S);
    NodesOwned(S);
    ty := LoadType(m, i, others, registry, S);
    forall c | c in later
      ensures c.Pristine() && c.ty in S
    {
      assert old(c.Pristine());
      assert c !in nodes && c !in row;
    }
    NodesWithin(S, nodes, row, N);
  }

  /** The same with its effect on the targets of all rows. */
  method LoadTypeAndAim(m: ModuleInfo, i: nat, ghost load: Load)
    returns (ty: TypeInfo)
    requires Unloaded(m, load) && i < m.size
    requires Linked(m, load.others, load.registry) && WellFormed(load.S)
    requires AllReady(RowsFrom(m, i), load.S) && Nodes(load.S) <= load.N
    modifies load.S`clientdata, load.S`cast, load.S`casts, load.N
    ensures Linked(m, load.others, load.registry) && WellFormed(load.S)
    ensures AllReady(RowsFrom(m, i + 1), load.S) && Nodes(load.S) <= load.N
    ensures ty == Resolve(load.registry, m.typeInitial[i])
    ensures CastsOf(load.S) == ListsStep(m, i, load.registry, old(CastsOf(load.S)))
    ensures DataOf(load.S) == DataStep(m, i, load.registry, old(DataOf(load.S)))
    ensures TargetsOf(load.N) == Retarget(old(TargetsOf(load.N)), m.castInitial[i], load.registry, ty == m.typeInitial[i])
  {
    ghost var row := m.castInitial[i];
    ghost var targets, before := Types(row), TargetsOf(load.N);
    RowSplit(m, i);
    ty := LoadTypeAt(m, i, load.others, load.registry, load.S, load.N, RowsFrom(m, i + 1));
    RowRetargeted(load.N, row, targets, before, load.registry, ty == m.typeInitial[i]);
  }

  lemma RowRetargeted(N: set<CastInfo>, row: seq<CastInfo>, targets: seq<TypeInfo>, before: map<CastInfo, TypeInfo>,
                      registry: Registry, own: bool)
    requires |row| == |targets| && Retargeted(row, targets, registry, own)
    requires before.Keys == N
    requires forall k {:trigger row[k]} :: 0 <= k < |row| ==> row[k] in before && before[row[k]] == targets[k]
    requires forall c {:trigger before[c]} :: c in before && c !in row ==> c.ty == before[c]
    ensures TargetsOf(N) == Retarget(before, row, registry, own)
  {
    forall c | c in before && c in row
      ensures c.ty == Aim(own, registry, before[c])
    {
      var k :| 0 <= k < |row| && row[k] == c;
    }
  }

  lemma NodesWithin(S: set<TypeInfo>, nodes: set<CastInfo>, row: seq<CastInfo>, N: set<CastInfo>)
    requires forall c :: c in nodes || c in row ==> c in N
    requires forall t {:trigger t.casts} :: t in S ==> forall c :: c in t.casts ==> c in nodes || c in row
    ensures Nodes(S) <= N
  {
  }

  lemma NodesOwned(S: set<TypeInfo>)
    requires WellFormed(S)
    ensures forall c :: c in Nodes(S) ==> c.owner != null
  {
    forall c | c in Nodes(S)
      ensures c.owner != null
    {
      var t :| t in S && c in t.casts;
      assert t.Sound(S);
      var k :| 0 <= k < |t.casts| && t.casts[k] == c;
    }
  }

  lemma ResolvedSorted(m: ModuleInfo, load: Load)
    requires Unloaded(m, load)
    ensures Sorted(Resolved(load.registry, m.typeInitial)) && Matches(Resolved(load.registry, m.typeInitial), m.typeInitial)
    ensures forall t :: t in Resolved(load.registry, m.typeInitial) ==> t in load.S
    ensures forall i {:trigger m.typeInitial[i]} :: 0 <= i < |m.typeInitial| ==> Resolve(load.registry, m.typeInitial[i]) in load.S
  {
    var table := Resolved(load.registry, m.typeInitial);
    forall i {:trigger table[i]} | 0 <= i < |table|
      ensures table[i].name == m.typeInitial[i].name && table[i] in load.S
    {
      assert table[i] == Resolve(load.registry, m.typeInitial[i]) && m.typeInitial[i] in m.typeInitial;
    }
  }

  /** The state of the loop over the types: the first i of them are loaded and entered in the table. */
  ghost predicate Progress(m: ModuleInfo, i: nat, load: Load)
    requires Unloaded(m, load) && i <= m.size
    reads m`next, m.types, load.others`next, load.others`table, set o | o in load.others :: o.types
    reads load.S`cast, load.S`casts, load.S`clientdata, Nodes(load.S), RowsFrom(m, 0), load.N`ty
  {
    ResolvedSorted(m, load);
    assert RowsFrom(m, i) <= RowsFrom(m, 0);
    && Linked(m, load.others, load.registry) && WellFormed(load.S)
    && AllReady(RowsFrom(m, i), load.S) && Nodes(load.S) <= load.N
    && CastsOf(load.S) == ListsAfter(m, i, load.registry, load.lists)
    && DataOf(load.S) == DataAfter(m, i, load.registry, load.data)
    && TargetsOf(load.N) == TargetsAfter(m, i, load.registry, load.targets)
    && (forall j {:trigger m.types[j]} :: 0 <= j < i ==> m.types[j] == Resolve(load.registry, m.typeInitial[j]))
  }

  /** The state in which a load ends, apart from the linking of the module. */
  ghost predicate Completed(m: ModuleInfo, load: Load)
    requires Unloaded(m, load)
    reads m`table, m.types, load.others`table, set o | o in load.others :: o.types
    reads load.S`cast, load.S`casts, load.S`clientdata, Nodes(load.S), load.N`ty
  {
    ResolvedSorted(m, load);
    && m.table == Resolved(load.registry, m.typeInitial) && m.TableOK()
    && Published(load.others, load.registry) && WellFormed(load.S)
    && CastsOf(load.S) == ListsAfter(m, m.size, load.registry, load.lists)
    && DataOf(load.S) == DataAfter(m, m.size, load.registry, load.data)
    && TargetsOf(load.N) == TargetsAfter(m, m.size, load.registry, load.targets)
  }

  lemma ProgressCompletes(m: ModuleInfo, load: Load)
    requires Unloaded(m, load) && Progress(m, m.size, load)
    requires m.table == Resolved(load.registry, m.typeInitial) && m.TableOK()
    ensures Completed(m, load)
  {
    assert Unfold(0);
  }

  /** The state before the loop, apart from the linking of the module. */
  ghost predicate Start(m: ModuleInfo, load: Load)
    reads load.others`table, set o | o in load.others :: o.types
    reads load.S`cast, load.S`casts, load.S`clientdata, Nodes(load.S), RowsFrom(m, 0), load.N`ty
  {
    && Published(load.others, load.registry) && WellFormed(load.S)
    && AllReady(RowsFrom(m, 0), load.S) && Nodes(load.S) <= load.N
    && CastsOf(load.S) == load.lists && DataOf(load.S) == load.data && TargetsOf(load.N) == load.targets
  }

  lemma StartsProgress(m: ModuleInfo, load: Load)
    requires Unloaded(m, load) && Start(m, load) && Ahead(m, load.others)
    ensures Progress(m, 0, load)
  {
  }

  /** Entering a type in the table. */
  method StoreEntry(m: ModuleInfo, i: nat, ty: TypeInfo?, ghost later: set<CastInfo>, ghost load: Load)
    requires Unloaded(m, load) && i <= m.size
    requires Linked(m, load.others, load.registry) && WellFormed(load.S) && AllReady(later, load.S)
    modifies m.types
    ensures m.types[i] == ty
    ensures forall j {:trigger m.types[j]} :: 0 <= j < m.types.Length && j != i ==> m.types[j] == old(m.types[j])
    ensures Linked(m, load.others, load.registry)
    ensures WellFormed(load.S)
    ensures AllReady(later, load.S)
    ensures Nodes(load.S) == old(Nodes(load.S))
    ensures CastsOf(load.S) == old(CastsOf(load.S))
    ensures DataOf(load.S) == old(DataOf(load.S))
    ensures TargetsOf(load.N) == old(TargetsOf(load.N))
  {
    m.types[i] := ty;
  }

  /** Entering type i behind the ones already in the table. */
  method StoreNext(m: ModuleInfo, i: nat, ty: TypeInfo, ghost later: set<CastInfo>, ghost load: Load)
    requires Unloaded(m, load) && i < m.size
    requires Linked(m, load.others, load.registry) && WellFormed(load.S) && AllReady(later, load.S)
    requires ty == Resolve(load.registry, m.typeInitial[i])
    requires forall j {:trigger m.types[j]} :: 0 <= j < i ==> m.types[j] == Resolve(load.registry, m.typeInitial[j])
    modifies m.types
    ensures forall j {:trigger m.types[j]} :: 0 <= j < i + 1 ==> m.types[j] == Resolve(load.registry, m.typeInitial[j])
    ensures Linked(m, load.others, load.registry)
    ensures WellFormed(load.S)
    ensures AllReady(later, load.S)
    ensures Nodes(load.S) == old(Nodes(load.S))
    ensures CastsOf(load.S) == old(CastsOf(load.S))
    ensures DataOf(load.S) == old(DataOf(load.S))
    ensures TargetsOf(load.N) == old(TargetsOf(load.N))
  {
    StoreEntry(m, i, ty, later, load);
  }

  /** Writing the ghost record of the table. */
  ghost method WriteTable(m: ModuleInfo, table: seq<TypeInfo>, later: set<CastInfo>, load: Load)
    requires Unloaded(m, load)
    requires Linked(m, load.others, load.registry) && WellFormed(load.S) && AllReady(later, load.S)
    modifies m`table
    ensures m.table == table
    ensures Linked(m, load.others, load.registry)
    ensures WellFormed(load.S)
    ensures AllReady(later, load.S)
    ensures Nodes(load.S) == old(Nodes(load.S))
    ensures CastsOf(load.S) == old(CastsOf(load.S))
    ensures DataOf(load.S) == old(DataOf(load.S))
    ensures TargetsOf(load.N) == old(TargetsOf(load.N))
  {
    m.table := table;
  }

  /** Recording the completed table. */
  ghost method RecordTable(m: ModuleInfo, load: Load)
    requires Unloaded(m, load) && Progress(m, m.size, load) && m.types[m.size] == null
    modifies m`table
    ensures Progress(m, m.size, load)
    ensures m.table == Resolved(load.registry, m.typeInitial) && m.TableOK()
  {
    ResolvedSorted(m, load);
    WriteTable(m, Resolved(load.registry, m.typeInitial), RowsFrom(m, m.size), load);
  }

  /** One round of the loop over the types. */
  method LoadNext(m: ModuleInfo, i: nat, ghost load: Load)
    requires Unloaded(m, load) && i < m.size && Progress(m, i, load)
    modifies m.types, load.S`clientdata, load.S`cast, load.S`casts, load.N
    ensures Progress(m, i + 1, load)
  {
    ResolvedSorted(m, load);
    var ty := LoadTypeAndAim(m, i, load);
    StoreNext(m, i, ty, RowsFrom(m, i + 1), load);
    ProgressMade(m, i, load);
  }

  lemma ProgressMade(m: ModuleInfo, i: nat, load: Load)
    requires Unloaded(m, load) && i < m.size
    requires forall t :: t in Resolved(load.registry, m.typeInitial) ==> t in load.S
    requires Resolve(load.registry, m.typeInitial[i]) in load.S
    requires Linked(m, load.others, load.registry) && WellFormed(load.S)
    requires AllReady(RowsFrom(m, i + 1), load.S) && Nodes(load.S) <= load.N
    requires CastsOf(load.S) == ListsStep(m, i, load.registry, ListsAfter(m, i, load.registry, load.lists))
    requires DataOf(load.S) == DataStep(m, i, load.registry, DataAfter(m, i, load.registry, load.data))
    requires TargetsOf(load.N) ==
      Retarget(TargetsAfter(m, i, load.registry, load.targets), m.castInitial[i], load.registry,
               Resolve(load.registry, m.typeInitial[i]) == m.typeInitial[i])
    requires forall j {:trigger m.types[j]} :: 0 <= j < i + 1 ==> m.types[j] == Resolve(load.registry, m.typeInitial[j])
    ensures Progress(m, i + 1, load)
  {
  }

  /** The loop over the types, the terminating null, and the table as a whole. */
  method FillTypes(m: ModuleInfo, ghost load: Load)
    requires Unloaded(m, load) && Progress(m, 0, load)
    modifies m`table, m.types, load.S`clientdata, load.S`cast, load.S`casts, load.N
    ensures Progress(m, m.size, load)
    ensures m.table == Resolved(load.registry, m.typeInitial) && m.TableOK()
  {
    var i := 0;
    while i < m.size
      invariant 0 <= i <= m.size && Progress(m, i, load)
    {
      LoadNext(m, i, load);
      i := i + 1;
    }
    CloseTable(m, load);
  }

  method CloseTable(m: ModuleInfo, ghost load: Load)
    requires Unloaded(m, load) && Progress(m, m.size, load)
    modifies m`table, m.types
    ensures Progress(m, m.size, load)
    ensures m.table == Resolved(load.registry, m.typeInitial) && m.TableOK()
  {
    ResolvedSorted(m, load);
    StoreEntry(m, m.size, null, RowsFrom(m, m.size), load);
    RecordTable(m, load);
  }
}
