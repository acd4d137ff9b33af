/** The circular list of modules and the search for types over it. */
module ModuleRing {
  import opened CStrings
  import opened CastLists
  import TypeNames

  class ModuleInfo {
    const types: array<TypeInfo?>
    const size: nat
    const typeInitial: seq<TypeInfo>
    const castInitial: seq<seq<CastInfo>>
    var next: ModuleInfo?
    var propagated: bool            // the static flag init_run
    ghost var table: seq<TypeInfo>  // the filled part of types

    constructor (typeInitial: seq<TypeInfo>, castInitial: seq<seq<CastInfo>>)
      ensures this.typeInitial == typeInitial && this.castInitial == castInitial && size == |typeInitial|
      ensures next == null && !propagated && fresh(types) && types.Length == size + 1 && table == []
    {
      this.typeInitial, this.castInitial, size := typeInitial, castInitial, |typeInitial|;
      types := new TypeInfo?[|typeInitial| + 1](i => null);
      next, propagated, table := null, false, [];
    }

    /** The table is filled with types of the generated names, sorted strictly by name, and ends in a null entry. */
    ghost predicate TableOK()
      reads this`table, types
    {
      && |table| == size && types.Length == size + 1 && types[size] == null
      && (forall i {:trigger table[i]} :: 0 <= i < size ==> types[i] == table[i])
      && Sorted(table) && Matches(table, typeInitial)
    }
  }

  ghost predicate Sorted(table: seq<TypeInfo>) {
    forall i, j :: 0 <= i < j < |table| ==> Compare(table[i].name, table[j].name) < 0
  }

  /** Entry by entry the types have the names of the generated ones. */
  ghost predicate Matches(table: seq<TypeInfo>, initial: seq<TypeInfo>) {
    |table| == |initial| && forall i {:trigger table[i]} :: 0 <= i < |table| ==> table[i].name == initial[i].name
  }

  /** The modules from start up to, not including, the next visit of end. */
  ghost predicate Walk(start: ModuleInfo, end: ModuleInfo, visited: seq<ModuleInfo>)
    reads visited`next
  {
    && visited != [] && visited[0] == start
    && (forall k {:trigger visited[k].next} :: 0 <= k < |visited| ==>
          visited[k].next == if k + 1 < |visited| then visited[k + 1] else end)
    && (forall k {:trigger visited[k]} :: 0 < k < |visited| ==> visited[k] != end)
  }

  // ----- What a search is to find -----

  function Named(name: string): TypeInfo -> bool {
    (t: TypeInfo) => t.name == name
  }

  /** The name and an alternative of the type's human-readable name list end in no space and are equal up to spaces. */
  function Readable(name: string): TypeInfo -> bool {
    (t: TypeInfo) => t.str.Some? && TypeNames.HitsSome(TypeNames.Alternatives(t.str.value, 0), name)
  }

  ghost predicate NoHit(table: seq<TypeInfo>, p: TypeInfo -> bool) {
    forall i {:trigger table[i]} :: 0 <= i < |table| ==> !p(table[i])
  }

  ghost predicate FirstHit(table: seq<TypeInfo>, p: TypeInfo -> bool, ret: TypeInfo) {
    exists i {:trigger table[..i]} :: 0 <= i < |table| && table[i] == ret && p(ret) && NoHit(table[..i], p)
  }

  /** ret is the first hit in the order of the modules and of their tables, and null if there is none. */
  ghost predicate Finds(visited: seq<ModuleInfo>, p: TypeInfo -> bool, ret: TypeInfo?)
    reads visited`table
  {
    if ret == null then NoneBefore(visited, |visited|, p)
    else exists k :: 0 <= k < |visited| && NoneBefore(visited, k, p) && FirstHit(visited[k].table, p, ret)
  }

  ghost predicate NoneBefore(visited: seq<ModuleInfo>, k: nat, p: TypeInfo -> bool)
    requires k <= |visited|
    reads visited`table
  {
    forall j {:trigger visited[j]} :: 0 <= j < k ==> NoHit(visited[j].table, p)
  }

  /** What a search has found, whatever it was looking for. */
  lemma FindsMeans(visited: seq<ModuleInfo>, p: TypeInfo -> bool, ret: TypeInfo?)
    requires Finds(visited, p, ret)
    ensures ret == null ==> forall m, t :: m in visited && t in m.table ==> !p(t)
    ensures ret != null ==> p(ret) && exists m :: m in visited && ret in m.table
  {
    if ret == null {
      forall m, t | m in visited && t in m.table
        ensures !p(t)
      {
        var k :| 0 <= k < |visited| && visited[k] == m;
        assert NoHit(visited[k].table, p);
      }
    } else {
      var k :| 0 <= k < |visited| && NoneBefore(visited, k, p) && FirstHit(visited[k].table, p, ret);
      assert visited[k] in visited;
    }
  }

  // ----- SWIG_MangledTypeQueryModule -----

  /** The binary search of one table. Offsets are unsigned, so r = i - 1 must not be computed at i = 0. */
  method SearchTable(m: ModuleInfo, name: string) returns (ret: TypeInfo?)
    requires m.TableOK()
    ensures ret == null ==> NoHit(m.table, Named(name))
    ensures ret != null ==> FirstHit(m.table, Named(name), ret)
  {
    if m.size == 0 { return null; }
    var l: nat, r: nat := 0, m.size - 1;
    while true
      invariant l <= r < m.size
      invariant forall j {:trigger m.table[j]} :: 0 <= j < l || r < j < m.size ==> m.table[j].name != name
      decreases r - l
    {
      var i := (l + r) / 2;
      assert m.types[i] == m.table[i];
      var compare := Compare(name, m.types[i].name);
      CompareSplits(m.table, i, name);
      if compare == 0 {
        assert NoHit(m.table[..i], Named(name));
        return m.types[i];
      }
      if compare < 0 {
        if i == 0 { break; }
        r := i - 1;
      } else {
        l := i + 1;
      }
      if l > r { break; }
    }
    return null;
  }

  /** In a sorted table the entries on the far side of a mismatch cannot match. */
  lemma CompareSplits(table: seq<TypeInfo>, i: nat, name: string)
    requires Sorted(table) && i < |table|
    ensures Compare(name, table[i].name) <= 0 ==> forall j {:trigger table[j]} :: i < j < |table| ==> table[j].name != name
    ensures Compare(name, table[i].name) >= 0 ==> forall j {:trigger table[j]} :: 0 <= j < i ==> table[j].name != name
  {
    CompareAntisymmetric(name, table[i].name);
  }

  method MangledTypeQueryModule(start: ModuleInfo, end: ModuleInfo, name: string, ghost visited: seq<ModuleInfo>)
    returns (ret: TypeInfo?)
    requires Walk(start, end, visited) && forall m :: m in visited ==> m.TableOK()
    ensures Finds(visited, Named(name), ret)
    ensures ret == null ==> forall m, t :: m in visited && t in m.table ==> t.name != name
    ensures ret != null ==> ret.name == name && exists m :: m in visited && ret in m.table
  {
    ret := SearchModules(start, end, name, visited);
    FindsMeans(visited, Named(name), ret);
  }

  method SearchModules(start: ModuleInfo, end: ModuleInfo, name: string, ghost visited: seq<ModuleInfo>)
    returns (ret: TypeInfo?)
    requires Walk(start, end, visited) && forall m :: m in visited ==> m.TableOK()
    ensures Finds(visited, Named(name), ret)
  {
    var iter := start;
    ghost var k := 0;
    while true
      invariant 0 <= k < |visited| && iter == visited[k]
      invariant NoneBefore(visited, k, Named(name))
      decreases |visited| - k
    {
      ret := SearchTable(iter, name);
      if ret != null {
        return;
      }
      iter := iter.next;
      k := k + 1;
      if iter == end { break; }
    }
    return null;
  }

  // ----- SWIG_TypeQueryModule -----

  /** No comparison of the name with a human-readable name of the table leaves its range. */
  ghost predicate Scannable(table: seq<TypeInfo>, name: string) {
    forall i {:trigger table[i]} :: 0 <= i < |table| && table[i].str.Some? ==> TypeNames.StaysInside(table[i].str.value, name)
  }

  /** The test of one type in the human-readable scan. */
  method IsReadable(t: TypeInfo, name: string) returns (hit: bool)
    requires t.str.Some? ==> TypeNames.StaysInside(t.str.value, name)
    ensures hit == Readable(name)(t)
    ensures hit <==> t.str.Some? && TypeNames.EquivFrom(t.str.value, 0, name) == TypeNames.Value(1)
  {
    if t.str.None? {
      return false;
    }
    var equiv := TypeNames.TypeEquiv(t.str.value, name);
    TypeNames.EquivExactly(t.str.value, 0, name);
    hit := equiv.value != 0;
  }

  /** The scan of one table by human-readable name. */
  method ScanTable(m: ModuleInfo, name: string) returns (ret: TypeInfo?)
    requires m.TableOK() && Scannable(m.table, name)
    ensures ret == null ==> NoHit(m.table, Readable(name))
    ensures ret != null ==> FirstHit(m.table, Readable(name), ret)
    ensures ret == null ==> forall t :: t in m.table && t.str.Some? ==>
      TypeNames.EquivFrom(t.str.value, 0, name) == TypeNames.Value(0)
    ensures ret != null ==> ret in m.table && ret.str.Some? && TypeNames.EquivFrom(ret.str.value, 0, name) == TypeNames.Value(1)
  {
    ret := ScanEntries(m, name);
    forall t | t in m.table && t.str.Some?
      ensures TypeNames.StaysInside(t.str.value, name)
      ensures ReadableMeans(t, name)
    {
      assert Scannable(m.table, name);
      TypeNames.EquivExactly(t.str.value, 0, name);
    }
    if ret == null {
      assert NoHit(m.table, Readable(name));
    }
  }

  /** For a type that can be scanned: readable means that the scan of its names answers 1, and not readable 0. */
  ghost predicate ReadableMeans(t: TypeInfo, name: string)
    requires t.str.Some?
  {
    TypeNames.EquivFrom(t.str.value, 0, name) == TypeNames.Value(if Readable(name)(t) then 1 else 0)
  }

  method ScanEntries(m: ModuleInfo, name: string) returns (ret: TypeInfo?)
    requires m.TableOK() && Scannable(m.table, name)
    ensures ret == null ==> NoHit(m.table, Readable(name))
    ensures ret != null ==> FirstHit(m.table, Readable(name), ret)
  {
    var i := 0;
    while i < m.size
      invariant 0 <= i <= m.size && NoHit(m.table[..i], Readable(name))
    {
      assert m.types[i] == m.table[i];
      var t := m.types[i];
      var hit := IsReadable(t, name);
      if hit {
        return t;
      }
      i := i + 1;
    }
    return null;
  }

  /** A query that ends in a space matches no human-readable name, and tables of clean names can be scanned for it. */
  lemma TrailingSpaceFindsNothing(table: seq<TypeInfo>, name: string)
    requires !TypeNames.Clean(name) && '\0' !in name
    ensures NoHit(table, Readable(name))
    ensures (forall i {:trigger table[i]} :: 0 <= i < |table| && table[i].str.Some? ==>
      '\0' !in table[i].str.value && TypeNames.AllClean(TypeNames.Alternatives(table[i].str.value, 0)))
      ==> Scannable(table, name)
  {
    forall i | 0 <= i < |table| && table[i].str.Some? && '\0' !in table[i].str.value &&
               TypeNames.AllClean(TypeNames.Alternatives(table[i].str.value, 0))
      ensures TypeNames.StaysInside(table[i].str.value, name)
    {
      TypeNames.StaysInsideWhen(table[i].str.value, name);
    }
  }

  /** The human-readable scan is reached only when no visited module has the mangled name. */
  method TypeQueryModule(start: ModuleInfo, end: ModuleInfo, name: string, ghost visited: seq<ModuleInfo>)
    returns (ret: TypeInfo?)
    requires Walk(start, end, visited) && forall m :: m in visited ==> m.TableOK()
    requires Finds(visited, Named(name), null) ==> forall m :: m in visited ==> Scannable(m.table, name)
    ensures if Finds(visited, Named(name), null) then Finds(visited, Readable(name), ret)
            else ret != null && Finds(visited, Named(name), ret)
    ensures ret != null ==> exists m :: m in visited && ret in m.table
    ensures forall m, t :: m in visited && t in m.table && t.name == name ==> ret != null && ret.name == name
    ensures (forall m, t :: m in visited && t in m.table ==> t.name != name) ==>
      (ret == null ==> forall m, t :: m in visited && t in m.table && t.str.Some? ==>
        TypeNames.EquivFrom(t.str.value, 0, name) == TypeNames.Value(0)) &&
      (ret != null ==> ret.str.Some? && TypeNames.EquivFrom(ret.str.value, 0, name) == TypeNames.Value(1))
  {
    ret := MangledTypeQueryModule(start, end, name, visited);
    if ret == null {
      ret := ScanModules(start, end, name, visited);
      ReadableFound(visited, name, ret);
    }
  }

  lemma ReadableFound(visited: seq<ModuleInfo>, name: string, ret: TypeInfo?)
    requires Finds(visited, Readable(name), ret) && forall m :: m in visited ==> Scannable(m.table, name)
    ensures ret != null ==> exists m :: m in visited && ret in m.table
    ensures ret == null ==> forall m, t :: m in visited && t in m.table && t.str.Some? ==>
      TypeNames.EquivFrom(t.str.value, 0, name) == TypeNames.Value(0)
    ensures ret != null ==> ret.str.Some? && TypeNames.EquivFrom(ret.str.value, 0, name) == TypeNames.Value(1)
  {
    FindsMeans(visited, Readable(name), ret);
    forall m, t | m in visited && t in m.table && t.str.Some?
      ensures ReadableMeans(t, name)
    {
      assert Scannable(m.table, name);
      TypeNames.EquivExactly(t.str.value, 0, name);
    }
  }

  /** The human-readable scan of the modules from start to end. */
  method ScanModules(start: ModuleInfo, end: ModuleInfo, name: string, ghost visited: seq<ModuleInfo>)
    returns (ret: TypeInfo?)
    requires Walk(start, end, visited) && forall m :: m in visited ==> m.TableOK() && Scannable(m.table, name)
    ensures Finds(visited, Readable(name), ret)
  {
    var iter := start;
    ghost var k := 0;
    while true
      invariant 0 <= k < |visited| && iter == visited[k]
      invariant NoneBefore(visited, k, Readable(name))
      decreases |visited| - k
    {
      ret := ScanTable(iter, name);
      if ret != null {
        return;
      }
      iter := iter.next;
      k := k + 1;
      if iter == end { break; }
    }
    return null;
  }
}
