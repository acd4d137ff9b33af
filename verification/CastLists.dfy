/** Types, their doubly linked cast lists, and the lookups that move the found entry to the front. */
module CastLists {
  import opened CStrings

  /** A clientdata pointer; 0 is NULL. */
  type Pointer = nat

  class TypeInfo {
    const name: string
    const str: Option<string>
    var cast: CastInfo?
    var clientdata: Pointer
    ghost var casts: seq<CastInfo>  // the cast list, head first

    constructor (name: string, str: Option<string>, clientdata: Pointer)
      ensures this.name == name && this.str == str && this.clientdata == clientdata
      ensures cast == null && casts == []
    {
      this.name, this.str, this.clientdata := name, str, clientdata;
      cast, casts := null, [];
    }

    /** cast is the head of a well-formed doubly linked list whose nodes belong to this type alone. */
    ghost predicate ListOK()
      reads this`cast, this`casts, casts
    {
      && (cast == if casts == [] then null else casts[0])
      && (forall k {:trigger casts[k].owner} :: 0 <= k < |casts| ==> casts[k].owner == this)
      && (forall k {:trigger casts[k].next} :: 0 <= k < |casts| ==>
            casts[k].next == if k + 1 < |casts| then casts[k + 1] else null)
      && (forall k {:trigger casts[k].prev} :: 0 <= k < |casts| ==>
            casts[k].prev == if 0 < k then casts[k - 1] else null)
      && Distinct(casts)
    }

    /** The list is well formed and every entry refers to a type of S. */
    ghost predicate Sound(S: set<TypeInfo>)
      reads this`cast, this`casts, casts
    {
      ListOK() && forall c :: c in casts ==> c.ty in S && c.ty.name == c.targetName
    }

    /** Soundness depends on the list alone. */
    twostate lemma Kept(S: set<TypeInfo>)
      requires old(Sound(S)) && cast == old(cast) && casts == old(casts)
      requires forall k :: 0 <= k < |casts| ==> casts[k].Same()
      ensures Sound(S) && Targets() == old(Targets())
    {
    }

    /** The types this one is linked to by casts without a converter. */
    ghost function Targets(): set<TypeInfo>
      reads this`casts, casts`ty
    {
      set c | c in casts && !c.converter :: c.ty
    }
  }

  class CastInfo {
    var ty: TypeInfo
    const converter: bool  // whether a conversion function is present
    var next: CastInfo?
    var prev: CastInfo?
    ghost var owner: TypeInfo?  // the type whose list holds this node
    ghost const targetName: string   // the name of ty, whichever type of that name ty points to

    constructor (ty: TypeInfo, converter: bool)
      ensures this.ty == ty && this.converter == converter && targetName == ty.name
      ensures Pristine()
    {
      this.ty, this.converter, this.targetName := ty, converter, ty.name;
      next, prev, owner := null, null, null;
    }

    /** Not yet in any list. */
    ghost predicate Pristine()
      reads this
    {
      owner == null && next == null && prev == null && ty.name == targetName
    }

    twostate predicate Same()
      reads this
    {
      ty == old(ty) && next == old(next) && prev == old(prev) && owner == old(owner)
    }
  }

  /**
   * A definition under "forall key :: Unfold(key) ==> ..." is passed on as a whole, and becomes available where
   * Unfold(0) is mentioned.
   */
  ghost predicate Unfold(key: int) {
    true
  }

  ghost predicate Distinct<T>(s: seq<T>) {
    forall j, k :: 0 <= j < k < |s| ==> s[j] != s[k]
  }

  // ----- Move to front, on sequences -----

  function MoveToFront<T>(s: seq<T>, k: nat): (r: seq<T>)
    requires k < |s|
    ensures |r| == |s|
  {
    [s[k]] + s[..k] + s[k + 1..]
  }

  /** Index of the first occurrence, or the length. */
  function First<T(==)>(keys: seq<T>, key: T): (k: nat)
    ensures k <= |keys|
    ensures forall j :: 0 <= j < k ==> keys[j] != key
    ensures k < |keys| ==> keys[k] == key
  {
    if keys == [] || keys[0] == key then 0 else 1 + First(keys[1..], key)
  }

  lemma FirstIs<T>(keys: seq<T>, key: T, k: nat)
    requires k <= |keys|
    requires forall j :: 0 <= j < k ==> keys[j] != key
    requires k < |keys| ==> keys[k] == key
    ensures First(keys, key) == k
  {
    var f := First(keys, key);
    assert f < |keys| ==> keys[f] == key;
    assert k < |keys| ==> keys[k] == key;
  }

  /** The list after a lookup. */
  function Touch<T>(s: seq<T>, k: nat): seq<T> {
    if k < |s| then MoveToFront(s, k) else s
  }

  /** Nothing is lost or duplicated, and the other entries keep their relative order. */
  lemma MoveToFrontKeeps<T>(s: seq<T>, k: nat)
    requires k < |s|
    ensures multiset(MoveToFront(s, k)) == multiset(s)
    ensures MoveToFront(s, k)[1..] == s[..k] + s[k + 1..]
    ensures Distinct(s) ==> Distinct(MoveToFront(s, k))
  {
    assert s == s[..k] + [s[k]] + s[k + 1..];
    var r := MoveToFront(s, k);
    forall i, j | Distinct(s) && 0 <= i < j < |r|
      ensures r[i] != r[j]
    {
      var a := if i == 0 then k else if i <= k then i - 1 else i;
      var b := if j <= k then j - 1 else j;
      assert r[i] == s[a] && r[j] == s[b] && a != b;
    }
  }

  /** The answers of a series of lookups on a list that is reordered by each of them. */
  function Lookups<K(==), T>(entries: seq<T>, key: T -> K, wanted: seq<K>): seq<Option<T>>
    decreases |wanted|
  {
    if wanted == [] then []
    else
      var k := First(Keys(entries, key), wanted[0]);
      [if k < |entries| then Some(entries[k]) else None] + Lookups(Touch(entries, k), key, wanted[1..])
  }

  function Keys<K, T>(entries: seq<T>, key: T -> K): seq<K> {
    seq(|entries|, i requires 0 <= i < |entries| => key(entries[i]))
  }

  function Answer<K(==), T>(entries: seq<T>, key: T -> K, wanted: K): Option<T> {
    var k := First(Keys(entries, key), wanted);
    if k < |entries| then Some(entries[k]) else None
  }

  /** With unique keys a lookup is membership, so it does not depend on the order. */
  lemma AnswerIsMembership<K, T>(entries: seq<T>, key: T -> K, wanted: K, e: T)
    requires Distinct(Keys(entries, key))
    ensures Answer(entries, key, wanted) == Some(e) <==> e in entries && key(e) == wanted
  {
    var keys := Keys(entries, key);
    var f := First(keys, wanted);
    assert f < |keys| ==> keys[f] == key(entries[f]);
    if e in entries && key(e) == wanted {
      var i :| 0 <= i < |entries| && entries[i] == e;
      assert keys[i] == wanted;
      assert f == i;
    }
  }

  lemma KeysOfMove<K, T>(entries: seq<T>, key: T -> K, k: nat)
    requires k < |entries|
    ensures Keys(MoveToFront(entries, k), key) == MoveToFront(Keys(entries, key), k)
  {
  }

  lemma AnswerUnmoved<K, T>(entries: seq<T>, key: T -> K, k: nat, wanted: K)
    requires k < |entries| && Distinct(Keys(entries, key))
    ensures Distinct(Keys(MoveToFront(entries, k), key))
    ensures Answer(MoveToFront(entries, k), key, wanted) == Answer(entries, key, wanted)
  {
    var moved := MoveToFront(entries, k);
    KeysOfMove(entries, key, k);
    MoveToFrontKeeps(Keys(entries, key), k);
    MoveToFrontKeeps(entries, k);
    assert forall e :: e in moved <==> e in multiset(moved);
    assert forall e :: e in entries <==> e in multiset(entries);
    var a, b := Answer(moved, key, wanted), Answer(entries, key, wanted);
    if a.Some? {
      AnswerIsMembership(moved, key, wanted, a.value);
      AnswerIsMembership(entries, key, wanted, a.value);
    } else if b.Some? {
      AnswerIsMembership(entries, key, wanted, b.value);
      AnswerIsMembership(moved, key, wanted, b.value);
    }
  }

  /** Reordering is transparent: any series of lookups is answered as on the list that is never reordered. */
  lemma {:induction false} LookupsAreTransparent<K, T>(entries: seq<T>, key: T -> K, wanted: seq<K>)
    requires Distinct(Keys(entries, key))
    ensures |Lookups(entries, key, wanted)| == |wanted|
    ensures forall i :: 0 <= i < |wanted| ==> Lookups(entries, key, wanted)[i] == Answer(entries, key, wanted[i])
    decreases |wanted|
  {
    if wanted != [] {
      var k := First(Keys(entries, key), wanted[0]);
      var after := Touch(entries, k);
      if k < |entries| {
        AnswerUnmoved(entries, key, k, wanted[0]);
      }
      LookupsAreTransparent(after, key, wanted[1..]);
      forall i | 0 < i < |wanted|
        ensures Lookups(entries, key, wanted)[i] == Answer(entries, key, wanted[i])
      {
        if k < |entries| { AnswerUnmoved(entries, key, k, wanted[i]); }
        assert wanted[1..][i - 1] == wanted[i];
      }
    }
  }

  // ----- SWIG_TypeCheck, SWIG_TypeCheckStruct -----

  ghost function Names(casts: seq<CastInfo>): seq<string>
    reads casts
  {
    seq(|casts|, i requires 0 <= i < |casts| reads casts => casts[i].ty.name)
  }

  ghost function Types(casts: seq<CastInfo>): seq<TypeInfo>
    reads casts
  {
    seq(|casts|, i requires 0 <= i < |casts| reads casts => casts[i].ty)
  }

  ghost function Owner(ty: TypeInfo?): set<TypeInfo> {
    if ty == null then {} else {ty}
  }

  ghost function NodesOf(ty: TypeInfo?): set<CastInfo>
    reads ty
  {
    if ty == null then {} else set c | c in ty.casts
  }

  /** The unlinking and relinking that both lookups contain. */
  method MoveToTop(ty: TypeInfo, iter: CastInfo, ghost k: nat)
    requires ty.ListOK() && 0 < k < |ty.casts| && iter == ty.casts[k]
    modifies ty`cast, ty`casts, ty.casts`next, ty.casts`prev
    ensures ty.ListOK() && ty.casts == MoveToFront(old(ty.casts), k)
  {
    ghost var s := ty.casts;
    assert s[k].prev == s[k - 1] && s[k].next == if k + 1 < |s| then s[k + 1] else null;
    iter.prev.next := iter.next;
    if iter.next != null {
      iter.next.prev := iter.prev;
    }
    iter.next := ty.cast;
    iter.prev := null;
    if ty.cast != null { ty.cast.prev := iter; }
    ty.cast := iter;
    MoveToFrontKeeps(s, k);
    ghost var r := MoveToFront(s, k);
    ty.casts := r;
    forall i | 0 <= i < |r|
      ensures r[i].owner == ty
      ensures r[i].next == if i + 1 < |r| then r[i + 1] else null
      ensures r[i].prev == if 0 < i then r[i - 1] else null
    {
      var a := if i == 0 then k else if i <= k then i - 1 else i;
      assert r[i] == s[a];
      assert old(s[a].owner) == ty;
      assert old(s[a].next) == if a + 1 < |s| then s[a + 1] else null;
      assert old(s[a].prev) == if 0 < a then s[a - 1] else null;
    }
  }

  method TypeCheck(c: string, ty: TypeInfo?) returns (r: CastInfo?)
    requires ty != null ==> ty.ListOK()
    modifies Owner(ty)`cast, Owner(ty)`casts, NodesOf(ty)`next, NodesOf(ty)`prev
    ensures ty == null ==> r == null
    ensures ty != null ==> ty.ListOK()
    ensures ty != null ==> var k := old(First(Names(ty.casts), c));
      && ty.casts == Touch(old(ty.casts), k)
      && (r == if k < |ty.casts| then old(ty.casts)[k] else null)
    ensures ty != null && r == null ==> ty.casts == old(ty.casts) && forall j :: 0 <= j < |ty.casts| ==> ty.casts[j].ty.name != c
    ensures ty != null && r != null ==> r.ty.name == c && ty.cast == r && r.prev == null
    ensures ty != null && r != null ==>
      (exists k :: 0 <= k < |old(ty.casts)| && r == old(ty.casts)[k] &&
        ty.casts == [r] + old(ty.casts)[..k] + old(ty.casts)[k + 1..] &&
        forall j :: 0 <= j < k ==> old(ty.casts)[j].ty.name != c)
  {
    if ty == null {
      return null;
    }
    var iter := ty.cast;
    ghost var k := 0;
    ghost var names := Names(ty.casts);
    while iter != null
      invariant 0 <= k <= |ty.casts| && iter == (if k < |ty.casts| then ty.casts[k] else null)
      invariant forall j :: 0 <= j < k ==> names[j] != c && ty.casts[j].ty.name != c
      decreases |ty.casts| - k
    {
      if Compare(iter.ty.name, c) == 0 {
        FirstIs(names, c, k);
        if iter == ty.cast {
          assert ty.casts == Touch(ty.casts, 0) == [iter] + ty.casts[..0] + ty.casts[1..];
          return iter;
        }
        MoveToTop(ty, iter, k);
        return iter;
      }
      iter := iter.next;
      k := k + 1;
    }
    FirstIs(names, c, k);
    return null;
  }

  method TypeCheckStruct(from: TypeInfo, ty: TypeInfo?) returns (r: CastInfo?)
    requires ty != null ==> ty.ListOK()
    modifies Owner(ty)`cast, Owner(ty)`casts, NodesOf(ty)`next, NodesOf(ty)`prev
    ensures ty == null ==> r == null
    ensures ty != null ==> ty.ListOK()
    ensures ty != null ==> var k := old(First(Types(ty.casts), from));
      && ty.casts == Touch(old(ty.casts), k)
      && (r == if k < |ty.casts| then old(ty.casts)[k] else null)
    ensures ty != null && r == null ==> ty.casts == old(ty.casts) && forall j :: 0 <= j < |ty.casts| ==> ty.casts[j].ty != from
    ensures ty != null && r != null ==> r.ty == from && ty.cast == r && r.prev == null
    ensures ty != null && r != null ==>
      (exists k :: 0 <= k < |old(ty.casts)| && r == old(ty.casts)[k] &&
        ty.casts == [r] + old(ty.casts)[..k] + old(ty.casts)[k + 1..] &&
        forall j :: 0 <= j < k ==> old(ty.casts)[j].ty != from)
  {
    if ty == null {
      return null;
    }
    var iter := ty.cast;
    ghost var k := 0;
    ghost var types := Types(ty.casts);
    while iter != null
      invariant 0 <= k <= |ty.casts| && iter == (if k < |ty.casts| then ty.casts[k] else null)
      invariant forall j :: 0 <= j < k ==> types[j] != from && ty.casts[j].ty != from
      decreases |ty.casts| - k
    {
      if iter.ty == from {
        FirstIs(types, from, k);
        if iter == ty.cast {
          assert ty.casts == Touch(ty.casts, 0) == [iter] + ty.casts[..0] + ty.casts[1..];
          return iter;
        }
        MoveToTop(ty, iter, k);
        return iter;
      }
      iter := iter.next;
      k := k + 1;
    }
    FirstIs(types, from, k);
    return null;
  }

  /** Where types and names correspond one to one, looking up a type and looking up its name find the same entry. */
  lemma ChecksAgree(casts: seq<CastInfo>, from: TypeInfo)
    requires forall c :: c in casts && c.ty.name == from.name ==> c.ty == from
    ensures First(Names(casts), from.name) == First(Types(casts), from)
  {
    var f := First(Types(casts), from);
    assert forall j :: 0 <= j < f ==> Types(casts)[j] == casts[j].ty && casts[j] in casts;
    FirstIs(Names(casts), from.name, f);
  }

  // ----- Any number of lookups -----

  datatype Query = ByName(name: string) | ByType(from: TypeInfo)

  predicate Fulfils(c: CastInfo, q: Query)
    reads c
  {
    match q
    case ByName(name) => c.ty.name == name
    case ByType(from) => c.ty == from
  }

  ghost function Place(casts: seq<CastInfo>, q: Query): nat
    reads casts
  {
    match q
    case ByName(name) => First(Names(casts), name)
    case ByType(from) => First(Types(casts), from)
  }

  /** The first entry of the list that matches. */
  ghost function Lookup(casts: seq<CastInfo>, q: Query): CastInfo?
    reads casts
  {
    var k := Place(casts, q);
    if k < |casts| then casts[k] else null
  }

  lemma LookupIs(casts: seq<CastInfo>, q: Query)
    ensures Lookup(casts, q) == null ==> forall c :: c in casts ==> !Fulfils(c, q)
    ensures Lookup(casts, q) != null ==> Lookup(casts, q) in casts && Fulfils(Lookup(casts, q), q)
  {
    if q.ByName? {
      assert forall j :: 0 <= j < |casts| ==> Names(casts)[j] == casts[j].ty.name;
    } else {
      assert forall j :: 0 <= j < |casts| ==> Types(casts)[j] == casts[j].ty;
    }
  }

  /** With distinct names at most one entry matches. */
  lemma OneMatch(casts: seq<CastInfo>, q: Query, c: CastInfo, d: CastInfo)
    requires Distinct(Names(casts)) && c in casts && d in casts && Fulfils(c, q) && Fulfils(d, q)
    ensures c == d
  {
    var j :| 0 <= j < |casts| && casts[j] == c;
    var k :| 0 <= k < |casts| && casts[k] == d;
    assert Names(casts)[j] == c.ty.name && Names(casts)[k] == d.ty.name;
  }

  /** So the answer does not depend on the order of the entries. */
  lemma LookupIgnoresOrder(casts: seq<CastInfo>, reordered: seq<CastInfo>, q: Query)
    requires Distinct(Names(casts)) && multiset(casts) == multiset(reordered)
    ensures Lookup(reordered, q) == Lookup(casts, q)
  {
    LookupIs(casts, q);
    LookupIs(reordered, q);
    forall c: CastInfo
      ensures c in casts <==> c in reordered
    {
      assert c in casts <==> c in multiset(casts);
      assert c in reordered <==> c in multiset(reordered);
    }
    if Lookup(casts, q) != null && Lookup(reordered, q) != null {
      OneMatch(casts, q, Lookup(casts, q), Lookup(reordered, q));
    }
  }

  lemma TouchKeeps(casts: seq<CastInfo>, k: nat)
    ensures multiset(Touch(casts, k)) == multiset(casts)
    ensures (set c | c in Touch(casts, k)) == (set c | c in casts)
  {
    if k < |casts| {
      MoveToFrontKeeps(casts, k);
    }
    assert forall c: CastInfo :: c in Touch(casts, k) <==> c in multiset(Touch(casts, k));
    assert forall c: CastInfo :: c in casts <==> c in multiset(casts);
  }

  method Check(ty: TypeInfo, q: Query) returns (r: CastInfo?)
    requires ty.ListOK()
    modifies ty`cast, ty`casts, NodesOf(ty)`next, NodesOf(ty)`prev
    ensures ty.ListOK() && multiset(ty.casts) == multiset(old(ty.casts))
    ensures NodesOf(ty) == old(NodesOf(ty))
    ensures ty.casts == Touch(old(ty.casts), old(Place(ty.casts, q)))
    ensures r == old(Lookup(ty.casts, q))
  {
    TouchKeeps(ty.casts, Place(ty.casts, q));
    match q {
      case ByName(name) => r := TypeCheck(name, ty);
      case ByType(from) => r := TypeCheckStruct(from, ty);
    }
  }

  /** A lookup on a list that earlier ones have reordered answers as on the list they started from. */
  method CheckAgain(ty: TypeInfo, q: Query, ghost start: seq<CastInfo>) returns (r: CastInfo?)
    requires ty.ListOK() && multiset(ty.casts) == multiset(start) && Distinct(Names(start))
    modifies ty`cast, ty`casts, NodesOf(ty)`next, NodesOf(ty)`prev
    ensures ty.ListOK() && multiset(ty.casts) == multiset(start)
    ensures NodesOf(ty) == old(NodesOf(ty))
    ensures Names(start) == old(Names(start)) && Types(start) == old(Types(start))
    ensures r == old(Lookup(start, q)) == Lookup(start, q)
  {
    LookupIgnoresOrder(start, ty.casts, q);
    r := Check(ty, q);
  }

  /**
    Any series of lookups of both kinds on a list whose types have distinct names answers, throughout, as on
    the list that was there before the first.
    */
  method CheckAll(ty: TypeInfo, queries: seq<Query>) returns (answers: seq<CastInfo?>)
    requires ty.ListOK() && Distinct(Names(ty.casts))
    modifies ty`cast, ty`casts, NodesOf(ty)`next, NodesOf(ty)`prev
    ensures ty.ListOK() && multiset(ty.casts) == multiset(old(ty.casts))
    ensures |answers| == |queries|
    ensures forall i :: 0 <= i < |queries| ==> answers[i] == old(Lookup(ty.casts, queries[i]))
  {
    answers := [];
    ghost var start := ty.casts;
    var i := 0;
    while i < |queries|
      invariant 0 <= i <= |queries| && |answers| == i
      invariant Names(start) == old(Names(ty.casts)) && Types(start) == old(Types(ty.casts))
      invariant NodesOf(ty) == old(NodesOf(ty))
      invariant ty.ListOK() && multiset(ty.casts) == multiset(start)
      invariant forall j :: 0 <= j < i ==> answers[j] == old(Lookup(ty.casts, queries[j]))
    {
      var r := CheckAgain(ty, queries[i], start);
      answers := answers + [r];
      i := i + 1;
    }
  }
}
