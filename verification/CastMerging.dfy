/** Adding the casts of a newly loaded module to the list of a type. */
module CastMerging {
  import opened CastLists

  ghost function TargetNames(casts: seq<CastInfo>): seq<string> {
    seq(|casts|, i requires 0 <= i < |casts| => casts[i].targetName)
  }

  /**
   * The list after one cast of a row: for a type that was already loaded (own is false), an entry for the same
   * loaded name is moved to the front instead of being added again.
   */
  ghost function Attach(list: seq<CastInfo>, cast: CastInfo, known: set<string>, own: bool): seq<CastInfo> {
    if Moves(list, cast, known, own) then MoveToFront(list, First(TargetNames(list), cast.targetName))
    else [cast] + list
  }

  ghost predicate Moves(list: seq<CastInfo>, cast: CastInfo, known: set<string>, own: bool) {
    !own && cast.targetName in known && First(TargetNames(list), cast.targetName) < |list|
  }

  /** The two outcomes, place by place. */
  lemma AttachMeans(list: seq<CastInfo>, cast: CastInfo, known: set<string>, own: bool)
    ensures own || cast.targetName !in known || (forall j :: 0 <= j < |list| ==> list[j].targetName != cast.targetName) ==>
      Attach(list, cast, known, own) == [cast] + list
    ensures !own && cast.targetName in known && (exists j :: 0 <= j < |list| && list[j].targetName == cast.targetName) ==>
      (exists k :: 0 <= k < |list| && list[k].targetName == cast.targetName &&
        (forall j :: 0 <= j < k ==> list[j].targetName != cast.targetName) &&
        Attach(list, cast, known, own) == [list[k]] + list[..k] + list[k + 1..])
  {
    var names, k := TargetNames(list), First(TargetNames(list), cast.targetName);
    assert forall j {:trigger list[j]} :: 0 <= j < |list| ==> names[j] == list[j].targetName;
    if k < |list| {
      assert list[k].targetName == cast.targetName && forall j :: 0 <= j < k ==> list[j].targetName != cast.targetName;
    }
  }

  /** The list after the first k casts of a row. */
  ghost function AttachFirst(list: seq<CastInfo>, row: seq<CastInfo>, k: nat, known: set<string>, own: bool): seq<CastInfo>
    requires k <= |row|
  {
    if k == 0 then list else Attach(AttachFirst(list, row, k - 1, known, own), row[k - 1], known, own)
  }

  ghost function AttachAll(list: seq<CastInfo>, row: seq<CastInfo>, known: set<string>, own: bool): seq<CastInfo> {
    AttachFirst(list, row, |row|, known, own)
  }

  /** The list of a type the module brings itself is its row, last cast first. */
  lemma OwnRowIsReversed(row: seq<CastInfo>, known: set<string>)
    ensures |AttachAll([], row, known, true)| == |row|
    ensures forall i {:trigger row[i]} :: 0 <= i < |row| ==> AttachAll([], row, known, true)[|row| - 1 - i] == row[i]
  {
    OwnPrefixIsReversed(row, |row|, known);
  }

  lemma {:induction false} OwnPrefixIsReversed(row: seq<CastInfo>, k: nat, known: set<string>)
    requires k <= |row|
    ensures |AttachFirst([], row, k, known, true)| == k
    ensures forall i {:trigger row[i]} :: 0 <= i < k ==> AttachFirst([], row, k, known, true)[k - 1 - i] == row[i]
  {
    if k > 0 {
      OwnPrefixIsReversed(row, k - 1, known);
    }
  }

  ghost function NameSet(list: seq<CastInfo>): set<string> {
    set c | c in list :: c.targetName
  }

  lemma NamesListed(list: seq<CastInfo>, name: string)
    ensures name in TargetNames(list) <==> name in NameSet(list)
  {
    var names := TargetNames(list);
    if name in names {
      var i :| 0 <= i < |names| && names[i] == name;
      assert list[i] in list;
    }
    if name in NameSet(list) {
      var c :| c in list && c.targetName == name;
      var i :| 0 <= i < |list| && list[i] == c;
      assert names[i] == name;
    }
  }

  /** After a cast is attached its target is present. */
  lemma AttachNames(list: seq<CastInfo>, cast: CastInfo, known: set<string>, own: bool)
    ensures NameSet(Attach(list, cast, known, own)) == NameSet(list) + {cast.targetName}
  {
    var k := First(TargetNames(list), cast.targetName);
    if Moves(list, cast, known, own) {
      var moved := MoveToFront(list, k);
      MoveToFrontKeeps(list, k);
      assert forall c :: c in moved <==> c in multiset(moved);
      assert forall c :: c in list <==> c in multiset(list);
      NamesListed(list, cast.targetName);
      assert TargetNames(list)[k] == cast.targetName;
    }
  }

  lemma AttachKeeps(list: seq<CastInfo>, cast: CastInfo, known: set<string>, own: bool)
    ensures multiset(list) <= multiset(Attach(list, cast, known, own)) <= multiset(list) + multiset{cast}
  {
    if Moves(list, cast, known, own) {
      MoveToFrontKeeps(list, First(TargetNames(list), cast.targetName));
    }
  }

  /** Every target of the row is present after it is merged, and no other target is new. */
  lemma RowNames(list: seq<CastInfo>, row: seq<CastInfo>, known: set<string>, own: bool)
    ensures NameSet(AttachAll(list, row, known, own)) == NameSet(list) + NameSet(row)
  {
    PrefixNames(list, row, |row|, known, own);
    assert row[..|row|] == row;
  }

  lemma {:induction false} PrefixNames(list: seq<CastInfo>, row: seq<CastInfo>, k: nat, known: set<string>, own: bool)
    requires k <= |row|
    ensures NameSet(AttachFirst(list, row, k, known, own)) == NameSet(list) + NameSet(row[..k])
  {
    if k > 0 {
      PrefixNames(list, row, k - 1, known, own);
      AttachNames(AttachFirst(list, row, k - 1, known, own), row[k - 1], known, own);
      NameSetSnoc(row, k);
    }
  }

  lemma NameSetSnoc(row: seq<CastInfo>, k: nat)
    requires 0 < k <= |row|
    ensures NameSet(row[..k]) == NameSet(row[..k - 1]) + {row[k - 1].targetName}
  {
    assert row[..k] == row[..k - 1] + [row[k - 1]];
  }

  /** Nothing already in the list is lost, and nothing but the row is added. */
  lemma RowKeeps(list: seq<CastInfo>, row: seq<CastInfo>, known: set<string>, own: bool)
    ensures multiset(list) <= multiset(AttachAll(list, row, known, own)) <= multiset(list) + multiset(row)
  {
    PrefixKeeps(list, row, |row|, known, own);
    FirstOfAll(row, |row|);
    assert row[..|row|] == row;
  }

  ghost function FirstOf<T>(s: seq<T>, k: nat): multiset<T>
    requires k <= |s|
  {
    if k == 0 then multiset{} else FirstOf(s, k - 1) + multiset{s[k - 1]}
  }

  lemma {:induction false} FirstOfAll<T>(s: seq<T>, k: nat)
    requires k <= |s|
    ensures FirstOf(s, k) == multiset(s[..k])
  {
    if k > 0 {
      FirstOfAll(s, k - 1);
      assert s[..k] == s[..k - 1] + [s[k - 1]];
    }
  }

  lemma {:induction false} PrefixKeeps(list: seq<CastInfo>, row: seq<CastInfo>, k: nat, known: set<string>, own: bool)
    requires k <= |row|
    ensures multiset(list) <= multiset(AttachFirst(list, row, k, known, own)) <= multiset(list) + FirstOf(row, k)
  {
    if k > 0 {
      PrefixKeeps(list, row, k - 1, known, own);
      StepKeeps(list, row, k, known, own);
      Sandwich(multiset(list), multiset(AttachFirst(list, row, k - 1, known, own)),
               multiset(AttachFirst(list, row, k, known, own)), FirstOf(row, k - 1), multiset{row[k - 1]});
    }
  }

  lemma StepKeeps(list: seq<CastInfo>, row: seq<CastInfo>, k: nat, known: set<string>, own: bool)
    requires 0 < k <= |row|
    ensures multiset(AttachFirst(list, row, k - 1, known, own)) <= multiset(AttachFirst(list, row, k, known, own))
    ensures multiset(AttachFirst(list, row, k, known, own))
      <= multiset(AttachFirst(list, row, k - 1, known, own)) + multiset{row[k - 1]}
  {
    AttachKeeps(AttachFirst(list, row, k - 1, known, own), row[k - 1], known, own);
  }

  lemma Sandwich<T>(a: multiset<T>, b: multiset<T>, c: multiset<T>, x: multiset<T>, y: multiset<T>)
    requires a <= b <= a + x && b <= c <= b + y
    ensures a <= c <= a + (x + y)
  {
  }

  /** At most one entry for each target name. */
  ghost predicate UniqueTargets(list: seq<CastInfo>) {
    Distinct(TargetNames(list))
  }

  lemma MovedUnique(list: seq<CastInfo>, k: nat)
    requires UniqueTargets(list) && k < |list|
    ensures UniqueTargets(MoveToFront(list, k))
  {
    MoveToFrontKeeps(TargetNames(list), k);
    assert TargetNames(MoveToFront(list, k)) == MoveToFront(TargetNames(list), k);
  }

  /**
   * Merging keeps the entries unique, if the row names each target once, the list mentions known types only, and a
   * type of the module itself starts from the empty list.
   */
  lemma RowStaysUnique(list: seq<CastInfo>, row: seq<CastInfo>, known: set<string>, own: bool)
    requires UniqueTargets(list) && UniqueTargets(row)
    requires NameSet(list) <= known && (own ==> list == [])
    ensures UniqueTargets(AttachAll(list, row, known, own))
  {
    RowUniqueExactly(list, row, known, own);
    assert forall i {:trigger row[i]} :: 0 <= i < |row| ==> TargetNames(row)[i] == row[i].targetName;
  }

  // ----- Rows that name a target more than once -----

  /** The cast is added even when the list has an entry for its name. */
  ghost predicate AlwaysAdded(cast: CastInfo, known: set<string>, own: bool) {
    own || cast.targetName !in known
  }

  /** Among the first k casts of the row, none that is always added repeats the target of an earlier one. */
  ghost predicate NoneAddedTwice(row: seq<CastInfo>, k: nat, known: set<string>, own: bool)
    requires k <= |row|
  {
    forall i, j {:trigger row[i], row[j]} :: 0 <= i < j < k && AlwaysAdded(row[j], known, own) ==>
      row[i].targetName != row[j].targetName
  }

  /** For any row: merging keeps the entries unique exactly when no target is added twice. */
  lemma RowUniqueExactly(list: seq<CastInfo>, row: seq<CastInfo>, known: set<string>, own: bool)
    requires UniqueTargets(list) && NameSet(list) <= known && (own ==> list == [])
    ensures UniqueTargets(AttachAll(list, row, known, own)) <==> NoneAddedTwice(row, |row|, known, own)
  {
    PrefixUniqueExactly(list, row, |row|, known, own);
  }

  lemma {:induction false} PrefixUniqueExactly(list: seq<CastInfo>, row: seq<CastInfo>, k: nat, known: set<string>, own: bool)
    requires k <= |row| && UniqueTargets(list) && NameSet(list) <= known && (own ==> list == [])
    ensures UniqueTargets(AttachFirst(list, row, k, known, own)) <==> NoneAddedTwice(row, k, known, own)
  {
    if k > 0 {
      PrefixUniqueExactly(list, row, k - 1, known, own);
      PrefixNames(list, row, k - 1, known, own);
      AttachUniqueExactly(AttachFirst(list, row, k - 1, known, own), row[k - 1], known, own);
      OneMoreInRow(row, k, known, own);
    }
  }

  lemma OneMoreInRow(row: seq<CastInfo>, k: nat, known: set<string>, own: bool)
    requires 0 < k <= |row|
    ensures NoneAddedTwice(row, k, known, own) <==>
      NoneAddedTwice(row, k - 1, known, own) &&
      (AlwaysAdded(row[k - 1], known, own) ==> row[k - 1].targetName !in NameSet(row[..k - 1]))
  {
    var name := row[k - 1].targetName;
    if name in NameSet(row[..k - 1]) {
      var c :| c in row[..k - 1] && c.targetName == name;
      var i :| 0 <= i < k - 1 && row[i] == c;
    } else {
      forall i | 0 <= i < k - 1
        ensures row[i].targetName != name
      {
        assert row[i] in row[..k - 1];
      }
    }
  }

  lemma AttachUniqueExactly(list: seq<CastInfo>, cast: CastInfo, known: set<string>, own: bool)
    ensures UniqueTargets(Attach(list, cast, known, own)) <==>
      UniqueTargets(list) && (AlwaysAdded(cast, known, own) ==> cast.targetName !in NameSet(list))
  {
    NamesListed(list, cast.targetName);
    var names, k := TargetNames(list), First(TargetNames(list), cast.targetName);
    if Moves(list, cast, known, own) {
      assert TargetNames(MoveToFront(list, k)) == MoveToFront(names, k);
      MovedDistinct(names, k);
    } else {
      assert TargetNames([cast] + list) == [cast.targetName] + names;
      ConsDistinct(cast.targetName, names);
      assert k == |list| ==> cast.targetName !in names;
    }
  }

  lemma MovedDistinct<T>(s: seq<T>, k: nat)
    requires k < |s|
    ensures Distinct(MoveToFront(s, k)) <==> Distinct(s)
  {
    MoveToFrontKeeps(s, k);
    var r := MoveToFront(s, k);
    if Distinct(r) {
      forall i, j | 0 <= i < j < |s|
        ensures s[i] != s[j]
      {
        assert s[i] == r[if i == k then 0 else if i < k then i + 1 else i];
        assert s[j] == r[if j == k then 0 else if j < k then j + 1 else j];
      }
    }
  }

  lemma ConsDistinct<T>(x: T, s: seq<T>)
    ensures Distinct([x] + s) <==> Distinct(s) && x !in s
  {
    var r := [x] + s;
    assert forall i :: 0 <= i < |s| ==> r[i + 1] == s[i];
    if Distinct(r) {
      assert r[0] == x;
    }
  }

  /** The insertion code at the end of the loop body. */
  method Prepend(ty: TypeInfo, cast: CastInfo)
    requires ty.ListOK() && cast.Pristine()
    modifies ty`cast, ty`casts, cast, ty.casts`prev
    ensures ty.ListOK() && ty.casts == [cast] + old(ty.casts)
    ensures cast.ty == old(cast.ty)
  {
    ghost var s := ty.casts;
    assert forall k {:trigger s[k]} :: 0 <= k < |s| ==> s[k].owner == ty && s[k] != cast;
    if ty.cast != null {
      ty.cast.prev := cast;
      cast.next := ty.cast;
    }
    ty.cast := cast;
    cast.owner := ty;
    ghost var r := [cast] + s;
    ty.casts := r;
    forall i | 0 < i < |r|
      ensures r[i].owner == ty && r[i] == s[i - 1]
      ensures r[i].next == if i + 1 < |r| then r[i + 1] else null
      ensures r[i].prev == r[i - 1]
    {
      assert r[i] == s[i - 1];
      assert old(s[i - 1].owner) == ty;
      assert old(s[i - 1].next) == if i < |s| then s[i] else null;
      assert old(s[i - 1].prev) == if 1 < i then s[i - 2] else null;
    }
  }

  /** The body of the cast loop, for ret the loaded type of the same name as the cast's target, if there is one. */
  method AttachCast(ty: TypeInfo, cast: CastInfo, loaded: TypeInfo?, own: bool,
                    ghost known: set<string>, ghost S: set<TypeInfo>)
    requires ty.Sound(S) && cast.Pristine() && cast.ty in S
    requires loaded != null <==> cast.targetName in known
    requires loaded != null ==> loaded in S && loaded.name == cast.targetName
    modifies ty`cast, ty`casts, cast, NodesOf(ty)`next, NodesOf(ty)`prev
    ensures ty.Sound(S) && ty.casts == Attach(old(ty.casts), cast, known, own)
    ensures cast.ty == if own && loaded != null then loaded else old(cast.ty)
    ensures cast in ty.casts || unchanged(cast)
  {
    var ret := loaded;
    NamesOfSound(ty, S);
    if ret != null {
      if own {
        cast.ty := ret;
        ret := null;
      } else {
        var ocast := TypeCheck(ret.name, ty);
        if ocast == null { ret := null; }
      }
    }
    if ret == null {
      Prepend(ty, cast);
    }
  }

  lemma NamesOfSound(ty: TypeInfo, S: set<TypeInfo>)
    requires ty.Sound(S)
    ensures Names(ty.casts) == TargetNames(ty.casts)
  {
    assert forall k {:trigger ty.casts[k]} :: 0 <= k < |ty.casts| ==> ty.casts[k] in ty.casts;
  }
}
