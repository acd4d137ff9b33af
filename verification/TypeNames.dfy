/** Comparison of type names modulo spaces, and matching against `a|b|c` name lists. */
module TypeNames {
  import opened CStrings

  /** PastEnd: a cursor stepped beyond the end of its range, after which the C code has no defined meaning. */
  datatype Comparison = Value(value: int) | PastEnd

  // ----- What the names mean -----

  /** The characters of b[f..l] that are not spaces. */
  function Strip(b: string, f: nat, l: nat): (s: string)
    requires f <= l <= |b|
    ensures f < l && b[l - 1] != ' ' ==> s != []
    decreases l - f
  {
    if f == l then []
    else if b[f] == ' ' then Strip(b, f + 1, l)
    else [b[f]] + Strip(b, f + 1, l)
  }

  function StripAll(s: string): string {
    Strip(s, 0, |s|)
  }

  /** Stripping deletes the spaces and nothing else, wherever they are. */
  lemma StripDeletesSpaces(x: string, c: char, y: string)
    ensures StripAll(x + y) == StripAll(x) + StripAll(y)
    ensures StripAll([c]) == if c == ' ' then [] else [c]
    ensures StripAll([]) == []
  {
    StripShift(x + y, |x|, |x + y|, y, 0, |y|);
    StripShift(x + y, 0, |x|, x, 0, |x|);
    StripParts(x + y, 0, |x|, |x + y|);
    assert Strip([c], 1, 1) == [] && Strip([c], 0, 1) == if c == ' ' then [] else [c] + [];
  }

  lemma {:induction false} StripParts(b: string, f: nat, m: nat, l: nat)
    requires f <= m <= l <= |b|
    ensures Strip(b, f, l) == Strip(b, f, m) + Strip(b, m, l)
    decreases m - f
  {
    if f < m {
      StripParts(b, f + 1, m, l);
    }
  }

  predicate NoTrailingSpace(b: string, f: nat, l: nat)
    requires f <= l <= |b|
  {
    f == l || b[l - 1] != ' '
  }

  predicate Clean(s: string) {
    NoTrailingSpace(s, 0, |s|)
  }

  /** A range taken out of its string is stripped in the same way. */
  lemma {:induction false} StripShift(b: string, f: nat, l: nat, c: string, g: nat, m: nat)
    requires f <= l <= |b| && g <= m <= |c| && l - f == m - g
    requires forall j {:trigger b[j]} :: f <= j < l ==> b[j] == c[j - f + g]
    ensures Strip(b, f, l) == Strip(c, g, m)
    decreases l - f
  {
    if f < l {
      StripShift(b, f + 1, l, c, g + 1, m);
    }
  }

  // ----- SWIG_TypeNameComp -----

  /** The first offset from f that holds no space, at most l. */
  function SkipTo(b: string, f: nat, l: nat): (k: nat)
    requires f <= l <= |b|
    ensures f <= k <= l && (k < l ==> b[k] != ' ')
    decreases l - f
  {
    if f < l && b[f] == ' ' then SkipTo(b, f + 1, l) else f
  }

  /** Skipping takes nothing away, and does not reach the end of a range without a trailing space. */
  lemma {:induction false} SkipStrips(b: string, f: nat, l: nat)
    requires f <= l <= |b|
    ensures var k := SkipTo(b, f, l);
      Strip(b, f, l) == Strip(b, k, l) &&
      (f < l && NoTrailingSpace(b, f, l) ==> k < l)
    decreases l - f
  {
    if f < l && b[f] == ' ' {
      SkipStrips(b, f + 1, l);
    }
  }

  /** The outcome of comparing b1[f1..l1] with b2[f2..l2]. */
  function NameComp(b1: string, f1: nat, l1: nat, b2: string, f2: nat, l2: nat): Comparison
    requires f1 <= l1 <= |b1| && f2 <= l2 <= |b2|
    decreases l1 - f1
  {
    if f1 == l1 || f2 == l2 then Value((l1 - f1) - (l2 - f2))
    else
      var g1, g2 := SkipTo(b1, f1, l1), SkipTo(b2, f2, l2);
      if At(b1, g1) != At(b2, g2) then Value(if At(b1, g1) > At(b2, g2) then 1 else -1)
      else if g1 == l1 || g2 == l2 then PastEnd
      else NameComp(b1, g1 + 1, l1, b2, g2 + 1, l2)
  }

  lemma CompStep(b1: string, f1: nat, l1: nat, b2: string, f2: nat, l2: nat)
    requires f1 < l1 <= |b1| && f2 < l2 <= |b2|
    ensures var g1, g2 := SkipTo(b1, f1, l1), SkipTo(b2, f2, l2);
      NameComp(b1, f1, l1, b2, f2, l2) ==
        if At(b1, g1) != At(b2, g2) then Value(if At(b1, g1) > At(b2, g2) then 1 else -1)
        else if g1 == l1 || g2 == l2 then PastEnd
        else NameComp(b1, g1 + 1, l1, b2, g2 + 1, l2)
  {
  }

  method SkipSpaces(b: string, f: nat, l: nat) returns (g: nat)
    requires f <= l <= |b|
    ensures g == SkipTo(b, f, l)
  {
    g := f;
    while At(b, g) == ' ' && g != l
      invariant g <= l && SkipTo(b, g, l) == SkipTo(b, f, l)
    {
      g := g + 1;
    }
  }

  method TypeNameComp(b1: string, s1: nat, l1: nat, b2: string, s2: nat, l2: nat) returns (r: Comparison)
    requires s1 <= l1 <= |b1| && s2 <= l2 <= |b2|
    ensures r == NameComp(b1, s1, l1, b2, s2, l2)
  {
    ghost var expected := NameComp(b1, s1, l1, b2, s2, l2);
    var f1: nat, f2: nat := s1, s2;
    while f1 != l1 && f2 != l2
      invariant f1 <= l1 && f2 <= l2 && NameComp(b1, f1, l1, b2, f2, l2) == expected
      decreases l1 - f1
    {
      CompStep(b1, f1, l1, b2, f2, l2);
      f1 := SkipSpaces(b1, f1, l1);
      f2 := SkipSpaces(b2, f2, l2);
      if At(b1, f1) != At(b2, f2) {
        return Value(if At(b1, f1) > At(b2, f2) then 1 else -1);
      }
      if f1 == l1 || f2 == l2 {
        return PastEnd;  // the increments below would leave the range
      }
      f1, f2 := f1 + 1, f2 + 1;
    }
    r := Value((l1 - f1) - (l2 - f2));
  }

  lemma CompareCons(c: char, x: string, d: char, y: string)
    ensures Compare([c] + x, [d] + y) == if c != d then (if c > d then 1 else -1) else Compare(x, y)
  {
    assert ([c] + x)[1..] == x && ([d] + y)[1..] == y;
  }

  /** Without trailing spaces the result is the order of the two names with every space deleted. */
  lemma {:induction false} NameCompIsOrder(b1: string, f1: nat, l1: nat, b2: string, f2: nat, l2: nat)
    requires f1 <= l1 <= |b1| && NoTrailingSpace(b1, f1, l1)
    requires f2 <= l2 <= |b2| && NoTrailingSpace(b2, f2, l2)
    ensures var r := NameComp(b1, f1, l1, b2, f2, l2);
      r.Value? && Sign(r.value) == Compare(Strip(b1, f1, l1), Strip(b2, f2, l2))
    decreases l1 - f1
  {
    if f1 != l1 && f2 != l2 {
      var g1, g2 := SkipTo(b1, f1, l1), SkipTo(b2, f2, l2);
      SkipStrips(b1, f1, l1);
      SkipStrips(b2, f2, l2);
      CompStep(b1, f1, l1, b2, f2, l2);
      CompareCons(b1[g1], Strip(b1, g1 + 1, l1), b2[g2], Strip(b2, g2 + 1, l2));
      if b1[g1] == b2[g2] {
        NameCompIsOrder(b1, g1 + 1, l1, b2, g2 + 1, l2);
      }
    }
  }

  /** The promise, for two whole names. */
  predicate ComparesNames(x: string, y: string) {
    var r := NameComp(x, 0, |x|, y, 0, |y|);
    r.Value? && Sign(r.value) == Compare(StripAll(x), StripAll(y))
  }

  /** Length of the name without its trailing spaces. */
  function TrimmedLength(s: string, l: nat): (k: nat)
    requires l <= |s|
    ensures k <= l && NoTrailingSpace(s, 0, k)
    ensures forall j :: k <= j < l ==> s[j] == ' '
  {
    if l == 0 || s[l - 1] != ' ' then l else TrimmedLength(s, l - 1)
  }

  lemma {:induction false} StripTrailing(s: string, f: nat, k: nat, l: nat)
    requires f <= k <= l <= |s|
    requires forall j :: k <= j < l ==> s[j] == ' '
    ensures Strip(s, f, l) == Strip(s, f, k)
    decreases l - f
  {
    if f < l {
      if f < k {
        StripTrailing(s, f + 1, k, l);
      } else {
        StripTrailing(s, f + 1, f + 1, l);
      }
    }
  }

  /** Against its own trimmed form a name with trailing spaces compares as greater. */
  lemma {:induction false} TrimmedComparesLess(x: string, y: string, f: nat)
    requires f <= |y| < |x| && y == x[..|y|] && NoTrailingSpace(y, f, |y|)
    ensures NameComp(x, f, |x|, y, f, |y|).Value? && NameComp(x, f, |x|, y, f, |y|).value > 0
    decreases |y| - f
  {
    if f < |y| {
      SkipSame(x, y, f);
      TrimmedComparesLess(x, y, SkipTo(y, f, |y|) + 1);
    }
  }

  lemma {:induction false} SkipSame(x: string, y: string, f: nat)
    requires f < |y| <= |x| && y == x[..|y|] && NoTrailingSpace(y, f, |y|)
    ensures SkipTo(x, f, |x|) == SkipTo(y, f, |y|) < |y|
    decreases |y| - f
  {
    assert x[f] == y[f];
    if y[f] == ' ' {
      SkipSame(x, y, f + 1);
    }
  }

  /** Exactly the names without trailing spaces are ordered correctly against every such name. */
  lemma OrderedExactlyWithoutTrailingSpace(x: string)
    ensures Clean(x) <==> forall y :: Clean(y) ==> ComparesNames(x, y)
  {
    forall y | Clean(x) && Clean(y)
      ensures ComparesNames(x, y)
    {
      NameCompIsOrder(x, 0, |x|, y, 0, |y|);
    }
    if !Clean(x) {
      var k := TrimmedLength(x, |x|);
      var y := x[..k];
      TrimmedComparesLess(x, y, 0);
      StripTrailing(x, 0, k, |x|);
      StripShift(x, 0, k, y, 0, k);
      assert Clean(y) && !ComparesNames(x, y);
    }
  }

  /** x, followed by e if there is one, is where y goes on, or all of y when nothing follows and y has trailing spaces. */
  predicate Overruns(x: string, e: Option<char>, y: string, trailing: bool) {
    match e
    case Some(c) => x + [c] <= y
    case None => trailing && x == y
  }

  lemma OverrunsCons(c: char, x: string, e: Option<char>, d: char, y: string, trailing: bool)
    ensures Overruns([c] + x, e, [d] + y, trailing) <==> c == d && Overruns(x, e, y, trailing)
  {
    SameCons(c, x, d, y);
    if e.Some? {
      assert [c] + x + [e.value] == [c] + (x + [e.value]);
      PrefixCons(c, x + [e.value], d, y);
    }
  }

  lemma OverrunsNil(e: Option<char>, d: char, y: string, trailing: bool)
    ensures Overruns([], e, [d] + y, trailing) <==> e == Some(d)
  {
    if e.Some? {
      assert [] + [e.value] == [e.value] + [];
      PrefixCons(e.value, [], d, y);
    }
  }

  /** What follows the range in its string. */
  function Follower(b: string, l: nat): Option<char>
    requires l <= |b|
  {
    if l < |b| then Some(b[l]) else None
  }

  /**
    When the cursors leave a range.  b1[f1..l1] may be a piece of a longer string and b2 runs to its terminator:
    the first range ends in spaces, and what stands behind it is what comes next in the second, spaces aside.
    */
  predicate RunsOff(b1: string, f1: nat, l1: nat, b2: string, f2: nat)
    requires f1 <= l1 <= |b1| && f2 <= |b2|
  {
    !NoTrailingSpace(b1, f1, l1) &&
    Overruns(Strip(b1, f1, l1), Follower(b1, l1), Strip(b2, f2, |b2|), !NoTrailingSpace(b2, f2, |b2|))
  }

  lemma {:induction false} RunsOffExactly(b1: string, f1: nat, l1: nat, b2: string, f2: nat)
    requires f1 <= l1 <= |b1| && f2 <= |b2| && '\0' !in b1 && '\0' !in b2
    ensures NameComp(b1, f1, l1, b2, f2, |b2|).PastEnd? <==> RunsOff(b1, f1, l1, b2, f2)
    decreases l1 - f1
  {
    var l2 := |b2|;
    if f1 != l1 && f2 != l2 {
      var g1, g2 := SkipTo(b1, f1, l1), SkipTo(b2, f2, l2);
      CompStep(b1, f1, l1, b2, f2, l2);
      SkipStrips(b1, f1, l1);
      SkipStrips(b2, f2, l2);
      if g1 < l1 && g2 < l2 {
        OverrunsCons(b1[g1], Strip(b1, g1 + 1, l1), Follower(b1, l1),
                     b2[g2], Strip(b2, g2 + 1, l2), !NoTrailingSpace(b2, f2, l2));
        if b1[g1] == b2[g2] {
          RunsOffExactly(b1, g1 + 1, l1, b2, g2 + 1);
        }
      } else if g2 < l2 {
        OverrunsNil(Follower(b1, l1), b2[g2], Strip(b2, g2 + 1, l2), !NoTrailingSpace(b2, f2, l2));
      }
    }
  }

  lemma SameCons(c: char, x: string, d: char, y: string)
    ensures [c] + x == [d] + y <==> c == d && x == y
  {
    assert ([c] + x)[0] == c && ([d] + y)[0] == d;
    assert ([c] + x)[1..] == x && ([d] + y)[1..] == y;
  }

  lemma PrefixCons(c: char, x: string, d: char, y: string)
    ensures [c] + x <= [d] + y <==> c == d && x <= y
  {
    var s, t := [c] + x, [d] + y;
    assert s[1..] == x && t[1..] == y && s[0] == c && t[0] == d;
    if s <= t {
      assert x == t[..|s|][1..] == y[..|x|];
    }
  }

  /** Two whole names run past their ends exactly when both end in spaces and they are equal up to spaces. */
  lemma NamesRunPastEndExactly(x: string, y: string)
    requires '\0' !in x && '\0' !in y
    ensures NameComp(x, 0, |x|, y, 0, |y|).PastEnd? <==> !Clean(x) && !Clean(y) && StripAll(x) == StripAll(y)
  {
    RunsOffExactly(x, 0, |x|, y, 0);
  }

  /** The comparison is zero exactly for ranges without trailing spaces that are equal up to spaces. */
  lemma {:induction false} ZeroExactly(b1: string, f1: nat, l1: nat, b2: string, f2: nat, l2: nat)
    requires f1 <= l1 <= |b1| && f2 <= l2 <= |b2|
    ensures NameComp(b1, f1, l1, b2, f2, l2) == Value(0) <==>
      NoTrailingSpace(b1, f1, l1) && NoTrailingSpace(b2, f2, l2) && Strip(b1, f1, l1) == Strip(b2, f2, l2)
    decreases l1 - f1
  {
    if f1 != l1 && f2 != l2 {
      var g1, g2 := SkipTo(b1, f1, l1), SkipTo(b2, f2, l2);
      SkipStrips(b1, f1, l1);
      SkipStrips(b2, f2, l2);
      if g1 < l1 && g2 < l2 {
        CompStep(b1, f1, l1, b2, f2, l2);
        SameCons(b1[g1], Strip(b1, g1 + 1, l1), b2[g2], Strip(b2, g2 + 1, l2));
        if b1[g1] == b2[g2] {
          ZeroExactly(b1, g1 + 1, l1, b2, g2 + 1, l2);
        }
      }
    }
  }

  /** For instance, a name with a trailing space compared with itself. */
  lemma TrailingSpacesRunPastEnd()
    ensures NameComp("a ", 0, 2, "a ", 0, 2) == PastEnd
  {
    assert SkipTo("a ", 0, 2) == 0 && SkipTo("a ", 1, 2) == 2;
  }

  /** On clean names the comparison is a total preorder whose ties are equality modulo spaces. */
  lemma NameCompLaws(x: string, y: string, z: string)
    requires Clean(x) && Clean(y) && Clean(z)
    ensures var xy, yx, yz, xz := NameComp(x, 0, |x|, y, 0, |y|), NameComp(y, 0, |y|, x, 0, |x|),
                                  NameComp(y, 0, |y|, z, 0, |z|), NameComp(x, 0, |x|, z, 0, |z|);
      && xy.Value? && yx.Value? && yz.Value? && xz.Value?
      && (xy.value == 0 <==> StripAll(x) == StripAll(y))
      && Sign(xy.value) == -Sign(yx.value)
      && (xy.value <= 0 && yz.value <= 0 ==> xz.value <= 0)
  {
    NameCompIsOrder(x, 0, |x|, y, 0, |y|);
    NameCompIsOrder(y, 0, |y|, x, 0, |x|);
    NameCompIsOrder(y, 0, |y|, z, 0, |z|);
    NameCompIsOrder(x, 0, |x|, z, 0, |z|);
    CompareAntisymmetric(StripAll(x), StripAll(y));
    if Compare(StripAll(x), StripAll(y)) <= 0 && Compare(StripAll(y), StripAll(z)) <= 0 {
      CompareTransitive(StripAll(x), StripAll(y), StripAll(z));
    }
  }

  // ----- SWIG_TypeEquiv -----

  /** Offset of the first bar from f on, or the end. */
  function BarFrom(s: string, f: nat): (k: nat)
    requires f <= |s|
    ensures f <= k <= |s| && (k < |s| ==> s[k] == '|')
    decreases |s| - f
  {
    if f == |s| || s[f] == '|' then f else BarFrom(s, f + 1)
  }

  /** The scanned segments; nothing is scanned behind a final bar. */
  function Alternatives(s: string, f: nat): seq<string>
    requires f <= |s|
    decreases |s| - f, 1
  {
    if f == |s| then []
    else
      var k := BarFrom(s, f);
      [s[f..k]] + Behind(s, k)
  }

  /** The alternatives behind the bar at k, none at the end of s. */
  function Behind(s: string, k: nat): seq<string>
    requires k <= |s|
    decreases |s| - k, 0
  {
    if k < |s| then Alternatives(s, k + 1) else []
  }

  /** The outcome of scanning nb from the segment that starts at ne. */
  function EquivFrom(nb: string, ne: nat, tb: string): Comparison
    requires ne <= |nb|
    decreases |nb| - ne
  {
    if ne == |nb| then Value(0)
    else
      var k := BarFrom(nb, ne);
      var c := NameComp(nb, ne, k, tb, 0, |tb|);
      if c.PastEnd? then PastEnd
      else if c.value == 0 then Value(1)
      else if k < |nb| then EquivFrom(nb, k + 1, tb)
      else Value(0)
  }

  method TypeEquiv(nb: string, tb: string) returns (r: Comparison)
    ensures r == EquivFrom(nb, 0, tb)
  {
    r := Value(0);
    var ne := 0;
    while r == Value(0) && ne < |nb|
      invariant 0 <= ne <= |nb|
      invariant EquivFrom(nb, 0, tb) == if r == Value(0) then EquivFrom(nb, ne, tb) else r
      decreases |nb| - ne, r == Value(0)
    {
      var start := ne;
      while ne < |nb|
        invariant start <= ne <= |nb| && BarFrom(nb, ne) == BarFrom(nb, start)
      {
        if nb[ne] == '|' { break; }
        ne := ne + 1;
      }
      assert ne == BarFrom(nb, start);
      var c := TypeNameComp(nb, start, ne, tb, 0, |tb|);
      r := if c.PastEnd? then PastEnd else Value(if c.value == 0 then 1 else 0);
      if ne < |nb| {
        ne := ne + 1;
      }
    }
  }

  predicate AllClean(names: seq<string>) {
    forall i {:trigger names[i]} :: 0 <= i < |names| ==> Clean(names[i])
  }

  predicate MatchesSome(names: seq<string>, tb: string) {
    exists i {:trigger names[i]} :: 0 <= i < |names| && StripAll(names[i]) == StripAll(tb)
  }

  lemma AllCleanCons(first: string, rest: seq<string>)
    ensures AllClean([first] + rest) <==> Clean(first) && AllClean(rest)
  {
    var names := [first] + rest;
    assert names[0] == first;
    assert forall i {:trigger rest[i]} :: 0 <= i < |rest| ==> names[i + 1] == rest[i];
    assert forall i {:trigger names[i]} :: 0 < i < |names| ==> names[i] == rest[i - 1];
  }

  // ----- Trailing spaces in the alternatives -----

  predicate Hits(name: string, tb: string) {
    Clean(name) && Clean(tb) && StripAll(name) == StripAll(tb)
  }

  predicate HitsSome(names: seq<string>, tb: string) {
    exists i {:trigger names[i]} :: 0 <= i < |names| && Hits(names[i], tb)
  }

  /** Comparing the alternative with tb leaves a range; barred says whether a bar follows it. */
  predicate Leaves(name: string, barred: bool, tb: string) {
    !Clean(name) &&
    if barred then StripAll(name) + ['|'] <= StripAll(tb) else !Clean(tb) && StripAll(name) == StripAll(tb)
  }

  predicate EndsInBar(s: string) {
    s != [] && s[|s| - 1] == '|'
  }

  /** Alternative i leaves its range, and none before it hits. */
  predicate LeavesAt(names: seq<string>, i: int, lastBarred: bool, tb: string) {
    0 <= i < |names| && Leaves(names[i], i + 1 < |names| || lastBarred, tb) &&
    forall j {:trigger names[j]} :: 0 <= j < i ==> !Hits(names[j], tb)
  }

  ghost predicate LeavesFirst(names: seq<string>, lastBarred: bool, tb: string) {
    exists i :: LeavesAt(names, i, lastBarred, tb)
  }

  lemma HitsSomeCons(first: string, rest: seq<string>, tb: string)
    ensures HitsSome([first] + rest, tb) <==> Hits(first, tb) || HitsSome(rest, tb)
  {
    var names := [first] + rest;
    assert names[0] == first;
    assert forall i {:trigger rest[i]} :: 0 <= i < |rest| ==> names[i + 1] == rest[i];
    assert forall i {:trigger names[i]} :: 0 < i < |names| ==> names[i] == rest[i - 1];
  }

  lemma LeavesFirstCons(first: string, rest: seq<string>, lastBarred: bool, tb: string)
    ensures LeavesFirst([first] + rest, lastBarred, tb) <==>
      Leaves(first, rest != [] || lastBarred, tb) || (!Hits(first, tb) && LeavesFirst(rest, lastBarred, tb))
  {
    var names := [first] + rest;
    assert names[0] == first && names[1..] == rest;
    if Leaves(first, rest != [] || lastBarred, tb) {
      assert LeavesAt(names, 0, lastBarred, tb);
    }
    if !Hits(first, tb) && LeavesFirst(rest, lastBarred, tb) {
      var i :| LeavesAt(rest, i, lastBarred, tb);
      assert forall j {:trigger names[j]} :: 0 < j <= |rest| ==> names[j] == rest[j - 1];
      assert LeavesAt(names, i + 1, lastBarred, tb);
    }
    if LeavesFirst(names, lastBarred, tb) && !Leaves(first, rest != [] || lastBarred, tb) {
      var i :| LeavesAt(names, i, lastBarred, tb);
      assert forall j {:trigger rest[j]} :: 0 <= j < |rest| ==> rest[j] == names[j + 1];
      assert LeavesAt(rest, i - 1, lastBarred, tb);
    }
  }

  /** The scan as a function of the alternatives. */
  function Scan(names: seq<string>, lastBarred: bool, tb: string): Comparison {
    if names == [] then Value(0)
    else if Leaves(names[0], |names| > 1 || lastBarred, tb) then PastEnd
    else if Hits(names[0], tb) then Value(1)
    else Scan(names[1..], lastBarred, tb)
  }

  lemma {:induction false} ScanExactly(names: seq<string>, lastBarred: bool, tb: string)
    ensures Scan(names, lastBarred, tb) == if LeavesFirst(names, lastBarred, tb) then PastEnd
                                           else Value(if HitsSome(names, tb) then 1 else 0)
  {
    if names != [] {
      assert names == [names[0]] + names[1..];
      HitsSomeCons(names[0], names[1..], tb);
      LeavesFirstCons(names[0], names[1..], lastBarred, tb);
      ScanExactly(names[1..], lastBarred, tb);
    }
  }

  lemma ScanCons(first: string, rest: seq<string>, lastBarred: bool, tb: string)
    ensures Scan([first] + rest, lastBarred, tb) ==
      if Leaves(first, rest != [] || lastBarred, tb) then PastEnd
      else if Hits(first, tb) then Value(1) else Scan(rest, lastBarred, tb)
  {
    assert ([first] + rest)[1..] == rest;
  }

  /** One alternative of the scan. */
  lemma EquivStep(nb: string, f: nat, tb: string)
    requires f < |nb|
    requires ('\0' !in nb && '\0' !in tb) || (Clean(tb) && Clean(nb[f..BarFrom(nb, f)]))
    ensures var k := BarFrom(nb, f);
      EquivFrom(nb, f, tb) ==
        if Leaves(nb[f..k], k < |nb|, tb) then PastEnd
        else if Hits(nb[f..k], tb) then Value(1)
        else if k < |nb| then EquivFrom(nb, k + 1, tb) else Value(0)
  {
    OneSegment(nb, f, BarFrom(nb, f), tb);
  }

  lemma {:induction false} EquivIsScan(nb: string, f: nat, tb: string)
    requires f <= |nb|
    requires ('\0' !in nb && '\0' !in tb) || (Clean(tb) && AllClean(Alternatives(nb, f)))
    ensures EquivFrom(nb, f, tb) == Scan(Alternatives(nb, f), EndsInBar(nb), tb)
    decreases |nb| - f
  {
    if f < |nb| {
      var k := BarFrom(nb, f);
      var rest := Behind(nb, k);
      AllCleanCons(nb[f..k], rest);
      EquivStep(nb, f, tb);
      EndsInBarAt(nb, f);
      ScanCons(nb[f..k], rest, EndsInBar(nb), tb);
      if k < |nb| {
        EquivIsScan(nb, k + 1, tb);
      }
    }
  }

  /**
    For all names: the scan leaves a range exactly when an alternative that ends in spaces does so before a
    hit; otherwise it answers 1 iff there is a hit.
    */
  lemma EquivExactly(nb: string, f: nat, tb: string)
    requires f <= |nb| && '\0' !in nb && '\0' !in tb
    ensures EquivFrom(nb, f, tb) == if LeavesFirst(Alternatives(nb, f), EndsInBar(nb), tb) then PastEnd
                                    else Value(if HitsSome(Alternatives(nb, f), tb) then 1 else 0)
    ensures HitsSome(Alternatives(nb, f), tb) <==>
      Clean(tb) && exists name :: name in Alternatives(nb, f) && Clean(name) && StripAll(name) == StripAll(tb)
  {
    EquivIsScan(nb, f, tb);
    ScanExactly(Alternatives(nb, f), EndsInBar(nb), tb);
  }

  /** With clean alternatives the scan answers 1 iff tb is clean and equals one of them up to spaces, and 0 otherwise. */
  lemma EquivMatchesAlternatives(nb: string, f: nat, tb: string)
    requires f <= |nb| && AllClean(Alternatives(nb, f))
    requires Clean(tb) || ('\0' !in nb && '\0' !in tb)
    ensures EquivFrom(nb, f, tb) == Value(if Clean(tb) && MatchesSome(Alternatives(nb, f), tb) then 1 else 0)
    ensures MatchesSome(Alternatives(nb, f), tb) <==> exists name :: name in Alternatives(nb, f) && StripAll(name) == StripAll(tb)
  {
    EquivIsScan(nb, f, tb);
    ScanExactly(Alternatives(nb, f), EndsInBar(nb), tb);
  }

  /** The first alternative is followed by a bar exactly if it is not the last one or the list ends in a bar. */
  lemma EndsInBarAt(nb: string, f: nat)
    requires f < |nb|
    ensures var k := BarFrom(nb, f);
      k < |nb| <==> Behind(nb, k) != [] || EndsInBar(nb)
  {
    var k := BarFrom(nb, f);
    NoBarBefore(nb, f);
    if k == |nb| {
      assert nb[f..k][|nb| - 1 - f] == nb[|nb| - 1];
    }
  }

  /** The scan of nb for tb, both C strings, leaves no range. */
  ghost predicate StaysInside(nb: string, tb: string) {
    '\0' !in nb && '\0' !in tb && !LeavesFirst(Alternatives(nb, 0), EndsInBar(nb), tb)
  }

  /** It is enough that the alternatives are clean, or that tb is clean and holds no bar. */
  lemma StaysInsideWhen(nb: string, tb: string)
    requires '\0' !in nb && '\0' !in tb
    requires AllClean(Alternatives(nb, 0)) || (Clean(tb) && '|' !in tb)
    ensures StaysInside(nb, tb)
  {
    StripTakes(tb, 0, |tb|);
    forall name: string | '|' !in tb
      ensures !(StripAll(name) + ['|'] <= StripAll(tb))
    {
      var barred := StripAll(name) + ['|'];
      assert barred[|barred| - 1] == '|';
    }
  }

  lemma {:induction false} StripTakes(b: string, f: nat, l: nat)
    requires f <= l <= |b|
    ensures forall c :: c in Strip(b, f, l) ==> c in b
    decreases l - f
  {
    if f < l {
      StripTakes(b, f + 1, l);
    }
  }

  lemma SegmentStrips(nb: string, f: nat, k: nat)
    requires f <= k <= |nb|
    ensures StripAll(nb[f..k]) == Strip(nb, f, k) && (Clean(nb[f..k]) <==> NoTrailingSpace(nb, f, k))
  {
    StripShift(nb, f, k, nb[f..k], 0, k - f);
  }

  lemma SegmentLeaves(nb: string, f: nat, k: nat, tb: string)
    requires f <= k <= |nb| && (k < |nb| ==> nb[k] == '|')
    ensures RunsOff(nb, f, k, tb, 0) <==> Leaves(nb[f..k], k < |nb|, tb)
  {
    SegmentStrips(nb, f, k);
    assert Follower(nb, k) == if k < |nb| then Some('|') else None;
  }

  lemma SegmentHits(nb: string, f: nat, k: nat, tb: string)
    requires f <= k <= |nb|
    ensures NameComp(nb, f, k, tb, 0, |tb|) == Value(0) <==> Hits(nb[f..k], tb)
  {
    SegmentStrips(nb, f, k);
    ZeroExactly(nb, f, k, tb, 0, |tb|);
  }

  lemma OneSegment(nb: string, f: nat, k: nat, tb: string)
    requires f <= k <= |nb| && (k < |nb| ==> nb[k] == '|')
    requires ('\0' !in nb && '\0' !in tb) || (Clean(tb) && Clean(nb[f..k]))
    ensures NameComp(nb, f, k, tb, 0, |tb|).PastEnd? <==> Leaves(nb[f..k], k < |nb|, tb)
    ensures NameComp(nb, f, k, tb, 0, |tb|) == Value(0) <==> Hits(nb[f..k], tb)
  {
    SegmentLeaves(nb, f, k, tb);
    SegmentHits(nb, f, k, tb);
    SegmentStrips(nb, f, k);
    if '\0' !in nb && '\0' !in tb {
      RunsOffExactly(nb, f, k, tb, 0);
    } else {
      NameCompIsOrder(nb, f, k, tb, 0, |tb|);
    }
  }

  /** Every name followed by a bar. */
  function Joined(names: seq<string>): string {
    if names == [] then [] else names[0] + ['|'] + Joined(names[1..])
  }

  lemma JoinedCons(first: string, rest: seq<string>)
    ensures Joined([first] + rest) == first + ['|'] + Joined(rest)
  {
    assert ([first] + rest)[1..] == rest;
  }

  predicate BarFree(names: seq<string>) {
    forall i {:trigger names[i]} :: 0 <= i < |names| ==> '|' !in names[i]
  }

  lemma BarFreeCons(first: string, rest: seq<string>)
    requires '|' !in first && BarFree(rest)
    ensures BarFree([first] + rest)
  {
    var names := [first] + rest;
    assert forall i {:trigger names[i]} :: 0 < i < |names| ==> names[i] == rest[i - 1];
  }

  /** The list from f on, closed by a bar unless it already ends in one or is empty. */
  function Closed(s: string, f: nat): string
    requires f <= |s|
  {
    if f == |s| || s[|s| - 1] == '|' then s[f..] else s[f..] + ['|']
  }

  lemma ClosedByMore(s: string, f: nat, k: nat, rest: seq<string>)
    requires f <= k < |s| && s[k] == '|' && Joined(rest) == Closed(s, k + 1)
    ensures Joined([s[f..k]] + rest) == Closed(s, f)
  {
    JoinedCons(s[f..k], rest);
    assert s[f..] == s[f..k] + ['|'] + s[k + 1..];
  }

  lemma ClosedByLast(s: string, f: nat)
    requires f < |s| && '|' !in s[f..]
    ensures Joined([s[f..]] + []) == Closed(s, f)
  {
    JoinedCons(s[f..], []);
    assert s[f..][|s| - 1 - f] == s[|s| - 1];
  }

  /** The alternatives are the bar-free pieces that, each closed by a bar, make up the list. */
  lemma AlternativesSplit(s: string, f: nat)
    requires f <= |s|
    ensures BarFree(Alternatives(s, f)) && Joined(Alternatives(s, f)) == Closed(s, f)
  {
    AlternativesBarFree(s, f);
    AlternativesJoin(s, f);
  }

  lemma {:induction false} AlternativesBarFree(s: string, f: nat)
    requires f <= |s|
    ensures BarFree(Alternatives(s, f))
    decreases |s| - f
  {
    if f < |s| {
      var k := BarFrom(s, f);
      NoBarBefore(s, f);
      if k < |s| {
        AlternativesBarFree(s, k + 1);
      }
      BarFreeCons(s[f..k], Behind(s, k));
    }
  }

  lemma {:induction false} AlternativesJoin(s: string, f: nat)
    requires f <= |s|
    ensures Joined(Alternatives(s, f)) == Closed(s, f)
    decreases |s| - f
  {
    if f < |s| {
      var k := BarFrom(s, f);
      NoBarBefore(s, f);
      if k < |s| {
        AlternativesJoin(s, k + 1);
        ClosedByMore(s, f, k, Behind(s, k));
      } else {
        ClosedByLast(s, f);
      }
    }
  }

  lemma {:induction false} NoBarBefore(s: string, f: nat)
    requires f <= |s|
    ensures '|' !in s[f..BarFrom(s, f)]
    decreases |s| - f
  {
    if f < |s| && s[f] != '|' {
      NoBarBefore(s, f + 1);
      assert s[f..BarFrom(s, f)] == [s[f]] + s[f + 1..BarFrom(s, f)];
    }
  }

  /** What the alternatives are, bar by bar. */
  lemma AlternativesAtBars(x: string, y: string)
    requires '|' !in x
    ensures Alternatives(x + ['|'] + y, 0) == [x] + Alternatives(y, 0)
    ensures Alternatives(x, 0) == if x == [] then [] else [x]
  {
    var s, k := x + ['|'] + y, |x|;
    BarAt(s, 0, k);
    assert s[0..k] == x && s[k + 1..] == y;
    AlternativesShift(s, k + 1, y, 0);
    BarAt(x, 0, k);
    assert x[0..k] == x;
  }

  lemma {:induction false} BarAt(s: string, f: nat, k: nat)
    requires f <= k <= |s| && '|' !in s[f..k] && (k < |s| ==> s[k] == '|')
    ensures BarFrom(s, f) == k
    decreases k - f
  {
    if f < k {
      assert s[f..k] == [s[f]] + s[f + 1..k];
      BarAt(s, f + 1, k);
    }
  }

  lemma {:induction false} BarShift(s: string, f: nat, t: string, g: nat)
    requires f <= |s| && g <= |t| && |s| - f == |t| - g
    requires forall j {:trigger s[j]} :: f <= j < |s| ==> s[j] == t[j - f + g]
    ensures BarFrom(t, g) == BarFrom(s, f) - f + g
    decreases |s| - f
  {
    if f < |s| && s[f] != '|' {
      BarShift(s, f + 1, t, g + 1);
    }
  }

  lemma {:induction false} AlternativesShift(s: string, f: nat, t: string, g: nat)
    requires f <= |s| && g <= |t| && |s| - f == |t| - g
    requires forall j {:trigger s[j]} :: f <= j < |s| ==> s[j] == t[j - f + g]
    ensures Alternatives(s, f) == Alternatives(t, g)
    decreases |s| - f
  {
    if f < |s| {
      var k, h := BarFrom(s, f), BarFrom(t, g);
      BarShift(s, f, t, g);
      assert s[f..k] == t[g..h];
      if k < |s| {
        AlternativesShift(s, k + 1, t, h + 1);
      }
      assert Behind(s, k) == Behind(t, h);
    }
  }
}
