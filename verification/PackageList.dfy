/** The package queue as its threads see it: a list behind a mutex, and a semaphore taken outside the mutex. */
module PackageQueue {
  import opened CStrings

  const LIMIT := 200

  datatype Node<M> = Node(sock: int, msg: M)

  // ----- Lists -----

  function Count<M>(nodes: seq<Node<M>>, sock: int): nat {
    if nodes == [] then 0 else (if nodes[0].sock == sock then 1 else 0) + Count(nodes[1..], sock)
  }

  function Without<M>(nodes: seq<Node<M>>, sock: int): seq<Node<M>> {
    if nodes == [] then [] else
      var rest := Without(nodes[1..], sock);
      if nodes[0].sock == sock then rest else [nodes[0]] + rest
  }

  function Only<M>(nodes: seq<Node<M>>, sock: int): seq<Node<M>> {
    if nodes == [] then [] else
      var rest := Only(nodes[1..], sock);
      if nodes[0].sock == sock then [nodes[0]] + rest else rest
  }

  lemma {:induction false} CountAppend<M>(a: seq<Node<M>>, b: seq<Node<M>>, sock: int)
    ensures Count(a + b, sock) == Count(a, sock) + Count(b, sock)
  {
    if a == [] {
      assert a + b == b;
    } else {
      assert (a + b)[1..] == a[1..] + b;
      CountAppend(a[1..], b, sock);
    }
  }

  lemma {:induction false} WithoutAppend<M>(a: seq<Node<M>>, b: seq<Node<M>>, sock: int)
    ensures Without(a + b, sock) == Without(a, sock) + Without(b, sock)
  {
    if a == [] {
      assert a + b == b;
    } else {
      assert (a + b)[1..] == a[1..] + b;
      WithoutAppend(a[1..], b, sock);
    }
  }

  lemma {:induction false} OnlyAppend<M>(a: seq<Node<M>>, b: seq<Node<M>>, sock: int)
    ensures Only(a + b, sock) == Only(a, sock) + Only(b, sock)
  {
    if a == [] {
      assert a + b == b;
    } else {
      assert (a + b)[1..] == a[1..] + b;
      OnlyAppend(a[1..], b, sock);
    }
  }

  /** Removing one socket's messages takes all of them and leaves every other socket's as they were. */
  lemma {:induction false} WithoutIsExact<M>(nodes: seq<Node<M>>, sock: int, other: int)
    ensures Only(Without(nodes, sock), other) == if other == sock then [] else Only(nodes, other)
    ensures |nodes| == |Without(nodes, sock)| + Count(nodes, sock)
    ensures Count(Without(nodes, sock), other) == if other == sock then 0 else Count(nodes, other)
    ensures forall n :: n in Without(nodes, sock) <==> n in nodes && n.sock != sock
  {
    if nodes != [] {
      var rest := Without(nodes[1..], sock);
      assert ([nodes[0]] + rest)[1..] == rest;
      WithoutIsExact(nodes[1..], sock, other);
    }
  }

  /** The messages of one socket, in order, and their number. */
  lemma {:induction false} OnlyIsExact<M>(nodes: seq<Node<M>>, sock: int)
    ensures forall n :: n in Only(nodes, sock) <==> n in nodes && n.sock == sock
    ensures |Only(nodes, sock)| == Count(nodes, sock) <= |nodes|
    ensures (forall n :: n in nodes ==> n.sock == sock) <==> Only(nodes, sock) == nodes
    ensures (forall n :: n in nodes ==> n.sock == sock) <==> Count(nodes, sock) == |nodes|
  {
    if nodes != [] {
      OnlyIsExact(nodes[1..], sock);
      assert nodes == [nodes[0]] + nodes[1..];
    }
  }

  // ----- History -----

  datatype Fate = Refused | Freed | Kept

  /** One AddMsg call and what became of its message; a kept one is queued or delivered. */
  datatype Call<M> = Call(node: Node<M>, fate: Fate)

  function Survivors<M>(calls: seq<Call<M>>): seq<Node<M>> {
    if calls == [] then [] else
      var rest := Survivors(calls[1..]);
      if calls[0].fate.Kept? then [calls[0].node] + rest else rest
  }

  function FreedIn<M>(calls: seq<Call<M>>): nat {
    if calls == [] then 0 else (if calls[0].fate.Freed? then 1 else 0) + FreedIn(calls[1..])
  }

  /** Marks the messages for sock as freed, passing over the first skip survivors: those are delivered. */
  function Mark<M>(calls: seq<Call<M>>, skip: nat, sock: int): (r: seq<Call<M>>)
    ensures |r| == |calls|
  {
    if calls == [] then [] else
      var c := calls[0];
      if !c.fate.Kept? then [c] + Mark(calls[1..], skip, sock)
      else if skip > 0 then [c] + Mark(calls[1..], skip - 1, sock)
      else [if c.node.sock == sock then c.(fate := Freed) else c] + Mark(calls[1..], 0, sock)
  }

  lemma {:induction false} SurvivorsAppend<M>(a: seq<Call<M>>, b: seq<Call<M>>)
    ensures Survivors(a + b) == Survivors(a) + Survivors(b)
    ensures FreedIn(a + b) == FreedIn(a) + FreedIn(b)
  {
    if a == [] {
      assert a + b == b;
    } else {
      assert (a + b)[1..] == a[1..] + b;
      SurvivorsAppend(a[1..], b);
    }
  }

  lemma {:induction false} MarkFrees<M>(calls: seq<Call<M>>, skip: nat, sock: int)
    requires skip <= |Survivors(calls)|
    ensures var all := Survivors(calls);
      Survivors(Mark(calls, skip, sock)) == all[..skip] + Without(all[skip..], sock) &&
      FreedIn(Mark(calls, skip, sock)) == FreedIn(calls) + Count(all[skip..], sock)
  {
    var all := Survivors(calls);
    if skip == 0 {
      MarkFreesAll(calls, sock);
      assert all[..0] == [] && all[0..] == all;
    } else {
      var c, rest := calls[0], calls[1..];
      if !c.fate.Kept? {
        MarkFrees(rest, skip, sock);
        MarkedCons(c, Mark(rest, skip, sock));
      } else {
        var tail := Survivors(rest);
        MarkFrees(rest, skip - 1, sock);
        MarkedCons(c, Mark(rest, skip - 1, sock));
        SplitCons(c.node, tail, skip, Without(tail[skip - 1..], sock));
      }
    }
  }

  lemma {:induction false} MarkFreesAll<M>(calls: seq<Call<M>>, sock: int)
    ensures Survivors(Mark(calls, 0, sock)) == Without(Survivors(calls), sock)
    ensures FreedIn(Mark(calls, 0, sock)) == FreedIn(calls) + Count(Survivors(calls), sock)
  {
    if calls != [] {
      var c, rest := calls[0], calls[1..];
      MarkFreesAll(rest, sock);
      MarkedCons(if c.fate.Kept? && c.node.sock == sock then c.(fate := Freed) else c, Mark(rest, 0, sock));
      if c.fate.Kept? {
        assert ([c.node] + Survivors(rest))[1..] == Survivors(rest);
      }
    }
  }

  lemma MarkedCons<M>(c: Call<M>, rest: seq<Call<M>>)
    ensures Survivors([c] + rest) == (if c.fate.Kept? then [c.node] + Survivors(rest) else Survivors(rest))
    ensures FreedIn([c] + rest) == (if c.fate.Freed? then 1 else 0) + FreedIn(rest)
  {
    assert ([c] + rest)[1..] == rest;
  }

  lemma SplitCons<T>(x: T, tail: seq<T>, skip: nat, back: seq<T>)
    requires 0 < skip <= |tail| + 1
    ensures var all := [x] + tail;
      all[skip..] == tail[skip - 1..] && [x] + (tail[..skip - 1] + back) == all[..skip] + back
  {
  }

  lemma {:induction false} MarkNothing<M>(calls: seq<Call<M>>, skip: nat, sock: int)
    requires |Survivors(calls)| <= skip
    ensures Mark(calls, skip, sock) == calls
  {
    if calls != [] {
      MarkNothing(calls[1..], if calls[0].fate.Kept? then skip - 1 else skip, sock);
    }
  }

  /** Marking is decided call by call: later calls do not matter to earlier ones. */
  lemma {:induction false} MarkPrefix<M>(calls: seq<Call<M>>, n: nat, skip: nat, sock: int)
    requires n <= |calls|
    ensures Mark(calls, skip, sock)[..n] == Mark(calls[..n], skip, sock)
  {
    if n > 0 {
      assert calls[..n][1..] == calls[1..][..n - 1];
      var c := calls[0];
      MarkPrefix(calls[1..], n - 1, if !c.fate.Kept? then skip else if skip > 0 then skip - 1 else 0, sock);
    }
  }

  // ----- Steps -----

  /** The shared data, the consumers that hold a token but not yet the lock, and the history. */
  datatype State<M> = State(
    list: seq<Node<M>>,
    tokens: nat,
    waiting: set<nat>,          // threads in GetMsg between try_wait and the lock
    posting: bool,              // a producer has pushed, still holds the lock and has not posted
    calls: seq<Call<M>>,
    delivered: seq<Node<M>>,
    empty: nat)                 // wake-ups that found the list empty

  datatype Step<M> = TryWait(thread: nat) | Pop(thread: nat) | Push(node: Node<M>) | Post | Delete(sock: int)

  function Start<M>(): State<M> {
    State([], 0, {}, false, [], [], 0)
  }

  predicate Enabled<M>(s: State<M>, step: Step<M>) {
    match step
    case TryWait(thread) => thread !in s.waiting
    case Pop(thread) => thread in s.waiting && !s.posting
    case Push(_) => !s.posting
    case Post => s.posting
    case Delete(_) => !s.posting
  }

  function Next<M>(s: State<M>, step: Step<M>): State<M> {
    match step
    case TryWait(thread) =>
      if s.tokens > 0 then s.(tokens := s.tokens - 1, waiting := s.waiting + {thread}) else s
    case Pop(thread) =>
      if s.list != [] then
        s.(waiting := s.waiting - {thread}, list := s.list[1..], delivered := s.delivered + [s.list[0]])
      else
        s.(waiting := s.waiting - {thread}, empty := s.empty + 1)
    case Push(node) =>
      if Count(s.list, node.sock) > LIMIT then
        s.(calls := s.calls + [Call(node, Refused)])
      else
        s.(list := s.list + [node], posting := true, calls := s.calls + [Call(node, Kept)])
    case Post =>
      s.(tokens := s.tokens + 1, posting := false)
    case Delete(sock) =>
      s.(list := Without(s.list, sock), calls := Mark(s.calls, |s.delivered|, sock))
  }

  /** Every kept message is delivered or queued, once, in the order of acceptance. */
  ghost predicate Conserved<M>(s: State<M>) {
    s.delivered + s.list == Survivors(s.calls)
  }

  /** Tokens not used up by deletions stand for queued messages. */
  ghost predicate Accounted<M>(s: State<M>) {
    s.tokens + |s.waiting| == |s.list| - (if s.posting then 1 else 0) + FreedIn(s.calls) - s.empty &&
    s.empty <= FreedIn(s.calls) &&
    (s.posting ==> s.list != [])
  }

  ghost predicate Bounded<M>(s: State<M>) {
    forall sock :: Count(s.list, sock) <= LIMIT + 1
  }

  ghost predicate Invariant<M>(s: State<M>) {
    Conserved(s) && Accounted(s) && Bounded(s)
  }

  lemma StartIsFine<M>()
    ensures Invariant(Start<M>())
  {
  }

  lemma StepConserves<M>(s: State<M>, step: Step<M>)
    requires Conserved(s) && Enabled(s, step)
    ensures Conserved(Next(s, step))
  {
    match step
    case TryWait(_) =>
    case Pop(_) =>
      if s.list != [] {
        assert s.list == [s.list[0]] + s.list[1..];
      }
    case Push(node) =>
      SurvivorsAppend(s.calls, [Call(node, Kept)]);
      SurvivorsAppend(s.calls, [Call(node, Refused)]);
    case Post =>
    case Delete(sock) =>
      MarkFrees(s.calls, |s.delivered|, sock);
  }

  lemma StepAccounts<M>(s: State<M>, step: Step<M>)
    requires Conserved(s) && Accounted(s) && Enabled(s, step)
    ensures Accounted(Next(s, step))
  {
    match step
    case TryWait(thread) =>
    case Pop(thread) =>
      assert |s.waiting| == |s.waiting - {thread}| + 1;
    case Push(node) =>
      SurvivorsAppend(s.calls, [Call(node, Kept)]);
      SurvivorsAppend(s.calls, [Call(node, Refused)]);
    case Post =>
    case Delete(sock) =>
      MarkFrees(s.calls, |s.delivered|, sock);
      assert Survivors(s.calls)[|s.delivered|..] == s.list;
      WithoutIsExact(s.list, sock, sock);
  }

  lemma StepBounds<M>(s: State<M>, step: Step<M>)
    requires Bounded(s) && Enabled(s, step)
    ensures Bounded(Next(s, step)) && forall sock :: Count(Next(s, step).list, sock) <= 201
  {
    forall sock
      ensures Count(Next(s, step).list, sock) <= LIMIT + 1
    {
      assert Count(s.list, sock) <= LIMIT + 1;
      match step
      case TryWait(_) =>
      case Pop(_) =>
      case Push(node) => CountAppend(s.list, [node], sock);
      case Post =>
      case Delete(gone) => WithoutIsExact(s.list, gone, sock);
    }
  }

  // ----- Runs -----

  predicate Runs<M>(s: State<M>, steps: seq<Step<M>>)
    decreases |steps|
  {
    steps == [] || (Enabled(s, steps[0]) && Runs(Next(s, steps[0]), steps[1..]))
  }

  function After<M>(s: State<M>, steps: seq<Step<M>>): State<M>
    decreases |steps|
  {
    if steps == [] then s else After(Next(s, steps[0]), steps[1..])
  }

  /** The invariant holds in every interleaving. */
  lemma {:induction false} EveryRun<M>(s: State<M>, steps: seq<Step<M>>)
    requires Invariant(s) && Runs(s, steps)
    ensures Invariant(After(s, steps))
    decreases |steps|
  {
    if steps != [] {
      StepConserves(s, steps[0]);
      StepAccounts(s, steps[0]);
      StepBounds(s, steps[0]);
      EveryRun(Next(s, steps[0]), steps[1..]);
    }
  }

  /** What that says of any reachable state. */
  lemma ReachableMeans<M>(steps: seq<Step<M>>)
    requires Runs(Start(), steps)
    ensures var s := After(Start<M>(), steps);
      && s.delivered + s.list == Survivors(s.calls)
      && s.tokens + |s.waiting| == |s.list| - (if s.posting then 1 else 0) + (FreedIn(s.calls) - s.empty)
      && FreedIn(s.calls) >= s.empty
      && forall sock :: Count(s.list, sock) <= 201
  {
    StartIsFine<M>();
    EveryRun(Start(), steps);
  }

  /** What the history functions take from each call. */
  lemma CallMeans<M>(calls: seq<Call<M>>, node: Node<M>)
    ensures Survivors(calls + [Call(node, Kept)]) == Survivors(calls) + [node]
    ensures Survivors(calls + [Call(node, Freed)]) == Survivors(calls + [Call(node, Refused)]) == Survivors(calls)
    ensures FreedIn(calls + [Call(node, Freed)]) == FreedIn(calls) + 1
    ensures FreedIn(calls + [Call(node, Kept)]) == FreedIn(calls + [Call(node, Refused)]) == FreedIn(calls)
  {
    SurvivorsAppend(calls, [Call(node, Kept)]);
    SurvivorsAppend(calls, [Call(node, Freed)]);
    SurvivorsAppend(calls, [Call(node, Refused)]);
  }

  /** With no consumer under way, a queued message always has a token, and the next GetMsg returns the head. */
  lemma NextGetReturnsHead<M>(steps: seq<Step<M>>, thread: nat)
    requires Runs(Start(), steps)
    requires var s := After(Start<M>(), steps); s.waiting == {} && !s.posting && s.list != []
    ensures var s := After(Start<M>(), steps);
      s.tokens > 0 && Runs(s, [TryWait(thread), Pop(thread)]) &&
      After(s, [TryWait(thread), Pop(thread)]).delivered == s.delivered + [s.list[0]]
  {
    StartIsFine<M>();
    EveryRun(Start(), steps);
    var s := After(Start<M>(), steps);
    var taken := Next(s, TryWait(thread));
    var two: seq<Step<M>> := [TryWait(thread), Pop(thread)];
    assert two[1..] == [Pop(thread)] && two[1..][1..] == [];
    assert Runs(taken, two[1..]);
    assert After(taken, two[1..]) == Next(taken, Pop(thread));
  }

  /** The survivors among the first n calls, from the d-th on, include no message for sock. */
  ghost predicate Gone<M>(s: State<M>, n: nat, d: nat, sock: int) {
    n <= |s.calls| && d <= |s.delivered| && d <= |Survivors(s.calls[..n])| &&
    Only(Survivors(s.calls[..n])[d..], sock) == []
  }

  lemma OnlyBehind<M>(all: seq<Node<M>>, d: nat, k: nat, gone: int, sock: int)
    requires d <= k <= |all| && Only(all[d..], sock) == []
    ensures Only((all[..k] + Without(all[k..], gone))[d..], sock) == []
  {
    var front, back := all[d..k], all[k..];
    assert all[d..] == front + back;
    assert (all[..k] + Without(back, gone))[d..] == front + Without(back, gone);
    OnlyAppend(front, back, sock);
    OnlyAppend(front, Without(back, gone), sock);
    WithoutIsExact(back, gone, sock);
  }

  lemma MarkKeepsGone<M>(head: seq<Call<M>>, d: nat, k: nat, gone: int, sock: int)
    requires d <= k && d <= |Survivors(head)| && Only(Survivors(head)[d..], sock) == []
    ensures var now := Survivors(Mark(head, k, gone)); d <= |now| && Only(now[d..], sock) == []
  {
    var all := Survivors(head);
    if k <= |all| {
      MarkFrees(head, k, gone);
      OnlyBehind(all, d, k, gone, sock);
    } else {
      MarkNothing(head, k, gone);
    }
  }

  lemma StepKeepsGone<M>(s: State<M>, step: Step<M>, n: nat, d: nat, sock: int)
    requires Gone(s, n, d, sock) && Enabled(s, step)
    ensures Gone(Next(s, step), n, d, sock)
  {
    if step.Delete? {
      MarkPrefix(s.calls, n, |s.delivered|, step.sock);
      MarkKeepsGone(s.calls[..n], d, |s.delivered|, step.sock, sock);
    } else {
      assert Next(s, step).calls[..n] == s.calls[..n];
    }
  }

  lemma {:induction false} RunKeepsGone<M>(s: State<M>, steps: seq<Step<M>>, n: nat, d: nat, sock: int)
    requires Gone(s, n, d, sock) && Runs(s, steps)
    ensures Gone(After(s, steps), n, d, sock)
    ensures s.delivered <= After(s, steps).delivered
    decreases |steps|
  {
    if steps != [] {
      StepKeepsGone(s, steps[0], n, d, sock);
      RunKeepsGone(Next(s, steps[0]), steps[1..], n, d, sock);
    }
  }

  lemma DeleteMakesGone<M>(s: State<M>, sock: int)
    requires Conserved(s)
    ensures Gone(Next(s, Delete(sock)), |s.calls|, |s.delivered|, sock)
  {
    var all, d, calls := Survivors(s.calls), |s.delivered|, Next(s, Delete(sock)).calls;
    MarkFrees(s.calls, d, sock);
    WithoutIsExact(all[d..], sock, sock);
    assert calls[..|s.calls|] == calls;
    assert Survivors(calls)[d..] == Without(all[d..], sock);
  }

  lemma GoneMeansLater<M>(t: State<M>, n: nat, d: nat, sock: int)
    requires Conserved(t) && Gone(t, n, d, sock)
    ensures Only(t.delivered[d..] + t.list, sock) == Only(Survivors(t.calls[n..]), sock)
  {
    var head, tail := Survivors(t.calls[..n]), Survivors(t.calls[n..]);
    assert t.calls == t.calls[..n] + t.calls[n..];
    SurvivorsAppend(t.calls[..n], t.calls[n..]);
    assert t.delivered[d..] + t.list == (t.delivered + t.list)[d..] == head[d..] + tail;
    OnlyAppend(head[d..], tail, sock);
  }

  /**
    After DelMsg(sock), however the threads go on, the messages for sock that are delivered or queued
    are exactly the surviving ones accepted since, in order.
    */
  lemma DeletedStayAway<M>(s: State<M>, sock: int, steps: seq<Step<M>>)
    requires Invariant(s) && Runs(s, [Delete(sock)] + steps)
    ensures var t := After(s, [Delete(sock)] + steps);
      s.delivered <= t.delivered && |s.calls| <= |t.calls| &&
      Only(t.delivered[|s.delivered|..] + t.list, sock) == Only(Survivors(t.calls[|s.calls|..]), sock)
  {
    var run := [Delete(sock)] + steps;
    assert run[1..] == steps;
    DeleteMakesGone(s, sock);
    RunKeepsGone(Next(s, Delete(sock)), steps, |s.calls|, |s.delivered|, sock);
    EveryRun(s, run);
    GoneMeansLater(After(s, run), |s.calls|, |s.delivered|, sock);
  }

  /** DelMsg(sock) leaves what other sockets have queued as it was. */
  lemma DeleteSparesOthers<M>(s: State<M>, sock: int, other: int)
    requires other != sock
    ensures Only(Next(s, Delete(sock)).list, other) == Only(s.list, other)
    ensures Next(s, Delete(sock)).tokens == s.tokens
  {
    WithoutIsExact(s.list, sock, other);
  }

  // ----- The class -----

  /** The list and the semaphore, with the history that the steps so far have made. */
  class CPackageList<M> {
    var msgList: seq<Node<M>>
    var semaphore: nat
    ghost var state: State<M>

    ghost predicate Valid()
      reads this
    {
      msgList == state.list && semaphore == state.tokens && Invariant(state)
    }

    constructor ()
      ensures Valid() && state == Start()
    {
      msgList, semaphore, state := [], 0, Start();
      StartIsFine<M>();
    }

    method TryWait(thread: nat) returns (ok: bool)
      requires Valid() && Enabled(state, Step.TryWait(thread))
      modifies this
      ensures Valid() && state == Next(old(state), Step.TryWait(thread))
      ensures ok <==> thread in state.waiting
      ensures ok <==> old(semaphore) > 0
      ensures semaphore == (if ok then old(semaphore) - 1 else 0) && msgList == old(msgList)
    {
      StepConserves(state, Step.TryWait(thread));
      StepAccounts(state, Step.TryWait(thread));
      state := Next(state, Step.TryWait(thread));
      ok := semaphore > 0;
      if ok {
        semaphore := semaphore - 1;
      }
    }

    /** The part of GetMsg under the lock. */
    method TakeFront(thread: nat) returns (msg: Option<Node<M>>)
      requires Valid() && Enabled(state, Step.Pop(thread))
      modifies this
      ensures Valid() && state == Next(old(state), Step.Pop(thread))
      ensures msg == if old(msgList) == [] then None else Some(old(msgList)[0])
      ensures msgList == (if old(msgList) == [] then [] else old(msgList)[1..]) && semaphore == old(semaphore)
    {
      StepConserves(state, Step.Pop(thread));
      StepAccounts(state, Step.Pop(thread));
      StepBounds(state, Step.Pop(thread));
      state := Next(state, Step.Pop(thread));
      msg := None;
      if |msgList| > 0 {
        msg := Some(msgList[0]);
        msgList := msgList[1..];
      }
    }

    /** GetMsg on a thread that no other step interrupts. */
    method GetMsg(thread: nat) returns (msg: Option<Node<M>>)
      requires Valid() && thread !in state.waiting && !state.posting
      modifies this
      ensures Valid() && state.calls == old(state.calls) && state.waiting == old(state.waiting)
      ensures old(semaphore) == 0 ==> msg == None && state == old(state)
      ensures old(semaphore) > 0 ==> semaphore == old(semaphore) - 1
      ensures old(semaphore) > 0 && old(msgList) == [] ==>
        msg == None && msgList == [] && state.delivered == old(state.delivered)
      ensures old(semaphore) > 0 && old(msgList) != [] ==>
        msg == Some(old(msgList)[0]) && msgList == old(msgList)[1..] && state.delivered == old(state.delivered) + [msg.value]
      ensures old(msgList) != [] && old(state.waiting) == {} ==> msg == Some(old(msgList)[0])
    {
      msg := None;
      var ok := TryWait(thread);
      if ok {
        msg := TakeFront(thread);
        assert old(state.waiting) + {thread} - {thread} == old(state.waiting);
      }
    }

    /** The part of AddMsg before the post: counts, and refuses or pushes. */
    method Enqueue(node: Node<M>) returns (ok: bool)
      requires Valid() && Enabled(state, Step.Push(node))
      modifies this
      ensures Valid() && state == Next(old(state), Step.Push(node))
      ensures ok <==> state.posting
      ensures ok <==> Count(old(msgList), node.sock) <= 200
      ensures msgList == (if ok then old(msgList) + [node] else old(msgList)) && semaphore == old(semaphore)
    {
      StepConserves(state, Step.Push(node));
      StepAccounts(state, Step.Push(node));
      StepBounds(state, Step.Push(node));
      state := Next(state, Step.Push(node));
      var num := Count(msgList, node.sock);
      if num > LIMIT {
        return false;
      }
      msgList := msgList + [node];
      ok := true;
    }

    method Release()
      requires Valid() && Enabled(state, Step.Post)
      modifies this
      ensures Valid() && state == Next(old(state), Step.Post)
      ensures semaphore == old(semaphore) + 1 && msgList == old(msgList)
    {
      StepConserves(state, Step.Post);
      StepAccounts(state, Step.Post);
      state := Next(state, Step.Post);
      semaphore := semaphore + 1;
    }

    method AddMsg(msg: M, sock: int) returns (ok: bool)
      requires Valid() && !state.posting
      modifies this
      ensures Valid() && !state.posting && state.waiting == old(state.waiting)
      ensures ok <==> Count(old(msgList), sock) <= 200
      ensures forall other :: Count(msgList, other) <= 201
      ensures ok ==> msgList == old(msgList) + [Node(sock, msg)] && semaphore == old(semaphore) + 1
      ensures !ok ==> msgList == old(msgList) && semaphore == old(semaphore)
      ensures state.calls == old(state.calls) + [Call(Node(sock, msg), if ok then Kept else Refused)]
    {
      ok := Enqueue(Node(sock, msg));
      if ok {
        Release();
      }
    }

    /** On an empty queue one socket can place 201 messages; the next one is refused. */
    method FillQueue(msg: M, sock: int) returns (refused: bool)
      requires Valid() && !state.posting && msgList == []
      modifies this
      ensures Valid() && !state.posting && refused
      ensures |msgList| == 201 && forall i :: 0 <= i < 201 ==> msgList[i] == Node(sock, msg)
      ensures semaphore == old(semaphore) + 201
    {
      for i := 0 to 201
        invariant Valid() && !state.posting && semaphore == old(semaphore) + i
        invariant |msgList| == i && forall j :: 0 <= j < i ==> msgList[j] == Node(sock, msg)
      {
        OnlyIsExact(msgList, sock);
        var ok := AddMsg(msg, sock);
        assert ok;
      }
      OnlyIsExact(msgList, sock);
      var ok := AddMsg(msg, sock);
      refused := !ok;
    }

    method DelMsg(sock: int)
      requires Valid() && Enabled(state, Step.Delete(sock))
      modifies this
      ensures Valid() && state == Next(old(state), Step.Delete(sock))
      ensures msgList == Without(old(msgList), sock) && semaphore == old(semaphore)
    {
      StepConserves(state, Step.Delete(sock));
      StepAccounts(state, Step.Delete(sock));
      StepBounds(state, Step.Delete(sock));
      state := Next(state, Step.Delete(sock));
      EraseNodes(sock);
    }

    method EraseNodes(sock: int)
      modifies this`msgList
      ensures msgList == Without(old(msgList), sock)
    {
      ghost var before, seen := msgList, 0;
      var i := 0;
      while i < |msgList|
        invariant i <= |msgList| && 0 <= seen <= |before|
        invariant msgList[..i] == Without(before[..seen], sock)
        invariant msgList[i..] == before[seen..]
        decreases |msgList| - i
      {
        ghost var list := msgList;
        assert before[..seen + 1] == before[..seen] + [before[seen]];
        assert before[seen] == list[i..][0] == list[i];
        assert before[seen + 1..] == list[i..][1..] == list[i + 1..];
        WithoutAppend(before[..seen], [before[seen]], sock);
        if msgList[i].sock == sock {
          msgList := msgList[..i] + msgList[i + 1..];
          assert msgList[i..] == list[i + 1..];
        } else {
          i := i + 1;
        }
        seen := seen + 1;
      }
      assert before[..seen] == before && msgList[..i] == msgList;
    }
  }
}
