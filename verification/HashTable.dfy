/** A hash table of singly linked chains, refining a finite map. */
module HashTables {

  // ----- Arithmetic -----

  function Pow2(k: nat): (p: int)
    ensures p >= 1
  {
    if k == 0 then 1 else 2 * Pow2(k - 1)
  }

  /** a & b on two's complement numbers, for a mask that is not negative. */
  function BitAnd(a: int, b: nat): (r: int)
    ensures 0 <= r <= b
    decreases b
  {
    if b == 0 then 0 else a % 2 * (b % 2) + 2 * BitAnd(a / 2, b / 2)
  }

  lemma Doubled(a: int, p: int, q: int, r: int)
    requires a / 2 == p * q + r
    ensures a == 2 * p * q + (a % 2 + 2 * r)
  {
    assert 2 * (p * q) == 2 * p * q;
  }

  lemma {:induction false} MaskSplits(a: int, k: nat) returns (q: int)
    ensures a == Pow2(k) * q + BitAnd(a, Pow2(k) - 1)
    decreases k
  {
    if k == 0 {
      q := a;
    } else {
      var p := Pow2(k - 1);
      assert (2 * p - 1) / 2 == p - 1 && (2 * p - 1) % 2 == 1;
      q := MaskSplits(a / 2, k - 1);
      Doubled(a, p, q, BitAnd(a / 2, p - 1));
    }
  }

  lemma SmallMultiple(d: int, t: int)
    requires -d < d * t < d
    ensures t == 0
  {
  }

  lemma RemainderIs(a: int, d: int, q: int, r: int)
    requires a == d * q + r && 0 <= r < d
    ensures a % d == r
  {
    var t := q - a / d;
    assert d * t == d * q - d * (a / d);
    SmallMultiple(d, t);
  }

  /** Masking with a power of two less one is the (never negative) remainder, for negative numbers too. */
  lemma MaskIsRemainder(a: int, k: nat)
    ensures BitAnd(a, Pow2(k) - 1) == a % Pow2(k)
  {
    var q := MaskSplits(a, k);
    RemainderIs(a, Pow2(k), q, BitAnd(a, Pow2(k) - 1));
  }

  lemma {:induction false} Pow2Grows(j: nat, k: nat)
    requires j <= k
    ensures Pow2(j) <= Pow2(k)
  {
    if j < k {
      Pow2Grows(j, k - 1);
    }
  }

  const MAX_SHIFT := 20

  /** size is the least power of two from 2 on that is at least n. */
  ghost predicate LeastPower(size: int, n: int) {
    n <= size && 2 <= size && (exists k: nat :: size == Pow2(k)) &&
    forall j: nat :: n <= Pow2(j) && 2 <= Pow2(j) ==> size <= Pow2(j)
  }

  lemma PowerIsLeast(n: int, k: nat)
    requires k >= 1 && n <= Pow2(k) && (k == 1 || Pow2(k - 1) < n)
    ensures LeastPower(Pow2(k), n)
  {
    forall j: nat | n <= Pow2(j) && 2 <= Pow2(j)
      ensures Pow2(k) <= Pow2(j)
    {
      if j < k {
        Pow2Grows(j, k - 1);
      } else {
        Pow2Grows(k, j);
      }
    }
  }

  lemma PowersUpTo20()
    ensures Pow2(MAX_SHIFT) == 0x10_0000 && Pow2(MAX_SHIFT + 1) == 0x20_0000
  {
    assert Pow2(5) == 32;
    assert Pow2(10) == 1024;
    assert Pow2(15) == 0x8000;
  }

  /** The table size the constructor picks. */
  method TableSize(buckets: int) returns (size: int, ghost k: nat)
    ensures size == Pow2(k) && 1 <= k
    ensures 1 <= buckets <= 0x10_0000 ==> LeastPower(size, buckets)
    ensures 1 <= buckets <= 0x10_0000 ==> buckets <= size && 2 <= size && (size == 2 || size < 2 * buckets)
    ensures !(1 <= buckets <= 0x10_0000) ==> size == 0x20_0000
  {
    PowersUpTo20();
    var i, bit := 0, 1;
    while i < MAX_SHIFT
      invariant 0 <= i <= MAX_SHIFT && bit == Pow2(i)
      invariant buckets <= 0 || (i == 0 && buckets == 1) || bit < buckets
    {
      if buckets <= 2 * bit && buckets >= bit {
        break;
      }
      i, bit := i + 1, 2 * bit;
    }
    size, k := 2 * bit, i + 1;
    if 1 <= buckets <= Pow2(MAX_SHIFT) {
      PowerIsLeast(buckets, k);
    } else if k <= MAX_SHIFT {
      Pow2Grows(k, MAX_SHIFT);
      assert false;
    }
  }

  // ----- Chains -----

  class SHashNode<V> {
    const id: int
    const val: V
    var pNext: SHashNode?<V>

    constructor (id: int, val: V, next: SHashNode?<V>)
      ensures this.id == id && this.val == val && pNext == next
    {
      this.id, this.val, pNext := id, val, next;
    }
  }

  /** chain lists the nodes from head on: it is finite and ends in null. */
  ghost predicate Chained<V>(head: SHashNode?<V>, chain: seq<SHashNode<V>>)
    reads chain
  {
    head == (if chain == [] then null else chain[0]) &&
    forall j {:trigger chain[j]} :: 0 <= j < |chain| ==> chain[j].pNext == if j + 1 < |chain| then chain[j + 1] else null
  }

  ghost predicate NoRepeats<V>(chain: seq<SHashNode<V>>) {
    forall i, j :: 0 <= i < j < |chain| ==> chain[i] != chain[j]
  }

  /** The chain with node j taken out. */
  ghost function Skipping<V>(chain: seq<SHashNode<V>>, j: nat): (r: seq<SHashNode<V>>)
    requires j < |chain|
    ensures |r| == |chain| - 1
    ensures forall k {:trigger r[k]} :: 0 <= k < |r| ==> r[k] == chain[if k < j then k else k + 1]
  {
    chain[..j] + chain[j + 1..]
  }

  lemma SkippingKeepsOthers<V>(chain: seq<SHashNode<V>>, j: nat)
    requires j < |chain| && NoRepeats(chain)
    ensures NoRepeats(Skipping(chain, j))
    ensures forall n :: n in Skipping(chain, j) <==> n in chain && n != chain[j]
  {
    var r := Skipping(chain, j);
    forall n | n in chain && n != chain[j]
      ensures n in r
    {
      var k :| 0 <= k < |chain| && chain[k] == n;
      assert r[if k < j then k else k - 1] == n;
    }
  }

  /** All nodes, bucket by bucket. */
  ghost function Flat<V>(chains: seq<seq<SHashNode<V>>>): seq<SHashNode<V>> {
    if chains == [] then [] else chains[0] + Flat(chains[1..])
  }

  /** Where chain i starts in Flat(chains). */
  ghost function Offset<V>(chains: seq<seq<SHashNode<V>>>, i: nat): nat
    requires i <= |chains|
  {
    if i == 0 then 0 else |chains[0]| + Offset(chains[1..], i - 1)
  }

  lemma {:induction false} ChainInFlat<V>(chains: seq<seq<SHashNode<V>>>, i: nat)
    requires i < |chains|
    ensures Offset(chains, i + 1) == Offset(chains, i) + |chains[i]| <= |Flat(chains)|
    ensures Flat(chains)[Offset(chains, i)..Offset(chains, i + 1)] == chains[i]
  {
    if i > 0 {
      ChainInFlat(chains[1..], i - 1);
    }
  }

  lemma NodeInFlat<V>(chains: seq<seq<SHashNode<V>>>, i: nat, j: nat)
    requires i < |chains| && j < |chains[i]|
    ensures Offset(chains, i) + j < |Flat(chains)| && Flat(chains)[Offset(chains, i) + j] == chains[i][j]
  {
    ChainInFlat(chains, i);
    assert Flat(chains)[Offset(chains, i)..Offset(chains, i + 1)][j] == chains[i][j];
  }

  /** chain stands in all from place at on. */
  ghost predicate Placed<V>(all: seq<SHashNode<V>>, at: nat, chain: seq<SHashNode<V>>) {
    at + |chain| <= |all| && forall j {:trigger chain[j]} :: 0 <= j < |chain| ==> all[at + j] == chain[j]
  }

  lemma ChainPlaced<V>(chains: seq<seq<SHashNode<V>>>, i: nat)
    requires i < |chains|
    ensures Placed(Flat(chains), Offset(chains, i), chains[i])
  {
    ChainInFlat(chains, i);
    forall j | 0 <= j < |chains[i]|
      ensures Flat(chains)[Offset(chains, i) + j] == chains[i][j]
    {
      NodeInFlat(chains, i, j);
    }
  }

  lemma {:induction false} FlatEnds<V>(chains: seq<seq<SHashNode<V>>>)
    ensures Offset(chains, |chains|) == |Flat(chains)|
  {
    if chains != [] {
      FlatEnds(chains[1..]);
    }
  }

  lemma {:induction false} FlatMember<V>(chains: seq<seq<SHashNode<V>>>, n: SHashNode<V>) returns (i: nat)
    requires n in Flat(chains)
    ensures i < |chains| && n in chains[i]
  {
    i := 0;
    if n !in chains[0] {
      i := FlatMember(chains[1..], n);
      i := i + 1;
    }
  }

  predicate Disjoint<V>(chains: seq<seq<SHashNode<V>>>) {
    forall i, j, n :: 0 <= i < j < |chains| && n in chains[i] ==> n !in chains[j]
  }

  lemma ConcatHasNoRepeats<V>(a: seq<SHashNode<V>>, b: seq<SHashNode<V>>)
    requires NoRepeats(a) && NoRepeats(b) && forall n :: n in a ==> n !in b
    ensures NoRepeats(a + b)
  {
    forall i, j | 0 <= i < j < |a + b|
      ensures (a + b)[i] != (a + b)[j]
    {
      if i < |a| <= j {
        assert (a + b)[i] in a && (a + b)[j] == b[j - |a|];
      }
    }
  }

  lemma {:induction false} FlatHasNoRepeats<V>(chains: seq<seq<SHashNode<V>>>)
    requires Disjoint(chains) && forall i :: 0 <= i < |chains| ==> NoRepeats(chains[i])
    ensures NoRepeats(Flat(chains))
  {
    if chains != [] {
      FlatHasNoRepeats(chains[1..]);
      forall n | n in chains[0]
        ensures n !in Flat(chains[1..])
      {
        if n in Flat(chains[1..]) {
          var i := FlatMember(chains[1..], n);
          assert false;
        }
      }
      ConcatHasNoRepeats(chains[0], Flat(chains[1..]));
    }
  }

  function Pairs<V>(nodes: seq<SHashNode<V>>): (r: seq<(int, V)>)
    ensures |r| == |nodes| && forall k :: 0 <= k < |r| ==> r[k] == (nodes[k].id, nodes[k].val)
  {
    seq(|nodes|, k requires 0 <= k < |nodes| => (nodes[k].id, nodes[k].val))
  }

  lemma PrefixGrows<T>(a: seq<T>, b: seq<T>)
    requires a <= b && |a| < |b|
    ensures a + [b[|a|]] <= b
  {
  }

  /** fun lets the traversal go on after each of the first n calls. */
  ghost predicate GoesOn<T>(fun: seq<T> -> bool, calls: seq<T>, n: int)
    requires n <= |calls|
  {
    forall k :: 0 < k <= n ==> fun(calls[..k])
  }

  lemma GoesOnLonger<T>(fun: seq<T> -> bool, calls: seq<T>, x: T)
    requires GoesOn(fun, calls, |calls|)
    ensures GoesOn(fun, calls + [x], |calls|)
    ensures fun(calls + [x]) ==> GoesOn(fun, calls + [x], |calls| + 1)
  {
    var more := calls + [x];
    assert more[..|more|] == more;
    forall k | 0 < k <= |calls|
      ensures fun(more[..k])
    {
      assert more[..k] == calls[..k];
    }
  }

  /** Offering the entry in place j of chain i next goes on along Flat(chains). */
  lemma NextCall<V>(fun: seq<(int, V)> -> bool, calls: seq<(int, V)>, chains: seq<seq<SHashNode<V>>>, i: nat, j: nat)
    requires i < |chains| && j < |chains[i]| && |calls| == Offset(chains, i) + j
    requires calls <= Pairs(Flat(chains)) && GoesOn(fun, calls, |calls|)
    ensures var more := calls + [(chains[i][j].id, chains[i][j].val)];
      more <= Pairs(Flat(chains)) && GoesOn(fun, more, |calls|) && (fun(more) ==> GoesOn(fun, more, |more|))
  {
    NodeInFlat(chains, i, j);
    PrefixGrows(calls, Pairs(Flat(chains)));
    GoesOnLonger(fun, calls, (chains[i][j].id, chains[i][j].val));
  }

  /** Walks a chain up to the first node for index. */
  method Walk<V>(head: SHashNode?<V>, index: int, ghost chain: seq<SHashNode<V>>)
    returns (prev: SHashNode?<V>, node: SHashNode?<V>, ghost j: nat)
    requires Chained(head, chain)
    ensures j <= |chain| && node == (if j < |chain| then chain[j] else null)
    ensures prev == (if j == 0 then null else chain[j - 1])
    ensures node != null ==> node.id == index
    ensures forall k :: 0 <= k < j ==> chain[k].id != index
  {
    prev, node, j := null, head, 0;
    while node != null
      invariant j <= |chain| && node == (if j < |chain| then chain[j] else null)
      invariant prev == (if j == 0 then null else chain[j - 1])
      invariant forall k :: 0 <= k < j ==> chain[k].id != index
      decreases |chain| - j
    {
      if node.id == index {
        return;
      }
      prev, node, j := node, node.pNext, j + 1;
    }
  }

  class CHashTable<V> {
    var table: array?<SHashNode?<V>>
    var buckets: int
    var modMask: nat
    ghost var shift: nat
    ghost var chains: seq<seq<SHashNode<V>>>
    ghost var nodes: map<int, SHashNode<V>>   // the node that holds each id
    ghost var live: set<SHashNode<V>>         // allocated and not deleted
    ghost var deleted: set<SHashNode<V>>

    ghost function Contents(): map<int, V>
      reads this`nodes
    {
      map index | index in nodes :: nodes[index].val
    }

    function Slot(index: int): int
      reads this`modMask
    {
      BitAnd(index, modMask)
    }

    ghost predicate Sized()
      reads this
    {
      table != null && table.Length == buckets == |chains| == Pow2(shift) && modMask == buckets - 1
    }

    /** Bucket i holds, once each, exactly the nodes whose ids belong there. */
    ghost predicate Bucket(i: int)
      requires 0 <= i < |chains|
      reads this
    {
      NoRepeats(chains[i]) &&
      (forall n :: n in chains[i] ==> n.id in nodes && nodes[n.id] == n && Slot(n.id) == i) &&
      (forall index :: index in nodes && Slot(index) == i ==> nodes[index] in chains[i])
    }

    ghost predicate Linked(i: int)
      requires table != null && 0 <= i < |chains| == table.Length
      reads this`table, this`chains, this`live, table, live
    {
      (forall n :: n in chains[i] ==> n in live) && Chained(table[i], chains[i])
    }

    ghost predicate Valid()
      reads this, table, live
    {
      Sized() && live !! deleted &&
      (forall n :: n in live ==> n.id in nodes && nodes[n.id] == n) &&
      (forall index :: index in nodes ==> nodes[index] in live && nodes[index].id == index) &&
      (forall i {:trigger Bucket(i)} :: 0 <= i < buckets ==> Bucket(i)) &&
      (forall i {:trigger Linked(i)} :: 0 <= i < buckets ==> Linked(i))
    }

    lemma SlotInRange(index: int)
      requires Sized()
      ensures 0 <= Slot(index) < buckets && Slot(index) == index % buckets
    {
      MaskIsRemainder(index, shift);
    }

    constructor (buckets: int)
      ensures Valid() && fresh(table) && Contents() == map[] && live == {} && deleted == {}
      ensures 1 <= buckets <= 0x10_0000 ==> LeastPower(this.buckets, buckets)
      ensures 1 <= buckets <= 0x10_0000 ==>
        buckets <= this.buckets && 2 <= this.buckets && (this.buckets == 2 || this.buckets < 2 * buckets)
      ensures !(1 <= buckets <= 0x10_0000) ==> this.buckets == 0x20_0000
    {
      var size, k := TableSize(buckets);
      this.buckets := size;
      shift := k;
      modMask := size - 1;
      table := new SHashNode?<V>[size](_ => null);
      chains := seq(size, _ => []);
      nodes, live, deleted := map[], {}, {};
    }

    constructor Default()
      ensures Valid() && fresh(table) && Contents() == map[] && live == {} && deleted == {} && buckets == 512
    {
      buckets, shift, modMask := 512, 9, 511;
      table := new SHashNode?<V>[512](_ => null);
      chains := seq(512, _ => []);
      nodes, live, deleted := map[], {}, {};
      assert Pow2(9) == 512;
    }

    // ----- Lookup -----

    /** The node for index in its bucket i, and the one before it. */
    method Locate(index: int, i: int) returns (prev: SHashNode?<V>, node: SHashNode?<V>, ghost j: nat)
      requires Valid() && i == Slot(index) && 0 <= i < buckets
      ensures j <= |chains[i]|
      ensures node == (if index in nodes then nodes[index] else null)
      ensures node != null ==> j < |chains[i]| && node == chains[i][j]
      ensures prev == (if j == 0 then null else chains[i][j - 1])
    {
      assert Bucket(i) && Linked(i);
      assert index in nodes ==> nodes[index] in chains[i];
      prev, node, j := Walk(table[i], index, chains[i]);
    }

    /** val is the caller's variable; r is what it holds afterwards. */
    method Find(index: int, val: V) returns (found: bool, r: V)
      requires Valid()
      ensures found <==> index in Contents()
      ensures r == if found then Contents()[index] else val
    {
      SlotInRange(index);
      var prev, node, j := Locate(index, BitAnd(index, modMask));
      found, r := node != null, val;
      if node != null {
        r := node.val;
      }
    }

    // ----- Updates -----

    /** Keeps the first value stored under an id. */
    method Insert(index: int, val: V)
      requires Valid()
      modifies this, table
      ensures Valid() && table == old(table) && buckets == old(buckets)
      ensures Contents() == if index in old(Contents()) then old(Contents()) else old(Contents())[index := val]
      ensures deleted == old(deleted)
      ensures index in old(Contents()) ==> live == old(live)
      ensures index !in old(Contents()) ==> index in nodes && fresh(nodes[index]) && live == old(live) + {nodes[index]}
    {
      SlotInRange(index);
      var i := BitAnd(index, modMask);
      var prev, node, j := Locate(index, i);
      if node != null {
        return;
      }
      var n := new SHashNode(index, val, table[i]);
      Push(n, i);
    }

    method Push(n: SHashNode<V>, i: int)
      requires Valid() && 0 <= i < buckets && i == Slot(n.id)
      requires n !in live && n !in deleted && n.id !in nodes && n.pNext == table[i]
      modifies this`chains, this`nodes, this`live, table
      ensures Valid() && live == old(live) + {n} && nodes == old(nodes)[n.id := n]
    {
      assert Linked(i);
      table[i] := n;
      chains := chains[i := [n] + chains[i]];
      live := live + {n};
      nodes := nodes[n.id := n];
      forall k | 0 <= k < buckets
        ensures Bucket(k)
      {
        assert old(Bucket(k));
      }
      forall k | 0 <= k < buckets
        ensures Linked(k)
      {
        assert old(Linked(k));
      }
    }

    /** Frees a node, which must not have been freed before. */
    ghost method Delete(n: SHashNode<V>)
      requires n in live && n !in deleted
      modifies this`live, this`deleted
      ensures live == old(live) - {n} && deleted == old(deleted) + {n}
    {
      live := live - {n};
      deleted := deleted + {n};
    }

    /** Makes the link that leads to node j of chain i skip it. */
    method Relink(prev: SHashNode?<V>, node: SHashNode<V>, i: int, ghost j: nat)
      requires Valid() && 0 <= i < buckets && j < |chains[i]| && node == chains[i][j]
      requires prev == if j == 0 then null else chains[i][j - 1]
      modifies table, live
      ensures forall k {:trigger Linked(k)} :: 0 <= k < buckets && k != i ==> Linked(k)
      ensures Chained(table[i], Skipping(chains[i], j))
    {
      assert Bucket(i) && Linked(i);
      if prev == null {
        table[i] := node.pNext;
      } else {
        prev.pNext := node.pNext;
      }
      forall k | 0 <= k < buckets && k != i
        ensures Linked(k)
      {
        assert old(Linked(k)) && Bucket(k);
        assert prev != null ==> prev !in chains[k];
      }
    }

    method Unlink(prev: SHashNode?<V>, node: SHashNode<V>, i: int, ghost j: nat)
      requires Valid() && 0 <= i < buckets && j < |chains[i]| && node == chains[i][j]
      requires prev == if j == 0 then null else chains[i][j - 1]
      modifies this`chains, this`nodes, this`live, this`deleted, table, live
      ensures Valid() && live == old(live) - {node} && deleted == old(deleted) + {node}
      ensures nodes == old(nodes) - {node.id}
    {
      ghost var left := Skipping(chains[i], j);
      assert Bucket(i);
      SkippingKeepsOthers(chains[i], j);
      Relink(prev, node, i, j);
      Forget(node, i, left);
    }

    /** The bookkeeping once chain i has become left, which has every node but this one. */
    ghost method Forget(node: SHashNode<V>, i: int, left: seq<SHashNode<V>>)
      requires Sized() && live !! deleted && 0 <= i < buckets && i == Slot(node.id)
      requires forall n :: n in live ==> n.id in nodes && nodes[n.id] == n
      requires forall index :: index in nodes ==> nodes[index] in live && nodes[index].id == index
      requires forall k {:trigger Bucket(k)} :: 0 <= k < buckets ==> Bucket(k)
      requires forall k {:trigger Linked(k)} :: 0 <= k < buckets && k != i ==> Linked(k)
      requires node in chains[i] && Chained(table[i], left) && NoRepeats(left)
      requires forall n :: n in left <==> n in chains[i] && n != node
      modifies this`chains, this`nodes, this`live, this`deleted
      ensures Valid() && live == old(live) - {node} && deleted == old(deleted) + {node}
      ensures nodes == old(nodes) - {node.id}
    {
      assert Bucket(i);
      chains := chains[i := left];
      nodes := nodes - {node.id};
      Delete(node);
      forall k | 0 <= k < buckets
        ensures Bucket(k)
      {
        assert old(Bucket(k));
      }
      forall k | 0 <= k < buckets
        ensures Linked(k)
      {
        if k != i {
          assert old(Linked(k));
          assert Bucket(k);
        }
      }
    }

    method Erase(index: int)
      requires Valid()
      modifies this, table, live
      ensures Valid() && table == old(table) && buckets == old(buckets)
      ensures Contents() == old(Contents()) - {index}
      ensures live + deleted == old(live + deleted) && old(deleted) <= deleted
    {
      SlotInRange(index);
      var i := BitAnd(index, modMask);
      var prev, node, j := Locate(index, i);
      if node != null {
        Unlink(prev, node, i, j);
      }
    }

    /** Erases and returns the value; val is the caller's variable, r what it holds afterwards. */
    method EraseAndGet(index: int, val: V) returns (r: V)
      requires Valid()
      modifies this, table, live
      ensures Valid() && table == old(table) && buckets == old(buckets)
      ensures Contents() == old(Contents()) - {index}
      ensures r == if index in old(Contents()) then old(Contents())[index] else val
      ensures live + deleted == old(live + deleted) && old(deleted) <= deleted
    {
      SlotInRange(index);
      var i := BitAnd(index, modMask);
      var prev, node, j := Locate(index, i);
      r := val;
      if node != null {
        r := node.val;
        Unlink(prev, node, i, j);
      }
    }

    // ----- Traversal -----

    /** The chains hold each live node exactly once. */
    lemma FlatIsLive()
      requires Valid()
      ensures NoRepeats(Flat(chains))
      ensures forall k :: 0 <= k < |Flat(chains)| ==> Flat(chains)[k] in live
      ensures forall n :: n in live ==> n in Flat(chains)
    {
      forall i | 0 <= i < |chains|
        ensures NoRepeats(chains[i]) && forall n :: n in chains[i] ==> n in live && Slot(n.id) == i
      {
        assert Bucket(i);
      }
      FlatHasNoRepeats(chains);
      forall k | 0 <= k < |Flat(chains)|
        ensures Flat(chains)[k] in live
      {
        var i := FlatMember(chains, Flat(chains)[k]);
      }
      forall n | n in live
        ensures n in Flat(chains)
      {
        SlotInRange(n.id);
        assert Bucket(Slot(n.id));
        ChainInFlat(chains, Slot(n.id));
        var k :| 0 <= k < |chains[Slot(n.id)]| && chains[Slot(n.id)][k] == n;
        assert Flat(chains)[Offset(chains, Slot(n.id)) + k] == n;
      }
    }

    /** The part of ForEach that walks one chain. */
    method Offer(fun: seq<(int, V)> -> bool, before: seq<(int, V)>, i: nat) returns (calls: seq<(int, V)>, go: bool)
      requires Valid() && i < buckets
      requires |before| == Offset(chains, i) && before <= Pairs(Flat(chains)) && GoesOn(fun, before, |before|)
      ensures calls <= Pairs(Flat(chains)) && GoesOn(fun, calls, |calls| - 1)
      ensures go ==> |calls| == Offset(chains, i + 1) && GoesOn(fun, calls, |calls|)
      ensures !go ==> calls != [] && !fun(calls)
    {
      assert Linked(i);
      ChainInFlat(chains, i);
      calls, go := before, true;
      var pNode := table[i];
      ghost var j := 0;
      while pNode != null
        invariant 0 <= j <= |chains[i]| && pNode == (if j < |chains[i]| then chains[i][j] else null)
        invariant |calls| == Offset(chains, i) + j && calls <= Pairs(Flat(chains))
        invariant GoesOn(fun, calls, |calls|)
        decreases |chains[i]| - j
      {
        NextCall(fun, calls, chains, i, j);
        calls := calls + [(pNode.id, pNode.val)];
        if !fun(calls) {
          go := false;
          return;
        }
        pNode := pNode.pNext;
        j := j + 1;
      }
    }

    /**
      Calls fun on the entries until it refuses one.  What fun answers may depend on all the calls so
      far; calls records them.
      */
    method ForEach(fun: seq<(int, V)> -> bool) returns (calls: seq<(int, V)>)
      requires Valid()
      ensures forall k :: 0 < k < |calls| ==> fun(calls[..k])
      ensures forall k :: 0 <= k < |calls| ==> calls[k].0 in Contents() && Contents()[calls[k].0] == calls[k].1
      ensures forall j, k :: 0 <= j < k < |calls| ==> calls[j].0 != calls[k].0
      ensures calls == [] || fun(calls) ==> forall index :: index in Contents() ==> (index, Contents()[index]) in calls
      ensures calls <= Pairs(Flat(chains))
    {
      calls := OfferAll(fun);
      ForEachVisits(fun, calls);
    }

    method OfferAll(fun: seq<(int, V)> -> bool) returns (calls: seq<(int, V)>)
      requires Valid()
      ensures calls <= Pairs(Flat(chains))
      ensures GoesOn(fun, calls, |calls| - 1)
      ensures calls != Pairs(Flat(chains)) ==> calls != [] && !fun(calls)
    {
      calls := [];
      var i := 0;
      while i < buckets
        invariant 0 <= i <= buckets && |calls| == Offset(chains, i) && calls <= Pairs(Flat(chains))
        invariant GoesOn(fun, calls, |calls|)
      {
        var go;
        calls, go := Offer(fun, calls, i);
        if !go {
          return;
        }
        i := i + 1;
      }
      FlatEnds(chains);
    }

    /** Each entry is offered at most once, and all of them are when no call is refused. */
    lemma ForEachVisits(fun: seq<(int, V)> -> bool, calls: seq<(int, V)>)
      requires Valid() && calls <= Pairs(Flat(chains))
      requires calls != Pairs(Flat(chains)) ==> calls != [] && !fun(calls)
      ensures forall k :: 0 <= k < |calls| ==> calls[k].0 in Contents() && Contents()[calls[k].0] == calls[k].1
      ensures forall j, k :: 0 <= j < k < |calls| ==> calls[j].0 != calls[k].0
      ensures calls == [] || fun(calls) ==> forall index :: index in Contents() ==> (index, Contents()[index]) in calls
    {
      FlatIsLive();
      var all := Flat(chains);
      forall k | 0 <= k < |calls|
        ensures calls[k] == (all[k].id, all[k].val) && all[k] in live
      {
        assert calls[k] == Pairs(all)[k];
      }
      if calls == [] || fun(calls) {
        forall index | index in Contents()
          ensures (index, Contents()[index]) in calls
        {
          var k :| 0 <= k < |all| && all[k] == nodes[index];
          assert calls[k] == (index, Contents()[index]);
        }
      }
    }

    /** The nodes of all from place p on are still to be deleted. */
    ghost predicate Swept(all: seq<SHashNode<V>>, p: int)
      requires 0 <= p <= |all|
      reads this`live, this`deleted
    {
      live !! deleted &&
      (forall n :: n in live ==> n in all[p..]) &&
      (forall k :: p <= k < |all| ==> all[k] in live)
    }

    ghost method Sweep(n: SHashNode<V>, all: seq<SHashNode<V>>, p: nat)
      requires p < |all| && n == all[p] && Swept(all, p) && NoRepeats(all)
      modifies this`live, this`deleted
      ensures Swept(all, p + 1) && live + deleted == old(live + deleted)
    {
      assert all[p..] == [n] + all[p + 1..];
      Delete(n);
    }

    /** The part of the destructor that walks one chain, which stands in all from place at on. */
    method DestroyChain(head: SHashNode?<V>, ghost chain: seq<SHashNode<V>>, ghost at: nat, ghost all: seq<SHashNode<V>>)
      requires Chained(head, chain) && Placed(all, at, chain)
      requires NoRepeats(all) && Swept(all, at)
      modifies this`live, this`deleted
      ensures Swept(all, at + |chain|) && live + deleted == old(live + deleted)
    {
      var pNode := head;
      ghost var j := 0;
      while pNode != null
        invariant 0 <= j <= |chain| && pNode == (if j < |chain| then chain[j] else null)
        invariant Swept(all, at + j) && live + deleted == old(live + deleted)
        decreases |chain| - j
      {
        var pNext := pNode.pNext;
        Sweep(pNode, all, at + j);
        pNode := pNext;
        j := j + 1;
      }
    }

    /** Every chain still hangs from its bucket. */
    ghost predicate Hanging(owned: set<SHashNode<V>>)
      reads this`table, this`buckets, this`chains, table, owned
    {
      table != null && table.Length == buckets == |chains| &&
      forall i {:trigger chains[i]} :: 0 <= i < buckets ==>
        (forall n :: n in chains[i] ==> n in owned) && Chained(table[i], chains[i])
    }

    method DestroyBucket(i: nat, ghost all: seq<SHashNode<V>>, ghost owned: set<SHashNode<V>>)
      requires Hanging(owned) && i < buckets && all == Flat(chains)
      requires Offset(chains, i) <= |all| && NoRepeats(all) && Swept(all, Offset(chains, i))
      modifies this`live, this`deleted
      ensures Offset(chains, i + 1) <= |all| && Swept(all, Offset(chains, i + 1)) && live + deleted == old(live + deleted)
    {
      ChainInFlat(chains, i);
      ChainPlaced(chains, i);
      DestroyChain(table[i], chains[i], Offset(chains, i), all);
    }

    /** Deletes every node, each exactly once. */
    method Destroy()
      requires Valid()
      modifies this
      ensures table == null && live == {} && deleted == old(live + deleted)
    {
      FlatIsLive();
      ghost var all := Flat(chains);
      assert all[0..] == all;
      forall i | 0 <= i < buckets
        ensures (forall n :: n in chains[i] ==> n in live) && Chained(table[i], chains[i])
      {
        assert Linked(i);
      }
      DestroyAll(all, live);
      table := null;
    }

    method DestroyAll(ghost all: seq<SHashNode<V>>, ghost owned: set<SHashNode<V>>)
      requires Hanging(owned) && all == Flat(chains) && NoRepeats(all) && Swept(all, 0)
      modifies this`live, this`deleted
      ensures live == {} && deleted == old(live + deleted)
    {
      var i := 0;
      while i < buckets
        invariant 0 <= i <= buckets && Offset(chains, i) <= |all| && Swept(all, Offset(chains, i))
        invariant Hanging(owned) && live + deleted == old(live + deleted)
      {
        DestroyBucket(i, all, owned);
        i := i + 1;
      }
      FlatEnds(chains);
      assert live == {};
    }
  }
}
