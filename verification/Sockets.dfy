/** A non-blocking stream socket: how much each call moves is up to the system. */
module Sockets {
  import opened Words

  /** What the next n calls can move. */
  ghost function Sizes(offers: seq<int>, n: nat): (sizes: seq<nat>)
    ensures |sizes| == n
  {
    if n == 0 then []
    else if offers == [] then [0] + Sizes([], n - 1)
    else [if offers[0] < 0 then 0 else offers[0]] + Sizes(offers[1..], n - 1)
  }

  /**
    offers holds what the system will do, call by call: a negative entry fails the call (-1 with
    EAGAIN), any other entry is the most bytes the call can move.  When offers runs out the socket
    would block.
    */
  class Socket {
    var inbox: seq<Byte>   // arrived and not yet taken
    var outbox: seq<Byte>  // everything handed to the system so far
    var offers: seq<int>
    var again: bool        // errno is EAGAIN; a call that succeeds leaves errno as it was

    constructor (inbox: seq<Byte>, offers: seq<int>, again: bool)
      ensures this.inbox == inbox && this.offers == offers && this.again == again && outbox == []
    {
      this.inbox, this.outbox, this.offers, this.again := inbox, [], offers, again;
    }

    /** The return value of the next call that asks for at most n bytes. */
    function Grant(n: nat): (len: int)
      reads this`offers
      ensures len <= n
    {
      if offers == [] || offers[0] < 0 then -1 else if offers[0] < n then offers[0] else n
    }

    function ErrnoAfter(): bool
      reads this`offers, this`again
    {
      if offers == [] || offers[0] == -1 then true else if offers[0] < 0 then false else again
    }

    ghost function OffersAfter(): seq<int>
      reads this`offers
    {
      if offers == [] then [] else offers[1..]
    }

    /** What a call moves, out of n bytes, is the next of the sizes. */
    lemma GrantIsSize(n: nat, rounds: nat)
      requires rounds > 0
      ensures var sizes := Sizes(offers, rounds);
        sizes != [] && sizes[1..] == Sizes(OffersAfter(), rounds - 1) &&
        (if Grant(n) > 0 then Grant(n) else 0) == (if sizes[0] < n then sizes[0] else n)
    {
    }

    method recv(limit: nat) returns (len: int, data: seq<Byte>)
      modifies this
      ensures len == old(Grant(if limit < |inbox| then limit else |inbox|))
      ensures |data| == (if len > 0 then len else 0)
      ensures old(inbox) == data + inbox
      ensures outbox == old(outbox) && again == old(ErrnoAfter())
      ensures offers == old(OffersAfter())
    {
      len := Grant(if limit < |inbox| then limit else |inbox|);
      again := ErrnoAfter();
      if offers != [] {
        offers := offers[1..];
      }
      data := if len > 0 then inbox[..len] else [];
      inbox := inbox[|data|..];
    }

    method send(data: seq<Byte>) returns (len: int)
      modifies this
      ensures len == old(Grant(|data|))
      ensures outbox == old(outbox) + (if len > 0 then data[..len] else [])
      ensures inbox == old(inbox) && again == old(ErrnoAfter())
      ensures offers == old(OffersAfter())
    {
      len := Grant(|data|);
      again := ErrnoAfter();
      if offers != [] {
        offers := offers[1..];
      }
      if len > 0 {
        outbox := outbox + data[..len];
      }
    }
  }
}
