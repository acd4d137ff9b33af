/** The two directions of one connection: frames queued and sent, bytes received and cut into frames. */
module Connections {
  import opened Words
  import opened Framing
  import opened Fields
  import opened Sockets
  import opened NetMessages

  /** What a call that returns len has sent of data. */
  function Part(data: seq<Byte>, len: int): seq<Byte>
    requires len <= |data|
  {
    if len > 0 then data[..len] else []
  }

  /** The first k frames are sent in full exactly if at least k frames are cut from what was sent. */
  lemma SentInFull(frames: seq<seq<Byte>>, sent: seq<Byte>, k: nat)
    requires AllFramed(frames) && sent <= Joined(frames) && k <= |frames|
    ensures k <= |Frames(sent)| <==> Joined(frames[..k]) <= sent
  {
    FramesOfJoined(frames, sent);
    CutIsComplete(sent);
    if k <= |Frames(sent)| {
      assert frames[..k] == Frames(sent)[..k];
      JoinedPrefix(frames[..k], Frames(sent));
    }
    if Joined(frames[..k]) <= sent {
      var rest := sent[|Joined(frames[..k])|..];
      assert sent == Joined(frames[..k]) + rest;
      FramesOfJoined(frames[..k], Joined(frames[..k]));
      CutContinues(Joined(frames[..k]), rest);
    }
  }

  /** What the server keeps to send to one socket. */
  class Outgoing {
    const sock: Socket
    var pending: NetMessage?              // the socket's entry in m_sendMsgList
    ghost var accepted: seq<seq<Byte>>    // the messages taken for sending, in order
    ghost var intact: bool                // no send has yet lost or repeated a byte

    ghost predicate Valid()
      reads this, sock, pending
    {
      (pending != null ==> pending.sendBegin <= |pending.msg|) &&
      AllFramed(accepted) &&
      (intact ==> sock.outbox + Unsent() == Joined(accepted))
    }

    function Unsent(): seq<Byte>
      requires pending != null ==> pending.sendBegin <= |pending.msg|
      reads this`pending, pending
    {
      if pending == null then [] else pending.Pending()
    }

    constructor (sock: Socket)
      requires sock.outbox == []
      ensures Valid() && this.sock == sock && pending == null && accepted == [] && intact
    {
      this.sock, pending, accepted, intact := sock, null, [], true;
    }

    /** The messages that remain accepted when the pending buffer is thrown away: those sent in full. */
    ghost function Kept(): seq<seq<Byte>>
      reads this, sock
    {
      if pending != null && intact then Frames(sock.outbox) else accepted
    }

    /** Throwing the pending buffer away does no harm between two messages. */
    ghost predicate Discardable()
      reads this, sock
    {
      intact && (pending != null ==> Rest(sock.outbox) == [])
    }

    /**
      Unless told to clear it first, queues behind a pending buffer that is not full; with none, sends at
      once and keeps the rest.
      */
    method SendMsg(msg: NetMessage, clearOld: bool)
      requires Valid() && msg != pending && Framed(msg.msg)
      modifies this, sock, pending, msg`sendBegin
      ensures Valid() && sock.inbox == old(sock.inbox)
      ensures old(pending) != null && !clearOld ==>
        pending == old(pending) && intact == old(intact) && sock.outbox == old(sock.outbox) &&
        accepted == old(accepted) + (if old(|pending.msg|) < MAX_LEN then [msg.msg] else []) &&
        pending.Pending() == old(pending.Pending()) + (if old(|pending.msg|) < MAX_LEN then msg.msg else []) &&
        pending.sendBegin == (if old(|pending.msg|) < MAX_LEN then 0 else old(pending.sendBegin))
      ensures sock.offers == if old(pending) != null && !clearOld then old(sock.offers) else old(sock.OffersAfter())
      ensures old(pending) == null || clearOld ==>
        var sent := old(sock.Grant(|msg.msg|));
        var kept, whole := if clearOld then old(Kept()) else old(accepted), if clearOld then old(Discardable()) else old(intact);
        sock.outbox == old(sock.outbox) + Part(msg.msg, sent) && sock.again == old(sock.ErrnoAfter()) &&
        if sent == |msg.msg| then
          pending == null && accepted == kept + [msg.msg] && intact == whole
        else if sock.again then
          pending != null && fresh(pending) && pending.sendBegin == 0 && pending.msg == msg.msg[|Part(msg.msg, sent)|..] &&
          accepted == kept + [msg.msg] && intact == whole
        else
          pending == null && accepted == kept && intact == (whole && sent <= 0)
    {
      msg.ReSend();
      assert msg.Pending() == msg.msg;
      if clearOld {
        Discard();
      }
      if pending != null {
        Queue(msg);
      } else {
        SendNow(msg);
      }
    }

    method Discard()
      requires Valid()
      modifies this`pending, this`accepted, this`intact
      ensures Valid() && pending == null
      ensures accepted == old(Kept()) && intact == old(Discardable())
    {
      if pending != null {
        if intact {
          assert sock.outbox <= Joined(accepted);
          FramesOfJoined(accepted, sock.outbox);
          CutIsComplete(sock.outbox);
          accepted := Frames(sock.outbox);
        }
        intact := intact && Rest(sock.outbox) == [];
        pending := null;
      }
    }

    /**
      Discarding keeps the longest prefix of what was accepted that has been sent in full, and does no harm
      exactly when nothing but such a prefix has been sent.
      */
    lemma KeptIsPrefix()
      requires Valid()
      ensures Kept() <= accepted
      ensures intact && pending != null ==> forall k :: 0 <= k <= |accepted| ==>
        (k <= |Kept()| <==> Joined(accepted[..k]) <= sock.outbox)
      ensures intact && pending != null ==> (Discardable() <==> sock.outbox == Joined(Kept()))
      ensures pending == null || !intact ==> Kept() == accepted && Discardable() == intact
    {
      if pending != null && intact {
        FramesOfJoined(accepted, sock.outbox);
        CutIsComplete(sock.outbox);
        forall k | 0 <= k <= |accepted|
          ensures k <= |Kept()| <==> Joined(accepted[..k]) <= sock.outbox
        {
          SentInFull(accepted, sock.outbox, k);
        }
      }
    }

    lemma Joins(f: seq<Byte>)
      ensures Joined(accepted + [f]) == Joined(accepted) + f
    {
      JoinedAppend(accepted, [f]);
      assert Joined([f]) == f + Joined([]) == f;
    }

    method Queue(msg: NetMessage)
      requires Valid() && pending != null && msg != pending
      requires msg.sendBegin == 0 && Framed(msg.msg)
      modifies this`accepted, pending
      ensures Valid()
      ensures accepted == old(accepted) + (if old(|pending.msg|) < MAX_LEN then [msg.msg] else [])
      ensures pending.Pending() == old(pending.Pending()) + (if old(|pending.msg|) < MAX_LEN then msg.msg else [])
      ensures pending.sendBegin == if old(|pending.msg|) < MAX_LEN then 0 else old(pending.sendBegin)
    {
      ghost var was := pending.Pending();
      ghost var taken := |pending.msg| < MAX_LEN;
      pending.Append(msg);
      if taken {
        assert msg.Pending()[..Wrap(|msg.Pending()|)] == msg.msg;
        assert sock.outbox + (was + msg.msg) == sock.outbox + was + msg.msg;
        Joins(msg.msg);
        accepted := accepted + [msg.msg];
      }
    }

    method SendNow(msg: NetMessage)
      requires Valid() && pending == null
      requires msg.sendBegin == 0 && Framed(msg.msg)
      modifies this, sock, msg`sendBegin
      ensures Valid() && sock.inbox == old(sock.inbox)
      ensures sock.outbox == old(sock.outbox) + Part(msg.msg, old(sock.Grant(|msg.msg|)))
      ensures sock.offers == old(sock.OffersAfter()) && sock.again == old(sock.ErrnoAfter())
      ensures var sent := old(sock.Grant(|msg.msg|));
        if sent == |msg.msg| then
          pending == null && accepted == old(accepted) + [msg.msg] && intact == old(intact)
        else if sock.again then
          pending != null && fresh(pending) && pending.sendBegin == 0 && pending.msg == msg.msg[|Part(msg.msg, sent)|..] &&
          accepted == old(accepted) + [msg.msg] && intact == old(intact)
        else
          pending == null && accepted == old(accepted) && intact == (old(intact) && sent <= 0)
    {
      ghost var before := sock.outbox;
      assert msg.Pending() == msg.msg;
      var len := msg.Send(sock);
      assert sock.outbox + msg.Pending() == before + msg.msg;
      Joins(msg.msg);
      if len == |msg.msg| {
        assert sock.outbox == before + msg.msg;
      }
      var done := msg.SendDone();
      if done {
        accepted := accepted + [msg.msg];
      } else if sock.again {
        pending := new NetMessage();
        pending.Copy(msg);
        accepted := accepted + [msg.msg];
      } else {
        intact := intact && len <= 0;
      }
    }

    /** The socket can take more: send from the pending buffer, and drop it when the cursor reaches its end. */
    method OnSend()
      requires Valid()
      modifies this, sock, pending
      ensures Valid() && accepted == old(accepted) && sock.inbox == old(sock.inbox)
      ensures old(pending) == null ==> pending == null && intact == old(intact) && sock.outbox == old(sock.outbox)
      ensures old(pending) != null ==>
        var len, begin := old(sock.Grant(|pending.Pending()|)), old(pending.sendBegin);
        intact == (old(intact) && (len <= 0 || begin + len <= MAX_LEN)) &&
        sock.outbox == old(sock.outbox) + Part(old(pending.Pending()), len) &&
        (pending == null <==> (if len > 0 then Wrap(begin + len) else begin) >= old(|pending.msg|)) &&
        (begin + len <= MAX_LEN ==> (pending == null <==> len == old(|pending.Pending()|) || old(|pending.Pending()|) == 0))
    {
      if pending != null {
        ghost var was := sock.outbox + Unsent();
        var len := pending.Send(sock);
        assert intact ==> was == Joined(accepted);
        intact := intact && sock.outbox + pending.Pending() == was;
        var done := pending.SendDone();
        if done {
          pending := null;
        }
      }
    }
  }

  function Total(offers: seq<int>): int {
    if offers == [] then 0 else offers[0] + Total(offers[1..])
  }

  /** Every call can move something, and bytes enough have arrived for all of them. */
  predicate Steady(offers: seq<int>, arrived: nat) {
    (forall i :: 0 <= i < |offers| ==> offers[i] > 0) && Total(offers) <= arrived
  }

  lemma {:induction false} TotalIsPositive(offers: seq<int>)
    requires forall i :: 0 <= i < |offers| ==> offers[i] > 0
    ensures Total(offers) >= 0
  {
    if offers != [] {
      TotalIsPositive(offers[1..]);
    }
  }

  lemma SteadyCall(offers: seq<int>, arrived: nat)
    requires Steady(offers, arrived) && offers != []
    ensures 0 < offers[0] <= arrived && Steady(offers[1..], arrived - offers[0])
  {
    TotalIsPositive(offers[1..]);
  }

  /** One byte at a time is steady while bytes are left. */
  lemma OnesAreSteady(offers: seq<int>, arrived: nat)
    ensures (forall i :: 0 <= i < |offers| ==> offers[i] == 1) && |offers| <= arrived ==> Steady(offers, arrived)
  {
    if forall i :: 0 <= i < |offers| ==> offers[i] == 1 {
      TotalOfOnes(offers);
    }
  }

  lemma {:induction false} TotalOfOnes(offers: seq<int>)
    requires forall i :: 0 <= i < |offers| ==> offers[i] == 1
    ensures Total(offers) == |offers|
  {
    if offers != [] {
      TotalOfOnes(offers[1..]);
    }
  }

  /** Before a Recv: the rest is short of a frame, and its header will not overflow. */
  lemma RestIsShort(consumed: seq<Byte>, inbox: seq<Byte>)
    requires Clear(consumed + inbox)
    ensures var s := Rest(consumed) + inbox; 2 <= |s| ==> Announced(s) <= MAX_LEN
    ensures !Starts(Rest(consumed))
  {
    CutContinues(consumed, inbox);
    CutIsComplete(consumed);
  }

  /** The stream now is cut into the frames before it and held, which is one more frame or the rest. */
  predicate Regrown(before: seq<seq<Byte>>, now: seq<Byte>, held: seq<Byte>) {
    if Framed(held) then
      Frames(now) == before + [held] && Rest(now) == []
    else
      Frames(now) == before && Rest(now) == held
  }

  /** After a Recv that divides Rest(consumed) + inbox anew as held + left. */
  lemma RestGrows(consumed: seq<Byte>, inbox: seq<Byte>, held: seq<Byte>, left: seq<Byte>)
    requires Rest(consumed) + inbox == held + left && |Rest(consumed)| <= |held|
    requires 2 <= |held| ==> |held| <= Announced(held) <= MAX_LEN
    ensures |left| <= |inbox|
    ensures var now := consumed + inbox[..|inbox| - |left|];
      Regrown(Frames(consumed), now, held) && now + left == consumed + inbox
  {
    var chunk := inbox[..|inbox| - |left|];
    assert held == (held + left)[..|held|] == Rest(consumed) + chunk;
    assert left == (held + left)[|held|..] == inbox[|chunk|..];
    assert inbox == chunk + left;
    assert consumed + inbox == consumed + chunk + left;
    CutContinues(consumed, chunk);
    AtMostOneFrame(held);
  }

  /** What the server keeps of what it receives from one socket. */
  class Incoming {
    const sock: Socket
    var current: NetMessage?           // the socket's entry in m_recvMsgList
    var packages: seq<seq<Byte>>       // the messages that the package list took, in order
    var closed: bool
    ghost var consumed: seq<Byte>      // all bytes taken from the socket so far

    ghost predicate Valid()
      reads this, sock, current
    {
      Clear(consumed + sock.inbox) &&
      packages <= Frames(consumed) &&
      (!closed ==> packages == Frames(consumed) && if current == null then Rest(consumed) == [] else Holds(current))
    }

    ghost predicate Holds(m: NetMessage)
      reads this`consumed, m
    {
      m.Receiving() && m.Held() == Rest(consumed)
    }

    /** Between calls: every whole frame is delivered and m holds the rest. */
    ghost predicate Settled(m: NetMessage)
      reads this`consumed, this`packages, m
    {
      Frames(consumed) == packages && Holds(m)
    }

    /** After a Recv: m may hold a whole frame that is still to be delivered. */
    ghost predicate Afoot(m: NetMessage)
      reads this`consumed, this`packages, m
    {
      m.Receiving() && Announced(m.msg) <= MAX_LEN && Regrown(packages, consumed, m.Held())
    }

    constructor (sock: Socket)
      requires Clear(sock.inbox)
      ensures Valid() && this.sock == sock && packages == [] && consumed == [] && !closed
    {
      this.sock, current, packages, closed, consumed := sock, null, [], false, [];
      assert [] + sock.inbox == sock.inbox;
    }

    /** One Recv, with the bytes it took recorded. */
    method Receive(m: NetMessage) returns (len: int)
      requires Clear(consumed + sock.inbox) && Settled(m)
      modifies this`consumed, sock, m
      ensures sock.outbox == old(sock.outbox) && sock.again == old(sock.ErrnoAfter())
      ensures sock.offers == old(sock.OffersAfter())
      ensures old(consumed) <= consumed && consumed + sock.inbox == old(consumed + sock.inbox)
      ensures |consumed| == old(|consumed|) + if len > 0 then len else 0
      ensures old(Steady(sock.offers, |sock.inbox|)) ==>
        Steady(sock.offers, |sock.inbox|) &&
        (if old(sock.offers) == [] then len < 0 && sock.again else len > 0)
      ensures Afoot(m) && (len <= 0 ==> !Framed(m.Held()))
    {
      ghost var inbox := sock.inbox;
      if Steady(sock.offers, |inbox|) && sock.offers != [] {
        SteadyCall(sock.offers, |inbox|);
      }
      ghost var missing;
      len, missing := ReceiveBytes(m);
    }

    method ReceiveBytes(m: NetMessage) returns (len: int, ghost missing: nat)
      requires Clear(consumed + sock.inbox) && Settled(m)
      modifies this`consumed, sock, m
      ensures missing > 0 && len == old(sock.Grant(if missing < |sock.inbox| then missing else |sock.inbox|))
      ensures sock.outbox == old(sock.outbox) && sock.again == old(sock.ErrnoAfter())
      ensures sock.offers == old(sock.OffersAfter())
      ensures old(consumed) <= consumed && consumed + sock.inbox == old(consumed + sock.inbox)
      ensures |consumed| == old(|consumed|) + (if len > 0 then len else 0)
      ensures Afoot(m) && (len <= 0 ==> !Framed(m.Held()))
    {
      ghost var inbox := sock.inbox;
      RestIsShort(consumed, inbox);
      missing := m.Missing();
      len := Fetch(m);
      Account(inbox, m.Held());
    }

    /** The Recv itself, for a stream whose header fits. */
    method Fetch(m: NetMessage) returns (len: int)
      requires m.Receiving()
      requires var s := m.Held() + sock.inbox; 2 <= |s| ==> Announced(s) <= MAX_LEN
      modifies sock, m
      ensures len == old(sock.Grant(if m.Missing() < |sock.inbox| then m.Missing() else |sock.inbox|))
      ensures m.Receiving() && m.Held() + sock.inbox == old(m.Held() + sock.inbox) && Announced(m.msg) <= MAX_LEN
      ensures m.recvLen == old(m.recvLen) + if len > 0 then len else 0
      ensures 2 <= |m.Held()| ==> |m.Held()| <= Announced(m.Held()) <= MAX_LEN
      ensures sock.outbox == old(sock.outbox) && sock.again == old(sock.ErrnoAfter())
      ensures sock.offers == old(sock.OffersAfter())
    {
      ghost var stream := m.Held() + sock.inbox;
      len := m.Recv(sock);
      m.GrantedFits(stream, sock.inbox);
    }

    /** Records what was taken from inbox. */
    ghost method Account(inbox: seq<Byte>, held: seq<Byte>)
      requires Rest(consumed) + inbox == held + sock.inbox && |Rest(consumed)| <= |held|
      requires 2 <= |held| ==> |held| <= Announced(held) <= MAX_LEN
      modifies this`consumed
      ensures |consumed| == old(|consumed|) + |inbox| - |sock.inbox|
      ensures old(consumed) <= consumed && consumed + sock.inbox == old(consumed) + inbox
      ensures Regrown(old(Frames(consumed)), consumed, held)
    {
      RestGrows(consumed, inbox, held, sock.inbox);
      consumed := consumed + inbox[..|inbox| - |sock.inbox|];
    }

    /** Hands a finished message to the package list and starts the next one. */
    method Deliver(m: NetMessage, room: nat) returns (next: NetMessage, left: nat)
      requires Afoot(m) && !closed && current == m
      modifies this`current, this`packages, this`closed
      ensures old(packages) <= packages && |packages| + left == old(|packages|) + room
      ensures closed ==> current == null && packages != Frames(consumed) && packages <= Frames(consumed) && left == 0
      ensures !closed ==> current == next && (next == m || fresh(next)) && Settled(next)
    {
      next, left := m, room;
      var done := m.RecvDone();
      if done {
        current := null;
        if left == 0 {
          closed := true;
          return;
        }
        left := left - 1;
        packages := packages + [m.Held()];
        next := new NetMessage();
        current := next;
        assert next.Held() == [];
      }
    }

    /** The loop of OnRecv: ends when a Recv brings nothing, or closed when a message is refused. */
    method ReceiveAll(first: NetMessage, room: nat) returns (len: int)
      requires Clear(consumed + sock.inbox) && !closed && current == first && Settled(first)
      modifies this, sock, first
      ensures sock.outbox == old(sock.outbox)
      ensures old(consumed) <= consumed && consumed + sock.inbox == old(consumed + sock.inbox)
      ensures old(packages) <= packages <= Frames(consumed) && |packages| <= old(|packages|) + room
      ensures closed ==> current == null && packages != Frames(consumed) && |packages| == old(|packages|) + room
      ensures !closed ==> len <= 0 && current != null && (current == first || fresh(current)) && Settled(current)
      ensures !closed && old(Steady(sock.offers, |sock.inbox|)) ==>
        len < 0 && sock.again && |consumed| >= old(|consumed|) + old(|sock.offers|)
    {
      var m, left := first, room;
      ghost var steady := Steady(sock.offers, |sock.inbox|);
      len := Receive(m);
      while len > 0
        invariant m == current && (m == first || fresh(m))
        invariant sock.outbox == old(sock.outbox) && !closed
        invariant old(consumed) <= consumed && consumed + sock.inbox == old(consumed + sock.inbox)
        invariant old(packages) <= packages && |packages| + left == old(|packages|) + room
        invariant Afoot(m) && (len <= 0 ==> !Framed(m.Held()))
        invariant steady ==> Steady(sock.offers, |sock.inbox|) && (len <= 0 ==> len < 0 && sock.again && sock.offers == [])
        invariant steady ==> |consumed| + |sock.offers| >= old(|consumed|) + old(|sock.offers|)
        decreases |sock.offers|, len
      {
        m, left := Deliver(m, left);
        if closed {
          return;
        }
        len := Receive(m);
      }
    }

    /** Receives until the socket has no more; the package list takes up to room messages. */
    method OnRecv(room: nat) returns (len: int)
      requires Valid() && !closed
      modifies this, sock, current
      ensures Valid() && sock.outbox == old(sock.outbox)
      ensures old(consumed) <= consumed && consumed + sock.inbox == old(consumed + sock.inbox)
      ensures old(packages) <= packages && |packages| <= old(|packages|) + room
      ensures packages != Frames(consumed) ==> |packages| == old(|packages|) + room && closed
      ensures closed <==> packages != Frames(consumed) || len == 0 || (len < 0 && !sock.again)
      ensures closed ==> current == null
      ensures old(Steady(sock.offers, |sock.inbox|)) ==>
        (closed <==> packages != Frames(consumed)) && (!closed ==> |consumed| >= old(|consumed|) + old(|sock.offers|))
      ensures (forall i :: 0 <= i < |old(sock.offers)| ==> old(sock.offers)[i] == 1) && |old(sock.offers)| <= |old(sock.inbox)| ==>
        (closed <==> packages != Frames(consumed)) && (!closed ==> |consumed| >= |old(consumed)| + |old(sock.offers)|)
    {
      OnesAreSteady(sock.offers, |sock.inbox|);
      if current == null {
        current := new NetMessage();
      }
      len := ReceiveAll(current, room);
      if !closed && (len == 0 || !sock.again) {
        current := null;
        closed := true;
      }
    }
  }

  method Message40000() returns (m: NetMessage)
    ensures fresh(m) && Framed(m.msg) && |m.msg| == 40000
  {
    m := new NetMessage();
    m.Write(Zeros(39996));
    assert |m.msg[2..]| == 39998;
  }

  /** Two messages of 40000 bytes wait in one buffer; sent in one go, it takes the cursor past 0xFFFF. */
  method OverrunBuffer() returns (o: Outgoing)
    ensures o.Valid() && !o.intact && |o.accepted| == 2 && o.pending != null
  {
    var sock := new Socket([], [-1, 80000], true);
    o := new Outgoing(sock);
    var first := Message40000();
    var second := Message40000();
    o.SendMsg(first, false);
    assert sock.offers == [80000] && o.pending.msg == first.msg;
    o.SendMsg(second, false);
    assert |o.pending.Pending()| == 80000 && sock.offers[0] == 80000;
    o.OnSend();
  }

  /** What one side has accepted reaches the other side as the same frames in the same order. */
  lemma StreamArrives(o: Outgoing, i: Incoming)
    requires o.Valid() && o.intact && i.Valid() && i.consumed <= o.sock.outbox
    ensures i.packages <= o.accepted
    ensures !i.closed && o.pending == null && i.consumed == o.sock.outbox ==> i.packages == o.accepted
  {
    FramesOfJoined(o.accepted, i.consumed);
  }

  /** The fields written into the body of a message that has arrived are the fields read back from it. */
  lemma FieldsArrive(o: Outgoing, i: Incoming, k: nat, fields: seq<Field>, slots: seq<Field>)
    requires o.Valid() && o.intact && i.Valid() && i.consumed <= o.sock.outbox && k < |i.packages|
    requires k < |o.accepted| && |o.accepted[k]| >= HEAD_LEN && o.accepted[k][HEAD_LEN..] == EncodeAll(fields)
    requires Fits(slots, fields)
    ensures ReadAll(i.packages[k], HEAD_LEN, slots).0 == AllArrive(slots, fields)
    ensures ReadAll(i.packages[k], HEAD_LEN, slots).1 == |i.packages[k]|
  {
    StreamArrives(o, i);
    assert i.packages[k] == o.accepted[k];
    RoundTrip(i.packages[k], HEAD_LEN, fields, slots);
  }
}
