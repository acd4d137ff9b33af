/** A length-prefixed message: two bytes of body length, two bytes of type, then the body. */
module NetMessages {
  import opened Words
  import opened Sockets
  import opened Framing
  import opened Fields

  lemma BodyGrows(was: seq<Byte>, now: seq<Byte>, more: seq<Byte>)
    requires HEAD_LEN <= |was| && 2 <= |now| && now[2..] == was[2..] + more
    ensures HEAD_LEN <= |now| && now[HEAD_LEN..] == was[HEAD_LEN..] + more
  {
    assert |now[2..]| == |was[2..]| + |more|;
    assert now[HEAD_LEN..] == now[2..][2..] && was[HEAD_LEN..] == was[2..][2..];
  }

  class NetMessage {
    var readPos: UInt16
    var msg: seq<Byte>
    var recvLen: UInt16
    var sendBegin: UInt16

    constructor ()
      ensures readPos == HEAD_LEN && recvLen == 0 && sendBegin == 0
      ensures msg == Zeros(HEAD_LEN) && Framed(msg) && Receiving()
    {
      readPos, msg, recvLen, sendBegin := HEAD_LEN, Resized([], HEAD_LEN), 0, 0;
      new;
      SetLength();
      assert msg[0] == 0 && msg[1] == 0;
      assert msg == Zeros(HEAD_LEN);
    }

    // ----- Header -----

    function Length(): UInt16
      requires 2 <= |msg|
      reads this`msg
    {
      Wrap(Announced(msg))
    }

    method GetLength() returns (n: UInt16)
      requires 2 <= |msg|
      ensures n == Length()
    {
      n := Wrap(WordAt(msg, 0) + HEAD_LEN);
    }

    method SetLength()
      requires 2 <= |msg|
      modifies this`msg
      ensures |msg| == old(|msg|) && msg[2..] == old(msg[2..])
      ensures Length() == Wrap(|msg|)
      ensures HEAD_LEN <= |msg| <= MAX_LEN ==> Framed(msg)
    {
      msg := Overwrite(msg, 0, WordBytes(Wrap(Wrap(|msg|) - HEAD_LEN)));
      WordRoundTrip(msg, 0, Wrap(Wrap(|msg|) - HEAD_LEN));
      WrapBack(|msg|, HEAD_LEN);
    }

    method SetType(t: UInt16)
      requires TYPE_BEGIN + 2 <= |msg|
      modifies this`msg
      ensures |msg| == old(|msg|) && WordAt(msg, TYPE_BEGIN) == t
      ensures msg[..TYPE_BEGIN] == old(msg[..TYPE_BEGIN])
      ensures msg[TYPE_BEGIN + 2..] == old(msg[TYPE_BEGIN + 2..])
    {
      msg := Overwrite(msg, TYPE_BEGIN, WordBytes(t));
      WordRoundTrip(msg, TYPE_BEGIN, t);
    }

    method GetType() returns (t: UInt16)
      requires TYPE_BEGIN + 2 <= |msg|
      ensures t == WordAt(msg, TYPE_BEGIN)
    {
      t := WordAt(msg, TYPE_BEGIN);
    }

    // ----- Building -----

    method ReWrite()
      modifies this`sendBegin, this`msg
      ensures sendBegin == 0 && msg == Zeros(HEAD_LEN)
    {
      sendBegin := 0;
      msg := [];
      msg := Resized(msg, HEAD_LEN);
    }

    /** Overwrites bytes in place; a range that does not fit is dropped. */
    method WriteAt(begin: UInt16, data: seq<Byte>)
      requires |data| < 0x1_0000
      modifies this`msg
      ensures |msg| == old(|msg|)
      ensures begin + |data| > |msg| ==> msg == old(msg)
      ensures begin + |data| <= |msg| ==> msg[begin..begin + |data|] == data
      ensures forall i :: 0 <= i < |msg| && !(begin <= i < begin + |data|) ==> msg[i] == old(msg)[i]
    {
      if begin + |data| > |msg| {
        return;
      }
      msg := Overwrite(msg, begin, data);
    }

    /** Appends bytes and refreshes the length field, which is then right modulo 0x10000. */
    method Write(data: seq<Byte>)
      requires 2 <= |msg| && |data| < 0x1_0000
      modifies this`msg
      ensures 2 <= |msg| && msg[2..] == old(msg[2..]) + data
      ensures Length() == Wrap(|msg|)
      ensures HEAD_LEN <= |msg| <= MAX_LEN ==> Framed(msg)
    {
      msg := msg + data;
      SetLength();
    }

    /** A string goes out as its length modulo 0x10000 and that many of its bytes. */
    method WriteString(val: seq<Byte>)
      requires 2 <= |msg|
      modifies this`msg
      ensures 2 <= |msg| && msg[2..] == old(msg[2..]) + (WordBytes(Wrap(|val|)) + val[..Wrap(|val|)])
      ensures Length() == Wrap(|msg|)
      ensures HEAD_LEN <= |msg| <= MAX_LEN ==> Framed(msg)
    {
      var length := Wrap(|val|);
      Write(WordBytes(length));
      if length > 0 {
        Write(val[..length]);
      }
    }

    // ----- Reading -----

    method ReRead()
      modifies this`readPos
      ensures readPos == HEAD_LEN
    {
      readPos := HEAD_LEN;
    }

    /** Moves length bytes into data when the message still holds that many, or does nothing. */
    method Read(data: array<Byte>, length: UInt16)
      requires length <= data.Length
      modifies this`readPos, data
      ensures data[length..] == old(data[length..])
      ensures old(readPos) + length <= |msg| ==>
        data[..length] == msg[old(readPos)..old(readPos) + length] && readPos == Wrap(old(readPos) + length)
      ensures old(readPos) + length > |msg| ==> data[..] == old(data[..]) && readPos == old(readPos)
    {
      if readPos + length > |msg| {
        return;
      }
      var p := readPos;
      for i := 0 to length
        invariant readPos == p && data[..i] == msg[p..p + i]
        invariant data[length..] == old(data[length..])
      {
        data[i] := msg[p + i];
      }
      readPos := Wrap(readPos + length);
    }

    /** str is the caller's string; r is what it holds afterwards. */
    method ReadString(str: seq<Byte>) returns (r: seq<Byte>)
      modifies this`readPos
      ensures (r, readPos) == TextFrom(msg, old(readPos), str)
      ensures var at := old(readPos);
        if at + 2 > |msg| then r == str && readPos == at
        else
          var len, body := msg[at] as int + 256 * msg[at + 1] as int, (at + 2) % 0x1_0000;
          if len == 0 || body + len > |msg| then r == str && readPos == body
          else r == msg[body..body + len] && readPos == (body + len) % 0x1_0000
    {
      var cell := new Byte[2](i => 0);
      ghost var at := readPos;
      Read(cell, 2);
      var len := WordAt(cell[..], 0);
      assert cell[..2] == cell[..];
      assert at + 2 > |msg| ==> len == 0;
      r := str;
      if len <= 0 {
        return;
      }
      if readPos + len > |msg| {
        return;
      }
      r := msg[readPos..readPos + len];
      readPos := Wrap(readPos + len);
    }

    // ----- Several fields -----

    /** A chain of << */
    method WriteFields(fields: seq<Field>)
      requires HEAD_LEN <= |msg| && forall i :: 0 <= i < |fields| && fields[i].Raw? ==> |fields[i].data| < 0x1_0000
      modifies this`msg
      ensures HEAD_LEN <= |msg| && msg[2..] == old(msg[2..]) + EncodeAll(fields)
      ensures msg[HEAD_LEN..] == old(msg[HEAD_LEN..]) + EncodeAll(fields)
      ensures fields != [] && |msg| <= MAX_LEN ==> Framed(msg)
      ensures fields == [] ==> msg == old(msg)
    {
      ghost var was, body := msg, msg[2..];
      var i := 0;
      while i < |fields|
        invariant 0 <= i <= |fields| && HEAD_LEN <= |msg|
        invariant msg[2..] == body + EncodeAll(fields[..i])
        invariant (i > 0 && |msg| <= MAX_LEN ==> Framed(msg)) && (i == 0 ==> msg == was)
      {
        WriteField(fields[i]);
        EncodeNext(body, fields, i);
        i := i + 1;
      }
      assert fields[..i] == fields;
      BodyGrows(was, msg, EncodeAll(fields));
    }

    method WriteField(f: Field)
      requires HEAD_LEN <= |msg| && (f.Raw? ==> |f.data| < 0x1_0000)
      modifies this`msg
      ensures HEAD_LEN <= |msg| && msg[2..] == old(msg[2..]) + Encode(f)
      ensures |msg| <= MAX_LEN ==> Framed(msg)
    {
      ghost var body := msg[2..];
      if f.Raw? {
        Write(f.data);
      } else {
        WriteString(f.data);
      }
      assert |msg[2..]| == |body| + |Encode(f)|;
    }

    /** A chain of >> into variables that hold slots before. */
    method ReadFields(slots: seq<Field>) returns (r: seq<Field>)
      requires forall i :: 0 <= i < |slots| && slots[i].Raw? ==> |slots[i].data| < 0x1_0000
      modifies this`readPos
      ensures r == ReadAll(msg, old(readPos), slots).0 && readPos == ReadAll(msg, old(readPos), slots).1
    {
      r := [];
      var i := 0;
      while i < |slots|
        invariant 0 <= i <= |slots|
        invariant ReadAll(msg, old(readPos), slots).0 == r + ReadAll(msg, readPos, slots[i..]).0
        invariant ReadAll(msg, old(readPos), slots).1 == ReadAll(msg, readPos, slots[i..]).1
      {
        assert slots[i..][1..] == slots[i + 1..] && slots[i..][0] == slots[i];
        ghost var pos := readPos;
        var f := ReadOne(slots[i]);
        ReadAllStep(msg, pos, slots[i..], f, readPos);
        assert r + ([f] + ReadAll(msg, readPos, slots[i + 1..]).0) == (r + [f]) + ReadAll(msg, readPos, slots[i + 1..]).0;
        r := r + [f];
        i := i + 1;
      }
    }

    /** A message built from its type and fields. */
    method Compose(t: UInt16, fields: seq<Field>)
      requires forall i :: 0 <= i < |fields| && fields[i].Raw? ==> |fields[i].data| < 0x1_0000
      requires HEAD_LEN + |EncodeAll(fields)| <= MAX_LEN
      modifies this`msg, this`sendBegin
      ensures sendBegin == 0 && Framed(msg) && WordAt(msg, TYPE_BEGIN) == t && msg[HEAD_LEN..] == EncodeAll(fields)
      ensures var n := |EncodeAll(fields)|; msg == [n % 256, n / 256, t % 256, t / 256] + EncodeAll(fields)
    {
      ReWrite();
      SetType(t);
      ghost var head := msg;
      assert msg[0] == msg[..2][0] == 0 && msg[1] == msg[..2][1] == 0;
      WriteFields(fields);
      assert |msg[2..]| == 2 + |EncodeAll(fields)|;
      assert msg[2] == msg[2..][0] == head[2..][0] == head[2];
      assert msg[3] == msg[2..][1] == head[2..][1] == head[3];
      assert head[HEAD_LEN..] == [];
      FrameLayout(msg, t);
    }

    /** A message written and read back on the class itself, type and all. */
    method WriteThenRead(t: UInt16, fields: seq<Field>, slots: seq<Field>) returns (got: UInt16, r: seq<Field>)
      requires Fits(slots, fields) && HEAD_LEN + |EncodeAll(fields)| <= MAX_LEN
      modifies this
      ensures got == t && r == AllArrive(slots, fields)
    {
      assert forall i :: 0 <= i < |fields| ==> Fit(slots[i], fields[i]);
      Compose(t, fields);
      ReRead();
      RoundTrip(msg, readPos, fields, slots);
      r := ReadFields(slots);
      got := GetType();
    }

    method ReadOne(slot: Field) returns (f: Field)
      requires slot.Raw? ==> |slot.data| < 0x1_0000
      modifies this`readPos
      ensures f == ReadField(msg, old(readPos), slot).0 && readPos == ReadField(msg, old(readPos), slot).1
    {
      match slot
      case Raw(data) =>
        var cell := new Byte[|data|](i requires 0 <= i < |data| => data[i]);
        assert cell[..] == data;
        Read(cell, |data|);
        assert cell[..] == cell[..|data|];
        f := Raw(cell[..]);
      case Text(data) =>
        var str := ReadString(data);
        f := Text(str);
    }

    // ----- Sending -----

    /** What the next sends will transmit. */
    function Pending(): seq<Byte>
      requires sendBegin <= |msg|
      reads this`sendBegin, this`msg
    {
      msg[sendBegin..]
    }

    method ReSend()
      modifies this`sendBegin
      ensures sendBegin == 0
    {
      sendBegin := 0;
    }

    method Copy(other: NetMessage)
      requires other.sendBegin <= |other.msg| && (other == this ==> sendBegin == 0)
      modifies this`msg, this`sendBegin
      ensures other != this ==> msg == other.Pending()
      ensures other == this ==> msg == []
      ensures sendBegin == 0
    {
      msg := [];
      var data := other.msg[other.sendBegin..];
      msg := data;
      sendBegin := 0;
    }

    /** Drops what is already sent and queues what the other message still has to send. */
    method Append(other: NetMessage)
      requires sendBegin <= |msg| && other.sendBegin <= |other.msg| && (other == this ==> sendBegin == 0)
      modifies this`msg, this`sendBegin
      ensures sendBegin <= |msg|
      ensures old(|msg|) >= MAX_LEN ==> msg == old(msg) && sendBegin == old(sendBegin)
      ensures old(|msg|) < MAX_LEN ==>
        sendBegin == 0 && Pending() == old(Pending()) + old(other.Pending())[..Wrap(|old(other.Pending())|)]
    {
      if |msg| >= MAX_LEN {
        return;
      }
      var dataLen := Wrap(|other.msg| - other.sendBegin);
      var data := other.msg[other.sendBegin..][..dataLen];
      msg := msg[sendBegin..];
      sendBegin := 0;
      msg := msg + data;
    }

    /** The cursor is a 16-bit number: past 0xFFFF it starts over. */
    method Send(sock: Socket) returns (len: int)
      requires sendBegin <= |msg|
      modifies this`sendBegin, sock
      ensures len == old(sock.Grant(|Pending()|))
      ensures len <= 0 ==> sock.outbox == old(sock.outbox) && sendBegin == old(sendBegin)
      ensures len > 0 ==> sock.outbox == old(sock.outbox) + old(Pending())[..len] && sendBegin == Wrap(old(sendBegin) + len)
      ensures sendBegin <= |msg|
      ensures sock.outbox + Pending() == old(sock.outbox + Pending()) <==> len <= 0 || old(sendBegin) + len <= MAX_LEN
      ensures sock.inbox == old(sock.inbox) && sock.again == old(sock.ErrnoAfter()) && sock.offers == old(sock.OffersAfter())
    {
      ghost var before := Pending();
      len := sock.send(msg[sendBegin..]);
      if len > 0 {
        sendBegin := Wrap(sendBegin + len);
        assert before == before[..len] + before[len..];
        assert |before| == |msg| - old(sendBegin);
      }
    }

    /** One send takes the piece that the next of the sizes gives. */
    method SendPiece(sock: Socket, ghost sizes: seq<nat>)
      requires sendBegin <= |msg| && sizes != [] && sizes == Sizes(sock.offers, |sizes|)
      modifies this`sendBegin, sock
      ensures sizes[1..] == Sizes(sock.offers, |sizes| - 1)
      ensures var n := Piece(msg, old(sendBegin), sizes[0]);
        sock.outbox == old(sock.outbox) + msg[old(sendBegin)..old(sendBegin) + n] && sendBegin == Wrap(old(sendBegin) + n)
      ensures sendBegin <= |msg| && sock.inbox == old(sock.inbox)
    {
      sock.GrantIsSize(|Pending()|, |sizes|);
      ghost var begin, n := sendBegin, Piece(msg, sendBegin, sizes[0]);
      assert Pending()[..n] == msg[begin..begin + n];
      var len := Send(sock);
      assert n == if len > 0 then len else 0;
      assert n == 0 ==> msg[begin..begin + n] == [] && Wrap(begin + n) == begin;
    }

    ghost function Sent(sock: Socket, rounds: nat): seq<Byte>
      requires sendBegin <= |msg|
      reads this`sendBegin, this`msg, sock`offers
    {
      Transmit(msg, sendBegin, Sizes(sock.offers, rounds)).0
    }

    ghost function Last(sock: Socket, rounds: nat): nat
      requires sendBegin <= |msg|
      reads this`sendBegin, this`msg, sock`offers
    {
      Transmit(msg, sendBegin, Sizes(sock.offers, rounds)).1
    }

    /** A number of sends in a row transmits the pieces that the cursor arithmetic gives. */
    method SendRepeatedly(sock: Socket, rounds: nat)
      requires sendBegin <= |msg|
      modifies this`sendBegin, sock
      ensures sock.outbox == old(sock.outbox) + old(Sent(sock, rounds)) && sendBegin == old(Last(sock, rounds))
      ensures sock.inbox == old(sock.inbox)
    {
      ghost var sizes := Sizes(sock.offers, rounds);
      var left := rounds;
      while left > 0
        invariant sendBegin <= |msg| && sock.inbox == old(sock.inbox)
        invariant |sizes| == left && sizes == Sizes(sock.offers, left)
        invariant sock.outbox + Transmit(msg, sendBegin, sizes).0 == old(sock.outbox + Sent(sock, rounds))
        invariant Transmit(msg, sendBegin, sizes).1 == old(Last(sock, rounds))
      {
        TransmitStep(sock.outbox, msg, sendBegin, sizes);
        SendPiece(sock, sizes);
        sizes := sizes[1..];
        left := left - 1;
      }
    }

    method SendDone() returns (flag: bool)
      modifies this`sendBegin
      ensures flag <==> old(sendBegin) >= |msg|
      ensures sendBegin == if flag then 0 else old(sendBegin)
    {
      flag := sendBegin >= |msg|;
      if flag {
        sendBegin := 0;
      }
    }

    // ----- Receiving -----

    /** The header is still coming in. */
    predicate Opening()
      reads this`msg, this`recvLen
    {
      recvLen < HEAD_LEN == |msg| && (recvLen < 2 ==> msg[1] == 0)
    }

    /** The buffer has the announced length, and room for what has been received. */
    predicate Receiving()
      reads this`msg, this`recvLen
    {
      Opening() || (HEAD_LEN <= recvLen <= |msg| == Announced(msg) && |msg| <= MAX_LEN)
    }

    /** The buffer holds a length field, and has the length that the field gives in 16 bits. */
    predicate Sized()
      reads this`msg, this`recvLen
    {
      Opening() || (HEAD_LEN <= recvLen && 2 <= |msg| == Length())
    }

    lemma SizedMeansReceiving()
      ensures Receiving() <==> Sized() && recvLen <= |msg|
    {
      if 2 <= |msg| {
        WrapsOnce(Announced(msg));
      }
    }

    /** The bytes received so far. */
    function Held(): seq<Byte>
      requires recvLen <= |msg|
      reads this`msg, this`recvLen
    {
      msg[..recvLen]
    }

    /** How many bytes Recv asks the socket for. */
    function Missing(): nat
      requires Receiving()
      reads this`msg, this`recvLen
    {
      if recvLen < HEAD_LEN then HEAD_LEN - recvLen else |msg| - recvLen
    }

    /** The bytes that recv wrote behind the received ones. */
    method Take(data: seq<Byte>)
      requires recvLen + |data| <= |msg| && recvLen + |data| <= MAX_LEN
      modifies this`msg, this`recvLen
      ensures |msg| == old(|msg|) && recvLen == old(recvLen) + |data|
      ensures Held() == old(Held()) + data
      ensures msg[recvLen..] == old(msg)[recvLen..]
    {
      msg := Overwrite(msg, recvLen, data);
      recvLen := recvLen + |data|;
      assert msg[..recvLen] == old(msg[..recvLen]) + data;
    }

    method RecvHead(sock: Socket) returns (len: int)
      requires Receiving() && recvLen < HEAD_LEN
      modifies this`msg, this`recvLen, sock
      ensures len == old(sock.Grant(if Missing() < |sock.inbox| then Missing() else |sock.inbox|))
      ensures recvLen == old(recvLen) + (if len > 0 then len else 0) <= HEAD_LEN
      ensures Granted(old(Held() + sock.inbox), sock.inbox)
      ensures sock.outbox == old(sock.outbox) && sock.again == old(sock.ErrnoAfter())
      ensures sock.offers == old(sock.OffersAfter())
    {
      ghost var stream := Held() + sock.inbox;
      var data;
      len, data := sock.recv(HEAD_LEN - recvLen);
      if len > 0 {
        Take(data);
      }
      assert Held() + sock.inbox == stream;
      if recvLen == HEAD_LEN {
        HeaderIn(stream, sock.inbox);
      } else {
        assert stream[..recvLen] == Held() && stream[recvLen..] == sock.inbox;
        assert recvLen < 2 ==> msg[1] == msg[recvLen..][1 - recvLen] == old(msg)[recvLen..][1 - recvLen] == 0;
      }
    }

    method HeaderIn(ghost stream: seq<Byte>, ghost inbox: seq<Byte>)
      requires recvLen == HEAD_LEN == |msg| && msg + inbox == stream
      modifies this`msg
      ensures Granted(stream, inbox)
    {
      assert stream[..HEAD_LEN] == msg && stream[HEAD_LEN..] == inbox;
      HeaderSurvives(msg);
      WrapsOnce(Announced(msg));
      var length := GetLength();
      msg := Resized(msg, length);
    }

    /** Where a Recv leaves this message: it has taken recvLen bytes of stream and left inbox. */
    ghost predicate Granted(stream: seq<Byte>, inbox: seq<Byte>)
      reads this`msg, this`recvLen
    {
      && recvLen <= |stream| && inbox == stream[recvLen..]
      && (recvLen < HEAD_LEN ==> Receiving())
      && (recvLen >= HEAD_LEN ==> (Receiving() <==> WordAt(stream, 0) <= 0xFFFB))
      && (recvLen >= HEAD_LEN ==> (Sized() <==> WordAt(stream, 0) !in {0xFFFC, 0xFFFD}))
      && (recvLen >= HEAD_LEN && WordAt(stream, 0) > 0xFFFB ==> |msg| == WordAt(stream, 0) - 0xFFFC)
      && (Receiving() ==> Held() == stream[..recvLen])
    }

    lemma GrantedFits(stream: seq<Byte>, inbox: seq<Byte>)
      requires Granted(stream, inbox) && (2 <= |stream| ==> Announced(stream) <= MAX_LEN)
      ensures Receiving() && Held() + inbox == stream && Announced(msg) <= MAX_LEN
      ensures 2 <= recvLen ==> recvLen <= Announced(Held()) <= MAX_LEN
    {
      assert stream == stream[..recvLen] + stream[recvLen..];
      assert 1 <= recvLen ==> msg[0] == stream[0];
      assert 2 <= recvLen ==> msg[1] == stream[1];
    }

    method RecvBody(sock: Socket, length: UInt16) returns (len: int)
      requires Receiving() && HEAD_LEN <= recvLen && length == |msg|
      modifies this`msg, this`recvLen, sock
      ensures Receiving()
      ensures len == old(sock.Grant(if Missing() < |sock.inbox| then Missing() else |sock.inbox|))
      ensures recvLen == old(recvLen) + (if len > 0 then len else 0)
      ensures Held() + sock.inbox == old(Held() + sock.inbox)
      ensures sock.outbox == old(sock.outbox) && sock.again == old(sock.ErrnoAfter())
      ensures sock.offers == old(sock.OffersAfter())
    {
      ghost var stream, was := Held() + sock.inbox, Held();
      var data;
      len, data := sock.recv(length - recvLen);
      if len > 0 {
        Take(data);
      }
      assert Held() + sock.inbox == stream;
      assert msg[0] == Held()[0] == was[0] && msg[1] == Held()[1] == was[1];
    }

    /**
      While the buffer has room for what was received: takes what the system grants of what is missing, and keeps
      it so except when the header that comes in announces too much.  Otherwise: reports the connection as closed.
      */
    method Recv(sock: Socket) returns (len: int)
      requires Sized()
      modifies this`msg, this`recvLen, sock
      ensures !old(Receiving()) ==>
        len == 0 && msg == old(msg) && recvLen == old(recvLen) && sock.inbox == old(sock.inbox)
      ensures old(Receiving()) ==>
        len == old(sock.Grant(if Missing() < |sock.inbox| then Missing() else |sock.inbox|)) &&
        recvLen == old(recvLen) + (if len > 0 then len else 0) &&
        Granted(old(Held() + sock.inbox), sock.inbox)
      ensures old(Receiving()) ==>
        var want := if old(recvLen) < 4 then 4 - old(recvLen) else |old(msg)| - old(recvLen);
        var arrived := |old(sock.inbox)|;
        var stream := old(msg)[..old(recvLen)] + old(sock.inbox);
        && len == old(sock.Grant(if want < arrived then want else arrived))
        && recvLen <= |stream| && sock.inbox == stream[recvLen..]
        && (recvLen < 4 || WordAt(stream, 0) <= 0xFFFB ==> recvLen <= |msg| && msg[..recvLen] == stream[..recvLen])
        && (old(recvLen) < 4 <= recvLen && WordAt(stream, 0) <= 0xFFFB ==> |msg| == WordAt(stream, 0) + 4)
        && (old(recvLen) < 4 <= recvLen && WordAt(stream, 0) > 0xFFFB ==> |msg| == WordAt(stream, 0) - 0xFFFC)
      ensures sock.outbox == old(sock.outbox)
      ensures old(Receiving()) ==> sock.again == old(sock.ErrnoAfter()) && sock.offers == old(sock.OffersAfter())
    {
      if recvLen < HEAD_LEN {
        len := RecvHead(sock);
        return;
      }
      var length := GetLength();
      if length < recvLen {
        return 0;
      }
      ghost var stream := Held() + sock.inbox;
      len := RecvBody(sock, length);
      assert stream[..recvLen] == Held() && stream[recvLen..] == sock.inbox;
      assert msg[0] == stream[0] && msg[1] == stream[1];
    }

    /** The 16-bit comparison, and what it means before the header is in and while the buffer has room. */
    method RecvDone() returns (done: bool)
      requires 2 <= |msg|
      ensures done <==> Length() == recvLen
      ensures Receiving() && Announced(msg) <= MAX_LEN ==> (done <==> Framed(Held()))
      ensures Receiving() && Announced(msg) > MAX_LEN ==> (done <==> Announced(msg) == 0x1_0000 + recvLen)
    {
      var length := GetLength();
      done := length == recvLen;
    }
  }
}
