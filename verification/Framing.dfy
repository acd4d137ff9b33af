/** The byte stream that frames make, and how a stream is cut back into frames. */
module Framing {
  import opened Words

  const MAX_LEN := 0xFFFF
  const HEAD_LEN := 4
  const TYPE_BEGIN := 2

  /** The frame length that the length field of s announces, before it is cut to 16 bits. */
  function Announced(s: seq<Byte>): nat
    requires 2 <= |s|
  {
    WordAt(s, 0) + HEAD_LEN
  }

  /** s is one whole frame. */
  predicate Framed(s: seq<Byte>) {
    2 <= |s| <= MAX_LEN && |s| == Announced(s)
  }

  /** A frame byte by byte: length of the body, type, body. */
  lemma FrameLayout(s: seq<Byte>, t: UInt16)
    requires Framed(s) && WordAt(s, TYPE_BEGIN) == t
    ensures var n := |s| - 4; 0 <= n && s == [n % 256, n / 256, t % 256, t / 256] + s[4..]
  {
  }

  predicate AllFramed(frames: seq<seq<Byte>>) {
    forall i :: 0 <= i < |frames| ==> Framed(frames[i])
  }

  function Joined(frames: seq<seq<Byte>>): seq<Byte> {
    if frames == [] then [] else frames[0] + Joined(frames[1..])
  }

  lemma {:induction false} JoinedAppend(frames: seq<seq<Byte>>, more: seq<seq<Byte>>)
    ensures Joined(frames + more) == Joined(frames) + Joined(more)
  {
    if frames == [] {
      assert frames + more == more;
    } else {
      assert (frames + more)[1..] == frames[1..] + more;
      JoinedAppend(frames[1..], more);
    }
  }

  // ----- Cutting a stream -----

  predicate Starts(s: seq<Byte>) {
    2 <= |s| && Announced(s) <= |s|
  }

  /** No header in s announces a frame whose length overflows 16 bits. */
  predicate Clear(s: seq<Byte>)
    decreases |s|
  {
    2 <= |s| ==> Announced(s) <= MAX_LEN && (Starts(s) ==> Clear(s[Announced(s)..]))
  }

  /** The whole frames at the front of s. */
  function Frames(s: seq<Byte>): seq<seq<Byte>>
    decreases |s|
  {
    if Starts(s) then [s[..Announced(s)]] + Frames(s[Announced(s)..]) else []
  }

  /** What follows the last whole frame of s. */
  function Rest(s: seq<Byte>): seq<Byte>
    decreases |s|
  {
    if Starts(s) then Rest(s[Announced(s)..]) else s
  }

  /** Cutting loses nothing, stops only short of a whole frame, and yields frames. */
  lemma CutIsComplete(s: seq<Byte>)
    ensures Joined(Frames(s)) + Rest(s) == s
    ensures !Starts(Rest(s))
    ensures Clear(s) ==> AllFramed(Frames(s)) && Clear(Rest(s))
  {
    CutCovers(s);
    CutStops(s);
    if Clear(s) {
      CutFrames(s);
    }
  }

  lemma {:induction false} CutCovers(s: seq<Byte>)
    ensures Joined(Frames(s)) + Rest(s) == s
    decreases |s|
  {
    if Starts(s) {
      var f, tail := s[..Announced(s)], s[Announced(s)..];
      CutCovers(tail);
      JoinedCons(f, Frames(tail));
      Associative(f, Joined(Frames(tail)), Rest(tail));
      assert s == f + tail;
    }
  }

  lemma {:induction false} CutStops(s: seq<Byte>)
    ensures !Starts(Rest(s)) && (Clear(s) ==> Clear(Rest(s)))
    decreases |s|
  {
    if Starts(s) {
      CutStops(s[Announced(s)..]);
    }
  }

  lemma {:induction false} CutFrames(s: seq<Byte>)
    requires Clear(s)
    ensures AllFramed(Frames(s))
    decreases |s|
  {
    if Starts(s) {
      CutFrames(s[Announced(s)..]);
      assert Announced(s[..Announced(s)]) == Announced(s);
    }
  }

  lemma JoinedCons(f: seq<Byte>, frames: seq<seq<Byte>>)
    ensures Joined([f] + frames) == f + Joined(frames)
  {
    assert ([f] + frames)[1..] == frames;
  }

  /** A stream can be cut piece by piece: only the unfinished rest is carried along. */
  lemma {:induction false} CutContinues(s: seq<Byte>, t: seq<Byte>)
    ensures Frames(s + t) == Frames(s) + Frames(Rest(s) + t)
    ensures Rest(s + t) == Rest(Rest(s) + t)
    ensures Clear(s + t) <==> Clear(s) && Clear(Rest(s) + t)
    decreases |s|
  {
    if Starts(s) {
      var n := Announced(s);
      CutContinues(s[n..], t);
      assert Announced(s + t) == n && (s + t)[..n] == s[..n] && (s + t)[n..] == s[n..] + t;
    } else if 2 <= |s| {
      assert Announced(s + t) == Announced(s);
    }
  }

  lemma AtMostOneFrame(s: seq<Byte>)
    requires 2 <= |s| ==> |s| <= Announced(s) <= MAX_LEN
    ensures Framed(s) ==> Frames(s) == [s] && Rest(s) == []
    ensures !Framed(s) ==> Frames(s) == [] && Rest(s) == s
  {
    if Framed(s) {
      assert s[..Announced(s)] == s && s[Announced(s)..] == [];
    }
  }

  /** Frames are recovered from their concatenation, and no other frames have that concatenation. */
  lemma {:induction false} FramesOfJoined(frames: seq<seq<Byte>>, s: seq<Byte>)
    requires AllFramed(frames) && s <= Joined(frames)
    ensures Clear(s) && Frames(s) <= frames
    ensures s == Joined(frames) ==> Frames(s) == frames && Rest(s) == []
  {
    if frames != [] {
      var f, tail := frames[0], frames[1..];
      assert Joined(frames) == f + Joined(tail);
      if |f| <= |s| {
        assert s[..|f|] == f && s[|f|..] <= Joined(tail);
        assert Announced(s) == Announced(f) == |f|;
        FramesOfJoined(tail, s[|f|..]);
      } else {
        assert s == f[..|s|];
        assert 2 <= |s| ==> Announced(s) == Announced(f);
      }
    }
  }

  lemma JoinedPrefix(frames: seq<seq<Byte>>, others: seq<seq<Byte>>)
    requires frames <= others
    ensures Joined(frames) <= Joined(others)
  {
    assert others == frames + others[|frames|..];
    JoinedAppend(frames, others[|frames|..]);
  }

  lemma JoinedIsInjective(frames: seq<seq<Byte>>, others: seq<seq<Byte>>)
    requires AllFramed(frames) && AllFramed(others)
    ensures Joined(frames) <= Joined(others) <==> frames <= others
  {
    var stream := Joined(frames);
    FramesOfJoined(frames, stream);
    if stream <= Joined(others) {
      FramesOfJoined(others, stream);
    }
    if frames <= others {
      JoinedPrefix(frames, others);
    }
  }

  // ----- A complete header -----

  /** The receive buffer once the header is in: resized to the announced length, cut to 16 bits. */
  function AfterHeader(header: seq<Byte>): seq<Byte>
    requires |header| == HEAD_LEN
  {
    Resized(header, Wrap(Announced(header)))
  }

  /** The buffer has room for the header, and so still holds the length field, exactly up to 0xFFFB. */
  lemma HeaderSurvives(header: seq<Byte>)
    requires |header| == HEAD_LEN
    ensures header <= AfterHeader(header) <==> WordAt(header, 0) <= 0xFFFB
    ensures WordAt(header, 0) <= 0xFFFB <==> |AfterHeader(header)| == Announced(header)
    ensures |AfterHeader(header)| < 2 <==> WordAt(header, 0) in {0xFFFC, 0xFFFD}
  {
    var field := WordAt(header, 0);
    if field > 0xFFFB {
      assert Wrap(Announced(header)) == field - 0xFFFC;
    }
  }

  /** Fields 0xFFFC and 0xFFFD lose the length field itself; 0xFFFE and 0xFFFF the type. */
  lemma OverflowingHeaders(type_: UInt16)
    ensures AfterHeader(WordBytes(0xFFFC) + WordBytes(type_)) == []
    ensures AfterHeader(WordBytes(0xFFFD) + WordBytes(type_)) == [0xFD]
    ensures AfterHeader(WordBytes(0xFFFE) + WordBytes(type_)) == WordBytes(0xFFFE)
    ensures AfterHeader(WordBytes(0xFFFF) + WordBytes(type_)) == WordBytes(0xFFFF) + [type_ % 256]
  {
  }

  // ----- The 16-bit send cursor -----

  /** How much of the buffer a send of at most size takes. */
  function Piece(buffer: seq<Byte>, begin: nat, size: nat): (n: nat)
    requires begin <= |buffer|
    ensures begin + n <= |buffer|
  {
    if size < |buffer| - begin then size else |buffer| - begin
  }

  /** The bytes that sends of the given sizes transmit, and the cursor they leave. */
  function Transmit(buffer: seq<Byte>, begin: nat, sizes: seq<nat>): (r: (seq<Byte>, nat))
    requires begin <= |buffer|
    ensures r.1 <= |buffer|
    decreases |sizes|
  {
    if sizes == [] then ([], begin) else
      var n := Piece(buffer, begin, sizes[0]);
      var (sent, last) := Transmit(buffer, Wrap(begin + n), sizes[1..]);
      (buffer[begin..begin + n] + sent, last)
  }

  /** A transmission behind what is sent already, one piece further on. */
  lemma TransmitStep(before: seq<Byte>, buffer: seq<Byte>, begin: nat, sizes: seq<nat>)
    requires begin <= |buffer| && sizes != []
    ensures var n := Piece(buffer, begin, sizes[0]);
      before + Transmit(buffer, begin, sizes).0
        == before + buffer[begin..begin + n] + Transmit(buffer, Wrap(begin + n), sizes[1..]).0 &&
      Transmit(buffer, begin, sizes).1 == Transmit(buffer, Wrap(begin + n), sizes[1..]).1
  {
    var n := Piece(buffer, begin, sizes[0]);
    Associative(before, buffer[begin..begin + n], Transmit(buffer, Wrap(begin + n), sizes[1..]).0);
  }

  predicate Conserves(buffer: seq<Byte>, begin: nat, sizes: seq<nat>)
    requires begin <= |buffer|
  {
    var (sent, last) := Transmit(buffer, begin, sizes);
    sent + buffer[last..] == buffer[begin..]
  }

  lemma {:induction false} ShortBufferConserves(buffer: seq<Byte>, begin: nat, sizes: seq<nat>)
    requires begin <= |buffer| <= MAX_LEN
    ensures Conserves(buffer, begin, sizes)
    decreases |sizes|
  {
    if sizes != [] {
      var next := begin + Piece(buffer, begin, sizes[0]);
      WrapSmall(next);
      ShortBufferConserves(buffer, next, sizes[1..]);
      var (sent, last) := Transmit(buffer, next, sizes[1..]);
      Associative(buffer[begin..next], sent, buffer[last..]);
      assert buffer[begin..] == buffer[begin..next] + buffer[next..];
    }
  }

  /** A buffer survives every segmentation of its sends exactly when it fits the cursor. */
  lemma BufferSurvives(buffer: seq<Byte>)
    ensures (forall sizes: seq<nat> :: Conserves(buffer, 0, sizes)) <==> |buffer| <= MAX_LEN
  {
    if |buffer| <= MAX_LEN {
      forall sizes: seq<nat>
        ensures Conserves(buffer, 0, sizes)
      {
        ShortBufferConserves(buffer, 0, sizes);
      }
    } else {
      var sizes: seq<nat> := [|buffer|];
      var n := Wrap(|buffer|);
      assert Transmit(buffer, n, sizes[1..]) == ([], n as nat);
      assert Transmit(buffer, 0, sizes).0 + buffer[n..] == buffer[0..|buffer|] + [] + buffer[n..];
      assert !Conserves(buffer, 0, sizes);
    }
  }
}
