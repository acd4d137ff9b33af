/** Bytes, and the unsigned 16-bit words stored in them with the low byte first. */
module Words {

  type Byte = u: int | 0 <= u < 256

  type UInt16 = w: int | 0 <= w < 0x1_0000

  /** What a uint16 variable holds after n is assigned to it. */
  function Wrap(n: int): UInt16 {
    n % 0x1_0000
  }

  lemma WrapSmall(n: nat)
    requires n < 0x1_0000
    ensures Wrap(n) == n
  {
  }

  lemma WrapsOnce(n: nat)
    requires n < 0x2_0000
    ensures Wrap(n) == if n < 0x1_0000 then n else n - 0x1_0000
  {
  }

  /** Storing a length less d and adding d back on is harmless in 16 bits. */
  lemma WrapBack(n: nat, d: nat)
    requires d < 0x1_0000
    ensures Wrap(Wrap(Wrap(n) - d) + d) == Wrap(n)
    ensures d <= n < 0x1_0000 ==> Wrap(Wrap(n) - d) == n - d
  {
    if Wrap(n) < d {
      assert Wrap(Wrap(n) - d) == Wrap(n) - d + 0x1_0000;
    }
  }

  function WordBytes(w: UInt16): seq<Byte> {
    [w % 256, w / 256]
  }

  function WordAt(s: seq<Byte>, i: nat): UInt16
    requires i + 2 <= |s|
  {
    s[i] as int + 256 * (s[i + 1] as int)
  }

  /** The low byte comes first. */
  lemma LowByteFirst(low: Byte, high: Byte)
    ensures WordBytes(low + 256 * high) == [low, high] && WordAt([low, high], 0) == low + 256 * high
  {
  }

  function Zeros(n: nat): (s: seq<Byte>)
    ensures |s| == n && forall i :: 0 <= i < n ==> s[i] == 0
  {
    seq(n, i => 0)
  }

  /** std::string::resize */
  function Resized(s: seq<Byte>, n: nat): (r: seq<Byte>)
    ensures |r| == n && forall i :: 0 <= i < n ==> r[i] == if i < |s| then s[i] else 0
  {
    if n <= |s| then s[..n] else s + Zeros(n - |s|)
  }

  /** s with data copied over it from offset i. */
  function Overwrite(s: seq<Byte>, i: nat, data: seq<Byte>): (r: seq<Byte>)
    requires i + |data| <= |s|
    ensures |r| == |s| && r[..i] == s[..i] && r[i..i + |data|] == data
    ensures r[i + |data|..] == s[i + |data|..]
  {
    s[..i] + data + s[i + |data|..]
  }

  lemma Associative(a: seq<Byte>, b: seq<Byte>, c: seq<Byte>)
    ensures a + b + c == a + (b + c)
  {
  }

  lemma WordRoundTrip(s: seq<Byte>, i: nat, w: UInt16)
    requires i + 2 <= |s| && s[i..i + 2] == WordBytes(w)
    ensures WordAt(s, i) == w
  {
    assert s[i..i + 2][0] == s[i] && s[i..i + 2][1] == s[i + 1];
  }
}
