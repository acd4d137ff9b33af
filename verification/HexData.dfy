/** The hexadecimal printer and parser for raw memory, and the pointer wrappers on top of them. */
module HexData {
  import opened CStrings
  import opened Words

  const HEX := "0123456789abcdef"
  const POINTER_SIZE := 8  // sizeof(void *)

  // ----- Digits -----

  // The C code masks and shifts; on an unsigned char that is division and remainder by 16.
  lemma MasksAreDivision(u: bv8, h: bv8, l: bv8)
    requires h < 16 && l < 16
    ensures (u & 0xf0) >> 4 == u / 16 && u & 0xf == u % 16
    ensures (h << 4) | l == h * 16 + l
  {
  }

  function HighDigit(u: Byte): char {
    HEX[u / 16]
  }

  function LowDigit(u: Byte): char {
    HEX[u % 16]
  }

  predicate IsDigit(d: char) {
    '0' <= d <= '9' || 'a' <= d <= 'f'
  }

  function DigitValue(d: char): (v: int)
    requires IsDigit(d)
    ensures 0 <= v < 16
  {
    if d <= '9' then d as int - '0' as int else d as int - ('a' as int - 10)
  }

  function JoinDigits(d: char, e: char): Byte
    requires IsDigit(d) && IsDigit(e)
  {
    DigitValue(d) * 16 + DigitValue(e)
  }

  lemma DigitOfNibble(n: int)
    requires 0 <= n < 16
    ensures IsDigit(HEX[n]) && DigitValue(HEX[n]) == n
  {
  }

  lemma DigitOfValue(d: char)
    requires IsDigit(d)
    ensures HEX[DigitValue(d)] == d
  {
  }

  lemma DigitsOfByte(u: Byte)
    ensures IsDigit(HighDigit(u)) && IsDigit(LowDigit(u))
    ensures JoinDigits(HighDigit(u), LowDigit(u)) == u
  {
    DigitOfNibble(u / 16);
    DigitOfNibble(u % 16);
  }

  lemma ByteOfDigits(d: char, e: char)
    requires IsDigit(d) && IsDigit(e)
    ensures HighDigit(JoinDigits(d, e)) == d && LowDigit(JoinDigits(d, e)) == e
  {
    DigitOfValue(d);
    DigitOfValue(e);
    assert JoinDigits(d, e) / 16 == DigitValue(d) && JoinDigits(d, e) % 16 == DigitValue(e);
  }

  // ----- What a text and a block of memory have to do with each other -----

  function Print(data: seq<Byte>): (text: string)
    ensures |text| == 2 * |data|
  {
    if data == [] then [] else [HighDigit(data[0]), LowDigit(data[0])] + Print(data[1..])
  }

  /** Two lower-case hexadecimal digits a byte, the high one first. */
  lemma {:induction false} PrintIsHex(data: seq<Byte>, i: nat)
    requires i < |data|
    ensures Print(data)[2 * i] == "0123456789abcdef"[data[i] / 16]
    ensures Print(data)[2 * i + 1] == "0123456789abcdef"[data[i] % 16]
  {
    if i > 0 {
      PrintIsHex(data[1..], i - 1);
    }
  }

  function Parse(text: string): Option<seq<Byte>>
  {
    if text == [] then Some([])
    else if |text| == 1 || !IsDigit(text[0]) || !IsDigit(text[1]) then None
    else match Parse(text[2..])
      case None => None
      case Some(rest) => Some([JoinDigits(text[0], text[1])] + rest)
  }

  /** Printed memory parses back to the same bytes, for every length. */
  lemma {:induction false} ParsePrint(data: seq<Byte>)
    ensures Parse(Print(data)) == Some(data)
  {
    if data != [] {
      DigitsOfByte(data[0]);
      ParsePrint(data[1..]);
      ParseCons(HighDigit(data[0]), LowDigit(data[0]), Print(data[1..]));
      assert data == [data[0]] + data[1..];
    }
  }

  lemma ParseCons(d: char, e: char, rest: string)
    requires IsDigit(d) && IsDigit(e) && Parse(rest).Some?
    ensures Parse([d, e] + rest) == Some([JoinDigits(d, e)] + Parse(rest).value)
  {
    assert ([d, e] + rest)[2..] == rest;
  }

  predicate AllDigits(text: string) {
    forall i {:trigger text[i]} :: 0 <= i < |text| ==> IsDigit(text[i])
  }

  lemma AllDigitsStep(text: string)
    requires |text| > 1
    ensures AllDigits(text) <==> IsDigit(text[0]) && IsDigit(text[1]) && AllDigits(text[2..])
  {
    var rest := text[2..];
    assert forall i {:trigger rest[i]} :: 0 <= i < |rest| ==> rest[i] == text[i + 2];
    assert forall i {:trigger text[i]} :: 2 <= i < |text| ==> text[i] == rest[i - 2];
  }

  /** Exactly the even runs of digits parse. */
  lemma {:induction false} ParsesDigits(text: string)
    ensures Parse(text).Some? <==> |text| % 2 == 0 && AllDigits(text)
  {
    if |text| > 1 {
      ParsesDigits(text[2..]);
      AllDigitsStep(text);
    }
  }

  /** Whatever text parses is printed again character by character. */
  lemma {:induction false} PrintParse(text: string)
    requires Parse(text).Some?
    ensures Print(Parse(text).value) == text
  {
    if text != [] {
      PrintParse(text[2..]);
      var rest := Parse(text[2..]).value;
      PrintCons(text[0], text[1], rest);
      assert Parse(text).value == [JoinDigits(text[0], text[1])] + rest;
    }
  }

  lemma PrintCons(d: char, e: char, rest: seq<Byte>)
    requires IsDigit(d) && IsDigit(e)
    ensures Print([JoinDigits(d, e)] + rest) == [d, e] + Print(rest)
  {
    ByteOfDigits(d, e);
    var data := [JoinDigits(d, e)] + rest;
    assert data[0] == JoinDigits(d, e) && data[1..] == rest;
    assert Print(data) == [HighDigit(data[0]), LowDigit(data[0])] + Print(data[1..]);
  }

  lemma {:induction false} ParseSnoc(text: string, d: char, e: char)
    requires Parse(text).Some? && |text| % 2 == 0 && IsDigit(d) && IsDigit(e)
    ensures Parse(text + [d, e]) == Some(Parse(text).value + [JoinDigits(d, e)])
  {
    if text == [] {
      var whole := text + [d, e];
      assert whole[0] == d && whole[1] == e && whole[2..] == [];
      assert Parse(whole[2..]) == Some([]);
      assert Parse(text).value + [JoinDigits(d, e)] == [JoinDigits(d, e)] + [];
    } else {
      assert |text| > 1;
      assert (text + [d, e])[2..] == text[2..] + [d, e];
      ParseSnoc(text[2..], d, e);
      var first, rest := JoinDigits(text[0], text[1]), Parse(text[2..]).value;
      assert [first] + (rest + [JoinDigits(d, e)]) == [first] + rest + [JoinDigits(d, e)];
    }
  }

  lemma {:induction false} PrintSnoc(data: seq<Byte>, u: Byte)
    ensures Print(data + [u]) == Print(data) + [HighDigit(u), LowDigit(u)]
  {
    if data == [] {
      assert data + [u] == [u] && [u][1..] == [];
    } else {
      var first, rest := [HighDigit(data[0]), LowDigit(data[0])], Print(data[1..]);
      assert (data + [u])[1..] == data[1..] + [u];
      PrintSnoc(data[1..], u);
      assert Print(data + [u]) == first + (rest + [HighDigit(u), LowDigit(u)]);
    }
  }

  // ----- SWIG_PackData, SWIG_UnpackData -----

  /** The two digits of one byte. */
  method PackByte(c: array<char>, ghost at: nat, i: nat, u: Byte) returns (next: nat)
    requires at <= i && i + 2 <= c.Length
    modifies c
    ensures next == i + 2 && c[..at] == old(c[..at])
    ensures c[at..next] == old(c[at..i]) + [HighDigit(u), LowDigit(u)]
    ensures forall j :: next <= j < c.Length ==> c[j] == old(c[j])
  {
    c[i] := HighDigit(u);
    c[i + 1] := LowDigit(u);
    next := i + 2;
    assert c[at..next] == c[at..i] + [c[i], c[i + 1]];
  }

  method PackData(c: array<char>, at: nat, data: seq<Byte>) returns (next: nat)
    requires at + 2 * |data| <= c.Length
    modifies c
    ensures next == at + 2 * |data|
    ensures c[..] == old(c[..at]) + Print(data) + old(c[next..])
  {
    next := at;
    var u := 0;
    ghost var was := c[..];
    while u != |data|
      invariant 0 <= u <= |data| && next == at + 2 * u
      invariant c[..at] == was[..at]
      invariant c[at..next] == Print(data[..u])
      invariant forall j :: next <= j < c.Length ==> c[j] == was[j]
    {
      assert data[..u + 1] == data[..u] + [data[u]];
      PrintSnoc(data[..u], data[u]);
      next := PackByte(c, at, next, data[u]);
      u := u + 1;
    }
    assert data[..u] == data;
    assert c[..] == c[..at] + c[at..next] + c[next..];
  }

  /**
   * Reads sz bytes out of the C string stored at c[at..]. The ghost argument z is the offset of its terminator,
   * which is the only thing the C code relies on: nothing behind it is read.
   */
  method UnpackData(c: seq<char>, at: nat, ghost z: nat, u: array<Byte>, sz: nat)
    returns (next: Option<nat>, ghost stored: nat)
    requires at <= z < |c| && c[z] == '\0'
    requires sz <= u.Length
    modifies u
    ensures next.Some? <==> at + 2 * sz <= z && Parse(c[at..at + 2 * sz]).Some?
    ensures next.Some? ==> next.value == at + 2 * sz && stored == sz
    ensures stored <= sz && at + 2 * stored <= z && Parse(c[at..at + 2 * stored]) == Some(u[..stored])
    ensures u[stored..] == old(u[stored..])
  {
    var p, k := at, 0;
    stored := 0;
    while k != sz
      invariant 0 <= k <= sz && p == at + 2 * k <= z && stored == k
      invariant Parse(c[at..p]) == Some(u[..k])
      invariant forall j :: k <= j < u.Length ==> u[j] == old(u[j])
    {
      var d := c[p];
      if !IsDigit(d) {
        NotAllDigits(c, at, z, sz, p);
        return None, k;
      }
      var uu := DigitValue(d) * 16;
      d := c[p + 1];
      if !IsDigit(d) {
        NotAllDigits(c, at, z, sz, p + 1);
        return None, k;
      }
      uu := uu + DigitValue(d);
      ParseSnoc(c[at..p], c[p], d);
      TwoMore(c, at, p);
      ghost var before := u[..k];
      assert uu == JoinDigits(c[p], d);
      u[k] := uu;
      assert u[..k] == before && u[..k + 1] == u[..k] + [u[k]];
      p, k := p + 2, k + 1;
      stored := k;
    }
    return Some(p), sz;
  }

  lemma TwoMore(c: seq<char>, at: nat, p: nat)
    requires at <= p && p + 2 <= |c|
    ensures c[at..p + 2] == c[at..p] + [c[p], c[p + 1]]
  {
  }

  lemma NotAllDigits(c: seq<char>, at: nat, z: nat, sz: nat, p: nat)
    requires at <= p <= z < |c| && p < at + 2 * sz && !IsDigit(c[p])
    ensures at + 2 * sz <= z ==> Parse(c[at..at + 2 * sz]).None?
  {
    if at + 2 * sz <= z {
      ParsesDigits(c[at..at + 2 * sz]);
      assert c[at..at + 2 * sz][p - at] == c[p];
    }
  }

  // ----- The pointer wrappers -----

  /** The text form of a block of memory followed by a name: an underscore, the digits, the name. */
  function Text(data: seq<Byte>, name: string): string {
    ['_'] + Print(data) + name
  }

  /** What a wrapper hands back: nothing, its name argument, or the position behind the digits. */
  /** An underscore, the digits, and the name as it is. */
  lemma TextMeans(data: seq<Byte>, name: string)
    ensures |Text(data, name)| == 1 + 2 * |data| + |name| && Text(data, name)[0] == '_'
    ensures Text(data, name)[1..1 + 2 * |data|] == Print(data) && Text(data, name)[1 + 2 * |data|..] == name
  {
  }

  datatype Tail = Missing | NameArgument | Position(offset: nat)

  /** strcpy and strncpy(r, name, lname + 1): the characters and the terminator. */
  method CopyName(buff: array<char>, r: nat, name: string)
    requires r + |name| + 1 <= buff.Length
    modifies buff
    ensures buff[..] == old(buff[..r]) + name + ['\0'] + old(buff[r + |name| + 1..])
  {
    ghost var was := buff[..];
    var i := 0;
    while i < |name|
      invariant 0 <= i <= |name|
      invariant buff[r..r + i] == name[..i]
      invariant forall j :: 0 <= j < buff.Length && !(r <= j < r + i) ==> buff[j] == was[j]
    {
      assert buff[r..r + i] == name[..i];
      buff[r + i] := name[i];
      i := i + 1;
      assert buff[r..r + i] == name[..i - 1] + [name[i - 1]];
    }
    buff[r + |name|] := '\0';
    assert buff[r..r + |name|] == name;
    assert buff[..] == buff[..r] + buff[r..r + |name|] + ['\0'] + buff[r + |name| + 1..];
  }

  method PackVoidPtr(buff: array<char>, ptr: seq<Byte>, name: string, bsz: nat) returns (ok: bool)
    requires |ptr| == POINTER_SIZE && bsz <= buff.Length
    modifies buff
    ensures ok <==> |Text(ptr, name)| + 1 <= bsz
    ensures ok <==> 18 + |name| <= bsz
    ensures ok ==> buff[..] == Text(ptr, name) + ['\0'] + old(buff[|Text(ptr, name)| + 1..])
    ensures buff[bsz..] == old(buff[bsz..])
  {
    if 2 * POINTER_SIZE + 2 > bsz { return false; }
    buff[0] := '_';
    ghost var start := buff[..];
    var r := PackData(buff, 1, ptr);
    assert buff[..r] == ['_'] + Print(ptr);
    if |name| + 1 > bsz - r {
      return false;
    }
    CopyName(buff, r, name);
    ok := true;
  }

  /** The name, or the terminator alone. */
  method PutName(buff: array<char>, r: nat, name: Option<string>)
    requires r + (if name.Some? then |name.value| else 0) + 1 <= buff.Length
    modifies buff
    ensures var text := if name.Some? then name.value else [];
      buff[..] == old(buff[..r]) + text + ['\0'] + old(buff[r + |text| + 1..])
  {
    if name.Some? && |name.value| > 0 {
      CopyName(buff, r, name.value);
    } else {
      buff[r] := '\0';
    }
  }

  /** What a buffer that starts with head in place of its own first characters holds at both ends. */
  lemma PutBehind(was: seq<char>, head: seq<char>, n: nat)
    requires |head| + n + 1 <= |was| && head != [] && was[0] == head[0]
    ensures var now := was[..1] + head[1..] + was[|head|..];
      now[..|head|] == head && now[|head| + n + 1..] == was[|head| + n + 1..]
  {
  }

  method PackDataName(buff: array<char>, data: seq<Byte>, name: Option<string>, bsz: nat) returns (ok: bool)
    requires bsz <= buff.Length
    modifies buff
    ensures var text := Text(data, if name.Some? then name.value else []);
      && (ok <==> |text| + 1 <= bsz)
      && (ok ==> buff[..] == text + ['\0'] + old(buff[|text| + 1..]))
      && (!ok ==> buff[..] == old(buff[..]))
  {
    var lname := if name.Some? then |name.value| else 0;
    if 2 * |data| + 2 + lname > bsz { return false; }
    buff[0] := '_';
    ghost var was := buff[..];
    var r := PackData(buff, 1, data);
    PutBehind(was, ['_'] + Print(data), lname);
    PutName(buff, r, name);
    ok := true;
  }

  /** SWIG_UnpackVoidPtr is this with sz = POINTER_SIZE; the zeroing of a NULL is memset or a null assignment. */
  method UnpackDataName(c: seq<char>, ghost z: nat, u: array<Byte>, sz: nat) returns (tail: Tail)
    requires z < |c| && c[z] == '\0' && '\0' !in c[..z]
    requires sz <= u.Length
    modifies u
    ensures tail.Position? <==> c[0] == '_' && 1 + 2 * sz <= z && Parse(c[1..1 + 2 * sz]).Some?
    ensures tail.Position? ==> tail.offset == 1 + 2 * sz && u[..sz] == Parse(c[1..1 + 2 * sz]).value
    ensures tail.NameArgument? <==> c[..z] == "NULL"
    ensures tail.NameArgument? ==> forall j :: 0 <= j < sz ==> u[j] == 0
    ensures u[sz..] == old(u[sz..])
  {
    if c[0] != '_' {
      var isNull := StringEquals(c, z, "NULL");
      if isNull {
        var j := 0;
        while j < sz
          invariant 0 <= j <= sz
          invariant forall k :: 0 <= k < j ==> u[k] == 0
          invariant u[sz..] == old(u[sz..])
        {
          u[j] := 0;
          j := j + 1;
        }
        return NameArgument;
      }
      return Missing;
    }
    assert z != 0;
    assert c[..z][0] == '_';
    var next;
    ghost var stored;
    next, stored := UnpackData(c, 1, z, u, sz);
    tail := if next.Some? then Position(next.value) else Missing;
  }

  /** strcmp(c, s) == 0 for a literal s without NULs. */
  method StringEquals(c: seq<char>, ghost z: nat, s: string) returns (same: bool)
    requires z < |c| && c[z] == '\0' && '\0' !in c[..z] && '\0' !in s
    ensures same <==> c[..z] == s
  {
    var i := 0;
    while i < |s|
      invariant 0 <= i <= |s| && i <= z
      invariant c[..i] == s[..i]
    {
      if c[i] != s[i] {
        assert i < z ==> c[..z][i] != s[i];
        return false;
      }
      assert i != z;
      i := i + 1;
    }
    assert i < z ==> c[..z][i] != '\0';
    assert s[..i] == s;
    same := c[i] == '\0';
  }

  /** What was packed unpacks to the same memory, and the text behind the digits is the name. */
  lemma TextRoundTrip(data: seq<Byte>, name: string, rest: seq<char>)
    requires '\0' !in name
    ensures var c, z := Text(data, name) + ['\0'] + rest, |Text(data, name)|;
      && c[z] == '\0' && '\0' !in c[..z]
      && c[0] == '_' && Parse(c[1..1 + 2 * |data|]) == Some(data)
      && c[1 + 2 * |data|..z] == name
  {
    var c, z := Text(data, name) + ['\0'] + rest, |Text(data, name)|;
    assert c[1..1 + 2 * |data|] == Print(data);
    ParsePrint(data);
    ParsesDigits(Print(data));
    assert c[..z] == ['_'] + Print(data) + name;
    assert '\0' !in Print(data);
  }
}
