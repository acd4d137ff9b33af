/** The fields of a message body: raw values of fixed size and length-prefixed strings. */
module Fields {
  import opened Words

  /** A field to write, or a variable to read into together with what it holds before. */
  datatype Field = Raw(data: seq<Byte>) | Text(data: seq<Byte>)

  function Encode(f: Field): seq<Byte> {
    match f
    case Raw(data) => data
    case Text(data) => WordBytes(Wrap(|data|)) + data[..Wrap(|data|)]
  }

  function EncodeAll(fields: seq<Field>): seq<Byte> {
    if fields == [] then [] else Encode(fields[0]) + EncodeAll(fields[1..])
  }

  lemma {:induction false} EncodeAppend(fields: seq<Field>, f: Field)
    ensures EncodeAll(fields + [f]) == EncodeAll(fields) + Encode(f)
  {
    if fields == [] {
      assert [f][1..] == [];
    } else {
      assert (fields + [f])[1..] == fields[1..] + [f];
      EncodeAppend(fields[1..], f);
    }
  }

  lemma EncodeNext(body: seq<Byte>, fields: seq<Field>, i: nat)
    requires i < |fields|
    ensures body + EncodeAll(fields[..i]) + Encode(fields[i]) == body + EncodeAll(fields[..i + 1])
  {
    assert fields[..i + 1] == fields[..i] + [fields[i]];
    EncodeAppend(fields[..i], fields[i]);
  }

  // ----- Reading from a cursor -----

  function TextFrom(msg: seq<Byte>, pos: UInt16, old_: seq<Byte>): (seq<Byte>, UInt16) {
    if pos + 2 > |msg| then (old_, pos) else
      var len, p := WordAt(msg, pos), Wrap(pos + 2);
      if len == 0 || p + len > |msg| then (old_, p) else (msg[p..p + len], Wrap(p + len))
  }

  function RawFrom(msg: seq<Byte>, pos: UInt16, old_: seq<Byte>): (seq<Byte>, UInt16) {
    if pos + |old_| > |msg| then (old_, pos) else (msg[pos..pos + |old_|], Wrap(pos + |old_|))
  }

  function ReadField(msg: seq<Byte>, pos: UInt16, slot: Field): (Field, UInt16) {
    match slot
    case Raw(data) => var (r, p) := RawFrom(msg, pos, data); (Raw(r), p)
    case Text(data) => var (r, p) := TextFrom(msg, pos, data); (Text(r), p)
  }

  function ReadAll(msg: seq<Byte>, pos: UInt16, slots: seq<Field>): (seq<Field>, UInt16)
    decreases |slots|
  {
    if slots == [] then ([], pos) else
      var (first, p) := ReadField(msg, pos, slots[0]);
      var (others, q) := ReadAll(msg, p, slots[1..]);
      ([first] + others, q)
  }

  lemma ReadAllStep(msg: seq<Byte>, pos: UInt16, slots: seq<Field>, first: Field, next: UInt16)
    requires slots != [] && ReadField(msg, pos, slots[0]).0 == first && ReadField(msg, pos, slots[0]).1 == next
    ensures ReadAll(msg, pos, slots).0 == [first] + ReadAll(msg, next, slots[1..]).0
    ensures ReadAll(msg, pos, slots).1 == ReadAll(msg, next, slots[1..]).1
  {
  }

  // ----- Round trip -----

  predicate Fit(slot: Field, f: Field) {
    slot.Raw? == f.Raw? && (f.Raw? ==> |slot.data| == |f.data| < 0x1_0000)
  }

  /** The reader asks for the kinds and sizes that the writer wrote. */
  predicate Fits(slots: seq<Field>, fields: seq<Field>) {
    |slots| == |fields| &&
    forall i :: 0 <= i < |slots| ==> Fit(slots[i], fields[i])
  }

  /** A string that writes no bytes leaves the variable alone; longer strings lose whole multiples of 0x10000. */
  function Arrives(slot: Field, f: Field): Field {
    match f
    case Raw(_) => f
    case Text(data) => if Wrap(|data|) == 0 then slot else Text(data[..Wrap(|data|)])
  }

  function AllArrive(slots: seq<Field>, fields: seq<Field>): (r: seq<Field>)
    requires |slots| == |fields|
    ensures |r| == |fields| && forall i :: 0 <= i < |r| ==> r[i] == Arrives(slots[i], fields[i])
    decreases |fields|
  {
    if fields == [] then [] else [Arrives(slots[0], fields[0])] + AllArrive(slots[1..], fields[1..])
  }

  /** A read returns bytes of the message between the old and the new cursor, or changes no variable. */
  lemma ReadStaysInside(msg: seq<Byte>, pos: UInt16, slot: Field)
    requires pos <= |msg| < 0x1_0000
    ensures var (r, p) := ReadField(msg, pos, slot);
      pos <= p <= |msg| && (r == slot || (|r.data| <= p - pos && r.data == msg[p - |r.data|..p]))
  {
    match slot
    case Raw(data) =>
      if pos + |data| <= |msg| {
        WrapSmall(pos + |data|);
      }
    case Text(data) =>
      if pos + 2 <= |msg| {
        WrapSmall(pos + 2);
        var len := WordAt(msg, pos);
        if pos + 2 + len <= |msg| {
          WrapSmall(pos + 2 + len);
        }
      }
  }

  lemma FieldRoundTrip(msg: seq<Byte>, pos: UInt16, f: Field, slot: Field)
    requires pos <= |msg| < 0x1_0000 && Encode(f) <= msg[pos..]
    requires Fit(slot, f)
    ensures ReadField(msg, pos, slot).0 == Arrives(slot, f)
    ensures ReadField(msg, pos, slot).1 == pos + |Encode(f)|
  {
    var e := Encode(f);
    assert msg[pos..pos + |e|] == e;
    WrapSmall(pos + |e|);
    if f.Text? {
      WrapSmall(pos + 2);
      assert msg[pos..pos + 2] == e[..2] == WordBytes(Wrap(|f.data|));
      WordRoundTrip(msg, pos, Wrap(|f.data|));
      assert msg[pos + 2..pos + |e|] == e[2..];
    }
  }

  lemma PrefixSplits(a: seq<Byte>, b: seq<Byte>, s: seq<Byte>)
    requires a + b <= s
    ensures a <= s && b <= s[|a|..]
  {
    assert s[..|a + b|] == a + b;
    assert s[|a|..][..|b|] == b;
  }

  /** Reading back what was written, in order, ends right behind it. */
  lemma {:induction false} RoundTrip(msg: seq<Byte>, pos: UInt16, fields: seq<Field>, slots: seq<Field>)
    requires pos <= |msg| < 0x1_0000 && EncodeAll(fields) <= msg[pos..]
    requires Fits(slots, fields)
    ensures ReadAll(msg, pos, slots).0 == AllArrive(slots, fields)
    ensures ReadAll(msg, pos, slots).1 == pos + |EncodeAll(fields)|
    decreases |fields|
  {
    if fields != [] {
      var e := Encode(fields[0]);
      PrefixSplits(e, EncodeAll(fields[1..]), msg[pos..]);
      assert msg[pos..][|e|..] == msg[pos + |e|..];
      FieldRoundTrip(msg, pos, fields[0], slots[0]);
      var p: UInt16 := pos + |e|;
      RoundTrip(msg, p, fields[1..], slots[1..]);
      ReadAllStep(msg, pos, slots, Arrives(slots[0], fields[0]), p);
    }
  }

  /** A string whose length is a multiple of 0x10000 must be in the variable already; others must be short. */
  predicate Faithful(slot: Field, f: Field) {
    f.Text? ==> if Wrap(|f.data|) == 0 then slot.data == f.data else |f.data| < 0x1_0000
  }

  lemma ArrivesExactly(slot: Field, f: Field)
    requires Fit(slot, f)
    ensures Arrives(slot, f) == f <==> Faithful(slot, f)
  {
    if f.Text? && |f.data| < 0x1_0000 {
      assert f.data[..|f.data|] == f.data;
    }
  }

  /** The fields come back unchanged exactly when every one of them is faithful. */
  lemma FieldsReturnExactly(msg: seq<Byte>, pos: UInt16, fields: seq<Field>, slots: seq<Field>)
    requires pos <= |msg| < 0x1_0000 && EncodeAll(fields) <= msg[pos..]
    requires Fits(slots, fields)
    ensures ReadAll(msg, pos, slots).0 == fields <==> forall i :: 0 <= i < |fields| ==> Faithful(slots[i], fields[i])
  {
    RoundTrip(msg, pos, fields, slots);
    var r := AllArrive(slots, fields);
    forall i | 0 <= i < |fields|
      ensures r[i] == fields[i] <==> Faithful(slots[i], fields[i])
    {
      ArrivesExactly(slots[i], fields[i]);
    }
  }
}
