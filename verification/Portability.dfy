/** What a host of either byte order gets out of a record that a host of either order wrote. */
module Portability {
  import opened Common
  import opened Bytes
  import opened Record
  import opened XmlText

  /** Bytes and sign of the integer types, which have the codes 2 to 7. */
  function Width(kind: Byte): nat
    requires 2 <= kind <= 7
  {
    if kind <= 3 then 1 else if kind <= 5 then 2 else 4
  }

  predicate Holds(kind: Byte, v: int)
    requires 2 <= kind <= 7
  {
    match kind
    case 2 => 0 <= v < 0x100
    case 3 => -0x80 <= v < 0x80
    case 4 => 0 <= v < 0x1_0000
    case 5 => -0x8000 <= v < 0x8000
    case 6 => 0 <= v < 0x1_0000_0000
    case _ => -0x8000_0000 <= v < 0x8000_0000
  }

  /** A number in the memory of a host: least significant byte first or last, negative ones in two's complement. */
  function Memory(o: Order, width: nat, v: int): (s: seq<Byte>)
    ensures |s| == width
  {
    if width == 0 then []
    else
      var b: Byte := v % 0x100;
      if o.Little? then [b] + Memory(o, width - 1, v / 0x100) else Memory(o, width - 1, v / 0x100) + [b]
  }

  /** The same name, type and value: integers as either host stores them, everything else byte for byte. */
  ghost predicate SameValue(o: Order, f: Field, n: Order, g: Field) {
    && f.name == g.name && f.kind == g.kind
    && if 2 <= f.kind <= 7 then exists v: int :: SameInteger(v, o, f, n, g) else f.content == g.content
  }

  predicate SameInteger(v: int, o: Order, f: Field, n: Order, g: Field)
    requires 2 <= f.kind <= 7
  {
    Holds(f.kind, v) && f.content == Memory(o, Width(f.kind), v) && g.content == Memory(n, Width(f.kind), v)
  }

  lemma MemoryIs(o: Order, v: int)
    ensures Memory(o, 1, v) == [v % 0x100]
    ensures var b0, b1 := v % 0x100, v / 0x100 % 0x100;
            Memory(o, 2, v) == if o.Little? then [b0, b1] else [b1, b0]
    ensures var b0, b1, b2, b3 := v % 0x100, v / 0x100 % 0x100, v / 0x100 / 0x100 % 0x100,
                                  v / 0x100 / 0x100 / 0x100 % 0x100;
            Memory(o, 4, v) == if o.Little? then [b0, b1, b2, b3] else [b3, b2, b1, b0]
  {
    assert Memory(o, 0, v / 0x100) == [];
    var v2 := v / 0x100 / 0x100;
    assert Memory(o, 1, v / 0x100) == [v / 0x100 % 0x100];
    assert Memory(o, 1, v2 / 0x100) == [v2 / 0x100 % 0x100];
    assert Memory(o, 2, v2) == if o.Little? then [v2 % 0x100, v2 / 0x100 % 0x100] else [v2 / 0x100 % 0x100, v2 % 0x100];
    assert Memory(o, 3, v / 0x100) == if o.Little? then [v / 0x100 % 0x100] + Memory(o, 2, v2)
                                      else Memory(o, 2, v2) + [v / 0x100 % 0x100];
  }

  /** A host of order `n` sees an integer of a record of order `o` as that host would have stored it. */
  lemma IntegerSeen(n: Order, o: Order, name: seq<Byte>, kind: Byte, v: int)
    requires 2 <= kind <= 7
    ensures Seen(n, o, Field(name, kind, Memory(n, Width(kind), v))) == Field(name, kind, Memory(o, Width(kind), v))
    ensures Wide(Field(name, kind, Memory(n, Width(kind), v)))
  {
    MemoryIs(n, v);
    MemoryIs(o, v);
    hide Memory;
    var c := Memory(n, Width(kind), v);
    assert c[|c|..] == [];
  }

  lemma OtherSeen(n: Order, o: Order, f: Field)
    requires !(2 <= f.kind <= 7)
    ensures Seen(n, o, f) == f && Wide(f)
  {
  }

  lemma ValueSeen(n: Order, o: Order, f: Field, g: Field)
    requires SameValue(o, f, n, g)
    ensures Seen(n, o, g) == f && Wide(g)
  {
    hide Seen, Wide, Memory;
    if 2 <= f.kind <= 7 {
      var v: int :| SameInteger(v, o, f, n, g);
      IntegerSeen(n, o, g.name, g.kind, v);
    } else {
      OtherSeen(n, o, g);
    }
  }

  /**
   * A record that one host wrote is read by another, of the same byte order or not, as the same names, types
   * and values, in order: integers as that host stores them, everything else byte for byte.
   */
  lemma RecordCarried(o: Order, fs: seq<Field>, n: Order, gs: seq<Field>)
    requires |fs| == |gs| && forall i :: 0 <= i < |fs| ==> SameValue(o, fs[i], n, gs[i])
    requires AllNulFree(fs) && forall i :: 0 <= i < |fs| ==> |fs[i].content| < U32_LIMIT
    ensures Decode(n, [Tag(o)] + EncodeFields(o, fs)) == Some(gs)
  {
    forall i | 0 <= i < |fs|
      ensures Seen(n, o, gs[i]) == fs[i] && Wide(gs[i]) && |gs[i].content| == |fs[i].content|
    {
      ValueSeen(n, o, fs[i], gs[i]);
    }
    assert SeenAll(n, o, gs) == fs;
    hide SameValue, Seen, Decode, Wide, NulFree;
    RecordRoundTrip(n, o, gs);
  }

  /** The integer a content stands for is the one that was stored. */
  lemma IntegerRead(n: Order, kind: Byte, v: int)
    requires 2 <= kind <= 7 && Holds(kind, v)
    ensures IntWidth(kind) == Width(kind) && IntOf(n, kind, Memory(n, Width(kind), v)) == v
  {
    MemoryIs(n, v);
    BytesJoined(v);
    hide Memory, Join, ToSigned;
    var u := ReadInt(n, Memory(n, Width(kind), v));
    if kind <= 3 {
      SignedOf(v, v / 0x100, u, 0x100);
    } else if kind <= 5 {
      SignedOf(v, v / 0x100 / 0x100, u, 0x1_0000);
    } else {
      SignedOf(v, v / 0x100 / 0x100 / 0x100 / 0x100, u, 0x1_0000_0000);
    }
  }

  /** A number less a multiple of the modulus, both within the range of the type, is that number. */
  lemma SignedOf(v: int, q: int, u: int, m: nat)
    requires m == 0x100 || m == 0x1_0000 || m == 0x1_0000_0000
    requires 0 <= u < m && u == v - q * m
    ensures -(m / 2) <= v < m / 2 ==> ToSigned(u, m) == v
    ensures 0 <= v < m ==> u == v
  {
    if m == 0x100 {
      assert u == v - q * 0x100;
    } else if m == 0x1_0000 {
      assert u == v - q * 0x1_0000;
    } else {
      assert u == v - q * 0x1_0000_0000;
    }
  }

  lemma BytesJoined(v: int)
    ensures v % 0x100 == v - v / 0x100 * 0x100
    ensures var v1 := v / 0x100;
            Join(v % 0x100, v1 % 0x100, 0, 0) == v - v1 / 0x100 * 0x1_0000
    ensures var v1, v2, v3 := v / 0x100, v / 0x100 / 0x100, v / 0x100 / 0x100 / 0x100;
            Join(v % 0x100, v1 % 0x100, v2 % 0x100, v3 % 0x100) == v - v3 / 0x100 * 0x1_0000_0000
  {
    var v1 := v / 0x100;
    var v2 := v1 / 0x100;
    var v3 := v2 / 0x100;
    assert v == v1 * 0x100 + v % 0x100 && v1 == v2 * 0x100 + v1 % 0x100;
    assert v2 == v3 * 0x100 + v2 % 0x100 && v3 == v3 / 0x100 * 0x100 + v3 % 0x100;
  }

  /** What put stores of an integer, wrapped around to its width, is seen by every host as what it would have put. */
  lemma PutIntegerSeen(n: Order, o: Order, name: seq<Byte>, kind: Byte, v: nat)
    ensures 2 <= kind <= 7 <==> IntWidth(kind) != 0
    ensures var w := IntWidth(kind);
            w != 0 ==> Seen(n, o, Field(name, kind, WriteInt(n, w, v))) == Field(name, kind, WriteInt(o, w, v))
  {
    if IntWidth(kind) != 0 {
      MemoryIs(n, v);
      MemoryIs(o, v);
      IntegerSeen(n, o, name, kind, v);
      hide Memory, Seen;
    }
  }

  /** A record with the u_int16 0x201 as "hp", in a file of either order, and what a host of either order reads. */
  lemma RecordBytes(n: Order, o: Order, block: seq<Byte>)
    // name, NUL, type, size and content
    requires block == if o.Little? then [104, 112, 0, 4, 2, 0, 0, 0, 1, 2] else [104, 112, 0, 4, 0, 0, 0, 2, 2, 1]
    ensures var f := Field([104, 112], T_UINT16, if n.Little? then [1, 2] else [2, 1]);
            var s := [if o.Little? then 76 else 66] + block;
            Encode(n, o, [f]) == s && Decode(n, s) == Some([f])
  {
    var f := Field([104, 112], T_UINT16, if n.Little? then [1, 2] else [2, 1]);
    var g := Field([104, 112], T_UINT16, if o.Little? then [1, 2] else [2, 1]);
    SampleSeen(n, o, f, g);
    OneBlock(o, g, block);
    hide Decode, EncodeField, Seen;
    assert SeenAll(n, o, [f]) == [g];
    assert EncodeFields(o, [g]) == EncodeField(o, g) + EncodeFields(o, []);
    hide EncodeFields;
    RecordRoundTrip(n, o, [f]);
  }

  lemma SampleSeen(n: Order, o: Order, f: Field, g: Field)
    requires f == Field([104, 112], T_UINT16, if n.Little? then [1, 2] else [2, 1])
    requires g == Field([104, 112], T_UINT16, if o.Little? then [1, 2] else [2, 1])
    ensures Seen(n, o, f) == g && Wide(f) && NulFree(f.name)
  {
  }

  lemma OneBlock(o: Order, f: Field, block: seq<Byte>)
    requires f == Field([104, 112], T_UINT16, if o.Little? then [1, 2] else [2, 1])
    requires block == if o.Little? then [104, 112, 0, 4, 2, 0, 0, 0, 1, 2] else [104, 112, 0, 4, 0, 0, 0, 2, 2, 1]
    ensures EncodeField(o, f) == block
  {
  }
}
