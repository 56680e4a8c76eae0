/** The byte layout of a record: what `flat` writes and what `parse` reads back. */
module Record {
  import opened Common
  import opened Bytes

  // Codes of the field types.
  const T_UNKNOWN := -1
  const T_BOOL: Byte := 0
  const T_CHAR: Byte := 1
  const T_UINT8: Byte := 2
  const T_SINT8: Byte := 3
  const T_UINT16: Byte := 4
  const T_SINT16: Byte := 5
  const T_UINT32: Byte := 6
  const T_SINT32: Byte := 7
  const T_STRING: Byte := 8
  const T_BLOB: Byte := 11
  const T_FLAT: Byte := 12

  /** One block of a record, its content in the memory layout of the host. */
  datatype Field = Field(name: seq<Byte>, kind: Byte, content: seq<Byte>)

  predicate NulFree(s: seq<Byte>) {
    forall i :: 0 <= i < |s| ==> s[i] != 0
  }

  /** How many leading bytes of a content parse swaps: chosen by the type alone, whatever the size. */
  function SwapWidth(kind: Byte): nat {
    if kind == T_UINT16 || kind == T_SINT16 then 2
    else if kind == T_UINT32 || kind == T_SINT32 then 4
    else 0
  }

  /** The content is long enough to be swapped in place. */
  predicate Wide(f: Field) {
    SwapWidth(f.kind) <= |f.content|
  }

  function SwapBytes(kind: Byte, c: seq<Byte>): seq<Byte> {
    if |c| < SwapWidth(kind) then c else
    match SwapWidth(kind)
    case 2 => [c[1], c[0]] + c[2..]
    case 4 => [c[3], c[2], c[1], c[0]] + c[4..]
    case _ => c
  }

  /** The field as a host of the other byte order holds it. */
  function Swapped(f: Field): Field {
    f.(content := SwapBytes(f.kind, f.content))
  }

  /** A field in memory order `o`, for a host of order `n` that knows it as `f`. */
  function Seen(n: Order, o: Order, f: Field): Field {
    if n == o then f else Swapped(f)
  }

  function EncodeField(o: Order, f: Field): seq<Byte> {
    f.name + [0, f.kind] + WriteU32(o, |f.content|) + f.content
  }

  function EncodeFields(o: Order, fs: seq<Field>): seq<Byte> {
    if fs == [] then [] else EncodeField(o, fs[0]) + EncodeFields(o, fs[1..])
  }

  predicate AllWide(fs: seq<Field>) {
    forall i :: 0 <= i < |fs| ==> Wide(fs[i])
  }

  predicate AllNulFree(fs: seq<Field>) {
    forall i :: 0 <= i < |fs| ==> NulFree(fs[i].name)
  }

  function SeenAll(n: Order, o: Order, fs: seq<Field>): seq<Field> {
    seq(|fs|, i requires 0 <= i < |fs| => Seen(n, o, fs[i]))
  }

  /** A whole record of byte order `o` holding the values a host of order `n` knows as `fs`. */
  function Encode(n: Order, o: Order, fs: seq<Field>): seq<Byte> {
    [Tag(o)] + EncodeFields(o, SeenAll(n, o, fs))
  }

  // ---- reading ----

  /** strlen: the index of the first NUL, or the length if there is none. */
  function StrLen(s: seq<Byte>): (n: nat)
    ensures n <= |s| && NulFree(s[..n]) && (n < |s| ==> s[n] == 0)
  {
    if s == [] || s[0] == 0 then 0 else 1 + StrLen(s[1..])
  }

  /** The part of a string a C function sees. */
  function CStr(s: seq<Byte>): seq<Byte> {
    s[..StrLen(s)]
  }

  lemma {:induction false} NulFreeIsWhole(s: seq<Byte>)
    requires NulFree(s)
    ensures StrLen(s) == |s| && CStr(s) == s
  {
    if s != [] {
      NulFreeIsWhole(s[1..]);
    }
  }

  /** A field and the bytes it took. */
  datatype Parsed = Parsed(field: Field, used: nat)

  /** The size field of a block, swapped first if the record is of the other order. */
  function ReadSize(n: Order, swap: bool, s: seq<Byte>): nat
    requires |s| == 4
  {
    if swap then Swap32(ReadU32(n, s)) else ReadU32(n, s)
  }

  /** One step of parse on what is left of the buffer. None: the block runs off the buffer. */
  function DecodeField(n: Order, swap: bool, s: seq<Byte>): (r: Option<Parsed>)
    ensures r.Some? ==> 6 <= r.value.used <= |s|
  {
    var nl := StrLen(s);
    if nl + 6 > |s| then None
    else
      var size := ReadSize(n, swap, s[nl + 2..nl + 6]);
      if nl + 6 + size > |s| then None
      else
        var f := Field(s[..nl], s[nl + 1], s[nl + 6..nl + 6 + size]);
        if !swap then Some(Parsed(f, nl + 6 + size))
        else if !Wide(f) then None
        else Some(Parsed(Swapped(f), nl + 6 + size))
  }

  /** Where the name of the block at `pos` ends. */
  function NameEnd(s: seq<Byte>, pos: nat): (z: nat)
    requires pos <= |s|
    ensures pos <= z <= |s|
  {
    pos + StrLen(s[pos..])
  }

  /** The parts of a block that parse accepts, by their position in the buffer. */
  lemma DecodedParts(n: Order, swap: bool, s: seq<Byte>, pos: nat)
    requires pos <= |s| && DecodeField(n, swap, s[pos..]).Some?
    ensures var f := DecodeField(n, swap, s[pos..]).value.field;
            var z, size := NameEnd(s, pos), |f.content|;
            && pos + DecodeField(n, swap, s[pos..]).value.used == z + 6 + size <= |s|
            && f.name == s[pos..z] && s[z] == 0 && f.kind == s[z + 1]
            && size == ReadSize(n, swap, s[z + 2..z + 6])
            && f.content == (var c := s[z + 6..z + 6 + size]; if swap then SwapBytes(f.kind, c) else c)
            && (swap ==> SwapWidth(f.kind) <= size)
  {
    hide ReadSize, SwapBytes;
    var t, nl := s[pos..], StrLen(s[pos..]);
    SubSlice(s, pos, |s|, 0, nl);
    SubSlice(s, pos, |s|, nl + 2, nl + 6);
    var size := ReadSize(n, swap, t[nl + 2..nl + 6]);
    SubSlice(s, pos, |s|, nl + 6, nl + 6 + size);
    assert s[pos..|s|] == t;
    assert |SwapBytes(t[nl + 1], t[nl + 6..nl + 6 + size])| == size by {
      SwappedTwice(Field([], t[nl + 1], t[nl + 6..nl + 6 + size]));
    }
  }

  /** The loop of parse. */
  function DecodeFields(n: Order, swap: bool, s: seq<Byte>): Option<seq<Field>>
    decreases |s|
  {
    if s == [] then Some([])
    else
      match DecodeField(n, swap, s)
      case None => None
      case Some(p) =>
        match DecodeFields(n, swap, s[p.used..])
        case None => None
        case Some(fs) => Some([p.field] + fs)
  }

  /** What a host of order `n` reads out of a buffer: any foreign tag means swap. */
  function Decode(n: Order, s: seq<Byte>): Option<seq<Field>>
    requires s != []
  {
    DecodeFields(n, s[0] != Tag(n), s[1..])
  }

  // ---- round trips ----

  lemma {:induction false} StrLenOf(name: seq<Byte>, rest: seq<Byte>)
    requires NulFree(name)
    ensures StrLen(name + [0] + rest) == |name|
  {
    if name != [] {
      assert (name + [0] + rest)[1..] == name[1..] + [0] + rest;
      StrLenOf(name[1..], rest);
    }
  }

  lemma SwappedTwice(f: Field)
    ensures (Wide(Swapped(f)) <==> Wide(f)) && Swapped(Swapped(f)) == f && |Swapped(f).content| == |f.content|
  {
    var c, d := f.content, Swapped(f).content;
    if Wide(f) {
      assert d[SwapWidth(f.kind)..] == c[SwapWidth(f.kind)..];
      assert Swapped(Swapped(f)).content == c;
    }
  }

  lemma BlockLayout(name: seq<Byte>, kind: Byte, size: seq<Byte>, content: seq<Byte>, rest: seq<Byte>)
    requires NulFree(name) && |size| == 4
    ensures var s := name + [0, kind] + size + content + rest;
            var nl := |name|;
            && StrLen(s) == nl && s[..nl] == name && s[nl + 1] == kind
            && s[nl + 2..nl + 6] == size && s[nl + 6..nl + 6 + |content|] == content
  {
    var s := name + [0, kind] + size + content + rest;
    assert s == name + [0] + ([kind] + size + content + rest);
    StrLenOf(name, [kind] + size + content + rest);
  }

  /** One block written in order `o`, in front of anything, is read back as the field it stands for. */
  lemma FieldRoundTrip(n: Order, o: Order, f: Field, rest: seq<Byte>)
    requires NulFree(f.name) && (n != o ==> Wide(f)) && |f.content| < U32_LIMIT
    ensures DecodeField(n, n != o, EncodeField(o, Seen(n, o, f)) + rest)
         == Some(Parsed(f, |EncodeField(o, Seen(n, o, f))|))
  {
    hide ReadSize, WriteU32;
    SwappedTwice(f);
    var g := Seen(n, o, f);
    var size := |f.content|;
    BlockLayout(f.name, f.kind, WriteU32(o, size), g.content, rest);
    SizeRead(n, o, size);
  }

  /** parse recovers the size of a block of either byte order. */
  lemma SizeRead(n: Order, o: Order, size: nat)
    requires size < U32_LIMIT
    ensures ReadSize(n, n != o, WriteU32(o, size)) == size
  {
    U32RoundTrip(o, size);
    if n != o {
      Swap32ReadsOther(n, WriteU32(o, size));
    }
  }

  /** What the typed put functions guarantee of fields that a host of order `n` reads from order `o`. */
  predicate Storable(n: Order, o: Order, fs: seq<Field>) {
    (n != o ==> AllWide(fs)) && AllNulFree(fs) && forall i :: 0 <= i < |fs| ==> |fs[i].content| < U32_LIMIT
  }

  lemma {:induction false} ContentFits(o: Order, fs: seq<Field>, i: nat)
    requires i < |fs|
    ensures |fs[i].content| < |EncodeFields(o, fs)|
  {
    if i > 0 {
      ContentFits(o, fs[1..], i - 1);
    }
  }

  /** Every content of a record is shorter than the record. */
  lemma ContentsFit(n: Order, o: Order, fs: seq<Field>)
    ensures forall i :: 0 <= i < |fs| ==> |fs[i].content| < |Encode(n, o, fs)|
  {
    forall i | 0 <= i < |fs|
      ensures |fs[i].content| < |Encode(n, o, fs)|
    {
      ContentFits(o, SeenAll(n, o, fs), i);
      SwappedTwice(fs[i]);
    }
  }

  lemma SeenAllTail(n: Order, o: Order, fs: seq<Field>)
    requires fs != []
    ensures SeenAll(n, o, fs)[1..] == SeenAll(n, o, fs[1..])
  {
  }

  lemma {:induction false} FieldsRoundTrip(n: Order, o: Order, fs: seq<Field>)
    requires Storable(n, o, fs)
    ensures DecodeFields(n, n != o, EncodeFields(o, SeenAll(n, o, fs))) == Some(fs)
  {
    hide DecodeField, EncodeField, Seen;
    if fs != [] {
      var block := EncodeField(o, Seen(n, o, fs[0]));
      var rest := EncodeFields(o, SeenAll(n, o, fs[1..]));
      SeenAllTail(n, o, fs);
      FieldRoundTrip(n, o, fs[0], rest);
      FieldsRoundTrip(n, o, fs[1..]);
      assert (block + rest)[|block|..] == rest;
      assert fs == [fs[0]] + fs[1..];
    }
  }

  /** Whichever order a record was written in, every host reads back exactly the fields put in, in order. */
  lemma RecordRoundTrip(n: Order, o: Order, fs: seq<Field>)
    requires Storable(n, o, fs)
    ensures Decode(n, Encode(n, o, fs)) == Some(fs)
  {
    FieldsRoundTrip(n, o, fs);
    assert Encode(n, o, fs)[1..] == EncodeFields(o, SeenAll(n, o, fs));
  }

  lemma SizeWritten(n: Order, o: Order, s: seq<Byte>)
    requires |s| == 4
    ensures ReadSize(n, n != o, s) < U32_LIMIT && WriteU32(o, ReadSize(n, n != o, s)) == s
  {
    U32Bytes(o, s);
    if n != o {
      Swap32ReadsOther(n, s);
    }
  }

  /** Reading loses nothing: the bytes taken are the encoding of the field read. */
  lemma DecodedFieldEncodes(n: Order, o: Order, s: seq<Byte>)
    requires DecodeField(n, n != o, s).Some?
    ensures var p := DecodeField(n, n != o, s).value;
            && NulFree(p.field.name) && (n != o ==> Wide(p.field)) && |p.field.content| < U32_LIMIT
            && s[..p.used] == EncodeField(o, Seen(n, o, p.field))
  {
    hide ReadSize, WriteU32, SwapBytes, Wide;
    var p := DecodeField(n, n != o, s).value;
    var nl := StrLen(s);
    SizeWritten(n, o, s[nl + 2..nl + 6]);
    var raw := Field(s[..nl], s[nl + 1], s[nl + 6..p.used]);
    SwappedTwice(raw);
    assert Seen(n, o, p.field) == raw;
    assert s[..p.used] == s[..nl] + [0, s[nl + 1]] + s[nl + 2..nl + 6] + s[nl + 6..p.used];
  }

  lemma {:induction false} DecodedFieldsEncode(n: Order, o: Order, s: seq<Byte>)
    requires DecodeFields(n, n != o, s).Some?
    ensures var fs := DecodeFields(n, n != o, s).value;
            Storable(n, o, fs) && s == EncodeFields(o, SeenAll(n, o, fs))
    decreases |s|
  {
    hide DecodeField, EncodeField, Seen, NulFree, Wide;
    if s != [] {
      var fs := DecodeFields(n, n != o, s).value;
      var p := DecodeField(n, n != o, s).value;
      DecodedFieldEncodes(n, o, s);
      DecodedFieldsEncode(n, o, s[p.used..]);
      assert fs[1..] == DecodeFields(n, n != o, s[p.used..]).value;
      SeenAllTail(n, o, fs);
      assert s == s[..p.used] + s[p.used..];
    }
  }

  /** A buffer is readable only if it is the encoding, in the order of its tag, of what is read. */
  lemma DecodeIsInverse(n: Order, o: Order, s: seq<Byte>)
    requires s != [] && s[0] == Tag(o) && Decode(n, s).Some?
    ensures s == Encode(n, o, Decode(n, s).value)
    ensures Storable(n, o, Decode(n, s).value)
  {
    hide DecodeFields, EncodeFields, NulFree, Wide;
    DecodedFieldsEncode(n, o, s[1..]);
  }

  /** A name is stored faithfully exactly when it holds no NUL. */
  lemma NameKeptIffNulFree(n: Order, f: Field)
    requires |f.content| < U32_LIMIT
    ensures Decode(n, Encode(n, n, [f])) == Some([f]) <==> NulFree(f.name)
  {
    var s := Encode(n, n, [f]);
    assert EncodeFields(n, [f]) == EncodeField(n, f) + [];
    assert SeenAll(n, n, [f]) == [f];
    if NulFree(f.name) {
      FieldsRoundTrip(n, n, [f]);
      assert s[1..] == EncodeFields(n, SeenAll(n, n, [f]));
    }
    if Decode(n, s) == Some([f]) {
      DecodeIsInverse(n, n, s);
      assert [f][0] == f;
    }
  }

  // ---- appending ----

  lemma {:induction false} EncodeFieldsAppend(o: Order, a: seq<Field>, b: seq<Field>)
    ensures EncodeFields(o, a + b) == EncodeFields(o, a) + EncodeFields(o, b)
  {
    if a == [] {
      assert a + b == b;
    } else {
      assert (a + b)[1..] == a[1..] + b;
      EncodeFieldsAppend(o, a[1..], b);
    }
  }

  /** Appending a block in the record's own order is putting one more field, and it is read back after the others. */
  lemma PutExtends(n: Order, o: Order, fs: seq<Field>, f: Field)
    ensures Encode(n, o, fs + [f]) == Encode(n, o, fs) + EncodeField(o, Seen(n, o, f))
    ensures Storable(n, o, fs + [f]) ==>
              Decode(n, Encode(n, o, fs) + EncodeField(o, Seen(n, o, f))) == Some(fs + [f])
  {
    hide DecodeFields, EncodeField, NulFree, Wide;
    if Storable(n, o, fs + [f]) {
      RecordRoundTrip(n, o, fs + [f]);
    }
    assert SeenAll(n, o, fs + [f]) == SeenAll(n, o, fs) + [Seen(n, o, f)];
    EncodeFieldsAppend(o, SeenAll(n, o, fs), [Seen(n, o, f)]);
    assert EncodeFields(o, [Seen(n, o, f)]) == EncodeField(o, Seen(n, o, f)) + [];
  }

  /**
   * put writes host order even into an adopted buffer that still carries the other order's tag.
   * Such a put is read back correctly exactly when swapping changes neither its size nor its value.
   */
  lemma PutIntoForeignRecord(n: Order, fs: seq<Field>, f: Field)
    requires Storable(n, Other(n), fs + [f])
    ensures Decode(n, Encode(n, Other(n), fs) + EncodeField(n, f)) == Some(fs + [f])
      <==> SameSwapped(f)
  {
    var o := Other(n);
    var s := Encode(n, o, fs) + EncodeField(n, f);
    assert s[0] == Tag(o) && (fs + [f])[|fs|] == f;
    hide Swap32, Swapped, EncodeField, Decode, NulFree, Wide, Encode;
    PutExtends(n, o, fs, f);
    var whole := Encode(n, o, fs + [f]);
    RecordRoundTrip(n, o, fs + [f]);
    if Decode(n, s) == Some(fs + [f]) {
      DecodeIsInverse(n, o, s);
      assert whole[|Encode(n, o, fs)|..] == s[|Encode(n, o, fs)|..];
    }
    BlocksAgree(n, f);
  }

  /** Swapping a field changes neither the bytes of its size nor those of its value. */
  predicate SameSwapped(f: Field) {
    Swap32(|f.content|) == |f.content| && Swapped(f) == f
  }

  lemma {:induction false} BlocksAgreeAll(n: Order, fs: seq<Field>)
    requires forall i :: 0 <= i < |fs| ==> |fs[i].content| < U32_LIMIT
    ensures EncodeFields(n, fs) == EncodeFields(Other(n), SeenAll(n, Other(n), fs))
       <==> forall i :: 0 <= i < |fs| ==> SameSwapped(fs[i])
  {
    if fs != [] {
      var o := Other(n);
      SeenAllTail(n, o, fs);
      BlocksAgreeAll(n, fs[1..]);
      BlocksAgree(n, fs[0]);
      SwappedTwice(fs[0]);
      var a, b := EncodeField(n, fs[0]), EncodeField(o, Swapped(fs[0]));
      FirstsAgree(a, EncodeFields(n, fs[1..]), b, EncodeFields(o, SeenAll(n, o, fs[1..])));
      hide EncodeField, SameSwapped, Swapped;
      assert fs == [fs[0]] + fs[1..];
    }
  }

  lemma FirstsAgree(a: seq<Byte>, s: seq<Byte>, b: seq<Byte>, t: seq<Byte>)
    requires |a| == |b|
    ensures a + s == b + t <==> a == b && s == t
  {
    assert (a + s)[..|a|] == a && (a + s)[|a|..] == s && (b + t)[..|b|] == b && (b + t)[|b|..] == t;
  }

  /**
   * Blocks in host order behind the other order's tag, as a sequence of puts into a cleared foreign record
   * leaves them: they are read back exactly if swapping changes none of them.
   */
  lemma ForeignTagIff(n: Order, fs: seq<Field>)
    requires Storable(n, Other(n), fs)
    ensures Decode(n, [Tag(Other(n))] + EncodeFields(n, fs)) == Some(fs)
       <==> forall i :: 0 <= i < |fs| ==> SameSwapped(fs[i])
  {
    var o := Other(n);
    var s := [Tag(o)] + EncodeFields(n, fs);
    BlocksAgreeAll(n, fs);
    hide SameSwapped, EncodeFields, DecodeFields, NulFree, Wide;
    RecordRoundTrip(n, o, fs);
    if Decode(n, s) == Some(fs) {
      DecodeIsInverse(n, o, s);
      assert s[1..] == EncodeFields(n, fs) && Encode(n, o, fs)[1..] == EncodeFields(o, SeenAll(n, o, fs));
    }
  }

  lemma BlocksAgree(n: Order, f: Field)
    requires |f.content| < U32_LIMIT
    ensures EncodeField(n, f) == EncodeField(Other(n), Swapped(f))
      <==> SameSwapped(f)
  {
    hide ReadU32, WriteU32, Swap32;
    SwappedTwice(f);
    var o, nl, size := Other(n), |f.name|, |f.content|;
    var a, b := EncodeField(n, f), EncodeField(o, Swapped(f));
    U32RoundTrip(n, size);
    U32RoundTrip(o, size);
    Swap32ReadsOther(n, WriteU32(n, size));
    Swap32ReadsOther(o, WriteU32(n, size));
    U32Bytes(o, WriteU32(n, size));
    assert a[nl + 2..nl + 6] == WriteU32(n, size) && b[nl + 2..nl + 6] == WriteU32(o, size);
    assert a[nl + 6..] == f.content && b[nl + 6..] == Swapped(f).content;
  }

  /** One byte put into a foreign record is lost: its size reads back as 0x1000000. */
  lemma PutIntoForeignRecordFails()
    ensures Decode(Little, Encode(Little, Big, []) + EncodeField(Little, Field([97], T_UINT8, [7])))
         != Some([Field([97], T_UINT8, [7])])
  {
    var f := Field([97], T_UINT8, [7]);
    assert Storable(Little, Big, [] + [f]) && Swap32(1) != 1;
    hide *;
    PutIntoForeignRecord(Little, [], f);
    assert [] + [f] == [f];
  }
}
