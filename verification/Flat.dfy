/** The record object: a growing buffer that is written field by field and parsed lazily, in place. */
module Flats {
  import opened Common
  import opened Bytes
  import opened Record
  import opened Lookup
  import opened Growth

  method Memcpy(dst: array<Byte>, at: nat, src: seq<Byte>)
    requires at + |src| <= dst.Length
    modifies dst
    ensures forall i :: 0 <= i < dst.Length ==>
      dst[i] == if at <= i < at + |src| then src[i - at] else old(dst[i])
  {
    forall i | 0 <= i < |src| {
      dst[at + i] := src[i];
    }
  }

  /** What a readable buffer holds: nothing to parse, or a well-formed record. */
  ghost predicate Readable(n: Order, s: seq<Byte>) {
    |s| == 1 || (|s| > 1 && Decode(n, s).Some?)
  }

  /** The fields a reader of a readable buffer gets. */
  ghost function FieldsOf(n: Order, s: seq<Byte>): seq<Field>
    requires Readable(n, s)
  {
    if |s| == 1 then [] else Decode(n, s).value
  }

  class Flat {
    const native: Order

    var buffer: array<Byte>
    var ptr: nat        // the write or read pointer, as an offset into buffer
    var size: nat
    var capacity: nat
    var success: bool
    var data: seq<Field>  // the decoded list; [] is NULL
    var decoded: nat      // the cursor, as an index into data; |data| is NULL

    /** The write pointer is at the end of the content, or there is no room left and put must grow first. */
    ghost predicate Layout()
      reads this, buffer
    {
      && capacity == buffer.Length < U32_LIMIT
      && 1 <= size <= capacity
      && (ptr == size || capacity == size)
    }

    ghost predicate Valid()
      reads this, buffer
    {
      Layout() && (data != [] ==> decoded <= |data|)
    }

    ghost function Bytes(): seq<Byte>
      requires Layout()
      reads this, buffer
    {
      buffer[..size]
    }

    constructor (n: Order, length: nat)
      requires length < 0x1_0000
      ensures Valid() && fresh(buffer) && native == n
      ensures Bytes() == Encode(n, n, []) && data == [] && success
      ensures Bytes() == [if n.Little? then 76 else 66]  // 'L' or 'B'
    {
      native := n;
      capacity := if length != 0 then length else 1;
      var b := new Byte[if length != 0 then length else 1](_ => 0);
      b[0] := Tag(n);
      buffer := b;
      size, success, ptr, data, decoded := 1, true, 1, [], 0;
    }

    constructor FromBuffer(n: Order, bytes: seq<Byte>)
      requires 1 <= |bytes| < U32_LIMIT
      ensures Valid() && fresh(buffer) && native == n
      ensures Bytes() == bytes && data == [] && success
    {
      native := n;
      decoded := 0;
      var tmp := new Byte[|bytes|](i requires 0 <= i < |bytes| => bytes[i]);
      buffer := tmp;
      capacity, success, ptr, size, data := |bytes|, true, 1, |bytes|, [];
      assert tmp[..] == bytes;
    }

    /** Copies the content of another record; the decoded list and the spare capacity are not copied. */
    method Copy(source: Flat)
      requires Valid() && source.Valid()
      modifies this
      ensures Valid() && fresh(buffer) && Bytes() == old(source.Bytes()) && capacity == size
      ensures data == [] && success
    {
      var tmp := new Byte[source.size](i requires 0 <= i < source.size <= source.buffer.Length
                                       reads source, source.buffer => source.buffer[i]);
      assert tmp[..] == source.buffer[..source.size];
      SetBuffer(tmp);
    }

    method SetBuffer(bytes: array<Byte>)
      requires 1 <= bytes.Length < U32_LIMIT
      modifies this
      ensures Valid() && buffer == bytes && Bytes() == bytes[..] && capacity == size
      ensures data == [] && success
    {
      buffer := bytes;
      capacity := bytes.Length;
      success := true;
      ptr := 1;
      size := bytes.Length;
      data := [];
    }

    /** Empties the record; the order byte stays as it is. */
    method Clear()
      requires Valid()
      modifies this
      ensures Valid() && buffer == old(buffer) && Bytes() == old(Bytes())[..1] && ptr == 1
      ensures data == [] && success
    {
      size := 1;
      data := [];
      ptr := 1;
      success := true;
    }

    /** Doubles the capacity, modulo 2^32; the content has to fit what that leaves. */
    method Grow()
      requires Valid() && size <= Doubled(capacity)
      modifies this
      ensures Valid() && fresh(buffer) && Bytes() == old(Bytes())
      ensures capacity == Doubled(old(capacity)) && ptr == size == old(size)
      ensures data == old(data) && decoded == old(decoded) && success == old(success)
    {
      capacity := capacity * 2 % U32_LIMIT;
      var tmp := new Byte[capacity](i requires 0 <= i reads this, buffer =>
                                      if i < size <= buffer.Length then buffer[i] else 0);
      assert tmp[..size] == buffer[..size];
      buffer := tmp;
      ptr := size;
    }

    /** Appends one block in host order, whatever growth that takes, and touches no earlier byte. */
    method Put(f: Field)
      requires Valid()
      requires CanGrow(capacity, size, size + |EncodeField(native, f)|, TURNS)
      modifies this, buffer
      ensures Valid() && (buffer == old(buffer) || fresh(buffer)) && ptr == size
      ensures Bytes() == old(Bytes()) + EncodeField(native, f)
      ensures capacity == Grown(old(capacity), old(size) + |EncodeField(native, f)|, TURNS)
      ensures data == old(data) && decoded == old(decoded) && success == old(success)
    {
      var nl := |f.name| + 1;
      var length := |f.content|;
      var need := length + nl + 5;
      ghost var turns: nat := TURNS;
      while size + need > capacity
        invariant Valid() && Bytes() == old(Bytes()) && size == old(size)
        invariant data == old(data) && decoded == old(decoded) && success == old(success)
        invariant buffer == old(buffer) || fresh(buffer)
        invariant CanGrow(capacity, size, size + need, turns)
        invariant Grown(capacity, size + need, turns) == Grown(old(capacity), size + need, TURNS)
        decreases turns
      {
        Grow();
        turns := turns - 1;
      }
      WriteBlock(f);
      size := size + need;
    }

    method WriteBlock(f: Field)
      requires Valid() && ptr == size && size + |EncodeField(native, f)| <= capacity
      modifies this`ptr, buffer
      ensures ptr == old(ptr) + |EncodeField(native, f)|
      ensures buffer[..ptr] == old(Bytes()) + EncodeField(native, f)
    {
      hide WriteU32;
      var length := |f.content|;
      ghost var before := buffer[..];
      Memcpy(buffer, ptr, f.name + [0]);
      ptr := ptr + |f.name| + 1;
      Memcpy(buffer, ptr, [f.kind]);
      Memcpy(buffer, ptr + 1, WriteU32(native, length));
      Memcpy(buffer, ptr + 5, f.content);
      ptr := ptr + length + 5;
      assert buffer[..ptr] == before[..old(ptr)] + (f.name + [0]) + [f.kind] + WriteU32(native, length) + f.content;
    }

    /** Decodes the bytes once, rewriting it to host order on the way. */
    method Parse()
      requires Valid() && Readable(native, Bytes())
      modifies this, buffer
      ensures Layout() && buffer == old(buffer) && size == old(size)
      ensures success == old(success) && decoded == old(decoded)
      ensures if old(data) != [] || size == 1 then data == old(data) && Bytes() == old(Bytes())
              else data == FieldsOf(native, old(Bytes())) && data != [] && Bytes() == Encode(native, native, data)
    {
      hide DecodeFields, DecodeField, EncodeFields, EncodeField, FieldsOf, Readable, Decode;
      if size == 1 || data != [] {
        return;
      }
      ghost var s := buffer[..size];
      ghost var fields := FieldsOf(native, s);
      var swap := buffer[0] != Tag(native);
      buffer[0] := Tag(native);
      var done: seq<Field> := [];
      var pos := 1;
      ptr := 1;
      ParseStart(native, s);
      assert buffer[..1] == [Tag(native)];
      while pos < size
        invariant 1 <= pos == ptr <= size == |s|
        invariant forall i :: pos <= i < size ==> buffer[i] == s[i]
        invariant buffer[..pos] == [Tag(native)] + EncodeFields(native, done)
        invariant DecodeFields(native, swap, s[pos..]).Some?
        invariant done + DecodeFields(native, swap, s[pos..]).value == fields
        invariant done == [] ==> pos == 1
        modifies this`ptr, buffer
      {
        ghost var before := buffer[..pos];
        ParseStep(native, swap, s, pos, done);
        var f := ParseBlock(swap, s);
        assert buffer[..ptr] == before + EncodeField(native, f) by {
          assert buffer[..ptr] == buffer[..pos] + buffer[pos..ptr];
          assert buffer[..pos] == before;
        }
        done := done + [f];
        pos := pos + |f.name| + |f.content| + 6;
      }
      data := done;
      assert s[pos..] == [];
      NativeSeen(native, done);
    }

    /** One turn of the loop: reads the block at ptr and leaves its host-order encoding there. */
    method ParseBlock(swap: bool, ghost s: seq<Byte>) returns (f: Field)
      requires |s| == size <= buffer.Length && ptr <= size
      requires forall i :: ptr <= i < size ==> buffer[i] == s[i]
      requires DecodeField(native, swap, s[ptr..]).Some?
      modifies this`ptr, buffer
      ensures var p := DecodeField(native, swap, s[old(ptr)..]).value;
              && f == p.field && ptr == old(ptr) + p.used <= size && p.used == |f.name| + |f.content| + 6
      ensures buffer[old(ptr)..ptr] == EncodeField(native, f)
      ensures forall i :: 0 <= i < buffer.Length && !(old(ptr) <= i < ptr) ==> buffer[i] == old(buffer[i])
    {
      hide *;
      ghost var at, z := ptr, NameEnd(s, ptr);
      DecodedBlock(native, swap, s, ptr);
      f := ParseParts(swap, s, z);
      assert buffer[at..ptr] == buffer[..][at..ptr];
    }

    /** Header and content of the block whose name ends at `z`. */
    method ParseParts(swap: bool, ghost s: seq<Byte>, ghost z: nat) returns (f: Field)
      requires |s| == size <= buffer.Length && ptr <= size && z == NameEnd(s, ptr) && HasBlock(native, swap, s, z)
      requires forall i :: ptr <= i < size ==> buffer[i] == s[i]
      modifies this`ptr, buffer
      ensures f == BlockAt(native, swap, s, old(ptr), z) && ptr == z + 6 + |f.content| <= size
      ensures buffer[..][old(ptr)..ptr] == EncodeField(native, f)
      ensures forall i :: 0 <= i < buffer.Length && !(old(ptr) <= i < ptr) ==> buffer[i] == old(buffer[i])
    {
      hide *;
      ghost var at := ptr;
      BlockFits(native, swap, s, at, z);
      var name, kind, length := ParseHeader(swap, s);
      var content := ParseContent(swap, kind, length, s[z + 6..z + 6 + length]);
      f := Field(name, kind, content);
      ghost var b := buffer[..];
      assert forall i :: at <= i < z + 2 ==> b[i] == s[i];
      assert forall i :: z + 2 <= i < z + 6 ==> b[i] == WriteU32(native, length)[i - (z + 2)];
      assert forall i :: z + 6 <= i < ptr ==> b[i] == content[i - (z + 6)];
      BlockIs(native, b, s, at, z, f);
    }

    method ParseContent(swap: bool, kind: Byte, length: nat, ghost raw: seq<Byte>) returns (content: seq<Byte>)
      requires (swap ==> SwapWidth(kind) <= length) && ptr + length <= buffer.Length && |raw| == length
      requires forall i :: ptr <= i < ptr + length ==> buffer[i] == raw[i - ptr]
      modifies this`ptr, buffer
      ensures ptr == old(ptr) + length == old(ptr) + |content|
      ensures forall i :: old(ptr) <= i < ptr ==> buffer[i] == content[i - old(ptr)]
      ensures content == if swap then SwapBytes(kind, raw) else raw
      ensures forall i :: 0 <= i < buffer.Length && !(old(ptr) <= i < ptr) ==> buffer[i] == old(buffer[i])
    {
      if swap {
        SwapContent(kind, length, raw);
      }
      content := buffer[ptr..ptr + length];
      ptr := ptr + length;
    }

    /** Name, type and length of the block at ptr; the length is rewritten to host order. */
    method ParseHeader(swap: bool, ghost s: seq<Byte>) returns (name: seq<Byte>, kind: Byte, length: nat)
      requires |s| == size <= buffer.Length && ptr <= size && NameEnd(s, ptr) + 6 <= size && s[NameEnd(s, ptr)] == 0
      requires forall i :: ptr <= i < size ==> buffer[i] == s[i]
      modifies this`ptr, buffer
      ensures var z := NameEnd(s, old(ptr));
              && name == s[old(ptr)..z] && kind == s[z + 1] && length == ReadSize(native, swap, s[z + 2..z + 6])
              && ptr == z + 6
      ensures forall i :: old(ptr) <= i < size && !(ptr - 4 <= i < ptr) ==> buffer[i] == s[i]
      ensures forall i :: ptr - 4 <= i < ptr ==> buffer[i] == WriteU32(native, length)[i - (ptr - 4)]
      ensures forall i :: 0 <= i < buffer.Length && !(ptr - 4 <= i < ptr) ==> buffer[i] == old(buffer[i])
    {
      hide *;
      ghost var z := NameEnd(s, ptr);
      assert buffer[ptr..size] == s[ptr..];
      NameEndIs(s, ptr);
      name := buffer[ptr..ptr + StrLen(buffer[ptr..size])];
      ptr := ptr + |name| + 1;
      kind := buffer[ptr];
      ptr := ptr + 1;
      assert buffer[ptr..ptr + 4] == s[z + 2..z + 6];
      length := ParseSize(swap);
    }

    method ParseSize(swap: bool) returns (length: nat)
      requires ptr + 4 <= buffer.Length
      modifies this`ptr, buffer
      ensures length == ReadSize(native, swap, old(buffer[ptr..ptr + 4]))
      ensures ptr == old(ptr) + 4
      ensures forall i :: old(ptr) <= i < ptr ==> buffer[i] == WriteU32(native, length)[i - old(ptr)]
      ensures forall i :: 0 <= i < buffer.Length && !(old(ptr) <= i < ptr) ==> buffer[i] == old(buffer[i])
    {
      hide ReadU32, WriteU32, Swap32;
      length := ReadU32(native, buffer[ptr..ptr + 4]);
      U32Bytes(native, buffer[ptr..ptr + 4]);
      if swap {
        length := Swap32(length);
        Memcpy(buffer, ptr, WriteU32(native, length));
      }
      ptr := ptr + 4;
    }

    /** The switch over the type: swaps the first bytes of a 16 or 32 bit content where it lies. */
    method SwapContent(kind: Byte, length: nat, ghost raw: seq<Byte>)
      requires SwapWidth(kind) <= length && ptr + length <= buffer.Length && |raw| == length
      requires forall i :: ptr <= i < ptr + length ==> buffer[i] == raw[i - ptr]
      modifies buffer
      ensures |SwapBytes(kind, raw)| == length
      ensures forall i :: ptr <= i < ptr + length ==> buffer[i] == SwapBytes(kind, raw)[i - ptr]
      ensures 4 <= kind <= 5 ==> length >= 2 && buffer[ptr] == raw[1] && buffer[ptr + 1] == raw[0]
      ensures 6 <= kind <= 7 ==> length >= 4 && buffer[ptr] == raw[3] && buffer[ptr + 1] == raw[2]
                                 && buffer[ptr + 2] == raw[1] && buffer[ptr + 3] == raw[0]
      ensures !(4 <= kind <= 7) ==> buffer[..] == old(buffer[..])
      ensures forall i :: 0 <= i < buffer.Length && !(ptr <= i < ptr + length) ==> buffer[i] == old(buffer[i])
    {
      SwapBytesAt(kind, raw);
      hide SwapBytes;
      if kind == T_UINT16 || kind == T_SINT16 {
        SwapShort();
      } else if kind == T_UINT32 || kind == T_SINT32 {
        SwapWord();
      }
    }

    method SwapShort()
      requires ptr + 2 <= buffer.Length
      modifies buffer
      ensures buffer[ptr] == old(buffer[ptr + 1]) && buffer[ptr + 1] == old(buffer[ptr])
      ensures forall i :: 0 <= i < buffer.Length && !(ptr <= i < ptr + 2) ==> buffer[i] == old(buffer[i])
    {
      hide ReadU16, WriteU16, Swap16;
      Swap16Reverses(native, buffer[ptr..ptr + 2]);
      Memcpy(buffer, ptr, WriteU16(native, Swap16(ReadU16(native, buffer[ptr..ptr + 2]))));
    }

    method SwapWord()
      requires ptr + 4 <= buffer.Length
      modifies buffer
      ensures buffer[ptr] == old(buffer[ptr + 3]) && buffer[ptr + 1] == old(buffer[ptr + 2])
      ensures buffer[ptr + 2] == old(buffer[ptr + 1]) && buffer[ptr + 3] == old(buffer[ptr])
      ensures forall i :: 0 <= i < buffer.Length && !(ptr <= i < ptr + 4) ==> buffer[i] == old(buffer[i])
    {
      hide ReadU32, WriteU32, Swap32;
      Swap32Reverses(native, buffer[ptr..ptr + 4]);
      Memcpy(buffer, ptr, WriteU32(native, Swap32(ReadU32(native, buffer[ptr..ptr + 4]))));
    }

    /** Makes sure the record is decoded; the first time this rewinds the cursor. */
    method EnsureParsed()
      requires Valid() && (data == [] ==> Readable(native, Bytes()))
      modifies this, buffer
      ensures Valid() && buffer == old(buffer) && size == old(size) && success == old(success)
      ensures if old(data) != [] then data == old(data) && decoded == old(decoded) && Bytes() == old(Bytes())
              else data == FieldsOf(native, old(Bytes())) && decoded == 0
      ensures Bytes() == if old(data) != [] || data == [] then old(Bytes()) else Encode(native, native, data)
    {
      if data == [] {
        Parse();
        decoded := 0;
      }
    }

    /**
     * Looks a field up from the cursor on, wrapping around. Names are compared as C strings; the type asked
     * for only matters for a warning.
     */
    method Get(name: seq<Byte>, kind: Byte, optional: bool) returns (result: Option<Field>)
      requires Valid() && (data == [] ==> Readable(native, Bytes()))
      modifies this, buffer
      ensures Valid() && buffer == old(buffer) && size == old(size)
      ensures data == if old(data) != [] then old(data) else FieldsOf(native, old(Bytes()))
      ensures Bytes() == if old(data) != [] || data == [] then old(Bytes()) else Encode(native, native, data)
      ensures var cur := if old(data) != [] then old(decoded) else 0;
              var hit := Search(data, cur, CStr(name));
              && result == (if hit.Some? then Some(data[hit.value]) else None)
              && decoded == CursorAfter(cur, hit)
              && success == (old(success) && (hit.Some? || optional))
      ensures result.Some? <==> Has(data, CStr(name))
      ensures if result.Some? then 0 < decoded <= |data| && result == Some(data[decoded - 1])
                                   && data[decoded - 1].name == CStr(name) && success == old(success)
              else decoded == (if old(data) != [] then old(decoded) else 0) && success == (old(success) && optional)
    {
      hide FieldsOf, Readable, Encode, Search, CStr, Has;
      EnsureParsed();
      SearchComplete(data, decoded, CStr(name));
      result := Find(CStr(name));
      if result.None? && !optional {
        success := false;
      }
    }

    /** From the cursor to the end, then from the start to where the cursor was. */
    method Find(name: seq<Byte>) returns (result: Option<Field>)
      requires decoded <= |data|
      modifies this`decoded
      ensures var hit := Search(data, old(decoded), name);
              && result == (if hit.Some? then Some(data[hit.value]) else None)
              && decoded == CursorAfter(old(decoded), hit) <= |data|
    {
      var current := decoded;
      result := Scan(name, |data|);
      if result.None? {
        decoded := 0;
        result := Scan(name, current);
      }
      if result.Some? {
        decoded := decoded + 1;
      }
    }

    /** Moves the cursor to the first field called `name` before `end`, or to `end`. */
    method Scan(name: seq<Byte>, end: nat) returns (result: Option<Field>)
      requires decoded <= end <= |data|
      modifies this`decoded
      ensures var k := FirstFrom(data, name, old(decoded));
              if k < end then decoded == k && result == Some(data[k]) else decoded == end && result == None
    {
      ghost var k := FirstFrom(data, name, decoded);
      while decoded < end
        invariant old(decoded) <= decoded <= end && decoded <= k
      {
        if data[decoded].name == name {
          return Some(data[decoded]);
        }
        decoded := decoded + 1;
      }
      result := None;
    }

    /** The field at the cursor, which moves on; None at the end. */
    method Next() returns (result: Option<Field>)
      requires Valid() && (data == [] ==> Readable(native, Bytes()))
      modifies this, buffer
      ensures Valid() && buffer == old(buffer) && size == old(size) && success == old(success)
      ensures data == if old(data) != [] then old(data) else FieldsOf(native, old(Bytes()))
      ensures Bytes() == if old(data) != [] || data == [] then old(Bytes()) else Encode(native, native, data)
      ensures var cur := if old(data) != [] then old(decoded) else 0;
              if cur < |data| then result == Some(data[cur]) && decoded == cur + 1
              else result == None && decoded == cur
    {
      EnsureParsed();
      if decoded < |data| {
        result := Some(data[decoded]);
        decoded := decoded + 1;
      } else {
        result := None;
      }
    }

    method First()
      requires Valid()
      modifies this
      ensures Valid() && buffer == old(buffer) && Bytes() == old(Bytes()) && decoded == 0
      ensures data == old(data) && success == old(success)
    {
      decoded := 0;
    }
  }

  lemma SwapBytesAt(kind: Byte, raw: seq<Byte>)
    requires SwapWidth(kind) <= |raw|
    ensures var r, w := SwapBytes(kind, raw), SwapWidth(kind);
            && |r| == |raw| && (forall i :: w <= i < |raw| ==> r[i] == raw[i])
            && (w == 2 ==> r[0] == raw[1] && r[1] == raw[0])
            && (w == 4 ==> r[0] == raw[3] && r[1] == raw[2] && r[2] == raw[1] && r[3] == raw[0])
  {
  }

  /** The parts of a block lie in the buffer as they are encoded. */
  lemma BlockIs(n: Order, b: seq<Byte>, s: seq<Byte>, at: nat, z: nat, f: Field)
    requires at <= z && z + 6 + |f.content| <= |s| <= |b|
    requires f.name == s[at..z] && s[z] == 0 && f.kind == s[z + 1]
    requires forall i :: at <= i < z + 2 ==> b[i] == s[i]
    requires forall i :: z + 2 <= i < z + 6 ==> b[i] == WriteU32(n, |f.content|)[i - (z + 2)]
    requires forall i :: z + 6 <= i < z + 6 + |f.content| ==> b[i] == f.content[i - (z + 6)]
    ensures b[at..z + 6 + |f.content|] == EncodeField(n, f)
  {
    var size := WriteU32(n, |f.content|);
    hide WriteU32;
    SliceIs(b, at, f.name);
    SliceIs(b, z, [0, f.kind]);
    SliceIs(b, z + 2, size);
    SliceIs(b, z + 6, f.content);
    SplitIn4(b, at, z, z + 2, z + 6, z + 6 + |f.content|);
  }

  lemma SliceIs(b: seq<Byte>, i: nat, t: seq<Byte>)
    requires i + |t| <= |b| && forall k :: i <= k < i + |t| ==> b[k] == t[k - i]
    ensures b[i..i + |t|] == t
  {
  }

  lemma SplitIn4(b: seq<Byte>, i: nat, j: nat, k: nat, l: nat, m: nat)
    requires i <= j <= k <= l <= m <= |b|
    ensures b[i..m] == b[i..j] + b[j..k] + b[k..l] + b[l..m]
  {
    SplitIn2(b, i, j, k);
    SplitIn2(b, i, k, l);
    SplitIn2(b, i, l, m);
  }

  lemma SplitIn2(b: seq<Byte>, i: nat, j: nat, k: nat)
    requires i <= j <= k <= |b|
    ensures b[i..k] == b[i..j] + b[j..k]
  {
  }

  /** A block whose name ends at `z` lies within the buffer, wide enough for its type if it is swapped. */
  ghost predicate HasBlock(n: Order, swap: bool, s: seq<Byte>, z: nat) {
    && z + 6 <= |s| && s[z] == 0 && z + 6 + ReadSize(n, swap, s[z + 2..z + 6]) <= |s|
    && (swap ==> SwapWidth(s[z + 1]) <= ReadSize(n, swap, s[z + 2..z + 6]))
  }

  ghost function BlockAt(n: Order, swap: bool, s: seq<Byte>, at: nat, z: nat): Field
    requires at <= z && HasBlock(n, swap, s, z)
  {
    var c := s[z + 6..z + 6 + ReadSize(n, swap, s[z + 2..z + 6])];
    Field(s[at..z], s[z + 1], if swap then SwapBytes(s[z + 1], c) else c)
  }

  lemma BlockFits(n: Order, swap: bool, s: seq<Byte>, at: nat, z: nat)
    requires at <= z && HasBlock(n, swap, s, z)
    ensures z + 6 <= |s| && s[z] == 0
    ensures var size := ReadSize(n, swap, s[z + 2..z + 6]);
            && z + 6 + size <= |s| && (swap ==> SwapWidth(s[z + 1]) <= size)
            && BlockAt(n, swap, s, at, z) == Field(s[at..z], s[z + 1],
                 if swap then SwapBytes(s[z + 1], s[z + 6..z + 6 + size]) else s[z + 6..z + 6 + size])
            && |BlockAt(n, swap, s, at, z).content| == size
  {
    hide ReadSize;
  }

  lemma DecodedBlock(n: Order, swap: bool, s: seq<Byte>, pos: nat)
    requires pos <= |s| && DecodeField(n, swap, s[pos..]).Some?
    ensures var p, z := DecodeField(n, swap, s[pos..]).value, NameEnd(s, pos);
            && HasBlock(n, swap, s, z) && p.field == BlockAt(n, swap, s, pos, z)
            && pos + p.used == z + 6 + |p.field.content| && |p.field.name| == z - pos
  {
    hide *;
    DecodedParts(n, swap, s, pos);
    Assembled(n, swap, s, pos, NameEnd(s, pos), DecodeField(n, swap, s[pos..]).value.field);
  }

  lemma Assembled(n: Order, swap: bool, s: seq<Byte>, at: nat, z: nat, f: Field)
    requires at <= z && z + 6 + |f.content| <= |s|
    requires f.name == s[at..z] && s[z] == 0 && f.kind == s[z + 1]
    requires |f.content| == ReadSize(n, swap, s[z + 2..z + 6]) && (swap ==> SwapWidth(f.kind) <= |f.content|)
    requires f.content == (var c := s[z + 6..z + 6 + |f.content|]; if swap then SwapBytes(f.kind, c) else c)
    ensures HasBlock(n, swap, s, z) && f == BlockAt(n, swap, s, at, z) && |f.name| == z - at
  {
    hide ReadSize, SwapBytes, SwapWidth;
  }

  /** One turn of the loop of parse moves one field from what is still to decode to what is decoded. */
  lemma ParseStep(n: Order, swap: bool, s: seq<Byte>, pos: nat, decoded: seq<Field>)
    requires pos < |s| && DecodeFields(n, swap, s[pos..]).Some?
    ensures DecodeField(n, swap, s[pos..]).Some? && pos + DecodeField(n, swap, s[pos..]).value.used <= |s|
    ensures DecodeFields(n, swap, s[pos + DecodeField(n, swap, s[pos..]).value.used..]).Some?
    ensures var p := DecodeField(n, swap, s[pos..]).value;
            && decoded + DecodeFields(n, swap, s[pos..]).value
            == decoded + [p.field] + DecodeFields(n, swap, s[pos + p.used..]).value
            && EncodeFields(n, decoded + [p.field]) == EncodeFields(n, decoded) + EncodeField(n, p.field)
  {
    hide DecodeField, EncodeField;
    var p := DecodeField(n, swap, s[pos..]).value;
    assert s[pos..][p.used..] == s[pos + p.used..];
    EncodeFieldsAppend(n, decoded, [p.field]);
    assert EncodeFields(n, [p.field]) == EncodeField(n, p.field) + EncodeFields(n, []);
  }

  lemma NameEndIs(s: seq<Byte>, pos: nat)
    requires pos <= |s|
    ensures NameEnd(s, pos) == pos + StrLen(s[pos..])
  {
  }

  lemma ParseStart(n: Order, s: seq<Byte>)
    requires |s| > 1 && Readable(n, s)
    ensures DecodeFields(n, s[0] != Tag(n), s[1..]) == Some(FieldsOf(n, s)) && FieldsOf(n, s) != []
    ensures EncodeFields(n, []) == []
    ensures forall swap :: DecodeFields(n, swap, []) == Some([])
  {
    hide DecodeField, EncodeField;
  }

  /** A record in host order, with one block more, is read back with one field more. */
  lemma PutReadable(n: Order, s: seq<Byte>, f: Field)
    requires Readable(n, s) && s[0] == Tag(n) && NulFree(f.name) && |f.content| < U32_LIMIT
    ensures Readable(n, s + EncodeField(n, f)) && FieldsOf(n, s + EncodeField(n, f)) == FieldsOf(n, s) + [f]
  {
    assert |EncodeField(n, f)| >= 6;
    hide DecodeFields, EncodeField, NulFree, EncodeFields;
    var fs := FieldsOf(n, s);
    if |s| == 1 {
      OnlyTag(n, s);
    } else {
      DecodeIsInverse(n, n, s);
    }
    PutExtends(n, n, fs, f);
  }

  lemma OnlyTag(n: Order, s: seq<Byte>)
    requires |s| == 1 && s[0] == Tag(n)
    ensures s == Encode(n, n, [])
  {
  }

  // ---- several puts ----

  /** A record of this capacity and size takes these fields, one after the other. */
  predicate CanPutAll(n: Order, capacity: nat, size: nat, fs: seq<Field>)
    decreases |fs|
  {
    fs == []
    || (var goal := size + |EncodeField(n, fs[0])|;
        CanGrow(capacity, size, goal, TURNS) && CanPutAll(n, Grown(capacity, goal, TURNS), goal, fs[1..]))
  }

  lemma Assoc<T>(a: seq<T>, b: seq<T>, c: seq<T>)
    ensures a + b + c == a + (b + c)
  {
  }

  lemma EncodeNative(n: Order, fs: seq<Field>)
    ensures Encode(n, n, fs) == [Tag(n)] + EncodeFields(n, fs)
  {
    NativeSeen(n, fs);
  }

  lemma NextBlock(n: Order, all: seq<Field>, k: nat)
    requires k < |all|
    ensures EncodeFields(n, all[..k + 1]) == EncodeFields(n, all[..k]) + EncodeField(n, all[k])
    ensures |EncodeFields(n, all[..k + 1])| <= |EncodeFields(n, all)|
  {
    hide EncodeField;
    assert all[..k + 1] == all[..k] + [all[k]] && all == all[..k + 1] + all[k + 1..];
    EncodeFieldsAppend(n, all[..k], [all[k]]);
    EncodeFieldsAppend(n, all[..k + 1], all[k + 1..]);
    assert EncodeFields(n, [all[k]]) == EncodeField(n, all[k]) + EncodeFields(n, []);
  }

  lemma SizeIs(record: Flat)
    requires record.Valid()
    ensures record.Layout() && |record.Bytes()| == record.size && record.Bytes() == record.buffer[..record.size]
  {
  }

  /** Puts a field into a record that also has room for the rest. */
  method Append(file: Flat, f: Field, ghost rest: seq<Field>)
    requires file.Valid() && CanPutAll(file.native, file.capacity, file.size, [f] + rest)
    modifies file, file.buffer
    ensures file.Valid() && (file.buffer == old(file.buffer) || fresh(file.buffer))
    ensures file.Bytes() == old(file.Bytes()) + EncodeField(file.native, f)
    ensures CanPutAll(file.native, file.capacity, file.size, rest) && file.data == old(file.data)
  {
    assert ([f] + rest)[1..] == rest;
    hide EncodeField, CanGrow, Grown;
    SizeIs(file);
    file.Put(f);
    SizeIs(file);
  }

  lemma NextPut(n: Order, fs: seq<Field>, i: nat)
    requires i < |fs|
    ensures fs[i..] == [fs[i]] + fs[i + 1..]
    ensures [Tag(n)] + EncodeFields(n, fs[..i]) + EncodeField(n, fs[i]) == [Tag(n)] + EncodeFields(n, fs[..i + 1])
  {
    NextBlock(n, fs, i);
    Assoc([Tag(n)], EncodeFields(n, fs[..i]), EncodeField(n, fs[i]));
    hide EncodeField, EncodeFields;
  }

  lemma AllPut(n: Order, fs: seq<Field>, s: seq<Byte>)
    requires AllNulFree(fs) && s == [Tag(n)] + EncodeFields(n, fs) && |s| < U32_LIMIT
    ensures Readable(n, s) && FieldsOf(n, s) == fs && s == Encode(n, n, fs) && (|s| == 1 ==> fs == [])
  {
    EncodeNative(n, fs);
    ContentsFit(n, n, fs);
    if fs == [] {
      assert EncodeFields(n, fs) == [];
    } else {
      assert |EncodeField(n, fs[0])| >= 6 && |s| > 1;
      RecordRoundTrip(n, n, fs);
    }
  }

  /**
   * Any sequence of puts into an empty record, whatever growth they take, and then a parse: the decoded list
   * is that sequence, and the buffer is its encoding.
   */
  method PutAllAndParse(file: Flat, fs: seq<Field>)
    requires file.Valid() && file.data == [] && file.Bytes() == Encode(file.native, file.native, [])
    requires AllNulFree(fs) && CanPutAll(file.native, file.capacity, file.size, fs)
    modifies file, file.buffer
    ensures file.Layout() && file.data == fs && file.Bytes() == Encode(file.native, file.native, fs)
  {
    ghost var n := file.native;
    EncodeNative(n, []);
    assert fs[..0] == [] && fs[0..] == fs;
    hide *;
    var i := 0;
    while i < |fs|
      invariant i <= |fs| && file.Valid() && file.Layout() && file.data == []
      invariant file.buffer == old(file.buffer) || fresh(file.buffer)
      invariant file.Bytes() == [Tag(n)] + EncodeFields(n, fs[..i])
      invariant CanPutAll(n, file.capacity, file.size, fs[i..])
    {
      NextPut(n, fs, i);
      Append(file, fs[i], fs[i + 1..]);
      SizeIs(file);
      i := i + 1;
    }
    assert fs[..i] == fs;
    SizeIs(file);
    AllPut(n, fs, file.Bytes());
    file.Parse();
  }

  /** Among older fields and one that was just put, the search from the start finds the new one. */
  lemma NewestFoundIff(older: seq<Field>, f: Field)
    ensures Search(older + [f], 0, f.name) == Some(|older|) <==> !Has(older, f.name)
  {
    var fs := older + [f];
    SearchComplete(fs, 0, f.name);
    if k :| 0 <= k < |older| && older[k].name == f.name {
      assert fs[k] == older[k];
    }
    assert fs[|older|] == f;
  }

  /** The field just put is part of the decoded list, and is what the last get returned. */
  predicate IsLast(data: seq<Field>, decoded: nat, older: seq<Field>, f: Field, result: Option<Field>) {
    data == older + [f] && decoded == |older| + 1 && result == Some(f)
  }

  lemma GotIff(none: bool, data: seq<Field>, cur: nat, older: seq<Field>, f: Field, result: Option<Field>,
               decoded: nat)
    requires data == (if none then older + [f] else older) && cur <= |data| && (none ==> cur == 0)
    requires var hit := Search(data, cur, f.name);
             result == (if hit.Some? then Some(data[hit.value]) else None) && decoded == CursorAfter(cur, hit)
    ensures IsLast(data, decoded, older, f, result) <==> none && !Has(older, f.name)
  {
    NewestFoundIff(older, f);
    SearchComplete(older + [f], 0, f.name);
    assert (older + [f])[|older|] == f;
    hide Search, Has;
  }

  /**
   * A put and then a get of the same name: the field just put is returned exactly if nothing was decoded
   * before and no older field has its name. put does not touch the decoded list, and get starts in front.
   */
  method PutAndGet(file: Flat, f: Field) returns (result: Option<Field>)
    requires file.Valid() && NulFree(f.name)
    requires CanGrow(file.capacity, file.size, file.size + |EncodeField(file.native, f)|, TURNS)
    requires file.data == [] ==> Readable(file.native, file.Bytes()) && file.Bytes()[0] == Tag(file.native)
    modifies file, file.buffer
    ensures file.Valid()
    ensures var older := if old(file.data) != [] then old(file.data) else FieldsOf(file.native, old(file.Bytes()));
            IsLast(file.data, file.decoded, older, f, result) <==> old(file.data) == [] && !Has(older, f.name)
  {
    ghost var n, s, data := file.native, file.Bytes(), file.data;
    ghost var older := if data != [] then data else FieldsOf(n, s);
    hide FieldsOf, Readable, Encode, EncodeField, Search, CStr, Has, CanGrow, Grown, IsLast;
    NulFreeIsWhole(f.name);
    file.Put(f);
    ContentIsShort(file, s, f);
    if data == [] {
      PutReadable(n, s, f);
    }
    ghost var cur := if data != [] then file.decoded else 0;
    result := file.Get(f.name, f.kind, false);
    GotIff(data == [], file.data, cur, older, f, result, file.decoded);
  }

  lemma ContentIsShort(file: Flat, s: seq<Byte>, f: Field)
    requires file.Valid() && file.Bytes() == s + EncodeField(file.native, f)
    ensures |f.content| < U32_LIMIT
  {
    assert |file.Bytes()| == file.size;
  }

  /** After a field called a was decoded, one put under the same name is not found from any position. */
  lemma SecondPutNotFound(cur: nat)
    requires cur <= 1
    ensures Search([Field([97], T_UINT8, [1])], cur, [97]) == Some(0)
  {
  }

  lemma NativeSeen(n: Order, fs: seq<Field>)
    ensures SeenAll(n, n, fs) == fs
  {
  }
}
