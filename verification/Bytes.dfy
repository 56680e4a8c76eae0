/** Bytes, byte order and the fixed-width integers a record stores. */
module Bytes {
  import opened Common

  type Byte = b: int | 0 <= b < 0x100

  /** The byte order of a host, and of a record written by it. */
  datatype Order = Little | Big

  function Other(o: Order): Order {
    if o.Little? then Big else Little
  }

  /** First byte of a record: 'L' or 'B'. */
  function Tag(o: Order): Byte {
    if o.Little? then 76 else 66
  }

  /** The portable form of Swap16, its shifts and bit-ors written as arithmetic on 16 bits. */
  function Swap16(x: nat): nat {
    x % 0x100 * 0x100 + x / 0x100 % 0x100
  }

  /** The portable form of Swap32: four disjoint byte lanes, so the bit-ors are sums. */
  function Swap32(x: nat): nat {
    x % 0x100 * 0x100_0000 + x / 0x100 % 0x100 * 0x1_0000 + x / 0x1_0000 % 0x100 * 0x100 + x / 0x100_0000 % 0x100
  }

  function Join(b0: nat, b1: nat, b2: nat, b3: nat): nat {
    b0 + b1 * 0x100 + b2 * 0x1_0000 + b3 * 0x100_0000
  }

  /** A u_int16 as it lies in the memory of a host; wider values are truncated. */
  function WriteU16(o: Order, n: nat): (s: seq<Byte>)
    ensures |s| == 2
  {
    var b0: Byte, b1: Byte := n % 0x100, n / 0x100 % 0x100;
    if o.Little? then [b0, b1] else [b1, b0]
  }

  function ReadU16(o: Order, s: seq<Byte>): nat
    requires |s| == 2
  {
    if o.Little? then Join(s[0], s[1], 0, 0) else Join(s[1], s[0], 0, 0)
  }

  /** A u_int32 as it lies in the memory of a host; wider values are truncated. */
  function WriteU32(o: Order, n: nat): (s: seq<Byte>)
    ensures |s| == 4
  {
    var b0: Byte, b1: Byte, b2: Byte, b3: Byte :=
      n % 0x100, n / 0x100 % 0x100, n / 0x100 / 0x100 % 0x100, n / 0x100 / 0x100 / 0x100 % 0x100;
    if o.Little? then [b0, b1, b2, b3] else [b3, b2, b1, b0]
  }

  function ReadU32(o: Order, s: seq<Byte>): nat
    requires |s| == 4
  {
    if o.Little? then Join(s[0], s[1], s[2], s[3]) else Join(s[3], s[2], s[1], s[0])
  }

  /** Reinterprets a signed number of a type with `width` values as unsigned (two's complement). */
  function ToUnsigned(v: int, width: nat): nat
    requires 0 <= v + width
  {
    if v < 0 then v + width else v
  }

  /** Reinterprets an unsigned number of a type with `width` values as signed. */
  function ToSigned(n: nat, width: nat): int {
    if n < width / 2 then n else n - width
  }

  lemma U16RoundTrip(o: Order, n: nat)
    requires n < 0x1_0000
    ensures ReadU16(o, WriteU16(o, n)) == n
  {
    var n1 := n / 0x100;
    assert n1 < 0x100;
    assert n == Join(n % 0x100, n1, 0, 0);
  }

  lemma U16Bytes(o: Order, s: seq<Byte>)
    requires |s| == 2
    ensures ReadU16(o, s) < 0x1_0000 && WriteU16(o, ReadU16(o, s)) == s
  {
    Lanes(s[0], s[1], 0, 0);
    Lanes(s[1], s[0], 0, 0);
  }

  lemma U32RoundTrip(o: Order, n: nat)
    requires n < U32_LIMIT
    ensures ReadU32(o, WriteU32(o, n)) == n
  {
    var n1 := n / 0x100;
    var n2 := n1 / 0x100;
    var n3 := n2 / 0x100;
    assert n == n1 * 0x100 + n % 0x100 && n1 == n2 * 0x100 + n1 % 0x100 && n2 == n3 * 0x100 + n2 % 0x100;
    assert n3 < 0x100 && n3 % 0x100 == n3;
    assert n == Join(n % 0x100, n1 % 0x100, n2 % 0x100, n3);
    hide Join;
  }

  lemma U32Bytes(o: Order, s: seq<Byte>)
    requires |s| == 4
    ensures ReadU32(o, s) < U32_LIMIT && WriteU32(o, ReadU32(o, s)) == s
  {
    Lanes(s[0], s[1], s[2], s[3]);
    Lanes(s[3], s[2], s[1], s[0]);
    hide Join;
  }

  /** The bytes a number is joined from come out again, by shifts and by repeated division. */
  lemma Lanes(b0: Byte, b1: Byte, b2: Byte, b3: Byte)
    ensures var n := Join(b0, b1, b2, b3);
            && n < U32_LIMIT
            && n % 0x100 == b0
            && n / 0x100 % 0x100 == b1
            && n / 0x1_0000 % 0x100 == n / 0x100 / 0x100 % 0x100 == b2
            && n / 0x100_0000 % 0x100 == n / 0x100 / 0x100 / 0x100 % 0x100 == b3
  {
    var n := Join(b0, b1, b2, b3);
    assert n / 0x100 == b1 + b2 * 0x100 + b3 * 0x1_0000;
    assert n / 0x100 / 0x100 == b2 + b3 * 0x100;
    assert n / 0x1_0000 == b2 + b3 * 0x100;
    assert n / 0x100_0000 == n / 0x100 / 0x100 / 0x100 == b3;
  }

  lemma SubSlice<T>(s: seq<T>, i: nat, j: nat, k: nat, l: nat)
    requires i <= j <= |s| && k <= l <= j - i
    ensures s[i..j][k..l] == s[i + k..i + l]
  {
    assert s[i..j][k..l] == s[i..j][..l][k..];
    assert s[i..j][..l] == s[..i + l][i..];
  }

  /** Reading 32 bits with the wrong byte order and swapping gives what the right order reads. */
  lemma Swap32ReadsOther(o: Order, s: seq<Byte>)
    requires |s| == 4
    ensures Swap32(ReadU32(o, s)) == ReadU32(Other(o), s)
  {
    Swap32Join(s[0], s[1], s[2], s[3]);
    Swap32Join(s[3], s[2], s[1], s[0]);
  }

  lemma Swap32Join(b0: Byte, b1: Byte, b2: Byte, b3: Byte)
    ensures Swap32(Join(b0, b1, b2, b3)) == Join(b3, b2, b1, b0)
  {
    Lanes(b0, b1, b2, b3);
    var x := Join(b0, b1, b2, b3);
    assert x / 0x100_0000 % 0x100 == b3 % 0x100 == b3;
  }

  lemma Swap16ReadsOther(o: Order, s: seq<Byte>)
    requires |s| == 2
    ensures Swap16(ReadU16(o, s)) == ReadU16(Other(o), s)
  {
    Lanes(s[0], s[1], 0, 0);
    Lanes(s[1], s[0], 0, 0);
  }

  /** Swapping 32 bits in memory reverses the four bytes. */
  lemma Swap32Reverses(o: Order, s: seq<Byte>)
    requires |s| == 4
    ensures WriteU32(o, Swap32(ReadU32(o, s))) == [s[3], s[2], s[1], s[0]]
  {
    Swap32ReadsOther(o, s);
    U32Bytes(Other(o), s);
  }

  lemma Swap16Reverses(o: Order, s: seq<Byte>)
    requires |s| == 2
    ensures WriteU16(o, Swap16(ReadU16(o, s))) == [s[1], s[0]]
  {
    Swap16ReadsOther(o, s);
    U16Bytes(Other(o), s);
  }
}
