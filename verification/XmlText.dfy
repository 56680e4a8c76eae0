/** Primitive values as XML text: how the writer prints them and how the reader converts them back. */
module XmlText {
  import opened Common
  import opened Bytes
  import opened Record

  type Text = seq<Byte>

  const I63 := 0x8000_0000_0000_0000

  // ---- decimal numbers ----

  predicate IsDigit(b: Byte) {
    48 <= b <= 57
  }

  predicate IsSpace(b: Byte) {
    b == 32 || 9 <= b <= 13
  }

  /** An unsigned number as an output stream prints it. */
  function Dec(n: nat): (s: Text)
    ensures s != [] && forall i :: 0 <= i < |s| ==> IsDigit(s[i])
  {
    if n < 10 then [48 + n] else Dec(n / 10) + [48 + n % 10]
  }

  function SignedDec(v: int): Text {
    if v < 0 then [45] + Dec(-v) else Dec(v)
  }

  function Digit(b: Byte): nat
    requires IsDigit(b)
  {
    b as int - 48
  }

  function DigitsValue(s: Text): nat
    requires forall i :: 0 <= i < |s| ==> IsDigit(s[i])
  {
    if s == [] then 0 else DigitsValue(s[..|s| - 1]) * 10 + Digit(s[|s| - 1])
  }

  function SkipSpace(s: Text): (i: nat)
    ensures i <= |s|
  {
    if s != [] && IsSpace(s[0]) then 1 + SkipSpace(s[1..]) else 0
  }

  function DigitRun(s: Text): (i: nat)
    ensures i <= |s| && forall j :: 0 <= j < i ==> IsDigit(s[j])
  {
    if s != [] && IsDigit(s[0]) then 1 + DigitRun(s[1..]) else 0
  }

  /** What strtoul and strtol recognise: blanks, a sign, digits. `whole` is the test `*end == 0`. */
  datatype Scan = Scan(negative: bool, magnitude: nat, whole: bool)

  function ScanNumber(s: Text): Scan {
    var t := s[SkipSpace(s)..];
    var signed := t != [] && (t[0] == 45 || t[0] == 43);
    var u := if signed then t[1..] else t;
    var k := DigitRun(u);
    // without digits the end pointer is the start of the string
    if k == 0 then Scan(false, 0, s == [])
    else Scan(signed && t[0] == 45, DigitsValue(u[..k]), k == |u|)
  }

  /** strtoul with a 64 bit unsigned long: saturates, and negates modulo the word. */
  function Strtoul(c: Scan): nat {
    if c.magnitude >= U64_LIMIT then U64_LIMIT - 1
    else if c.negative && c.magnitude > 0 then U64_LIMIT - c.magnitude
    else c.magnitude
  }

  /** strtol with a 64 bit long: saturates both ways. */
  function Strtol(c: Scan): int {
    if c.negative then (if c.magnitude > I63 then -I63 else 0 - c.magnitude)
    else if c.magnitude >= I63 then I63 - 1
    else c.magnitude
  }

  function StringToUint(s: Text, max: nat): nat {
    var c := ScanNumber(s);
    var intval := Strtoul(c) % U32_LIMIT;
    if !c.whole then 0 else if intval > max then max else intval
  }

  function StringToSint(s: Text, min: int, max: int): int {
    var c := ScanNumber(s);
    var intval := ToSigned(Strtol(c) % U32_LIMIT, U32_LIMIT);
    if !c.whole then -1 else if intval < min then min else if intval > max then max else intval
  }

  lemma {:induction false} DecValue(n: nat)
    ensures DigitsValue(Dec(n)) == n
  {
    if n >= 10 {
      DecValue(n / 10);
      assert Dec(n)[..|Dec(n)| - 1] == Dec(n / 10);
    }
  }

  lemma {:induction false} AllDigits(s: Text)
    requires forall i :: 0 <= i < |s| ==> IsDigit(s[i])
    ensures DigitRun(s) == |s|
  {
    if s != [] {
      AllDigits(s[1..]);
    }
  }

  lemma ScanDec(n: nat)
    ensures ScanNumber(Dec(n)) == Scan(false, n, true)
  {
    var s := Dec(n);
    assert SkipSpace(s) == 0;
    assert s[0..] == s;
    AllDigits(s);
    DecValue(n);
    assert s[..|s|] == s;
  }

  lemma ScanNegative(n: nat)
    ensures ScanNumber([45] + Dec(n)) == Scan(true, n, true)
  {
    var s := [45] + Dec(n);
    assert SkipSpace(s) == 0;
    assert s[0..] == s && s[1..] == Dec(n);
    AllDigits(Dec(n));
    DecValue(n);
    assert Dec(n)[..|Dec(n)|] == Dec(n);
  }

  /** Unsigned numbers in range are read back as printed. */
  lemma UintRoundTrip(n: nat, max: nat)
    requires n <= max < U32_LIMIT
    ensures StringToUint(Dec(n), max) == n
  {
    ScanDec(n);
  }

  /** Signed numbers in range are read back as printed. */
  lemma SintRoundTrip(v: int, min: int, max: int)
    requires -0x8000_0000 <= min <= v <= max < 0x8000_0000
    ensures StringToSint(SignedDec(v), min, max) == v
  {
    assert v % U32_LIMIT == if v < 0 then v + U32_LIMIT else v;
    if v < 0 {
      ScanNegative(-v);
    } else {
      ScanDec(v);
    }
    hide Dec, ScanNumber;
  }

  /**
   * A printed number above the maximum is clamped to it exactly when the low 32 bits of what strtoul
   * returns still exceed the maximum or equal it; the cast to 32 bits comes before the range check.
   */
  lemma OverflowClampedIff(n: nat, max: nat)
    requires max < n && max < U32_LIMIT
    ensures StringToUint(Dec(n), max) == max <==> (if n >= U64_LIMIT then U64_LIMIT - 1 else n) % U32_LIMIT >= max
  {
    ScanDec(n);
  }

  lemma ScanSigned(v: int)
    ensures ScanNumber(SignedDec(v)).whole
    ensures Strtol(ScanNumber(SignedDec(v))) == if v >= I63 then I63 - 1 else if v < -I63 then -I63 else v
  {
    hide Dec, ScanNumber;
    if v < 0 {
      ScanNegative(-v);
    } else {
      ScanDec(v);
    }
  }

  /** The same for signed numbers beyond either limit. */
  lemma SignedOverflowClampedIff(v: int, min: int, max: int)
    requires -0x8000_0000 <= min < max < 0x8000_0000 && !(min <= v <= max)
    ensures var long := if v >= I63 then I63 - 1 else if v < -I63 then -I63 else v;
            var cast := ToSigned(long % U32_LIMIT, U32_LIMIT);
            StringToSint(SignedDec(v), min, max) == (if v > max then max else min)
            <==> if v > max then cast >= max else cast <= min
  {
    ScanSigned(v);
    hide ScanNumber, SignedDec, Strtol, ToSigned;
  }

  /** 4294967296 is read as 0, and what follows it as if it had wrapped around, instead of as the maximum. */
  lemma OverflowNotClamped(k: nat, max: nat)
    requires k <= max < U32_LIMIT
    ensures StringToUint(Dec(U32_LIMIT + k), max) == k
  {
    ScanDec(U32_LIMIT + k);
  }

  predicate Blank(s: Text) {
    forall i :: 0 <= i < |s| ==> s[i] == 32 || 9 <= s[i] <= 13
  }

  /** Digits and nothing else, and no digit behind them. */
  predicate Digits(s: Text, rest: Text) {
    && (forall i :: 0 <= i < |s| ==> 48 <= s[i] <= 57)
    && (rest != [] ==> !(48 <= rest[0] <= 57))
  }

  lemma {:induction false} SkipsBlank(blank: Text, rest: Text)
    requires Blank(blank) && (rest != [] ==> !IsSpace(rest[0]))
    ensures SkipSpace(blank + rest) == |blank|
  {
    if blank == [] {
      assert blank + rest == rest;
    } else {
      assert (blank + rest)[1..] == blank[1..] + rest;
      SkipsBlank(blank[1..], rest);
    }
  }

  lemma {:induction false} RunsOver(digits: Text, rest: Text)
    requires Digits(digits, rest)
    ensures DigitRun(digits + rest) == |digits|
  {
    if digits == [] {
      assert digits + rest == rest;
    } else {
      assert (digits + rest)[1..] == digits[1..] + rest;
      RunsOver(digits[1..], rest);
    }
  }

  /** Blanks, a sign or none, digits, and whatever follows: the number is read, and whole if nothing follows. */
  lemma ScanAny(blank: Text, sign: Text, digits: Text, rest: Text)
    requires Blank(blank) && (sign == [] || sign == [43] || sign == [45]) && Digits(digits, rest) && digits != []
    ensures ScanNumber(blank + (sign + (digits + rest))) == Scan(sign == [45], DigitsValue(digits), rest == [])
  {
    var u, s := digits + rest, blank + (sign + (digits + rest));
    SkipsBlank(blank, sign + u);
    RunsOver(digits, rest);
    hide SkipSpace, DigitRun, DigitsValue;
    assert s[|blank|..] == sign + u && u[..|digits|] == digits && u[0] == digits[0];
    if sign == [] {
      assert sign + u == u;
    } else {
      assert (sign + u)[1..] == u && (sign + u)[0] == sign[0];
    }
  }

  /** Without a digit nothing is read, and the number is only whole if there is no text at all. */
  lemma NoDigits(blank: Text, sign: Text, rest: Text)
    requires Blank(blank) && (sign == [] || sign == [43] || sign == [45])
    requires rest != [] ==> !IsDigit(rest[0]) && (sign == [] ==> !IsSpace(rest[0]) && rest[0] != 43 && rest[0] != 45)
    ensures var s := blank + (sign + rest); ScanNumber(s) == Scan(false, 0, s == [])
  {
    SkipsBlank(blank, sign + rest);
    RunsOver([], rest);
    hide SkipSpace, DigitRun, DigitsValue;
    assert (blank + (sign + rest))[|blank|..] == sign + rest && [] + rest == rest;
    if sign == [] {
      assert sign + rest == rest;
    } else {
      assert (sign + rest)[1..] == rest && (sign + rest)[0] == sign[0];
    }
  }

  /** A negative number as text of an unsigned type wraps around before it is clamped. */
  lemma NegativeAsUnsigned(n: nat, max: nat)
    requires 0 < n < U32_LIMIT && max < U32_LIMIT
    ensures StringToUint([45] + Dec(n), max) == if U32_LIMIT - n > max then max else U32_LIMIT - n
  {
    ScanNegative(n);
    hide ScanNumber, Dec;
    assert (U64_LIMIT - n) % U32_LIMIT == U32_LIMIT - n;
  }

  /** Text that is not a whole number is 0 as an unsigned number, and as a signed one -1, whatever the limits. */
  lemma NotANumber(blank: Text, sign: Text, digits: Text, rest: Text, min: int, max: nat)
    requires Blank(blank) && (sign == [] || sign == [43] || sign == [45]) && Digits(digits, rest)
    requires digits != [] && rest != []
    ensures var s := blank + (sign + (digits + rest)); StringToUint(s, max) == 0 && StringToSint(s, min, max) == -1
  {
    ScanAny(blank, sign, digits, rest);
    hide ScanNumber;
  }

  // ---- hexadecimal blobs ----

  function HexDigit(v: nat): Byte
    requires v < 16
  {
    if v < 10 then 48 + v else 55 + v
  }

  /** Position of a character in the digit table; None where strchr finds nothing. */
  function HexValue(b: Byte): Option<nat> {
    if 48 <= b <= 57 then Some(b - 48) else if 65 <= b <= 70 then Some(b - 55) else None
  }

  function Hex(s: seq<Byte>): (r: Text)
    ensures |r| == 2 * |s|
  {
    if s == [] then [] else [HexDigit(s[0] / 16), HexDigit(s[0] % 16)] + Hex(s[1..])
  }

  function Unhex(s: Text): Option<seq<Byte>> {
    if s == [] then Some([])
    else if |s| == 1 || HexValue(s[0]).None? || HexValue(s[1]).None? then None
    else
      match Unhex(s[2..])
      case None => None
      case Some(rest) => Some([HexValue(s[0]).value * 16 + HexValue(s[1]).value] + rest)
  }

  lemma {:induction false} HexRoundTrip(s: seq<Byte>)
    ensures Unhex(Hex(s)) == Some(s) && NulFree(Hex(s))
  {
    if s != [] {
      HexRoundTrip(s[1..]);
      assert Hex(s)[2..] == Hex(s[1..]);
      assert s == [s[0]] + s[1..];
      assert s[0] / 16 * 16 + s[0] % 16 == s[0];
    }
  }

  /** The loop of value_to_xmlChar over a blob. */
  method BlobToHex(bin: seq<Byte>) returns (hex: Text)
    ensures hex == Hex(bin)
  {
    hex := [];
    var i := 0;
    while i < |bin|
      invariant i <= |bin| && hex + Hex(bin[i..]) == Hex(bin)
    {
      assert bin[i..][1..] == bin[i + 1..];
      hex := hex + [HexDigit(bin[i] / 16), HexDigit(bin[i] % 16)];
      i := i + 1;
    }
  }

  lemma {:induction false} UnhexStep(s: Text, bin: seq<Byte>)
    requires s != [] && Unhex(s).Some?
    ensures |s| >= 2 && HexValue(s[0]).Some? && HexValue(s[1]).Some? && Unhex(s[2..]).Some?
    ensures bin + Unhex(s).value
         == bin + [HexValue(s[0]).value * 16 + HexValue(s[1]).value] + Unhex(s[2..]).value
  {
    hide HexValue;
  }

  /** The loop of param_to_value over hexadecimal text; the text must be pairs of table digits. */
  method HexToBlob(value: Text) returns (bin: seq<Byte>)
    requires Unhex(value).Some?
    ensures Some(bin) == Unhex(value)
  {
    bin := [];
    var at := 0;
    assert value[0..] == value;
    while at < |value|
      invariant at <= |value| && Unhex(value[at..]).Some?
      invariant bin + Unhex(value[at..]).value == Unhex(value).value
    {
      UnhexStep(value[at..], bin);
      assert value[at..][2..] == value[at + 2..];
      hide Unhex, HexValue;
      bin := bin + [HexValue(value[at]).value * 16 + HexValue(value[at + 1]).value];
      at := at + 2;
    }
    assert value[at..] == [] && bin + [] == bin;
  }

  // ---- values ----

  predicate IsSigned(kind: Byte) {
    kind == T_SINT8 || kind == T_SINT16 || kind == T_SINT32
  }

  /** Bytes of an integer type, 0 for the other types. */
  function IntWidth(kind: Byte): nat {
    if kind == T_UINT8 || kind == T_SINT8 then 1
    else if kind == T_UINT16 || kind == T_SINT16 then 2
    else if kind == T_UINT32 || kind == T_SINT32 then 4
    else 0
  }

  function Modulus(width: nat): nat {
    if width == 1 then 0x100 else if width == 2 then 0x1_0000 else U32_LIMIT
  }

  function ReadInt(n: Order, c: seq<Byte>): nat
    requires |c| == 1 || |c| == 2 || |c| == 4
  {
    if |c| == 1 then c[0] else if |c| == 2 then ReadU16(n, c) else ReadU32(n, c)
  }

  function WriteInt(n: Order, width: nat, v: nat): seq<Byte> {
    if width == 1 then [v % 0x100] else if width == 2 then WriteU16(n, v) else WriteU32(n, v)
  }

  /** The integer a content stands for. */
  function IntOf(n: Order, kind: Byte, c: seq<Byte>): int
    requires IntWidth(kind) == |c| != 0
  {
    var u := ReadInt(n, c);
    if IsSigned(kind) then ToSigned(u, Modulus(|c|)) else u
  }

  /** The text of an integer field converted with the limits of its type. */
  function TextToInt(kind: Byte, v: Text): nat
    requires IntWidth(kind) != 0
  {
    var m := Modulus(IntWidth(kind));
    var half: int := m / 2;
    if IsSigned(kind) then ToUnsigned(StringToSint(v, -half, half - 1), m) else StringToUint(v, m - 1)
  }

  /** The content has the size its type is printed from. Floating point and nested records have no text here. */
  predicate Printable(f: Field) {
    var c := f.content;
    if f.kind == T_BOOL || f.kind == T_CHAR then |c| == 1
    else if f.kind == T_STRING then StrLen(c) < |c|
    else if IntWidth(f.kind) != 0 then |c| == IntWidth(f.kind)
    else f.kind == T_BLOB
  }

  /** What put_bool and put_string guarantee beyond the size: a truth value, a string that ends at its NUL. */
  predicate Canonical(f: Field) {
    && Printable(f)
    && (f.kind == T_BOOL ==> f.content[0] <= 1)
    && (f.kind == T_STRING ==> StrLen(f.content) == |f.content| - 1)
  }

  /** value_to_xmlChar; the result is handed on as a C string. */
  function ValueToText(n: Order, f: Field): Text
    requires Printable(f)
  {
    var c := f.content;
    if f.kind == T_BOOL then SignedDec(c[0])
    else if f.kind == T_CHAR then CStr(c)
    else if f.kind == T_STRING then CStr(c)
    else if IntWidth(f.kind) != 0 then SignedDec(IntOf(n, f.kind, c))
    else Hex(c)
  }

  /** param_to_value: the content put for a text. None where the source has no defined result. */
  function TextToContent(n: Order, kind: Byte, text: Text): Option<seq<Byte>> {
    var v := CStr(text);
    if kind == T_BLOB then (if v == text then Unhex(v) else None)
    else if kind == T_BOOL then Some([if StringToSint(v, 0, 1) == 1 then 1 else 0])
    else if kind == T_CHAR then Some([if v == [] then 0 else v[0]])
    else if kind == T_STRING then Some(v + [0])
    else if IntWidth(kind) != 0 then Some(WriteInt(n, IntWidth(kind), TextToInt(kind, v)))
    else None
  }

  /** Of the text of a truth value only that of a positive number is true. */
  lemma BoolOfText(n: Order, text: Text)
    requires NulFree(text)
    ensures var c := ScanNumber(text);
            TextToContent(n, T_BOOL, text)
            == Some([if c.whole && 0 < ToSigned(Strtol(c) % U32_LIMIT, U32_LIMIT) then 1 else 0])
  {
    NulFreeIsWhole(text);
    hide ScanNumber, Strtol, ToSigned;
  }

  lemma DecIsWhole(v: int)
    ensures CStr(SignedDec(v)) == SignedDec(v)
  {
    NulFreeIsWhole(SignedDec(v));
  }

  lemma IntBytes(n: Order, c: seq<Byte>)
    requires |c| == 1 || |c| == 2 || |c| == 4
    ensures ReadInt(n, c) < Modulus(|c|) && WriteInt(n, |c|, ReadInt(n, c)) == c
  {
    if |c| == 2 {
      U16Bytes(n, c);
    } else if |c| == 4 {
      U32Bytes(n, c);
    }
  }

  /** The text of an integer is converted back to its unsigned image. */
  lemma IntTextRoundTrip(n: Order, kind: Byte, c: seq<Byte>)
    requires IntWidth(kind) == |c| != 0
    ensures TextToInt(kind, SignedDec(IntOf(n, kind, c))) == ReadInt(n, c)
  {
    IntBytes(n, c);
    hide ReadInt, SignedDec, StringToSint, StringToUint, WriteInt;
    var v, m := IntOf(n, kind, c), Modulus(|c|);
    if IsSigned(kind) {
      var half: int := m / 2;
      SintRoundTrip(v, -half, half - 1);
    } else {
      SignedDecOfNat(v);
      UintRoundTrip(v, m - 1);
    }
  }

  lemma SignedDecOfNat(v: nat)
    ensures SignedDec(v) == Dec(v)
  {
  }

  lemma StrLenBefore(s: Text)
    requires StrLen(s) < |s|
    ensures CStr(CStr(s)) == CStr(s) && (CStr(s) + [0] == s <==> StrLen(s) == |s| - 1)
  {
    NulFreeIsWhole(CStr(s));
  }

  lemma CharRoundTrip(c: Byte)
    ensures CStr(CStr([c])) == CStr([c]) == if c == 0 then [] else [c]
  {
    assert [c][1..] == [];
    if c != 0 {
      NulFreeIsWhole([c]);
    }
  }

  lemma BoolRoundTrip(b: Byte)
    ensures StringToSint(SignedDec(b), 0, 1) == (if b == 0 then 0 else 1)
  {
    ScanDec(b);
    hide Dec, ScanNumber;
  }

  /** A printed value is read back exactly when it is one the put functions store. */
  lemma ValueRoundTripIff(n: Order, f: Field)
    requires Printable(f)
    ensures TextToContent(n, f.kind, ValueToText(n, f)) == Some(f.content) <==> Canonical(f)
  {
    var c := f.content;
    hide CStr, SignedDec, IntOf, TextToInt, WriteInt, StringToSint, Hex, Unhex;
    if f.kind == T_BOOL {
      DecIsWhole(c[0]);
      BoolRoundTrip(c[0]);
      assert c == [c[0]];
    } else if f.kind == T_CHAR {
      assert c == [c[0]];
      CharRoundTrip(c[0]);
    } else if f.kind == T_STRING {
      StrLenBefore(c);
    } else if f.kind == T_BLOB {
      HexRoundTrip(c);
      NulFreeIsWhole(Hex(c));
    } else {
      DecIsWhole(IntOf(n, f.kind, c));
      IntTextRoundTrip(n, f.kind, c);
      IntBytes(n, c);
    }
  }
}
