/** UTF-8 as the engine reads it: decoding, and stepping left and right. */
module Utf8 {
  import opened Common

  type Byte = bv8
  type Code = bv32

  /** Unicode scalar values: what UTF-8 encodes. */
  predicate IsScalar(c: Code) {
    c < 0xD800 || 0xE000 <= c < 0x11_0000
  }

  /** The low eight bits, as a cast to char takes them. */
  function Low(c: Code): Byte {
    (c & 0xFF) as bv8
  }

  /** A continuation byte: its mark and the last six bits. */
  function Tail(x: Code): Byte {
    Low(0x80 | (x & 0x3F))
  }

  function FourBytes(c: Code): seq<Byte> {
    [Low(0xF0 | (c >> 18)), Tail(c >> 12), Tail(c >> 6), Tail(c)]
  }

  /** The encoding table of section 3 of RFC 3629. */
  function Encode(c: Code): (s: seq<Byte>)
    ensures 1 <= |s| <= 4
  {
    if c < 0x80 then [Low(c)]
    else if c < 0x800 then [Low(0xC0 | (c >> 6)), Tail(c)]
    else if c < 0x1_0000 then [Low(0xE0 | (c >> 12)), Tail(c >> 6), Tail(c)]
    else FourBytes(c)
  }

  function EncodeAll(cs: seq<Code>): seq<Byte> {
    if cs == [] then [] else Encode(cs[0]) + EncodeAll(cs[1..])
  }

  predicate AllScalar(cs: seq<Code>) {
    forall i :: 0 <= i < |cs| ==> IsScalar(cs[i])
  }

  /** A char read into a u_int32: its sign bit is extended. */
  function Widen(b: Byte): Code {
    if b >= 0x80 then (b as bv32) | 0xFFFF_FF00 else b as bv32
  }

  predicate Continuation(b: Byte) {
    b & 0xC0 == 0x80
  }

  // ---- right ----

  /** Bytes of the character that starts with this byte; 0 for a byte that starts none. */
  function LengthAt(c: Code): nat {
    if c & 0x80 == 0x00 then 1
    else if c & 0xE0 == 0xC0 then 2
    else if c & 0xF0 == 0xE0 then 3
    else if c & 0xF8 == 0xF0 then 4
    else if c & 0xFC == 0xF8 then 5
    else if c & 0xFE == 0xFC then 6
    else 0
  }

  function Min(a: nat, b: nat): nat {
    if a < b then a else b
  }

  /** The byte at the end of a string reads as NUL. */
  function Right(s: seq<Byte>, pos: nat): nat
    requires pos <= |s|
  {
    var c := if pos == |s| then 0 else Widen(s[pos]);
    Min(LengthAt(c), |s| - pos)
  }

  // ---- left ----

  function Left(s: seq<Byte>, pos: nat): nat
    requires pos <= |s|
  {
    var count :=
      if pos > 0 && s[pos - 1] & 0x80 == 0x00 then 1
      else if pos > 1 && s[pos - 2] & 0xE0 == 0xC0 then 2
      else if pos > 2 && s[pos - 3] & 0xF0 == 0xE0 then 3
      else if pos > 3 && s[pos - 4] & 0xF8 == 0xF0 then 4
      else if pos > 4 && s[pos - 5] & 0xFC == 0xF8 then 5
      else if pos > 5 && s[pos - 6] & 0xFE == 0xFC then 6
      else 1;
    Min(count, pos)
  }

  // ---- to_utf32 ----

  /** Payload of a leading byte, and how many bytes follow; None for a byte that starts no character. */
  datatype Lead = Lead(code: Code, more: nat) | NoLead

  function LeadOf(c: Code): Lead {
    if c & 0x80 == 0x00 then Lead(c, 0)
    else if c & 0xE0 == 0xC0 then Lead(c & 0x1F, 1)
    else if c & 0xF0 == 0xE0 then Lead(c & 0x0F, 2)
    else if c & 0xF8 == 0xF0 then Lead(c & 0x07, 3)
    else if c & 0xFC == 0xF8 then Lead(c & 0x03, 4)
    else if c & 0xFE == 0xFC then Lead(c & 0x01, 5)
    else NoLead
  }

  /** The decoded character and where the iterator is left. */
  datatype Decoded = Decoded(code: Code, next: nat)

  const INVALID: Code := 0x3F

  function Append(code: Code, c: Code): Code {
    (code << 6) | (c & 0x3F)
  }

  predicate Follows(c: Code) {
    c & 0xC0 == 0x80
  }

  /** The loop from a position inside a character on, with `count` bytes to come. */
  function Continue(s: seq<Byte>, pos: nat, code: Code, count: nat): Decoded
    requires pos <= |s|
    decreases count
  {
    if count == 0 || pos == |s| then Decoded(code, pos)
    else if !Follows(Widen(s[pos])) then Decoded(INVALID, pos + 1)
    else Continue(s, pos + 1, Append(code, Widen(s[pos])), count - 1)
  }

  function DecodeAt(s: seq<Byte>, pos: nat): Decoded
    requires pos < |s|
  {
    match LeadOf(Widen(s[pos]))
    case NoLead => Decoded(INVALID, pos + 1)
    case Lead(code, more) => Continue(s, pos + 1, code, more)
  }

  method ToUtf32(source: seq<Byte>, pos: nat) returns (code: Code, iter: nat)
    requires pos < |source|
    ensures Decoded(code, iter) == DecodeAt(source, pos)
  {
    var count := 0;
    code := 0;
    iter := pos;
    var first := true;
    while first || (count > 0 && iter != |source|)
      invariant first ==> iter == pos && count == 0
      invariant !first ==> pos < iter <= |source| && Continue(source, iter, code, count) == DecodeAt(source, pos)
      decreases |source| - iter
    {
      var c := Widen(source[iter]);
      iter := iter + 1;
      if count > 0 {
        if !Follows(c) {
          return INVALID, iter;
        }
        code := Append(code, c);
        count := count - 1;
      } else {
        match LeadOf(c)
        case NoLead =>
          return INVALID, iter;
        case Lead(payload, more) =>
          code, count := payload, more;
      }
      first := false;
    }
  }

  // ---- one character ----

  lemma LeadOfEncode(c: Code)
    requires IsScalar(c)
    ensures var s := Encode(c);
            && LengthAt(Widen(s[0])) == |s|
            && forall i :: 1 <= i < |s| ==> Continuation(s[i])
  {
  }

  /** What is left of a code point when its last k groups of six bits are cut off. */
  function Shifted(c: Code, k: nat): Code {
    if k == 0 then c else if k == 1 then c >> 6 else if k == 2 then c >> 12 else c >> 18
  }

  lemma TailBits(x: Code)
    ensures Follows(Widen(Tail(x))) && Append(x >> 6, Widen(Tail(x))) == x
  {
  }

  lemma LeadBits(c: Code)
    ensures 0x80 <= c < 0x800 ==> LeadOf(Widen(Low(0xC0 | (c >> 6)))) == Lead(c >> 6, 1)
    ensures 0x800 <= c < 0x1_0000 ==> LeadOf(Widen(Low(0xE0 | (c >> 12)))) == Lead(c >> 12, 2)
    ensures 0x1_0000 <= c < 0x11_0000 ==> LeadOf(Widen(Low(0xF0 | (c >> 18)))) == Lead(c >> 18, 3)
  {
  }

  lemma ShiftTwice(c: Code)
    ensures (c >> 6) >> 6 == c >> 12 && (c >> 12) >> 6 == c >> 18
  {
  }

  /** The leading byte carries the highest bits, every other byte the next six. */
  lemma EncodeBits(c: Code, i: nat)
    requires IsScalar(c) && 1 <= i < |Encode(c)|
    ensures var e := Encode(c);
            && LeadOf(Widen(e[0])) == Lead(Shifted(c, |e| - 1), |e| - 1)
            && Follows(Widen(e[i]))
            && Append(Shifted(c, |e| - i), Widen(e[i])) == Shifted(c, |e| - i - 1)
  {
    LeadBits(c);
    ShiftTwice(c);
    TailBits(c);
    TailBits(c >> 6);
    TailBits(c >> 12);
    hide LeadOf, Widen, Low, Tail, Follows, Append;
  }

  lemma {:induction false} ContinueEncode(c: Code, pre: seq<Byte>, post: seq<Byte>, i: nat)
    requires IsScalar(c) && 1 <= i <= |Encode(c)|
    ensures var e := Encode(c);
            Continue(pre + e + post, |pre| + i, Shifted(c, |e| - i), |e| - i) == Decoded(c, |pre| + |e|)
    decreases |Encode(c)| - i
  {
    if i < |Encode(c)| {
      EncodeBits(c, i);
      hide Encode, Shifted, LeadOf, Widen, Append, Follows;
      assert (pre + Encode(c) + post)[|pre| + i] == Encode(c)[i];
      ContinueEncode(c, pre, post, i + 1);
    } else {
      assert Shifted(c, 0) == c;
    }
  }

  lemma LeadBitsOf(c: Code)
    requires IsScalar(c)
    ensures var e := Encode(c); LeadOf(Widen(e[0])) == Lead(Shifted(c, |e| - 1), |e| - 1)
  {
    if c >= 0x80 {
      EncodeBits(c, 1);
      hide LeadOf, Widen, Shifted;
    }
  }

  /** Decoding at the start of a character yields its code point and consumes its bytes. */
  lemma DecodeEncode(c: Code, pre: seq<Byte>, post: seq<Byte>)
    requires IsScalar(c)
    ensures DecodeAt(pre + Encode(c) + post, |pre|) == Decoded(c, |pre| + |Encode(c)|)
  {
    hide Encode, LeadOf, Widen, Shifted, Continue;
    LeadBitsOf(c);
    ContinueEncode(c, pre, post, 1);
    assert (pre + Encode(c) + post)[|pre|] == Encode(c)[0];
  }

  lemma RightEncode(c: Code, pre: seq<Byte>, post: seq<Byte>)
    requires IsScalar(c)
    ensures Right(pre + Encode(c) + post, |pre|) == |Encode(c)|
  {
    LeadOfEncode(c);
    assert (pre + Encode(c) + post)[|pre|] == Encode(c)[0];
  }

  lemma LeftEncode(c: Code, pre: seq<Byte>, post: seq<Byte>)
    requires IsScalar(c)
    ensures Left(pre + Encode(c) + post, |pre| + |Encode(c)|) == |Encode(c)|
  {
    var s, e, p := pre + Encode(c) + post, Encode(c), |pre|;
    LeadOfEncode(c);
    assert forall i :: 0 <= i < |e| ==> s[p + i] == e[i];
  }

  // ---- any bytes ----

  /** The length a leading byte announces; 0 for one that can only follow, or never occurs. */
  function Announced(b: Byte): nat {
    if b < 0x80 then 1
    else if b < 0xC0 then 0
    else if b < 0xE0 then 2
    else if b < 0xF0 then 3
    else if b < 0xF8 then 4
    else if b < 0xFC then 5
    else if b < 0xFE then 6
    else 0
  }

  /** The bytes at `i`, up to `j`, continue a character. */
  predicate AllFollow(s: seq<Byte>, i: nat, j: nat)
    requires j <= |s|
  {
    forall k :: i <= k < j ==> 0x80 <= s[k] < 0xC0
  }

  lemma AnnouncedIs(b: Byte)
    ensures LengthAt(Widen(b)) == Announced(b)
    ensures Follows(Widen(b)) <==> 0x80 <= b < 0xC0
    ensures LeadOf(Widen(b)).NoLead? <==> Announced(b) == 0
    ensures Announced(b) > 0 ==> LeadOf(Widen(b)).more == Announced(b) - 1
  {
  }

  lemma {:induction false} ContinueAny(s: seq<Byte>, pos: nat, code: Code, count: nat)
    requires pos <= |s|
    ensures var end, d := Min(pos + count, |s|), Continue(s, pos, code, count);
            if AllFollow(s, pos, end) then d.next == end
            else pos < d.next <= end && d.code == 0x3F && AllFollow(s, pos, d.next - 1)
                 && !(0x80 <= s[d.next - 1] < 0xC0)
    decreases count
  {
    if count > 0 && pos < |s| {
      AnnouncedIs(s[pos]);
      hide Follows, Widen, Append;
      if 0x80 <= s[pos] < 0xC0 {
        ContinueAny(s, pos + 1, Append(code, Widen(s[pos])), count - 1);
        assert forall e | pos < e <= |s| :: AllFollow(s, pos, e) <==> AllFollow(s, pos + 1, e);
      }
    }
  }

  /**
   * Decoding any bytes: a byte that starts no character is a question mark; one that should follow and does not
   * makes the character a question mark, and is consumed along with it; otherwise as many bytes are consumed as
   * were announced, or are left.
   */
  lemma DecodeAny(s: seq<Byte>, pos: nat)
    requires pos < |s|
    ensures var k, d := Announced(s[pos]), DecodeAt(s, pos);
            var end := Min(pos + k, |s|);
            if k == 0 then d == Decoded(0x3F, pos + 1)
            else if AllFollow(s, pos + 1, end) then d.next == end
            else pos + 1 < d.next <= end && d.code == 0x3F && AllFollow(s, pos + 1, d.next - 1)
                 && !(0x80 <= s[d.next - 1] < 0xC0)
  {
    AnnouncedIs(s[pos]);
    hide Widen, LeadOf, Continue;
    if Announced(s[pos]) > 0 {
      var lead := LeadOf(Widen(s[pos]));
      ContinueAny(s, pos + 1, lead.code, lead.more);
    }
  }

  /** Stepping right over any bytes: as many as the byte there announces, or are left. */
  lemma RightAny(s: seq<Byte>, pos: nat)
    requires pos <= |s|
    ensures Right(s, pos) == if pos == |s| then 0 else Min(Announced(s[pos]), |s| - pos)
  {
    if pos < |s| {
      AnnouncedIs(s[pos]);
    }
    hide Widen, LengthAt;
  }

  /** The byte `i` places back announces a character that ends here. */
  predicate Fits(s: seq<Byte>, pos: nat, i: nat)
    requires pos <= |s|
  {
    1 <= i <= pos && Announced(s[pos - i]) == i
  }

  /** Stepping left over any bytes: by the shortest announced character that ends here, or else by one byte. */
  lemma LeftAny(s: seq<Byte>, pos: nat)
    requires pos <= |s|
    ensures var k := Left(s, pos);
            if exists i :: Fits(s, pos, i) then Fits(s, pos, k) && forall i :: Fits(s, pos, i) ==> k <= i
            else k == Min(1, pos)
  {
    forall j | 0 <= j < pos
      ensures Announced(s[j]) <= 6
      ensures s[j] & 0x80 == 0x00 <==> Announced(s[j]) == 1
      ensures s[j] & 0xE0 == 0xC0 <==> Announced(s[j]) == 2
      ensures s[j] & 0xF0 == 0xE0 <==> Announced(s[j]) == 3
      ensures s[j] & 0xF8 == 0xF0 <==> Announced(s[j]) == 4
      ensures s[j] & 0xFC == 0xF8 <==> Announced(s[j]) == 5
      ensures s[j] & 0xFE == 0xFC <==> Announced(s[j]) == 6
    {
      LeadBytes(s[j]);
    }
    hide Announced;
    var k := Left(s, pos);
    assert forall i :: Fits(s, pos, i) ==> 1 <= i <= 6;
    assert Fits(s, pos, k) || (k == Min(1, pos) && !Fits(s, pos, 1) && !Fits(s, pos, 2) && !Fits(s, pos, 3)
                               && !Fits(s, pos, 4) && !Fits(s, pos, 5) && !Fits(s, pos, 6));
  }

  lemma LeadBytes(b: Byte)
    ensures Announced(b) <= 6
    ensures (b & 0x80 == 0x00 <==> Announced(b) == 1) && (b & 0xE0 == 0xC0 <==> Announced(b) == 2)
    ensures (b & 0xF0 == 0xE0 <==> Announced(b) == 3) && (b & 0xF8 == 0xF0 <==> Announced(b) == 4)
    ensures (b & 0xFC == 0xF8 <==> Announced(b) == 5) && (b & 0xFE == 0xFC <==> Announced(b) == 6)
  {
  }

  // ---- from_utf16 ----

  /** The code computed for a pair: the high half is shifted by 12. */
  function JoinedPair(high: Code, low: Code): Code {
    ((high - 0xD800) << 12) + (low - 0xDC00) + 0x1_0000
  }

  /** A call of from_utf16: the string returned and the pending high surrogate, 0 if there is none. */
  datatype Converted = Converted(text: seq<Byte>, high: Code)

  /** None: a pending surrogate is followed by something else, and the buffer returned was never written. */
  function FromUtf16(high: Code, chr: Code): Option<Converted> {
    if high != 0 then
      if 0xDC00 <= chr <= 0xDFFF then
        Some(Converted(FourBytes(JoinedPair(high, chr)), 0))
      else None
    else if chr <= 0x7F then Some(Converted(if chr == 0 then [] else [Low(chr)], 0))
    else if chr <= 0x7FF then Some(Converted([Low((chr >> 6) | 0xC0), Tail(chr)], 0))
    else if 0xD800 <= chr <= 0xDBFF then Some(Converted([], chr))
    else Some(Converted([Low((chr >> 16) | 0xE0), Tail(chr >> 12), Tail(chr)], 0))
  }

  /** A character of the basic plane is converted to its encoding exactly from U+0001 to U+07FF. */
  lemma FromUtf16BasicIff(chr: Code)
    requires IsScalar(chr) && chr <= 0xFFFF
    ensures FromUtf16(0, chr) == Some(Converted(Encode(chr), 0)) <==> 1 <= chr <= 0x7FF
  {
    if 0x800 <= chr {
      assert Encode(chr)[1] == Tail(chr >> 6) && FromUtf16(0, chr).value.text[1] == Tail(chr >> 12);
      BasicDiffers(chr);
    }
  }

  /** Nothing is emitted for U+0000, and from U+0800 on three bytes from which bits 6 to 11 are missing. */
  lemma FromUtf16Bytes(chr: Code)
    requires IsScalar(chr) && chr <= 0xFFFF
    ensures chr == 0 ==> FromUtf16(0, chr) == Some(Converted([], 0))
    ensures chr >= 0x800 ==> FromUtf16(0, chr) == Some(Converted([0xE0, Tail(chr >> 12), Tail(chr)], 0))
  {
  }

  lemma BasicDiffers(chr: Code)
    requires 0x800 <= chr <= 0xFFFF
    ensures Low((chr >> 16) | 0xE0) != Low(0xE0 | (chr >> 12)) || Tail(chr >> 12) != Tail(chr >> 6)
  {
  }

  /** What a surrogate pair stands for. */
  function PairCode(high: Code, low: Code): Code {
    0x1_0000 + ((high - 0xD800) << 10) + (low - 0xDC00)
  }

  /** A surrogate pair is converted to its encoding exactly if its high half is the first one. */
  lemma FromUtf16PairIff(high: Code, low: Code)
    requires 0xD800 <= high <= 0xDBFF && 0xDC00 <= low <= 0xDFFF
    ensures FromUtf16(0, high) == Some(Converted([], high))
    ensures FromUtf16(high, low) == Some(Converted(Encode(PairCode(high, low)), 0)) <==> high == 0xD800
  {
    PairEncoded(high, low);
    PairDiffers(high, low);
    SameFour(PairCode(high, low), JoinedPair(high, low));
    hide *;
  }

  lemma PairEncoded(high: Code, low: Code)
    requires 0xD800 <= high <= 0xDBFF && 0xDC00 <= low <= 0xDFFF
    ensures FromUtf16(0, high) == Some(Converted([], high))
    ensures FromUtf16(high, low) == Some(Converted(FourBytes(JoinedPair(high, low)), 0))
    ensures Encode(PairCode(high, low)) == FourBytes(PairCode(high, low))
  {
    hide FourBytes, JoinedPair;
  }

  lemma SameFour(c: Code, d: Code)
    ensures FourBytes(d) == FourBytes(c) <==>
            Low(0xF0 | (d >> 18)) == Low(0xF0 | (c >> 18)) && Tail(d >> 12) == Tail(c >> 12)
            && Tail(d >> 6) == Tail(c >> 6) && Tail(d) == Tail(c)
  {
    hide Low, Tail;
    var s, t := FourBytes(d), FourBytes(c);
    assert s == t ==> s[0] == t[0] && s[1] == t[1] && s[2] == t[2] && s[3] == t[3];
  }

  lemma PairDiffers(high: Code, low: Code)
    requires 0xD800 <= high <= 0xDBFF && 0xDC00 <= low <= 0xDFFF
    ensures var c, d := PairCode(high, low), JoinedPair(high, low);
            (Low(0xF0 | (d >> 18)) == Low(0xF0 | (c >> 18)) && Tail(d >> 12) == Tail(c >> 12)
             && Tail(d >> 6) == Tail(c >> 6) && Tail(d) == Tail(c)) <==> high == 0xD800
  {
  }
}
