/** The text input widget as an editor over UTF-8 bytes, and the editor over code points it refines. */
module Textboxes {
  import opened Utf8

  datatype Key = LEFT | RIGHT | BACKSPACE | DELETE | END | HOME | OTHER

  // ---- the editor over bytes ----

  /** text and insert position, and whether the last event was consumed. */
  datatype Bytes = Bytes(text: seq<Byte>, pos: nat, consumed: bool)

  predicate InText(b: Bytes) {
    b.pos <= |b.text|
  }

  function Erase(text: seq<Byte>, pos: nat, len: nat): seq<Byte>
    requires pos + len <= |text|
  {
    text[..pos] + text[pos + len..]
  }

  /** Stepping back reads the text before the insert position; the other keys cope with one behind the text. */
  predicate CanPress(b: Bytes, k: Key) {
    InText(b) || !(k.LEFT? || k.BACKSPACE?)
  }

  function KeyDown(b: Bytes, k: Key): (r: Bytes)
    requires CanPress(b, k)
    ensures InText(b) || k.RIGHT? || k.END? || k.HOME? ==> InText(r)
  {
    match k
    case LEFT => if b.pos == 0 then b.(consumed := false) else Bytes(b.text, b.pos - Left(b.text, b.pos), true)
    case RIGHT =>
      if b.pos > |b.text| then Bytes(b.text, |b.text|, false)
      else Bytes(b.text, b.pos + Right(b.text, b.pos), true)
    case BACKSPACE =>
      if b.pos == 0 then b.(consumed := false)
      else
        var len := Left(b.text, b.pos);
        Bytes(Erase(b.text, b.pos - len, len), b.pos - len, true)
    case DELETE =>
      if b.pos >= |b.text| then b.(consumed := false)
      else Bytes(Erase(b.text, b.pos, Right(b.text, b.pos)), b.pos, true)
    case END => Bytes(b.text, |b.text|, true)
    case HOME => Bytes(b.text, 0, true)
    case OTHER => b.(consumed := false)
  }

  function Insert(b: Bytes, s: seq<Byte>): (r: Bytes)
    requires InText(b)
    ensures InText(r)
  {
    Bytes(b.text[..b.pos] + s + b.text[b.pos..], b.pos + |s|, true)
  }

  class Textbox {
    var text: seq<Byte>
    var insertPos: int

    ghost predicate Valid()
      reads this
    {
      0 <= insertPos <= |text|
    }

    constructor ()
      ensures Valid() && text == [] && insertPos == 0
    {
      text, insertPos := [], 0;
    }

    method Keydown(k: Key) returns (consumed: bool)
      requires 0 <= insertPos && CanPress(Bytes(text, insertPos, true), k)
      modifies this
      ensures old(Valid()) ==> Valid()
      ensures 0 <= insertPos && Bytes(text, insertPos, consumed) == KeyDown(Bytes(old(text), old(insertPos), true), k)
      ensures k.BACKSPACE? || k.DELETE? || text == old(text)
      ensures k.LEFT? ==> consumed == (old(insertPos) > 0) && insertPos == old(insertPos - Left(text, insertPos))
      ensures k.RIGHT? ==> consumed == (old(insertPos) <= |text|)
                           && insertPos == if consumed then old(insertPos + Right(text, insertPos)) else |text|
      ensures k.BACKSPACE? ==> consumed == (old(insertPos) > 0) && insertPos == old(insertPos - Left(text, insertPos))
                               && text == if consumed then old(text)[..insertPos] + old(text)[old(insertPos)..]
                                          else old(text)
      ensures k.DELETE? ==> consumed == (insertPos < |old(text)|) && insertPos == old(insertPos)
                            && text == if consumed then old(text)[..insertPos]
                                                        + old(text[insertPos + Right(text, insertPos)..])
                                       else old(text)
      ensures k.END? ==> consumed && insertPos == |text|
      ensures k.HOME? ==> consumed && insertPos == 0
      ensures k.OTHER? ==> !consumed && insertPos == old(insertPos)
    {
      match k
      case LEFT =>
        if insertPos <= 0 {
          insertPos := 0;
          return false;
        }
        insertPos := insertPos - Left(text, insertPos);
        return true;
      case RIGHT =>
        if insertPos >= 0 && insertPos > |text| {
          insertPos := |text|;
          return false;
        }
        insertPos := insertPos + Right(text, insertPos);
        return true;
      case BACKSPACE =>
        if insertPos > 0 {
          var len := Left(text, insertPos);
          insertPos := insertPos - len;
          text := Erase(text, insertPos, len);
          return true;
        }
        return false;
      case DELETE =>
        if insertPos >= 0 && insertPos < |text| {
          text := Erase(text, insertPos, Right(text, insertPos));
          return true;
        }
        return false;
      case END =>
        insertPos := |text|;
        return true;
      case HOME =>
        insertPos := 0;
        return true;
      case OTHER =>
        return false;
    }

    method Input(unikey: seq<Byte>) returns (consumed: bool)
      requires Valid()
      modifies this
      ensures Valid() && Bytes(text, insertPos, consumed) == Insert(Bytes(old(text), old(insertPos), true), unikey)
      ensures consumed && insertPos == old(insertPos) + |unikey|
      ensures text == old(text[..insertPos]) + unikey + old(text[insertPos..])
    {
      text := text[..insertPos] + unikey + text[insertPos..];
      insertPos := insertPos + |unikey|;
      return true;
    }
  }

  // ---- the editor over code points ----

  /** Code points, how many of them are in front of the cursor, and whether the last event was consumed. */
  datatype Editor = Editor(codes: seq<Code>, cur: nat, consumed: bool)

  predicate InCodes(e: Editor) {
    e.cur <= |e.codes| && AllScalar(e.codes)
  }

  function EditKey(e: Editor, k: Key): (r: Editor)
    requires InCodes(e)
    ensures InCodes(r)
  {
    match k
    case LEFT => if e.cur == 0 then e.(consumed := false) else Editor(e.codes, e.cur - 1, true)
    case RIGHT => Editor(e.codes, if e.cur < |e.codes| then e.cur + 1 else e.cur, true)
    case BACKSPACE =>
      if e.cur == 0 then e.(consumed := false)
      else Editor(e.codes[..e.cur - 1] + e.codes[e.cur..], e.cur - 1, true)
    case DELETE =>
      if e.cur == |e.codes| then e.(consumed := false)
      else Editor(e.codes[..e.cur] + e.codes[e.cur + 1..], e.cur, true)
    case END => Editor(e.codes, |e.codes|, true)
    case HOME => Editor(e.codes, 0, true)
    case OTHER => e.(consumed := false)
  }

  function EditInput(e: Editor, codes: seq<Code>): (r: Editor)
    requires InCodes(e) && AllScalar(codes)
    ensures InCodes(r)
  {
    Editor(e.codes[..e.cur] + codes + e.codes[e.cur..], e.cur + |codes|, true)
  }

  /** The bytes of the editor's text, with the insert position between the same characters. */
  function Represented(e: Editor): Bytes
    requires InCodes(e)
  {
    Bytes(EncodeAll(e.codes), |EncodeAll(e.codes[..e.cur])|, e.consumed)
  }

  // ---- refinement ----

  lemma {:induction false} EncodeAppend(a: seq<Code>, b: seq<Code>)
    ensures EncodeAll(a + b) == EncodeAll(a) + EncodeAll(b)
  {
    hide Encode;
    if a == [] {
      assert a + b == b;
    } else {
      assert (a + b)[1..] == a[1..] + b;
      EncodeAppend(a[1..], b);
    }
  }

  lemma EncodeSplit(cs: seq<Code>, i: nat)
    requires i <= |cs|
    ensures EncodeAll(cs) == EncodeAll(cs[..i]) + EncodeAll(cs[i..])
  {
    hide *;
    EncodeAppend(cs[..i], cs[i..]);
    assert cs == cs[..i] + cs[i..];
  }

  lemma EncodeOne(cs: seq<Code>, i: nat)
    requires i < |cs|
    ensures EncodeAll(cs[..i + 1]) == EncodeAll(cs[..i]) + Encode(cs[i])
    ensures EncodeAll(cs) == EncodeAll(cs[..i]) + Encode(cs[i]) + EncodeAll(cs[i + 1..])
  {
    hide *;
    EncodeBetween(cs[..i], cs[i], cs[i + 1..]);
    assert cs[..i + 1] == cs[..i] + [cs[i]];
    assert cs == cs[..i] + [cs[i]] + cs[i + 1..];
  }

  lemma EncodeBetween(a: seq<Code>, c: Code, b: seq<Code>)
    ensures EncodeAll(a + [c]) == EncodeAll(a) + Encode(c)
    ensures EncodeAll(a + [c] + b) == EncodeAll(a) + Encode(c) + EncodeAll(b)
  {
    hide *;
    EncodeSingle(c);
    EncodeAppend(a, [c]);
    EncodeAppend(a + [c], b);
  }

  lemma EncodeSingle(c: Code)
    ensures EncodeAll([c]) == Encode(c)
  {
    assert EncodeAll([c]) == Encode(c) + EncodeAll([]);
  }

  lemma RightAtBoundary(cs: seq<Code>, i: nat)
    requires AllScalar(cs) && i <= |cs|
    ensures var t, p := EncodeAll(cs), |EncodeAll(cs[..i])|;
            && p <= |t|
            && (i < |cs| ==> p < |t| && Right(t, p) == |Encode(cs[i])| && p + Right(t, p) == |EncodeAll(cs[..i + 1])|)
            && (i == |cs| ==> p == |t| && Right(t, p) == 0)
  {
    if i < |cs| {
      assert IsScalar(cs[i]);
      hide *;
      EncodeOne(cs, i);
      RightEncode(cs[i], EncodeAll(cs[..i]), EncodeAll(cs[i + 1..]));
    } else {
      hide *;
      assert cs[..i] == cs;
      RightAtEnd(EncodeAll(cs));
    }
  }

  lemma LeftAtBoundary(cs: seq<Code>, i: nat)
    requires AllScalar(cs) && i <= |cs|
    ensures var t, p := EncodeAll(cs), |EncodeAll(cs[..i])|;
            && p <= |t|
            && (i > 0 ==> p > 0 && Left(t, p) == |Encode(cs[i - 1])| && p - Left(t, p) == |EncodeAll(cs[..i - 1])|)
            && (i == 0 ==> p == 0)
  {
    if i > 0 {
      assert IsScalar(cs[i - 1]);
      hide *;
      EncodeOne(cs, i - 1);
      LeftEncode(cs[i - 1], EncodeAll(cs[..i - 1]), EncodeAll(cs[i..]));
    } else {
      EncodeNone(cs[..0]);
    }
  }

  /** At a character boundary, `right` spans the next character and `left` the one before. */
  lemma StepsAtBoundary(cs: seq<Code>, i: nat)
    requires AllScalar(cs) && i <= |cs|
    ensures var t, p := EncodeAll(cs), |EncodeAll(cs[..i])|;
            && p <= |t|
            && (i < |cs| ==> p < |t| && Right(t, p) == |Encode(cs[i])| && p + Right(t, p) == |EncodeAll(cs[..i + 1])|)
            && (i == |cs| ==> p == |t| && Right(t, p) == 0)
            && (i > 0 ==> p > 0 && Left(t, p) == |Encode(cs[i - 1])| && p - Left(t, p) == |EncodeAll(cs[..i - 1])|)
            && (i == 0 ==> p == 0)
  {
    hide *;
    RightAtBoundary(cs, i);
    LeftAtBoundary(cs, i);
  }

  lemma RightAtEnd(s: seq<Byte>)
    ensures Right(s, |s|) == 0
  {
  }

  /** Stepping right and then left over text in UTF-8 returns to the same place, and so does left and then right. */
  lemma LeftUndoesRight(cs: seq<Code>, i: nat)
    requires AllScalar(cs) && i < |cs|
    ensures var t, p := EncodeAll(cs), |EncodeAll(cs[..i])|;
            p <= |t| && var q := p + Right(t, p);
            p < q <= |t| && q - Left(t, q) == p && q - Left(t, q) + Right(t, q - Left(t, q)) == q
  {
    hide *;
    StepsAtBoundary(cs, i);
    StepsAtBoundary(cs, i + 1);
  }

  lemma ErasedCode(cs: seq<Code>, i: nat)
    requires i < |cs|
    ensures var p := |EncodeAll(cs[..i])|;
            && p + |Encode(cs[i])| <= |EncodeAll(cs)|
            && Erase(EncodeAll(cs), p, |Encode(cs[i])|) == EncodeAll(cs[..i] + cs[i + 1..])
  {
    hide Encode, EncodeAll;
    EncodeOne(cs, i);
    EncodeAppend(cs[..i], cs[i + 1..]);
    var a, b, c := EncodeAll(cs[..i]), Encode(cs[i]), EncodeAll(cs[i + 1..]);
    assert (a + b + c)[..|a|] == a && (a + b + c)[|a| + |b|..] == c;
  }

  /** Every key does to the bytes what it does to the code points. */
  lemma KeyRefines(e: Editor, k: Key)
    requires InCodes(e)
    ensures InText(Represented(e)) && KeyDown(Represented(e), k) == Represented(EditKey(e, k))
  {
    StepsAtBoundary(e.codes, e.cur);
    hide Encode, EncodeAll, Right, Left, Erase, IsScalar;
    match k
    case BACKSPACE => BackspaceRefines(e);
    case DELETE => DeleteRefines(e);
    case END => assert e.codes[..|e.codes|] == e.codes;
    case HOME => assert |EncodeAll(e.codes[..0])| == 0 by { EncodeNone(e.codes[..0]); }
    case LEFT =>
    case RIGHT =>
    case OTHER =>
  }

  lemma EncodeNone(cs: seq<Code>)
    requires cs == []
    ensures EncodeAll(cs) == []
  {
  }

  lemma BackspaceRefines(e: Editor)
    requires InCodes(e)
    ensures InText(Represented(e)) && KeyDown(Represented(e), BACKSPACE) == Represented(EditKey(e, BACKSPACE))
  {
    RepresentedIs(e);
    if e.cur > 0 {
      BackspaceInside(e.codes, e.cur - 1, e.consumed);
      assert e == Editor(e.codes, e.cur - 1 + 1, e.consumed);
    }
    hide EncodeAll, Left, Erase;
  }

  lemma BackspaceInside(cs: seq<Code>, i: nat, consumed: bool)
    requires AllScalar(cs) && i < |cs|
    ensures var e := Editor(cs, i + 1, consumed);
            InText(Represented(e)) && KeyDown(Represented(e), BACKSPACE) == Represented(EditKey(e, BACKSPACE))
  {
    var e := Editor(cs, i + 1, consumed);
    assert InCodes(e) && e.codes == cs && e.cur == i + 1 && e.consumed == consumed;
    hide *;
    RepresentedIs(e);
    BackspaceCode(e, i);
    StepBack(cs, i);
    ErasedCode(cs, i);
    BackspaceKey(EncodeAll(cs), |EncodeAll(cs[..i + 1])|, |Encode(cs[i])|, consumed);
    AllScalarKept(cs, i);
    Joined(cs[..i], cs[i + 1..]);
  }

  lemma RepresentedIs(e: Editor)
    requires InCodes(e)
    ensures Represented(e) == Bytes(EncodeAll(e.codes), |EncodeAll(e.codes[..e.cur])|, e.consumed)
    ensures InText(Represented(e)) && (e.cur == 0 ==> Represented(e).pos == 0)
  {
    StepsAtBoundary(e.codes, e.cur);
    hide EncodeAll, Encode, AllScalar, IsScalar;
  }

  lemma StepBack(cs: seq<Code>, i: nat)
    requires AllScalar(cs) && i < |cs|
    ensures var t, p := EncodeAll(cs), |EncodeAll(cs[..i + 1])|;
            0 < p <= |t| && Left(t, p) == |Encode(cs[i])| && p - |Encode(cs[i])| == |EncodeAll(cs[..i])|
  {
    hide *;
    StepsAtBoundary(cs, i + 1);
  }

  lemma BackspaceKey(text: seq<Byte>, pos: nat, len: nat, consumed: bool)
    requires 0 < pos <= |text| && len == Left(text, pos)
    ensures len <= pos
    ensures KeyDown(Bytes(text, pos, consumed), BACKSPACE) == Bytes(Erase(text, pos - len, len), pos - len, true)
  {
  }

  lemma BackspaceCode(e: Editor, i: nat)
    requires InCodes(e) && e.cur == i + 1
    ensures EditKey(e, BACKSPACE) == Editor(e.codes[..i] + e.codes[i + 1..], i, true)
  {
  }

  lemma AllScalarKept(cs: seq<Code>, i: nat)
    requires AllScalar(cs) && i < |cs|
    ensures AllScalar(cs[..i] + cs[i + 1..])
  {
  }

  lemma Joined(a: seq<Code>, b: seq<Code>)
    requires AllScalar(a + b)
    ensures Represented(Editor(a + b, |a|, true)) == Bytes(EncodeAll(a + b), |EncodeAll(a)|, true)
  {
    hide AllScalar, EncodeAll;
    assert (a + b)[..|a|] == a;
  }

  lemma DeleteRefines(e: Editor)
    requires InCodes(e)
    ensures InText(Represented(e)) && KeyDown(Represented(e), DELETE) == Represented(EditKey(e, DELETE))
  {
    RepresentedIs(e);
    StepsAtBoundary(e.codes, e.cur);
    assert AllScalar(e.codes);
    if e.cur < |e.codes| {
      DeleteCode(e);
      hide *;
      var a, b := e.codes[..e.cur], e.codes[e.cur + 1..];
      var text, pos := EncodeAll(e.codes), |EncodeAll(a)|;
      ErasedCode(e.codes, e.cur);
      DeleteKey(text, pos, Right(text, pos), e.consumed);
      AllScalarKept(e.codes, |a|);
      Joined(a, b);
    }
  }

  lemma DeleteKey(text: seq<Byte>, pos: nat, len: nat, consumed: bool)
    requires pos < |text| && len == Right(text, pos)
    ensures pos + len <= |text|
    ensures KeyDown(Bytes(text, pos, consumed), DELETE) == Bytes(Erase(text, pos, len), pos, true)
  {
  }

  lemma DeleteCode(e: Editor)
    requires InCodes(e) && e.cur < |e.codes|
    ensures EditKey(e, DELETE) == Editor(e.codes[..e.cur] + e.codes[e.cur + 1..], e.cur, true)
  {
  }

  /** Input of well-formed UTF-8 inserts its code points at the cursor. */
  lemma InputRefines(e: Editor, codes: seq<Code>)
    requires InCodes(e) && AllScalar(codes)
    ensures InText(Represented(e)) && Insert(Represented(e), EncodeAll(codes)) == Represented(EditInput(e, codes))
  {
    hide Encode, EncodeAll;
    var a, b := e.codes[..e.cur], e.codes[e.cur..];
    EncodeSplit(e.codes, e.cur);
    EncodeAppend(a, codes);
    EncodeAppend(a + codes, b);
    assert (a + codes + b)[..e.cur + |codes|] == a + codes;
    assert EncodeAll(e.codes)[..|EncodeAll(a)|] == EncodeAll(a);
    assert EncodeAll(e.codes)[|EncodeAll(a)|..] == EncodeAll(b);
  }

  // ---- whole sessions ----

  datatype Event = Press(key: Key) | Type(codes: seq<Code>)

  predicate WellFormed(evs: seq<Event>) {
    forall i :: 0 <= i < |evs| && evs[i].Type? ==> AllScalar(evs[i].codes)
  }

  function Edit(e: Editor, evs: seq<Event>): (r: Editor)
    requires InCodes(e) && WellFormed(evs)
    ensures InCodes(r)
    decreases |evs|
  {
    if evs == [] then e
    else
      match evs[0]
      case Press(k) => Edit(EditKey(e, k), evs[1..])
      case Type(codes) => Edit(EditInput(e, codes), evs[1..])
  }

  function Drive(b: Bytes, evs: seq<Event>): (r: Bytes)
    requires InText(b)
    ensures InText(r)
    decreases |evs|
  {
    if evs == [] then b
    else
      match evs[0]
      case Press(k) => Drive(KeyDown(b, k), evs[1..])
      case Type(codes) => Drive(Insert(b, EncodeAll(codes)), evs[1..])
  }

  /**
   * A textbox driven from any boundary by keys and well-formed input is, at every moment, the editor over
   * code points: its text stays well-formed UTF-8 and its position stays on a character boundary.
   */
  lemma {:induction false} SessionRefines(e: Editor, evs: seq<Event>)
    requires InCodes(e) && WellFormed(evs)
    ensures InText(Represented(e)) && Drive(Represented(e), evs) == Represented(Edit(e, evs))
    decreases |evs|
  {
    KeyRefines(e, OTHER);
    if evs != [] {
      hide KeyDown, Insert, EditKey, EditInput, Represented;
      match evs[0]
      case Press(k) =>
        KeyRefines(e, k);
        SessionRefines(EditKey(e, k), evs[1..]);
      case Type(codes) =>
        InputRefines(e, codes);
        SessionRefines(EditInput(e, codes), evs[1..]);
    }
  }

  lemma SessionFromEmpty(evs: seq<Event>)
    requires WellFormed(evs)
    ensures Drive(Bytes([], 0, true), evs) == Represented(Edit(Editor([], 0, true), evs))
  {
    SessionRefines(Editor([], 0, true), evs);
  }

  /** Decoding the text of a textbox from a boundary on yields the code point there and stops at the next one. */
  lemma DecodesAtBoundary(cs: seq<Code>, i: nat)
    requires AllScalar(cs) && i < |cs|
    ensures var t, p := EncodeAll(cs), |EncodeAll(cs[..i])|;
            p < |t| && DecodeAt(t, p) == Decoded(cs[i], p + Right(t, p))
  {
    StepsAtBoundary(cs, i);
    EncodeOne(cs, i);
    hide Encode, DecodeAt, Right, Left;
    DecodeEncode(cs[i], EncodeAll(cs[..i]), EncodeAll(cs[i + 1..]));
  }
}
