/** The elements of a document by name: which type each stands for, and which value its text. */
module XmlElements {
  import opened Common
  import opened Bytes
  import opened Record
  import opened XmlText
  import opened XmlReader
  import opened XmlRoundTrip
  import opened Portability

  // ---- names ----

  predicate IsTag(name: string, kind: Byte) {
    || (name == "bool" && kind == 0) || (name == "char" && kind == 1)
    || (name == "u_int8" && kind == 2) || (name == "s_int8" && kind == 3)
    || (name == "u_int16" && kind == 4) || (name == "s_int16" && kind == 5)
    || (name == "u_int32" && kind == 6) || (name == "s_int32" && kind == 7)
    || (name == "string" && kind == 8) || (name == "float" && kind == 9) || (name == "double" && kind == 10)
    || (name == "blob" && kind == 11) || (name == "list" && kind == 12)
  }

  lemma NamesAre(kind: Byte)
    requires kind < 13
    ensures IsTag(NameForType(kind), kind)
  {
  }

  lemma {:induction false} IndexIsFirst(names: seq<string>, name: string, i: nat)
    requires i <= |names|
    ensures var k := IndexOf(names, name, i);
            if k == T_UNKNOWN then forall j :: i <= j < |names| ==> names[j] != name
            else i <= k < |names| && names[k] == name
    decreases |names| - i
  {
    if i < |names| && names[i] != name {
      IndexIsFirst(names, name, i + 1);
    }
  }

  /** The name of an element stands for the type it is listed with, and any other name for none. */
  lemma TypeForNameIff(name: string, kind: Byte)
    ensures TypeForName(name) == kind <==> IsTag(name, kind)
  {
    IndexIsFirst(TYPE_NAMES, name, 0);
    hide IndexOf;
    if kind < 13 {
      NamesAre(kind);
    }
    var k := TypeForName(name);
    if k != T_UNKNOWN {
      NamesAre(k);
    }
  }

  // ---- values ----

  /** An integer is printed as its decimal text, which is converted back to it. */
  lemma IntegerText(n: Order, name: seq<Byte>, kind: Byte, v: int)
    requires 2 <= kind <= 7 && Holds(kind, v)
    ensures var f := Field(name, kind, Memory(n, Width(kind), v));
            && Printable(f) && ValueToText(n, f) == SignedDec(v)
            && TextToContent(n, kind, SignedDec(v)) == Some(f.content)
  {
    var f := Field(name, kind, Memory(n, Width(kind), v));
    IntegerRead(n, kind, v);
    hide Memory, Holds, IntOf;
    assert Canonical(f);
    ValueRoundTripIff(n, f);
    hide TextToContent, Canonical, SignedDec;
  }

  /** No sign for a number that is not negative, a minus for one that is, and no leading zeros. */
  lemma {:induction false} Decimal(n: nat)
    ensures SignedDec(n) == Dec(n) && (n > 0 ==> SignedDec(0 - n) == [45] + Dec(n))
    ensures n < 10 ==> Dec(n) == [48 + n]
    ensures n >= 10 ==> |Dec(n)| >= 2 && Dec(n)[0] != 48 && Dec(n) == Dec(n / 10) + [48 + n % 10]
  {
    if n >= 10 {
      Decimal(n / 10);
    }
  }

  lemma DigitTable(v: nat)
    requires v < 16
    ensures HexDigit(v) == "0123456789ABCDEF"[v] as int
  {
  }

  /** Two digits for every byte, high half first, as characters of the table. */
  lemma {:induction false} HexTable(s: seq<Byte>, i: nat)
    requires i < |s|
    ensures Hex(s)[2 * i] == "0123456789ABCDEF"[s[i] / 16] as int
    ensures Hex(s)[2 * i + 1] == "0123456789ABCDEF"[s[i] % 16] as int
  {
    DigitTable(s[0] / 16);
    DigitTable(s[0] % 16);
    hide HexDigit;
    if i > 0 {
      HexTable(s[1..], i - 1);
    }
  }

  /** Truth values are 0 and 1, a character is itself, a string loses its NUL, a blob is hexadecimal. */
  lemma OtherText(n: Order, name: seq<Byte>, b: bool, c: Byte, s: seq<Byte>, blob: seq<Byte>)
    requires c != 0 && NulFree(s)
    ensures var f := Field(name, 0, [if b then 1 else 0]);
            && Printable(f) && ValueToText(n, f) == [if b then 49 else 48]
            && TextToContent(n, 0, [if b then 49 else 48]) == Some(f.content)
    ensures var f := Field(name, 1, [c]);
            Printable(f) && ValueToText(n, f) == [c] && TextToContent(n, 1, [c]) == Some([c])
    ensures var f := Field(name, 8, s + [0]);
            Printable(f) && ValueToText(n, f) == s && TextToContent(n, 8, s) == Some(s + [0])
    ensures var f := Field(name, 11, blob);
            Printable(f) && ValueToText(n, f) == Hex(blob) && TextToContent(n, 11, Hex(blob)) == Some(blob)
  {
    BoolText(n, name, b);
    CharText(n, name, c);
    StringText(n, name, s);
    ValueRoundTripIff(n, Field(name, 11, blob));
    hide ValueToText, TextToContent;
  }

  lemma BoolText(n: Order, name: seq<Byte>, b: bool)
    ensures var f := Field(name, 0, [if b then 1 else 0]);
            && Printable(f) && ValueToText(n, f) == [if b then 49 else 48]
            && TextToContent(n, 0, [if b then 49 else 48]) == Some(f.content)
  {
    ValueRoundTripIff(n, Field(name, 0, [if b then 1 else 0]));
    hide TextToContent;
  }

  lemma CharText(n: Order, name: seq<Byte>, c: Byte)
    requires c != 0
    ensures var f := Field(name, 1, [c]);
            Printable(f) && ValueToText(n, f) == [c] && TextToContent(n, 1, [c]) == Some([c])
  {
    CharRoundTrip(c);
    NulFreeIsWhole([c]);
    ValueRoundTripIff(n, Field(name, 1, [c]));
    hide TextToContent;
  }

  lemma StringText(n: Order, name: seq<Byte>, s: seq<Byte>)
    requires NulFree(s)
    ensures var f := Field(name, 8, s + [0]);
            Printable(f) && ValueToText(n, f) == s && TextToContent(n, 8, s) == Some(s + [0])
  {
    StrLenOf(s, []);
    assert s + [0] + [] == s + [0];
    ValueRoundTripIff(n, Field(name, 8, s + [0]));
    hide TextToContent;
  }

  // ---- elements ----

  /** The id is the value of the first attribute whose name starts with "id"; without one it is empty. */
  lemma {:induction false} IdIsFirst(atts: seq<Att>, k: nat)
    requires k <= |atts|
    requires forall i :: 0 <= i < k ==> !(|atts[i].name| >= 2 && atts[i].name[0] == 'i' && atts[i].name[1] == 'd')
    requires k < |atts| ==> |atts[k].name| >= 2 && atts[k].name[0] == 'i' && atts[k].name[1] == 'd'
    ensures IdOf(atts) == if k < |atts| then atts[k].value else []
    decreases k
  {
    if k > 0 {
      assert !("id" <= atts[0].name);
      IdIsFirst(atts[1..], k - 1);
    } else if k < |atts| {
      assert "id" <= atts[k].name;
    }
  }

  /** A document with one element under the root, its text in chunks of any size. */
  function OneElement(name: string, id: Text, chunks: seq<Text>): seq<Event> {
    [Start("Data", [])] + ([Start(name, IdAtts(id))] + Chunks(chunks) + [End(name)]) + [End("Data")]
  }

  /** The record a document leads to. */
  predicate ReadsAs(n: Order, evs: seq<Event>, f: Field) {
    var r := Run(n, [NewContext([Tag(n)], UNDEF)], evs);
    r.Some? && |r.value| == 1 && r.value[0].record == [if n.Little? then 76 else 66] + EncodeField(n, f)
  }

  /** An element of a primitive type becomes a field of that type, called by its id, with the value of its text. */
  lemma ElementRead(n: Order, name: string, kind: Byte, id: Text, chunks: seq<Text>, content: seq<Byte>)
    requires IsTag(name, kind) && name != "list" && TextToContent(n, kind, XmlRoundTrip.Join(chunks)) == Some(content)
    ensures ReadsAs(n, OneElement(name, id, chunks), Field(id, kind, content))
  {
    var s, f := Initial(n), Field(id, kind, content);
    TypeForNameIff(name, kind);
    NamesAre(kind);
    assert NameForType(kind) == name;
    hide *;
    var s1 := RootStarted(n);
    var prim := FlattenItem(PrimItem(kind, id, chunks));
    OneElementIs(name, kind, id, chunks);
    var s2 := PrimLeads(n, s1, f, chunks);
    LeadsThenRun(n, s, [Start(ROOT, [])], s1, prim + [End(ROOT)]);
    LeadsThenRun(n, s1, prim, s2, [End(ROOT)]);
    RootEnded(n, s1, s2, f, OneElement(name, id, chunks));
  }

  lemma OneElementIs(name: string, kind: Byte, id: Text, chunks: seq<Text>)
    requires kind < 13 && kind != T_FLAT && NameForType(kind) == name
    ensures var prim := FlattenItem(PrimItem(kind, id, chunks));
            OneElement(name, id, chunks) == [Start(ROOT, [])] + (prim + [End(ROOT)])
  {
    hide NameForType, Chunks;
    var prim := FlattenItem(PrimItem(kind, id, chunks));
    assert [Start(ROOT, [])] + prim + [End(ROOT)] == [Start(ROOT, [])] + (prim + [End(ROOT)]);
  }

  lemma RootStarted(n: Order) returns (s: seq<Context>)
    ensures s == [NewContext([Tag(n)], DATA)] && Reading(s) && Leads(n, Initial(n), [Start(ROOT, [])], s)
  {
    s := [NewContext([Tag(n)], DATA)];
    assert StartElement(n, Initial(n), ROOT, []) == s;
    SingleLeads(n, Initial(n), Start(ROOT, []), s);
  }

  lemma RootEnded(n: Order, s1: seq<Context>, s2: seq<Context>, f: Field, evs: seq<Event>)
    requires s1 == [NewContext([Tag(n)], DATA)] && Filled(s1, EncodeField(n, f), s2) && Top(s2).state == LIST
    requires Run(n, Initial(n), evs) == Run(n, s2, [End(ROOT)])
    ensures ReadsAs(n, evs, f)
  {
    hide EncodeField;
    assert [End(ROOT)][1..] == [] && Run(n, s2, [End(ROOT)]) == Some(s2);
  }

  /** The decimal text of an integer in the range of its type, as an element of that type. */
  lemma IntegerElement(n: Order, name: string, kind: Byte, id: Text, chunks: seq<Text>, v: int)
    requires IsTag(name, kind) && 2 <= kind <= 7 && Holds(kind, v) && XmlRoundTrip.Join(chunks) == SignedDec(v)
    ensures ReadsAs(n, OneElement(name, id, chunks), Field(id, kind, Memory(n, Width(kind), v)))
  {
    hide ReadsAs, OneElement, Memory, Holds, SignedDec;
    IntegerText(n, id, kind, v);
    ElementRead(n, name, kind, id, chunks, Memory(n, Width(kind), v));
  }

  /** Truth values, characters, strings and blobs. */
  lemma OtherElements(n: Order, id: Text, b: bool, c: Byte, s: seq<Byte>, blob: seq<Byte>)
    requires c != 0 && NulFree(s)
    ensures ReadsAs(n, OneElement("bool", id, [if b then [49] else [48]]), Field(id, 0, [if b then 1 else 0]))
    ensures ReadsAs(n, OneElement("char", id, [[c]]), Field(id, 1, [c]))
    ensures ReadsAs(n, OneElement("string", id, [s]), Field(id, 8, s + [0]))
    ensures ReadsAs(n, OneElement("blob", id, [Hex(blob)]), Field(id, 11, blob))
  {
    OtherText(n, id, b, c, s, blob);
    hide ReadsAs, OneElement, TextToContent, Hex;
    JoinOne(if b then [49] else [48]);
    JoinOne([c]);
    JoinOne(s);
    JoinOne(Hex(blob));
    ElementRead(n, "bool", 0, id, [if b then [49] else [48]], [if b then 1 else 0]);
    ElementRead(n, "char", 1, id, [[c]], [c]);
    ElementRead(n, "string", 8, id, [s], s + [0]);
    ElementRead(n, "blob", 11, id, [Hex(blob)], blob);
  }

  lemma JoinOne(text: Text)
    ensures XmlRoundTrip.Join([text]) == text
  {
    assert XmlRoundTrip.Join([text]) == text + XmlRoundTrip.Join([]);
  }

  /** Of a text longer than a character the first one counts. */
  lemma FirstCharacter(n: Order, c: Byte, rest: Text)
    requires c != 0
    ensures TextToContent(n, 1, [c] + rest) == Some([c])
  {
    var s := [c] + rest;
    assert CStr(s) != [] && CStr(s)[0] == c;
    hide CStr;
  }

  /** A root element inside a list is passed over; only the id and type last read are no longer those of before. */
  lemma NestedRoot(n: Order, s: seq<Context>, atts: seq<Att>)
    requires s != [] && Top(s).state == LIST
    ensures Run(n, s, [Start("Data", atts), End("Data")])
         == Some(Under(s) + [Top(s).(id := IdOf(atts), kind := T_UNKNOWN)])
  {
    IndexIsFirst(TYPE_NAMES, "Data", 0);
    assert TypeForName("Data") == T_UNKNOWN;
    hide IndexOf, IdOf, TypeForName;
    RunTwo(n, s, Start("Data", atts), StartElement(n, s, "Data", atts), End("Data"));
  }

  /** A start tag inside a value is ignored, so that the next end tag, whatever its name, ends the value. */
  lemma TagInValue(n: Order, s: seq<Context>, name: string, atts: seq<Att>, end: string)
    requires s != [] && Top(s).state == PARAM
    ensures Run(n, s, [Start(name, atts), End(end)]) == EndElement(n, s, end)
    ensures EndElement(n, s, end).Some? ==> Top(EndElement(n, s, end).value).state == LIST
  {
    hide TextToContent, EncodeField;
    RunTwo(n, s, Start(name, atts), s, End(end));
  }
}
