/** Printing a record tree as XML and reading it back, however the parser chops the document up. */
module XmlRoundTrip {
  import opened Common
  import opened Bytes
  import opened Record
  import opened RecordTree
  import opened XmlText
  import opened XmlReader
  import opened Flats

  // ---- the writer ----

  /** An element of the document tree, with its id attribute if the name is not empty. */
  datatype Elem = Prim(kind: Byte, id: Text, text: Text) | List(id: Text, elems: seq<Elem>)

  /** record_to_xml on an opened record. */
  function Print(n: Order, nodes: seq<Node>): (elems: seq<Elem>)
    requires AllPrintable(nodes)
    ensures |elems| == |nodes|
    decreases nodes, 0
  {
    if nodes == [] then [] else
      assert nodes[0] in nodes;
      assert forall node | node in nodes[1..] :: node in nodes;
      [PrintNode(n, nodes[0])] + Print(n, nodes[1..])
  }

  function PrintNode(n: Order, node: Node): Elem
    requires IsPrintable(node)
    decreases node, 1
  {
    match node
    case Leaf(f) => Prim(f.kind, f.name, ValueToText(n, f))
    case Branch(name, _, nodes) => List(name, Print(n, nodes))
  }

  /** record_to_xml on the bytes of a record. */
  function PrintRecord(n: Order, s: seq<Byte>): Option<seq<Elem>>
    requires s != []
  {
    match Open(n, s)
    case None => None
    case Some(nodes) => if AllPrintable(nodes) then Some(Print(n, nodes)) else None
  }

  predicate IsPrintable(node: Node) {
    match node
    case Leaf(f) => Printable(f)
    case Branch(_, _, nodes) => AllPrintable(nodes)
  }

  predicate AllPrintable(nodes: seq<Node>) {
    forall node | node in nodes :: IsPrintable(node)
  }

  /** Every value is one the put functions store. */
  predicate IsCanonical(node: Node) {
    match node
    case Leaf(f) => Canonical(f)
    case Branch(_, _, nodes) => AllCanonical(nodes)
  }

  predicate AllCanonical(nodes: seq<Node>) {
    forall node | node in nodes :: IsCanonical(node)
  }

  // ---- documents as the parser delivers them ----

  /** The content of an element: blanks between elements, text in chunks of any size. */
  datatype Item =
    | Gap(blank: Text)
    | PrimItem(kind: Byte, id: Text, chunks: seq<Text>)
    | ListItem(id: Text, items: seq<Item>)

  function Join(chunks: seq<Text>): Text {
    if chunks == [] then [] else chunks[0] + Join(chunks[1..])
  }

  function IdAtts(id: Text): seq<Att> {
    if id == [] then [] else [Att("id", id)]
  }

  function Chunks(chunks: seq<Text>): seq<Event> {
    seq(|chunks|, i requires 0 <= i < |chunks| => Characters(chunks[i]))
  }

  predicate Named(item: Item) {
    match item
    case Gap(_) => true
    case PrimItem(kind, _, _) => kind < 13 && kind != T_FLAT
    case ListItem(_, items) => AllNamed(items)
  }

  predicate AllNamed(items: seq<Item>) {
    forall item | item in items :: Named(item)
  }

  function Flatten(items: seq<Item>): seq<Event>
    requires AllNamed(items)
    decreases items, 0
  {
    if items == [] then [] else
      assert items[0] in items;
      assert forall item | item in items[1..] :: item in items;
      FlattenItem(items[0]) + Flatten(items[1..])
  }

  function FlattenItem(item: Item): seq<Event>
    requires Named(item)
    decreases item, 1
  {
    match item
    case Gap(blank) => [Characters(blank)]
    case PrimItem(kind, id, chunks) =>
      [Start(NameForType(kind), IdAtts(id))] + Chunks(chunks) + [End(NameForType(kind))]
    case ListItem(id, items) =>
      [Start("list", IdAtts(id))] + Flatten(items) + [End("list")]
  }

  /** The events of a whole file: the root element may carry any attributes, such as the checksum. */
  function Document(items: seq<Item>, atts: seq<Att>): seq<Event>
    requires AllNamed(items)
  {
    [Start(ROOT, atts)] + Flatten(items) + [End(ROOT)]
  }

  /** The document tree a sequence of items delivers. */
  function Strip(items: seq<Item>): seq<Elem>
    decreases items
  {
    if items == [] then [] else
    match items[0]
    case Gap(_) => Strip(items[1..])
    case PrimItem(kind, id, chunks) => [Prim(kind, id, Join(chunks))] + Strip(items[1..])
    case ListItem(id, sub) =>
      assert items[0] in items;
      [List(id, Strip(sub))] + Strip(items[1..])
  }

  // ---- running the reader ----

  /** Lists opened minus lists closed. */
  function OpenLists(evs: seq<Event>): int {
    if evs == [] then 0 else Delta(evs[0]) + OpenLists(evs[1..])
  }

  function Delta(ev: Event): int {
    match ev
    case Start(name, _) => if name == "list" then 1 else 0
    case End(name) => if name == "list" then -1 else 0
    case Characters(_) => 0
  }

  /** The run leads to `r`, and the stack grows and shrinks exactly as lists are opened and closed. */
  ghost predicate Leads(n: Order, s: seq<Context>, evs: seq<Event>, r: seq<Context>)
    requires s != []
    decreases |evs|
  {
    if evs == [] then r == s
    else
      match Step(n, s, evs[0])
      case None => false
      case Some(s') => |s'| == |s| + Delta(evs[0]) && Leads(n, s', evs[1..], r)
  }

  lemma {:induction false} LeadsAppend(n: Order, s: seq<Context>, a: seq<Event>, t: seq<Context>, b: seq<Event>,
                                       r: seq<Context>)
    requires s != [] && t != [] && Leads(n, s, a, t) && Leads(n, t, b, r)
    ensures Leads(n, s, a + b, r)
    decreases |a|
  {
    hide Step, Delta;
    if a == [] {
      assert a + b == b;
    } else {
      assert (a + b)[1..] == a[1..] + b;
      LeadsAppend(n, Step(n, s, a[0]).value, a[1..], t, b, r);
    }
  }

  lemma {:induction false} LeadsIsRun(n: Order, s: seq<Context>, evs: seq<Event>, r: seq<Context>, k: nat)
    requires s != [] && Leads(n, s, evs, r) && k <= |evs|
    ensures r != [] && Run(n, s, evs) == Some(r)
    ensures Run(n, s, evs[..k]).Some? && |Run(n, s, evs[..k]).value| == |s| + OpenLists(evs[..k])
    decreases |evs|
  {
    if evs != [] {
      var s' := Step(n, s, evs[0]).value;
      if k == 0 {
        LeadsIsRun(n, s', evs[1..], r, 0);
      } else {
        LeadsIsRun(n, s', evs[1..], r, k - 1);
        assert evs[..k][1..] == evs[1..][..k - 1];
      }
    }
  }

  // ---- one element ----

  lemma TypeNamesInvert(kind: Byte)
    requires kind < 13
    ensures TypeForName(NameForType(kind)) == kind && NameForType(kind) != ROOT
    ensures NameForType(kind) == "list" <==> kind == T_FLAT
  {
  }

  lemma IdOfAtts(id: Text)
    ensures IdOf(IdAtts(id)) == id
  {
    if id != [] {
      assert "id" <= IdAtts(id)[0].name;
    }
  }

  lemma {:induction false} ChunksLead(n: Order, s: seq<Context>, chunks: seq<Text>)
    requires s != [] && Top(s).state == PARAM
    ensures Leads(n, s, Chunks(chunks), Under(s) + [Top(s).(value := Top(s).value + Join(chunks))])
    decreases |chunks|
  {
    if chunks == [] {
      assert Top(s).value + [] == Top(s).value;
      assert Under(s) + [Top(s)] == s;
    } else {
      var s' := Under(s) + [Top(s).(value := Top(s).value + chunks[0])];
      ChunksLead(n, s', chunks[1..]);
      assert Chunks(chunks)[1..] == Chunks(chunks[1..]);
      assert Top(s).value + chunks[0] + Join(chunks[1..]) == Top(s).value + Join(chunks);
      assert Under(s') == Under(s);
    }
  }

  /** The stack after content was read into the top record. */
  ghost predicate Filled(s: seq<Context>, added: seq<Byte>, r: seq<Context>) {
    && s != [] && r != [] && |r| == |s| && Under(r) == Under(s)
    && Top(r).record == Top(s).record + added
    && (Top(r).state == DATA || Top(r).state == LIST)
    && (Top(s).state == LIST ==> Top(r).state == LIST)
  }

  predicate Reading(s: seq<Context>) {
    s != [] && (Top(s).state == DATA || Top(s).state == LIST)
  }

  lemma PrimLeads(n: Order, s: seq<Context>, f: Field, chunks: seq<Text>) returns (r: seq<Context>)
    requires Reading(s) && f.kind < 13 && f.kind != T_FLAT
    requires TextToContent(n, f.kind, Join(chunks)) == Some(f.content)
    ensures Filled(s, EncodeField(n, f), r) && Top(r).state == LIST
    ensures Leads(n, s, FlattenItem(PrimItem(f.kind, f.name, chunks)), r)
  {
    hide TextToContent, EncodeField;
    var name, atts := NameForType(f.kind), IdAtts(f.name);
    TypeNamesInvert(f.kind);
    IdOfAtts(f.name);
    hide NameForType, TypeForName;
    var s1 := StartElement(n, s, name, atts);
    ChunksLead(n, s1, chunks);
    var s2 := Under(s1) + [Top(s1).(value := Top(s1).value + Join(chunks))];
    assert Top(s2).value == Join(chunks);
    r := EndElement(n, s2, name).value;
    SingleLeads(n, s, Start(name, atts), s1);
    SingleLeads(n, s2, End(name), r);
    LeadsAppend(n, s, [Start(name, atts)], s1, Chunks(chunks), s2);
    LeadsAppend(n, s, [Start(name, atts)] + Chunks(chunks), s2, [End(name)], r);
  }

  lemma SingleLeads(n: Order, s: seq<Context>, ev: Event, r: seq<Context>)
    requires s != [] && Step(n, s, ev) == Some(r) && |r| == |s| + Delta(ev)
    ensures Leads(n, s, [ev], r)
  {
    assert [ev][1..] == [];
  }

  lemma AddedFirst(n: Order, nodes: seq<Node>)
    requires nodes != []
    ensures EncodeFields(n, AsFields(n, UniformAll(n, nodes)))
         == EncodeField(n, AsField(n, Uniform(n, nodes[0]))) + EncodeFields(n, AsFields(n, UniformAll(n, nodes[1..])))
  {
    hide EncodeField, AsField, Uniform;
    var u := UniformAll(n, nodes);
    assert u[0] == Uniform(n, nodes[0]) && u[1..] == UniformAll(n, nodes[1..]);
    var fs := AsFields(n, u);
    assert fs[0] == AsField(n, u[0]) && fs[1..] == AsFields(n, u[1..]);
  }

  lemma FilledTwice(s: seq<Context>, a: seq<Byte>, t: seq<Context>, b: seq<Byte>, r: seq<Context>)
    requires Filled(s, a, t) && Filled(t, b, r)
    ensures Filled(s, a + b, r)
  {
    assert Top(s).record + a + b == Top(s).record + (a + b);
  }

  lemma {:induction false} ItemsLead(n: Order, s: seq<Context>, items: seq<Item>, nodes: seq<Node>)
    returns (r: seq<Context>)
    requires Reading(s) && AllNamed(items) && AllCanonical(nodes) && AllPrintable(nodes)
    requires Strip(items) == Print(n, nodes)
    ensures Filled(s, EncodeFields(n, AsFields(n, UniformAll(n, nodes))), r)
    ensures Leads(n, s, Flatten(items), r)
    decreases items, 1
  {
    if items == [] {
      r := s;
      assert Top(s).record + [] == Top(s).record;
    } else {
      var item := items[0];
      assert item in items;
      assert forall i | i in items[1..] :: i in items;
      if item.Gap? {
        SingleLeads(n, s, Characters(item.blank), s);
        r := ItemsLead(n, s, items[1..], nodes);
        LeadsAppend(n, s, FlattenItem(item), s, Flatten(items[1..]), r);
      } else {
        var node := nodes[0];
        assert node in nodes;
        assert forall d | d in nodes[1..] :: d in nodes;
        assert Strip(items)[0] == PrintNode(n, node) && Strip(items)[1..] == Strip(items[1..]) == Print(n, nodes[1..]);
        var t := ItemLeads(n, s, item, node);
        r := ItemsLead(n, t, items[1..], nodes[1..]);
        LeadsAppend(n, s, FlattenItem(item), t, Flatten(items[1..]), r);
        AddedFirst(n, nodes);
        FilledTwice(s, EncodeField(n, AsField(n, Uniform(n, node))), t,
                    EncodeFields(n, AsFields(n, UniformAll(n, nodes[1..]))), r);
      }
    }
  }

  lemma {:induction false} ItemLeads(n: Order, s: seq<Context>, item: Item, node: Node)
    returns (r: seq<Context>)
    requires Reading(s) && Named(item) && !item.Gap? && IsCanonical(node) && IsPrintable(node)
    requires Strip([item])[0] == PrintNode(n, node)
    ensures Filled(s, EncodeField(n, AsField(n, Uniform(n, node))), r)
    ensures Leads(n, s, FlattenItem(item), r)
    decreases item, 1
  {
    if item.PrimItem? {
      ValueRoundTripIff(n, node.field);
      r := PrimLeads(n, s, node.field, item.chunks);
    } else {
      r := ListLeads(n, s, item, node);
    }
  }

  lemma {:induction false} ListLeads(n: Order, s: seq<Context>, item: Item, node: Node)
    returns (r: seq<Context>)
    requires Reading(s) && Named(item) && item.ListItem? && IsCanonical(node) && IsPrintable(node)
    requires Strip([item])[0] == PrintNode(n, node)
    ensures Filled(s, EncodeField(n, AsField(n, Uniform(n, node))), r)
    ensures Leads(n, s, FlattenItem(item), r)
    decreases item, 0
  {
    hide EncodeField, IdOf, TextToContent, Leads, AllCanonical, AllPrintable;
    var atts := IdAtts(item.id);
    TypeNamesInvert(T_FLAT);
    IdOfAtts(item.id);
    var s1 := StartElement(n, s, "list", atts);
    var t := ItemsLead(n, s1, item.items, node.nodes);
    OpenedRecord(n, node.nodes);
    r := EndElement(n, t, "list").value;
    SingleLeads(n, s, Start("list", atts), s1);
    SingleLeads(n, t, End("list"), r);
    LeadsAppend(n, s, [Start("list", atts)], s1, Flatten(item.items), t);
    LeadsAppend(n, s, [Start("list", atts)] + Flatten(item.items), t, [End("list")], r);
  }

  lemma OpenedRecord(n: Order, nodes: seq<Node>)
    ensures [Tag(n)] + EncodeFields(n, AsFields(n, UniformAll(n, nodes))) == RecordOf(n, n, UniformAll(n, nodes))
  {
    NativeSeen(n, AsFields(n, UniformAll(n, nodes)));
  }

  // ---- the main results ----

  /** What the program usually reads into: an empty record of the host. */
  function Initial(n: Order): seq<Context> {
    [NewContext([Tag(n)], UNDEF)]
  }

  /** Reading any delivery of a printed document appends the fields of the tree to the record read into. */
  lemma ReadInto(n: Order, record: seq<Byte>, nodes: seq<Node>, items: seq<Item>, atts: seq<Att>, k: nat)
    requires AllCanonical(nodes) && AllPrintable(nodes) && AllNamed(items)
    requires Strip(items) == Print(n, nodes) && k <= |Document(items, atts)|
    ensures var r := Run(n, [NewContext(record, UNDEF)], Document(items, atts));
            && r.Some? && |r.value| == 1
            && r.value[0].record == record + EncodeFields(n, AsFields(n, UniformAll(n, nodes)))
    ensures var done := Document(items, atts)[..k];
            var r := Run(n, [NewContext(record, UNDEF)], done);
            r.Some? && |r.value| == 1 + OpenLists(done)
  {
    var s := [NewContext(record, UNDEF)];
    var s1 := StartElement(n, s, ROOT, atts);
    SingleLeads(n, s, Start(ROOT, atts), s1);
    var t := ItemsLead(n, s1, items, nodes);
    var r := EndElement(n, t, ROOT).value;
    SingleLeads(n, t, End(ROOT), r);
    LeadsAppend(n, s, [Start(ROOT, atts)], s1, Flatten(items), t);
    LeadsAppend(n, s, [Start(ROOT, atts)] + Flatten(items), t, [End(ROOT)], r);
    LeadsIsRun(n, s, Document(items, atts), r, k);
  }

  /**
   * Reading any delivery of the printed document rebuilds the record byte for byte, in host order at
   * every level. On the way there is always one context more than there are open lists.
   */
  lemma XmlRoundTrip(n: Order, nodes: seq<Node>, items: seq<Item>, atts: seq<Att>, k: nat)
    requires AllCanonical(nodes) && AllPrintable(nodes) && AllNamed(items)
    requires Strip(items) == Print(n, nodes) && k <= |Document(items, atts)|
    ensures var r := Run(n, Initial(n), Document(items, atts));
            r.Some? && |r.value| == 1 && r.value[0].record == RecordOf(n, n, UniformAll(n, nodes))
    ensures var done := Document(items, atts)[..k];
            Run(n, Initial(n), done).Some? && |Run(n, Initial(n), done).value| == 1 + OpenLists(done)
  {
    ReadInto(n, [Tag(n)], nodes, items, atts, k);
    OpenedRecord(n, nodes);
  }

  /**
   * The record read into is only cleared, which leaves its order byte. If that is the other order's, the
   * fields are decoded again exactly if swapping changes none of them.
   */
  lemma ReadIntoForeignIff(n: Order, nodes: seq<Node>, items: seq<Item>, atts: seq<Att>)
    requires AllWellFormed(nodes) && |RecordOf(n, n, UniformAll(n, nodes))| < U32_LIMIT
    requires AllCanonical(nodes) && AllPrintable(nodes) && AllNamed(items) && Strip(items) == Print(n, nodes)
    ensures var r := Run(n, [NewContext([Tag(Other(n))], UNDEF)], Document(items, atts));
            var fs := AsFields(n, UniformAll(n, nodes));
            && r.Some? && r.value != [] && r.value[0].record != []
            && (Decode(n, r.value[0].record) == Some(fs) <==> forall i :: 0 <= i < |fs| ==> SameSwapped(fs[i]))
  {
    var u := UniformAll(n, nodes);
    ReadInto(n, [Tag(Other(n))], nodes, items, atts, 0);
    UniformWellFormed(n, nodes);
    AsFieldsStorable(n, n, u);
    ForeignTagIff(n, AsFields(n, u));
  }

  /**
   * Saving and loading: a record, opened, printed as XML, delivered in any way and read back is the
   * record of the same tree with every level in host order; it opens to the same fields and lists.
   */
  lemma SaveAndLoad(n: Order, o: Order, nodes: seq<Node>, items: seq<Item>, atts: seq<Att>)
    requires AllWellFormed(nodes) && |RecordOf(n, o, nodes)| < U32_LIMIT
    requires AllCanonical(nodes) && AllPrintable(nodes) && AllNamed(items)
    requires PrintRecord(n, RecordOf(n, o, nodes)) == Some(Strip(items))
    ensures var r := Run(n, Initial(n), Document(items, atts));
            && r.Some? && |r.value[0].record| == |RecordOf(n, o, nodes)|
            && Open(n, r.value[0].record) == Some(UniformAll(n, nodes))
            && (o == n && UniformAll(n, nodes) == nodes ==> r.value[0].record == RecordOf(n, o, nodes))
  {
    MixedOrderSameMeaning(n, o, nodes);
    TreeRoundTrip(n, o, nodes);
    XmlRoundTrip(n, nodes, items, atts, 0);
  }

  lemma {:induction false} LeadsThenRun(n: Order, s: seq<Context>, a: seq<Event>, t: seq<Context>, b: seq<Event>)
    requires s != [] && t != [] && Leads(n, s, a, t)
    ensures Run(n, s, a + b) == Run(n, t, b)
    decreases |a|
  {
    if a == [] {
      assert a + b == b;
    } else {
      assert (a + b)[1..] == a[1..] + b;
      LeadsThenRun(n, Step(n, s, a[0]).value, a[1..], t, b);
    }
  }

  /**
   * An element of unknown type is skipped, that is, leaves the contexts as they were, exactly outside the
   * root element. Anywhere else its end tag ends what is open: the value, the list or the root.
   */
  lemma UnknownSkippedIff(n: Order, s: seq<Context>, name: string, atts: seq<Att>)
    requires s != [] && TypeForName(name) == T_UNKNOWN && name != ROOT
    ensures Run(n, s, [Start(name, atts), End(name)]) == Some(s) <==> Top(s).state == UNDEF
  {
    hide TypeForName, TextToContent, IdOf, EncodeField;
    var s1 := StartElement(n, s, name, atts);
    RunTwo(n, s, Start(name, atts), s1, End(name));
    var r := EndElement(n, s1, name);
    if r.Some? && Top(s).state != UNDEF {
      assert |r.value| < |s| || Top(r.value).state != Top(s).state;
    }
  }

  lemma RunTwo(n: Order, s: seq<Context>, a: Event, s1: seq<Context>, b: Event)
    requires s != [] && s1 != [] && Step(n, s, a) == Some(s1)
    ensures Run(n, s, [a, b]) == Step(n, s1, b)
  {
    hide Step;
    assert [a, b][1..] == [b] && [b][1..] == [];
    assert Run(n, s, [a, b]) == Run(n, s1, [b]);
  }

  lemma StopsAtSecond(n: Order, s: seq<Context>, evs: seq<Event>)
    requires s != [] && |evs| >= 2 && Step(n, s, evs[0]).Some?
    requires Step(n, Step(n, s, evs[0]).value, evs[1]).None?
    ensures Run(n, s, evs).None?
  {
    hide Step;
    assert evs[1..][0] == evs[1];
  }

  lemma StartRoot(n: Order)
    ensures |Initial(n)| == 1
    ensures var s := StartElement(n, Initial(n), ROOT, []);
            |s| == 1 && Reading(s) && Step(n, Initial(n), Start(ROOT, [])) == Some(s)
    ensures Delta(Start(ROOT, [])) == 0
  {
  }

  lemma UnknownPops(n: Order, s: seq<Context>, name: string, atts: seq<Att>, rest: seq<Event>)
    requires |s| == 1 && Top(s).state == LIST && TypeForName(name) == T_UNKNOWN && name != ROOT
    ensures Run(n, s, [Start(name, atts), End(name)] + rest).None?
  {
    hide TypeForName, TextToContent, IdOf, EncodeField, Run;
    var evs := [Start(name, atts), End(name)] + rest;
    assert Step(n, s, evs[0]) == Some(StartElement(n, s, name, atts));
    StopsAtSecond(n, s, evs);
  }

  /**
   * Below the root, once one value has been read there, the end tag of an element of unknown type pops the
   * last context.
   */
  lemma UnknownElementUnderflows(n: Order, f: Field, chunks: seq<Text>, name: string, atts: seq<Att>, rest: seq<Event>)
    requires f.kind < 13 && f.kind != T_FLAT && TextToContent(n, f.kind, Join(chunks)) == Some(f.content)
    requires TypeForName(name) == T_UNKNOWN && name != ROOT
    ensures Run(n, Initial(n), [Start(ROOT, [])] + FlattenItem(PrimItem(f.kind, f.name, chunks))
                               + ([Start(name, atts), End(name)] + rest)).None?
  {
    hide TextToContent, FlattenItem, StartElement, Initial, TypeForName, Run, Step, EncodeField, Delta, Leads;
    StartRoot(n);
    var s1 := StartElement(n, Initial(n), ROOT, []);
    var prim := FlattenItem(PrimItem(f.kind, f.name, chunks));
    var s2 := PrimLeads(n, s1, f, chunks);
    SingleLeads(n, Initial(n), Start(ROOT, []), s1);
    LeadsAppend(n, Initial(n), [Start(ROOT, [])], s1, prim, s2);
    UnknownPops(n, s2, name, atts, rest);
    LeadsThenRun(n, Initial(n), [Start(ROOT, [])] + prim, s2, [Start(name, atts), End(name)] + rest);
  }
}
