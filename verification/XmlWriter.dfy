/** record_to_xml as it runs: a cursor over the record, one call deeper for every nested record. */
module XmlWriter {
  import opened Common
  import opened Bytes
  import opened Record
  import opened RecordTree
  import opened XmlText
  import opened XmlRoundTrip
  import opened Flats

  lemma {:induction false} OpenedAt(n: Order, fs: seq<Field>, bound: nat, i: nat)
    requires OpenFields(n, fs, bound).Some? && i < |fs|
    ensures var nodes := OpenFields(n, fs, bound).value;
            && |nodes| == |fs|
            && if fs[i].kind != T_FLAT then nodes[i] == Leaf(fs[i])
               else
                 && 0 < |fs[i].content| < bound && nodes[i].Branch? && nodes[i].name == fs[i].name
                 && Open(n, fs[i].content) == Some(nodes[i].nodes)
  {
    if i > 0 {
      OpenedAt(n, fs[1..], bound, i - 1);
    } else if |fs| > 1 {
      OpenedAt(n, fs[1..], bound, 0);
    }
  }

  lemma {:induction false} PrintedAt(n: Order, nodes: seq<Node>, i: nat)
    requires AllPrintable(nodes) && i < |nodes|
    ensures IsPrintable(nodes[i]) && Print(n, nodes)[i] == PrintNode(n, nodes[i])
  {
    assert nodes[i] in nodes;
    if i > 0 {
      assert forall node | node in nodes[1..] :: node in nodes;
      PrintedAt(n, nodes[1..], i - 1);
    }
  }

  /** What the loop prints for the i-th field of a record. */
  lemma FieldPrinted(n: Order, s: seq<Byte>, i: nat)
    requires s != [] && PrintRecord(n, s).Some? && Readable(n, s) && i < |FieldsOf(n, s)|
    ensures |PrintRecord(n, s).value| == |FieldsOf(n, s)|
    ensures var f, elem := FieldsOf(n, s)[i], PrintRecord(n, s).value[i];
            if f.kind != T_FLAT then Printable(f) && elem == Prim(f.kind, f.name, ValueToText(n, f))
            else
              && 0 < |f.content| < |s| && PrintRecord(n, f.content).Some?
              && elem == List(f.name, PrintRecord(n, f.content).value)
  {
    var fs, nodes := FieldsOf(n, s), Open(n, s).value;
    OpenedAt(n, fs, |s|, i);
    PrintedAt(n, nodes, i);
  }

  lemma Opens(n: Order, s: seq<Byte>)
    requires s != [] && PrintRecord(n, s).Some?
    ensures Readable(n, s) && |PrintRecord(n, s).value| == |FieldsOf(n, s)|
  {
    if |s| == 1 {
      var none: seq<Field> := [];
      assert s[1..] == [] && Decode(n, s) == Some(none);
      assert OpenFields(n, none, |s|) == Some([]);
    } else if FieldsOf(n, s) != [] {
      FieldPrinted(n, s, 0);
    }
  }

  /** The record is not decoded yet, or its decoded list is that of its buffer. */
  ghost predicate Current(record: Flat)
    reads record, record.buffer
  {
    && record.Valid()
    && (record.data == [] || (Readable(record.native, record.Bytes())
                              && record.data == FieldsOf(record.native, record.Bytes())))
  }

  method RecordToXml(record: Flat) returns (elems: seq<Elem>)
    requires Current(record) && PrintRecord(record.native, record.Bytes()).Some?
    modifies record, record.buffer
    ensures Some(elems) == PrintRecord(record.native, old(record.Bytes()))
    ensures record.buffer == old(record.buffer)
    decreases |record.Bytes()|, 1
  {
    ghost var s := record.Bytes();
    assert 0 < |s| < U32_LIMIT;
    hide *;
    ghost var all := PrintRecord(record.native, s).value;
    Opens(record.native, s);
    ghost var fs := FieldsOf(record.native, s);
    record.First();
    elems := [];
    ghost var i := 0;
    while true  // until next reports the end
      invariant record.Valid() && record.buffer == old(record.buffer) && i <= |fs|
      invariant if record.data == [] then i == 0 && record.Bytes() == s else record.data == fs && record.decoded == i
      invariant elems == all[..i]
      decreases |fs| - i
    {
      var next := record.Next();
      if next.None? {
        Taken(all, i);
        return;
      }
      FieldPrinted(record.native, s, i);
      var elem := FieldToXml(record.native, next.value, s);
      Taken(all, i);
      elems := elems + [elem];
      i := i + 1;
    }
  }

  lemma Taken(all: seq<Elem>, i: nat)
    requires i <= |all|
    ensures all[..|all|] == all
    ensures i < |all| ==> all[..i] + [all[i]] == all[..i + 1]
  {
  }

  /** What the loop does with one field. */
  method FieldToXml(n: Order, f: Field, ghost s: seq<Byte>) returns (elem: Elem)
    requires |s| < U32_LIMIT
    requires if f.kind != T_FLAT then Printable(f)
             else 0 < |f.content| < |s| && PrintRecord(n, f.content).Some?
    ensures elem == if f.kind != T_FLAT then Prim(f.kind, f.name, ValueToText(n, f))
                    else List(f.name, PrintRecord(n, f.content).value)
    decreases |s|, 0
  {
    hide *;
    if f.kind != T_FLAT {
      elem := Prim(f.kind, f.name, ValueToText(n, f));
    } else {
      var rec := new Flat.FromBuffer(n, f.content);
      assert Current(rec) by {
        NotDecoded(rec);
      }
      var sub := RecordToXml(rec);
      elem := List(f.name, sub);
    }
  }

  lemma NotDecoded(record: Flat)
    requires record.Valid() && record.data == []
    ensures Current(record)
  {
  }
}
