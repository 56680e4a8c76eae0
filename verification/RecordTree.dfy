/** Records nested in records: `put_flat` and `get_flat` over whole trees of mixed byte order. */
module RecordTree {
  import opened Common
  import opened Bytes
  import opened Record

  /** A field of primitive type, or a nested record with the byte order it was written in. */
  datatype Node = Leaf(field: Field) | Branch(name: seq<Byte>, order: Order, nodes: seq<Node>)

  /** The tree as the field of a parent, as a host of order `n` sees it; nested content is opaque bytes. */
  function AsField(n: Order, node: Node): Field
    decreases node, 1
  {
    match node
    case Leaf(f) => f
    case Branch(name, o, nodes) => Field(name, T_FLAT, RecordOf(n, o, nodes))
  }

  function AsFields(n: Order, nodes: seq<Node>): (fs: seq<Field>)
    ensures |fs| == |nodes|
    decreases nodes, 0
  {
    if nodes == [] then [] else [AsField(n, nodes[0])] + AsFields(n, nodes[1..])
  }

  /** A record of order `o` whose leaves hold the values a host of order `n` knows as `nodes`. */
  function RecordOf(n: Order, o: Order, nodes: seq<Node>): (s: seq<Byte>)
    ensures s != [] && s[0] == Tag(o)
    decreases nodes, 1
  {
    Encode(n, o, AsFields(n, nodes))
  }

  /** What the program puts into records: NUL-free names, full-width integers, no raw nested records. */
  predicate WellFormed(node: Node) {
    match node
    case Leaf(f) => NulFree(f.name) && Wide(f) && f.kind != T_FLAT
    case Branch(name, o, nodes) => NulFree(name) && AllWellFormed(nodes)
  }

  predicate AllWellFormed(nodes: seq<Node>) {
    forall node | node in nodes :: WellFormed(node)
  }

  /** The order a reader takes a record to have: any tag but its own is the other order. */
  function OrderOf(n: Order, s: seq<Byte>): Order
    requires s != []
  {
    if s[0] == Tag(n) then n else Other(n)
  }

  /** Reads a record and, through `get_flat`, every record nested in it. */
  function Open(n: Order, s: seq<Byte>): Option<seq<Node>>
    requires s != []
    decreases |s|, 1, 0
  {
    match Decode(n, s)
    case None => None
    case Some(fs) => OpenFields(n, fs, |s|)
  }

  function OpenFields(n: Order, fs: seq<Field>, bound: nat): Option<seq<Node>>
    decreases bound, 0, |fs|
  {
    if fs == [] then Some([])
    else
      match OpenFields(n, fs[1..], bound)
      case None => None
      case Some(rest) =>
        if fs[0].kind != T_FLAT then Some([Leaf(fs[0])] + rest)
        else if fs[0].content == [] || bound <= |fs[0].content| then None
        else
          match Open(n, fs[0].content)
          case None => None
          case Some(nodes) => Some([Branch(fs[0].name, OrderOf(n, fs[0].content), nodes)] + rest)
  }

  // ---- the whole tree comes back ----

  lemma {:induction false} AsFieldsAt(n: Order, nodes: seq<Node>, i: nat)
    requires i < |nodes|
    ensures AsFields(n, nodes)[i] == AsField(n, nodes[i])
  {
    if i > 0 {
      AsFieldsAt(n, nodes[1..], i - 1);
    }
  }

  lemma AsFieldsStorable(n: Order, o: Order, nodes: seq<Node>)
    requires AllWellFormed(nodes) && |RecordOf(n, o, nodes)| < U32_LIMIT
    ensures Storable(n, o, AsFields(n, nodes)) && AllWide(AsFields(n, nodes))
    ensures forall f | f in AsFields(n, nodes) :: |f.content| < |RecordOf(n, o, nodes)|
  {
    var fs := AsFields(n, nodes);
    forall i | 0 <= i < |fs|
      ensures NulFree(fs[i].name) && Wide(fs[i]) && |fs[i].content| < |RecordOf(n, o, nodes)|
    {
      AsFieldsAt(n, nodes, i);
      assert nodes[i] in nodes;
      ContentFits(o, SeenAll(n, o, fs), i);
      SwappedTwice(fs[i]);
    }
  }

  /**
   * Whatever byte order each record of a tree was written in, a host that opens them one inside the
   * other recovers the whole tree: names, types, values and the orders themselves.
   */
  lemma {:induction false} TreeRoundTrip(n: Order, o: Order, nodes: seq<Node>)
    requires AllWellFormed(nodes) && |RecordOf(n, o, nodes)| < U32_LIMIT
    ensures Open(n, RecordOf(n, o, nodes)) == Some(nodes)
    decreases nodes, 1
  {
    AsFieldsStorable(n, o, nodes);
    RecordRoundTrip(n, o, AsFields(n, nodes));
    FieldsOpen(n, nodes, |RecordOf(n, o, nodes)|);
  }

  lemma {:induction false} FieldsOpen(n: Order, nodes: seq<Node>, bound: nat)
    requires AllWellFormed(nodes) && bound < U32_LIMIT
    requires forall f | f in AsFields(n, nodes) :: |f.content| < bound
    ensures OpenFields(n, AsFields(n, nodes), bound) == Some(nodes)
    decreases nodes, 0
  {
    if nodes != [] {
      var fs, node := AsFields(n, nodes), nodes[0];
      assert fs[0] == AsField(n, node) && fs[0] in fs && node in nodes && WellFormed(node);
      assert fs[1..] == AsFields(n, nodes[1..]);
      assert forall f | f in fs[1..] :: f in fs;
      assert forall node' | node' in nodes[1..] :: node' in nodes;
      hide Decode, Encode, AsFields, Open, RecordOf, WellFormed;
      FieldsOpen(n, nodes[1..], bound);
      if node.Branch? {
        assert AllWellFormed(node.nodes) && fs[0].content == RecordOf(n, node.order, node.nodes);
        TreeRoundTrip(n, node.order, node.nodes);
        assert OrderOf(n, fs[0].content) == node.order;
      }
      assert nodes == [node] + nodes[1..];
    }
  }

  // ---- byte order does not carry meaning ----

  /** The tree with every record in order `o`. */
  function Uniform(o: Order, node: Node): Node
    decreases node, 1
  {
    match node
    case Leaf(f) => node
    case Branch(name, _, nodes) => Branch(name, o, UniformAll(o, nodes))
  }

  function UniformAll(o: Order, nodes: seq<Node>): (r: seq<Node>)
    ensures |r| == |nodes|
    decreases nodes, 0
  {
    if nodes == [] then [] else [Uniform(o, nodes[0])] + UniformAll(o, nodes[1..])
  }

  lemma {:induction false} UniformWellFormed(o: Order, nodes: seq<Node>)
    requires AllWellFormed(nodes)
    ensures AllWellFormed(UniformAll(o, nodes))
  {
    if nodes != [] {
      assert nodes[0] in nodes;
      assert forall node | node in nodes[1..] :: node in nodes;
      if nodes[0].Branch? {
        UniformWellFormed(o, nodes[0].nodes);
      }
      UniformWellFormed(o, nodes[1..]);
    }
  }

  lemma {:induction false} UniformLength(n: Order, p: Order, o: Order, nodes: seq<Node>)
    ensures |RecordOf(n, o, nodes)| == |RecordOf(n, p, UniformAll(p, nodes))|
    decreases nodes
  {
    if nodes == [] {
    } else {
      assert nodes[0] in nodes;
      UniformLength(n, p, o, nodes[1..]);
      if nodes[0].Branch? {
        UniformLength(n, p, nodes[0].order, nodes[0].nodes);
      }
      RecordLength(n, o, nodes);
      RecordLength(n, p, UniformAll(p, nodes));
    }
  }

  lemma RecordLength(n: Order, o: Order, nodes: seq<Node>)
    requires nodes != []
    ensures |RecordOf(n, o, nodes)|
         == |AsField(n, nodes[0]).name| + |AsField(n, nodes[0]).content| + 6 + |RecordOf(n, o, nodes[1..])|
  {
    var fs := AsFields(n, nodes);
    SeenAllTail(n, o, fs);
    SwappedTwice(fs[0]);
    assert fs[1..] == AsFields(n, nodes[1..]);
  }

  /**
   * A tree written by hosts of mixed order means the same tree as if the reader had written all of it:
   * opening both gives the same nodes up to the orders, and both records have the same size.
   */
  lemma MixedOrderSameMeaning(n: Order, o: Order, nodes: seq<Node>)
    requires AllWellFormed(nodes) && |RecordOf(n, o, nodes)| < U32_LIMIT
    ensures Open(n, RecordOf(n, o, nodes)).Some?
    ensures Open(n, RecordOf(n, n, UniformAll(n, nodes)))
         == Some(UniformAll(n, Open(n, RecordOf(n, o, nodes)).value))
    ensures |RecordOf(n, o, nodes)| == |RecordOf(n, n, UniformAll(n, nodes))|
  {
    TreeRoundTrip(n, o, nodes);
    UniformWellFormed(n, nodes);
    UniformLength(n, n, o, nodes);
    TreeRoundTrip(n, n, UniformAll(n, nodes));
  }
}
