/** The SAX reader of records: the events of a document rebuild the record on a stack of contexts. */
module XmlReader {
  import opened Common
  import opened Bytes
  import opened Record
  import opened RecordTree
  import opened XmlText

  const ROOT := "Data"

  const TYPE_NAMES: seq<string> := [
    "bool", "char", "u_int8", "s_int8", "u_int16", "s_int16",
    "u_int32", "s_int32", "string", "float", "double", "blob", "list"]

  function NameForType(kind: Byte): string
    requires kind < 13
  {
    TYPE_NAMES[kind]
  }

  function IndexOf(names: seq<string>, name: string, i: nat): (k: int)
    requires i <= |names|
    ensures k == T_UNKNOWN || (i <= k < |names| && names[k] == name)
    decreases |names| - i
  {
    if i == |names| then T_UNKNOWN else if names[i] == name then i else IndexOf(names, name, i + 1)
  }

  /** type_for_name: the first matching entry of the table, or unknown. */
  function TypeForName(name: string): int {
    IndexOf(TYPE_NAMES, name, 0)
  }

  // ---- the reader ----

  datatype Att = Att(name: string, value: Text)

  datatype Event = Start(name: string, atts: seq<Att>) | Characters(text: Text) | End(name: string)

  datatype State = UNDEF | DATA | LIST | PARAM

  /** A parser context: the record being filled, and the element being read into it. */
  datatype Context = Context(record: seq<Byte>, id: Text, value: Text, kind: int, state: State)

  function NewContext(record: seq<Byte>, state: State): Context {
    Context(record, [82, 111, 111, 116], [], T_UNKNOWN, state)  // its id is "Root"
  }

  /** The first attribute whose name starts with "id" decides; otherwise the id is empty. */
  function IdOf(atts: seq<Att>): Text {
    if atts == [] then []
    else if "id" <= atts[0].name then atts[0].value
    else IdOf(atts[1..])
  }

  function Top(stack: seq<Context>): Context
    requires stack != []
  {
    stack[|stack| - 1]
  }

  function Under(stack: seq<Context>): seq<Context>
    requires stack != []
  {
    stack[..|stack| - 1]
  }

  function PutBytes(n: Order, c: Context, f: Field): Context {
    c.(record := c.record + EncodeField(n, f))
  }

  function StartElement(n: Order, stack: seq<Context>, name: string, atts: seq<Att>): seq<Context>
    requires stack != []
  {
    var c, below := Top(stack), Under(stack);
    match c.state
    case UNDEF => if name == ROOT then below + [c.(state := DATA)] else stack
    case PARAM => stack
    case _ =>
      var kind := TypeForName(name);
      var c' := c.(id := IdOf(atts), kind := kind);
      if kind == T_UNKNOWN then below + [c']
      else if kind == T_FLAT as int then below + [c', NewContext([Tag(n)], LIST)]
      else below + [c'.(value := [], state := PARAM)]
  }

  /** None: a value without a defined conversion, or a pop of the last context. */
  function EndElement(n: Order, stack: seq<Context>, name: string): Option<seq<Context>>
    requires stack != []
  {
    var c, below := Top(stack), Under(stack);
    match c.state
    case PARAM =>
      if !(0 <= c.kind < 13) then None else
      (match TextToContent(n, c.kind, c.value)
       case None => None
       case Some(content) => Some(below + [PutBytes(n, c, Field(c.id, c.kind, content)).(state := LIST)]))
    case LIST =>
      if name == ROOT then Some(stack)
      else if below == [] then None
      else
        var parent := Top(below);
        Some(Under(below) + [PutBytes(n, parent, Field(parent.id, T_FLAT, c.record))])
    case DATA => Some(below + [c.(state := UNDEF)])
    case UNDEF => Some(stack)
  }

  function ReadCharacters(stack: seq<Context>, text: Text): seq<Context>
    requires stack != []
  {
    var c := Top(stack);
    if c.state == PARAM then Under(stack) + [c.(value := c.value + text)] else stack
  }

  function Step(n: Order, stack: seq<Context>, ev: Event): (r: Option<seq<Context>>)
    requires stack != []
    ensures r.Some? ==> r.value != []
  {
    match ev
    case Start(name, atts) => Some(StartElement(n, stack, name, atts))
    case Characters(text) => Some(ReadCharacters(stack, text))
    case End(name) => EndElement(n, stack, name)
  }

  function Run(n: Order, stack: seq<Context>, evs: seq<Event>): (r: Option<seq<Context>>)
    requires stack != []
    ensures r.Some? ==> r.value != []
    decreases |evs|
  {
    if evs == [] then Some(stack)
    else
      match Step(n, stack, evs[0])
      case None => None
      case Some(s) => Run(n, s, evs[1..])
  }

  /** The handlers as the parser calls them; stack is the static vector of contexts. */
  class SaxParser {
    const native: Order
    var stack: seq<Context>

    ghost predicate Valid()
      reads this
    {
      stack != []
    }

    constructor (n: Order, record: seq<Byte>)
      ensures Valid() && native == n && stack == [NewContext(record, UNDEF)]
    {
      native := n;
      stack := [NewContext(record, UNDEF)];
    }

    method DataStartElement(name: string, atts: seq<Att>)
      requires Valid()
      modifies this
      ensures Valid() && stack == StartElement(native, old(stack), name, atts)
    {
      var context := stack[|stack| - 1];
      match context.state
      case UNDEF =>
        if name == ROOT {
          stack := stack[..|stack| - 1] + [context.(state := DATA)];
        }
      case PARAM =>
      case _ =>
        var id: Text := [];
        var i := 0;
        while i < |atts|
          invariant i <= |atts| && id == [] && IdOf(atts[i..]) == IdOf(atts)
        {
          if "id" <= atts[i].name {
            id := atts[i].value;
            break;
          }
          i := i + 1;
        }
        var kind := TypeForName(name);
        context := context.(id := id, kind := kind);
        if kind == T_UNKNOWN {
          stack := stack[..|stack| - 1] + [context];
        } else if kind == T_FLAT as int {
          stack := stack[..|stack| - 1] + [context];
          stack := stack + [NewContext([Tag(native)], LIST)];
        } else {
          stack := stack[..|stack| - 1] + [context.(value := [], state := PARAM)];
        }
    }

    method DataEndElement(name: string)
      requires Valid() && EndElement(native, stack, name).Some?
      modifies this
      ensures Valid() && Some(stack) == EndElement(native, old(stack), name)
    {
      var context := stack[|stack| - 1];
      match context.state
      case PARAM =>
        var content := TextToContent(native, context.kind, context.value).value;
        context := PutBytes(native, context, Field(context.id, context.kind, content));
        stack := stack[..|stack| - 1] + [context.(state := LIST)];
      case LIST =>
        if name != ROOT {
          var parent := stack[|stack| - 2];
          parent := PutBytes(native, parent, Field(parent.id, T_FLAT, context.record));
          stack := stack[..|stack| - 1];
          stack := stack[..|stack| - 1] + [parent];
        }
      case DATA =>
        stack := stack[..|stack| - 1] + [context.(state := UNDEF)];
      case UNDEF =>
    }

    method DataReadCharacters(content: Text)
      requires Valid()
      modifies this
      ensures Valid() && stack == ReadCharacters(old(stack), content)
    {
      var context := stack[|stack| - 1];
      if context.state == PARAM {
        stack := stack[..|stack| - 1] + [context.(value := context.value + content)];
      }
    }
  }
}
