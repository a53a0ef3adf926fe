/** The generic document tree the engine reads (the `Data`/`Value` abstraction). */
module Document {
  import opened Errors

  /** A scalar read from the document. */
  datatype Value = Value(text: string)

  /** One element: its scalar values (attributes under `@name`, the text content
      under `#`, and text-only child elements under their own name) and its
      child elements, in document order. */
  datatype Node = Node(values: map<string, Value>, children: seq<Element>)

  /** A named child element. */
  datatype Element = Element(name: string, node: Node)

  /** The identity attribute, the reference attribute and the text content slot. */
  const IdKey := "@id"
  const RefKey := "@ref"
  const ContentKey := "#"

  predicate HasValue(n: Node, key: string) {
    key in n.values
  }

  /** `getValue` fails with a missing-child error when the key is absent. */
  function GetValue(n: Node, key: string): (r: Result<Value>)
    ensures r.Ok? <==> HasValue(n, key)
    ensures r.Err? ==> r.error == MissingRequiredChild(key)
  {
    if key in n.values then Ok(n.values[key]) else Err(MissingRequiredChild(key))
  }

  /** `getChildList`: every child element named `key`, in document order (the
      empty list when there is none). */
  function ChildList(n: Node, key: string): (r: seq<Node>)
    ensures |r| <= |n.children|
    ensures forall k :: 0 <= k < |r| ==> r[k] < n
  {
    var r := Named(n.children, key, n);
    assert forall k :: 0 <= k < |r| ==> r[k] in r;
    r
  }

  /** The nodes of the elements of `cs` named `key`, in order. */
  function Named(cs: seq<Element>, key: string, ghost parent: Node): (r: seq<Node>)
    requires forall e :: e in cs ==> e < parent
    ensures |r| <= |cs|
    ensures forall c :: c in r ==> c < parent
  {
    if cs == [] then []
    else
      assert cs[0] in cs;
      assert forall e :: e in cs[1..] ==> e in cs;
      var rest := Named(cs[1..], key, parent);
      if cs[0].name == key then assert cs[0].node < cs[0]; [cs[0].node] + rest else rest
  }

  predicate HasChild(n: Node, key: string) {
    ChildList(n, key) != []
  }

  /** `getChild`: the first child element named `key`. */
  function GetChild(n: Node, key: string): (r: Node)
    requires HasChild(n, key)
    ensures r < n
  {
    ChildList(n, key)[0]
  }

  /** `createEmpty`: a node with no values and no children. */
  function Empty(): Node {
    Node(map[], [])
  }

  /** 0 for the empty node, 1 for any other: the empty node is never recursed
      into further, so it may be produced from nothing. */
  function Weight(n: Node): nat {
    if n.values == map[] && n.children == [] then 0 else 1
  }

  /** The value coercions of `Value`. They are not part of this model and are
      supplied to the engine as functions: a date coercion yields a date, or no
      date (an empty value), or fails on a malformed one. */
  datatype Date = Date(year: int, month: int, day: int)
  datatype Prim = Text(s: string) | Integer(i: int) | Decimal(d: real) | Flag(b: bool)
  datatype DateCoercion = DateOf(date: Date) | NoDate | BadDate
}
