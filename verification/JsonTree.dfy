/** The two value worlds of the query engine: Jackson's JSON tree
    (`JsonNode`), which queries arrive in and results leave in, and the plain
    Java objects (`Map<String, Object>` records) the data loader reads JSON
    files into. */
module JsonTree {
  import opened Wrappers
  import opened Strings
  import opened Assoc

  /** A Jackson tree node. Object fields keep insertion order, and putting an
      existing name replaces its value in place (`Assoc.Put`). */
  datatype Node =
    | NNull
    | NBool(b: bool)
    | NInt(i: int)
    | NDouble(d: real)
    | NText(s: string)
    | NArray(items: seq<Node>)
    | NObject(fields: Entries<string, Node>)

  /** `has(name)`: only an object has fields, and a field holding JSON null
      is still there. */
  predicate Has(n: Node, name: string) {
    n.NObject? && HasKey(n.fields, name)
  }

  /** `get(name)`, with Java's `null` as `None`. */
  function GetField(n: Node, name: string): (r: Option<Node>)
    ensures r.Some? <==> Has(n, name)
  {
    if n.NObject? then Get(n.fields, name) else None
  }

  /** `fields()`: an object's entries in order; any other node has none. */
  function FieldsOf(n: Node): (r: Entries<string, Node>)
    ensures n.NObject? ==> r == n.fields
    ensures !n.NObject? ==> r == []
  {
    if n.NObject? then n.fields else []
  }

  predicate IsNumber(n: Node) {
    n.NInt? || n.NDouble?
  }

  /** `asDouble()` of a number node. */
  function AsDouble(n: Node): (r: real)
    requires IsNumber(n)
    ensures n.NInt? ==> r == n.i as real
  {
    if n.NInt? then n.i as real else n.d
  }

  /** `asText()`: a text node's own text, the decimal form of an integer,
      `true`/`false`, `null`, and the empty text for containers. A double
      is written as `Double.toString` writes an integral value of moderate
      size (`5.0`); other doubles are not modelled and give the empty
      text. */
  function AsText(n: Node): (r: string)
    ensures n.NText? ==> r == n.s
    ensures n.NInt? ==> ParseInt(r) == Some(n.i)
    ensures n.NArray? || n.NObject? ==> r == ""
  {
    match n
    case NNull => "null"
    case NBool(b) => if b then "true" else "false"
    case NInt(i) =>
      IntToStringRoundTrip(i);
      IntToString(i)
    case NDouble(d) =>
      if d == d.Floor as real && -10_000_000 < d.Floor < 10_000_000 then IntToString(d.Floor) + ".0" else ""
    case NText(s) => s
    case NArray(_) => ""
    case NObject(_) => ""
  }

  /** Text nodes for names, as a `fields` array holds them. */
  function TextNodes(names: seq<string>): (r: seq<Node>)
    ensures |r| == |names|
    ensures forall i | 0 <= i < |names| :: r[i] == NText(names[i])
  {
    seq(|names|, i requires 0 <= i < |names| => NText(names[i]))
  }

  // ---------------------------------------------------------------------
  // Java objects

  /** What Jackson reads a JSON value into when the target is `Object`:
      `null`, `Boolean`, an integral number (`Integer`, `Long` or
      `BigInteger`), `Double`, `String`, `List` or `Map`. Datatype equality
      is `Objects.equals`: an integral number never equals a `Double`. */
  datatype Value =
    | VNull
    | VBool(b: bool)
    | VInt(i: int)
    | VDouble(d: real)
    | VText(s: string)
    | VList(items: seq<Value>)
    | VMap(m: map<string, Value>)

  /** One record of a data file. */
  type Record = map<string, Value>

  /** `record.get(field)`: Java's `null` both for an absent field and for a
      field holding JSON null. */
  function FieldValue(record: Record, field: string): (r: Value)
    ensures field !in record ==> r == VNull
    ensures field in record ==> r == record[field]
  {
    if field in record then record[field] else VNull
  }
}
