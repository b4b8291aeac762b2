/**
 * The `Deserializer` implementation of `Parser` (src/value.rs:68-238) as a
 * routing table: for each kind of node and each request of the decoding
 * protocol, what is handed to the visitor. The visitor and the decoding
 * machinery behind it are not modelled; a node handed down stands for a
 * fresh `Parser` over that node with the same configuration.
 */
module Deserializer {
  import opened Errors
  import Values

  type Value = Values.Value

  /** The primitive types whose requests parse the raw string (src/value.rs:220-232). */
  datatype PrimitiveKind = U8 | I8 | U16 | I16 | U32 | I32 | U64 | I64 | F32 | F64 | Bool

  /** The requests forwarded to `deserialize_any` (src/value.rs:234-237). */
  datatype ForwardedKind =
    | Char | Str | String | Bytes | ByteBuf | Unit | UnitStruct | TupleStruct | Identifier | Tuple | IgnoredAny

  /** A request of the decoding protocol; enum and struct requests carry the expected names. */
  datatype Request =
    | Any
    | Primitive(kind: PrimitiveKind)
    | Forwarded(forwarded: ForwardedKind)
    | Seq
    | Option
    | NewtypeStruct
    | Enum(variants: seq<string>)
    | Map
    | Struct(fields: seq<string>)

  /** What `str::parse` gives: a value of the primitive type, or the text of its error. */
  datatype Parsed<P> = Parsed(value: P) | Unparsable(reason: string)

  /** What the adapter hands to the visitor, or the error it returns instead. */
  datatype Visit<P> =
    | Fail(error: EnvError)
    | VisitPrimitive(kind: PrimitiveKind, value: P)        // the parsed value's own deserializer
    | VisitString(raw: string)                             // the string deserializer's self-describing path
    | VisitEnumName(raw: string)                           // `visit_enum` over the raw string
    | VisitSeq(nodes: seq<Value>)                          // `SeqDeserializer` over these nodes
    | VisitMap(entries: seq<(string, Value)>)              // `visit_map` over these entries
    | VisitEnumEntries(entries: seq<(string, Value)>)      // `visit_enum` over a map of these entries
    | VisitSome(node: Value)                               // `visit_some(self)`
    | VisitNewtype(node: Value)                            // `visit_newtype_struct(self)`

  /** The error message of a primitive that does not parse (src/value.rs:78). */
  function ParseFailure(raw: string, reason: string): string {
    "'" + raw + "' could not be deserialized due to: " + reason
  }

  /** The values of the children, keys dropped, in stored order. */
  function ChildValues(cs: seq<(string, Value)>): (nodes: seq<Value>)
    ensures |nodes| == |cs|
    ensures forall i :: 0 <= i < |cs| ==> nodes[i] == cs[i].1
  {
    if cs == [] then [] else [cs[0].1] + ChildValues(cs[1..])
  }

  /** The `forward_to_deserializer!` arms: parse a leaf as the primitive asked for. */
  function DeserializePrimitive<P>(node: Value, kind: PrimitiveKind, parse: (PrimitiveKind, string) -> Parsed<P>): (r: Visit<P>)
    ensures node.Map? ==> r == Fail(InvalidNestedValues)
    ensures node.Simple? && parse(kind, node.text).Parsed? ==> r == VisitPrimitive(kind, parse(kind, node.text).value)
    ensures node.Simple? && parse(kind, node.text).Unparsable? ==>
              r == Fail(GenericDeserialization(ParseFailure(node.text, parse(kind, node.text).reason)))
  {
    match node
    case Simple(val) =>
      (match parse(kind, val)
       case Parsed(x) => VisitPrimitive(kind, x)
       case Unparsable(e) => Fail(GenericDeserialization(ParseFailure(val, e))))
    case Map(_) => Fail(InvalidNestedValues)
  }

  /** `deserialize_map`. */
  function DeserializeMap<P>(node: Value): (r: Visit<P>)
    ensures r.Fail? <==> node.Simple?
    ensures r.Fail? ==> r.error == UnsupportedValue
    ensures node.Map? ==> r.VisitMap? && r.entries == node.children
  {
    match node
    case Simple(_) => Fail(UnsupportedValue)
    case Map(values) => VisitMap(values)
  }

  /** `deserialize_any`: a leaf goes to the string deserializer, a map is decoded as a map. */
  function DeserializeAny<P>(node: Value): (r: Visit<P>)
    ensures !r.Fail?
    ensures node.Simple? ==> r == VisitString(node.text)
    ensures node.Map? ==> r == DeserializeMap(node)
  {
    match node
    case Simple(val) => VisitString(val)
    case Map(_) => DeserializeMap(node)
  }

  /** `deserialize_seq`: a leaf is a one-element sequence of itself; a map yields its children's values. */
  function DeserializeSeq<P>(node: Value): (r: Visit<P>)
    ensures r.VisitSeq?
    ensures node.Simple? ==> r.nodes == [node]
    ensures node.Map? ==> |r.nodes| == |node.children|
    ensures node.Map? ==> forall i :: 0 <= i < |node.children| ==> r.nodes[i] == node.children[i].1
  {
    match node
    case Simple(_) => VisitSeq([node])
    case Map(values) => VisitSeq(ChildValues(values))
  }

  /** `deserialize_enum`: a leaf names a unit variant; a map's (coerced) entries select the variant. */
  function DeserializeEnum<P>(
    node: Value, variants: seq<string>,
    coerce: (seq<(string, Value)>, seq<string>) -> seq<(string, Value)>): (r: Visit<P>)
    ensures node.Simple? ==> r == VisitEnumName(node.text)
    ensures node.Map? ==> r == VisitEnumEntries(coerce(node.children, variants))
  {
    match node
    case Simple(val) => VisitEnumName(val)
    case Map(values) => VisitEnumEntries(coerce(values, variants))
  }

  /** `deserialize_struct`: a map's entries are case-coerced, then everything is decoded as a map. */
  function DeserializeStruct<P>(
    node: Value, fields: seq<string>,
    coerce: (seq<(string, Value)>, seq<string>) -> seq<(string, Value)>): (r: Visit<P>)
    ensures node.Simple? ==> r == Fail(UnsupportedValue)
    ensures node.Map? ==> r == VisitMap(coerce(node.children, fields))
  {
    var parser := match node
      case Simple(_) => node
      case Map(values) => Values.Map(coerce(values, fields));
    DeserializeMap(parser)
  }

  /**
   * The whole table. `parse` stands for `str::parse` of each primitive type,
   * `coerce` for the configuration's `maybe_coerce_case`, bound to the
   * configuration the parser holds; neither is modelled.
   */
  function Deserialize<P>(
    node: Value, request: Request,
    parse: (PrimitiveKind, string) -> Parsed<P>,
    coerce: (seq<(string, Value)>, seq<string>) -> seq<(string, Value)>): (r: Visit<P>)
    ensures r.Fail? <==> Rejects(node, request, parse)
  {
    match request
    case Any => DeserializeAny(node)
    case Primitive(kind) => DeserializePrimitive(node, kind, parse)
    case Forwarded(_) => DeserializeAny(node)
    case Seq => DeserializeSeq(node)
    case Option => VisitSome(node)
    case NewtypeStruct => VisitNewtype(node)
    case Enum(variants) => DeserializeEnum(node, variants, coerce)
    case Map => DeserializeMap(node)
    case Struct(fields) => DeserializeStruct(node, fields, coerce)
  }

  /**
   * The only shape mismatches: a primitive asked of a map or of a leaf that
   * does not parse, and a map or struct asked of a leaf.
   */
  predicate Rejects<P>(node: Value, request: Request, parse: (PrimitiveKind, string) -> Parsed<P>) {
    match request
    case Primitive(kind) => node.Map? || parse(kind, node.text).Unparsable?
    case Map => node.Simple?
    case Struct(_) => node.Simple?
    case _ => false
  }

  /** The nodes a visit hands down to be decoded next, each as a fresh parser. */
  function HandedDown<P>(v: Visit<P>): seq<Value> {
    match v
    case VisitSeq(nodes) => nodes
    case VisitMap(entries) => ChildValues(entries)
    case VisitEnumEntries(entries) => ChildValues(entries)
    case VisitSome(node) => [node]
    case VisitNewtype(node) => [node]
    case _ => []
  }

  // ---------------------------------------------------------------------------
  // Properties of the table
  // ---------------------------------------------------------------------------

  /**
   * Decoding only descends: apart from option and newtype requests, which
   * re-decode the same node, and a sequence request on a leaf, which wraps it,
   * every node handed down is a proper part of the node decoded, so the
   * visitor's recursion cannot loop. (Struct and enum requests hand down what
   * the case coercion returns, which is not modelled.)
   */
  lemma DecodingDescends<P>(
    node: Value, request: Request,
    parse: (PrimitiveKind, string) -> Parsed<P>,
    coerce: (seq<(string, Value)>, seq<string>) -> seq<(string, Value)>)
    requires !request.Option? && !request.NewtypeStruct? && !request.Enum? && !request.Struct?
    requires !(request.Seq? && node.Simple?)
    ensures var down := HandedDown(Deserialize(node, request, parse, coerce));
            forall i :: 0 <= i < |down| ==> Values.Size(down[i]) < Values.Size(node)
  {
    var down := HandedDown(Deserialize(node, request, parse, coerce));
    if node.Map? {
      forall i | 0 <= i < |down| ensures Values.Size(down[i]) < Values.Size(node) {
        Values.ChildSmaller(node.children, i);
      }
    }
  }

  /** Option requests always report a present value and decode the same node; newtypes pass through. */
  lemma OptionAlwaysPresent<P>(
    node: Value,
    parse: (PrimitiveKind, string) -> Parsed<P>,
    coerce: (seq<(string, Value)>, seq<string>) -> seq<(string, Value)>)
    ensures Deserialize(node, Option, parse, coerce) == VisitSome(node)
    ensures Deserialize(node, NewtypeStruct, parse, coerce) == VisitNewtype(node)
  {
  }

  /**
   * Every forwarded request behaves as a self-describing one, and a
   * self-describing request on a map is a map request.
   */
  lemma ForwardedIsAny<P>(
    node: Value, kind: ForwardedKind,
    parse: (PrimitiveKind, string) -> Parsed<P>,
    coerce: (seq<(string, Value)>, seq<string>) -> seq<(string, Value)>)
    ensures Deserialize(node, Forwarded(kind), parse, coerce) == Deserialize(node, Any, parse, coerce)
    ensures node.Map? ==> Deserialize(node, Any, parse, coerce) == Deserialize(node, Map, parse, coerce)
  {
  }

  /**
   * A struct request is a map request after case coercion: on a leaf both
   * fail alike, and when the coercion leaves the entries alone they are the same.
   */
  lemma StructIsCoercedMap<P>(
    node: Value, fields: seq<string>,
    parse: (PrimitiveKind, string) -> Parsed<P>,
    coerce: (seq<(string, Value)>, seq<string>) -> seq<(string, Value)>)
    requires node.Map? ==> coerce(node.children, fields) == node.children
    ensures Deserialize(node, Struct(fields), parse, coerce) == Deserialize(node, Map, parse, coerce)
  {
  }

  /** The cases of the unit tests of src/value.rs:292-328. */
  lemma SequenceAndMapExamples<P>(
    parse: (PrimitiveKind, string) -> Parsed<P>,
    coerce: (seq<(string, Value)>, seq<string>) -> seq<(string, Value)>)
    ensures Deserialize(Values.Simple("125"), Seq, parse, coerce) == VisitSeq([Values.Simple("125")])
    ensures Deserialize(Values.Map([("", Values.Simple("125")), ("", Values.Simple("200")), ("", Values.Simple("300"))]),
                        Seq, parse, coerce)
            == VisitSeq([Values.Simple("125"), Values.Simple("200"), Values.Simple("300")])
    ensures Deserialize(Values.Map([("foo", Values.Map([("bar", Values.Simple("123"))]))]), Map, parse, coerce)
            == VisitMap([("foo", Values.Map([("bar", Values.Simple("123"))]))])
    ensures Deserialize(Values.Simple("foobar"), Option, parse, coerce) == VisitSome(Values.Simple("foobar"))
  {
  }
}
