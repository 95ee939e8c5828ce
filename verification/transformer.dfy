/** The query serializer: a parsed Lucene-style query tree turned back into
    canonical query text, bottom-up. Each constructor of `Node` is one key set
    of the transformer's rule table (lib/lucene_query_parser/transformer.rb,
    lines 3-18); `Serialize` applies the rule of that key set to the strings
    its children have already become. */
module Transformer {
  import opened Text

  /** A node of the parsed tree, one constructor per rule. Values copied into
      the output (terms, phrases, similarities, boosts, distances, field names,
      range endpoints, operator text) are opaque strings. */
  datatype Node =
    | Term(term: string)                                 // {term}
    | FuzzyTerm(term: string, similarity: string)        // {term, similarity}
    | BoostedTerm(term: string, boost: string)           // {term, boost}
    | BoostedPhrase(phrase: string, boost: string)       // {phrase, boost}
    | Phrase(phrase: string)                             // {phrase}
    | ProximityPhrase(phrase: string, distance: string)  // {phrase, distance}
    | Group(inner: Node)                                 // {group}
    | Operand(operand: Node)                             // {operand}
    | Unary(op: Node, operand: Node)                     // {unary_operator, operand}
    | Required(sign: string)                             // {required}
    | Prohibited(sign: string)                           // {prohibited}
    | Field(field: string, operand: Node)                // {field, operand}
    | InclusiveRange(field: string, range: Node)         // {field, inclusive_range}
    | ExclusiveRange(field: string, range: Node)         // {field, exclusive_range}
    | Range(from: string, to: string)                    // {from, to}
    | Sequence(items: seq<Node>)                         // an array of siblings

  /** The canonical query text of `n`. */
  function Serialize(n: Node): string
    decreases n
  {
    match n
    case Term(t) => t
    case FuzzyTerm(t, s) => t + "~" + s
    case BoostedTerm(t, b) => t + "^" + b
    case BoostedPhrase(p, b) => "\"" + p + "\"^" + b
    case Phrase(p) => "\"" + p + "\""
    case ProximityPhrase(p, d) => "\"" + p + "\"~" + d
    case Group(e) => "(" + Serialize(e) + ")"
    case Operand(x) => Serialize(x)
    case Unary(o, x) => Serialize(o) + Serialize(x)
    case Required(s) => s
    case Prohibited(s) => s
    case Field(f, x) => f + ":" + Serialize(x)
    case InclusiveRange(f, r) => f + ":[" + Serialize(r) + "]"
    case ExclusiveRange(f, r) => f + ":{" + Serialize(r) + "}"
    case Range(lo, hi) => lo + " TO " + hi
    case Sequence(items) => Join(SerializeAll(items))
  }

  /** The children of a sequence serialized one by one, in their order. */
  function SerializeAll(items: seq<Node>): (r: seq<string>)
    ensures |r| == |items|
    ensures forall i :: 0 <= i < |items| ==> r[i] == Serialize(items[i])
    decreases items
  {
    if items == [] then [] else [Serialize(items[0])] + SerializeAll(items[1..])
  }
}
