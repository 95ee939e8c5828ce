# Lucene query serializer, modelled in Dafny

`LuceneQueryParser::Transformer` turns the tree that the Lucene-style query
parser builds back into canonical query text. It is a table of sixteen
rewrite rules. Fifteen of them match a hash by its exact set of keys
(`term`, `term`+`similarity`, `phrase`+`distance`, `group`,
`field`+`inclusive_range`, …) and build the node's string from the strings
its children have already become. The sequence rule matches an array of
children that are already strings and joins them with single spaces.
Traversal is bottom-up.

This project models that table:

- `Transformer.Node` (transformer.dfy) has one constructor per key set.
- `Transformer.Serialize` is the rule table as structural recursion.
- `Transformer.SerializeAll` serializes a sequence's children in order.

The model is specified against four independent partners:

- `Text.Split` undoes the space join, in both directions (text.dfy).
- For the term, phrase, range and field-range rules, a decoder reads the
  node back, also in both directions (decode.dfy). For the field rule
  (line 14) and the unary sign (lines 11-13), a splitter reads back the
  field name or the sign and exactly the operand's text. A decoder or
  splitter is sound on every input. The term, phrase, range, field and
  field-range readers are complete on the serializer's output whenever an
  opaque value does not itself hold the separator that follows it and,
  for a field range, the range child is a `Range` node. The
  sign splitter is complete when the sign text is a single `+` or `-`.
- `Rules.Width` predicts the output length by arithmetic alone (rules.dfy).
- A bracket matcher shows that groups and ranges always emit matching,
  properly nested brackets (brackets.dfy).

Boosts, similarities, distances, range endpoints, field names and operator
text are opaque strings. The serializer copies them verbatim and never
interprets them.

Three points about the Ruby source shape the model:

- The unary operator is three rules, not one node with an operator
  attribute (lib/lucene_query_parser/transformer.rb:11-13).
  `{unary_operator, operand}` concatenates two already serialized children.
  `{required}` and `{prohibited}` each reduce to their operator text. The
  model keeps the three constructors `Unary`, `Required` and `Prohibited`,
  plus `Operand` for the bare `{operand}` wrapper (line 10). The operator is
  whatever text the child holds.
- Parslet leaves a subtree that no rule matches unchanged; it raises no
  error. In the model, shapes outside the table cannot be built (see
  "Left out").
- An empty array joins to the empty string (line 18): Parslet's `sequence`
  pattern binds an empty array as well.

## Model

| member | source | states |
|---|---|---|
| `Transformer.SerializeAll` | lib/lucene_query_parser/transformer.rb:18 | a sequence's children are serialized one by one, keeping their number and order: element `i` of the result is the text of child `i` |
| `Text.Join` | lib/lucene_query_parser/transformer.rb:18 | joining no parts gives the empty string; joining `k > 0` parts gives their total length plus exactly `k - 1` separator characters |
| `Text.JoinAppend` | lib/lucene_query_parser/transformer.rb:18 | joining `a + b` (both non-empty) is the join of `a`, one space, then the join of `b`, so order is kept and nothing else is inserted |
| `Text.JoinEnds` | lib/lucene_query_parser/transformer.rb:18 | a join begins with its first part and ends with its last part |
| `Text.JoinNoOuterSpace` | lib/lucene_query_parser/transformer.rb:18 | no leading or trailing space is added: when the first part does not start with a space and the last does not end with one, neither does the join |
| `Text.SplitJoin` | lib/lucene_query_parser/transformer.rb:18 | cutting a join at every space gives back exactly the parts, in order, when no part holds a space; the separator is one space |
| `Text.JoinSplit` | lib/lucene_query_parser/transformer.rb:18 | every string is the join of its space-separated pieces (the other direction of the round trip) |
| `Rules.SequenceSingle` | lib/lucene_query_parser/transformer.rb:18 | a one-element sequence serializes as its element |
| `Rules.SerializeAllAppend` | lib/lucene_query_parser/transformer.rb:18 | serializing the children of `a + b` gives the texts of `a`'s children followed by those of `b`'s |
| `Rules.SequenceConcat` | lib/lucene_query_parser/transformer.rb:18 | the text of a sequence `a + b` is the text of `a`, one space, then the text of `b`; a sequence nested as the last child reads the same as its items spliced in place |
| `Rules.SequenceOrder` | lib/lucene_query_parser/transformer.rb:18 | a sequence's text starts with its first child's text and ends with its last child's; when no child's text holds a space, splitting it at spaces gives back the children's texts in their original order |
| `Rules.SequencePair` | lib/lucene_query_parser/transformer.rb:18 | two siblings serialize as the first text, one space, the second |
| `Rules.SequenceTriple` | lib/lucene_query_parser/transformer.rb:18 | three siblings serialize with one space between neighbouring texts |
| `Rules.SerializeWidth` | lib/lucene_query_parser/transformer.rb:3-18 | every node's text has exactly the length given by the arithmetic `Width`: the opaque values, plus each rule's punctuation counted once, plus one separator per gap in a sequence |
| `Rules.SerializeAllWidth` | lib/lucene_query_parser/transformer.rb:18 | the children's texts together are as long as the children's widths added up |
| `Rules.ExampleNestedGroups` | spec/lucene_query_parser/transformer_spec.rb:44-47 | nested groups compose: the tree of `(foo (bar (baz)))` serializes to that text |
| `Rules.ExampleUnary` | spec/lucene_query_parser/transformer_spec.rb:59-62 | a required group beside a prohibited phrase serializes to `+(foo bar) -"mumble stuff"` |
| `Rules.ExampleFieldGroup` | spec/lucene_query_parser/transformer_spec.rb:108-111 | a field whose operand is a group holding an `AND` token serializes to `title:(foo AND bar)` |
| `Rules.ExampleRanges` | spec/lucene_query_parser/transformer_spec.rb:143-166 | wildcard endpoints pass through: `month:[6 TO *]` and `day:{* TO 10}` |
| `Rules.ExampleSuffixes` | spec/lucene_query_parser/transformer_spec.rb:118-196 | an empty similarity gives `fuzzy~`, a decimal one `fuzzy~0.8`, a decimal boost `boosted^0.1` |
| `Rules.ExampleBoostedPhrase` | spec/lucene_query_parser/transformer_spec.rb:203-206 | a boost follows the closing quote: `"boosted phrase"^10 "normal phrase"` |
| `Rules.ExampleProximityPhrases` | spec/lucene_query_parser/transformer_spec.rb:29-32 | a distance follows the closing quote: `"foo bar"~3 "mumble stuff"~5 "blah blah"` |
| `Decode.DecodeTerm` | lib/lucene_query_parser/transformer.rb:3-5 | every text can be read as a term: cut at the first `~` or `^` (or not at all), the pieces form a term, fuzzy term or boosted term whose text is the input |
| `Decode.TermRoundTrip` | lib/lucene_query_parser/transformer.rb:3-5 | the three term rules lose nothing: when the term holds no `~`/`^`, reading the text back gives the same node, with the similarity or boost copied verbatim (an empty similarity included) |
| `Decode.PhraseWithTail` | lib/lucene_query_parser/transformer.rb:6-8 | after the closing quote, nothing gives a plain phrase, `^b` a boosted one, `~d` a proximity one, and any other tail is refused; whatever it returns serializes to the quoted phrase followed by that tail |
| `Decode.DecodePhrase` | lib/lucene_query_parser/transformer.rb:6-8 | whenever a text reads as a phrase node, that node serializes back to the text |
| `Decode.QuotedAt` | lib/lucene_query_parser/transformer.rb:6-8 | in a quoted phrase without inner quotes, the closing quote is the first quote after the opening one |
| `Decode.DecodeQuoted` | lib/lucene_query_parser/transformer.rb:6-8 | a quote-free phrase between quotes is read back as exactly that phrase, whatever follows the closing quote |
| `Decode.PhraseRoundTrip` | lib/lucene_query_parser/transformer.rb:6-8 | the three phrase rules lose nothing: when the phrase holds no quote, reading the text back gives the same node, the boost or distance following the closing quote |
| `Decode.DecodeRange` | lib/lucene_query_parser/transformer.rb:17 | whenever a text reads as a range, the range serializes back to the text |
| `Decode.RangeRoundTrip` | lib/lucene_query_parser/transformer.rb:17 | the range rule loses nothing: with a space-free lower endpoint, `from TO to` is read back into the same two endpoints, `*`, decimals and dates alike |
| `Decode.SplitField` | lib/lucene_query_parser/transformer.rb:14 | a field-qualified text is a colon-free name, `:`, and the rest |
| `Decode.SplitFieldAt` | lib/lucene_query_parser/transformer.rb:14-16 | a colon-free name followed by `:` is cut exactly after the name |
| `Decode.FieldRoundTrip` | lib/lucene_query_parser/transformer.rb:14 | a field node's text is cut back into its field name and exactly the operand's text |
| `Decode.DecodeBracketed` | lib/lucene_query_parser/transformer.rb:15-17 | whenever a text reads as a bracketed range, it is that range's text between the bracket pair of the kind reported |
| `Decode.BracketedRoundTrip` | lib/lucene_query_parser/transformer.rb:15-17 | a bracketed range is read back with its kind of bracket and its endpoints |
| `Decode.DecodeFieldRange` | lib/lucene_query_parser/transformer.rb:15-16 | whenever a text reads as a field range, that node serializes back to the text |
| `Decode.FieldRangeRoundTrip` | lib/lucene_query_parser/transformer.rb:15-17 | the two field-range rules lose nothing: field name, kind of range and both endpoints are read back |
| `Decode.DecodeSigned` | lib/lucene_query_parser/transformer.rb:11-13 | whenever a text starts with `+` or `-`, it is that sign followed directly by the rest, and it is read back so; any other text is refused |
| `Decode.SignedRoundTrip` | lib/lucene_query_parser/transformer.rb:10-13 | the unary rule puts the sign directly before the operand's text with no space: from a `{required}` or `{prohibited}` sign, with or without a bare `{operand}` wrapper, the sign and exactly the operand's text are read back |
| `Brackets.SerializeBalanced` | lib/lucene_query_parser/transformer.rb:3-18 | when no opaque value holds a bracket, every bracket in the output is closed by its partner and properly nested: the rules add brackets only as `(`…`)`, `[`…`]`, `{`…`}` pairs around complete child texts |
| `Brackets.BalancedWrap` | lib/lucene_query_parser/transformer.rb:9 | wrapping a balanced text in a matching bracket pair keeps it balanced |
| `Brackets.SerializeAllBalanced` | lib/lucene_query_parser/transformer.rb:18 | each child of a sequence with bracket-free values serializes balanced |
| `Brackets.JoinBalanced` | lib/lucene_query_parser/transformer.rb:18 | joining balanced texts with spaces keeps them balanced |

## Left out

- The rule engine (`Parslet::Transform`, lib/lucene_query_parser/transformer.rb:2) is not modelled as an engine. Matching on hash keys becomes an exhaustive `match` over `Node`. The engine leaves a subtree it cannot match unchanged, for example a term carrying both a similarity and a boost. Such a tree cannot be built as a `Node`, so the model does not capture that fall-through.
- The engine's `simple`/`subtree`/`sequence` binders are not modelled. Every child becomes a string before its parent is matched, so in the rule table each binder always succeeds.
- The query parser (`LuceneQueryParser::Parser2`) is not part of this model. The tests' parse-then-serialize round trips are therefore not stated as theorems. The example lemmas serialize trees of the shapes above.
- Whitespace that only the parser discards is not modelled: leading and trailing blanks, and `title: foo` becoming `title:foo`. The model states only that sequences join with single spaces and add nothing at either end.
- The commented-out alternative rule table (lib/lucene_query_parser/transformer.rb:22-39) is dead code and is not modelled.
- Boost, similarity, distance and range endpoints have no numeric meaning here. They are opaque strings, so no number formatting or floating point is involved.
- Decode.DecodeTerm, Decode.DecodePhrase, Decode.DecodeRange, Decode.SplitField: each is complete only when the opaque value before its separator does not hold that separator (`~`/`^`, `"`, a space, `:`). Without that condition, two different nodes can serialize to the same text.
- Required versus prohibited: both rules keep only the operator text (lines 12-13), so `Required(s)` and `Prohibited(s)` serialize alike. The output tells them apart only through the sign text itself (`+` or `-`), and no decoder can recover which node kind produced it.
- Decode.DecodeSigned: complete only when the sign text is exactly one `+` or `-`. The unary rule copies whatever operator text it is given (lines 11-13), so an empty sign or a longer one such as `+-` is read back with a different split between sign and operand.
- Decode.SplitField: reads back the field name and the operand's text, not the operand node. Different operands with the same text, such as a term `"x"` written with quotes and the phrase `x`, give the same split.
- Decode.DecodeFieldRange: complete only when the range child is a `Range` node. The tree type lets any node sit in that position, and then the text between the brackets need not hold ` TO `.
