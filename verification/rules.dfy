/** What each rule of the serializer puts around the strings of its children,
    the length of the output, how sequences compose, and the transformer's
    own test queries rebuilt as trees. */
module Rules {
  import opened Text
  import opened Transformer

  /** A group is its inner text between one `(` and one `)`; nothing else is
      added, so nesting groups adds two characters per level. */
  lemma GroupWraps(inner: Node)
    ensures var r, s := Serialize(Group(inner)), Serialize(inner);
      |r| == |s| + 2 && r[0] == '(' && r[|r| - 1] == ')' && r[1..|r| - 1] == s
  {
  }

  /** A unary operator is written immediately before its operand, with no
      space; `{required}`, `{prohibited}` and a bare `{operand}` wrapper add
      nothing of their own. */
  lemma UnaryPrefix(sign: string, x: Node)
    ensures var r, s := Serialize(Unary(Required(sign), x)), Serialize(x);
      |r| == |sign| + |s| && r[..|sign|] == sign && r[|sign|..] == s
    ensures Serialize(Unary(Prohibited(sign), x)) == Serialize(Unary(Required(sign), x))
    ensures Serialize(Unary(Required(sign), Operand(x))) == Serialize(Unary(Required(sign), x))
    ensures Serialize(Operand(x)) == Serialize(x)
  {
  }

  /** A field-qualified operand: the field name, one `:`, then the operand's
      text, with no space around the colon. */
  lemma FieldColon(f: string, x: Node)
    ensures var r, s := Serialize(Field(f, x)), Serialize(x);
      |r| == |f| + 1 + |s| && r[..|f|] == f && r[|f|] == ':' && r[|f| + 1..] == s
  {
  }

  /** A field range: the field name, `:` and the range text between `[` and
      `]` (inclusive) or `{` and `}` (exclusive). */
  lemma RangeBrackets(f: string, range: Node)
    ensures var r, s := Serialize(InclusiveRange(f, range)), Serialize(range);
      |r| == |f| + |s| + 3 && r[..|f|] == f && r[|f|..|f| + 2] == ":[" &&
      r[|f| + 2..|r| - 1] == s && r[|r| - 1] == ']'
    ensures var r, s := Serialize(ExclusiveRange(f, range)), Serialize(range);
      |r| == |f| + |s| + 3 && r[..|f|] == f && r[|f|..|f| + 2] == ":{" &&
      r[|f| + 2..|r| - 1] == s && r[|r| - 1] == '}'
  {
  }

  /** A one-element sequence serializes as its element. */
  lemma SequenceSingle(x: Node)
    ensures Serialize(Sequence([x])) == Serialize(x)
  {
  }

  /** Serializing children one by one distributes over concatenation. */
  lemma SerializeAllAppend(a: seq<Node>, b: seq<Node>)
    ensures SerializeAll(a + b) == SerializeAll(a) + SerializeAll(b)
  {
  }

  /** Sequences compose: the text of `a + b` is the text of `a`, one space,
      the text of `b`. A sequence nested inside another therefore reads the
      same as its items spliced in place. */
  lemma SequenceConcat(a: seq<Node>, b: seq<Node>)
    requires |a| > 0 && |b| > 0
    ensures Serialize(Sequence(a + b)) == Serialize(Sequence(a)) + " " + Serialize(Sequence(b))
    ensures Serialize(Sequence(a + [Sequence(b)])) == Serialize(Sequence(a + b))
  {
    SerializeAllAppend(a, b);
    JoinAppend(SerializeAll(a), SerializeAll(b));
    SerializeAllAppend(a, [Sequence(b)]);
    JoinAppend(SerializeAll(a), SerializeAll([Sequence(b)]));
  }

  /** The children of a sequence appear in the output in their original
      order: the text starts with the first child's, ends with the last
      child's, and, when no child's text holds a space, cutting it at every
      space gives back exactly the children's texts. */
  lemma SequenceOrder(items: seq<Node>)
    requires |items| > 0
    ensures var r, first, last := Serialize(Sequence(items)), Serialize(items[0]), Serialize(items[|items| - 1]);
      |first| <= |r| && |last| <= |r| && r[..|first|] == first && r[|r| - |last|..] == last
    ensures (forall i :: 0 <= i < |items| ==> NoneOf(Serialize(items[i]), {' '})) ==>
      Split(Serialize(Sequence(items))) == SerializeAll(items)
  {
    var parts := SerializeAll(items);
    JoinEnds(parts);
    if forall i :: 0 <= i < |items| ==> NoneOf(Serialize(items[i]), {' '}) {
      SplitJoin(parts);
    }
  }

  /** The length of `n`'s text, computed by arithmetic alone: each rule's
      punctuation counted once, sequences with one separator per gap. */
  function Width(n: Node): nat
    decreases n
  {
    match n
    case Term(t) => |t|
    case FuzzyTerm(t, s) => |t| + 1 + |s|
    case BoostedTerm(t, b) => |t| + 1 + |b|
    case BoostedPhrase(p, b) => |p| + 3 + |b|
    case Phrase(p) => |p| + 2
    case ProximityPhrase(p, d) => |p| + 3 + |d|
    case Group(e) => Width(e) + 2
    case Operand(x) => Width(x)
    case Unary(o, x) => Width(o) + Width(x)
    case Required(s) => |s|
    case Prohibited(s) => |s|
    case Field(f, x) => |f| + 1 + Width(x)
    case InclusiveRange(f, r) => |f| + 3 + Width(r)
    case ExclusiveRange(f, r) => |f| + 3 + Width(r)
    case Range(lo, hi) => |lo| + 4 + |hi|
    case Sequence(items) => if items == [] then 0 else WidthSum(items) + |items| - 1
  }

  /** The widths of `items` added up. */
  function WidthSum(items: seq<Node>): nat
    decreases items
  {
    if items == [] then 0 else Width(items[0]) + WidthSum(items[1..])
  }

  /** The serialized text has exactly the length `Width` predicts. */
  lemma {:induction false} SerializeWidth(n: Node)
    ensures |Serialize(n)| == Width(n)
    decreases n
  {
    match n
    case Group(e) => SerializeWidth(e);
    case Operand(x) => SerializeWidth(x);
    case Unary(o, x) => SerializeWidth(o); SerializeWidth(x);
    case Field(_, x) => SerializeWidth(x);
    case InclusiveRange(_, r) => SerializeWidth(r);
    case ExclusiveRange(_, r) => SerializeWidth(r);
    case Sequence(items) => SerializeAllWidth(items);
    case _ =>
  }

  /** The children's texts add up to the children's widths. */
  lemma {:induction false} SerializeAllWidth(items: seq<Node>)
    ensures TotalLength(SerializeAll(items)) == WidthSum(items)
    decreases items
  {
    if items != [] {
      SerializeWidth(items[0]);
      SerializeAllWidth(items[1..]);
      assert SerializeAll(items)[1..] == SerializeAll(items[1..]);
    }
  }

  /** Two siblings: one space between their texts. */
  lemma SequencePair(x: Node, y: Node)
    ensures Serialize(Sequence([x, y])) == Serialize(x) + " " + Serialize(y)
  {
    var parts := SerializeAll([x, y]);
    assert Join(parts[1..]) == parts[1];
  }

  /** Three siblings: one space between neighbouring texts. */
  lemma SequenceTriple(x: Node, y: Node, z: Node)
    ensures Serialize(Sequence([x, y, z])) == Serialize(x) + " " + Serialize(y) + " " + Serialize(z)
  {
    var parts := SerializeAll([x, y, z]);
    assert Join(parts[1..]) == parts[1] + " " + Join(parts[2..]);
  }

  /** Nested groups from the transformer's tests. */
  lemma ExampleNestedGroups()
    ensures Serialize(Group(Sequence([Term("foo"), Group(Sequence([Term("bar"), Group(Term("baz"))]))])))
      == "(foo (bar (baz)))"
  {
    SequencePair(Term("bar"), Group(Term("baz")));
    SequencePair(Term("foo"), Group(Sequence([Term("bar"), Group(Term("baz"))])));
  }

  /** A required group beside a prohibited phrase. */
  lemma ExampleUnary()
    ensures Serialize(Sequence([Unary(Required("+"), Group(Sequence([Term("foo"), Term("bar")]))),
                                Unary(Prohibited("-"), Phrase("mumble stuff"))]))
      == "+(foo bar) -\"mumble stuff\""
  {
    SequencePair(Term("foo"), Term("bar"));
    SequencePair(Unary(Required("+"), Group(Sequence([Term("foo"), Term("bar")]))),
                 Unary(Prohibited("-"), Phrase("mumble stuff")));
  }

  /** A field whose value is a group holding an `AND` keyword token. */
  lemma ExampleFieldGroup()
    ensures Serialize(Field("title", Group(Sequence([Term("foo"), Term("AND"), Term("bar")]))))
      == "title:(foo AND bar)"
  {
    SequenceTriple(Term("foo"), Term("AND"), Term("bar"));
  }

  /** Ranges with a wildcard endpoint, inclusive and exclusive. */
  lemma ExampleRanges()
    ensures Serialize(InclusiveRange("month", Range("6", "*"))) == "month:[6 TO *]"
    ensures Serialize(ExclusiveRange("day", Range("*", "10"))) == "day:{* TO 10}"
  {
  }

  /** Fuzzy terms with an empty and a decimal similarity, and a boosted term. */
  lemma ExampleSuffixes()
    ensures Serialize(FuzzyTerm("fuzzy", "")) == "fuzzy~"
    ensures Serialize(FuzzyTerm("fuzzy", "0.8")) == "fuzzy~0.8"
    ensures Serialize(BoostedTerm("boosted", "0.1")) == "boosted^0.1"
  {
  }

  /** A boosted phrase followed by a plain phrase. */
  lemma ExampleBoostedPhrase()
    ensures Serialize(Sequence([BoostedPhrase("boosted phrase", "10"), Phrase("normal phrase")]))
      == "\"boosted phrase\"^10 \"normal phrase\""
  {
    SequencePair(BoostedPhrase("boosted phrase", "10"), Phrase("normal phrase"));
  }

  /** Proximity phrases followed by a plain phrase. */
  lemma ExampleProximityPhrases()
    ensures Serialize(Sequence([ProximityPhrase("foo bar", "3"), ProximityPhrase("mumble stuff", "5"), Phrase("blah blah")]))
      == "\"foo bar\"~3 \"mumble stuff\"~5 \"blah blah\""
  {
    var x, y, z := ProximityPhrase("foo bar", "3"), ProximityPhrase("mumble stuff", "5"), Phrase("blah blah");
    SequenceTriple(x, y, z);
    assert Serialize(x) == "\"foo bar\"~3";
    assert Serialize(y) == "\"mumble stuff\"~5";
    assert Serialize(z) == "\"blah blah\"";
    assert "\"foo bar\"~3" + " " + "\"mumble stuff\"~5" == "\"foo bar\"~3 \"mumble stuff\"~5";
    assert "\"foo bar\"~3 \"mumble stuff\"~5" + " " + "\"blah blah\""
      == "\"foo bar\"~3 \"mumble stuff\"~5 \"blah blah\"";
  }
}
