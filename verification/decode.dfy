/** Reading canonical text back. For the term, phrase, range and field-range
    rules a decoder recovers the node; for the field rule and the unary sign
    a splitter recovers the field name or the sign and exactly the operand's
    text. Each is sound (what it returns rebuilds its input). The decoders
    and the field splitter are complete on the texts the serializer writes
    whenever the opaque value before the separator does not itself hold the
    separator (and, for a field range, the range child is a `Range` node);
    the sign splitter when the sign is a single `+` or `-`. */
module Decode {
  import opened Text
  import opened Transformer

  /** The suffix markers of a term: `~` (similarity) and `^` (boost). */
  const TermMarks: set<char> := {'~', '^'}

  /** A term, fuzzy term or boosted term read back: the text up to the first
      `~` or `^` is the term and the rest is the similarity or boost. */
  function DecodeTerm(s: string): (n: Node)
    ensures n.Term? || n.FuzzyTerm? || n.BoostedTerm?
    ensures NoneOf(n.term, TermMarks)
    ensures Serialize(n) == s
  {
    var i := FindFirst(s, TermMarks);
    if i == |s| then
      assert s[..i] == s;
      Term(s)
    else
      assert s == s[..i] + [s[i]] + s[i + 1..];
      if s[i] == '~' then FuzzyTerm(s[..i], s[i + 1..])
      else BoostedTerm(s[..i], s[i + 1..])
  }

  /** The three term rules are undone by `DecodeTerm`: the suffix after the
      marker is copied verbatim, an empty similarity included. */
  lemma TermRoundTrip(n: Node)
    requires n.Term? || n.FuzzyTerm? || n.BoostedTerm?
    requires NoneOf(n.term, TermMarks)
    ensures DecodeTerm(Serialize(n)) == n
  {
    match n
    case Term(t) =>
      FindFirstNone(t, TermMarks);
    case FuzzyTerm(t, sim) =>
      FindFirstAt(t, '~', sim, TermMarks);
      assert (t + "~" + sim)[..|t|] == t;
      assert (t + "~" + sim)[|t| + 1..] == sim;
    case BoostedTerm(t, b) =>
      FindFirstAt(t, '^', b, TermMarks);
      assert (t + "^" + b)[..|t|] == t;
      assert (t + "^" + b)[|t| + 1..] == b;
  }

  /** What follows a closing quote, read back: nothing, `^` and a boost, or
      `~` and a distance. */
  function PhraseWithTail(p: string, rest: string): (r: Option<Node>)
    ensures r.Some? ==> r.value.Phrase? || r.value.BoostedPhrase? || r.value.ProximityPhrase?
    ensures r.Some? ==> r.value.phrase == p && Serialize(r.value) == "\"" + p + "\"" + rest
    ensures rest == [] ==> r == Some(Phrase(p))
    ensures rest != [] && rest[0] == '^' ==> r == Some(BoostedPhrase(p, rest[1..]))
    ensures rest != [] && rest[0] == '~' ==> r == Some(ProximityPhrase(p, rest[1..]))
    ensures rest != [] && rest[0] != '^' && rest[0] != '~' ==> r.None?
  {
    if rest == [] then Some(Phrase(p))
    else
      assert rest == [rest[0]] + rest[1..];
      if rest[0] == '^' then Some(BoostedPhrase(p, rest[1..]))
      else if rest[0] == '~' then Some(ProximityPhrase(p, rest[1..]))
      else None
  }

  /** A phrase, boosted phrase or proximity phrase read back: the text between
      the opening quote and the next quote is the phrase; after the closing
      quote comes nothing, `^` and a boost, or `~` and a distance. */
  function DecodePhrase(s: string): (r: Option<Node>)
    ensures r.Some? ==> r.value.Phrase? || r.value.BoostedPhrase? || r.value.ProximityPhrase?
    ensures r.Some? ==> NoneOf(r.value.phrase, {'"'}) && Serialize(r.value) == s
  {
    if |s| < 2 || s[0] != '"' then None
    else
      var body := s[1..];
      var j := FindFirst(body, {'"'});
      if j == |body| then None
      else
        var p, rest := body[..j], body[j + 1..];
        assert body == p + [body[j]] + rest;
        assert s == "\"" + p + "\"" + rest by { assert s == ['"'] + body; }
        PhraseWithTail(p, rest)
  }

  /** A quote-free phrase between quotes, followed by `tail`: the search
      for the closing quote stops right after the phrase. */
  lemma QuotedAt(p: string, tail: string)
    requires NoneOf(p, {'"'})
    ensures var s := "\"" + p + "\"" + tail;
      |s| >= 2 && s[0] == '"' && FindFirst(s[1..], {'"'}) == |p| &&
      s[1..][..|p|] == p && s[1..][|p| + 1..] == tail
  {
    var s := "\"" + p + "\"" + tail;
    assert s[1..] == p + ['"'] + tail;
    FindFirstAt(p, '"', tail, {'"'});
  }

  /** A quote-free phrase between quotes is read back as that phrase, and
      whatever follows the closing quote is read as its tail. */
  lemma DecodeQuoted(p: string, tail: string)
    requires NoneOf(p, {'"'})
    ensures DecodePhrase("\"" + p + "\"" + tail) == PhraseWithTail(p, tail)
  {
    QuotedAt(p, tail);
  }

  /** The three phrase rules are undone by `DecodePhrase` when the phrase
      holds no quote: the boost or distance follows the closing quote. */
  lemma PhraseRoundTrip(n: Node)
    requires n.Phrase? || n.BoostedPhrase? || n.ProximityPhrase?
    requires NoneOf(n.phrase, {'"'})
    ensures DecodePhrase(Serialize(n)) == Some(n)
  {
    match n
    case Phrase(p) =>
      DecodeQuoted(p, "");
      assert Serialize(n) == "\"" + p + "\"" + "";
    case BoostedPhrase(p, b) =>
      DecodeQuoted(p, "^" + b);
      assert Serialize(n) == "\"" + p + "\"" + ("^" + b);
      assert ("^" + b)[1..] == b;
    case ProximityPhrase(p, d) =>
      DecodeQuoted(p, "~" + d);
      assert Serialize(n) == "\"" + p + "\"" + ("~" + d);
      assert ("~" + d)[1..] == d;
  }

  /** A range read back: the text before the first space is the lower
      endpoint, then ` TO `, then the upper endpoint. */
  function DecodeRange(s: string): (r: Option<Node>)
    ensures r.Some? ==> r.value.Range? && NoneOf(r.value.from, {' '}) && Serialize(r.value) == s
  {
    var i := FindFirst(s, {' '});
    if i + 4 <= |s| && s[i..i + 4] == " TO " then
      assert s == s[..i] + s[i..i + 4] + s[i + 4..];
      Some(Range(s[..i], s[i + 4..]))
    else None
  }

  /** The range rule is undone by `DecodeRange` when the lower endpoint holds
      no space; both endpoints, `*` included, come back verbatim. */
  lemma RangeRoundTrip(lo: string, hi: string)
    requires NoneOf(lo, {' '})
    ensures DecodeRange(Serialize(Range(lo, hi))) == Some(Range(lo, hi))
  {
    var s := lo + " TO " + hi;
    assert s == lo + [' '] + ("TO " + hi);
    FindFirstAt(lo, ' ', "TO " + hi, {' '});
    assert s[|lo|..|lo| + 4] == " TO ";
    assert s[..|lo|] == lo;
    assert s[|lo| + 4..] == hi;
  }

  /** A field-qualified text cut at its first `:` into the field name and
      the rest. */
  function SplitField(s: string): (r: Option<(string, string)>)
    ensures r.Some? ==> NoneOf(r.value.0, {':'}) && s == r.value.0 + ":" + r.value.1
  {
    var i := FindFirst(s, {':'});
    if i == |s| then None
    else
      assert s == s[..i] + [s[i]] + s[i + 1..];
      Some((s[..i], s[i + 1..]))
  }

  /** A colon-free field name, a colon and anything: the cut falls right
      after the name. */
  lemma SplitFieldAt(f: string, rest: string)
    requires NoneOf(f, {':'})
    ensures SplitField(f + ":" + rest) == Some((f, rest))
  {
    var s := f + ":" + rest;
    FindFirstAt(f, ':', rest, {':'});
    assert s[..|f|] == f;
    assert s[|f| + 1..] == rest;
  }

  /** A field node's text starts with the field name and a colon, and what
      follows is exactly the operand's text, when the name holds no colon. */
  lemma FieldRoundTrip(f: string, x: Node)
    requires NoneOf(f, {':'})
    ensures SplitField(Serialize(Field(f, x))) == Some((f, Serialize(x)))
  {
    SplitFieldAt(f, Serialize(x));
  }

  /** `mid` between `[` and `]` when `inclusive`, else between `{` and `}`. */
  function Bracketed(inclusive: bool, mid: string): string
  {
    if inclusive then "[" + mid + "]" else "{" + mid + "}"
  }

  /** A range between `[` and `]` (the flag is true) or between `{` and `}`
      (the flag is false) read back. */
  function DecodeBracketed(s: string): (r: Option<(bool, Node)>)
    ensures r.Some? ==> r.value.1.Range? && s == Bracketed(r.value.0, Serialize(r.value.1))
  {
    if |s| < 2 then None
    else
      var mid := s[1..|s| - 1];
      assert s == [s[0]] + mid + [s[|s| - 1]];
      match DecodeRange(mid)
      case None => None
      case Some(range) =>
        if s[0] == '[' && s[|s| - 1] == ']' then Some((true, range))
        else if s[0] == '{' && s[|s| - 1] == '}' then Some((false, range))
        else None
  }

  /** The inclusive or exclusive range node on field `f`; its text is the
      field, a colon and the bracketed range. */
  function FieldRange(inclusive: bool, f: string, range: Node): (n: Node)
    ensures n.InclusiveRange? || n.ExclusiveRange?
    ensures Serialize(n) == f + ":" + Bracketed(inclusive, Serialize(range))
  {
    if inclusive then InclusiveRange(f, range) else ExclusiveRange(f, range)
  }

  /** An inclusive or exclusive field range read back: field name, `:`, then
      a range between `[` and `]` or between `{` and `}`. */
  function DecodeFieldRange(s: string): (r: Option<Node>)
    ensures r.Some? ==> r.value.InclusiveRange? || r.value.ExclusiveRange?
    ensures r.Some? ==> Serialize(r.value) == s
  {
    match SplitField(s)
    case None => None
    case Some((f, rest)) =>
      match DecodeBracketed(rest)
      case None => None
      case Some((inclusive, range)) =>
        Some(FieldRange(inclusive, f, range))
  }

  /** A bracketed range with a space-free lower endpoint is read back with
      its kind of bracket. */
  lemma BracketedRoundTrip(inclusive: bool, lo: string, hi: string)
    requires NoneOf(lo, {' '})
    ensures DecodeBracketed(Bracketed(inclusive, Serialize(Range(lo, hi)))) == Some((inclusive, Range(lo, hi)))
  {
    var mid := Serialize(Range(lo, hi));
    var b := Bracketed(inclusive, mid);
    assert |b| == |mid| + 2;
    assert b[1..|b| - 1] == mid;
    RangeRoundTrip(lo, hi);
  }

  /** The two field-range rules are undone by `DecodeFieldRange` when the
      field name holds no colon and the lower endpoint no space. */
  lemma FieldRangeRoundTrip(n: Node)
    requires n.InclusiveRange? || n.ExclusiveRange?
    requires n.range.Range? && NoneOf(n.range.from, {' '}) && NoneOf(n.field, {':'})
    ensures DecodeFieldRange(Serialize(n)) == Some(n)
  {
    var rest := Bracketed(n.InclusiveRange?, Serialize(n.range));
    assert Serialize(n) == n.field + ":" + rest;
    SplitFieldAt(n.field, rest);
    BracketedRoundTrip(n.InclusiveRange?, n.range.from, n.range.to);
  }

  /** The signs a unary operator is written with: `+` (required) and `-`
      (prohibited). */
  const Signs: set<char> := {'+', '-'}

  /** A signed operand read back: a leading `+` or `-` and the operand's text
      directly after it. */
  function DecodeSigned(s: string): (r: Option<(char, string)>)
    ensures r.Some? ==> r.value.0 in Signs && s == [r.value.0] + r.value.1
    ensures r.None? ==> s == [] || s[0] !in Signs
  {
    if s != [] && s[0] in Signs then
      assert s == [s[0]] + s[1..];
      Some((s[0], s[1..]))
    else None
  }

  /** The unary rule writes the sign directly before the operand's text, with
      nothing in between, whether the sign comes from a `{required}` or a
      `{prohibited}` node and whether or not the operand sits in a bare
      `{operand}` wrapper: the sign and exactly the operand's text are read
      back. */
  lemma SignedRoundTrip(c: char, x: Node)
    requires c in Signs
    ensures DecodeSigned(Serialize(Unary(Required([c]), x))) == Some((c, Serialize(x)))
    ensures DecodeSigned(Serialize(Unary(Prohibited([c]), x))) == Some((c, Serialize(x)))
    ensures DecodeSigned(Serialize(Unary(Required([c]), Operand(x)))) == Some((c, Serialize(x)))
    ensures DecodeSigned(Serialize(Unary(Prohibited([c]), Operand(x)))) == Some((c, Serialize(x)))
  {
    var s := [c] + Serialize(x);
    assert s[0] == c && s[1..] == Serialize(x);
  }
}
