/** The serializer only ever adds brackets in matching pairs: groups add
    `(` `)`, inclusive ranges `[` `]`, exclusive ranges `{` `}`. So when no
    opaque value in the tree holds a bracket character, the output is well
    nested. */
module Brackets {
  import opened Text
  import opened Transformer

  const Openers: set<char> := {'(', '[', '{'}
  const Closers: set<char> := {')', ']', '}'}
  const BracketChars: set<char> := Openers + Closers

  /** The closing bracket that matches the opening bracket `c`. */
  function CloserOf(c: char): char
  {
    if c == '(' then ')' else if c == '[' then ']' else '}'
  }

  /** Reads `s` from left to right against a stack of closing brackets still
      owed (innermost last): an opener pushes its closer, a closer must match
      the top and pops it, other characters are skipped. `None` when a closer
      does not match. */
  function Scan(s: string, owed: seq<char>): Option<seq<char>>
    decreases |s|
  {
    if s == [] then Some(owed)
    else if s[0] in Openers then Scan(s[1..], owed + [CloserOf(s[0])])
    else if s[0] in Closers then
      if |owed| > 0 && owed[|owed| - 1] == s[0] then Scan(s[1..], owed[..|owed| - 1])
      else None
    else Scan(s[1..], owed)
  }

  /** Every bracket of `s` is closed by the matching bracket, properly nested. */
  predicate Balanced(s: string)
  {
    Scan(s, []) == Some([])
  }

  /** Reading `a + b` is reading `a`, then reading `b` from where `a` left off. */
  lemma {:induction false} ScanConcat(a: string, b: string, owed: seq<char>)
    ensures Scan(a + b, owed) == match Scan(a, owed)
      case None => None
      case Some(after) => Scan(b, after)
    decreases |a|
  {
    if a != [] {
      assert (a + b)[0] == a[0];
      assert (a + b)[1..] == a[1..] + b;
      if a[0] in Openers {
        ScanConcat(a[1..], b, owed + [CloserOf(a[0])]);
      } else if a[0] in Closers {
        if |owed| > 0 && owed[|owed| - 1] == a[0] {
          ScanConcat(a[1..], b, owed[..|owed| - 1]);
        }
      } else {
        ScanConcat(a[1..], b, owed);
      }
    } else {
      assert a + b == b;
    }
  }

  /** Reading never looks below the part of the stack it started with. */
  lemma {:induction false} ScanBelow(s: string, below: seq<char>, owed: seq<char>)
    requires Scan(s, owed).Some?
    ensures Scan(s, below + owed) == Some(below + Scan(s, owed).value)
    decreases |s|
  {
    if s != [] {
      if s[0] in Openers {
        assert below + owed + [CloserOf(s[0])] == below + (owed + [CloserOf(s[0])]);
        ScanBelow(s[1..], below, owed + [CloserOf(s[0])]);
      } else if s[0] in Closers {
        var all := below + owed;
        assert all[|all| - 1] == owed[|owed| - 1];
        assert all[..|all| - 1] == below + owed[..|owed| - 1];
        ScanBelow(s[1..], below, owed[..|owed| - 1]);
      } else {
        ScanBelow(s[1..], below, owed);
      }
    }
  }

  /** Text without brackets leaves the stack as it was. */
  lemma {:induction false} ScanPlain(s: string, owed: seq<char>)
    requires NoneOf(s, BracketChars)
    ensures Scan(s, owed) == Some(owed)
    decreases |s|
  {
    if s != [] {
      assert s[0] !in BracketChars;
      ScanPlain(s[1..], owed);
    }
  }

  /** Two balanced texts written one after the other are balanced. */
  lemma BalancedConcat(a: string, b: string)
    requires Balanced(a) && Balanced(b)
    ensures Balanced(a + b)
  {
    ScanConcat(a, b, []);
  }

  /** A balanced text between an opening bracket and its closer is balanced. */
  lemma BalancedWrap(o: char, x: string)
    requires o in Openers && Balanced(x)
    ensures Balanced([o] + x + [CloserOf(o)])
  {
    var c := CloserOf(o);
    var s := [o] + x + [c];
    assert s[0] == o && s[1..] == x + [c];
    assert c in Closers && c !in Openers;
    assert Scan(s, []) == Scan(x + [c], [c]) by { assert [] + [c] == [c]; }
    ScanBelow(x, [c], []);
    assert [c] + [] == [c];
    assert Scan(x, [c]) == Some([c]);
    ScanConcat(x, [c], [c]);
    assert Scan([c], [c]) == Scan([], []) by { assert [c][1..] == []; assert [c][..0] == []; }
  }

  /** Every opaque string of the tree (values, suffixes, field names,
      endpoints, operator text) is free of bracket characters. */
  predicate PlainValues(n: Node)
    decreases n
  {
    match n
    case Term(t) => NoneOf(t, BracketChars)
    case FuzzyTerm(t, s) => NoneOf(t, BracketChars) && NoneOf(s, BracketChars)
    case BoostedTerm(t, b) => NoneOf(t, BracketChars) && NoneOf(b, BracketChars)
    case BoostedPhrase(p, b) => NoneOf(p, BracketChars) && NoneOf(b, BracketChars)
    case Phrase(p) => NoneOf(p, BracketChars)
    case ProximityPhrase(p, d) => NoneOf(p, BracketChars) && NoneOf(d, BracketChars)
    case Group(e) => PlainValues(e)
    case Operand(x) => PlainValues(x)
    case Unary(o, x) => PlainValues(o) && PlainValues(x)
    case Required(s) => NoneOf(s, BracketChars)
    case Prohibited(s) => NoneOf(s, BracketChars)
    case Field(f, x) => NoneOf(f, BracketChars) && PlainValues(x)
    case InclusiveRange(f, r) => NoneOf(f, BracketChars) && PlainValues(r)
    case ExclusiveRange(f, r) => NoneOf(f, BracketChars) && PlainValues(r)
    case Range(lo, hi) => NoneOf(lo, BracketChars) && NoneOf(hi, BracketChars)
    case Sequence(items) => forall i :: 0 <= i < |items| ==> PlainValues(items[i])
  }

  /** Text without brackets is balanced. */
  lemma PlainBalanced(s: string)
    requires NoneOf(s, BracketChars)
    ensures Balanced(s)
  {
    ScanPlain(s, []);
  }

  /** Concatenating bracket-free texts gives a bracket-free text. */
  lemma PlainConcat(a: string, b: string)
    requires NoneOf(a, BracketChars) && NoneOf(b, BracketChars)
    ensures NoneOf(a + b, BracketChars)
  {
  }

  /** When no opaque value holds a bracket, the serialized query is balanced:
      the brackets of groups and ranges always come in matching pairs. */
  lemma {:induction false} SerializeBalanced(n: Node)
    requires PlainValues(n)
    ensures Balanced(Serialize(n))
    decreases n
  {
    match n
    case Term(t) => PlainBalanced(t);
    case FuzzyTerm(t, s) => PlainConcat(t, "~"); PlainConcat(t + "~", s); PlainBalanced(t + "~" + s);
    case BoostedTerm(t, b) => PlainConcat(t, "^"); PlainConcat(t + "^", b); PlainBalanced(t + "^" + b);
    case BoostedPhrase(p, b) =>
      PlainConcat("\"", p); PlainConcat("\"" + p, "\"^"); PlainConcat("\"" + p + "\"^", b);
      PlainBalanced("\"" + p + "\"^" + b);
    case Phrase(p) =>
      PlainConcat("\"", p); PlainConcat("\"" + p, "\"");
      PlainBalanced("\"" + p + "\"");
    case ProximityPhrase(p, d) =>
      PlainConcat("\"", p); PlainConcat("\"" + p, "\"~"); PlainConcat("\"" + p + "\"~", d);
      PlainBalanced("\"" + p + "\"~" + d);
    case Group(e) =>
      SerializeBalanced(e);
      BalancedWrap('(', Serialize(e));
    case Operand(x) => SerializeBalanced(x);
    case Unary(o, x) =>
      SerializeBalanced(o); SerializeBalanced(x);
      BalancedConcat(Serialize(o), Serialize(x));
    case Required(s) => PlainBalanced(s);
    case Prohibited(s) => PlainBalanced(s);
    case Field(f, x) =>
      PlainConcat(f, ":"); PlainBalanced(f + ":");
      SerializeBalanced(x);
      BalancedConcat(f + ":", Serialize(x));
    case InclusiveRange(f, r) =>
      PlainConcat(f, ":"); PlainBalanced(f + ":");
      SerializeBalanced(r);
      BalancedWrap('[', Serialize(r));
      BalancedConcat(f + ":", "[" + Serialize(r) + "]");
      assert f + ":[" + Serialize(r) + "]" == (f + ":") + ("[" + Serialize(r) + "]");
    case ExclusiveRange(f, r) =>
      PlainConcat(f, ":"); PlainBalanced(f + ":");
      SerializeBalanced(r);
      BalancedWrap('{', Serialize(r));
      BalancedConcat(f + ":", "{" + Serialize(r) + "}");
      assert f + ":{" + Serialize(r) + "}" == (f + ":") + ("{" + Serialize(r) + "}");
    case Range(lo, hi) =>
      PlainConcat(lo, " TO "); PlainConcat(lo + " TO ", hi);
      PlainBalanced(lo + " TO " + hi);
    case Sequence(items) =>
      SerializeAllBalanced(items);
      JoinBalanced(SerializeAll(items));
  }

  /** Each child of a sequence with bracket-free values serializes balanced. */
  lemma {:induction false} SerializeAllBalanced(items: seq<Node>)
    requires forall i :: 0 <= i < |items| ==> PlainValues(items[i])
    ensures forall i :: 0 <= i < |items| ==> Balanced(SerializeAll(items)[i])
    decreases items
  {
    forall i | 0 <= i < |items| ensures Balanced(SerializeAll(items)[i]) {
      SerializeBalanced(items[i]);
    }
  }

  /** Joining balanced texts with spaces gives a balanced text. */
  lemma {:induction false} JoinBalanced(parts: seq<string>)
    requires forall i :: 0 <= i < |parts| ==> Balanced(parts[i])
    ensures Balanced(Join(parts))
  {
    if |parts| == 0 {
      PlainBalanced("");
    } else if |parts| > 1 {
      JoinBalanced(parts[1..]);
      PlainBalanced(" ");
      BalancedConcat(parts[0], " ");
      BalancedConcat(parts[0] + " ", Join(parts[1..]));
    }
  }
}
