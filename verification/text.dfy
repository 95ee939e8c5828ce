/** Text helpers for the query serializer: strings are `seq<char>`. `Join`
    is Ruby's `Array#join(" ")`; `Split` is its inverse on parts that hold
    no space; `FindFirst` is a first-occurrence search used by the decoders. */
module Text {

  datatype Option<+T> = None | Some(value: T)

  /** No character of `s` is one of `stops`. */
  predicate NoneOf(s: string, stops: set<char>)
  {
    forall k :: 0 <= k < |s| ==> s[k] !in stops
  }

  /** Sum of the lengths of `parts`. */
  function TotalLength(parts: seq<string>): nat
  {
    if |parts| == 0 then 0 else |parts[0]| + TotalLength(parts[1..])
  }

  /** `parts` in order, one space between neighbours, none at either end. */
  function Join(parts: seq<string>): (r: string)
    ensures |parts| == 0 ==> r == ""
    ensures |parts| > 0 ==> |r| == TotalLength(parts) + |parts| - 1
  {
    if |parts| == 0 then ""
    else if |parts| == 1 then parts[0]
    else parts[0] + " " + Join(parts[1..])
  }

  /** Index of the first character of `s` that is in `stops`, or `|s|` when
      there is none. */
  function FindFirst(s: string, stops: set<char>): (i: nat)
    ensures i <= |s|
    ensures NoneOf(s[..i], stops)
    ensures i < |s| ==> s[i] in stops
  {
    if s == [] then 0
    else if s[0] in stops then 0
    else
      var j := 1 + FindFirst(s[1..], stops);
      assert s[..j] == [s[0]] + s[1..][..j - 1];
      j
  }

  /** `s` cut at every space: the pieces hold no space and there is always
      at least one (the empty string gives `[""]`). */
  function Split(s: string): (r: seq<string>)
    ensures |r| > 0
    ensures forall k :: 0 <= k < |r| ==> NoneOf(r[k], {' '})
    decreases |s|
  {
    var i := FindFirst(s, {' '});
    if i == |s| then
      assert s[..i] == s;
      [s]
    else [s[..i]] + Split(s[i + 1..])
  }

  /** The search stops at the first stop character placed after a stretch
      that holds none. */
  lemma FindFirstAt(a: string, c: char, b: string, stops: set<char>)
    requires c in stops && NoneOf(a, stops)
    ensures FindFirst(a + [c] + b, stops) == |a|
  {
    var s := a + [c] + b;
    assert forall k :: 0 <= k < |a| ==> s[k] == a[k];
    assert s[|a|] == c;
  }

  /** A string without stop characters is searched to its end. */
  lemma FindFirstNone(s: string, stops: set<char>)
    requires NoneOf(s, stops)
    ensures FindFirst(s, stops) == |s|
  {
  }

  /** Joining two non-empty lists puts exactly one space between their joins:
      the order of the parts is kept and nothing else is inserted. */
  lemma {:induction false} JoinAppend(a: seq<string>, b: seq<string>)
    requires |a| > 0 && |b| > 0
    ensures Join(a + b) == Join(a) + " " + Join(b)
  {
    if |a| == 1 {
      assert (a + b)[0] == a[0];
      assert (a + b)[1..] == b;
    } else {
      assert (a + b)[0] == a[0];
      assert (a + b)[1..] == a[1..] + b;
      JoinAppend(a[1..], b);
    }
  }

  /** A join begins with its first part and ends with its last part. */
  lemma {:induction false} JoinEnds(parts: seq<string>)
    requires |parts| > 0
    ensures var r, first, last := Join(parts), parts[0], parts[|parts| - 1];
      |first| <= |r| && |last| <= |r| &&
      r[..|first|] == first && r[|r| - |last|..] == last
  {
    if |parts| > 1 {
      JoinEnds(parts[1..]);
      var rest := Join(parts[1..]);
      assert Join(parts) == parts[0] + " " + rest;
      assert parts[1..][|parts[1..]| - 1] == parts[|parts| - 1];
    }
  }

  /** With a first part that does not begin with a space and a last part that
      does not end with one, the join has no leading or trailing space. */
  lemma JoinNoOuterSpace(parts: seq<string>)
    requires |parts| > 0
    requires parts[0] != [] && parts[0][0] != ' '
    requires parts[|parts| - 1] != [] && parts[|parts| - 1][|parts[|parts| - 1]| - 1] != ' '
    ensures var r := Join(parts); r != [] && r[0] != ' ' && r[|r| - 1] != ' '
  {
    JoinEnds(parts);
    var r, last := Join(parts), parts[|parts| - 1];
    assert r[..|parts[0]|][0] == r[0];
    assert r[|r| - |last|..][|last| - 1] == r[|r| - 1];
  }

  /** Splitting a join recovers the parts, in order, when no part holds a
      space: the separator is exactly one space. */
  lemma {:induction false} SplitJoin(parts: seq<string>)
    requires |parts| > 0
    requires forall k :: 0 <= k < |parts| ==> NoneOf(parts[k], {' '})
    ensures Split(Join(parts)) == parts
  {
    if |parts| == 1 {
      FindFirstNone(parts[0], {' '});
    } else {
      var rest := Join(parts[1..]);
      var s := parts[0] + " " + rest;
      assert Join(parts) == s;
      FindFirstAt(parts[0], ' ', rest, {' '});
      assert s[..|parts[0]|] == parts[0];
      assert s[|parts[0]| + 1..] == rest;
      SplitJoin(parts[1..]);
      assert [parts[0]] + parts[1..] == parts;
    }
  }

  /** Joining the pieces of a split gives the string back. */
  lemma {:induction false} JoinSplit(s: string)
    ensures Join(Split(s)) == s
    decreases |s|
  {
    var i := FindFirst(s, {' '});
    if i < |s| {
      var tail := s[i + 1..];
      JoinSplit(tail);
      var r := Split(s);
      assert r == [s[..i]] + Split(tail);
      assert r[1..] == Split(tail);
      assert s == s[..i] + " " + tail;
    }
  }
}
