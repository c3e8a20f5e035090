/** The match records the grammar engine reports for a text, and the
    sequence helpers the other modules share. */
module Matches {

  /** One issue reported by the grammar engine: the span
      [offset, offset + errorLength) of the checked text, the rule that
      fired, its candidate fixes in order of preference, and two strings
      that are only ever displayed. */
  datatype Match = Match(
    offset: nat,
    errorLength: nat,
    message: string,
    ruleId: string,
    replacements: seq<string>,
    context: string)

  /** One past the last character of the span the match reports. */
  function End(m: Match): nat
  {
    m.offset + m.errorLength
  }

  /** A match is applied only when it has at least one candidate fix. */
  predicate HasReplacement(m: Match)
  {
    m.replacements != []
  }

  /** The matches of `s` that satisfy `p`, in their order in `s`. */
  function Filter(s: seq<Match>, p: Match -> bool): (r: seq<Match>)
    ensures |r| <= |s|
    ensures forall x :: x in r <==> x in s && p(x)
  {
    if s == [] then []
    else (if p(s[0]) then [s[0]] else []) + Filter(s[1..], p)
  }

  /** Filtering a sequence with a first element. */
  lemma FilterCons(x: Match, s: seq<Match>, p: Match -> bool)
    ensures p(x) ==> Filter([x] + s, p) == [x] + Filter(s, p)
    ensures !p(x) ==> Filter([x] + s, p) == Filter(s, p)
  {
    assert ([x] + s)[1..] == s;
  }

  /** Nothing passes a test that no element satisfies. */
  lemma {:induction false} FilterNone(s: seq<Match>, p: Match -> bool)
    requires forall x :: x in s ==> !p(x)
    ensures Filter(s, p) == []
  {
    if s != [] {
      assert s[0] in s;
      assert forall x :: x in s[1..] ==> x in s;
      FilterNone(s[1..], p);
    }
  }

  /** `s` read from its last element to its first. */
  function Reverse<T>(s: seq<T>): (r: seq<T>)
    ensures |r| == |s|
    ensures forall k :: 0 <= k < |s| ==> r[k] == s[|s| - 1 - k]
  {
    if s == [] then [] else Reverse(s[1..]) + [s[0]]
  }

  lemma ReverseReverse<T>(s: seq<T>)
    ensures Reverse(Reverse(s)) == s
  {
  }

  lemma {:induction false} ReverseMultiset<T>(s: seq<T>)
    ensures multiset(Reverse(s)) == multiset(s)
  {
    if s != [] {
      ReverseMultiset(s[1..]);
      assert s == [s[0]] + s[1..];
    }
  }
}
