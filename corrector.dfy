/** Building the corrected text: every match that has a candidate fix gets
    its first fix spliced over its span, rightmost span first. */
module TextCorrector {
  import opened Matches
  import opened OffsetSort

  /** A slice bound as Python applies it to a string of length `n`: a
      non-negative index past the end stands for the end. */
  function Clamp(i: nat, n: nat): (r: nat)
    ensures r <= n
    ensures i <= n ==> r == i
    ensures n < i ==> r == n
  {
    if i <= n then i else n
  }

  /** `s[:start] + rep + s[end:]` with Python's slicing, for
      `start <= end`: the characters of `s` before `start` are kept, then
      come `rep` and the characters of `s` from `end` on. */
  function Splice(s: string, start: nat, end: nat, rep: string): (r: string)
    requires start <= end
    ensures var lo, hi := Clamp(start, |s|), Clamp(end, |s|);
            |r| == |s| - (hi - lo) + |rep| &&
            r[..lo] == s[..lo] &&
            r[lo..lo + |rep|] == rep &&
            r[lo + |rep|..] == s[hi..]
  {
    var lo, hi := Clamp(start, |s|), Clamp(end, |s|);
    var r := s[..lo] + rep + s[hi..];
    assert r[..lo] == s[..lo];
    assert r[lo..lo + |rep|] == rep;
    assert r[lo + |rep|..] == s[hi..];
    r
  }

  /** One step of the correction loop: a match without a candidate fix
      leaves the text alone, any other has its first fix spliced over
      [offset, offset + errorLength). */
  function ApplyOne(t: string, m: Match): string
  {
    if HasReplacement(m) then Splice(t, m.offset, End(m), m.replacements[0]) else t
  }

  /** The matches applied one after another, in the order given. */
  function ApplyInOrder(t: string, ms: seq<Match>): string
    decreases |ms|
  {
    if ms == [] then t else ApplyInOrder(ApplyOne(t, ms[0]), ms[1..])
  }

  /** The corrected text: the matches applied rightmost offset first. */
  function Corrected(text: string, ms: seq<Match>): string
  {
    ApplyInOrder(text, SortByOffsetDesc(ms))
  }

  /** The correction loop, over the matches sorted by descending offset. */
  method ApplyCorrections(text: string, matches: seq<Match>) returns (corrected: string)
    ensures corrected == Corrected(text, matches)
  {
    var sorted := SortByOffsetDesc(matches);
    corrected := text;
    var i := 0;
    while i < |sorted|
      invariant i <= |sorted|
      invariant ApplyInOrder(corrected, sorted[i..]) == Corrected(text, matches)
    {
      var m := sorted[i];
      ApplyNext(corrected, sorted, i);
      if m.replacements != [] {
        var start := m.offset;
        var end := start + m.errorLength;
        ApplyOneSlices(corrected, m);
        corrected := corrected[..Clamp(start, |corrected|)] + m.replacements[0]
                     + corrected[Clamp(end, |corrected|)..];
      }
      i := i + 1;
    }
  }

  /** Applying the matches from position `i` on is applying the one at `i`
      and then the rest. */
  lemma ApplyNext(t: string, ms: seq<Match>, i: nat)
    requires i < |ms|
    ensures ApplyInOrder(t, ms[i..]) == ApplyInOrder(ApplyOne(t, ms[i]), ms[i + 1..])
  {
    assert ms[i..][0] == ms[i] && ms[i..][1..] == ms[i + 1..];
  }

  /** A match with a candidate fix, written with clamped slices. */
  lemma ApplyOneSlices(t: string, m: Match)
    requires HasReplacement(m)
    ensures ApplyOne(t, m) ==
            t[..Clamp(m.offset, |t|)] + m.replacements[0] + t[Clamp(m.offset + m.errorLength, |t|)..]
  {
  }

  // ---------------------------------------------------------------------
  // Matches that leave the text alone

  /** A match without a candidate fix changes nothing, wherever it is. */
  lemma {:induction false} SkippedMatchesChangeNothing(t: string, ms: seq<Match>)
    ensures ApplyInOrder(t, ms) == ApplyInOrder(t, Filter(ms, HasReplacement))
    decreases |ms|
  {
    if ms != [] {
      var x, rest := ms[0], ms[1..];
      assert ms == [x] + rest;
      FilterCons(x, rest, HasReplacement);
      SkippedMatchesChangeNothing(ApplyOne(t, x), rest);
      if !HasReplacement(x) {
        SkippedMatchesChangeNothing(t, rest);
      } else {
        assert ([x] + Filter(rest, HasReplacement))[1..] == Filter(rest, HasReplacement);
      }
    }
  }

  /** Dropping the matches without a candidate fix does not change the
      corrected text. */
  lemma CorrectedIgnoresSkippedMatches(text: string, ms: seq<Match>)
    ensures Corrected(text, ms) == Corrected(text, Filter(ms, HasReplacement))
  {
    SkippedMatchesChangeNothing(text, SortByOffsetDesc(ms));
    SortFilter(ms, HasReplacement);
  }

  /** No matches, or only matches without a candidate fix: the corrected
      text is the original. */
  lemma NothingToApply(text: string, ms: seq<Match>)
    requires forall m :: m in ms ==> !HasReplacement(m)
    ensures Corrected(text, ms) == text
  {
    CorrectedIgnoresSkippedMatches(text, ms);
    FilterNone(ms, HasReplacement);
    assert SortByOffsetDesc([]) == [];
  }

  // ---------------------------------------------------------------------
  // One match

  /** A match past the end of the text appends its fix: both slice bounds
      are clamped to the end. */
  lemma OutOfRangeAppends(t: string, m: Match)
    requires HasReplacement(m) && |t| <= m.offset
    ensures ApplyOne(t, m) == t + m.replacements[0]
  {
    assert t[..|t|] == t;
  }

  /** A single match inside the text: its span is replaced by its first
      fix, and the length changes by the difference. */
  lemma SingleMatch(text: string, m: Match)
    requires HasReplacement(m) && End(m) <= |text|
    ensures Corrected(text, [m]) ==
            text[..m.offset] + m.replacements[0] + text[End(m)..]
    ensures |Corrected(text, [m])| == |text| - m.errorLength + |m.replacements[0]|
  {
    SortCons(m, []);
    assert SortByOffsetDesc([m]) == [m];
    assert ApplyInOrder(text, [m]) == ApplyOne(text, m) by {
      assert [m][1..] == [];
    }
  }

  // ---------------------------------------------------------------------
  // Disjoint spans

  /** Two matches at different offsets whose spans do not overlap. */
  predicate Apart(x: Match, y: Match)
  {
    x.offset != y.offset && (End(x) <= y.offset || End(y) <= x.offset)
  }

  /** Every two matches of `ms` are apart. */
  predicate PairwiseApart(ms: seq<Match>)
  {
    forall i, j :: 0 <= i < j < |ms| ==> Apart(ms[i], ms[j])
  }

  /** Every span lies inside the text. */
  predicate InBounds(text: string, ms: seq<Match>)
  {
    forall m :: m in ms ==> End(m) <= |text|
  }

  /** Spans at strictly increasing offsets, each ending at or before the
      next one begins. */
  predicate AscendingApart(a: seq<Match>)
  {
    forall i, j :: 0 <= i < j < |a| ==> End(a[i]) <= a[j].offset && a[i].offset < a[j].offset
  }

  /** Spans at strictly decreasing offsets, each beginning at or after the
      next one ends. */
  predicate DescendingApart(d: seq<Match>)
  {
    forall i, j :: 0 <= i < j < |d| ==> End(d[j]) <= d[i].offset && d[j].offset < d[i].offset
  }

  /** Left to right, the spans of `a` begin at or after `from`, each ends
      at or before the next begins, and the last ends inside `text`. */
  predicate FitsFrom(text: string, from: nat, a: seq<Match>)
    decreases |a|
  {
    if a == [] then from <= |text|
    else from <= a[0].offset && FitsFrom(text, End(a[0]), a[1..])
  }

  /** Right to left, the first span of `d` ends at or before `limit` and
      each later one ends at or before the previous one begins. */
  predicate FitsBelow(d: seq<Match>, limit: nat)
    decreases |d|
  {
    d == [] || (End(d[0]) <= limit && FitsBelow(d[1..], d[0].offset))
  }

  lemma {:induction false} FitsFromBounds(text: string, from: nat, a: seq<Match>)
    requires FitsFrom(text, from, a)
    ensures from <= |text|
    ensures a != [] ==> End(a[0]) <= |text|
    decreases |a|
  {
    if a != [] {
      FitsFromBounds(text, End(a[0]), a[1..]);
    }
  }

  /** What the original text holds in place of a match's span in the
      corrected text: its first fix, or the span itself when it has none. */
  function Fix(text: string, m: Match): string
    requires End(m) <= |text|
  {
    if HasReplacement(m) then m.replacements[0] else text[m.offset..End(m)]
  }

  /** The original text from `from` on, with each span of `a` (left to
      right, not overlapping) replaced by its fix and everything between
      the spans copied unchanged: every fix placed at its original offset. */
  function Woven(text: string, from: nat, a: seq<Match>): string
    requires FitsFrom(text, from, a)
    decreases |a|
  {
    FitsFromBounds(text, from, a);
    if a == [] then text[from..]
    else text[from..a[0].offset] + Fix(text, a[0]) + Woven(text, End(a[0]), a[1..])
  }

  /** Applying a match that lies inside the text. */
  lemma ApplyOneInBounds(t: string, m: Match)
    requires End(m) <= |t|
    ensures ApplyOne(t, m) == t[..m.offset] + Fix(t, m) + t[End(m)..]
  {
    if !HasReplacement(m) {
      assert t == t[..m.offset] + t[m.offset..End(m)] + t[End(m)..];
    }
  }

  /** A match inside a prefix of the text only changes that prefix. */
  lemma ApplyOneToPrefix(a: string, b: string, m: Match)
    requires End(m) <= |a|
    ensures ApplyOne(a + b, m) == ApplyOne(a, m) + b
  {
    if HasReplacement(m) {
      assert (a + b)[..m.offset] == a[..m.offset];
      assert (a + b)[End(m)..] == a[End(m)..] + b;
    }
  }

  /** Matches right to left, all inside a prefix of the text, only change
      that prefix. */
  lemma {:induction false} ApplyInOrderToPrefix(a: string, b: string, d: seq<Match>)
    requires FitsBelow(d, |a|)
    ensures ApplyInOrder(a + b, d) == ApplyInOrder(a, d) + b
    decreases |d|
  {
    if d != [] {
      var x := d[0];
      ApplyOneToPrefix(a, b, x);
      ApplyOneInBounds(a, x);
      ApplyInOrderToPrefix(ApplyOne(a, x), b, d[1..]);
    }
  }

  lemma WovenSingle(text: string, from: nat, x: Match)
    requires FitsFrom(text, from, [x])
    ensures x.offset <= End(x) <= |text| && FitsFrom(text[..x.offset], from, [])
    ensures Woven(text, from, [x]) == Woven(text[..x.offset], from, []) + Fix(text, x) + text[End(x)..]
  {
    assert [x][1..] == [];
    FitsFromBounds(text, from, [x]);
  }

  /** Weaving a sequence with a first span. */
  lemma WovenCons(text: string, from: nat, y: Match, rest: seq<Match>)
    requires FitsFrom(text, from, [y] + rest)
    ensures from <= y.offset <= End(y) <= |text| && FitsFrom(text, End(y), rest)
    ensures Woven(text, from, [y] + rest) ==
            text[from..y.offset] + Fix(text, y) + Woven(text, End(y), rest)
  {
    assert ([y] + rest)[0] == y && ([y] + rest)[1..] == rest;
    FitsFromBounds(text, from, [y] + rest);
  }

  /** A span inside a prefix of the text reads the same in the prefix. */
  lemma PrefixAgrees(text: string, from: nat, y: Match, cut: nat)
    requires from <= y.offset && End(y) <= cut <= |text|
    ensures text[..cut][from..y.offset] + Fix(text[..cut], y) ==
            text[from..y.offset] + Fix(text, y)
  {
  }

  /** The spans in front of the last one fit the text before it. */
  lemma WovenLastFits(text: string, from: nat, y: Match, rest: seq<Match>, x: Match)
    requires FitsFrom(text, from, [y] + (rest + [x]))
    requires x.offset <= |text|
    requires FitsFrom(text[..x.offset], End(y), rest)
    ensures FitsFrom(text[..x.offset], from, [y] + rest)
  {
    WovenCons(text, from, y, rest + [x]);
    FitsFromBounds(text[..x.offset], End(y), rest);
    assert ([y] + rest)[0] == y && ([y] + rest)[1..] == rest;
  }

  /** The step of `WovenLast`: weaving one more span `y` in front. */
  lemma WovenLastStep(text: string, from: nat, y: Match, rest: seq<Match>, x: Match)
    requires FitsFrom(text, from, [y] + (rest + [x]))
    requires x.offset <= End(x) <= |text|
    requires FitsFrom(text[..x.offset], End(y), rest)
    requires FitsFrom(text[..x.offset], from, [y] + rest)
    requires Woven(text, End(y), rest + [x]) ==
             Woven(text[..x.offset], End(y), rest) + Fix(text, x) + text[End(x)..]
    ensures Woven(text, from, [y] + (rest + [x])) ==
            Woven(text[..x.offset], from, [y] + rest) + Fix(text, x) + text[End(x)..]
  {
    var prefix := text[..x.offset];
    WovenCons(text, from, y, rest + [x]);
    WovenCons(prefix, from, y, rest);
    PrefixAgrees(text, from, y, x.offset);
    Regroup(Woven(text, from, [y] + (rest + [x])), Woven(prefix, from, [y] + rest),
            text[from..y.offset] + Fix(text, y), Woven(text, End(y), rest + [x]),
            Woven(prefix, End(y), rest), Fix(text, x), text[End(x)..]);
  }

  lemma Associate(a: string, b: string, c: string)
    ensures a + (b + c) == a + b + c
  {
  }

  /** Regrouping a concatenation: `whole` is `head` followed by the last
      two parts. */
  lemma Regroup(whole: string, head: string, before: string, middle: string,
                inner: string, fix: string, tail: string)
    requires whole == before + middle
    requires middle == inner + fix + tail
    requires head == before + inner
    ensures whole == head + fix + tail
  {
  }

  /** Weaving a last span: the text before it is woven, then come its fix
      and the rest of the original text. */
  lemma {:induction false} WovenLast(text: string, from: nat, a: seq<Match>, x: Match)
    requires FitsFrom(text, from, a + [x])
    ensures x.offset <= End(x) <= |text| && FitsFrom(text[..x.offset], from, a)
    ensures Woven(text, from, a + [x]) ==
            Woven(text[..x.offset], from, a) + Fix(text, x) + text[End(x)..]
    decreases |a|
  {
    if a == [] {
      assert a + [x] == [x];
      WovenSingle(text, from, x);
    } else {
      assert a == [a[0]] + a[1..];
      assert a + [x] == [a[0]] + (a[1..] + [x]);
      WovenCons(text, from, a[0], a[1..] + [x]);
      WovenLast(text, End(a[0]), a[1..], x);
      WovenLastFits(text, from, a[0], a[1..], x);
      WovenLastStep(text, from, a[0], a[1..], x);
    }
  }

  /** Adding a span after the ones that fit a prefix of the text. */
  lemma {:induction false} FitsFromSnoc(text: string, from: nat, a: seq<Match>, x: Match)
    requires x.offset <= |text| && End(x) <= |text|
    requires FitsFrom(text[..x.offset], from, a)
    ensures FitsFrom(text, from, a + [x])
    decreases |a|
  {
    if a == [] {
      assert [x][1..] == [];
    } else {
      assert (a + [x])[0] == a[0] && (a + [x])[1..] == a[1..] + [x];
      FitsFromSnoc(text, End(a[0]), a[1..], x);
    }
  }

  /** Right to left, each splice lands where the original offsets say: the
      result is the original text with every fix woven in at its original
      offset. */
  lemma {:induction false} RightToLeftIsWoven(text: string, d: seq<Match>)
    requires FitsBelow(d, |text|)
    ensures FitsFrom(text, 0, Reverse(d))
    ensures ApplyInOrder(text, d) == Woven(text, 0, Reverse(d))
    decreases |d|
  {
    if d == [] {
    } else {
      var x, rest := d[0], d[1..];
      var prefix, suffix := text[..x.offset], Fix(text, x) + text[End(x)..];
      ApplyOneInBounds(text, x);
      assert ApplyOne(text, x) == prefix + suffix;
      ApplyInOrderToPrefix(prefix, suffix, rest);
      RightToLeftIsWoven(prefix, rest);
      assert Reverse(d) == Reverse(rest) + [x];
      FitsFromSnoc(text, 0, Reverse(rest), x);
      WovenLast(text, 0, Reverse(rest), x);
      Associate(Woven(prefix, 0, Reverse(rest)), Fix(text, x), text[End(x)..]);
    }
  }

  /** Spans apart from right to left, all inside the first `limit`
      characters, fit below `limit`. */
  lemma {:induction false} DescendingApartFits(d: seq<Match>, limit: nat)
    requires DescendingApart(d)
    requires forall m :: m in d ==> End(m) <= limit
    ensures FitsBelow(d, limit)
    decreases |d|
  {
    if d != [] {
      assert d[0] in d;
      forall m | m in d[1..] ensures End(m) <= d[0].offset {
        var k :| 0 <= k < |d[1..]| && d[1..][k] == m;
        assert d[k + 1] == m;
      }
      DescendingApartFits(d[1..], d[0].offset);
    }
  }

  /** Two different matches of a pairwise apart sequence are apart. */
  lemma MembersApart(ms: seq<Match>, x: Match, y: Match)
    requires PairwiseApart(ms) && x in ms && y in ms && x.offset != y.offset
    ensures Apart(x, y)
  {
    var i :| 0 <= i < |ms| && ms[i] == x;
    var j :| 0 <= j < |ms| && ms[j] == y;
    if i < j {
      assert Apart(ms[i], ms[j]);
    } else {
      assert Apart(ms[j], ms[i]);
    }
  }

  /** Pairwise apart matches, once sorted, are apart from right to left. */
  lemma SortedApart(ms: seq<Match>)
    requires PairwiseApart(ms)
    ensures DescendingApart(SortByOffsetDesc(ms))
  {
    var d := SortByOffsetDesc(ms);
    assert DistinctOffsets(ms);
    SortStrict(ms);
    forall i, j | 0 <= i < j < |d|
      ensures End(d[j]) <= d[i].offset && d[j].offset < d[i].offset
    {
      assert d[i] in multiset(ms) && d[j] in multiset(ms);
      MembersApart(ms, d[i], d[j]);
    }
  }

  /** For matches that lie inside the text and are pairwise apart, the
      corrected text is the original with every fix placed at its original
      offset, whatever left-to-right arrangement `a` of the matches is
      used to describe it. */
  lemma CorrectedIsWoven(text: string, ms: seq<Match>, a: seq<Match>)
    requires PairwiseApart(ms) && InBounds(text, ms)
    requires AscendingApart(a) && multiset(a) == multiset(ms)
    ensures FitsFrom(text, 0, a)
    ensures Corrected(text, ms) == Woven(text, 0, a)
  {
    var d := SortByOffsetDesc(ms);
    SortedApart(ms);
    forall m | m in d ensures End(m) <= |text| {
      assert m in multiset(ms);
    }
    DescendingApartFits(d, |text|);
    RightToLeftIsWoven(text, d);
    // `a` read backwards is a strictly descending arrangement of `ms`.
    var back := Reverse(a);
    ReverseMultiset(a);
    assert StrictlyDescending(back) by {
      forall i, j | 0 <= i < j < |back| ensures back[j].offset < back[i].offset {
        assert back[i] == a[|a| - 1 - i] && back[j] == a[|a| - 1 - j];
      }
    }
    StrictArrangementUnique(back, d);
    ReverseReverse(a);
  }

  /** For pairwise apart matches the corrected text does not depend on the
      order in which the engine reported them. */
  lemma CorrectedIgnoresInputOrder(text: string, ms: seq<Match>, ms': seq<Match>)
    requires PairwiseApart(ms)
    requires multiset(ms) == multiset(ms')
    ensures Corrected(text, ms) == Corrected(text, ms')
  {
    assert DistinctOffsets(ms);
    SortIgnoresInputOrder(ms, ms');
  }

  // ---------------------------------------------------------------------
  // Worked texts

  /** One fix inside the text: "He go home" becomes "He goes home". */
  lemma OneFixExample(text: string, m: Match)
    requires text == "He go home"
    requires m.offset == 3 && m.errorLength == 2 && m.replacements == ["goes"]
    ensures Corrected(text, [m]) == "He goes home"
  {
    SingleMatch(text, m);
  }

  /** Two spans woven into the text: the text up to the first, its fix,
      the text between them, the second fix, the rest of the text. */
  lemma WovenTwo(text: string, x: Match, y: Match)
    requires x.offset <= End(x) <= y.offset <= End(y) <= |text|
    ensures FitsFrom(text, 0, [x, y])
    ensures Woven(text, 0, [x, y]) ==
            text[..x.offset] + Fix(text, x) + (text[End(x)..y.offset] + Fix(text, y) + text[End(y)..])
  {
    assert [x, y] == [x] + [y] && [y] == [y] + [];
    assert FitsFrom(text, End(x), [y]) by {
      assert [y][1..] == [];
    }
    assert FitsFrom(text, 0, [x, y]) by {
      assert [x, y][1..] == [y];
    }
    WovenCons(text, 0, x, [y]);
    WovenCons(text, End(x), y, []);
  }

  /** The two fixes of `TwoFixesExample` woven into the original text. */
  lemma TwoFixesWoven(text: string, m1: Match, m2: Match)
    requires text == "He go home yesterday"
    requires m1.offset == 3 && m1.errorLength == 2 && m1.replacements == ["goes"]
    requires m2.offset == 11 && m2.errorLength == 9 && m2.replacements == ["today"]
    ensures FitsFrom(text, 0, [m1, m2])
    ensures Woven(text, 0, [m1, m2]) == "He goes home today"
  {
    WovenTwo(text, m1, m2);
    JoinPieces(text[..3], Fix(text, m1), text[5..11], Fix(text, m2), text[20..]);
  }

  lemma JoinPieces(a: string, b: string, c: string, d: string, e: string)
    requires a == "He " && b == "goes" && c == " home " && d == "today" && e == ""
    ensures a + b + (c + d + e) == "He goes home today"
  {
  }

  /** A span that ends before the next begins is apart from it. */
  lemma TwoSpansApart(x: Match, y: Match)
    requires End(x) <= y.offset && x.offset < y.offset
    ensures PairwiseApart([x, y]) && AscendingApart([x, y])
  {
    assert Apart([x, y][0], [x, y][1]);
  }

  /** Two fixes whose spans are apart, reported left to right. */
  lemma TwoFixesExample(text: string, m1: Match, m2: Match)
    requires text == "He go home yesterday"
    requires m1.offset == 3 && m1.errorLength == 2 && m1.replacements == ["goes"]
    requires m2.offset == 11 && m2.errorLength == 9 && m2.replacements == ["today"]
    ensures Corrected(text, [m1, m2]) == "He goes home today"
  {
    TwoSpansApart(m1, m2);
    assert InBounds(text, [m1, m2]);
    CorrectedIsWoven(text, [m1, m2], [m1, m2]);
    TwoFixesWoven(text, m1, m2);
  }

  /** The same two fixes reported right to left give the same text. */
  lemma TwoFixesSwapped(text: string, m1: Match, m2: Match)
    requires text == "He go home yesterday"
    requires m1.offset == 3 && m1.errorLength == 2 && m1.replacements == ["goes"]
    requires m2.offset == 11 && m2.errorLength == 9 && m2.replacements == ["today"]
    ensures Corrected(text, [m2, m1]) == "He goes home today"
  {
    TwoFixesExample(text, m1, m2);
    TwoApartCommute(text, m1, m2);
  }

  /** Two matches whose spans are apart give the same text in either
      order. */
  lemma TwoApartCommute(text: string, x: Match, y: Match)
    requires End(x) <= y.offset && x.offset < y.offset
    ensures Corrected(text, [x, y]) == Corrected(text, [y, x])
  {
    TwoSpansApart(x, y);
    assert multiset([x, y]) == multiset([y, x]);
    CorrectedIgnoresInputOrder(text, [x, y], [y, x]);
  }

  /** Two insertions at one offset, applied in the order given: the second
      lands in front of the first. */
  lemma TwoInsertions(x: Match, y: Match)
    requires x.offset == 1 && x.errorLength == 0 && |x.replacements| == 1
    requires y.offset == 1 && y.errorLength == 0 && |y.replacements| == 1
    ensures ApplyInOrder("ab", [x, y]) == "a" + y.replacements[0] + x.replacements[0] + "b"
  {
    var t := "ab";
    var t' := ApplyOne(t, x);
    assert t' == t[..1] + x.replacements[0] + t[1..];
    var t'' := ApplyOne(t', y);
    assert t'' == t'[..1] + y.replacements[0] + t'[1..];
    assert t'[..1] == "a";
    assert t'[1..] == x.replacements[0] + "b";
    assert [x, y][1..] == [y] && [y][1..] == [];
    assert ApplyInOrder(t', [y]) == ApplyInOrder(t'', []);
  }

  /** Matches with one offset keep the order they were reported in. */
  lemma SortTwoTied(x: Match, y: Match)
    requires x.offset == y.offset
    ensures SortByOffsetDesc([x, y]) == [x, y]
  {
    SortCons(y, []);
    assert [y] + [] == [y];
    assert SortByOffsetDesc([y]) == [y];
    SortCons(x, [y]);
    assert [x] + [y] == [x, y];
    assert Insert(x, [y]) == [x, y];
  }

  /** Two insertions at the same offset are not apart: the one reported
      later ends up in front, so here the input order matters. */
  lemma TiedOffsetsExample(text: string, x: Match, y: Match)
    requires text == "ab"
    requires x.offset == 1 && x.errorLength == 0 && x.replacements == ["X"]
    requires y.offset == 1 && y.errorLength == 0 && y.replacements == ["Y"]
    ensures Corrected(text, [x, y]) == "aYXb"
    ensures Corrected(text, [y, x]) == "aXYb"
  {
    SortTwoTied(x, y);
    assert Corrected(text, [x, y]) == ApplyInOrder(text, [x, y]);
    TwoInsertions(x, y);
    assert ApplyInOrder(text, [x, y]) == "a" + "Y" + "X" + "b" == "aYXb";
    SortTwoTied(y, x);
    assert Corrected(text, [y, x]) == ApplyInOrder(text, [y, x]);
    TwoInsertions(y, x);
    assert ApplyInOrder(text, [y, x]) == "a" + "X" + "Y" + "b" == "aXYb";
  }
}
