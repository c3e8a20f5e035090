/** The order in which corrections are applied: matches sorted by
    descending offset with a stable sort, so that matches with equal
    offsets keep the order in which the engine reported them. */
module OffsetSort {
  import opened Matches

  /** Offsets never increase from left to right. */
  predicate Descending(s: seq<Match>)
  {
    forall i, j :: 0 <= i < j < |s| ==> s[j].offset <= s[i].offset
  }

  /** Offsets strictly decrease from left to right. */
  predicate StrictlyDescending(s: seq<Match>)
  {
    forall i, j :: 0 <= i < j < |s| ==> s[j].offset < s[i].offset
  }

  /** No two matches of `s` report the same offset. */
  predicate DistinctOffsets(s: seq<Match>)
  {
    forall i, j :: 0 <= i < j < |s| ==> s[i].offset != s[j].offset
  }

  /** Puts `m` in front of the first match whose offset is at most its own,
      that is, after every match with a larger offset. */
  function Insert(m: Match, s: seq<Match>): (r: seq<Match>)
    ensures multiset(r) == multiset(s) + multiset{m}
  {
    if s == [] || s[0].offset <= m.offset then [m] + s
    else
      assert s == [s[0]] + s[1..];
      [s[0]] + Insert(m, s[1..])
  }

  /** A match in front of a descending sequence whose offsets are at most
      its own gives a descending sequence. */
  lemma ConsDescending(x: Match, t: seq<Match>)
    requires Descending(t)
    requires forall y :: y in t ==> y.offset <= x.offset
    ensures Descending([x] + t)
  {
    var r := [x] + t;
    forall i, j | 0 <= i < j < |r| ensures r[j].offset <= r[i].offset {
      assert r[j] == t[j - 1];
      if i > 0 {
        assert r[i] == t[i - 1];
      }
    }
  }

  /** The same with strictly smaller offsets. */
  lemma ConsStrict(x: Match, t: seq<Match>)
    requires StrictlyDescending(t)
    requires forall y :: y in t ==> y.offset < x.offset
    ensures StrictlyDescending([x] + t)
  {
    var r := [x] + t;
    forall i, j | 0 <= i < j < |r| ensures r[j].offset < r[i].offset {
      assert r[j] == t[j - 1];
      if i > 0 {
        assert r[i] == t[i - 1];
      }
    }
  }

  /** Inserting into a descending sequence keeps it descending. */
  lemma {:induction false} InsertDescending(m: Match, s: seq<Match>)
    requires Descending(s)
    ensures Descending(Insert(m, s))
  {
    if s != [] && s[0].offset > m.offset {
      var tail := Insert(m, s[1..]);
      assert Descending(s[1..]) by {
        forall i, j | 0 <= i < j < |s[1..]| ensures s[1..][j].offset <= s[1..][i].offset {
          assert s[1..][i] == s[i + 1] && s[1..][j] == s[j + 1];
        }
      }
      InsertDescending(m, s[1..]);
      forall x | x in tail ensures x.offset <= s[0].offset {
        assert x in multiset(tail);
        if x != m {
          var k :| 0 <= k < |s[1..]| && s[1..][k] == x;
          assert x == s[k + 1];
        }
      }
      ConsDescending(s[0], tail);
    }
  }

  /** Inserting a match with a new offset into a strictly descending
      sequence keeps it strictly descending. */
  lemma {:induction false} InsertStrict(m: Match, s: seq<Match>)
    requires StrictlyDescending(s)
    requires forall x :: x in s ==> x.offset != m.offset
    ensures StrictlyDescending(Insert(m, s))
  {
    if s != [] && s[0].offset > m.offset {
      var tail := Insert(m, s[1..]);
      assert StrictlyDescending(s[1..]) by {
        forall i, j | 0 <= i < j < |s[1..]| ensures s[1..][j].offset < s[1..][i].offset {
          assert s[1..][i] == s[i + 1] && s[1..][j] == s[j + 1];
        }
      }
      InsertStrict(m, s[1..]);
      forall x | x in tail ensures x.offset < s[0].offset {
        assert x in multiset(tail);
        if x != m {
          var k :| 0 <= k < |s[1..]| && s[1..][k] == x;
          assert x == s[k + 1];
        }
      }
      ConsStrict(s[0], tail);
    }
  }

  /** The matches sorted by descending offset, ties in their input order:
      the order `sorted(matches, key=offset, reverse=True)` produces. */
  function SortByOffsetDesc(ms: seq<Match>): (r: seq<Match>)
    ensures multiset(r) == multiset(ms)
    ensures Descending(r)
  {
    if ms == [] then []
    else
      assert ms == [ms[0]] + ms[1..];
      InsertDescending(ms[0], SortByOffsetDesc(ms[1..]));
      Insert(ms[0], SortByOffsetDesc(ms[1..]))
  }

  /** Matches that report offset `k`. */
  function AtOffset(k: nat): Match -> bool
  {
    (m: Match) => m.offset == k
  }

  /** A match with a larger offset stays in front of an inserted one. */
  lemma InsertBehind(m: Match, x: Match, s: seq<Match>)
    requires m.offset < x.offset
    ensures Insert(m, [x] + s) == [x] + Insert(m, s)
  {
    assert ([x] + s)[1..] == s;
  }

  lemma FilterInsertBehind(m: Match, x: Match, s: seq<Match>, p: Match -> bool)
    requires m.offset < x.offset
    ensures p(x) ==> Filter(Insert(m, [x] + s), p) == [x] + Filter(Insert(m, s), p)
    ensures !p(x) ==> Filter(Insert(m, [x] + s), p) == Filter(Insert(m, s), p)
  {
    InsertBehind(m, x, s);
    FilterCons(x, Insert(m, s), p);
  }

  lemma InsertBehindFiltered(m: Match, x: Match, s: seq<Match>, p: Match -> bool)
    requires m.offset < x.offset && p(x)
    ensures Insert(m, Filter([x] + s, p)) == [x] + Insert(m, Filter(s, p))
  {
    FilterCons(x, s, p);
    InsertBehind(m, x, Filter(s, p));
  }

  /** `FilterInsert` when `m` goes in front. */
  lemma FilterInsertFront(m: Match, s: seq<Match>, p: Match -> bool)
    requires Descending(s)
    requires s != [] && s[0].offset <= m.offset
    ensures p(m) ==> Filter(Insert(m, s), p) == Insert(m, Filter(s, p))
    ensures !p(m) ==> Filter(Insert(m, s), p) == Filter(s, p)
  {
    assert Insert(m, s) == [m] + s;
    FilterCons(m, s, p);
    var fs := Filter(s, p);
    if fs != [] {
      assert fs[0] in s;
      var i :| 0 <= i < |s| && s[i] == fs[0];
      assert fs[0].offset <= s[0].offset;
    }
  }

  /** `FilterInsert` when `m` goes behind the first match `x`, given the
      property for the rest. */
  lemma FilterInsertDeep(m: Match, x: Match, rest: seq<Match>, p: Match -> bool)
    requires m.offset < x.offset
    requires p(m) ==> Filter(Insert(m, rest), p) == Insert(m, Filter(rest, p))
    requires !p(m) ==> Filter(Insert(m, rest), p) == Filter(rest, p)
    ensures p(m) ==> Filter(Insert(m, [x] + rest), p) == Insert(m, Filter([x] + rest, p))
    ensures !p(m) ==> Filter(Insert(m, [x] + rest), p) == Filter([x] + rest, p)
  {
    FilterInsertBehind(m, x, rest, p);
    FilterCons(x, rest, p);
    if p(m) && p(x) {
      InsertBehindFiltered(m, x, rest, p);
    }
  }

  /** Filtering a sorted sequence commutes with inserting into it. */
  lemma {:induction false} FilterInsert(m: Match, s: seq<Match>, p: Match -> bool)
    requires Descending(s)
    ensures p(m) ==> Filter(Insert(m, s), p) == Insert(m, Filter(s, p))
    ensures !p(m) ==> Filter(Insert(m, s), p) == Filter(s, p)
  {
    if s == [] {
      FilterCons(m, [], p);
    } else if s[0].offset <= m.offset {
      FilterInsertFront(m, s, p);
    } else {
      var x, rest := s[0], s[1..];
      assert s == [x] + rest;
      assert Descending(rest) by {
        forall i, j | 0 <= i < j < |rest| ensures rest[j].offset <= rest[i].offset {
          assert rest[i] == s[i + 1] && rest[j] == s[j + 1];
        }
      }
      FilterInsert(m, rest, p);
      FilterInsertDeep(m, x, rest, p);
    }
  }

  lemma SortCons(x: Match, s: seq<Match>)
    ensures SortByOffsetDesc([x] + s) == Insert(x, SortByOffsetDesc(s))
  {
    assert ([x] + s)[1..] == s;
  }

  /** Sorting the matches that satisfy `p` gives the sorted sequence with
      the others removed. */
  lemma {:induction false} SortFilter(ms: seq<Match>, p: Match -> bool)
    ensures Filter(SortByOffsetDesc(ms), p) == SortByOffsetDesc(Filter(ms, p))
  {
    if ms != [] {
      var x, rest := ms[0], ms[1..];
      assert ms == [x] + rest;
      SortFilter(rest, p);
      SortCons(x, rest);
      FilterInsert(x, SortByOffsetDesc(rest), p);
      FilterCons(x, rest, p);
      if p(x) {
        SortCons(x, Filter(rest, p));
      }
    }
  }

  /** Matches that all report the same offset are left in their order. */
  lemma {:induction false} SortOfEqualOffsets(s: seq<Match>, k: nat)
    requires forall x :: x in s ==> x.offset == k
    ensures SortByOffsetDesc(s) == s
  {
    if s != [] {
      SortOfEqualOffsets(s[1..], k);
      assert s == [s[0]] + s[1..];
    }
  }

  /** The sort is stable: for every offset, the matches reporting it come
      out in the order they went in. */
  lemma SortIsStable(ms: seq<Match>, k: nat)
    ensures Filter(SortByOffsetDesc(ms), AtOffset(k)) == Filter(ms, AtOffset(k))
  {
    SortFilter(ms, AtOffset(k));
    SortOfEqualOffsets(Filter(ms, AtOffset(k)), k);
  }

  /** With distinct offsets the sorted order is strict. */
  lemma {:induction false} SortStrict(ms: seq<Match>)
    requires DistinctOffsets(ms)
    ensures StrictlyDescending(SortByOffsetDesc(ms))
  {
    if ms != [] {
      SortStrict(ms[1..]);
      var rest := SortByOffsetDesc(ms[1..]);
      forall x | x in rest ensures x.offset != ms[0].offset {
        assert x in multiset(rest);
        var j :| 0 <= j < |ms[1..]| && ms[1..][j] == x;
        assert ms[j + 1] == x;
      }
      InsertStrict(ms[0], rest);
    }
  }

  /** Removing equal first elements from sequences with the same elements
      leaves sequences with the same elements. */
  lemma MultisetTail(a: seq<Match>, b: seq<Match>)
    requires a != [] && b != [] && a[0] == b[0]
    requires multiset(a) == multiset(b)
    ensures multiset(a[1..]) == multiset(b[1..])
  {
    assert a == [a[0]] + a[1..];
    assert b == [b[0]] + b[1..];
    calc {
      multiset(a[1..]);
      multiset(a) - multiset{a[0]};
      multiset(b) - multiset{b[0]};
      multiset(b[1..]);
    }
  }

  /** Two such arrangements start with the same match: the first match of
      `a` has the largest offset, and only it has that offset. */
  lemma SameFirst(a: seq<Match>, b: seq<Match>)
    requires StrictlyDescending(a) && Descending(b)
    requires multiset(a) == multiset(b) && a != []
    ensures b != [] && a[0] == b[0]
  {
    assert a[0] in multiset(b);
    var j :| 0 <= j < |b| && b[j] == a[0];
    assert b[0] in multiset(a);
    var i :| 0 <= i < |a| && a[i] == b[0];
    assert i == 0;
  }

  /** Dropping the first match keeps either order. */
  lemma TailsDescending(a: seq<Match>, b: seq<Match>)
    requires StrictlyDescending(a) && Descending(b) && a != [] && b != []
    ensures StrictlyDescending(a[1..]) && Descending(b[1..])
  {
    forall i, j | 0 <= i < j < |a| - 1 ensures a[1..][j].offset < a[1..][i].offset {
      assert a[1..][i] == a[i + 1] && a[1..][j] == a[j + 1];
    }
    forall i, j | 0 <= i < j < |b| - 1 ensures b[1..][j].offset <= b[1..][i].offset {
      assert b[1..][i] == b[i + 1] && b[1..][j] == b[j + 1];
    }
  }

  /** A strictly descending arrangement is the only descending one: any
      descending sequence with the same elements equals it. */
  lemma {:induction false} StrictArrangementUnique(a: seq<Match>, b: seq<Match>)
    requires StrictlyDescending(a) && Descending(b)
    requires multiset(a) == multiset(b)
    ensures a == b
    decreases |a|
  {
    if a == [] {
      assert |b| == |multiset(b)| == 0;
    } else {
      SameFirst(a, b);
      MultisetTail(a, b);
      TailsDescending(a, b);
      StrictArrangementUnique(a[1..], b[1..]);
      assert a == [a[0]] + a[1..] && b == [b[0]] + b[1..];
    }
  }

  /** With distinct offsets, the sorted order does not depend on the order
      in which the matches were reported. */
  lemma SortIgnoresInputOrder(ms: seq<Match>, ms': seq<Match>)
    requires DistinctOffsets(ms)
    requires multiset(ms) == multiset(ms')
    ensures SortByOffsetDesc(ms) == SortByOffsetDesc(ms')
  {
    SortStrict(ms);
    StrictArrangementUnique(SortByOffsetDesc(ms), SortByOffsetDesc(ms'));
  }
}
