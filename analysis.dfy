/** The report for one text: the engine's matches bucketed by category,
    the per-category counts, the total, and the corrected text. The
    engine's answer for the text is a parameter. */
module AnalysisReport {
  import opened Matches
  import opened IssueCategorizer
  import opened TextCorrector

  /** One entry of a category's suggestion list: the match's fields with
      the category it was put in. */
  datatype Issue = Issue(
    message: string,
    replacements: seq<string>,
    context: string,
    ruleId: string,
    category: Category,
    offset: nat,
    length: nat)

  datatype AnalysisResult = AnalysisResult(
    totalIssues: nat,
    categories: map<Category, nat>,
    suggestions: map<Category, seq<Issue>>,
    originalText: string,
    correctedText: string)

  const AllCategories: set<Category> := {Grammar, Spelling, Punctuation, Style, Other}

  /** The suggestion-list entry recorded for a match. */
  function IssueOf(m: Match): Issue
  {
    Issue(m.message, m.replacements, m.context, m.ruleId,
          CategorizeIssue(m.ruleId), m.offset, m.errorLength)
  }

  /** The entries of all matches, in report order. */
  function Issues(ms: seq<Match>): (r: seq<Issue>)
    ensures |r| == |ms|
    ensures forall k :: 0 <= k < |ms| ==> r[k] == IssueOf(ms[k])
  {
    if ms == [] then [] else Issues(ms[..|ms| - 1]) + [IssueOf(ms[|ms| - 1])]
  }

  /** The entries of the matches in category `c`, in report order. */
  function Bucket(ms: seq<Match>, c: Category): seq<Issue>
  {
    if ms == [] then []
    else
      var last := ms[|ms| - 1];
      Bucket(ms[..|ms| - 1], c) + (if CategorizeIssue(last.ruleId) == c then [IssueOf(last)] else [])
  }

  /** The five suggestion lists. */
  function Buckets(ms: seq<Match>): map<Category, seq<Issue>>
  {
    map c | c in AllCategories :: Bucket(ms, c)
  }

  /** The length of each suggestion list. */
  function Counts(b: map<Category, seq<Issue>>): map<Category, nat>
  {
    map c | c in b :: |b[c]|
  }

  /** The report for `text` when the engine answered `ms`. */
  function Analysis(text: string, ms: seq<Match>): AnalysisResult
  {
    var b := Buckets(ms);
    AnalysisResult(|ms|, Counts(b), b, text, Corrected(text, ms))
  }

  /** The sum of the five per-category counts of a report. */
  function CountSum(counts: map<Category, nat>): nat
    requires AllCategories <= counts.Keys
  {
    counts[Grammar] + counts[Spelling] + counts[Punctuation] + counts[Style] + counts[Other]
  }

  /** Filing the match at position `i` adds its entry to the list of its
      own category and to no other. */
  lemma BucketStep(ms: seq<Match>, i: nat, c: Category)
    requires i < |ms|
    ensures CategorizeIssue(ms[i].ruleId) == c ==> Bucket(ms[..i + 1], c) == Bucket(ms[..i], c) + [IssueOf(ms[i])]
    ensures CategorizeIssue(ms[i].ruleId) != c ==> Bucket(ms[..i + 1], c) == Bucket(ms[..i], c)
  {
    assert ms[..i + 1][..i] == ms[..i];
  }

  /** Lists that agree with `Bucket` on every category are the five lists. */
  lemma BucketsByCategory(ms: seq<Match>, b: map<Category, seq<Issue>>)
    requires b.Keys == AllCategories
    requires forall c :: c in b ==> b[c] == Bucket(ms, c)
    ensures b == Buckets(ms)
  {
  }

  /** Every match is counted in exactly one category: the five counts add
      up to the number of matches. */
  lemma {:induction false} BucketSizesAddUp(ms: seq<Match>)
    ensures |Bucket(ms, Grammar)| + |Bucket(ms, Spelling)| + |Bucket(ms, Punctuation)|
            + |Bucket(ms, Style)| + |Bucket(ms, Other)| == |ms|
    decreases |ms|
  {
    if ms != [] {
      BucketSizesAddUp(ms[..|ms| - 1]);
    }
  }

  /** A list holds only entries of its own category. */
  lemma {:induction false} BucketHoldsItsCategory(ms: seq<Match>, c: Category)
    ensures forall i :: i in Bucket(ms, c) ==> i.category == c
    decreases |ms|
  {
    if ms != [] {
      BucketHoldsItsCategory(ms[..|ms| - 1], c);
    }
  }

  /** An entry occurs in its category's list as often as among the
      entries of all matches. */
  lemma {:induction false} BucketCount(ms: seq<Match>, v: Issue)
    ensures multiset(Bucket(ms, v.category))[v] == multiset(Issues(ms))[v]
    decreases |ms|
  {
    if ms != [] {
      var init, last := ms[..|ms| - 1], ms[|ms| - 1];
      BucketCount(init, v);
      assert Issues(ms) == Issues(init) + [IssueOf(last)];
      if IssueOf(last) == v {
        assert CategorizeIssue(last.ruleId) == v.category;
      }
    }
  }

  /** The five lists of `ms` put together. */
  function Filed(ms: seq<Match>): multiset<Issue>
  {
    multiset(Bucket(ms, Grammar)) + multiset(Bucket(ms, Spelling))
    + multiset(Bucket(ms, Punctuation)) + multiset(Bucket(ms, Style))
    + multiset(Bucket(ms, Other))
  }

  /** An entry occurs in the five lists together as often as among the
      entries of all matches. */
  lemma FiledCount(ms: seq<Match>, v: Issue)
    ensures Filed(ms)[v] == multiset(Issues(ms))[v]
  {
    BucketShare(ms, v, Grammar);
    BucketShare(ms, v, Spelling);
    BucketShare(ms, v, Punctuation);
    BucketShare(ms, v, Style);
    BucketShare(ms, v, Other);
    OneOfFive(v, multiset(Bucket(ms, Grammar)), multiset(Bucket(ms, Spelling)),
              multiset(Bucket(ms, Punctuation)), multiset(Bucket(ms, Style)),
              multiset(Bucket(ms, Other)), multiset(Issues(ms))[v]);
  }

  /** How often an entry occurs in one list: as among all entries in its
      own category's list, never in another. */
  lemma BucketShare(ms: seq<Match>, v: Issue, c: Category)
    ensures c == v.category ==> multiset(Bucket(ms, c))[v] == multiset(Issues(ms))[v]
    ensures c != v.category ==> multiset(Bucket(ms, c))[v] == 0
  {
    BucketCount(ms, v);
    NotFiledElsewhere(ms, v, c);
  }

  /** Five multisets of which only the one for `v`'s category holds `v`. */
  lemma OneOfFive(v: Issue, g: multiset<Issue>, s: multiset<Issue>, p: multiset<Issue>,
                  st: multiset<Issue>, o: multiset<Issue>, n: nat)
    requires v.category == Grammar ==> g[v] == n
    requires v.category != Grammar ==> g[v] == 0
    requires v.category == Spelling ==> s[v] == n
    requires v.category != Spelling ==> s[v] == 0
    requires v.category == Punctuation ==> p[v] == n
    requires v.category != Punctuation ==> p[v] == 0
    requires v.category == Style ==> st[v] == n
    requires v.category != Style ==> st[v] == 0
    requires v.category == Other ==> o[v] == n
    requires v.category != Other ==> o[v] == 0
    ensures (g + s + p + st + o)[v] == n
  {
  }

  /** No list holds an entry of another category. */
  lemma NotFiledElsewhere(ms: seq<Match>, v: Issue, c: Category)
    ensures c != v.category ==> multiset(Bucket(ms, c))[v] == 0
  {
    BucketHoldsItsCategory(ms, c);
  }

  /** Every match's entry lands in exactly one list: the five lists
      together hold the entries of all matches, each once. */
  lemma BucketsPartitionIssues(ms: seq<Match>)
    ensures Filed(ms) == multiset(Issues(ms))
  {
    forall v: Issue ensures Filed(ms)[v] == multiset(Issues(ms))[v] {
      FiledCount(ms, v);
    }
  }

  /** Every match's entry is in the list of its own category. */
  lemma {:induction false} FiledUnderItsCategory(ms: seq<Match>, k: nat)
    requires k < |ms|
    ensures IssueOf(ms[k]) in Bucket(ms, CategorizeIssue(ms[k].ruleId))
    decreases |ms|
  {
    if k < |ms| - 1 {
      FiledUnderItsCategory(ms[..|ms| - 1], k);
    }
  }

  /** In the report, each match's entry appears under its category, and
      every entry under a category belongs to that category. */
  lemma ReportFilesEachMatch(text: string, ms: seq<Match>, k: nat, c: Category)
    requires k < |ms|
    ensures IssueOf(ms[k]) in Analysis(text, ms).suggestions[CategorizeIssue(ms[k].ruleId)]
    ensures forall i :: i in Analysis(text, ms).suggestions[c] ==> i.category == c
  {
    FiledUnderItsCategory(ms, k);
    BucketHoldsItsCategory(ms, c);
  }

  /** The report's total equals the sum of its per-category counts. */
  lemma TotalIsSumOfCounts(text: string, ms: seq<Match>)
    ensures Analysis(text, ms).categories.Keys == Analysis(text, ms).suggestions.Keys == AllCategories
    ensures Analysis(text, ms).totalIssues == CountSum(Analysis(text, ms).categories)
  {
    BucketSizesAddUp(ms);
  }

  /** A text the engine finds nothing in: no issues, every count zero, and
      the corrected text is the text itself. */
  lemma NoMatchesReport(text: string)
    ensures Analysis(text, []).totalIssues == 0
    ensures forall c :: c in AllCategories ==> Analysis(text, []).categories[c] == 0
    ensures Analysis(text, []).correctedText == Analysis(text, []).originalText == text
  {
    NothingToApply(text, []);
  }

  /** The analysis loop: each match's entry is appended to the list of its
      category, then the counts, the total and the corrected text are
      derived. */
  method AnalyzeText(text: string, matches: seq<Match>) returns (result: AnalysisResult)
    ensures result == Analysis(text, matches)
    ensures result.categories.Keys == result.suggestions.Keys == AllCategories
    ensures result.totalIssues == |matches| == CountSum(result.categories)
    ensures result.originalText == text
    ensures result.correctedText == Corrected(text, matches)
  {
    var buckets: map<Category, seq<Issue>> :=
      map[Grammar := [], Spelling := [], Punctuation := [], Style := [], Other := []];
    var i := 0;
    while i < |matches|
      invariant i <= |matches|
      invariant buckets.Keys == AllCategories
      invariant forall c :: c in buckets ==> buckets[c] == Bucket(matches[..i], c)
    {
      var m := matches[i];
      var category := CategorizeIssue(m.ruleId);
      buckets := buckets[category := buckets[category] + [IssueOf(m)]];
      forall c | c in buckets ensures buckets[c] == Bucket(matches[..i + 1], c) {
        BucketStep(matches, i, c);
      }
      i := i + 1;
    }
    assert matches[..i] == matches;
    BucketsByCategory(matches, buckets);
    var corrected := ApplyCorrections(text, matches);
    result := AnalysisResult(|matches|, Counts(buckets), buckets, text, corrected);
    TotalIsSumOfCounts(text, matches);
  }
}
