/** Sorting a reported issue into one of five coarse categories by looking
    for keywords in the identifier of the rule that reported it. */
module IssueCategorizer {

  datatype Category = Grammar | Spelling | Punctuation | Style | Other

  /** The five keys of the report's per-category dictionaries. */
  const Labels: set<string> := {"Grammar", "Spelling", "Punctuation", "Style", "Other"}

  /** The dictionary key the report uses for a category. */
  function Label(c: Category): (s: string)
    ensures s in Labels
  {
    match c
    case Grammar => "Grammar"
    case Spelling => "Spelling"
    case Punctuation => "Punctuation"
    case Style => "Style"
    case Other => "Other"
  }

  /** Distinct categories have distinct keys, so keying the report by
      `Category` or by its label is the same. */
  lemma LabelsDistinct(c: Category, d: Category)
    ensures Label(c) == Label(d) <==> c == d
  {
  }

  /** A rule identifier is always given one of exactly five labels. */
  lemma OneOfFiveLabels(ruleId: string)
    ensures Label(CategorizeIssue(ruleId)) in Labels
    ensures |Labels| == 5
  {
    assert "Grammar" != "Spelling" && "Punctuation" != "Style";
  }

  predicate IsUpper(ch: char)
  {
    'A' <= ch <= 'Z'
  }

  /** Lower-casing of one character, for the ASCII letters. */
  function LowerChar(ch: char): (r: char)
    ensures !IsUpper(r)
    ensures IsUpper(ch) ==> r as int == ch as int + 32
    ensures !IsUpper(ch) ==> r == ch
  {
    if IsUpper(ch) then (ch as int + 32) as char else ch
  }

  /** The string with every ASCII capital replaced by its small letter. */
  function Lower(s: string): (r: string)
    ensures |r| == |s|
    ensures forall i :: 0 <= i < |s| ==> r[i] == LowerChar(s[i])
  {
    if s == [] then [] else [LowerChar(s[0])] + Lower(s[1..])
  }

  /** Lower-casing twice is lower-casing once. */
  lemma LowerIdempotent(s: string)
    ensures Lower(Lower(s)) == Lower(s)
  {
  }

  /** Substring test: `sub` occurs in `s` starting at some position. */
  function Contains(s: string, sub: string): bool
    decreases |s|
  {
    |sub| <= |s| && (s[..|sub|] == sub || Contains(s[1..], sub))
  }

  /** `sub` occurs in `s` starting at position `i`. */
  predicate OccursAt(s: string, sub: string, i: int)
  {
    0 <= i <= |s| - |sub| && s[i..i + |sub|] == sub
  }

  /** `Contains` agrees with the definition of an occurrence by position. */
  lemma {:induction false} ContainsIffOccurs(s: string, sub: string)
    ensures Contains(s, sub) <==> exists i :: OccursAt(s, sub, i)
    decreases |s|
  {
    if Contains(s, sub) {
      if s[..|sub|] == sub {
        assert OccursAt(s, sub, 0);
      } else {
        ContainsIffOccurs(s[1..], sub);
        var i :| OccursAt(s[1..], sub, i);
        assert s[i + 1..i + 1 + |sub|] == s[1..][i..i + |sub|];
        assert OccursAt(s, sub, i + 1);
      }
    }
    if exists i :: OccursAt(s, sub, i) {
      var i :| OccursAt(s, sub, i);
      if i > 0 {
        assert s[1..][i - 1..i - 1 + |sub|] == s[i..i + |sub|];
        assert OccursAt(s[1..], sub, i - 1);
        ContainsIffOccurs(s[1..], sub);
      }
    }
  }

  /** Some keyword of the list occurs in `s`. */
  predicate ContainsAny(s: string, keywords: seq<string>)
  {
    exists k :: k in keywords && Contains(s, k)
  }

  const GrammarKeywords: seq<string> := ["grammar", "verb", "tense"]
  const SpellingKeywords: seq<string> := ["spell", "typo"]
  const PunctuationKeywords: seq<string> := ["punct", "comma", "apos"]
  const StyleKeywords: seq<string> := ["style", "word_choice"]

  /** The keyword lists in the order they are tried, each with the
      category it stands for. */
  const Groups: seq<(Category, seq<string>)> :=
    [(Grammar, GrammarKeywords), (Spelling, SpellingKeywords),
     (Punctuation, PunctuationKeywords), (Style, StyleKeywords)]

  /** The category of a rule identifier: the first keyword list, in the
      order Grammar, Spelling, Punctuation, Style, with a keyword occurring
      in the lower-cased identifier; Other when none has. */
  function CategorizeIssue(ruleId: string): Category
  {
    var id := Lower(ruleId);
    if ContainsAny(id, GrammarKeywords) then Grammar
    else if ContainsAny(id, SpellingKeywords) then Spelling
    else if ContainsAny(id, PunctuationKeywords) then Punctuation
    else if ContainsAny(id, StyleKeywords) then Style
    else Other
  }

  lemma GroupsInOrder()
    ensures |Groups| == 4
    ensures Groups[0] == (Grammar, GrammarKeywords)
    ensures Groups[1] == (Spelling, SpellingKeywords)
    ensures Groups[2] == (Punctuation, PunctuationKeywords)
    ensures Groups[3] == (Style, StyleKeywords)
  {
  }

  /** The category of an identifier is the category of the earliest group
      in `Groups` with a keyword occurring in it: a group's category is
      returned exactly when that group matches and no earlier group does. */
  lemma EarliestGroupWins(ruleId: string, k: nat)
    requires k < |Groups|
    ensures CategorizeIssue(ruleId) == Groups[k].0 <==>
            ContainsAny(Lower(ruleId), Groups[k].1) &&
            forall j :: 0 <= j < k ==> !ContainsAny(Lower(ruleId), Groups[j].1)
  {
    GroupsInOrder();
  }

  /** Other is returned exactly when no group matches. */
  lemma OtherIffNoKeyword(ruleId: string)
    ensures CategorizeIssue(ruleId) == Other <==>
            forall j :: 0 <= j < |Groups| ==> !ContainsAny(Lower(ruleId), Groups[j].1)
  {
    GroupsInOrder();
  }

  /** An identifier containing a Grammar keyword, in any case, is Grammar
      whatever other keywords it contains. */
  lemma GrammarKeywordWins(ruleId: string, keyword: string)
    requires keyword in GrammarKeywords && Contains(Lower(ruleId), keyword)
    ensures CategorizeIssue(ruleId) == Grammar
  {
  }

  /** "spell" in any case gives Spelling, provided no Grammar keyword occurs. */
  lemma SpellWithoutGrammarIsSpelling(ruleId: string)
    requires Contains(Lower(ruleId), "spell")
    requires !ContainsAny(Lower(ruleId), GrammarKeywords)
    ensures CategorizeIssue(ruleId) == Spelling
  {
  }

  /** Categorisation ignores case: lower-casing the identifier first does
      not change its category. */
  lemma IgnoresCase(ruleId: string)
    ensures CategorizeIssue(Lower(ruleId)) == CategorizeIssue(ruleId)
  {
    LowerIdempotent(ruleId);
  }

  /** Identifiers that differ only in the case of their letters fall in the
      same category. */
  lemma SameCategoryUpToCase(r1: string, r2: string)
    requires Lower(r1) == Lower(r2)
    ensures CategorizeIssue(r1) == CategorizeIssue(r2)
  {
  }

  /** A Grammar and a Spelling keyword together give Grammar. */
  lemma GrammarBeforeSpellingExample(id: string)
    requires id == "grammar_spell_x"
    ensures CategorizeIssue(id) == Grammar
  {
    var low := Lower(id);
    assert low[0] == 'g' && low[1] == 'r' && low[2] == 'a' && low[3] == 'm';
    assert low[4] == 'm' && low[5] == 'a' && low[6] == 'r';
    assert low[..7] == "grammar";
    GrammarKeywordWins(id, "grammar");
  }

  /** Upper-case identifiers are categorised by their lower-case form:
      "VERB_SPELLING" holds "verb" and "spell" and is Grammar, not Spelling. */
  lemma VerbSpellingExample(id: string)
    requires id == "VERB_SPELLING"
    ensures CategorizeIssue(id) == Grammar
  {
    var low := Lower(id);
    assert low[0] == 'v' && low[1] == 'e' && low[2] == 'r' && low[3] == 'b';
    assert low[..4] == "verb";
    GrammarKeywordWins(id, "verb");
  }
}
