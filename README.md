# Grammar face-off: issue categorisation, text correction and the report

`grammar_faceoff.py` sends a text to the LanguageTool grammar engine and
turns the engine's answer, a list of matches, into a report. This project
models what the script itself does with that answer:

- **Categorisation** (`GrammarChecker._categorize_issue`). A match's rule
  identifier is lower-cased. Four keyword lists are then tried in the order
  Grammar, Spelling, Punctuation, Style. The first list with a keyword
  occurring in the identifier gives the category. If none occurs, the
  category is Other. Module `IssueCategorizer`, pure functions and lemmas.
- **Correction** (`GrammarChecker._apply_corrections`). The matches are
  sorted by descending offset with Python's stable sort. For every match
  that has a candidate fix, its first fix is spliced over the span
  `[offset, offset + errorLength)` of the text built so far, using Python's
  clamped slicing.
  - Module `OffsetSort` models the sort as a function, with its stability
    and uniqueness proved.
  - Module `TextCorrector` models the loop as a method, proved against the
    fold `Corrected`. The fold is then related to an independent
    definition, `Woven`: every fix placed at its original offset in the
    original text.
- **The report** (the bucketing and counting in
  `GrammarChecker.analyze_text`). Module `AnalysisReport` has the loop that
  files each match's entry under its category, proved against the
  specification `Analysis`. Lemmas state:
  - the five lists partition the matches;
  - the counts add up to the total;
  - the report's original and corrected texts are what the source says.

The engine's answer for the text is a parameter. Module `Matches` holds the
match record the engine reports, with two sequence helpers.

## Model

| member | source | states |
|---|---|---|
| IssueCategorizer.Label | grammar_faceoff.py:16-22 | the dictionary key of a category is one of the five labels |
| IssueCategorizer.LabelsDistinct | grammar_faceoff.py:16-22 | two categories have the same label exactly when they are the same category, so keying the report by category is keying it by label |
| IssueCategorizer.OneOfFiveLabels | grammar_faceoff.py:49-62 | every rule identifier gets one of exactly five labels |
| IssueCategorizer.LowerChar | grammar_faceoff.py:51 | a capital letter becomes its small letter (code point plus 32); every other character is unchanged; the result is never a capital |
| IssueCategorizer.Lower | grammar_faceoff.py:51 | lower-casing keeps the length and lower-cases each character in place |
| IssueCategorizer.LowerIdempotent | grammar_faceoff.py:51 | lower-casing an already lower-cased identifier changes nothing |
| IssueCategorizer.ContainsIffOccurs | grammar_faceoff.py:53 | the keyword test `x in rule_id` holds exactly when the keyword occurs at some position of the identifier |
| IssueCategorizer.GroupsInOrder | grammar_faceoff.py:53-60 | the keyword lists are tried in the order Grammar, Spelling, Punctuation, Style, with the source's keywords |
| IssueCategorizer.EarliestGroupWins | grammar_faceoff.py:53-60 | a list's category is returned exactly when that list has a keyword in the lower-cased identifier and no earlier list does |
| IssueCategorizer.OtherIffNoKeyword | grammar_faceoff.py:61-62 | Other is returned exactly when no keyword of any list occurs |
| IssueCategorizer.GrammarKeywordWins | grammar_faceoff.py:53-54 | an identifier containing 'grammar', 'verb' or 'tense' in any case is Grammar, whatever else it contains |
| IssueCategorizer.SpellWithoutGrammarIsSpelling | grammar_faceoff.py:55-56 | 'spell' in any case gives Spelling provided no Grammar keyword occurs |
| IssueCategorizer.IgnoresCase | grammar_faceoff.py:51 | the category of an identifier equals the category of its lower-cased form |
| IssueCategorizer.SameCategoryUpToCase | grammar_faceoff.py:51 | identifiers equal up to the case of their letters get the same category |
| IssueCategorizer.GrammarBeforeSpellingExample | grammar_faceoff.py:53-56 | "grammar_spell_x" is Grammar, not Spelling |
| IssueCategorizer.VerbSpellingExample | grammar_faceoff.py:51-56 | "VERB_SPELLING" is Grammar: its lower-cased form holds "verb", which is tried before "spell" |
| OffsetSort.Insert | grammar_faceoff.py:67 | inserting a match adds exactly that match to the sequence's elements |
| OffsetSort.InsertDescending | grammar_faceoff.py:67 | inserting into a descending sequence keeps it descending |
| OffsetSort.InsertStrict | grammar_faceoff.py:67 | inserting a match with a new offset into a strictly descending sequence keeps it strictly descending |
| OffsetSort.SortByOffsetDesc | grammar_faceoff.py:67 | the sorted sequence is a permutation of the matches with offsets in descending order |
| OffsetSort.FilterInsert | grammar_faceoff.py:67 | filtering a descending sequence commutes with inserting into it |
| OffsetSort.SortFilter | grammar_faceoff.py:67 | sorting and then keeping the matches that pass a test equals keeping them and then sorting |
| OffsetSort.SortIsStable | grammar_faceoff.py:67 | the sort is stable: for every offset, the matches at that offset leave in the order they came in |
| OffsetSort.SortStrict | grammar_faceoff.py:67 | with distinct offsets the sorted order is strictly descending |
| OffsetSort.StrictArrangementUnique | grammar_faceoff.py:67 | a strictly descending arrangement is the only descending arrangement of its elements |
| OffsetSort.SortIgnoresInputOrder | grammar_faceoff.py:67 | with distinct offsets, the sorted order does not depend on the order the matches were reported in |
| TextCorrector.Clamp | grammar_faceoff.py:75 | a slice bound is kept when inside the string and replaced by the string's length when past it |
| TextCorrector.Splice | grammar_faceoff.py:73-75 | the splice never fails; the result is the text before the clamped start, then the fix, then the text from the clamped end, with the matching length |
| TextCorrector.ApplyCorrections | grammar_faceoff.py:64-77 | the correction loop over the sorted matches returns the fold `Corrected` of the matches over the text |
| TextCorrector.ApplyNext | grammar_faceoff.py:70-75 | applying the sorted matches from one position on is applying the match there and then the rest |
| TextCorrector.ApplyOneSlices | grammar_faceoff.py:71-75 | a match with a candidate fix replaces the clamped slice `[offset, offset + errorLength)` by its first fix |
| TextCorrector.SkippedMatchesChangeNothing | grammar_faceoff.py:71 | matches without a candidate fix leave the text as it is, wherever they come in the order |
| TextCorrector.CorrectedIgnoresSkippedMatches | grammar_faceoff.py:67-71 | the corrected text is the same with the matches without a candidate fix removed |
| TextCorrector.NothingToApply | grammar_faceoff.py:69-77 | with no matches, or only matches without a candidate fix, the corrected text is the original |
| TextCorrector.OutOfRangeAppends | grammar_faceoff.py:73-75 | a match at or past the end of the text appends its fix |
| TextCorrector.SingleMatch | grammar_faceoff.py:73-75 | one match inside the text: the span is replaced by the first fix and the length changes by the difference |
| TextCorrector.ApplyOneInBounds | grammar_faceoff.py:71-75 | a match inside the text is the text before its span, its fix (or the span itself when it has none), and the text after |
| TextCorrector.ApplyInOrderToPrefix | grammar_faceoff.py:70-75 | matches applied right to left inside a prefix of the text leave the rest of the text as it is |
| TextCorrector.WovenLast | grammar_faceoff.py:66-75 | weaving spans left to right is weaving those before the last into the text before it, then the last fix and the rest of the text |
| TextCorrector.RightToLeftIsWoven | grammar_faceoff.py:66-75 | applying spans that fit right to left equals placing every fix at its original offset of the original text |
| TextCorrector.SortedApart | grammar_faceoff.py:66-67 | pairwise disjoint matches come out of the sort right to left, each ending before the previous one begins |
| TextCorrector.CorrectedIsWoven | grammar_faceoff.py:66-77 | for in-bounds, pairwise disjoint spans, the corrected text is the original with every fix at its original offset |
| TextCorrector.CorrectedIgnoresInputOrder | grammar_faceoff.py:66-75 | for pairwise disjoint spans, the corrected text does not depend on the order the matches were reported in |
| TextCorrector.TwoApartCommute | grammar_faceoff.py:66-75 | two matches with disjoint spans give the same corrected text in either order |
| TextCorrector.OneFixExample | grammar_faceoff.py:64-77 | "He go home" with "go" fixed to "goes" becomes "He goes home" |
| TextCorrector.WovenTwo | grammar_faceoff.py:66-75 | two disjoint spans woven into the text: the text up to the first, its fix, the text between, the second fix, the rest |
| TextCorrector.TwoFixesExample | grammar_faceoff.py:64-77 | "He go home yesterday" with two fixes becomes "He goes home today" |
| TextCorrector.TwoFixesSwapped | grammar_faceoff.py:64-77 | the same two fixes reported in the other order give the same text |
| TextCorrector.TwoInsertions | grammar_faceoff.py:70-75 | two insertions at one offset, applied in order: the one applied second lands in front |
| TextCorrector.SortTwoTied | grammar_faceoff.py:67 | two matches at one offset keep their reported order |
| TextCorrector.TiedOffsetsExample | grammar_faceoff.py:67-75 | insertions "X" then "Y" at one offset of "ab" give "aYXb", and in the other order "aXYb": with equal offsets the input order matters |
| AnalysisReport.Issues | grammar_faceoff.py:24-34 | the entries of all matches, one per match and in report order |
| AnalysisReport.BucketStep | grammar_faceoff.py:24-34 | filing one more match appends its entry to the list of its own category and leaves the other lists unchanged |
| AnalysisReport.BucketSizesAddUp | grammar_faceoff.py:24-43 | the five list lengths add up to the number of matches |
| AnalysisReport.BucketHoldsItsCategory | grammar_faceoff.py:25-31 | a category's list holds only entries of that category |
| AnalysisReport.BucketCount | grammar_faceoff.py:24-34 | an entry occurs in its category's list as often as among the entries of all matches |
| AnalysisReport.FiledCount | grammar_faceoff.py:24-34 | an entry occurs in the five lists together as often as among the entries of all matches |
| AnalysisReport.BucketsPartitionIssues | grammar_faceoff.py:24-34 | the five lists together hold exactly the entries of all matches: each match is filed once |
| AnalysisReport.FiledUnderItsCategory | grammar_faceoff.py:24-26 | every match's entry is in the list of its own category |
| AnalysisReport.ReportFilesEachMatch | grammar_faceoff.py:24-44 | in the report's suggestions, each match's entry is under its category, and every entry under a category belongs to it |
| AnalysisReport.TotalIsSumOfCounts | grammar_faceoff.py:40-43 | the report has a count and a list for each of the five categories, and its total equals the sum of the five counts |
| AnalysisReport.NoMatchesReport | grammar_faceoff.py:37-46 | with no matches the total and all counts are zero and the corrected text is the original |
| AnalysisReport.AnalyzeText | grammar_faceoff.py:15-47 | the analysis loop returns the report `Analysis`: the total is the number of matches and the sum of the counts, the original text is the input, the corrected text is the corrected fold over all matches |

## Left out

- The LanguageTool engine is not part of this model. Its construction (grammar_faceoff.py:9) and `self.lt.check(text)` (grammar_faceoff.py:13) are a foreign library. The matches it returns are a parameter of `AnalysisReport.AnalyzeText`.
- `print_results` and `main` are console output and input reading, and the `os` and `dotenv` imports are unused.
- Offsets and lengths are natural numbers. Python's wrap-around for negative slice indices is not modelled, because the engine does not report negative values.
- IssueCategorizer.Lower: lower-cases the ASCII letters only, where Python's `str.lower` maps all of Unicode. No category changes because of this:
  - every keyword is ASCII;
  - the only non-ASCII characters whose lower-case form holds ASCII letters are the Kelvin sign, which gives 'k', and capital I with a dot, which gives 'i' followed by a combining dot;
  - no keyword contains 'k';
  - the only keyword with 'i' needs a 'c' right after it.
- The report's dictionaries are maps keyed by `Category`, not by label strings (`LabelsDistinct` shows this is the same). The insertion order of Python's dictionaries, which only affects printing, is not modelled.
- Each entry of a suggestion list is an `Issue` value. In Python it is a fresh dictionary that shares the match's `replacements` list; that sharing is not observable here and is not modelled.
- A description of the categoriser as "an identifier containing 'spell' is Spelling" holds only when no Grammar keyword is present. The model follows the code: Grammar keywords are tried first (`VerbSpellingExample`).
- Order independence of the corrected text is proved for matches whose spans are disjoint and start at distinct offsets. With equal offsets the stable sort keeps the reported order, and the result can differ (`TiedOffsetsExample`).
