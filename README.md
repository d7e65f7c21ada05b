# Baccalaureate question analyser, modelled in Dafny

The analyser reads the text of past baccalaureate exam papers and cuts each year's text
into questions. It classifies every question as one of six types: calculation, proof,
interpretation, representation, equation solving or deduction. Ties give `mixed`. It also
flags a question as composite when the question has several parts. The rules work locally:
a keyword table gives the type and a set of indicator patterns gives composite. Only when
no keyword occurs does the analyser ask a remote language-model classifier. That reply is
accepted only after it has been cleaned and validated. Finally the analyser ranks the
questions and builds a list of "critical" questions: those of the three most frequent
types, and the composite ones.

The model covers these parts of the program:

- `PyText`: the Python string operations the program relies on.
  - `str.strip`, using the exact 29-code-point whitespace set of `str.isspace` and `\s`.
  - `find`, `rfind`, `split`, `join` and `replace`, with leftmost non-overlapping occurrences.
  - `lower` on ASCII letters.
  - decimal `str(n)`.
- `Normalizer`: `_clean_text`. The two `re.sub` passes are modelled as run-collapsing
  scans, followed by `strip`.
- `Patterns`: the three question-boundary regexes, `re.finditer` over them, the four
  composite-indicator regexes with `re.findall` counting, and the year regex of
  `_extract_year`. Every one of these patterns is deterministic, so the model is a
  per-position matcher plus a leftmost, non-overlapping scan, which is what
  `finditer`/`findall`/`search` do.
- `Segmenter`: `split_into_questions`.
  - The boundary patterns are tried in order. The first pattern that has at least two
    matches and yields at least one question longer than 20 characters wins.
  - Otherwise the text is split into paragraphs, and those longer than 50 characters are kept.
  - This module also holds the two loops (as methods) and the functions that specify them.
- `QuestionTypes`: the type names and `valid_types`.
- `RuleClassifier`: `classify_question_rule_based` and `_is_composite`. It covers:
  - the keyword table with its duplicated `deduce`;
  - the score loop, as a method;
  - the `max`, tie and `mixed` decision;
  - the composite count.
- `GeminiClient`: the remote classifier's reply handling. The HTTP request is the outcome
  `Response`; `json.loads` is a parameter. It covers:
  - removing code fences;
  - the `{`…`}` candidate;
  - validating the type and the composite flag;
  - the status and exception branches of `classify_question`.
- `Ranking`: the `value_counts().head(3)` top types, the importance score and reasons, and
  the stable descending sort of the critical list.
- `Analyzer`: `_extract_year` and a `BacAnalyzer` class.
  - The class's `questions` field is the list the analyser appends to.
  - The class also has a ghost field recording which texts went to the remote classifier.
  - Its methods are `analyze_questions` (its two nested loops), the classification cascade
    and `identify_critical_questions` (its loop and sort).

The model follows the code as written, including these details:

- The two item-indicator classes `[أ|ا|1|أ|a]` and `[ب|2|ب|b]` contain a literal `|`. So a
  lone vertical bar followed by `.`, `)` or `-` matches both patterns, and that alone makes a
  question composite (`RuleClassifier.PipeItemMarkIsComposite`).
- `deduce` is listed twice, so it scores two (`RuleClassifier.DeduceCountsTwice`).
- Any status other than 200, any exception and any reply text that cannot be parsed all end
  in the default classification `mixed`, not composite.

## Model

| member | source | states |
|---|---|---|
| PyText.Strip | bac_analyzer.py:113 | `strip()` is no longer than its input, and neither of its ends is whitespace |
| PyText.StripIsSlice | bac_analyzer.py:113 | `strip()` is the contiguous slice of the input that starts right after the leading whitespace run |
| PyText.StripEmptyIffAllSpace | bac_analyzer.py:82-87 | a stripped text is empty exactly when every character of it is whitespace |
| PyText.DropRunIsSuffix | bac_analyzer.py:113 | removing a leading run leaves a suffix of the input |
| PyText.DropRunDropsMembers | bac_analyzer.py:113 | every removed leading character belongs to the class |
| PyText.DropRunAllMembers | bac_analyzer.py:113 | a text made only of class members is removed entirely |
| PyText.RStripIsPrefix | bac_analyzer.py:113 | `rstrip()` is a prefix of its input |
| PyText.RStripDropsSpace | bac_analyzer.py:113 | every character that `rstrip()` removes is whitespace |
| PyText.Find | Gemeni_client.py:91 | `find` gives -1 or an occurrence, and no occurrence lies before it |
| PyText.FindIsFirst | Gemeni_client.py:91 | the first occurrence is the one `find` returns |
| PyText.RFind | Gemeni_client.py:92 | `rfind` gives -1 or an occurrence, and no occurrence lies after it |
| PyText.Split | bac_analyzer.py:98 | `split(sep)` cuts at the leftmost occurrence first (SplitFirstPiece, SplitHead), gives at least one piece, joins back to the text with `sep` (JoinSplit), and no piece contains `sep` (SplitPiecesAvoidSeparator) |
| PyText.Join | bac_analyzer.py:243 | `sep.join` inverts `split(sep)` (JoinSplit) |
| PyText.Replace | bac_analyzer.py:67 | `replace(t, '')` keeps a text without `t` (ExtractYearKeepsPlainName) and drops the single trailing `t` of a name without another (ExtractYearDropsSuffix) |
| PyText.JoinSplit | bac_analyzer.py:98 | joining the pieces of `split(sep)` with `sep` gives back the text |
| PyText.SplitPiecesAvoidSeparator | bac_analyzer.py:98 | no piece of a split contains the separator |
| PyText.SplitFirstPiece | bac_analyzer.py:98 | without the separator the split is the whole text; otherwise the first piece is the text before the leftmost occurrence and the rest is the split of what follows it |
| PyText.LowerMeaning | bac_analyzer.py:117 | after `lower()` no ASCII capital remains; each capital becomes its small letter, every other character is kept, the length is kept, and lowering twice is lowering once |
| PyText.DecimalString | bac_analyzer.py:103 | `str(n)` is a non-empty string of ASCII digits |
| PyText.DecimalRoundTrip | bac_analyzer.py:103 | reading back `str(n)` gives `n` |
| Seqs.KeptIndices | bac_analyzer.py:87-91 | the kept positions are flagged, increasing, and include every flagged position |
| Seqs.FilterByKept | bac_analyzer.py:87-91 | the j-th element kept by an appending loop is the element at the j-th kept position |
| Seqs.FilterByAll | bac_analyzer.py:87-91 | every kept element satisfies a property that holds at every flagged position |
| Seqs.IndexOf | bac_analyzer.py:229 | `list.index` returns a position holding the element, with no earlier position holding it |
| Normalizer.CollapseRunsAppend | bac_analyzer.py:111 | the `re.sub` scan of a concatenation is the scan of the first part, then the second part scanned in the state where the first left off |
| Normalizer.CollapseRunsStateFree | bac_analyzer.py:111 | a text that does not start in a run collapses the same way in or out of a run |
| Normalizer.CollapseRunsAllMembers | bac_analyzer.py:111-112 | a whole run becomes one space, or nothing when it continues a run |
| Normalizer.CollapseRunsSingleSpaced | bac_analyzer.py:111-112 | after the substitution no two class characters are adjacent, and each remaining one is a space |
| Normalizer.CollapseSingleSpaced | bac_analyzer.py:111 | `re.sub(r'\s+', ' ', t)` leaves single spaces only |
| Normalizer.CollapseRunsAbsent | bac_analyzer.py:111-112 | a text without class characters is unchanged |
| Normalizer.CollapseRunsFixed | bac_analyzer.py:111-112 | a single-spaced text is a fixed point of the substitution |
| Normalizer.SingleSpacedSlice | bac_analyzer.py:111-113 | a slice of a single-spaced text is single-spaced |
| Normalizer.LineBreakPassIsNoOp | bac_analyzer.py:112 | the `[\r\n]+` pass never changes anything after the `\s+` pass |
| Normalizer.NormalOfStrip | bac_analyzer.py:113 | stripping a single-spaced text gives a normal text |
| Normalizer.CleanText | bac_analyzer.py:109-113 | `_clean_text` gives a normal text (CleanTextNormal), keeps a normal text (CleanTextFixesNormal), is idempotent (CleanTextIdempotent) and ignores surrounding whitespace (CleanTextIgnoresStrip) |
| Normalizer.CleanTextNormal | bac_analyzer.py:109-113 | cleaned text has single spaces only, no line breaks, and no whitespace at its ends |
| Normalizer.CleanTextFixesNormal | bac_analyzer.py:109-113 | cleaning leaves a normal text unchanged |
| Normalizer.CleanTextIdempotent | bac_analyzer.py:109-113 | cleaning twice is cleaning once |
| Normalizer.DropRunAppend | bac_analyzer.py:113 | removing a leading run from a concatenation goes through the first part into the second only when the first part is all run |
| Normalizer.StripLeadingSpace | bac_analyzer.py:113 | one more leading space does not change `strip()` |
| Normalizer.StripTrailingSpace | bac_analyzer.py:113 | one more trailing space does not change `strip()` |
| Normalizer.LStripAppendSpace | bac_analyzer.py:113 | `lstrip()` of a text with one space appended is empty when the text strips to empty on the left, and otherwise its `lstrip()` followed by that space |
| Normalizer.RStripAppendSpace | bac_analyzer.py:113 | `rstrip()` drops one appended space |
| Normalizer.CollapseTrailingRun | bac_analyzer.py:111 | a trailing run after a non-member becomes one space |
| Normalizer.CleanTextDropsSpaceTail | bac_analyzer.py:109-113 | trailing whitespace does not change the cleaned text |
| Normalizer.CleanTextIgnoresLeadingSpace | bac_analyzer.py:109-113 | cleaning ignores leading whitespace |
| Normalizer.CleanTextIgnoresTrailingSpace | bac_analyzer.py:109-113 | cleaning ignores trailing whitespace |
| Normalizer.CleanTextIgnoresStrip | bac_analyzer.py:82-85 | the `strip()` before `_clean_text` in `split_into_questions` changes nothing |
| Normalizer.CleanTextNonEmpty | bac_analyzer.py:109-113 | a text that starts with a non-space character does not clean to empty |
| QuestionTypes.FromName | Gemeni_client.py:19-22 | a name is recognised exactly when it is in `valid_types`, and it names the type it is read as |
| QuestionTypes.NameRoundTrip | Gemeni_client.py:19-22 | every type's name is valid and reads back as that type |
| QuestionTypes.BaseTypesAreNotMixed | bac_analyzer.py:31-38 | the keyword table's types are all the types except `mixed`, each listed once |
| Patterns.SkipRun | bac_analyzer.py:25-27 | `\s*` and `\d+` consume the maximal run of class members |
| Patterns.GroupIsDigits | bac_analyzer.py:89 | the captured group of a boundary match is a non-empty string of digits |
| Patterns.SpacedNumber | bac_analyzer.py:25 | `\s*(\d+)` gives a maximal non-empty digit run after optional whitespace |
| Patterns.MarkerAt | bac_analyzer.py:25 | a localized or English marker match starts with one of the marker words and captures digits |
| Patterns.NumberedItem | bac_analyzer.py:26 | `(\d+)\s*[.)-]` captures digits and ends with a closing mark |
| Patterns.NumberedLineAt | bac_analyzer.py:26 | a numbered-line match captures digits and starts at the start of the text, right after a newline, or at a newline it consumes |
| Patterns.BoundaryAt | bac_analyzer.py:24-28 | a match of any boundary pattern starts at the given position, lies in the text and captures digits |
| Patterns.FindIter | bac_analyzer.py:75 | `re.finditer` gives well-formed, non-overlapping matches in increasing order, all at or after the start; each is the pattern's match at its start (FindIterSound), and no match is skipped (FindIterComplete) |
| Patterns.FindIterUnfold | bac_analyzer.py:75 | the scan reports a match at its position and resumes at its end, or moves on by one |
| Patterns.FindIterSound | bac_analyzer.py:75 | every reported match is exactly what the pattern matches at that match's start |
| Patterns.FindIterCovers | bac_analyzer.py:75 | a position at or after the start where the pattern matches begins a reported match or lies inside one |
| Patterns.FindIterComplete | bac_analyzer.py:75 | no match of the pattern at or after the start is skipped: each lies at or inside a reported match |
| Patterns.FindIterGapsHaveNoMatch | bac_analyzer.py:75 | a position before the first reported match, between two of them or after the last has no match |
| Patterns.OrderedStartsIncrease | bac_analyzer.py:78-80 | later matches start strictly later, and inside the text |
| Patterns.ItemMarkAt | bac_analyzer.py:151-152 | an item indicator starts with a member of its class and ends with a closing mark |
| Patterns.WordAt | bac_analyzer.py:153-154 | an alternation of words matches one of the listed words at the position and ends after it |
| Patterns.PartPhraseAt | bac_analyzer.py:153 | a part phrase starts with the word for "part" |
| Patterns.CompositeAt | bac_analyzer.py:150-155 | a composite indicator match is non-empty and lies in the text |
| Patterns.MatchIsCounted | bac_analyzer.py:159 | a match anywhere in the text makes `findall` count at least one |
| Patterns.NoMatchNoCount | bac_analyzer.py:159 | when nothing matches, `findall` counts zero |
| Patterns.FindAll | bac_analyzer.py:159 | `re.findall` as spans: non-empty, inside the text, in text order and without overlap |
| Patterns.FindAllUnfold | bac_analyzer.py:159 | the scan reports a match at its position and resumes at its end, or moves on by one |
| Patterns.FindAllSound | bac_analyzer.py:159 | every reported span is exactly what the pattern matches at its start |
| Patterns.FindAllComplete | bac_analyzer.py:159 | a position where the pattern matches starts a reported span or lies inside one |
| Patterns.FindAllSkips | bac_analyzer.py:159 | positions without a match before the first match do not change what is reported |
| Patterns.SoleMatchCountsOne | bac_analyzer.py:159 | when exactly one position matches, the count is one |
| Patterns.SeparateMatchesCountTwo | bac_analyzer.py:159 | the leftmost match and a match starting at or after its end give a count of at least two |
| Patterns.CountMatches | bac_analyzer.py:159 | `len(re.findall(p, text))` is the number of spans FindAll reports, which are exactly the leftmost non-overlapping matches (FindAllSound, FindAllComplete); one match position counts one (SoleMatchCountsOne), none counts zero (NoMatchNoCount), and a second match after the first counts two (SeparateMatchesCountTwo) |
| Patterns.SearchYear | bac_analyzer.py:66 | `re.search` for a year gives the leftmost position holding `19dd` or `20dd`, or none when no position does |
| RuleClassifier.Score | bac_analyzer.py:121-124 | a type's score is at most the length of its keyword list |
| RuleClassifier.ScoreZeroIff | bac_analyzer.py:121-129 | a score is zero exactly when none of the keywords occurs |
| RuleClassifier.Scores | bac_analyzer.py:119 | the score table's keys are exactly the six base types |
| RuleClassifier.MaxOver | bac_analyzer.py:126 | `max(scores.values())` bounds every score |
| RuleClassifier.MaxOverReached | bac_analyzer.py:126 | the maximum is some listed type's score |
| RuleClassifier.AtScoreMembers | bac_analyzer.py:132 | `high_score_types` holds exactly the types with the given score |
| RuleClassifier.AtScoreNone | bac_analyzer.py:132 | no type at a score gives an empty list |
| RuleClassifier.AtScoreUnique | bac_analyzer.py:132-137 | a score reached by one type only gives that one type |
| RuleClassifier.AtScoreDistinct | bac_analyzer.py:132 | `high_score_types` lists no type twice |
| RuleClassifier.TopIsReached | bac_analyzer.py:126 | the top score bounds every type and is reached by one |
| RuleClassifier.Decide | bac_analyzer.py:126-137 | no decision exactly when every score is zero (DecideNoneIffAllZero); a type other than `mixed` exactly when it is the unique positive maximum (DecidedTypeIsUniqueMaximum, UniqueMaximumIsDecided); `mixed` exactly on a tie at the positive top (TieIsDecidedMixed, MixedIsDecidedOnlyOnTie) |
| RuleClassifier.DecideNoneIffAllZero | bac_analyzer.py:126-129 | the rules give no decision exactly when every score is zero |
| RuleClassifier.DecidedTypeIsUniqueMaximum | bac_analyzer.py:132-137 | a decided type other than `mixed` scores positive and strictly above every other type |
| RuleClassifier.UniqueMaximumIsDecided | bac_analyzer.py:132-137 | a type scoring positive and strictly above every other type is the decision |
| RuleClassifier.TieIsDecidedMixed | bac_analyzer.py:134-135 | two types sharing a positive top score give `mixed` |
| RuleClassifier.MixedIsDecidedOnlyOnTie | bac_analyzer.py:134-137 | `mixed` is decided only when two distinct types share the positive top score |
| RuleClassifier.BaseTypesDistinct | bac_analyzer.py:31-38 | the keyword table lists each type once |
| RuleClassifier.RuleBased | bac_analyzer.py:115-145 | the rules decide nothing exactly when no keyword occurs (NoneIffNoKeyword); a type other than `mixed` is chosen exactly when it scores positive and strictly above every other type (ChosenTypeIsUniqueMaximum, UniqueMaximumIsChosen); `mixed` comes exactly from a tie at the positive top score (TieIsMixed, MixedOnlyFromTie); the composite flag is `_is_composite` of the text |
| RuleClassifier.NoneIffNoKeyword | bac_analyzer.py:115-129 | the rules give `None` exactly when no keyword of any type occurs in the lower-cased text |
| RuleClassifier.ScoreBounded | bac_analyzer.py:121-124 | no type scores more than the length of its keyword list |
| RuleClassifier.ChosenTypeIsUniqueMaximum | bac_analyzer.py:126-137 | a chosen type other than `mixed` scores positive and strictly more than every other type |
| RuleClassifier.UniqueMaximumIsChosen | bac_analyzer.py:126-145 | a type with a positive, strictly maximal score is chosen, with the text's composite flag |
| RuleClassifier.TieIsMixed | bac_analyzer.py:132-145 | two types sharing the positive top score make the question `mixed` |
| RuleClassifier.MixedOnlyFromTie | bac_analyzer.py:132-137 | `mixed` comes only from a tie at the positive top score |
| RuleClassifier.DeduceCountsTwice | bac_analyzer.py:37 | a text containing `deduce` scores at least two for deduction |
| RuleClassifier.PipeItemMarkIsComposite | bac_analyzer.py:150-161 | a vertical bar followed by a closing mark on its own makes a question composite |
| RuleClassifier.CountWithinTotal | bac_analyzer.py:157-159 | the total is at least any one pattern's count |
| RuleClassifier.PairWithinTotal | bac_analyzer.py:157-159 | the total is at least the counts of any two patterns added up |
| RuleClassifier.SoleIndicatorCounts | bac_analyzer.py:157-159 | under a sole indicator match its pattern counts one and the others none |
| RuleClassifier.SoleIndicatorTotal | bac_analyzer.py:157-159 | under a sole indicator match the total is one |
| RuleClassifier.SingleIndicatorIsNotComposite | bac_analyzer.py:157-161 | one match of one pattern and nothing else gives a total of one, so the question is not composite |
| RuleClassifier.TwoIndicatorsAreComposite | bac_analyzer.py:157-161 | matches of two different patterns make the question composite |
| RuleClassifier.RepeatedIndicatorIsComposite | bac_analyzer.py:157-161 | the leftmost match of a pattern and a later one starting at or after its end make the question composite |
| RuleClassifier.CompositeTotal | bac_analyzer.py:157-159 | the total of `findall` counts over the four patterns, computed by the loop of IsComposite |
| RuleClassifier.IsCompositeText | bac_analyzer.py:147-161 | composite exactly when the four patterns match at least twice in total (IsComposite); a single indicator match is not composite (SingleIndicatorIsNotComposite); matches of two different patterns (TwoIndicatorsAreComposite), two separate matches of one pattern (RepeatedIndicatorIsComposite) or a lone bar mark (PipeItemMarkIsComposite) are |
| RuleClassifier.IsComposite | bac_analyzer.py:147-161 | the counting loop over the four patterns decides composite exactly as the total of at least two does |
| RuleClassifier.Tally | bac_analyzer.py:119-124 | the nested score loop builds the score table of every listed type |
| RuleClassifier.ClassifyRuleBased | bac_analyzer.py:115-145 | the classifying method returns the rule-based classification |
| Segmenter.SpanEnd | bac_analyzer.py:79-80 | a span ends after its start, at the next match's start or at the end of the text |
| Segmenter.SpanCandidates | bac_analyzer.py:78-91 | there is one candidate question per match |
| Segmenter.KeepLongIsFilter | bac_analyzer.py:87-91 | the appending loop keeps exactly the flagged candidates, in order |
| Segmenter.KeepLongAreLong | bac_analyzer.py:87 | every kept question is longer than 20 characters |
| Segmenter.SpanQuestionsAreFiltered | bac_analyzer.py:78-91 | the pattern questions are the candidates whose cleaned span is long enough |
| Segmenter.SpanQuestionsAreRetained | bac_analyzer.py:78-91 | the j-th pattern question is the candidate of the j-th retained match |
| Segmenter.RetainedSpansAreLong | bac_analyzer.py:82-87 | a match is retained exactly when its cleaned span is longer than 20 characters, and retained matches stay in order |
| Segmenter.SpanQuestionsAreLong | bac_analyzer.py:87 | every pattern question is longer than 20 characters |
| Segmenter.SpanTextIsCleanSpan | bac_analyzer.py:82-85 | a question's text is the cleaned span, and it is normal |
| Segmenter.SpanQuestionIdIsNumber | bac_analyzer.py:89 | a pattern question's id is the captured digits |
| Segmenter.SpanQuestions | bac_analyzer.py:78-91 | the questions cut at one pattern's matches: the cleaned spans longer than 20 characters, in order (SpanQuestionsAreFiltered, SpanQuestionsAreRetained, SpanQuestionsAreLong, SpanTextIsCleanSpan, SpanQuestionIdIsNumber) |
| Segmenter.PatternQuestions | bac_analyzer.py:74-77 | a pattern yields questions only when it has at least two matches |
| Segmenter.ParagraphCandidates | bac_analyzer.py:98-105 | there is one candidate per paragraph |
| Segmenter.ParagraphKeep | bac_analyzer.py:100-101 | there is one flag per paragraph |
| Segmenter.ParagraphQuestionsAreRetained | bac_analyzer.py:98-105 | the j-th paragraph question is the retained paragraph at its original position, numbered from one among all paragraphs, and cleaned |
| Segmenter.RetainedParagraphsAreLong | bac_analyzer.py:100-101 | a paragraph is retained exactly when it is longer than 50 characters after stripping |
| Segmenter.ParagraphIdIsPosition | bac_analyzer.py:103 | a paragraph's id reads as its 1-based position |
| Segmenter.ParagraphFallback | bac_analyzer.py:96-105 | the paragraphs longer than 50 characters after stripping, numbered by their position among all paragraphs (ParagraphQuestionsAreRetained, RetainedParagraphsAreLong, ParagraphIdIsPosition) |
| Segmenter.SegmentFromSkips | bac_analyzer.py:74-94 | patterns that yield nothing are skipped |
| Segmenter.SegmentTakesFirstProductivePattern | bac_analyzer.py:74-94 | the first pattern that yields questions decides the result |
| Segmenter.SegmentFallsBackToParagraphs | bac_analyzer.py:96-105 | when no pattern yields questions, the paragraphs decide |
| Segmenter.SegmentFrom | bac_analyzer.py:74-105 | the first productive pattern from the given one on decides (SegmentFromSkips, SegmentTakesFirstProductivePattern), otherwise the paragraphs (SegmentFallsBackToParagraphs) |
| Segmenter.Segment | bac_analyzer.py:69-107 | `split_into_questions` as a function: computed by SplitIntoQuestions, characterised by SegmentTakesFirstProductivePattern and SegmentFallsBackToParagraphs |
| Segmenter.ParagraphsCoverText | bac_analyzer.py:98 | the paragraphs, joined back, are the whole text |
| Segmenter.CutAtBoundaries | bac_analyzer.py:78-91 | the loop over the matches returns exactly the pattern questions |
| Segmenter.KeepLongParagraphs | bac_analyzer.py:98-105 | the paragraph loop returns exactly the paragraph questions |
| Segmenter.SplitIntoQuestions | bac_analyzer.py:69-107 | `split_into_questions` returns the segmentation of the text |
| GeminiClient.UpTo | Gemeni_client.py:86-88 | the first piece of a split is a prefix of the text |
| GeminiClient.After | Gemeni_client.py:86-88 | the text after the first separator is a suffix |
| GeminiClient.SplitHead | Gemeni_client.py:86-88 | `split(p)[0]` is the text before the first `p` |
| GeminiClient.SplitSecond | Gemeni_client.py:86-88 | when `p` occurs, `split(p)[1]` exists and is the text between the first and second `p` |
| GeminiClient.UpToStopsAtSeparator | Gemeni_client.py:86-88 | the first piece holds no separator and stops at one or at the end |
| GeminiClient.CutTwice | Gemeni_client.py:86 | cutting at a longer separator and then at its prefix leaves a separator-free prefix that stops at the prefix or at the end |
| GeminiClient.JsonFenceRegion | Gemeni_client.py:85-86 | with a json fence, the searched text is a prefix of what follows the first such fence, holds no fence, and stops at one or at the end |
| GeminiClient.PlainFenceRegion | Gemeni_client.py:87-88 | with plain fences only, the searched text is what lies between the first two, and it holds no fence |
| GeminiClient.NoFenceKeepsText | Gemeni_client.py:82-88 | without fences the stripped reply is searched as it is |
| GeminiClient.StripFences | Gemeni_client.py:82-88 | the text searched for JSON: after a json fence (JsonFenceRegion), between the first two plain fences (PlainFenceRegion), or the stripped reply (NoFenceKeepsText) |
| GeminiClient.CandidateExistsIffBracePair | Gemeni_client.py:91-94 | a JSON candidate exists exactly when some `}` follows some `{` |
| GeminiClient.CandidateIsBraceSpan | Gemeni_client.py:91-95 | the candidate is the slice from the first `{` to the last `}` |
| GeminiClient.JsonCandidate | Gemeni_client.py:91-95 | a candidate exists exactly when some `}` follows some `{` (CandidateExistsIffBracePair), and it is the span from the first `{` to the last `}` (CandidateIsBraceSpan) |
| GeminiClient.IntString | Gemeni_client.py:105 | `str` of an integer begins with a sign or a digit |
| GeminiClient.ValidatedTypeRules | Gemeni_client.py:99-101 | the validated type is always valid: it is the given name exactly when that name is valid, and `mixed` otherwise |
| GeminiClient.ValidatedType | Gemeni_client.py:99-101 | the given name when it is valid, `mixed` otherwise (ValidatedTypeRules) |
| GeminiClient.NumberIsNeverTrue | Gemeni_client.py:105 | no number spells `true` |
| GeminiClient.ValidatedCompositeRules | Gemeni_client.py:103-105 | a missing flag is false, a boolean is kept, a string counts when it lower-cases to `true`, and anything else is false |
| GeminiClient.UpperCaseTrueIsComposite | Gemeni_client.py:104-105 | the string `TRUE` counts as composite |
| GeminiClient.ValidatedComposite | Gemeni_client.py:103-105 | the flag rules of ValidatedCompositeRules: missing is false, a boolean is kept, a string counts when it lower-cases to `true`, anything else is false |
| GeminiClient.SpellsTrue | Gemeni_client.py:105 | `str(v).lower() == 'true'`: never for a number (NumberIsNeverTrue), and for the string `TRUE` (UpperCaseTrueIsComposite) |
| GeminiClient.NoBracePairGivesDefault | Gemeni_client.py:94-115 | a reply without a brace pair gives the default classification |
| GeminiClient.ParseFailureGivesDefault | Gemeni_client.py:96-115 | a candidate the JSON parser rejects gives the default classification |
| GeminiClient.ParsedReplyIsValidated | Gemeni_client.py:96-110 | a parsed reply gives the validated type and flag, and the type is valid |
| GeminiClient.ParseResponse | Gemeni_client.py:78-115 | the default without a brace pair (NoBracePairGivesDefault) or when parsing fails (ParseFailureGivesDefault), otherwise the validated fields of the parsed object (ParsedReplyIsValidated) |
| GeminiClient.FailedCallGivesDefault | Gemeni_client.py:64-76 | a raising call, a status other than 200 or a reply without its text gives the default classification |
| GeminiClient.ClassifyQuestion | Gemeni_client.py:56-76 | the default for a raised call, a status other than 200 or a missing text (FailedCallGivesDefault); otherwise the reply as ParseResponse reads it |
| Ranking.InsertPermutes | bac_analyzer.py:247 | inserting adds exactly the one element |
| Ranking.InsertSorted | bac_analyzer.py:247 | inserting into a descending list keeps it descending |
| Ranking.SortDescSorted | bac_analyzer.py:247 | the sort's result is in descending key order |
| Ranking.SortDescPermutes | bac_analyzer.py:247 | the sort's result is a permutation of its input |
| Ranking.SortDescStable | bac_analyzer.py:247 | elements of equal key keep their original order |
| Ranking.SortDescCharacterised | bac_analyzer.py:247 | the sort is descending, a permutation and stable |
| Ranking.SortDescDistinct | bac_analyzer.py:217-218 | sorting a list without repeats leaves none |
| Ranking.CountPositiveIffPresent | bac_analyzer.py:217 | a type has a positive count exactly when some record has it |
| Ranking.TypesSeen | bac_analyzer.py:217 | the counted types are exactly those that occur, each listed once |
| Ranking.TopTypes | bac_analyzer.py:218 | there are at most three top types |
| Ranking.TopTypesWellFormed | bac_analyzer.py:217-218 | the top types occur, each once, in decreasing frequency, and there are three unless fewer types occur |
| Ranking.TopIsSortedPrefix | bac_analyzer.py:217-218 | the top types are the first entries of the types sorted by frequency |
| Ranking.TopTypesAreMostFrequent | bac_analyzer.py:217-218 | no type outside the top is more frequent than one inside it |
| Ranking.FewTypesAreAllTop | bac_analyzer.py:218 | with fewer than three top types, every occurring type is among them |
| Ranking.Rank | bac_analyzer.py:229 | the rank is the 1-based position of the type's first occurrence in the top types |
| Ranking.Entry | bac_analyzer.py:222-244 | an entry copies the record's year, id, text and type; its score is 0, 2, 3 or 5, at least 3 exactly for a top type and positive exactly for a top type or a composite question; its reasons are empty exactly when the score is zero (see also ImportanceMeaning, FrequentReasonNamesRank) |
| Ranking.ImportanceMeaning | bac_analyzer.py:223-236 | the score is 0, 2, 3 or 5: at least 3 exactly for a top type, 2 or 5 exactly for a composite question, positive exactly when a reason is given; there is one reason per criterion met, the composite one last |
| Ranking.FrequentReasonNamesRank | bac_analyzer.py:227-230 | a top type's first reason names its rank |
| Ranking.Importance | bac_analyzer.py:223-234 | 3 for a top type plus 2 for a composite question (ImportanceMeaning) |
| Ranking.Reasons | bac_analyzer.py:223-234 | one reason per criterion met, the frequent-type one first and naming the rank, the composite one last (ImportanceMeaning, FrequentReasonNamesRank) |
| Ranking.Candidates | bac_analyzer.py:222-244 | there is one entry per record |
| Ranking.Keep | bac_analyzer.py:236 | there is one flag per record |
| Ranking.KeptAreScoringRecords | bac_analyzer.py:222-244 | the kept entries are those of the records scoring above zero, in record order |
| Ranking.KeptScores | bac_analyzer.py:236 | every kept entry scores 2, 3 or 5 |
| Ranking.Kept | bac_analyzer.py:212-244 | the entries of the records scoring above zero, in record order (KeptAreScoringRecords, KeptScores) |
| Ranking.CriticalListOrdered | bac_analyzer.py:246-249 | the critical list is a permutation of the kept entries, in descending score, stable among equal scores |
| Ranking.CriticalList | bac_analyzer.py:212-249 | the kept entries sorted by descending score, stable (CriticalListOrdered) |
| Analyzer.ExtractYearFindsFirstYear | bac_analyzer.py:64-67 | a name holding a year gives its leftmost four-digit `19dd` or `20dd` |
| Analyzer.SuffixIsFirstOccurrence | bac_analyzer.py:67 | in a name with one trailing `.pdf`, that suffix is the first occurrence |
| Analyzer.ExtractYearKeepsPlainName | bac_analyzer.py:67 | a name without a year or `.pdf` is its own year |
| Analyzer.ExtractYearDropsSuffix | bac_analyzer.py:67 | `base.pdf`, with no year and no `.pdf` inside `base`, gives `base` |
| Analyzer.ExtractYear | bac_analyzer.py:64-67 | the leftmost `19dd` or `20dd` (ExtractYearFindsFirstYear), else the name without `.pdf` (ExtractYearKeepsPlainName, ExtractYearDropsSuffix) |
| Analyzer.Records | bac_analyzer.py:184-190 | there is one record per question |
| Analyzer.CascadePrefersRules | bac_analyzer.py:177-182 | the local decision is used when there is one, otherwise the remote classifier's answer; the type is always valid |
| Analyzer.CascadeByKeyword | bac_analyzer.py:115-182 | a text holding some keyword is classified by the local rules; a text holding none gets the remote classifier's answer |
| Analyzer.Cascade | bac_analyzer.py:177-182 | the remote classifier is used only when the rules give nothing: the cascade's result with the text logged exactly when undecided (BacAnalyzer.ClassifyOne, RemoteQueriesAreUndecided); in keyword terms, a text with some keyword keeps the rules' decision and only one with none goes remote (CascadeByKeyword) |
| Analyzer.RecordOf | bac_analyzer.py:184-190 | the stored record: year, id, the first 500 characters and the classification (RecordsFollowQuestions) |
| Analyzer.RecordsFollowQuestions | bac_analyzer.py:184-190 | each record carries the year and id, the first 500 characters of the text, and the classification of that text |
| Analyzer.RemoteOnlyWhenUndecided | bac_analyzer.py:180-182 | only undecided texts reach the remote classifier, and no more texts than there are questions |
| Analyzer.UndecidedAreQueried | bac_analyzer.py:180-182 | every undecided question reaches the remote classifier |
| Analyzer.OneRecordPerQuestion | bac_analyzer.py:171-190 | the analysis stores exactly one record per question of every year |
| Analyzer.RemoteQueriesAreUndecided | bac_analyzer.py:177-182 | a question goes to the remote classifier exactly when the rules give no decision |
| Analyzer.AllRemoteOnlyWhenUndecided | bac_analyzer.py:171-182 | over all years, only undecided texts reach the remote classifier |
| Analyzer.AllUndecidedAreQueried | bac_analyzer.py:171-182 | over all years, every undecided question of every year reaches the remote classifier |
| Analyzer.AllRemoteQueriesAreUndecided | bac_analyzer.py:171-182 | over all years, a question goes to the remote classifier exactly when the rules give no decision for it |
| Analyzer.BacAnalyzer.constructor | bac_analyzer.py:21 | a new analyser has no records |
| Analyzer.BacAnalyzer.ClassifyOne | bac_analyzer.py:177-182 | one question is classified by the cascade, and it is sent to the remote classifier only when the rules give none |
| Analyzer.BacAnalyzer.AnalyzeYear | bac_analyzer.py:175-190 | the records of one year's questions are appended in order |
| Analyzer.BacAnalyzer.AnalyzeQuestions | bac_analyzer.py:171-190 | every year's text is split and each of its questions recorded, year by year |
| Analyzer.BacAnalyzer.IdentifyCriticalQuestions | bac_analyzer.py:212-249 | the loop and sort return the critical list of the stored records |

## Left out

- PDF reading (`extract_text_from_pdfs`, bac_analyzer.py:40-62) is I/O. The analysis takes the
  extracted `(year, text)` pairs as a sequence in file order. When two files give the same year,
  the source's dictionary keeps only the later text in the first file's position; the model
  keeps both.
- `calculate_statistics` (floating-point percentages), `export_results` (CSV and text files),
  the progress printing and `main` are output only.
- The HTTP request, the API key, the URL, the prompt and the constructor's `ValueError` for a
  missing key are not modelled. The request's outcome is a `Response` given by a function of
  the question text: it raised, or it answered with a status code and the candidate text
  (absent when the body or its nested keys did not decode).
- `json.loads` is a parameter returning a JSON object, or signalling failure. Decoded numbers
  are integers; floats are not modelled (no float spells `true` either).
- `\d` covers ASCII digits and the Arabic-Indic and Extended Arabic-Indic digits, not the other
  Unicode decimal digits.
- `str.lower` maps ASCII letters only. Outside ASCII, only U+0130 and U+212A lower to something
  containing an ASCII letter, and neither can complete a keyword or `true`.
- Ranking.TopTypes: pandas leaves the order of equally frequent types unspecified. The model
  breaks ties by first occurrence, and the lemmas state only that the top types are the most
  frequent ones.
- The module imports `gemini_client` while the file is named `Gemeni_client.py`. The model
  treats them as one module.
- Ranking.SortDesc: `list.sort(reverse=True)` works in place. The model is a stable sort
  function on a sequence, applied to the list the loop built.
- Analyzer.BacAnalyzer.IdentifyCriticalQuestions: requires at least one record, because with
  no records the source's data frame has no `question_type` column and the lookup raises.
- GeminiClient.JsonFenceRegion: states only that the searched text is a fence-free prefix of
  what follows the first json fence, ending at a fence or at the end. It does not claim to be
  the cut at the first plain fence, because the source cuts at the next json fence first, and
  a backtick just before that fence can then end the piece before the first plain fence.
