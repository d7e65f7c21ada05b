/**
 * Splitting an exam's text into questions: by the first boundary pattern that yields
 * at least one long enough question, otherwise by long paragraphs.
 */
module Segmenter {
  import opened PyText
  import opened Normalizer
  import opened Patterns
  import opened Seqs

  /** A question cut from the text: its identifier and its normalised text. */
  datatype Question = Question(id: string, text: string)

  /** Spans of at most this many characters (after normalising) are dropped. */
  const MinSpanLength: nat := 20
  /** Paragraphs of at most this many characters (after stripping) are dropped. */
  const MinParagraphLength: nat := 50
  const ParagraphBreak: string := "\n\n"

  // ---------------------------------------------------------------------
  // Spans between boundaries
  // ---------------------------------------------------------------------

  /** Where the `i`-th span ends: at the next boundary's start, or at the end of the text. */
  function SpanEnd(text: string, ms: seq<Match>, i: nat): (e: nat)
    requires Ordered(text, ms) && i < |ms|
    ensures ms[i].start < e <= |text|
    ensures i + 1 < |ms| ==> e == ms[i + 1].start
  {
    if i + 1 < |ms| then
      OrderedStartsIncrease(text, ms, i, i + 1);
      ms[i + 1].start
    else |text|
  }

  /** The raw text of the `i`-th span. */
  function SpanRaw(text: string, ms: seq<Match>, i: nat): string
    requires Ordered(text, ms) && i < |ms|
  {
    text[ms[i].start..SpanEnd(text, ms, i)]
  }

  /** The `i`-th span stripped and normalised. */
  function SpanText(text: string, ms: seq<Match>, i: nat): string
    requires Ordered(text, ms) && i < |ms|
  {
    CleanText(Strip(SpanRaw(text, ms, i)))
  }

  /** The `i`-th span as a question identified by its boundary's number. */
  function SpanQuestion(text: string, ms: seq<Match>, i: nat): Question
    requires Ordered(text, ms) && i < |ms|
  {
    Question(Group(text, ms[i]), SpanText(text, ms, i))
  }

  /** Every span as a question, whether or not it is long enough to keep. */
  function SpanCandidates(text: string, ms: seq<Match>): (qs: seq<Question>)
    requires Ordered(text, ms)
    ensures |qs| == |ms|
  {
    seq(|ms|, i requires 0 <= i < |ms| => SpanQuestion(text, ms, i))
  }

  /** Which candidates are long enough to keep. */
  function LongFlags(cands: seq<Question>): (keep: seq<bool>)
    ensures |keep| == |cands|
  {
    seq(|cands|, i requires 0 <= i < |cands| => |cands[i].text| > MinSpanLength)
  }

  /** Which spans are long enough to keep once normalised. */
  function SpanKeep(text: string, ms: seq<Match>): (keep: seq<bool>)
    requires Ordered(text, ms)
    ensures |keep| == |ms|
  {
    LongFlags(SpanCandidates(text, ms))
  }

  /** The long enough candidates among the first `n`, in order, as the loop over the matches accumulates them. */
  function KeepLong(cands: seq<Question>, n: nat): seq<Question>
    requires n <= |cands|
  {
    if n == 0 then []
    else KeepLong(cands, n - 1) + (if |cands[n - 1].text| > MinSpanLength then [cands[n - 1]] else [])
  }

  /** The questions cut at the boundaries `ms`: the long enough spans, in order. */
  function SpanQuestions(text: string, ms: seq<Match>): seq<Question>
    requires Ordered(text, ms)
  {
    KeepLong(SpanCandidates(text, ms), |ms|)
  }

  /** The loop step: the span's normalised text decides whether its question is appended. */
  lemma CutStep(text: string, ms: seq<Match>, i: nat, acc: seq<Question>, t: string)
    requires Ordered(text, ms) && i < |ms|
    requires acc == KeepLong(SpanCandidates(text, ms), i) && t == CleanText(Strip(text[ms[i].start..SpanEnd(text, ms, i)]))
    ensures KeepLong(SpanCandidates(text, ms), i + 1) == if |t| > MinSpanLength then acc + [Question(Group(text, ms[i]), t)] else acc
  {
    assert SpanCandidates(text, ms)[i] == Question(Group(text, ms[i]), t);
  }

  /** The kept candidates among the first `n` are the filter of those candidates by their flags. */
  lemma {:induction false} KeepLongIsFilter(cands: seq<Question>, n: nat)
    requires n <= |cands|
    ensures KeepLong(cands, n) == FilterBy(cands[..n], LongFlags(cands)[..n])
  {
    if n > 0 {
      KeepLongIsFilter(cands, n - 1);
      FilterBySnoc(cands, LongFlags(cands), n - 1);
    }
  }

  /** Every kept candidate is longer than the minimum. */
  lemma {:induction false} KeepLongAreLong(cands: seq<Question>, n: nat)
    requires n <= |cands|
    ensures forall q :: q in KeepLong(cands, n) ==> |q.text| > MinSpanLength
  {
    if n > 0 {
      KeepLongAreLong(cands, n - 1);
    }
  }

  /** The questions cut at the boundaries are the candidates whose flag is set, in order. */
  lemma SpanQuestionsAreFiltered(text: string, ms: seq<Match>)
    requires Ordered(text, ms)
    ensures SpanQuestions(text, ms) == FilterBy(SpanCandidates(text, ms), SpanKeep(text, ms))
  {
    var cands := SpanCandidates(text, ms);
    KeepLongIsFilter(cands, |ms|);
    assert cands[..|ms|] == cands;
    assert LongFlags(cands)[..|ms|] == LongFlags(cands);
  }

  /** The `j`-th question is the span at the `j`-th retained index. */
  lemma SpanQuestionsAreRetained(text: string, ms: seq<Match>)
    requires Ordered(text, ms)
    ensures var qs := SpanQuestions(text, ms);
            var r := KeptIndices(SpanKeep(text, ms));
            && |qs| == |r|
            && forall j :: 0 <= j < |r| ==> r[j] < |ms| && qs[j] == SpanQuestion(text, ms, r[j])
  {
    SpanQuestionsAreFiltered(text, ms);
    FilterByKept(SpanCandidates(text, ms), SpanKeep(text, ms));
  }

  /** The retained spans are in boundary order and are exactly those whose normalised text is longer than the minimum. */
  lemma RetainedSpansAreLong(text: string, ms: seq<Match>)
    requires Ordered(text, ms)
    ensures var r := KeptIndices(SpanKeep(text, ms));
            && (forall j :: 0 <= j < |r| - 1 ==> r[j] < r[j + 1])
            && (forall i :: 0 <= i < |ms| ==> (i in r <==> |SpanText(text, ms, i)| > MinSpanLength))
  {
    var keep := SpanKeep(text, ms);
    var cands := SpanCandidates(text, ms);
    forall i | 0 <= i < |ms| ensures keep[i] == (|SpanText(text, ms, i)| > MinSpanLength) {
      assert cands[i].text == SpanText(text, ms, i);
    }
  }

  /** Every question cut at boundaries is longer than the minimum. */
  lemma SpanQuestionsAreLong(text: string, ms: seq<Match>)
    requires Ordered(text, ms)
    ensures forall q :: q in SpanQuestions(text, ms) ==> |q.text| > MinSpanLength
  {
    KeepLongAreLong(SpanCandidates(text, ms), |ms|);
  }

  /** A span's question text is the normalised raw span; the extra strip changes nothing. */
  lemma SpanTextIsCleanSpan(text: string, ms: seq<Match>, i: nat)
    requires Ordered(text, ms) && i < |ms|
    ensures SpanText(text, ms, i) == CleanText(SpanRaw(text, ms, i))
    ensures Normal(SpanText(text, ms, i))
  {
    CleanTextIgnoresStrip(SpanRaw(text, ms, i));
    CleanTextNormal(Strip(SpanRaw(text, ms, i)));
  }

  /** The identifier of every span question is the number its boundary captured. */
  lemma SpanQuestionIdIsNumber(text: string, ms: seq<Match>, i: nat)
    requires Ordered(text, ms) && i < |ms| && DigitGroup(text, ms[i])
    ensures SpanQuestion(text, ms, i).id != []
    ensures forall k :: 0 <= k < |SpanQuestion(text, ms, i).id| ==> IsDigit(SpanQuestion(text, ms, i).id[k])
    ensures SpanQuestion(text, ms, i).id == text[ms[i].groupStart..ms[i].groupEnd]
  {
    assert WellFormed(text, ms[i]);
    assert SpanQuestion(text, ms, i).id == Group(text, ms[i]);
    GroupIsDigits(text, ms[i]);
  }

  // ---------------------------------------------------------------------
  // Patterns in priority order, then paragraphs
  // ---------------------------------------------------------------------

  /** What the `k`-th boundary pattern yields: nothing unless it matches at least twice. */
  function PatternQuestions(text: string, k: nat): (qs: seq<Question>)
    requires k < |BoundaryPatterns|
    ensures qs != [] ==> |FindIter(BoundaryPatterns[k], text, 0)| >= 2
  {
    var ms := FindIter(BoundaryPatterns[k], text, 0);
    if |ms| >= 2 then SpanQuestions(text, ms) else []
  }

  /** Every paragraph as a question numbered by its position among all paragraphs. */
  function ParagraphCandidates(paras: seq<string>): (qs: seq<Question>)
    ensures |qs| == |paras|
  {
    seq(|paras|, i requires 0 <= i < |paras| => Question(DecimalString(i + 1), CleanText(Strip(paras[i]))))
  }

  /** Which paragraphs are long enough to keep, judged on the stripped paragraph before normalising. */
  function ParagraphKeep(paras: seq<string>): (keep: seq<bool>)
    ensures |keep| == |paras|
  {
    seq(|paras|, i requires 0 <= i < |paras| => |Strip(paras[i])| > MinParagraphLength)
  }

  /** The questions made from paragraphs: the long enough ones, in order. */
  function ParagraphQuestions(paras: seq<string>): seq<Question> {
    FilterBy(ParagraphCandidates(paras), ParagraphKeep(paras))
  }

  /**
   * The `j`-th paragraph question is the retained paragraph at index `i`, numbered `i + 1`
   * among all paragraphs (so numbers skip the dropped ones), with the paragraph normalised.
   */
  lemma ParagraphQuestionsAreRetained(paras: seq<string>)
    ensures var qs := ParagraphQuestions(paras);
            var r := KeptIndices(ParagraphKeep(paras));
            && |qs| == |r|
            && forall j :: 0 <= j < |r| ==>
                 r[j] < |paras| && qs[j] == Question(DecimalString(r[j] + 1), CleanText(Strip(paras[r[j]])))
  {
    FilterByKept(ParagraphCandidates(paras), ParagraphKeep(paras));
  }

  /** The retained paragraphs are in order and are exactly those longer than the minimum once stripped. */
  lemma RetainedParagraphsAreLong(paras: seq<string>)
    ensures var r := KeptIndices(ParagraphKeep(paras));
            && (forall j :: 0 <= j < |r| - 1 ==> r[j] < r[j + 1])
            && (forall i :: 0 <= i < |paras| ==> (i in r <==> |Strip(paras[i])| > MinParagraphLength))
  {
    var keep := ParagraphKeep(paras);
    assert forall i :: 0 <= i < |paras| ==> keep[i] == (|Strip(paras[i])| > MinParagraphLength);
  }

  /** A paragraph question's number reads back as its 1-based position among all paragraphs. */
  lemma ParagraphIdIsPosition(paras: seq<string>, i: nat)
    requires i < |paras|
    ensures DecimalValue(ParagraphCandidates(paras)[i].id) == i + 1
  {
    DecimalRoundTrip(i + 1);
  }

  /** The fallback: the paragraphs of the text, separated by blank lines. */
  function ParagraphFallback(text: string): seq<Question> {
    ParagraphQuestions(Split(text, ParagraphBreak))
  }

  /** The segmentation from pattern `k` on: the first pattern that yields something, else the paragraphs. */
  function SegmentFrom(text: string, k: nat): seq<Question>
    requires k <= |BoundaryPatterns|
    decreases |BoundaryPatterns| - k
  {
    if k == |BoundaryPatterns| then ParagraphFallback(text)
    else
      var qs := PatternQuestions(text, k);
      if qs != [] then qs else SegmentFrom(text, k + 1)
  }

  /** `split_into_questions`. */
  function Segment(text: string): seq<Question> {
    SegmentFrom(text, 0)
  }

  /** Patterns that yield nothing are skipped. */
  lemma {:induction false} SegmentFromSkips(text: string, i: nat, k: nat)
    requires i <= k <= |BoundaryPatterns|
    requires forall j :: i <= j < k ==> PatternQuestions(text, j) == []
    ensures SegmentFrom(text, i) == SegmentFrom(text, k)
    decreases k - i
  {
    if i < k {
      SegmentFromSkips(text, i + 1, k);
    }
  }

  /** The first pattern that yields a question supplies all the questions; no later pattern is mixed in. */
  lemma SegmentTakesFirstProductivePattern(text: string, k: nat)
    requires k < |BoundaryPatterns| && PatternQuestions(text, k) != []
    requires forall j :: 0 <= j < k ==> PatternQuestions(text, j) == []
    ensures Segment(text) == PatternQuestions(text, k)
    ensures |FindIter(BoundaryPatterns[k], text, 0)| >= 2
  {
    SegmentFromSkips(text, 0, k);
  }

  /** When no pattern yields a question, the questions are the long paragraphs. */
  lemma SegmentFallsBackToParagraphs(text: string)
    requires forall j :: 0 <= j < |BoundaryPatterns| ==> PatternQuestions(text, j) == []
    ensures Segment(text) == ParagraphFallback(text)
  {
    SegmentFromSkips(text, 0, |BoundaryPatterns|);
  }

  /** The paragraphs the fallback looks at cover the text: joined with blank lines they give it back. */
  lemma ParagraphsCoverText(text: string)
    ensures Join(Split(text, ParagraphBreak), ParagraphBreak) == text
  {
    JoinSplit(text, ParagraphBreak);
  }

  /** The loop over one pattern's matches: cut, strip and normalise each span, keep the long ones. */
  method CutAtBoundaries(text: string, matches: seq<Match>) returns (questions: seq<Question>)
    requires Ordered(text, matches)
    ensures questions == SpanQuestions(text, matches)
  {
    questions := [];
    var i := 0;
    while i < |matches|
      invariant 0 <= i <= |matches|
      invariant questions == KeepLong(SpanCandidates(text, matches), i)
    {
      var start := matches[i].start;
      var end := if i + 1 < |matches| then matches[i + 1].start else |text|;
      assert end == SpanEnd(text, matches, i);
      var questionText := Strip(text[start..end]);
      questionText := CleanText(questionText);
      CutStep(text, matches, i, questions, questionText);
      if |questionText| > MinSpanLength {
        questions := questions + [Question(Group(text, matches[i]), questionText)];
      }
      i := i + 1;
    }
  }

  /** The fallback loop: keep each paragraph that is long enough once stripped, numbered by its position. */
  method KeepLongParagraphs(paragraphs: seq<string>) returns (questions: seq<Question>)
    ensures questions == ParagraphQuestions(paragraphs)
  {
    ghost var candidates := ParagraphCandidates(paragraphs);
    ghost var keep := ParagraphKeep(paragraphs);
    questions := [];
    var i := 0;
    while i < |paragraphs|
      invariant 0 <= i <= |paragraphs|
      invariant questions == FilterBy(candidates[..i], keep[..i])
    {
      var para := Strip(paragraphs[i]);
      FilterBySnoc(candidates, keep, i);
      if |para| > MinParagraphLength {
        questions := questions + [Question(DecimalString(i + 1), CleanText(para))];
      }
      i := i + 1;
    }
    assert candidates[..i] == candidates && keep[..i] == keep;
  }

  /**
   * `split_into_questions`: each pattern in turn cuts the text at its matches when it
   * matches at least twice, stopping at the first that keeps a question; failing
   * that, the long paragraphs are kept.
   */
  method SplitIntoQuestions(text: string) returns (questions: seq<Question>)
    ensures questions == Segment(text)
  {
    questions := [];
    var k := 0;
    while k < |BoundaryPatterns|
      invariant 0 <= k <= |BoundaryPatterns|
      invariant questions == []
      invariant Segment(text) == SegmentFrom(text, k)
    {
      var matches := FindIter(BoundaryPatterns[k], text, 0);
      if |matches| >= 2 {
        questions := CutAtBoundaries(text, matches);
        if questions != [] {
          break;
        }
      }
      k := k + 1;
    }
    if questions == [] {
      questions := KeepLongParagraphs(Split(text, ParagraphBreak));
    }
  }
}
