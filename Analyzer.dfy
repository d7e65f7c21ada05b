/**
 * The analyser: the year of an exam file, the classification cascade (local rules
 * first, the remote classifier only when they give none), the records it stores
 * and the critical list computed from them.
 */
module Analyzer {
  import opened Wrappers
  import opened PyText
  import opened QuestionTypes
  import opened Patterns
  import opened Segmenter
  import opened RuleClassifier
  import opened GeminiClient
  import opened Ranking
  import opened Seqs

  /** At most this many characters of a question are stored. */
  const MaxStoredText: nat := 500

  const PdfSuffix := ".pdf"

  // ---------------------------------------------------------------------
  // The year of a file
  // ---------------------------------------------------------------------

  /** `_extract_year`: the first `19dd`/`20dd` in the name, else the name without `.pdf`. */
  function ExtractYear(filename: string): string {
    match SearchYear(filename, 0)
    case Some(i) => filename[i..i + 4]
    case None => Replace(filename, PdfSuffix, "")
  }

  /** A name holding a year gives the leftmost one: four digits beginning `19` or `20`. */
  lemma ExtractYearFindsFirstYear(filename: string, i: nat)
    requires YearAt(filename, i)
    ensures var j := SearchYear(filename, 0).value;
            && j <= i && YearAt(filename, j)
            && ExtractYear(filename) == filename[j..j + 4]
            && (ExtractYear(filename)[..2] == "19" || ExtractYear(filename)[..2] == "20")
            && IsDigit(ExtractYear(filename)[2]) && IsDigit(ExtractYear(filename)[3])
  {
    var j := SearchYear(filename, 0).value;
    assert filename[j..j + 4][..2] == filename[j..j + 2];
  }

  /** No `.pdf` starts inside a name that does not contain it, not even one running into an appended `.pdf`. */
  lemma NoEarlySuffix(base: string, i: nat)
    requires !Contains(base, PdfSuffix) && i < |base|
    ensures !OccursAt(base + PdfSuffix, PdfSuffix, i)
  {
    var s := base + PdfSuffix;
    if i + 4 <= |base| {
      assert s[i..i + 4] == base[i..i + 4];
      assert !OccursAt(base, PdfSuffix, i);
    } else if i + 4 <= |s| {
      assert s[i..i + 4][|base| - i] == s[|base|] == '.';
    }
  }

  /** In `name.pdf` the first `.pdf` is the appended one when `name` does not contain it. */
  lemma SuffixIsFirstOccurrence(base: string)
    requires !Contains(base, PdfSuffix)
    ensures Find(base + PdfSuffix, PdfSuffix) == |base|
  {
    var s := base + PdfSuffix;
    OccursAtEnd(base, PdfSuffix);
    forall i: nat | i < |base| ensures !OccursAt(s, PdfSuffix, i) {
      NoEarlySuffix(base, i);
    }
    FindIsFirst(s, PdfSuffix, |base|);
  }

  /** Without a year, a name without `.pdf` is kept as it is. */
  lemma ExtractYearKeepsPlainName(filename: string)
    requires SearchYear(filename, 0).None? && !Contains(filename, PdfSuffix)
    ensures ExtractYear(filename) == filename
  {
    SplitFirstPiece(filename, PdfSuffix);
  }

  /** Without a year, `name.pdf` gives `name` when `name` does not itself contain `.pdf`. */
  lemma ExtractYearDropsSuffix(base: string)
    requires SearchYear(base + PdfSuffix, 0).None? && !Contains(base, PdfSuffix)
    ensures ExtractYear(base + PdfSuffix) == base
  {
    var s := base + PdfSuffix;
    SuffixIsFirstOccurrence(base);
    SplitFirstPiece(s, PdfSuffix);
    assert s[..|base|] == base;
    assert s[|base| + 4..] == [];
    SplitFirstPiece([], PdfSuffix);
    assert Split(s, PdfSuffix) == [base, []];
    JoinCons(base, [[]], "");
    assert Join([base, []], "") == base;
  }

  // ---------------------------------------------------------------------
  // The cascade and the records
  // ---------------------------------------------------------------------

  /**
   * The classification of one question: the local rules when they decide, otherwise
   * the remote classifier on the outcome of `call` (the HTTP request) with `parse`
   * standing for `json.loads`.
   */
  function Cascade(text: string, call: string -> Response, parse: string -> Option<map<string, JsonValue>>)
    : Classification
  {
    match RuleBased(text)
    case Some(c) => c
    case None => ClassifyQuestion(call(text), parse)
  }

  /** The cascade as a classifier of texts. */
  function Classifier(call: string -> Response, parse: string -> Option<map<string, JsonValue>>)
    : string -> Classification
  {
    text => Cascade(text, call, parse)
  }

  /** The texts the local rules cannot decide. */
  function Undecided(): string -> bool {
    text => RuleBased(text).None?
  }

  /** The stored record of one question. */
  function RecordOf(year: string, q: Question, c: Classification): QuestionRecord {
    var n := if |q.text| <= MaxStoredText then |q.text| else MaxStoredText;
    QuestionRecord(year, q.id, q.text[..n], c.questionType, c.isComposite)
  }

  /** The records of the questions of one year, in question order, under `classify`. */
  function Records(year: string, qs: seq<Question>, classify: string -> Classification): (rs: seq<QuestionRecord>)
    ensures |rs| == |qs|
  {
    if qs == [] then []
    else
      var n := |qs| - 1;
      Records(year, qs[..n], classify) + [RecordOf(year, qs[n], classify(qs[n].text))]
  }

  /** The question texts handed to the remote classifier, in question order. */
  function RemoteQueries(qs: seq<Question>, undecided: string -> bool): seq<string> {
    if qs == [] then []
    else
      var n := |qs| - 1;
      RemoteQueries(qs[..n], undecided) + (if undecided(qs[n].text) then [qs[n].text] else [])
  }

  /** `analyze_questions` over the extracted (year, text) pairs, in their order. */
  function AllRecords(pdfTexts: seq<(string, string)>, split: string -> seq<Question>,
                      classify: string -> Classification): seq<QuestionRecord>
  {
    if pdfTexts == [] then []
    else
      var n := |pdfTexts| - 1;
      AllRecords(pdfTexts[..n], split, classify) + Records(pdfTexts[n].0, split(pdfTexts[n].1), classify)
  }

  /** The remote queries of `analyze_questions`, in order. */
  function AllRemoteQueries(pdfTexts: seq<(string, string)>, split: string -> seq<Question>,
                            undecided: string -> bool): seq<string>
  {
    if pdfTexts == [] then []
    else
      var n := |pdfTexts| - 1;
      AllRemoteQueries(pdfTexts[..n], split, undecided) + RemoteQueries(split(pdfTexts[n].1), undecided)
  }

  /** How many questions the texts split into. */
  function TotalQuestions(pdfTexts: seq<(string, string)>, split: string -> seq<Question>): nat {
    if pdfTexts == [] then 0
    else TotalQuestions(pdfTexts[..|pdfTexts| - 1], split) + |split(pdfTexts[|pdfTexts| - 1].1)|
  }

  /** One more question appends its record. */
  lemma RecordsSnoc(year: string, qs: seq<Question>, i: nat, classify: string -> Classification)
    requires i < |qs|
    ensures Records(year, qs[..i + 1], classify)
         == Records(year, qs[..i], classify) + [RecordOf(year, qs[i], classify(qs[i].text))]
  {
    assert qs[..i + 1][..i] == qs[..i];
  }

  /** One more question appends its text when it is undecided. */
  lemma RemoteQueriesSnoc(qs: seq<Question>, i: nat, undecided: string -> bool)
    requires i < |qs|
    ensures RemoteQueries(qs[..i + 1], undecided)
         == RemoteQueries(qs[..i], undecided) + (if undecided(qs[i].text) then [qs[i].text] else [])
  {
    assert qs[..i + 1][..i] == qs[..i];
  }

  /** One more year appends the records of its questions. */
  lemma AllRecordsSnoc(pdfTexts: seq<(string, string)>, y: nat, split: string -> seq<Question>,
                       classify: string -> Classification)
    requires y < |pdfTexts|
    ensures AllRecords(pdfTexts[..y + 1], split, classify)
         == AllRecords(pdfTexts[..y], split, classify) + Records(pdfTexts[y].0, split(pdfTexts[y].1), classify)
  {
    assert pdfTexts[..y + 1][..y] == pdfTexts[..y];
  }

  /** One more year appends its remote queries. */
  lemma AllRemoteQueriesSnoc(pdfTexts: seq<(string, string)>, y: nat, split: string -> seq<Question>,
                             undecided: string -> bool)
    requires y < |pdfTexts|
    ensures AllRemoteQueries(pdfTexts[..y + 1], split, undecided)
         == AllRemoteQueries(pdfTexts[..y], split, undecided) + RemoteQueries(split(pdfTexts[y].1), undecided)
  {
    assert pdfTexts[..y + 1][..y] == pdfTexts[..y];
  }

  /** The local rules decide when they can; the remote classifier is used exactly when they cannot. */
  lemma CascadePrefersRules(text: string, call: string -> Response,
                            parse: string -> Option<map<string, JsonValue>>)
    ensures RuleBased(text).Some? ==> Cascade(text, call, parse) == RuleBased(text).value
    ensures RuleBased(text).None? ==> Cascade(text, call, parse) == ClassifyQuestion(call(text), parse)
    ensures Name(Cascade(text, call, parse).questionType) in ValidTypes
  {
    NameRoundTrip(Cascade(text, call, parse).questionType);
  }

  /**
   * The switch in keyword terms: a text holding some keyword is classified by the local
   * rules, and only a text holding none is sent to the remote classifier.
   */
  lemma CascadeByKeyword(text: string, call: string -> Response,
                         parse: string -> Option<map<string, JsonValue>>)
    ensures (exists t, k :: t in BaseTypes && 0 <= k < |Keywords(t)| && Contains(Lower(text), Keywords(t)[k])) ==>
              RuleBased(text).Some? && Cascade(text, call, parse) == RuleBased(text).value
    ensures (forall t, k :: t in BaseTypes && 0 <= k < |Keywords(t)| ==> !Contains(Lower(text), Keywords(t)[k])) ==>
              Cascade(text, call, parse) == ClassifyQuestion(call(text), parse)
  {
    NoneIffNoKeyword(text);
  }

  /**
   * One record per question, in question order: it carries the year and the id, the
   * question's first (at most) 500 characters and the classification of its text.
   */
  lemma {:induction false} RecordsFollowQuestions(year: string, qs: seq<Question>,
                                                  classify: string -> Classification)
    ensures var rs := Records(year, qs, classify);
            forall i :: 0 <= i < |qs| ==>
              && rs[i].year == year && rs[i].questionId == qs[i].id
              && |rs[i].questionText| <= MaxStoredText
              && rs[i].questionText <= qs[i].text
              && (|qs[i].text| <= MaxStoredText ==> rs[i].questionText == qs[i].text)
              && rs[i].questionType == classify(qs[i].text).questionType
              && rs[i].isComposite == classify(qs[i].text).isComposite
  {
    if qs != [] {
      var n := |qs| - 1;
      RecordsFollowQuestions(year, qs[..n], classify);
      assert forall i :: 0 <= i < n ==> qs[..n][i] == qs[i];
    }
  }

  /** Every text sent to the remote classifier is an undecided one, and there are no more than questions. */
  lemma {:induction false} RemoteOnlyWhenUndecided(qs: seq<Question>, undecided: string -> bool)
    ensures forall t :: t in RemoteQueries(qs, undecided) ==> undecided(t)
    ensures |RemoteQueries(qs, undecided)| <= |qs|
  {
    if qs != [] {
      RemoteOnlyWhenUndecided(qs[..|qs| - 1], undecided);
    }
  }

  /** Every undecided question is sent to the remote classifier. */
  lemma {:induction false} UndecidedAreQueried(qs: seq<Question>, undecided: string -> bool, i: nat)
    requires i < |qs| && undecided(qs[i].text)
    ensures qs[i].text in RemoteQueries(qs, undecided)
  {
    var n := |qs| - 1;
    if i < n {
      UndecidedAreQueried(qs[..n], undecided, i);
      assert qs[..n][i] == qs[i];
    }
  }

  /** Every question of every year gives exactly one record. */
  lemma {:induction false} OneRecordPerQuestion(pdfTexts: seq<(string, string)>, split: string -> seq<Question>,
                                                classify: string -> Classification)
    ensures |AllRecords(pdfTexts, split, classify)| == TotalQuestions(pdfTexts, split)
  {
    if pdfTexts != [] {
      OneRecordPerQuestion(pdfTexts[..|pdfTexts| - 1], split, classify);
    }
  }

  /** The texts sent to the remote classifier are exactly the undecided ones (for the local rules). */
  lemma RemoteQueriesAreUndecided(qs: seq<Question>)
    ensures forall t :: t in RemoteQueries(qs, Undecided()) ==> RuleBased(t).None?
    ensures forall i :: 0 <= i < |qs| && RuleBased(qs[i].text).None? ==> qs[i].text in RemoteQueries(qs, Undecided())
  {
    RemoteOnlyWhenUndecided(qs, Undecided());
    forall i | 0 <= i < |qs| && RuleBased(qs[i].text).None?
      ensures qs[i].text in RemoteQueries(qs, Undecided())
    {
      UndecidedAreQueried(qs, Undecided(), i);
    }
  }

  /** Over all years, every text sent to the remote classifier is an undecided one. */
  lemma {:induction false} AllRemoteOnlyWhenUndecided(pdfTexts: seq<(string, string)>, split: string -> seq<Question>,
                                                      undecided: string -> bool)
    ensures forall t :: t in AllRemoteQueries(pdfTexts, split, undecided) ==> undecided(t)
  {
    if pdfTexts != [] {
      var n := |pdfTexts| - 1;
      AllRemoteOnlyWhenUndecided(pdfTexts[..n], split, undecided);
      RemoteOnlyWhenUndecided(split(pdfTexts[n].1), undecided);
    }
  }

  /** Over all years, every undecided question of every year is sent to the remote classifier. */
  lemma {:induction false} AllUndecidedAreQueried(pdfTexts: seq<(string, string)>, split: string -> seq<Question>,
                                                  undecided: string -> bool, y: nat, i: nat)
    requires y < |pdfTexts| && i < |split(pdfTexts[y].1)| && undecided(split(pdfTexts[y].1)[i].text)
    ensures split(pdfTexts[y].1)[i].text in AllRemoteQueries(pdfTexts, split, undecided)
  {
    var n := |pdfTexts| - 1;
    if y < n {
      assert pdfTexts[..n][y] == pdfTexts[y];
      AllUndecidedAreQueried(pdfTexts[..n], split, undecided, y, i);
    } else {
      UndecidedAreQueried(split(pdfTexts[n].1), undecided, i);
    }
  }

  /**
   * What `analyze_questions` sends to the remote classifier, over all years: only texts the
   * local rules cannot decide, and every question of every year that they cannot decide.
   */
  lemma AllRemoteQueriesAreUndecided(pdfTexts: seq<(string, string)>)
    ensures forall t :: t in AllRemoteQueries(pdfTexts, Segment, Undecided()) ==> RuleBased(t).None?
    ensures forall y, i :: 0 <= y < |pdfTexts| && 0 <= i < |Segment(pdfTexts[y].1)|
                           && RuleBased(Segment(pdfTexts[y].1)[i].text).None?
                           ==> Segment(pdfTexts[y].1)[i].text in AllRemoteQueries(pdfTexts, Segment, Undecided())
  {
    AllRemoteOnlyWhenUndecided(pdfTexts, Segment, Undecided());
    forall y, i | 0 <= y < |pdfTexts| && 0 <= i < |Segment(pdfTexts[y].1)| && RuleBased(Segment(pdfTexts[y].1)[i].text).None?
      ensures Segment(pdfTexts[y].1)[i].text in AllRemoteQueries(pdfTexts, Segment, Undecided())
    {
      AllUndecidedAreQueried(pdfTexts, Segment, Undecided(), y, i);
    }
  }

  // ---------------------------------------------------------------------
  // The analyser object
  // ---------------------------------------------------------------------

  class BacAnalyzer {
    /** The records analysed so far (`self.questions`). */
    var questions: seq<QuestionRecord>
    /** The texts sent to the remote classifier so far. */
    ghost var remoteQueries: seq<string>
    /** The HTTP request to the remote classifier, as a function of the question. */
    const call: string -> Response
    /** `json.loads`. */
    const parse: string -> Option<map<string, JsonValue>>

    constructor (call: string -> Response, parse: string -> Option<map<string, JsonValue>>)
      ensures questions == [] && remoteQueries == []
      ensures this.call == call && this.parse == parse
    {
      questions := [];
      remoteQueries := [];
      this.call := call;
      this.parse := parse;
    }

    /** One question through the cascade; the remote classifier is asked only when the rules give none. */
    method ClassifyOne(text: string) returns (c: Classification)
      modifies this
      ensures c == Classifier(call, parse)(text)
      ensures questions == old(questions)
      ensures remoteQueries == old(remoteQueries) + (if Undecided()(text) then [text] else [])
    {
      var classification := ClassifyRuleBased(text);
      if classification.None? {
        remoteQueries := remoteQueries + [text];
        c := ClassifyQuestion(call(text), parse);
      } else {
        c := classification.value;
      }
    }

    /** The inner loop of `analyze_questions`: a record per question of one year. */
    method AnalyzeYear(year: string, qs: seq<Question>)
      modifies this
      ensures questions == old(questions) + Records(year, qs, Classifier(call, parse))
      ensures remoteQueries == old(remoteQueries) + RemoteQueries(qs, Undecided())
    {
      var i := 0;
      while i < |qs|
        invariant 0 <= i <= |qs|
        invariant questions == old(questions) + Records(year, qs[..i], Classifier(call, parse))
        invariant remoteQueries == old(remoteQueries) + RemoteQueries(qs[..i], Undecided())
      {
        var q := qs[i];
        var classification := ClassifyOne(q.text);
        var n := if |q.text| <= MaxStoredText then |q.text| else MaxStoredText;
        questions := questions + [QuestionRecord(year, q.id, q.text[..n],
                                                 classification.questionType, classification.isComposite)];
        RecordsSnoc(year, qs, i, Classifier(call, parse));
        RemoteQueriesSnoc(qs, i, Undecided());
        AppendAssoc(old(questions), Records(year, qs[..i], Classifier(call, parse)),
                    [RecordOf(year, q, classification)]);
        AppendAssoc(old(remoteQueries), RemoteQueries(qs[..i], Undecided()),
                    if Undecided()(q.text) then [q.text] else []);
        i := i + 1;
      }
      assert qs[..i] == qs;
    }

    /** `analyze_questions`: every year's text is split and each question recorded, in order. */
    method AnalyzeQuestions(pdfTexts: seq<(string, string)>)
      modifies this
      ensures questions == old(questions) + AllRecords(pdfTexts, Segment, Classifier(call, parse))
      ensures remoteQueries == old(remoteQueries) + AllRemoteQueries(pdfTexts, Segment, Undecided())
    {
      var y := 0;
      while y < |pdfTexts|
        invariant 0 <= y <= |pdfTexts|
        invariant questions == old(questions) + AllRecords(pdfTexts[..y], Segment, Classifier(call, parse))
        invariant remoteQueries == old(remoteQueries) + AllRemoteQueries(pdfTexts[..y], Segment, Undecided())
      {
        var (year, text) := pdfTexts[y];
        var qs := SplitIntoQuestions(text);
        AnalyzeYear(year, qs);
        AllRecordsSnoc(pdfTexts, y, Segment, Classifier(call, parse));
        AllRemoteQueriesSnoc(pdfTexts, y, Segment, Undecided());
        AppendAssoc(old(questions), AllRecords(pdfTexts[..y], Segment, Classifier(call, parse)),
                    Records(year, qs, Classifier(call, parse)));
        AppendAssoc(old(remoteQueries), AllRemoteQueries(pdfTexts[..y], Segment, Undecided()),
                    RemoteQueries(qs, Undecided()));
        y := y + 1;
      }
      assert pdfTexts[..y] == pdfTexts;
    }

    /**
     * `identify_critical_questions`. The records may not be empty: the source then has
     * no `question_type` column to count.
     */
    method IdentifyCriticalQuestions() returns (critical: seq<CriticalQuestion>)
      requires |questions| > 0
      ensures critical == CriticalList(questions)
    {
      var topTypes := TopTypes(questions);
      ghost var candidates := Candidates(questions, topTypes);
      ghost var keep := Keep(questions, topTypes);
      critical := [];
      var i := 0;
      while i < |questions|
        invariant 0 <= i <= |questions|
        invariant critical == FilterBy(candidates[..i], keep[..i])
      {
        var row := questions[i];
        var importanceScore := 0;
        var reasons: seq<string> := [];
        if row.questionType in topTypes {
          importanceScore := importanceScore + FrequentWeight;
          var rank := IndexOf(topTypes, row.questionType) + 1;
          reasons := reasons + [FrequentReasonPrefix + DecimalString(rank) + FrequentReasonSuffix];
        }
        if row.isComposite {
          importanceScore := importanceScore + CompositeWeight;
          reasons := reasons + [CompositeReason];
        }
        CriticalStep(questions, topTypes, i, critical, importanceScore, reasons);
        if importanceScore > 0 {
          critical := critical + [CriticalQuestion(row.year, row.questionId, row.questionText, row.questionType,
                                                   importanceScore, Join(reasons, ReasonSeparator))];
        }
        i := i + 1;
      }
      assert candidates[..i] == candidates && keep[..i] == keep;
      critical := SortDesc(critical, ScoreOf);
    }
  }
}
