/**
 * The local classifier: keyword hits per type decide the type, a tie gives `mixed`,
 * and no hit at all leaves the question to the remote classifier. The composite
 * detector counts the matches of four indicator patterns.
 */
module RuleClassifier {
  import opened Wrappers
  import opened PyText
  import opened QuestionTypes
  import opened Patterns
  import opened Seqs

  /** The keyword table, in its listed order; `deduce` is listed twice for deduction. */
  function Keywords(t: QuestionType): seq<string> {
    match t
    case Calculation => ["احسب", "أحسب", "calculate", "عين", "أوجد قيمة"]
    case Proof => ["أثبت", "برهن", "prove", "استنتج أن", "بين أن"]
    case Interpretation => ["فسر", "علل", "interpret", "لماذا", "ما سبب"]
    case Representation => ["ارسم", "مثل", "draw", "أنشئ منحنى", "plot"]
    case EquationSolving => ["حل المعادلة", "solve", "أوجد الحلول"]
    case Deduction => ["استنتج", "deduce", "ماذا تستنتج", "deduce"]
    case Mixed => []
  }

  /** How many entries of `kws` (repeats counted) occur in `lower`. */
  function Score(lower: string, kws: seq<string>): (n: nat)
    ensures n <= |kws|
  {
    if kws == [] then 0
    else Score(lower, kws[..|kws| - 1]) + (if Contains(lower, kws[|kws| - 1]) then 1 else 0)
  }

  /** A score is zero exactly when none of the keywords occurs. */
  lemma {:induction false} ScoreZeroIff(lower: string, kws: seq<string>)
    ensures Score(lower, kws) == 0 <==> forall k :: 0 <= k < |kws| ==> !Contains(lower, kws[k])
  {
    if kws != [] {
      var n := |kws| - 1;
      ScoreZeroIff(lower, kws[..n]);
      assert forall k :: 0 <= k < n ==> kws[..n][k] == kws[k];
    }
  }

  /** A score table over `types`: each type's keyword hits in `lower`. */
  function Tabulate(lower: string, types: seq<QuestionType>, keywordsOf: QuestionType -> seq<string>)
    : (m: map<QuestionType, nat>)
    ensures forall t :: t in m <==> t in types
    ensures forall t :: t in types ==> m[t] == Score(lower, keywordsOf(t))
  {
    map t | t in types :: Score(lower, keywordsOf(t))
  }

  /** The score table: each base type's keyword hits in the lower-cased text. */
  function Scores(lower: string): (m: map<QuestionType, nat>)
    ensures forall t :: t in m <==> t in BaseTypes
  {
    Tabulate(lower, BaseTypes, Keywords)
  }

  /** A type's score for a question text. */
  function TypeScore(text: string, t: QuestionType): nat {
    Score(Lower(text), Keywords(t))
  }

  /** `max(scores.values())` over the types `ts` (0 when there are none). */
  function MaxOver(m: map<QuestionType, nat>, ts: seq<QuestionType>): (r: nat)
    requires forall k :: 0 <= k < |ts| ==> ts[k] in m
    ensures forall k :: 0 <= k < |ts| ==> m[ts[k]] <= r
  {
    if ts == [] then 0
    else
      var rest := MaxOver(m, ts[1..]);
      assert forall k :: 1 <= k < |ts| ==> ts[k] == ts[1..][k - 1];
      if m[ts[0]] >= rest then m[ts[0]] else rest
  }

  /** Some listed type reaches the maximum. */
  lemma {:induction false} MaxOverReached(m: map<QuestionType, nat>, ts: seq<QuestionType>) returns (k: nat)
    requires forall k :: 0 <= k < |ts| ==> ts[k] in m
    requires ts != []
    ensures k < |ts| && m[ts[k]] == MaxOver(m, ts)
  {
    if |ts| == 1 || m[ts[0]] >= MaxOver(m, ts[1..]) {
      k := 0;
    } else {
      var j := MaxOverReached(m, ts[1..]);
      k := j + 1;
    }
  }

  /** The types of `ts` whose score is `s`, in order. */
  function AtScore(m: map<QuestionType, nat>, ts: seq<QuestionType>, s: nat): (r: seq<QuestionType>)
    requires forall k :: 0 <= k < |ts| ==> ts[k] in m
    ensures |r| <= |ts|
  {
    if ts == [] then []
    else
      var rest := AtScore(m, ts[1..], s);
      if m[ts[0]] == s then [ts[0]] + rest else rest
  }

  /** Exactly the listed types with score `s` are kept. */
  lemma {:induction false} AtScoreMembers(m: map<QuestionType, nat>, ts: seq<QuestionType>, s: nat)
    requires forall k :: 0 <= k < |ts| ==> ts[k] in m
    ensures forall t :: t in AtScore(m, ts, s) <==> t in ts && m[t] == s
  {
    if ts != [] {
      AtScoreMembers(m, ts[1..], s);
      assert forall t :: t in ts <==> t == ts[0] || t in ts[1..] by {
        assert ts == [ts[0]] + ts[1..];
      }
    }
  }

  /** Nothing is kept when no listed type has score `s`. */
  lemma {:induction false} AtScoreNone(m: map<QuestionType, nat>, ts: seq<QuestionType>, s: nat)
    requires forall k :: 0 <= k < |ts| ==> ts[k] in m
    requires forall k :: 0 <= k < |ts| ==> m[ts[k]] != s
    ensures AtScore(m, ts, s) == []
  {
    if ts != [] {
      assert forall k :: 0 <= k < |ts| - 1 ==> ts[1..][k] == ts[k + 1];
      AtScoreNone(m, ts[1..], s);
    }
  }

  /** When `t` is the only listed type with score `s` (and appears once), exactly `t` is kept. */
  lemma {:induction false} AtScoreUnique(m: map<QuestionType, nat>, ts: seq<QuestionType>, s: nat, t: QuestionType)
    requires forall k :: 0 <= k < |ts| ==> ts[k] in m
    requires Distinct(ts) && t in ts && m[t] == s
    requires forall u :: u in ts && u != t ==> m[u] != s
    ensures AtScore(m, ts, s) == [t]
  {
    var tail := ts[1..];
    assert forall k :: 0 <= k < |tail| ==> tail[k] == ts[k + 1];
    assert forall u :: u in tail ==> u in ts;
    if ts[0] == t {
      assert forall k :: 0 <= k < |tail| ==> tail[k] != t;
      AtScoreNone(m, tail, s);
    } else {
      assert Distinct(tail);
      assert t in tail by { assert ts == [ts[0]] + tail; }
      AtScoreUnique(m, tail, s, t);
    }
  }

  /** Keeping some of a list without repeats gives a list without repeats. */
  lemma {:induction false} AtScoreDistinct(m: map<QuestionType, nat>, ts: seq<QuestionType>, s: nat)
    requires forall k :: 0 <= k < |ts| ==> ts[k] in m
    requires Distinct(ts)
    ensures Distinct(AtScore(m, ts, s))
  {
    if ts != [] {
      assert Distinct(ts[1..]) by {
        assert forall k :: 0 <= k < |ts| - 1 ==> ts[1..][k] == ts[k + 1];
      }
      AtScoreDistinct(m, ts[1..], s);
      AtScoreMembers(m, ts[1..], s);
      var rest := AtScore(m, ts[1..], s);
      assert ts[0] !in ts[1..];
      assert ts[0] !in rest;
      if m[ts[0]] == s {
        var r := [ts[0]] + rest;
        assert forall k :: 1 <= k < |r| ==> r[k] == rest[k - 1];
      }
    }
  }

  /** The decision over the types `ts`: none without a hit, `mixed` on a tie, else the best type. */
  function DecideOver(m: map<QuestionType, nat>, ts: seq<QuestionType>): (r: Option<QuestionType>)
    requires forall k :: 0 <= k < |ts| ==> ts[k] in m
  {
    var top := MaxOver(m, ts);
    if top == 0 then None
    else
      var high := AtScore(m, ts, top);
      assert high != [] by {
        var k := MaxOverReached(m, ts);
        AtScoreMembers(m, ts, top);
        assert ts[k] in high;
      }
      if |high| > 1 then Some(Mixed) else Some(high[0])
  }

  /** The decision on the keyword table's score table. */
  function Decide(m: map<QuestionType, nat>): Option<QuestionType>
    requires forall t :: t in BaseTypes ==> t in m
  {
    DecideOver(m, BaseTypes)
  }

  // ---------------------------------------------------------------------
  // Composite questions
  // ---------------------------------------------------------------------

  /** The matches of the first `n` indicator patterns, added up. */
  function CompositeTotal(text: string, n: nat): nat
    requires n <= |CompositePatterns|
  {
    if n == 0 then 0 else CompositeTotal(text, n - 1) + CountMatches(CompositePatterns[n - 1], text, 0)
  }

  /** `_is_composite`: at least two indicator matches in all. */
  predicate IsCompositeText(text: string) {
    CompositeTotal(text, |CompositePatterns|) >= 2
  }

  /** The rule-based classification of a question text. */
  function RuleBased(text: string): (r: Option<Classification>)
    ensures r.Some? ==> r.value.isComposite == IsCompositeText(text)
  {
    match Decide(Scores(Lower(text)))
    case None => None
    case Some(t) => Some(Classification(t, IsCompositeText(text)))
  }

  // ---------------------------------------------------------------------
  // What the decision means, for any score table over distinct types
  // ---------------------------------------------------------------------

  /** The top score is reached by some listed type and bounds all of them. */
  lemma TopIsReached(m: map<QuestionType, nat>, ts: seq<QuestionType>)
    requires forall k :: 0 <= k < |ts| ==> ts[k] in m
    requires ts != []
    ensures forall t :: t in ts ==> m[t] <= MaxOver(m, ts)
    ensures exists t :: t in ts && m[t] == MaxOver(m, ts)
  {
    var k := MaxOverReached(m, ts);
    assert ts[k] in ts;
  }

  /** No decision exactly when every listed type scores zero. */
  lemma DecideNoneIffAllZero(m: map<QuestionType, nat>, ts: seq<QuestionType>)
    requires forall k :: 0 <= k < |ts| ==> ts[k] in m
    requires ts != []
    ensures DecideOver(m, ts).None? <==> forall t :: t in ts ==> m[t] == 0
  {
    TopIsReached(m, ts);
  }

  /** A decided type other than `mixed` is listed and scores strictly more than every other listed type. */
  lemma DecidedTypeIsUniqueMaximum(m: map<QuestionType, nat>, ts: seq<QuestionType>)
    requires forall k :: 0 <= k < |ts| ==> ts[k] in m
    requires Distinct(ts)
    requires DecideOver(m, ts).Some? && DecideOver(m, ts).value != Mixed
    ensures var t := DecideOver(m, ts).value;
            && t in ts && m[t] > 0
            && forall u :: u in ts && u != t ==> m[u] < m[t]
  {
    var top := MaxOver(m, ts);
    var high := AtScore(m, ts, top);
    AtScoreMembers(m, ts, top);
    var k := MaxOverReached(m, ts);
    assert ts[k] in high;
    assert |high| == 1;
    var t := high[0];
    assert high == [t];
    assert t in high;
    forall u | u in ts && u != t ensures m[u] < m[t] {
      assert u !in high;
    }
  }

  /** A listed type that scores strictly more than every other is decided. */
  lemma UniqueMaximumIsDecided(m: map<QuestionType, nat>, ts: seq<QuestionType>, t: QuestionType)
    requires forall k :: 0 <= k < |ts| ==> ts[k] in m
    requires Distinct(ts)
    requires t in ts && m[t] > 0
    requires forall u :: u in ts && u != t ==> m[u] < m[t]
    ensures DecideOver(m, ts) == Some(t)
  {
    var top := MaxOver(m, ts);
    TopIsReached(m, ts);
    assert top == m[t];
    AtScoreUnique(m, ts, top, t);
  }

  /** Two listed types sharing a positive top score give `mixed`. */
  lemma TieIsDecidedMixed(m: map<QuestionType, nat>, ts: seq<QuestionType>, t: QuestionType, u: QuestionType)
    requires forall k :: 0 <= k < |ts| ==> ts[k] in m
    requires t in ts && u in ts && t != u
    requires m[t] == m[u] > 0
    requires forall w :: w in ts ==> m[w] <= m[t]
    ensures DecideOver(m, ts) == Some(Mixed)
  {
    var top := MaxOver(m, ts);
    var high := AtScore(m, ts, top);
    var k := MaxOverReached(m, ts);
    assert ts[k] in ts;
    assert top == m[t];
    AtScoreMembers(m, ts, top);
    assert t in high && u in high;
  }

  /** `mixed` is decided only on a tie: two distinct listed types share the positive top score. */
  lemma MixedIsDecidedOnlyOnTie(m: map<QuestionType, nat>, ts: seq<QuestionType>)
    requires forall k :: 0 <= k < |ts| ==> ts[k] in m
    requires Distinct(ts) && Mixed !in ts
    requires DecideOver(m, ts) == Some(Mixed)
    ensures exists t, u :: && t in ts && u in ts && t != u
                           && m[t] == m[u] > 0
                           && (forall w :: w in ts ==> m[w] <= m[t])
  {
    var top := MaxOver(m, ts);
    var high := AtScore(m, ts, top);
    AtScoreMembers(m, ts, top);
    AtScoreDistinct(m, ts, top);
    var k := MaxOverReached(m, ts);
    assert ts[k] in high;
    assert high[0] in high;
    assert |high| > 1;
    var t, u := high[0], high[1];
    assert t in high && u in high && t != u;
    assert forall w :: w in ts ==> m[w] <= m[t];
  }

  lemma BaseTypesDistinct()
    ensures Distinct(BaseTypes)
  {
  }

  // ---------------------------------------------------------------------
  // What the decision means for a question text
  // ---------------------------------------------------------------------

  /** The local classifier gives up exactly when no keyword of any type occurs in the lower-cased text. */
  lemma NoneIffNoKeyword(text: string)
    ensures RuleBased(text).None? <==>
            forall t, k :: t in BaseTypes && 0 <= k < |Keywords(t)| ==> !Contains(Lower(text), Keywords(t)[k])
  {
    var m := Scores(Lower(text));
    DecideNoneIffAllZero(m, BaseTypes);
    forall t | t in BaseTypes
      ensures m[t] == 0 <==> forall k :: 0 <= k < |Keywords(t)| ==> !Contains(Lower(text), Keywords(t)[k])
    {
      ScoreZeroIff(Lower(text), Keywords(t));
    }
  }

  /** No type scores more than the length of its keyword list. */
  lemma ScoreBounded(text: string, t: QuestionType)
    ensures TypeScore(text, t) <= |Keywords(t)|
  {
  }

  /** A type other than `mixed` is chosen only when it scores strictly more than every other type. */
  lemma ChosenTypeIsUniqueMaximum(text: string)
    requires RuleBased(text).Some? && RuleBased(text).value.questionType != Mixed
    ensures var t := RuleBased(text).value.questionType;
            && t in BaseTypes && TypeScore(text, t) > 0
            && forall u :: u in BaseTypes && u != t ==> TypeScore(text, u) < TypeScore(text, t)
  {
    BaseTypesDistinct();
    DecidedTypeIsUniqueMaximum(Scores(Lower(text)), BaseTypes);
  }

  /** A type that scores strictly more than every other type is chosen. */
  lemma UniqueMaximumIsChosen(text: string, t: QuestionType)
    requires t in BaseTypes && TypeScore(text, t) > 0
    requires forall u :: u in BaseTypes && u != t ==> TypeScore(text, u) < TypeScore(text, t)
    ensures RuleBased(text) == Some(Classification(t, IsCompositeText(text)))
  {
    BaseTypesDistinct();
    UniqueMaximumIsDecided(Scores(Lower(text)), BaseTypes, t);
  }

  /** Two types sharing a positive top score make the question `mixed`. */
  lemma TieIsMixed(text: string, t: QuestionType, u: QuestionType)
    requires t in BaseTypes && u in BaseTypes && t != u
    requires TypeScore(text, t) == TypeScore(text, u) > 0
    requires forall w :: w in BaseTypes ==> TypeScore(text, w) <= TypeScore(text, t)
    ensures RuleBased(text) == Some(Classification(Mixed, IsCompositeText(text)))
  {
    TieIsDecidedMixed(Scores(Lower(text)), BaseTypes, t, u);
  }

  /** `mixed` comes only from a tie: two distinct types share the positive top score. */
  lemma MixedOnlyFromTie(text: string)
    requires RuleBased(text).Some? && RuleBased(text).value.questionType == Mixed
    ensures exists t, u :: && t in BaseTypes && u in BaseTypes && t != u
                           && TypeScore(text, t) == TypeScore(text, u) > 0
                           && (forall w :: w in BaseTypes ==> TypeScore(text, w) <= TypeScore(text, t))
  {
    var m := Scores(Lower(text));
    BaseTypesDistinct();
    MixedIsDecidedOnlyOnTie(m, BaseTypes);
    var t, u :| && t in BaseTypes && u in BaseTypes && t != u && m[t] == m[u] > 0
                && (forall w :: w in BaseTypes ==> m[w] <= m[t]);
    assert TypeScore(text, t) == TypeScore(text, u) > 0;
  }

  /** `deduce` is listed twice, so one occurrence of it scores two for deduction. */
  lemma DeduceCountsTwice(text: string)
    requires Contains(Lower(text), "deduce")
    ensures TypeScore(text, Deduction) >= 2
  {
    var lower := Lower(text);
    var kws := Keywords(Deduction);
    assert kws[..3][..2] == kws[..2];
    assert kws[..2][1] == "deduce" && kws[3] == "deduce";
    assert Score(lower, kws[..2]) >= 1;
    assert Score(lower, kws[..3]) >= 1;
  }

  /**
   * A `|` followed by a closing mark is an indicator for both item patterns, because
   * `|` is a literal member of both classes: on its own it makes a question composite.
   */
  lemma PipeItemMarkIsComposite(text: string, i: nat)
    requires i + 1 < |text| && text[i] == '|' && IsItemMark(text[i + 1])
    ensures IsCompositeText(text)
  {
    assert SkipRun(text, i + 1, Whitespace) == i + 1;
    assert CompositeAt(FirstItem, text, i).Some?;
    assert CompositeAt(SecondItem, text, i).Some?;
    MatchIsCounted(FirstItem, text, 0, i);
    MatchIsCounted(SecondItem, text, 0, i);
    assert CompositeTotal(text, 2) >= 2;
    assert CompositeTotal(text, 4) >= CompositeTotal(text, 3) >= CompositeTotal(text, 2);
  }

  /** Pattern `q` matches at `at`, and no pattern matches anywhere else in the text. */
  predicate SoleIndicator(text: string, q: nat, at: nat) {
    && q < |CompositePatterns| && at < |text| && CompositeAt(CompositePatterns[q], text, at).Some?
    && forall r, k :: 0 <= r < |CompositePatterns| && 0 <= k < |text| && (r != q || k != at) ==>
                      CompositeAt(CompositePatterns[r], text, k).None?
  }

  /** Under a sole indicator match, its pattern counts one and every other pattern none. */
  lemma SoleIndicatorCounts(text: string, q: nat, at: nat, r: nat)
    requires SoleIndicator(text, q, at)
    requires r < |CompositePatterns|
    ensures CountMatches(CompositePatterns[r], text, 0) == if r == q then 1 else 0
  {
    if r == q {
      SoleMatchCountsOne(CompositePatterns[r], text, 0, at);
    } else {
      NoMatchNoCount(CompositePatterns[r], text, 0);
    }
  }

  /** Under a sole indicator match, the total over the first `n` patterns is one once they include its pattern. */
  lemma {:induction false} SoleIndicatorTotal(text: string, q: nat, at: nat, n: nat)
    requires SoleIndicator(text, q, at)
    requires n <= |CompositePatterns|
    ensures CompositeTotal(text, n) == if q < n then 1 else 0
  {
    if n > 0 {
      assert CompositeTotal(text, n) == CompositeTotal(text, n - 1) + CountMatches(CompositePatterns[n - 1], text, 0);
      SoleIndicatorTotal(text, q, at, n - 1);
      SoleIndicatorCounts(text, q, at, n - 1);
      if q == n - 1 {
        assert CompositeTotal(text, n - 1) == 0 && CountMatches(CompositePatterns[n - 1], text, 0) == 1;
      } else {
        assert CountMatches(CompositePatterns[n - 1], text, 0) == 0;
      }
    }
  }

  /** One indicator match, of one pattern at one position and nothing else, is not composite. */
  lemma SingleIndicatorIsNotComposite(text: string, q: nat, at: nat)
    requires q < |CompositePatterns| && at < |text| && CompositeAt(CompositePatterns[q], text, at).Some?
    requires forall r, k :: 0 <= r < |CompositePatterns| && 0 <= k < |text| && (r != q || k != at) ==>
                            CompositeAt(CompositePatterns[r], text, k).None?
    ensures CompositeTotal(text, |CompositePatterns|) == 1
    ensures !IsCompositeText(text)
  {
    assert SoleIndicator(text, q, at);
    SoleIndicatorTotal(text, q, at, |CompositePatterns|);
  }

  /** The total over the first `n` patterns is at least the count of any one of them. */
  lemma {:induction false} CountWithinTotal(text: string, n: nat, q: nat)
    requires q < n <= |CompositePatterns|
    ensures CompositeTotal(text, n) >= CountMatches(CompositePatterns[q], text, 0)
  {
    assert CompositeTotal(text, n) == CompositeTotal(text, n - 1) + CountMatches(CompositePatterns[n - 1], text, 0);
    if q < n - 1 {
      CountWithinTotal(text, n - 1, q);
    }
  }

  /** The total over the first `n` patterns is at least the counts of any two of them added up. */
  lemma {:induction false} PairWithinTotal(text: string, n: nat, q1: nat, q2: nat)
    requires q1 < n && q2 < n && q1 != q2 && n <= |CompositePatterns|
    ensures CompositeTotal(text, n)
         >= CountMatches(CompositePatterns[q1], text, 0) + CountMatches(CompositePatterns[q2], text, 0)
  {
    assert CompositeTotal(text, n) == CompositeTotal(text, n - 1) + CountMatches(CompositePatterns[n - 1], text, 0);
    if q1 == n - 1 {
      CountWithinTotal(text, n - 1, q2);
    } else if q2 == n - 1 {
      CountWithinTotal(text, n - 1, q1);
    } else {
      PairWithinTotal(text, n - 1, q1, q2);
    }
  }

  /** Matches of two different indicator patterns make a question composite. */
  lemma TwoIndicatorsAreComposite(text: string, q1: nat, at1: nat, q2: nat, at2: nat)
    requires q1 < |CompositePatterns| && q2 < |CompositePatterns| && q1 != q2
    requires at1 < |text| && CompositeAt(CompositePatterns[q1], text, at1).Some?
    requires at2 < |text| && CompositeAt(CompositePatterns[q2], text, at2).Some?
    ensures IsCompositeText(text)
  {
    MatchIsCounted(CompositePatterns[q1], text, 0, at1);
    MatchIsCounted(CompositePatterns[q2], text, 0, at2);
    PairWithinTotal(text, |CompositePatterns|, q1, q2);
  }

  /**
   * Two matches of one indicator pattern make a question composite when the second starts
   * at or after the end of the first, the first being the leftmost.
   */
  lemma RepeatedIndicatorIsComposite(text: string, q: nat, first: nat, second: nat)
    requires q < |CompositePatterns| && first < |text|
    requires CompositeAt(CompositePatterns[q], text, first).Some?
    requires forall k :: 0 <= k < first ==> CompositeAt(CompositePatterns[q], text, k).None?
    requires CompositeAt(CompositePatterns[q], text, first).value <= second < |text|
    requires CompositeAt(CompositePatterns[q], text, second).Some?
    ensures IsCompositeText(text)
  {
    SeparateMatchesCountTwo(CompositePatterns[q], text, 0, first, second);
    CountWithinTotal(text, |CompositePatterns|, q);
  }

  // ---------------------------------------------------------------------
  // The loops of the source
  // ---------------------------------------------------------------------

  /** `_is_composite`: add up the match counts of the four indicator patterns. */
  method IsComposite(text: string) returns (composite: bool)
    ensures composite == IsCompositeText(text)
  {
    var count := 0;
    var k := 0;
    while k < |CompositePatterns|
      invariant 0 <= k <= |CompositePatterns|
      invariant count == CompositeTotal(text, k)
    {
      count := count + CountMatches(CompositePatterns[k], text, 0);
      k := k + 1;
    }
    composite := count >= 2;
  }

  /** The score table after the first `i` types have been tallied; the others are still zero. */
  function PartialTally(lower: string, types: seq<QuestionType>, keywordsOf: QuestionType -> seq<string>, i: nat)
    : map<QuestionType, nat>
    requires i <= |types|
  {
    map t | t in types :: if t in types[..i] then Score(lower, keywordsOf(t)) else 0
  }

  /** One more keyword checked adds one exactly when it occurs. */
  lemma ScoreSnoc(lower: string, kws: seq<string>, j: nat)
    requires j < |kws|
    ensures Score(lower, kws[..j + 1]) == Score(lower, kws[..j]) + (if Contains(lower, kws[j]) then 1 else 0)
  {
    assert kws[..j + 1][..j] == kws[..j];
  }

  /** Nothing tallied yet: every type scores zero. */
  lemma TallyInit(lower: string, types: seq<QuestionType>, keywordsOf: QuestionType -> seq<string>)
    ensures (map t | t in types :: 0) == PartialTally(lower, types, keywordsOf, 0)
  {
  }

  /** Every type tallied: the full score table. */
  lemma TallyDone(lower: string, types: seq<QuestionType>, keywordsOf: QuestionType -> seq<string>)
    ensures PartialTally(lower, types, keywordsOf, |types|) == Tabulate(lower, types, keywordsOf)
  {
    assert types[..|types|] == types;
  }

  /** Before the `i`-th type is tallied its score is zero. */
  lemma TallyStart(lower: string, types: seq<QuestionType>, keywordsOf: QuestionType -> seq<string>, i: nat)
    requires Distinct(types) && i < |types|
    ensures PartialTally(lower, types, keywordsOf, i)[types[i] := 0] == PartialTally(lower, types, keywordsOf, i)
  {
    assert types[i] !in types[..i];
  }

  /** Tallying the `i`-th type sets its score and nothing else. */
  lemma TallyNext(lower: string, types: seq<QuestionType>, keywordsOf: QuestionType -> seq<string>, i: nat)
    requires i < |types|
    ensures PartialTally(lower, types, keywordsOf, i)[types[i] := Score(lower, keywordsOf(types[i]))]
         == PartialTally(lower, types, keywordsOf, i + 1)
  {
    assert forall t :: t in types[..i + 1] <==> t in types[..i] || t == types[i] by {
      assert types[..i + 1] == types[..i] + [types[i]];
    }
  }

  /**
   * The tally of `classify_question_rule_based`: every type starts at zero and gains one
   * for each of its keywords found in `lower`.
   */
  method Tally(lower: string, types: seq<QuestionType>, keywordsOf: QuestionType -> seq<string>)
    returns (scores: map<QuestionType, nat>)
    requires Distinct(types)
    ensures scores == Tabulate(lower, types, keywordsOf)
  {
    scores := map t | t in types :: 0;
    TallyInit(lower, types, keywordsOf);
    var i := 0;
    while i < |types|
      invariant 0 <= i <= |types|
      invariant scores == PartialTally(lower, types, keywordsOf, i)
    {
      var qType := types[i];
      var keywords := keywordsOf(qType);
      ghost var before := scores;
      TallyStart(lower, types, keywordsOf, i);
      var j := 0;
      while j < |keywords|
        invariant 0 <= j <= |keywords|
        invariant scores == before[qType := Score(lower, keywords[..j])]
      {
        ScoreSnoc(lower, keywords, j);
        if Contains(lower, keywords[j]) {
          scores := scores[qType := scores[qType] + 1];
        }
        j := j + 1;
      }
      assert keywords[..j] == keywords;
      TallyNext(lower, types, keywordsOf, i);
      i := i + 1;
    }
    TallyDone(lower, types, keywordsOf);
  }

  /** `classify_question_rule_based`: tally keyword hits per type, then decide. */
  method ClassifyRuleBased(text: string) returns (r: Option<Classification>)
    ensures r == RuleBased(text)
  {
    var textLower := Lower(text);
    BaseTypesDistinct();
    var scores := Tally(textLower, BaseTypes, Keywords);
    assert scores == Scores(textLower);
    var maxScore := MaxOver(scores, BaseTypes);
    if maxScore == 0 {
      return None;
    }
    var highScoreTypes := AtScore(scores, BaseTypes, maxScore);
    ghost var k := MaxOverReached(scores, BaseTypes);
    AtScoreMembers(scores, BaseTypes, maxScore);
    assert BaseTypes[k] in highScoreTypes;
    var qType: QuestionType;
    if |highScoreTypes| > 1 {
      qType := Mixed;
    } else {
      qType := highScoreTypes[0];
    }
    var isComposite := IsComposite(text);
    r := Some(Classification(qType, isComposite));
  }
}
