/**
 * Ranking the analysed questions: the three most frequent types, an importance
 * score per question, and the critical list ordered by score.
 */
module Ranking {
  import opened PyText
  import opened QuestionTypes
  import opened Seqs

  /** One analysed question, as stored by the analyser. */
  datatype QuestionRecord = QuestionRecord(
    year: string,
    questionId: string,
    questionText: string,
    questionType: QuestionType,
    isComposite: bool)

  /** One entry of the critical list. */
  datatype CriticalQuestion = CriticalQuestion(
    year: string,
    questionId: string,
    questionText: string,
    questionType: QuestionType,
    importanceScore: nat,
    reasons: string)

  const FrequentReasonPrefix := "نوع متكرر (المرتبة "
  const FrequentReasonSuffix := ")"
  const CompositeReason := "سؤال مركب"
  const ReasonSeparator := " | "
  const TopCount := 3
  const FrequentWeight := 3
  const CompositeWeight := 2

  // ---------------------------------------------------------------------
  // A stable sort, descending by a key (`list.sort(key=..., reverse=True)`)
  // ---------------------------------------------------------------------

  predicate SortedDesc<T>(xs: seq<T>, key: T -> int) {
    forall i, j :: 0 <= i < j < |xs| ==> key(xs[i]) >= key(xs[j])
  }

  /** Put `x` in front of the first element whose key is not larger. */
  function Insert<T>(x: T, ys: seq<T>, key: T -> int): (r: seq<T>)
    ensures |r| == |ys| + 1
  {
    if ys == [] || key(ys[0]) <= key(x) then [x] + ys
    else [ys[0]] + Insert(x, ys[1..], key)
  }

  /** Insertion sort from the back, so that of two equal keys the earlier stays first. */
  function SortDesc<T>(xs: seq<T>, key: T -> int): (r: seq<T>)
    ensures |r| == |xs|
  {
    if xs == [] then [] else Insert(xs[0], SortDesc(xs[1..], key), key)
  }

  /** The elements whose key is `k`, in their order. */
  function WithKey<T>(xs: seq<T>, key: T -> int, k: int): (r: seq<T>)
    ensures |r| <= |xs|
  {
    if xs == [] then [] else (if key(xs[0]) == k then [xs[0]] else []) + WithKey(xs[1..], key, k)
  }

  lemma {:induction false} InsertPermutes<T>(x: T, ys: seq<T>, key: T -> int)
    ensures multiset(Insert(x, ys, key)) == multiset(ys) + multiset{x}
  {
    if !(ys == [] || key(ys[0]) <= key(x)) {
      InsertPermutes(x, ys[1..], key);
      assert ys == [ys[0]] + ys[1..];
    }
  }

  /** A bound on every key survives an insertion that respects it. */
  lemma {:induction false} InsertBounded<T>(x: T, ys: seq<T>, key: T -> int, b: int)
    requires key(x) <= b
    requires forall i :: 0 <= i < |ys| ==> key(ys[i]) <= b
    ensures forall i :: 0 <= i < |ys| + 1 ==> key(Insert(x, ys, key)[i]) <= b
  {
    if !(ys == [] || key(ys[0]) <= key(x)) {
      var tail := ys[1..];
      assert forall i :: 0 <= i < |tail| ==> tail[i] == ys[i + 1];
      InsertBounded(x, tail, key, b);
    }
  }

  lemma {:induction false} InsertSorted<T>(x: T, ys: seq<T>, key: T -> int)
    requires SortedDesc(ys, key)
    ensures SortedDesc(Insert(x, ys, key), key)
  {
    if !(ys == [] || key(ys[0]) <= key(x)) {
      var tail := ys[1..];
      assert forall i :: 0 <= i < |tail| ==> tail[i] == ys[i + 1];
      InsertSorted(x, tail, key);
      InsertBounded(x, tail, key, key(ys[0]));
      var rest := Insert(x, tail, key);
      var r := [ys[0]] + rest;
      assert forall i :: 1 <= i < |r| ==> r[i] == rest[i - 1];
    }
  }

  /** Inserting a key adds to the elements with that key in front; other keys are unaffected. */
  lemma {:induction false} InsertWithKey<T>(x: T, ys: seq<T>, key: T -> int, k: int)
    ensures WithKey(Insert(x, ys, key), key, k)
         == (if key(x) == k then [x] else []) + WithKey(ys, key, k)
  {
    if ys == [] || key(ys[0]) <= key(x) {
      assert ([x] + ys)[1..] == ys;
    } else {
      InsertWithKey(x, ys[1..], key, k);
      assert ([ys[0]] + Insert(x, ys[1..], key))[1..] == Insert(x, ys[1..], key);
    }
  }

  /** The sort orders by the key, descending. */
  lemma {:induction false} SortDescSorted<T>(xs: seq<T>, key: T -> int)
    ensures SortedDesc(SortDesc(xs, key), key)
  {
    if xs != [] {
      SortDescSorted(xs[1..], key);
      InsertSorted(xs[0], SortDesc(xs[1..], key), key);
    }
  }

  /** The sort is a permutation. */
  lemma {:induction false} SortDescPermutes<T>(xs: seq<T>, key: T -> int)
    ensures multiset(SortDesc(xs, key)) == multiset(xs)
  {
    if xs != [] {
      SortDescPermutes(xs[1..], key);
      InsertPermutes(xs[0], SortDesc(xs[1..], key), key);
      assert xs == [xs[0]] + xs[1..];
    }
  }

  /** The sort is stable: the elements of each key keep their order. */
  lemma {:induction false} SortDescStable<T>(xs: seq<T>, key: T -> int, k: int)
    ensures WithKey(SortDesc(xs, key), key, k) == WithKey(xs, key, k)
  {
    if xs != [] {
      SortDescStable(xs[1..], key, k);
      InsertWithKey(xs[0], SortDesc(xs[1..], key), key, k);
    }
  }

  /** Sorted, the same elements, and the elements of each key in their original order. */
  lemma SortDescCharacterised<T>(xs: seq<T>, key: T -> int)
    ensures SortedDesc(SortDesc(xs, key), key)
    ensures multiset(SortDesc(xs, key)) == multiset(xs)
    ensures forall k :: WithKey(SortDesc(xs, key), key, k) == WithKey(xs, key, k)
  {
    SortDescSorted(xs, key);
    SortDescPermutes(xs, key);
    forall k ensures WithKey(SortDesc(xs, key), key, k) == WithKey(xs, key, k) {
      SortDescStable(xs, key, k);
    }
  }

  /** Inserting an element not yet listed keeps a list free of repeats. */
  lemma {:induction false} InsertDistinct<T>(x: T, ys: seq<T>, key: T -> int)
    requires Distinct(ys) && x !in ys
    ensures Distinct(Insert(x, ys, key))
  {
    if ys == [] || key(ys[0]) <= key(x) {
      DistinctCons(x, ys);
    } else {
      var tail := ys[1..];
      assert Distinct(tail) by {
        assert forall i :: 0 <= i < |tail| ==> tail[i] == ys[i + 1];
      }
      assert ys == [ys[0]] + tail;
      InsertDistinct(x, tail, key);
      InsertPermutes(x, tail, key);
      assert ys[0] !in multiset(Insert(x, tail, key));
      DistinctCons(ys[0], Insert(x, tail, key));
    }
  }

  /** The sort keeps a list free of repeats. */
  lemma {:induction false} SortDescDistinct<T>(xs: seq<T>, key: T -> int)
    requires Distinct(xs)
    ensures Distinct(SortDesc(xs, key))
  {
    if xs != [] {
      var tail := xs[1..];
      assert Distinct(tail) by {
        assert forall i :: 0 <= i < |tail| ==> tail[i] == xs[i + 1];
      }
      SortDescDistinct(tail, key);
      SortDescPermutes(tail, key);
      assert xs[0] !in multiset(SortDesc(tail, key));
      InsertDistinct(xs[0], SortDesc(tail, key), key);
    }
  }

  // ---------------------------------------------------------------------
  // Type frequencies (`value_counts`) and the three most frequent types
  // ---------------------------------------------------------------------

  /** How many records have type `t`. */
  function Count(rs: seq<QuestionRecord>, t: QuestionType): (n: nat)
    ensures n <= |rs|
  {
    if rs == [] then 0
    else Count(rs[..|rs| - 1], t) + (if rs[|rs| - 1].questionType == t then 1 else 0)
  }

  /** A type is counted exactly when some record has it. */
  lemma {:induction false} CountPositiveIffPresent(rs: seq<QuestionRecord>, t: QuestionType)
    ensures Count(rs, t) > 0 <==> exists i :: 0 <= i < |rs| && rs[i].questionType == t
  {
    if rs != [] {
      var n := |rs| - 1;
      CountPositiveIffPresent(rs[..n], t);
      assert forall i :: 0 <= i < n ==> rs[..n][i] == rs[i];
    }
  }

  /** The types that occur, each once, in order of first occurrence. */
  function TypesSeen(rs: seq<QuestionRecord>): (r: seq<QuestionType>)
    ensures Distinct(r)
    ensures forall t :: t in r <==> Count(rs, t) > 0
  {
    if rs == [] then []
    else
      var n := |rs| - 1;
      var prev := TypesSeen(rs[..n]);
      var t := rs[n].questionType;
      if t in prev then prev
      else
        assert forall i :: 0 <= i < |prev| ==> (prev + [t])[i] == prev[i];
        prev + [t]
  }

  /** The frequency of a type, as a sort key. */
  function CountKey(rs: seq<QuestionRecord>): QuestionType -> int {
    t => Count(rs, t)
  }

  /** `value_counts().head(3).index.tolist()`: the types by decreasing frequency, at most three. */
  function TopTypes(rs: seq<QuestionRecord>): (top: seq<QuestionType>)
    ensures |top| <= TopCount
  {
    var sorted := SortDesc(TypesSeen(rs), CountKey(rs));
    if |sorted| <= TopCount then sorted else sorted[..TopCount]
  }

  /** The top types occur, each once, ordered by decreasing frequency; there are three unless fewer types occur. */
  lemma TopTypesWellFormed(rs: seq<QuestionRecord>)
    ensures var top := TopTypes(rs);
            && Distinct(top)
            && (forall t :: t in top ==> Count(rs, t) > 0)
            && SortedDesc(top, CountKey(rs))
            && |top| == (if |TypesSeen(rs)| <= TopCount then |TypesSeen(rs)| else TopCount)
  {
    var seen := TypesSeen(rs);
    var sorted := SortDesc(seen, CountKey(rs));
    SortDescDistinct(seen, CountKey(rs));
    SortDescPermutes(seen, CountKey(rs));
    SortDescSorted(seen, CountKey(rs));
    var top := TopTypes(rs);
    assert top == sorted[..|top|];
    forall t | t in top ensures Count(rs, t) > 0 {
      assert t in multiset(sorted);
    }
  }

  /** In a list sorted by decreasing key, nothing outside a prefix has a larger key than something inside it. */
  lemma PrefixDominates<T>(xs: seq<T>, key: T -> int, n: nat, t: T, u: T)
    requires SortedDesc(xs, key) && n <= |xs|
    requires t in xs[..n] && u in xs && u !in xs[..n]
    ensures key(u) <= key(t)
  {
    var i :| 0 <= i < |xs| && xs[i] == u;
    var k :| 0 <= k < n && xs[..n][k] == t;
    assert i >= n;
  }

  /** The top types are the first ones of the types sorted by frequency. */
  lemma TopIsSortedPrefix(rs: seq<QuestionRecord>)
    ensures var sorted := SortDesc(TypesSeen(rs), CountKey(rs));
            && |TopTypes(rs)| <= |sorted| && TopTypes(rs) == sorted[..|TopTypes(rs)|]
  {
  }

  /** No type outside the top occurs more often than one inside it. */
  lemma TopTypesAreMostFrequent(rs: seq<QuestionRecord>, t: QuestionType, u: QuestionType)
    requires t in TopTypes(rs) && u !in TopTypes(rs)
    ensures Count(rs, u) <= Count(rs, t)
  {
    var seen := TypesSeen(rs);
    var sorted := SortDesc(seen, CountKey(rs));
    if Count(rs, u) > 0 {
      SortDescPermutes(seen, CountKey(rs));
      SortDescSorted(seen, CountKey(rs));
      assert u in multiset(sorted);
      TopIsSortedPrefix(rs);
      PrefixDominates(sorted, CountKey(rs), |TopTypes(rs)|, t, u);
    }
  }

  /** With fewer than three top types, every type that occurs is among them. */
  lemma FewTypesAreAllTop(rs: seq<QuestionRecord>, u: QuestionType)
    requires |TopTypes(rs)| < TopCount && Count(rs, u) > 0
    ensures u in TopTypes(rs)
  {
    var seen := TypesSeen(rs);
    SortDescPermutes(seen, CountKey(rs));
    assert u in multiset(SortDesc(seen, CountKey(rs)));
  }

  // ---------------------------------------------------------------------
  // Importance of one question
  // ---------------------------------------------------------------------

  /** `top_types.index(t) + 1`. */
  function Rank(top: seq<QuestionType>, t: QuestionType): (rank: nat)
    requires t in top
    ensures 1 <= rank <= |top| && top[rank - 1] == t
    ensures forall j :: 0 <= j < rank - 1 ==> top[j] != t
  {
    IndexOf(top, t) + 1
  }

  /** 3 for a type among the top, plus 2 for a composite question. */
  function Importance(r: QuestionRecord, top: seq<QuestionType>): nat {
    (if r.questionType in top then FrequentWeight else 0) + (if r.isComposite then CompositeWeight else 0)
  }

  /** One reason per criterion met, in the order the criteria are checked. */
  function Reasons(r: QuestionRecord, top: seq<QuestionType>): seq<string> {
    (if r.questionType in top
     then [FrequentReasonPrefix + DecimalString(Rank(top, r.questionType)) + FrequentReasonSuffix]
     else [])
    + (if r.isComposite then [CompositeReason] else [])
  }

  /** The critical-list entry of a record. */
  function Entry(r: QuestionRecord, top: seq<QuestionType>): (c: CriticalQuestion)
    ensures c.importanceScore == Importance(r, top)
    ensures c.importanceScore in {0, 2, 3, 5}
    ensures c.importanceScore > 0 <==> r.questionType in top || r.isComposite
    ensures c.importanceScore >= FrequentWeight <==> r.questionType in top
    ensures (c.reasons == []) <==> !(r.questionType in top || r.isComposite)
    ensures c.year == r.year && c.questionId == r.questionId && c.questionText == r.questionText
            && c.questionType == r.questionType
  {
    CriticalQuestion(r.year, r.questionId, r.questionText, r.questionType,
                     Importance(r, top), Join(Reasons(r, top), ReasonSeparator))
  }

  /**
   * The score is 0, 2, 3 or 5: at least 3 exactly for a top type, 2 or 5 exactly for a
   * composite question, and positive exactly when some reason is given.
   */
  lemma ImportanceMeaning(r: QuestionRecord, top: seq<QuestionType>)
    ensures Importance(r, top) in {0, 2, 3, 5}
    ensures Importance(r, top) >= FrequentWeight <==> r.questionType in top
    ensures Importance(r, top) in {2, 5} <==> r.isComposite
    ensures Importance(r, top) > 0 <==> Reasons(r, top) != []
    ensures |Reasons(r, top)| == (if r.questionType in top then 1 else 0) + (if r.isComposite then 1 else 0)
    ensures r.isComposite ==> Reasons(r, top)[|Reasons(r, top)| - 1] == CompositeReason
  {
  }

  /** The first reason of a top type names its 1-based rank. */
  lemma FrequentReasonNamesRank(r: QuestionRecord, top: seq<QuestionType>)
    requires r.questionType in top
    ensures var rank := Rank(top, r.questionType);
            && Reasons(r, top)[0] == FrequentReasonPrefix + DecimalString(rank) + FrequentReasonSuffix
            && 1 <= rank <= |top| && top[rank - 1] == r.questionType
  {
  }

  // ---------------------------------------------------------------------
  // The critical list
  // ---------------------------------------------------------------------

  /** The entry of every record, in record order. */
  function Candidates(rs: seq<QuestionRecord>, top: seq<QuestionType>): (cs: seq<CriticalQuestion>)
    ensures |cs| == |rs|
  {
    seq(|rs|, i requires 0 <= i < |rs| => Entry(rs[i], top))
  }

  /** Which records score above zero. */
  function Keep(rs: seq<QuestionRecord>, top: seq<QuestionType>): (keep: seq<bool>)
    ensures |keep| == |rs|
  {
    seq(|rs|, i requires 0 <= i < |rs| => Importance(rs[i], top) > 0)
  }

  /** The entries scoring above zero, in record order, before sorting. */
  function Kept(rs: seq<QuestionRecord>): seq<CriticalQuestion> {
    var top := TopTypes(rs);
    FilterBy(Candidates(rs, top), Keep(rs, top))
  }

  function ScoreOf(c: CriticalQuestion): int {
    c.importanceScore
  }

  /** `identify_critical_questions`: the kept entries, stably sorted by decreasing score. */
  function CriticalList(rs: seq<QuestionRecord>): seq<CriticalQuestion> {
    SortDesc(Kept(rs), ScoreOf)
  }

  /** One step of the loop building the critical list: the entry of record `i` is appended when it scores. */
  lemma CriticalStep(rs: seq<QuestionRecord>, top: seq<QuestionType>, i: nat, acc: seq<CriticalQuestion>,
                     score: nat, reasons: seq<string>)
    requires i < |rs|
    requires acc == FilterBy(Candidates(rs, top)[..i], Keep(rs, top)[..i])
    requires score == Importance(rs[i], top) && reasons == Reasons(rs[i], top)
    ensures FilterBy(Candidates(rs, top)[..i + 1], Keep(rs, top)[..i + 1])
         == if score > 0
            then acc + [CriticalQuestion(rs[i].year, rs[i].questionId, rs[i].questionText, rs[i].questionType,
                                         score, Join(reasons, ReasonSeparator))]
            else acc
  {
    FilterBySnoc(Candidates(rs, top), Keep(rs, top), i);
  }

  /** The kept entries are those of the records scoring above zero, in record order. */
  lemma KeptAreScoringRecords(rs: seq<QuestionRecord>)
    ensures var top := TopTypes(rs);
            var idx := KeptIndices(Keep(rs, top));
            && |Kept(rs)| == |idx|
            && (forall j :: 0 <= j < |idx| ==> idx[j] < |rs| && Kept(rs)[j] == Entry(rs[idx[j]], top))
            && (forall j :: 0 <= j < |idx| - 1 ==> idx[j] < idx[j + 1])
            && (forall i :: 0 <= i < |rs| ==> (i in idx <==> Importance(rs[i], top) > 0))
  {
    var top := TopTypes(rs);
    FilterByKept(Candidates(rs, top), Keep(rs, top));
  }

  /** Every kept entry scores 2, 3 or 5. */
  lemma KeptScores(rs: seq<QuestionRecord>)
    ensures forall c :: c in Kept(rs) ==> c.importanceScore in {2, 3, 5}
  {
    var top := TopTypes(rs);
    var cs := Candidates(rs, top);
    var keep := Keep(rs, top);
    forall i | 0 <= i < |cs| && keep[i] ensures cs[i].importanceScore in {2, 3, 5} {
      ImportanceMeaning(rs[i], top);
    }
    FilterByAll(cs, keep, (c: CriticalQuestion) => c.importanceScore in {2, 3, 5});
  }

  /**
   * The critical list holds exactly the kept entries, each scoring 2, 3 or 5, by
   * non-increasing score, with entries of equal score in record order.
   */
  lemma CriticalListOrdered(rs: seq<QuestionRecord>)
    ensures multiset(CriticalList(rs)) == multiset(Kept(rs))
    ensures SortedDesc(CriticalList(rs), ScoreOf)
    ensures forall k :: WithKey(CriticalList(rs), ScoreOf, k) == WithKey(Kept(rs), ScoreOf, k)
    ensures forall c :: c in CriticalList(rs) ==> c.importanceScore in {2, 3, 5}
  {
    SortDescCharacterised(Kept(rs), ScoreOf);
    KeptScores(rs);
    forall c | c in CriticalList(rs) ensures c.importanceScore in {2, 3, 5} {
      assert c in multiset(Kept(rs));
    }
  }
}
