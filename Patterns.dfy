/**
 * The regular expressions of the analyser, written out as matchers. Every pattern
 * here is deterministic (its alternatives never both match at one position and each
 * whitespace run is followed by a class disjoint from whitespace), so a matcher that
 * tries one position, scanned left to right and resumed after each match, is exactly
 * `re.finditer`, `re.findall` and `re.search` on that pattern.
 */
module Patterns {
  import opened Wrappers
  import opened PyText

  /** The end of the run of `cls` characters that starts at `i`. */
  function SkipRun(s: string, i: nat, cls: CharClass): (j: nat)
    requires i <= |s|
    ensures i <= j <= |s|
    ensures forall k :: i <= k < j ==> InClass(s[k], cls)
    ensures j == |s| || !InClass(s[j], cls)
    decreases |s| - i
  {
    if i < |s| && InClass(s[i], cls) then SkipRun(s, i + 1, cls) else i
  }

  /** One of `.`, `)` and `-`, the closing marks of a numbered item. */
  predicate IsItemMark(c: char) {
    c == '.' || c == ')' || c == '-'
  }

  // ---------------------------------------------------------------------
  // Question boundaries
  // ---------------------------------------------------------------------

  /** A match of a boundary pattern: the span `start..end` and the capture group `groupStart..groupEnd`. */
  datatype Match = Match(start: nat, end: nat, groupStart: nat, groupEnd: nat)

  /** A match lies inside `s`, is non-empty, and has a non-empty capture group inside its span. */
  predicate WellFormed(s: string, m: Match) {
    && m.start <= m.groupStart < m.groupEnd <= m.end <= |s|
    && m.start < m.end
  }

  /** The capture group of a match is made of digits. */
  predicate DigitGroup(s: string, m: Match)
    requires WellFormed(s, m)
  {
    forall k :: m.groupStart <= k < m.groupEnd ==> IsDigit(s[k])
  }

  /** `match.group(1)`. */
  function Group(s: string, m: Match): string
    requires WellFormed(s, m)
  {
    s[m.groupStart..m.groupEnd]
  }

  /** The capture group of a digit match is a non-empty run of digits. */
  lemma GroupIsDigits(s: string, m: Match)
    requires WellFormed(s, m) && DigitGroup(s, m)
    ensures Group(s, m) != []
    ensures forall k :: 0 <= k < |Group(s, m)| ==> IsDigit(Group(s, m)[k])
  {
    assert forall k :: 0 <= k < m.groupEnd - m.groupStart ==> Group(s, m)[k] == s[m.groupStart + k];
  }

  /**
   * The three boundary patterns in the order they are tried: a localized marker word
   * (السؤال, التمرين or س) then optional whitespace and a number; a number at the start
   * of the text or after a newline, then optional whitespace and a closing mark; the
   * words Question or Exercise then optional whitespace and a number.
   */
  datatype BoundaryPattern = LocalizedMarker | NumberedLine | EnglishMarker

  const BoundaryPatterns: seq<BoundaryPattern> := [LocalizedMarker, NumberedLine, EnglishMarker]

  const LocalizedMarkers: seq<string> := ["السؤال", "التمرين", "س"]
  const EnglishMarkers: seq<string> := ["Question", "Exercise"]

  /** Optional whitespace then a digit run, from `j`: the digit run's bounds. */
  function SpacedNumber(s: string, j: nat): (r: Option<(nat, nat)>)
    requires j <= |s|
    ensures r.Some? ==> j <= r.value.0 < r.value.1 <= |s|
    ensures r.Some? ==> forall k :: r.value.0 <= k < r.value.1 ==> IsDigit(s[k])
    ensures r.Some? ==> r.value.1 == |s| || !IsDigit(s[r.value.1])
  {
    var k := SkipRun(s, j, Whitespace);
    var d := SkipRun(s, k, Digit);
    if d > k then Some((k, d)) else None
  }

  /** One of `words` (tried in order) at `i`, then optional whitespace and a number. */
  function MarkerAt(s: string, i: nat, words: seq<string>): (r: Option<Match>)
    requires i <= |s|
    ensures r.Some? ==> r.value.start == i && WellFormed(s, r.value) && DigitGroup(s, r.value)
    ensures r.Some? ==> exists w :: w in words && OccursAt(s, w, i)
    decreases |words|
  {
    if words == [] then None
    else if OccursAt(s, words[0], i) && SpacedNumber(s, i + |words[0]|).Some? then
      var g := SpacedNumber(s, i + |words[0]|).value;
      Some(Match(i, g.1, g.0, g.1))
    else MarkerAt(s, i, words[1..])
  }

  /** A digit run at `j`, optional whitespace and a closing mark; the match is reported from `i`. */
  function NumberedItem(s: string, i: nat, j: nat): (r: Option<Match>)
    requires i <= j <= |s|
    ensures r.Some? ==> r.value.start == i && r.value.groupStart == j && WellFormed(s, r.value) && DigitGroup(s, r.value)
    ensures r.Some? ==> IsItemMark(s[r.value.end - 1])
  {
    var d := SkipRun(s, j, Digit);
    if d == j then None
    else
      var k := SkipRun(s, d, Whitespace);
      if k < |s| && IsItemMark(s[k]) then Some(Match(i, k + 1, j, d)) else None
  }

  /**
   * The numbered-line pattern at `i`, with `^` in multi-line mode: first the
   * line-start alternative (at the start of the text or after a newline), then the
   * alternative that consumes a newline, so such a match starts at the newline.
   */
  function NumberedLineAt(s: string, i: nat): (r: Option<Match>)
    requires i <= |s|
    ensures r.Some? ==> r.value.start == i && WellFormed(s, r.value) && DigitGroup(s, r.value)
    ensures r.Some? ==> i == 0 || s[i - 1] == '\n' || (i < |s| && s[i] == '\n')
  {
    var atLineStart := if i == 0 || s[i - 1] == '\n' then NumberedItem(s, i, i) else None;
    if atLineStart.Some? then atLineStart
    else if i < |s| && s[i] == '\n' then NumberedItem(s, i, i + 1)
    else None
  }

  function BoundaryAt(p: BoundaryPattern, s: string, i: nat): (r: Option<Match>)
    requires i <= |s|
    ensures r.Some? ==> r.value.start == i && WellFormed(s, r.value) && DigitGroup(s, r.value)
  {
    match p
    case LocalizedMarker => MarkerAt(s, i, LocalizedMarkers)
    case NumberedLine => NumberedLineAt(s, i)
    case EnglishMarker => MarkerAt(s, i, EnglishMarkers)
  }

  /** The matches are well formed, in text order and do not overlap. */
  predicate Ordered(s: string, ms: seq<Match>) {
    && (forall k :: 0 <= k < |ms| ==> WellFormed(s, ms[k]))
    && (forall k :: 0 <= k < |ms| - 1 ==> ms[k].end <= ms[k + 1].start)
  }

  /** `re.finditer(pattern, s[i..])`: the leftmost match, then the scan resumes where it ended. */
  function FindIter(p: BoundaryPattern, s: string, i: nat): (ms: seq<Match>)
    requires i <= |s|
    ensures Ordered(s, ms)
    ensures forall k :: 0 <= k < |ms| ==> i <= ms[k].start && DigitGroup(s, ms[k])
    decreases |s| - i
  {
    if i == |s| then []
    else
      match BoundaryAt(p, s, i)
      case Some(m) =>
        var rest := FindIter(p, s, m.end);
        OrderedCons(s, m, rest);
        [m] + rest
      case None => FindIter(p, s, i + 1)
  }

  /** A well-formed match that ends before every start of an ordered list can be put in front of it. */
  lemma OrderedCons(s: string, m: Match, rest: seq<Match>)
    requires WellFormed(s, m) && Ordered(s, rest)
    requires forall k :: 0 <= k < |rest| ==> m.end <= rest[k].start
    ensures Ordered(s, [m] + rest)
  {
    var ms := [m] + rest;
    assert forall k :: 0 < k < |ms| ==> ms[k] == rest[k - 1];
  }

  /** One step of the scan: a match at `i` is reported and the scan resumes at its end; otherwise it moves on by one. */
  lemma FindIterUnfold(p: BoundaryPattern, s: string, i: nat)
    requires i < |s|
    ensures BoundaryAt(p, s, i).Some? ==>
              FindIter(p, s, i) == [BoundaryAt(p, s, i).value] + FindIter(p, s, BoundaryAt(p, s, i).value.end)
    ensures BoundaryAt(p, s, i).None? ==> FindIter(p, s, i) == FindIter(p, s, i + 1)
  {
  }

  /** `m` is what the pattern matches at `m`'s own start. */
  predicate Reported(p: BoundaryPattern, s: string, m: Match) {
    m.start <= |s| && BoundaryAt(p, s, m.start) == Some(m)
  }

  /** Position `j` starts or lies inside one of the matches `ms`. */
  predicate Covered(ms: seq<Match>, j: nat) {
    exists k :: 0 <= k < |ms| && ms[k].start <= j < ms[k].end
  }

  lemma ReportedCons(p: BoundaryPattern, s: string, m: Match, rest: seq<Match>)
    requires Reported(p, s, m)
    requires forall k :: 0 <= k < |rest| ==> Reported(p, s, rest[k])
    ensures forall k :: 0 <= k < |[m] + rest| ==> Reported(p, s, ([m] + rest)[k])
  {
    var ms := [m] + rest;
    assert forall k :: 0 < k < |ms| ==> ms[k] == rest[k - 1];
  }

  lemma CoveredCons(m: Match, rest: seq<Match>, j: nat)
    requires m.start <= j < m.end || Covered(rest, j)
    ensures Covered([m] + rest, j)
  {
    var ms := [m] + rest;
    if m.start <= j < m.end {
      assert ms[0] == m;
    } else {
      var k :| 0 <= k < |rest| && rest[k].start <= j < rest[k].end;
      assert ms[k + 1] == rest[k];
    }
  }

  /** Every reported match is exactly what the pattern matches at that match's start. */
  lemma {:induction false} FindIterSound(p: BoundaryPattern, s: string, i: nat)
    requires i <= |s|
    ensures forall k :: 0 <= k < |FindIter(p, s, i)| ==> Reported(p, s, FindIter(p, s, i)[k])
    decreases |s| - i
  {
    if i < |s| {
      var b := BoundaryAt(p, s, i);
      FindIterUnfold(p, s, i);
      if b.Some? {
        FindIterSound(p, s, b.value.end);
        ReportedCons(p, s, b.value, FindIter(p, s, b.value.end));
      } else {
        FindIterSound(p, s, i + 1);
      }
    }
  }

  /** Where the scan resumes after looking at `i`: the end of the match there, or the next position. */
  function Next(p: BoundaryPattern, s: string, i: nat): (n: nat)
    requires i < |s|
    ensures i < n <= |s|
  {
    match BoundaryAt(p, s, i)
    case Some(m) => m.end
    case None => i + 1
  }

  lemma CoveredAtMatch(p: BoundaryPattern, s: string, i: nat, j: nat)
    requires i < |s| && BoundaryAt(p, s, i).Some? && i <= j < BoundaryAt(p, s, i).value.end
    ensures Covered(FindIter(p, s, i), j)
  {
    FindIterUnfold(p, s, i);
    CoveredCons(BoundaryAt(p, s, i).value, FindIter(p, s, Next(p, s, i)), j);
  }

  lemma CoveredFromNext(p: BoundaryPattern, s: string, i: nat, j: nat)
    requires i < |s| && Covered(FindIter(p, s, Next(p, s, i)), j)
    ensures Covered(FindIter(p, s, i), j)
  {
    FindIterUnfold(p, s, i);
    if BoundaryAt(p, s, i).Some? {
      CoveredCons(BoundaryAt(p, s, i).value, FindIter(p, s, Next(p, s, i)), j);
    }
  }

  /** A position at or after `i` where the pattern matches starts a reported match or lies inside one. */
  lemma {:induction false} FindIterCovers(p: BoundaryPattern, s: string, i: nat, j: nat)
    requires i <= j <= |s| && BoundaryAt(p, s, j).Some?
    ensures Covered(FindIter(p, s, i), j)
    decreases |s| - i
  {
    assert WellFormed(s, BoundaryAt(p, s, j).value);
    var b := BoundaryAt(p, s, i);
    if j == i {
      assert b == BoundaryAt(p, s, j);
      CoveredAtMatch(p, s, i, j);
    } else if b.Some? && j < b.value.end {
      CoveredAtMatch(p, s, i, j);
    } else {
      FindIterCovers(p, s, Next(p, s, i), j);
      CoveredFromNext(p, s, i, j);
    }
  }

  /**
   * No match is skipped: wherever at or after `i` the pattern matches, that position
   * starts a reported match or lies inside one (the scan resumes at a match's end).
   */
  lemma FindIterComplete(p: BoundaryPattern, s: string, i: nat)
    requires i <= |s|
    ensures forall j :: i <= j <= |s| && BoundaryAt(p, s, j).Some? ==> Covered(FindIter(p, s, i), j)
  {
    forall j | i <= j <= |s| && BoundaryAt(p, s, j).Some? ensures Covered(FindIter(p, s, i), j) {
      FindIterCovers(p, s, i, j);
    }
  }

  /** A position at or after `i` outside every reported match (a gap before, between or after them) has no match. */
  lemma FindIterGapsHaveNoMatch(p: BoundaryPattern, s: string, i: nat, j: nat)
    requires i <= j <= |s|
    requires forall k :: 0 <= k < |FindIter(p, s, i)| ==> j < FindIter(p, s, i)[k].start || FindIter(p, s, i)[k].end <= j
    ensures BoundaryAt(p, s, j).None?
  {
    FindIterComplete(p, s, i);
  }

  /** In an ordered match list the starts strictly increase and all lie inside the text. */
  lemma OrderedStartsIncrease(s: string, ms: seq<Match>, a: nat, b: nat)
    requires Ordered(s, ms) && a < b < |ms|
    ensures ms[a].start < ms[b].start < |s|
    decreases b - a
  {
    if a + 1 < b { OrderedStartsIncrease(s, ms, a + 1, b); }
  }

  // ---------------------------------------------------------------------
  // Composite indicators
  // ---------------------------------------------------------------------

  /**
   * The four indicators of a multi-part question: a first-item letter or digit then
   * a closing mark; a second-item letter or digit then a closing mark; the phrase
   * "part one / part two"; an ordinal adverb (first, second, third).
   */
  datatype CompositePattern = FirstItem | SecondItem | PartPhrase | OrdinalWord

  const CompositePatterns: seq<CompositePattern> := [FirstItem, SecondItem, PartPhrase, OrdinalWord]

  /**
   * The first character class. Its members are written separated by `|`, which
   * inside a class is a literal character, so `|` is a member (and أ is listed twice).
   */
  predicate InFirstItemClass(c: char) {
    c == 'أ' || c == '|' || c == 'ا' || c == '1' || c == 'a'
  }

  /** The second character class, with the same literal `|` (and ب listed twice). */
  predicate InSecondItemClass(c: char) {
    c == 'ب' || c == '|' || c == '2' || c == 'b'
  }

  const PartWord: string := "الجزء"
  const PartOrdinals: seq<string> := ["الأول", "الثاني"]
  const OrdinalWords: seq<string> := ["أولا", "ثانيا", "ثالثا"]

  /** A member of `cls` at `i`, optional whitespace and a closing mark: the match end. */
  function ItemMarkAt(s: string, i: nat, cls: char -> bool): (r: Option<nat>)
    requires i < |s|
    ensures r.Some? ==> i < r.value <= |s| && cls(s[i]) && IsItemMark(s[r.value - 1])
  {
    if !cls(s[i]) then None
    else
      var k := SkipRun(s, i + 1, Whitespace);
      if k < |s| && IsItemMark(s[k]) then Some(k + 1) else None
  }

  /** The first of `words` that occurs at `i`: the match end. */
  function WordAt(s: string, i: nat, words: seq<string>): (r: Option<nat>)
    requires i <= |s|
    requires forall k :: 0 <= k < |words| ==> |words[k]| > 0
    ensures r.Some? ==> i < r.value <= |s|
    ensures r.Some? ==> exists k :: 0 <= k < |words| && OccursAt(s, words[k], i) && r.value == i + |words[k]|
    decreases |words|
  {
    if words == [] then None
    else if OccursAt(s, words[0], i) then Some(i + |words[0]|)
    else
      var r := WordAt(s, i, words[1..]);
      assert r.Some? ==> exists k :: 1 <= k < |words| && OccursAt(s, words[k], i) && r.value == i + |words[k]| by {
        if r.Some? {
          var k :| 0 <= k < |words[1..]| && OccursAt(s, words[1..][k], i) && r.value == i + |words[1..][k]|;
          assert words[1..][k] == words[k + 1];
        }
      }
      r
  }

  /** The word for "part", at least one whitespace character, then "one" or "two". */
  function PartPhraseAt(s: string, i: nat): (r: Option<nat>)
    requires i <= |s|
    ensures r.Some? ==> i < r.value <= |s| && OccursAt(s, PartWord, i)
  {
    if !OccursAt(s, PartWord, i) then None
    else
      var k := SkipRun(s, i + |PartWord|, Whitespace);
      if k == i + |PartWord| then None else WordAt(s, k, PartOrdinals)
  }

  function CompositeAt(p: CompositePattern, s: string, i: nat): (r: Option<nat>)
    requires i < |s|
    ensures r.Some? ==> i < r.value <= |s|
  {
    match p
    case FirstItem => ItemMarkAt(s, i, InFirstItemClass)
    case SecondItem => ItemMarkAt(s, i, InSecondItemClass)
    case PartPhrase => PartPhraseAt(s, i)
    case OrdinalWord => WordAt(s, i, OrdinalWords)
  }

  /** An indicator match: the text from `start` up to `end`. */
  datatype Span = Span(start: nat, end: nat)

  /** The spans are non-empty, lie in the text at or after `i`, and come in text order without overlap. */
  predicate Disjoint(s: string, i: nat, ss: seq<Span>) {
    && (forall k :: 0 <= k < |ss| ==> i <= ss[k].start < ss[k].end <= |s|)
    && (forall k :: 0 <= k < |ss| - 1 ==> ss[k].end <= ss[k + 1].start)
  }

  /** A span that ends before an ordered list of later spans can be put in front of it. */
  lemma DisjointCons(s: string, i: nat, m: Span, rest: seq<Span>)
    requires i <= m.start < m.end <= |s| && Disjoint(s, m.end, rest)
    ensures Disjoint(s, i, [m] + rest)
  {
    var ss := [m] + rest;
    assert forall k :: 0 < k < |ss| ==> ss[k] == rest[k - 1];
  }

  /** `re.findall(pattern, s[i..])` as spans: the leftmost match, then the scan resumes where it ended. */
  function FindAll(p: CompositePattern, s: string, i: nat): (ss: seq<Span>)
    requires i <= |s|
    ensures Disjoint(s, i, ss)
    decreases |s| - i
  {
    if i == |s| then []
    else
      match CompositeAt(p, s, i)
      case Some(e) =>
        var rest := FindAll(p, s, e);
        DisjointCons(s, i, Span(i, e), rest);
        [Span(i, e)] + rest
      case None => FindAll(p, s, i + 1)
  }

  /** `len(re.findall(pattern, s[i..]))`. */
  function CountMatches(p: CompositePattern, s: string, i: nat): nat
    requires i <= |s|
  {
    |FindAll(p, s, i)|
  }

  /** One step of the scan: a match at `i` is reported and the scan resumes at its end; otherwise it moves on by one. */
  lemma FindAllUnfold(p: CompositePattern, s: string, i: nat)
    requires i < |s|
    ensures CompositeAt(p, s, i).Some? ==>
              FindAll(p, s, i) == [Span(i, CompositeAt(p, s, i).value)] + FindAll(p, s, CompositeAt(p, s, i).value)
    ensures CompositeAt(p, s, i).None? ==> FindAll(p, s, i) == FindAll(p, s, i + 1)
  {
  }

  /** `m` is what the pattern matches at `m`'s own start. */
  predicate Found(p: CompositePattern, s: string, m: Span) {
    m.start < |s| && CompositeAt(p, s, m.start) == Some(m.end)
  }

  /** Position `j` starts or lies inside one of the spans `ss`. */
  predicate Within(ss: seq<Span>, j: nat) {
    exists k :: 0 <= k < |ss| && ss[k].start <= j < ss[k].end
  }

  lemma FoundCons(p: CompositePattern, s: string, m: Span, rest: seq<Span>)
    requires Found(p, s, m)
    requires forall k :: 0 <= k < |rest| ==> Found(p, s, rest[k])
    ensures forall k :: 0 <= k < |[m] + rest| ==> Found(p, s, ([m] + rest)[k])
  {
    var ss := [m] + rest;
    assert forall k :: 0 < k < |ss| ==> ss[k] == rest[k - 1];
  }

  lemma WithinCons(m: Span, rest: seq<Span>, j: nat)
    requires m.start <= j < m.end || Within(rest, j)
    ensures Within([m] + rest, j)
  {
    var ss := [m] + rest;
    if m.start <= j < m.end {
      assert ss[0] == m;
    } else {
      var k :| 0 <= k < |rest| && rest[k].start <= j < rest[k].end;
      assert ss[k + 1] == rest[k];
    }
  }

  /** Every span `findall` reports is exactly what the pattern matches at its start. */
  lemma {:induction false} FindAllSound(p: CompositePattern, s: string, i: nat)
    requires i <= |s|
    ensures forall k :: 0 <= k < |FindAll(p, s, i)| ==> Found(p, s, FindAll(p, s, i)[k])
    decreases |s| - i
  {
    if i < |s| {
      var c := CompositeAt(p, s, i);
      FindAllUnfold(p, s, i);
      if c.Some? {
        FindAllSound(p, s, c.value);
        FoundCons(p, s, Span(i, c.value), FindAll(p, s, c.value));
      } else {
        FindAllSound(p, s, i + 1);
      }
    }
  }

  /** Where the scan resumes after looking at `i`: the end of the match there, or the next position. */
  function NextFind(p: CompositePattern, s: string, i: nat): (n: nat)
    requires i < |s|
    ensures i < n <= |s|
  {
    match CompositeAt(p, s, i)
    case Some(e) => e
    case None => i + 1
  }

  lemma WithinFromNext(p: CompositePattern, s: string, i: nat, j: nat)
    requires i < |s| && Within(FindAll(p, s, NextFind(p, s, i)), j)
    ensures Within(FindAll(p, s, i), j)
  {
    FindAllUnfold(p, s, i);
    if CompositeAt(p, s, i).Some? {
      WithinCons(Span(i, NextFind(p, s, i)), FindAll(p, s, NextFind(p, s, i)), j);
    }
  }

  lemma WithinAtMatch(p: CompositePattern, s: string, i: nat, j: nat)
    requires i < |s| && CompositeAt(p, s, i).Some? && i <= j < CompositeAt(p, s, i).value
    ensures Within(FindAll(p, s, i), j)
  {
    FindAllUnfold(p, s, i);
    WithinCons(Span(i, NextFind(p, s, i)), FindAll(p, s, NextFind(p, s, i)), j);
  }

  /** No match is skipped: a position at or after `i` where the pattern matches starts a reported span or lies inside one. */
  lemma {:induction false} FindAllComplete(p: CompositePattern, s: string, i: nat, j: nat)
    requires i <= j < |s| && CompositeAt(p, s, j).Some?
    ensures Within(FindAll(p, s, i), j)
    decreases |s| - i
  {
    var c := CompositeAt(p, s, i);
    if j == i {
      assert c == CompositeAt(p, s, j);
      WithinAtMatch(p, s, i, j);
    } else if c.Some? && j < c.value {
      WithinAtMatch(p, s, i, j);
    } else {
      FindAllComplete(p, s, NextFind(p, s, i), j);
      WithinFromNext(p, s, i, j);
    }
  }

  /** A match anywhere at or after `i` is found by the scan, so the count is positive. */
  lemma MatchIsCounted(p: CompositePattern, s: string, i: nat, at: nat)
    requires i <= at < |s| && CompositeAt(p, s, at).Some?
    ensures CountMatches(p, s, i) >= 1
  {
    FindAllComplete(p, s, i, at);
  }

  /** The scan finds nothing in a text where no position matches. */
  lemma {:induction false} NoMatchNoCount(p: CompositePattern, s: string, i: nat)
    requires i <= |s|
    requires forall k :: i <= k < |s| ==> CompositeAt(p, s, k).None?
    ensures CountMatches(p, s, i) == 0
    decreases |s| - i
  {
    if i < |s| {
      FindAllUnfold(p, s, i);
      NoMatchNoCount(p, s, i + 1);
    }
  }

  /** When exactly one position at or after `i` matches, `findall` finds exactly one match. */
  lemma SoleMatchCountsOne(p: CompositePattern, s: string, i: nat, at: nat)
    requires i <= at < |s| && CompositeAt(p, s, at).Some?
    requires forall k :: i <= k < |s| && k != at ==> CompositeAt(p, s, k).None?
    ensures CountMatches(p, s, i) == 1
  {
    FindAllSkips(p, s, i, at);
    FindAllUnfold(p, s, at);
    NoMatchNoCount(p, s, CompositeAt(p, s, at).value);
  }

  /** With no match in `[i, at)`, the scan from `i` reports what the scan from `at` reports. */
  lemma {:induction false} FindAllSkips(p: CompositePattern, s: string, i: nat, at: nat)
    requires i <= at <= |s|
    requires forall k :: i <= k < at ==> CompositeAt(p, s, k).None?
    ensures FindAll(p, s, i) == FindAll(p, s, at)
    decreases at - i
  {
    if i < at {
      FindAllUnfold(p, s, i);
      FindAllSkips(p, s, i + 1, at);
    }
  }

  /**
   * The first match, and a second one starting at or after the end of the first, are both
   * counted (a later match that overlaps the first one is not).
   */
  lemma SeparateMatchesCountTwo(p: CompositePattern, s: string, i: nat, first: nat, second: nat)
    requires i <= first < |s| && CompositeAt(p, s, first).Some?
    requires forall k :: i <= k < first ==> CompositeAt(p, s, k).None?
    requires CompositeAt(p, s, first).value <= second < |s| && CompositeAt(p, s, second).Some?
    ensures CountMatches(p, s, i) >= 2
  {
    FindAllSkips(p, s, i, first);
    FindAllUnfold(p, s, first);
    FindAllComplete(p, s, CompositeAt(p, s, first).value, second);
  }

  // ---------------------------------------------------------------------
  // Year in a file name
  // ---------------------------------------------------------------------

  /** "20" or "19" then two digits, at `i`. */
  predicate YearAt(s: string, i: nat) {
    && i + 4 <= |s|
    && (OccursAt(s, "20", i) || OccursAt(s, "19", i))
    && IsDigit(s[i + 2]) && IsDigit(s[i + 3])
  }

  /** `re.search` for a year at or after `i`: the leftmost position that holds one. */
  function SearchYear(s: string, i: nat): (r: Option<nat>)
    requires i <= |s|
    ensures r.Some? ==> i <= r.value && YearAt(s, r.value)
    ensures forall k :: i <= k && (r.None? || k < r.value) ==> !YearAt(s, k)
    decreases |s| - i
  {
    if i == |s| then None
    else if YearAt(s, i) then Some(i)
    else SearchYear(s, i + 1)
  }
}
