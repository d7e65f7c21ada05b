/** The text normaliser: every whitespace run becomes one space and the ends are stripped. */
module Normalizer {
  import opened PyText
  import opened Seqs

  /**
   * One left-to-right pass of `re.sub(class + '+', ' ', s)`: `inRun` says whether the
   * previous character belonged to the class; the first member of each maximal run
   * becomes a space and the rest of the run is dropped.
   */
  function CollapseRuns(s: string, cls: CharClass, inRun: bool): (r: string)
    ensures |r| <= |s|
  {
    if s == [] then []
    else if !InClass(s[0], cls) then [s[0]] + CollapseRuns(s[1..], cls, false)
    else if inRun then CollapseRuns(s[1..], cls, true)
    else [' '] + CollapseRuns(s[1..], cls, true)
  }

  /** Every maximal run of `cls` characters becomes one space. */
  function Collapse(s: string, cls: CharClass): string {
    CollapseRuns(s, cls, false)
  }

  /** Whether a scan that started in state `inRun` is inside a run after reading `a`. */
  function EndsInRun(a: string, cls: CharClass, inRun: bool): bool {
    if a == [] then inRun else InClass(a[|a| - 1], cls)
  }

  /** The normaliser: collapse whitespace runs, then runs of line breaks, then strip. */
  function CleanText(s: string): string {
    Strip(Collapse(Collapse(s, Whitespace), LineBreak))
  }

  /** Every member of `cls` in `t` is a space, and no two members are adjacent. */
  predicate SingleSpaced(t: string, cls: CharClass) {
    && (forall i :: 0 <= i < |t| && InClass(t[i], cls) ==> t[i] == ' ')
    && (forall i :: 0 <= i < |t| - 1 ==> !(InClass(t[i], cls) && InClass(t[i + 1], cls)))
  }

  /** The normal form: no whitespace but single spaces between non-space characters. */
  predicate Normal(t: string) {
    && SingleSpaced(t, Whitespace)
    && (t == [] || (!IsSpace(t[0]) && !IsSpace(t[|t| - 1])))
  }

  /** What one character contributes to the collapsed text, given the scan state before it. */
  function RunHead(c: char, cls: CharClass, inRun: bool): string {
    if !InClass(c, cls) then [c] else if inRun then [] else [' ']
  }

  /** One step of the scan: the first character's contribution, then the rest scanned in the new state. */
  lemma CollapseRunsStep(s: string, cls: CharClass, inRun: bool)
    requires s != []
    ensures CollapseRuns(s, cls, inRun) == RunHead(s[0], cls, inRun) + CollapseRuns(s[1..], cls, InClass(s[0], cls))
  {
    if InClass(s[0], cls) && inRun {
      assert RunHead(s[0], cls, inRun) + CollapseRuns(s[1..], cls, true) == CollapseRuns(s[1..], cls, true);
    }
  }

  /** Collapsing distributes over concatenation, the scan state carried across the seam. */
  lemma {:induction false} CollapseRunsAppend(a: string, b: string, cls: CharClass, inRun: bool)
    ensures CollapseRuns(a + b, cls, inRun)
         == CollapseRuns(a, cls, inRun) + CollapseRuns(b, cls, EndsInRun(a, cls, inRun))
    decreases |a|
  {
    if a == [] {
      assert a + b == b;
    } else {
      var t := a[1..];
      var inside := InClass(a[0], cls);
      AppendHeadTail(a, b);
      assert EndsInRun(a, cls, inRun) == EndsInRun(t, cls, inside) by {
        if t != [] { assert t[|t| - 1] == a[|a| - 1]; }
      }
      CollapseRunsStep(a, cls, inRun);
      CollapseRunsStep(a + b, cls, inRun);
      CollapseRunsAppend(t, b, cls, inside);
      AppendAssoc(RunHead(a[0], cls, inRun), CollapseRuns(t, cls, inside), CollapseRuns(b, cls, EndsInRun(t, cls, inside)));
    }
  }

  /** The scan state does not matter when the text does not start with a member. */
  lemma CollapseRunsStateFree(s: string, cls: CharClass)
    requires s == [] || !InClass(s[0], cls)
    ensures CollapseRuns(s, cls, true) == CollapseRuns(s, cls, false)
  {
  }

  /** Collapsing a text made only of members gives one space, or nothing inside a run. */
  lemma {:induction false} CollapseRunsAllMembers(b: string, cls: CharClass, inRun: bool)
    requires b != [] && forall i :: 0 <= i < |b| ==> InClass(b[i], cls)
    ensures CollapseRuns(b, cls, inRun) == if inRun then [] else [' ']
    decreases |b|
  {
    if |b| > 1 {
      assert InClass(b[1..][0], cls);
      CollapseRunsAllMembers(b[1..], cls, true);
    }
  }

  /** Putting one character in front keeps a text single-spaced when it is not a second member in a row. */
  lemma SingleSpacedCons(c: char, x: string, cls: CharClass)
    requires SingleSpaced(x, cls)
    requires InClass(c, cls) ==> c == ' ' && (x == [] || !InClass(x[0], cls))
    ensures SingleSpaced([c] + x, cls)
  {
    var t := [c] + x;
    assert forall i :: 1 <= i < |t| ==> t[i] == x[i - 1];
  }

  /** After collapsing, each member is a space and no two members are adjacent; inside a run the output starts with a non-member. */
  lemma {:induction false} CollapseRunsSingleSpaced(s: string, cls: CharClass, inRun: bool)
    ensures SingleSpaced(CollapseRuns(s, cls, inRun), cls)
    ensures inRun && CollapseRuns(s, cls, inRun) != [] ==> !InClass(CollapseRuns(s, cls, inRun)[0], cls)
    decreases |s|
  {
    if s != [] {
      CollapseRunsSingleSpaced(s[1..], cls, InClass(s[0], cls));
      if !InClass(s[0], cls) {
        SingleSpacedCons(s[0], CollapseRuns(s[1..], cls, false), cls);
      } else if !inRun {
        SingleSpacedCons(' ', CollapseRuns(s[1..], cls, true), cls);
      }
    }
  }

  /** After collapsing, each member of the class is a space and no two members are adjacent. */
  lemma CollapseSingleSpaced(s: string, cls: CharClass)
    ensures SingleSpaced(Collapse(s, cls), cls)
  {
    CollapseRunsSingleSpaced(s, cls, false);
  }

  /** Collapsing a text with no member of the class changes nothing. */
  lemma {:induction false} CollapseRunsAbsent(s: string, cls: CharClass)
    requires forall i :: 0 <= i < |s| ==> !InClass(s[i], cls)
    ensures CollapseRuns(s, cls, false) == s
    decreases |s|
  {
    if s != [] {
      assert forall i :: 0 <= i < |s| - 1 ==> s[1..][i] == s[i + 1];
      CollapseRunsAbsent(s[1..], cls);
      assert s == [s[0]] + s[1..];
    }
  }

  /** Collapsing an already single-spaced text changes nothing, and inside a run it needs a non-member first. */
  lemma {:induction false} CollapseRunsFixed(t: string, cls: CharClass, inRun: bool)
    requires SingleSpaced(t, cls)
    requires inRun ==> t == [] || !InClass(t[0], cls)
    ensures CollapseRuns(t, cls, inRun) == t
    decreases |t|
  {
    if t != [] {
      var u := t[1..];
      assert SingleSpaced(u, cls) by {
        assert forall i :: 0 <= i < |u| ==> u[i] == t[i + 1];
      }
      assert InClass(t[0], cls) && u != [] ==> !InClass(u[0], cls) by {
        if InClass(t[0], cls) && u != [] { assert !(InClass(t[0], cls) && InClass(t[1], cls)); }
      }
      CollapseRunsFixed(u, cls, InClass(t[0], cls));
      assert t == [t[0]] + u;
    }
  }

  /** A slice of a single-spaced text is single-spaced. */
  lemma SingleSpacedSlice(t: string, a: nat, b: nat, cls: CharClass)
    requires SingleSpaced(t, cls) && a <= b <= |t|
    ensures SingleSpaced(t[a..b], cls)
  {
    assert forall i :: 0 <= i < b - a ==> t[a..b][i] == t[a + i];
  }

  /** The line-break pass is a no-op after the whitespace pass. */
  lemma LineBreakPassIsNoOp(s: string)
    ensures Collapse(Collapse(s, Whitespace), LineBreak) == Collapse(s, Whitespace)
    ensures CleanText(s) == Strip(Collapse(s, Whitespace))
  {
    CollapseSingleSpaced(s, Whitespace);
    var c := Collapse(s, Whitespace);
    forall i | 0 <= i < |c| ensures !IsLineBreak(c[i]) {
      if IsLineBreak(c[i]) { assert IsSpace(c[i]); }
    }
    CollapseRunsAbsent(c, LineBreak);
  }

  /** Stripping a single-spaced text gives a text in normal form. */
  lemma NormalOfStrip(c: string)
    requires SingleSpaced(c, Whitespace)
    ensures Normal(Strip(c))
  {
    var lo := StripIsSlice(c);
    SingleSpacedSlice(c, lo, lo + |Strip(c)|, Whitespace);
  }

  /** The normaliser's output is in normal form: no line breaks, no doubled or outer whitespace. */
  lemma CleanTextNormal(s: string)
    ensures Normal(CleanText(s))
    ensures forall i :: 0 <= i < |CleanText(s)| ==> CleanText(s)[i] != '\n' && CleanText(s)[i] != '\r'
  {
    LineBreakPassIsNoOp(s);
    CollapseSingleSpaced(s, Whitespace);
    NormalOfStrip(Collapse(s, Whitespace));
    var t := CleanText(s);
    forall i | 0 <= i < |t| ensures t[i] != '\n' && t[i] != '\r' {
      if t[i] == '\n' || t[i] == '\r' { assert IsSpace(t[i]); }
    }
  }

  /** A text already in normal form is its own normalisation. */
  lemma CleanTextFixesNormal(t: string)
    requires Normal(t)
    ensures CleanText(t) == t
  {
    CollapseRunsFixed(t, Whitespace, false);
    LineBreakPassIsNoOp(t);
    assert LStrip(t) == t;
    assert RStrip(t) == t;
  }

  /** Normalising twice is normalising once. */
  lemma CleanTextIdempotent(s: string)
    ensures CleanText(CleanText(s)) == CleanText(s)
  {
    CleanTextNormal(s);
    CleanTextFixesNormal(CleanText(s));
  }

  /** Dropping a leading run distributes over a suffix once the prefix has a non-member. */
  lemma {:induction false} DropRunAppend(a: string, b: string, cls: CharClass)
    ensures DropRun(a + b, cls) == if DropRun(a, cls) == [] then DropRun(b, cls) else DropRun(a, cls) + b
    decreases |a|
  {
    if a == [] {
      assert a + b == b;
    } else if InClass(a[0], cls) {
      assert (a + b)[1..] == a[1..] + b;
      DropRunAppend(a[1..], b, cls);
    } else {
    }
  }

  /** A space in front does not change what stripping gives. */
  lemma StripLeadingSpace(y: string)
    ensures Strip([' '] + y) == Strip(y)
  {
    assert ([' '] + y)[1..] == y;
  }

  /** `lstrip` of a text with a space appended: the space survives unless everything was stripped. */
  lemma LStripAppendSpace(y: string)
    ensures LStrip(y + [' ']) == if LStrip(y) == [] then [] else LStrip(y) + [' ']
  {
    DropRunAppend(y, [' '], Whitespace);
    assert LStrip([' ']) == [] by {
      assert [' '][1..] == [];
    }
  }

  /** `rstrip` removes an appended space. */
  lemma RStripAppendSpace(l: string)
    ensures RStrip(l + [' ']) == RStrip(l)
  {
    assert (l + [' '])[..|l|] == l;
  }

  /** A space at the end does not change what stripping gives. */
  lemma StripTrailingSpace(y: string)
    ensures Strip(y + [' ']) == Strip(y)
  {
    LStripAppendSpace(y);
    RStripAppendSpace(LStrip(y));
  }

  /** Leading whitespace does not change the normalisation. */
  lemma CleanTextIgnoresLeadingSpace(s: string)
    ensures CleanText(LStrip(s)) == CleanText(s)
  {
    var l := LStrip(s);
    var p := s[..|s| - |l|];
    DropRunIsSuffix(s, Whitespace);
    assert s == p + l;
    LineBreakPassIsNoOp(s);
    LineBreakPassIsNoOp(l);
    if p != [] {
      DropRunDropsMembers(s, Whitespace);
      assert forall i :: 0 <= i < |p| ==> p[i] == s[i];
      CollapseRunsAppend(p, l, Whitespace, false);
      CollapseRunsAllMembers(p, Whitespace, false);
      CollapseRunsStateFree(l, Whitespace);
      StripLeadingSpace(Collapse(l, Whitespace));
    }
  }

  /** A trailing run of members after a non-member ending collapses to one trailing space. */
  lemma CollapseTrailingRun(a: string, b: string, cls: CharClass)
    requires a == [] || !InClass(a[|a| - 1], cls)
    requires b != [] && forall i :: 0 <= i < |b| ==> InClass(b[i], cls)
    ensures Collapse(a + b, cls) == Collapse(a, cls) + [' ']
  {
    CollapseRunsAppend(a, b, cls, false);
    CollapseRunsAllMembers(b, cls, false);
  }

  /** What `rstrip` removes is whitespace only. */
  lemma RStripRemovesSpace(s: string)
    ensures forall i :: 0 <= i < |s| - |RStrip(s)| ==> IsSpace(s[|RStrip(s)|..][i])
  {
    var a := RStrip(s);
    RStripDropsSpace(s);
    assert forall i :: 0 <= i < |s| - |a| ==> s[|a|..][i] == s[|a| + i];
  }

  /** A non-empty run of whitespace after a text that does not end in whitespace is normalised away. */
  lemma CleanTextDropsSpaceTail(a: string, b: string)
    requires a == [] || !IsSpace(a[|a| - 1])
    requires b != [] && forall i :: 0 <= i < |b| ==> IsSpace(b[i])
    ensures CleanText(a + b) == CleanText(a)
  {
    var y := Collapse(a, Whitespace);
    calc {
      CleanText(a + b);
      == { LineBreakPassIsNoOp(a + b); }
      Strip(Collapse(a + b, Whitespace));
      == { CollapseTrailingRun(a, b, Whitespace); }
      Strip(y + [' ']);
      == { StripTrailingSpace(y); }
      Strip(y);
      == { LineBreakPassIsNoOp(a); }
      CleanText(a);
    }
  }

  /** Trailing whitespace does not change the normalisation. */
  lemma CleanTextIgnoresTrailingSpace(s: string)
    ensures CleanText(RStrip(s)) == CleanText(s)
  {
    var a := RStrip(s);
    var b := s[|a|..];
    RStripIsPrefix(s);
    TakeDrop(s, |a|);
    if b != [] {
      RStripRemovesSpace(s);
      CleanTextDropsSpaceTail(a, b);
    }
  }

  /** Stripping before normalising changes nothing: a span's text is the normalised span. */
  lemma CleanTextIgnoresStrip(s: string)
    ensures CleanText(Strip(s)) == CleanText(s)
  {
    CleanTextIgnoresLeadingSpace(s);
    CleanTextIgnoresTrailingSpace(LStrip(s));
  }

  /** A text that starts with a non-space character normalises to a non-empty text. */
  lemma CleanTextNonEmpty(s: string)
    requires s != [] && !IsSpace(s[0])
    ensures CleanText(s) != []
  {
    LineBreakPassIsNoOp(s);
    var c := Collapse(s, Whitespace);
    assert LStrip(c) == c;
    RStripDropsSpace(c);
    assert RStrip(c) != [];
  }
}
