/**
 * The Python string built-ins the analyser relies on: whitespace, `strip`,
 * `in`, `find`, `rfind`, `split`, `join`, `lower` and `str` of a natural number.
 */
module PyText {

  /** Python 3's `str.isspace`; the class `\s` of `re` on str patterns is the same set. */
  predicate IsSpace(c: char) {
    || ('\t' <= c <= '\r')
    || ('\U{1C}' <= c <= ' ')
    || c == '\U{85}' || c == '\U{A0}' || c == '\U{1680}'
    || ('\U{2000}' <= c <= '\U{200A}')
    || c == '\U{2028}' || c == '\U{2029}' || c == '\U{202F}' || c == '\U{205F}' || c == '\U{3000}'
  }

  /** `\d` of `re` on str patterns: the ASCII digits and the two Arabic-Indic digit blocks. */
  predicate IsDigit(c: char) {
    ('0' <= c <= '9') || ('\U{0660}' <= c <= '\U{0669}') || ('\U{06F0}' <= c <= '\U{06F9}')
  }

  /** A line break, a member of `[\r\n]`. */
  predicate IsLineBreak(c: char) {
    c == '\r' || c == '\n'
  }

  /** The character classes the analyser's patterns use: `\s`, `[\r\n]` and `\d`. */
  datatype CharClass = Whitespace | LineBreak | Digit

  predicate InClass(c: char, cls: CharClass) {
    match cls
    case Whitespace => IsSpace(c)
    case LineBreak => IsLineBreak(c)
    case Digit => IsDigit(c)
  }

  /** The longest suffix of `s` that does not start with a character of `cls`. */
  function DropRun(s: string, cls: CharClass): (r: string)
    ensures |r| <= |s|
    ensures r == [] || !InClass(r[0], cls)
  {
    if |s| > 0 && InClass(s[0], cls) then DropRun(s[1..], cls) else s
  }

  /** What `DropRun` leaves is a suffix of `s`. */
  lemma {:induction false} DropRunIsSuffix(s: string, cls: CharClass)
    ensures DropRun(s, cls) == s[|s| - |DropRun(s, cls)|..]
    decreases |s|
  {
    if |s| > 0 && InClass(s[0], cls) {
      var r := DropRun(s[1..], cls);
      DropRunIsSuffix(s[1..], cls);
      assert s[1..][|s| - 1 - |r|..] == s[|s| - |r|..];
    }
  }

  /** A string made only of characters of `cls` is dropped entirely. */
  lemma {:induction false} DropRunAllMembers(s: string, cls: CharClass)
    requires forall i :: 0 <= i < |s| ==> InClass(s[i], cls)
    ensures DropRun(s, cls) == []
    decreases |s|
  {
    if |s| > 0 {
      assert forall i :: 0 <= i < |s| - 1 ==> s[1..][i] == s[i + 1];
      DropRunAllMembers(s[1..], cls);
    }
  }

  /** `s.lstrip()`. */
  function LStrip(s: string): string {
    DropRun(s, Whitespace)
  }

  /** `s.rstrip()`: the longest prefix of `s` that does not end in whitespace. */
  function RStrip(s: string): (r: string)
    ensures |r| <= |s|
    ensures r == [] || !IsSpace(r[|r| - 1])
  {
    if |s| > 0 && IsSpace(s[|s| - 1]) then RStrip(s[..|s| - 1]) else s
  }

  /** What `rstrip` leaves is a prefix of `s`. */
  lemma {:induction false} RStripIsPrefix(s: string)
    ensures RStrip(s) == s[..|RStrip(s)|]
    decreases |s|
  {
    if |s| > 0 && IsSpace(s[|s| - 1]) {
      var t := s[..|s| - 1];
      RStripIsPrefix(t);
      assert t[..|RStrip(t)|] == s[..|RStrip(t)|];
    }
  }

  /** `s.strip()`: `s` without its leading and trailing whitespace. */
  function Strip(s: string): (r: string)
    ensures |r| <= |s|
    ensures r == [] || (!IsSpace(r[0]) && !IsSpace(r[|r| - 1]))
    ensures |r| <= |LStrip(s)|
  {
    RStripIsPrefix(LStrip(s));
    RStrip(LStrip(s))
  }

  /** What `strip` leaves is a prefix of what `lstrip` leaves. */
  lemma StripIsPrefix(s: string)
    ensures Strip(s) == LStrip(s)[..|Strip(s)|]
  {
    RStripIsPrefix(LStrip(s));
  }

  /** The stripped text is the slice of `s` that starts where `lstrip` stopped. */
  lemma StripIsSlice(s: string) returns (lo: nat)
    ensures lo == |s| - |LStrip(s)|
    ensures lo + |Strip(s)| <= |s| && Strip(s) == s[lo..lo + |Strip(s)|]
  {
    var l := LStrip(s);
    lo := |s| - |l|;
    DropRunIsSuffix(s, Whitespace);
    StripIsPrefix(s);
    assert l == s[lo..];
    assert Strip(s) == l[..|Strip(s)|];
  }

  /** Everything `DropRun` removes belongs to the class. */
  lemma {:induction false} DropRunDropsMembers(s: string, cls: CharClass)
    ensures forall i :: 0 <= i < |s| - |DropRun(s, cls)| ==> InClass(s[i], cls)
    decreases |s|
  {
    if |s| > 0 && InClass(s[0], cls) {
      var t := s[1..];
      DropRunDropsMembers(t, cls);
      assert DropRun(s, cls) == DropRun(t, cls);
      forall i | 0 <= i < |s| - |DropRun(s, cls)| ensures InClass(s[i], cls) {
        if i > 0 { assert s[i] == t[i - 1]; }
      }
    }
  }

  /** Everything `rstrip` removes is whitespace. */
  lemma {:induction false} RStripDropsSpace(s: string)
    ensures forall i :: |RStrip(s)| <= i < |s| ==> IsSpace(s[i])
    decreases |s|
  {
    if |s| > 0 && IsSpace(s[|s| - 1]) {
      var t := s[..|s| - 1];
      RStripDropsSpace(t);
      assert forall i :: |RStrip(s)| <= i < |t| ==> s[i] == t[i];
    }
  }

  /** `s.strip()` is empty exactly when `s` is all whitespace. */
  lemma StripEmptyIffAllSpace(s: string)
    ensures Strip(s) == [] <==> forall i :: 0 <= i < |s| ==> IsSpace(s[i])
  {
    var l := LStrip(s);
    DropRunDropsMembers(s, Whitespace);
    if Strip(s) == [] {
      RStripDropsSpace(l);
      assert l == [];
    }
    if forall i :: 0 <= i < |s| ==> IsSpace(s[i]) {
      DropRunAllMembers(s, Whitespace);
    }
  }

  /** `p` occurs in `s` starting at index `i`. */
  predicate OccursAt(s: string, p: string, i: nat) {
    i + |p| <= |s| && s[i..i + |p|] == p
  }

  lemma OccursAtTail(s: string, p: string, i: nat)
    requires |s| > 0
    ensures OccursAt(s, p, i + 1) == OccursAt(s[1..], p, i)
  {
    if i + 1 + |p| <= |s| {
      assert s[1..][i..i + |p|] == s[i + 1..i + 1 + |p|];
    }
  }

  /** `s.find(p)`: the leftmost index at which `p` occurs in `s`, or -1. */
  function Find(s: string, p: string): (r: int)
    ensures -1 <= r <= |s|
    ensures r >= 0 ==> OccursAt(s, p, r)
    ensures forall i: nat :: (r < 0 || i < r) ==> !OccursAt(s, p, i)
    decreases |s|
  {
    if p <= s then 0
    else if s == [] then -1
    else
      var k := Find(s[1..], p);
      FindTail(s, p, k);
      if k < 0 then -1 else k + 1
  }

  /** The leftmost occurrence in `s[1..]`, shifted by one, is the leftmost in `s` when `s` does not start with `p`. */
  lemma FindTail(s: string, p: string, k: int)
    requires s != [] && !(p <= s) && -1 <= k < |s|
    requires k >= 0 ==> OccursAt(s[1..], p, k)
    requires forall i: nat :: (k < 0 || i < k) ==> !OccursAt(s[1..], p, i)
    ensures k >= 0 ==> OccursAt(s, p, k + 1)
    ensures forall i: nat :: (k < 0 || i < k + 1) ==> !OccursAt(s, p, i)
  {
    assert !OccursAt(s, p, 0);
    forall i: nat | i > 0
      ensures OccursAt(s, p, i) == OccursAt(s[1..], p, i - 1)
    {
      OccursAtTail(s, p, i - 1);
    }
  }

  /** A text occurs where it is appended. */
  lemma OccursAtEnd(a: string, p: string)
    ensures OccursAt(a + p, p, |a|)
  {
    assert (a + p)[|a|..|a| + |p|] == p;
  }

  /** An occurrence with none before it is the one `find` returns. */
  lemma FindIsFirst(s: string, p: string, k: nat)
    requires OccursAt(s, p, k)
    requires forall i: nat :: i < k ==> !OccursAt(s, p, i)
    ensures Find(s, p) == k
  {
  }

  /** `p in s` for strings. */
  predicate Contains(s: string, p: string) {
    Find(s, p) >= 0
  }

  /** `s.rfind(p)`: the rightmost index at which `p` occurs in `s`, or -1. */
  function RFind(s: string, p: string): (r: int)
    ensures -1 <= r <= |s|
    ensures r >= 0 ==> OccursAt(s, p, r)
    ensures forall i: nat :: r < i ==> !OccursAt(s, p, i)
    decreases |s|
  {
    if |p| <= |s| && s[|s| - |p|..] == p then |s| - |p|
    else if s == [] then -1
    else
      var r := RFind(s[..|s| - 1], p);
      assert forall i: nat :: i + |p| < |s| ==> (OccursAt(s, p, i) == OccursAt(s[..|s| - 1], p, i)) by {
        forall i: nat | i + |p| < |s| ensures OccursAt(s, p, i) == OccursAt(s[..|s| - 1], p, i) {
          assert s[..|s| - 1][i..i + |p|] == s[i..i + |p|];
        }
      }
      r
  }

  /** `s.split(sep)` for a non-empty separator: the pieces between the leftmost non-overlapping occurrences. */
  function Split(s: string, sep: string): (r: seq<string>)
    requires |sep| > 0
    ensures |r| >= 1
    decreases |s|
  {
    var f := Find(s, sep);
    if f < 0 then [s] else [s[..f]] + Split(s[f + |sep|..], sep)
  }

  /** `sep.join(parts)`. */
  function Join(parts: seq<string>, sep: string): string
    decreases |parts|
  {
    if |parts| == 0 then []
    else if |parts| == 1 then parts[0]
    else parts[0] + sep + Join(parts[1..], sep)
  }

  /** `s.replace(target, replacement)` for a non-empty `target`. */
  function Replace(s: string, target: string, replacement: string): string
    requires |target| > 0
  {
    Join(Split(s, target), replacement)
  }

  /** The first piece of a split is the text before the first occurrence of the separator (all of `s` if none). */
  lemma SplitFirstPiece(s: string, sep: string)
    requires |sep| > 0
    ensures Find(s, sep) < 0 ==> Split(s, sep) == [s]
    ensures Find(s, sep) >= 0 ==> Split(s, sep) == [s[..Find(s, sep)]] + Split(s[Find(s, sep) + |sep|..], sep)
  {
  }

  /** Joining a piece in front of a non-empty list of pieces puts the separator between them. */
  lemma JoinCons(head: string, rest: seq<string>, sep: string)
    requires |rest| >= 1
    ensures Join([head] + rest, sep) == head + sep + Join(rest, sep)
  {
    assert ([head] + rest)[1..] == rest;
  }

  /** Splitting and re-joining with the same separator gives back the string. */
  lemma {:induction false} JoinSplit(s: string, sep: string)
    requires |sep| > 0
    ensures Join(Split(s, sep), sep) == s
    decreases |s|
  {
    SplitFirstPiece(s, sep);
    var f := Find(s, sep);
    if f >= 0 {
      var tail := s[f + |sep|..];
      JoinSplit(tail, sep);
      JoinCons(s[..f], Split(tail, sep), sep);
      AroundOccurrence(s, sep, f);
    }
  }

  /** A text is what comes before an occurrence, the occurrence, and what comes after. */
  lemma AroundOccurrence(s: string, p: string, i: nat)
    requires OccursAt(s, p, i)
    ensures s == s[..i] + p + s[i + |p|..]
  {
    assert s == s[..i] + s[i..i + |p|] + s[i + |p|..];
  }

  /** The text before the first occurrence of a separator does not contain it. */
  lemma PrefixBeforeFind(s: string, sep: string)
    requires |sep| > 0 && Find(s, sep) >= 0
    ensures !Contains(s[..Find(s, sep)], sep)
  {
    var f := Find(s, sep);
    var head := s[..f];
    if Contains(head, sep) {
      var i := Find(head, sep);
      assert OccursAt(head, sep, i);
      assert s[i..i + |sep|] == head[i..i + |sep|];
      assert OccursAt(s, sep, i);
    }
  }

  /** No piece of a split contains the separator. */
  lemma {:induction false} SplitPiecesAvoidSeparator(s: string, sep: string)
    requires |sep| > 0
    ensures forall piece :: piece in Split(s, sep) ==> !Contains(piece, sep)
    decreases |s|
  {
    SplitFirstPiece(s, sep);
    var f := Find(s, sep);
    if f >= 0 {
      var tail := s[f + |sep|..];
      var rest := Split(tail, sep);
      SplitPiecesAvoidSeparator(tail, sep);
      PrefixBeforeFind(s, sep);
      assert Split(s, sep) == [s[..f]] + rest;
    }
  }

  function LowerChar(c: char): char {
    if 'A' <= c <= 'Z' then (c as int + 32) as char else c
  }

  /**
   * `s.lower()` on the ASCII letters. Outside ASCII only U+0130 and U+212A lower to
   * something containing an ASCII letter ('i' followed by U+0307, and 'k').
   */
  function Lower(s: string): (r: string)
    ensures |r| == |s|
    ensures forall i :: 0 <= i < |s| ==> r[i] == LowerChar(s[i])
  {
    seq(|s|, i requires 0 <= i < |s| => LowerChar(s[i]))
  }

  /**
   * What lowering does: no ASCII capital remains, each capital becomes its small letter,
   * every other character is kept, and lowering again changes nothing.
   */
  lemma LowerMeaning(s: string)
    ensures |Lower(s)| == |s|
    ensures forall i :: 0 <= i < |s| ==> !('A' <= Lower(s)[i] <= 'Z')
    ensures forall i :: 0 <= i < |s| && 'A' <= s[i] <= 'Z' ==> Lower(s)[i] as int == s[i] as int + 32
    ensures forall i :: 0 <= i < |s| && !('A' <= s[i] <= 'Z') ==> Lower(s)[i] == s[i]
    ensures Lower(Lower(s)) == Lower(s)
  {
    assert forall i :: 0 <= i < |s| ==> Lower(Lower(s))[i] == Lower(s)[i];
  }

  function DigitChar(d: nat): char
    requires d < 10
  {
    ('0' as int + d) as char
  }

  /** `str(n)` for a natural number. */
  function DecimalString(n: nat): (r: string)
    ensures |r| > 0
    ensures forall i :: 0 <= i < |r| ==> '0' <= r[i] <= '9'
  {
    if n < 10 then [DigitChar(n)] else DecimalString(n / 10) + [DigitChar(n % 10)]
  }

  /** The value of a string of decimal digits: `int(s)`. */
  function DecimalValue(s: string): nat
    requires forall i :: 0 <= i < |s| ==> '0' <= s[i] <= '9'
  {
    if s == [] then 0
    else DecimalValue(s[..|s| - 1]) * 10 + (s[|s| - 1] as int - '0' as int)
  }

  /** `int(str(n)) == n`: the decimal rendering of identifiers loses nothing. */
  lemma {:induction false} DecimalRoundTrip(n: nat)
    ensures DecimalValue(DecimalString(n)) == n
  {
    if n >= 10 {
      DecimalRoundTrip(n / 10);
      var s := DecimalString(n);
      assert s[..|s| - 1] == DecimalString(n / 10);
    }
  }
}
