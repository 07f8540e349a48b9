/** The script's three regular expressions, written out as matchers over
    the text: the "- Part N" search that guesses a track number, the
    trailing "Part N" that is cut from a guessed title, and the trailing
    "(HH:MM)" stamp that marks a sub-chapter. Each `\s` is `IsSpace`, each
    `\d` is `IsDigit`, and "Part" matches in any letter case. */
module Patterns {
  import opened Wrappers
  import opened Text

  /** The end of the run of decimal digits that starts at `i`. */
  function DigitRunEnd(s: string, i: nat): (j: nat)
    requires i <= |s|
    ensures i <= j <= |s|
    decreases |s| - i
  {
    if i < |s| && IsDigit(s[i]) then DigitRunEnd(s, i + 1) else i
  }

  lemma {:induction false} DigitRunEndSpec(s: string, i: nat)
    requires i <= |s|
    ensures var j := DigitRunEnd(s, i);
      (forall k | i <= k < j :: IsDigit(s[k])) && (j < |s| ==> !IsDigit(s[j]))
    decreases |s| - i
  {
    if i < |s| && IsDigit(s[i]) {
      DigitRunEndSpec(s, i + 1);
    }
  }

  /** The first `k` in `i..n-1` with `p(k)`: how `re.search` tries one
      starting position after the other. */
  function FirstFrom(p: nat -> bool, i: nat, n: nat): (r: Option<nat>)
    ensures r.Some? ==> i <= r.value < n
    decreases n - i
  {
    if i >= n then None
    else if p(i) then Some(i)
    else FirstFrom(p, i + 1, n)
  }

  /** `FirstFrom` finds the least position that satisfies `p`, and fails
      only when none does. */
  lemma {:induction false} FirstFromSpec(p: nat -> bool, i: nat, n: nat)
    ensures match FirstFrom(p, i, n)
      case Some(j) => i <= j < n && p(j) && forall k | i <= k < j :: !p(k)
      case None => forall k | i <= k < n :: !p(k)
    decreases n - i
  {
    if i < n && !p(i) {
      FirstFromSpec(p, i + 1, n);
    }
  }

  /** The word "part" in any letter case at `i`. */
  predicate PartWordAt(s: string, i: nat) {
    && i + 4 <= |s|
    && LowerChar(s[i]) == 'p' && LowerChar(s[i + 1]) == 'a'
    && LowerChar(s[i + 2]) == 'r' && LowerChar(s[i + 3]) == 't'
  }

  /** Where the digits of a "- Part N" match starting at `i` are: `-\s*Part\s*(\d+)`
      tried at one position. Each `\s*` can only stop where the run of
      whitespace ends, since what follows it is not whitespace, and `\d+`
      takes the whole run of digits. */
  function PartGroupAt(s: string, i: nat): Option<(nat, nat)> {
    if i < |s| && s[i] == '-' then
      var j := SpaceRunEnd(s, i + 1);
      if PartWordAt(s, j) then
        var k := SpaceRunEnd(s, j + 4);
        var e := DigitRunEnd(s, k);
        if e > k then Some((k, e)) else None
      else None
    else None
  }

  /** `re.search(r'-\s*Part\s*(\d+)', title, re.IGNORECASE)`: the first
      position where the pattern matches. */
  function SearchPart(s: string): Option<nat> {
    FirstFrom(PartMatches(s), 0, |s|)
  }

  /** The positions where `-\s*Part\s*(\d+)` matches. */
  function PartMatches(s: string): nat -> bool {
    (i: nat) => PartGroupAt(s, i).Some?
  }

  /** A match is a '-', whitespace, the word "part", whitespace, and a
      maximal, non-empty run of digits, which is the group. */
  lemma {:induction false} PartGroupSpec(s: string, i: nat, k: nat, e: nat)
    requires PartGroupAt(s, i) == Some((k, e))
    ensures i < |s| && s[i] == '-'
    ensures var j := SpaceRunEnd(s, i + 1);
      && (forall m | i < m < j :: IsSpace(s[m]))
      && PartWordAt(s, j)
      && j + 4 <= k
      && (forall m | j + 4 <= m < k :: IsSpace(s[m]))
    ensures k < e <= |s|
    ensures AllDigits(s[k..e])
    ensures e < |s| ==> !IsDigit(s[e])
  {
    var j := SpaceRunEnd(s, i + 1);
    SpaceRunEndSpec(s, i + 1);
    SpaceRunEndSpec(s, j + 4);
    DigitRunEndSpec(s, k);
  }

  /** `int(m.group(1))` for the first "- Part N" in a title; `None` when
      there is no match. */
  function PartNumber(title: string): Option<nat> {
    match SearchPart(title)
    case None => None
    case Some(j) =>
      assert PartGroupAt(title, j).Some? by {
        FirstFromSpec(PartMatches(title), 0, |title|);
      }
      var (k, e) := PartGroupAt(title, j).value;
      assert AllDigits(title[k..e]) by {
        PartGroupSpec(title, j, k, e);
      }
      Some(DigitsValue(title[k..e]))
  }

  /** `PartNumber` finds a number exactly when some position matches, and
      then reads the digits of the first match. */
  lemma {:induction false} PartNumberSpec(title: string)
    ensures PartNumber(title).Some? <==> exists i | 0 <= i < |title| :: PartGroupAt(title, i).Some?
    ensures match SearchPart(title)
      case None => PartNumber(title) == None
      case Some(j) =>
        && PartGroupAt(title, j).Some?
        && (forall i | 0 <= i < j :: PartGroupAt(title, i).None?)
        && var (k, e) := PartGroupAt(title, j).value;
        && AllDigits(title[k..e])
        && PartNumber(title) == Some(DigitsValue(title[k..e]))
  {
    FirstFromSpec(PartMatches(title), 0, |title|);
    match SearchPart(title)
    case None =>
      forall i | 0 <= i < |title| ensures PartGroupAt(title, i).None? {
        assert !PartMatches(title)(i);
      }
    case Some(j) =>
      assert PartMatches(title)(j);
      var (k, e) := PartGroupAt(title, j).value;
      PartGroupSpec(title, j, k, e);
      forall i | 0 <= i < j ensures PartGroupAt(title, i).None? {
        assert !PartMatches(title)(i);
      }
  }

  /** `\s*-?\s*Part\s*\d+\s*$` tried at one position: whitespace, an
      optional '-', whitespace, "part", whitespace, digits, and nothing
      but whitespace up to the end. (`$` may also stop before a final
      newline, but the `\s*` before it takes that newline anyway.) */
  predicate PartSuffixAt(s: string, i: nat) {
    && i < |s|
    && var a := SpaceRunEnd(s, i);
    && var b := if a < |s| && s[a] == '-' then a + 1 else a;
    && var c := SpaceRunEnd(s, b);
    && PartWordAt(s, c)
    && var d := SpaceRunEnd(s, c + 4);
    && var e := DigitRunEnd(s, d);
    && e > d
    && SpaceRunEnd(s, e) == |s|
  }

  /** The positions where the suffix pattern matches. */
  function PartSuffixMatches(s: string): nat -> bool {
    (i: nat) => PartSuffixAt(s, i)
  }

  /** `re.sub(r'\s*-?\s*Part\s*\d+\s*$', '', title, flags=re.IGNORECASE)`.
      A match runs to the end of the text, so there is at most one, and it
      is the leftmost. */
  function StripPart(title: string): string {
    match FirstFrom(PartSuffixMatches(title), 0, |title|)
    case None => title
    case Some(i) => title[..i]
  }

  /** What `StripPart` keeps is a prefix of the title. It is shorter exactly
      when the suffix pattern matches somewhere, and then the cut is at the
      first position where it matches. */
  lemma {:induction false} StripPartSpec(title: string)
    ensures var r := StripPart(title);
      && r <= title
      && (|r| < |title| <==> exists k | 0 <= k < |title| :: PartSuffixAt(title, k))
      && (|r| < |title| ==> PartSuffixAt(title, |r|))
      && forall k | 0 <= k < |r| :: !PartSuffixAt(title, k)
  {
    FirstFromSpec(PartSuffixMatches(title), 0, |title|);
    match FirstFrom(PartSuffixMatches(title), 0, |title|)
    case None =>
      forall k | 0 <= k < |title| ensures !PartSuffixAt(title, k) {
        assert !PartSuffixMatches(title)(k);
      }
    case Some(i) =>
      assert PartSuffixMatches(title)(i);
      forall k | 0 <= k < i ensures !PartSuffixAt(title, k) {
        assert !PartSuffixMatches(title)(k);
      }
  }

  /** A character of a stamp: `[0-9:]`. */
  predicate StampChar(c: char) {
    IsDigit(c) || c == ':'
  }

  function StampRunEnd(s: string, i: nat): (j: nat)
    requires i <= |s|
    ensures i <= j <= |s|
    decreases |s| - i
  {
    if i < |s| && StampChar(s[i]) then StampRunEnd(s, i + 1) else i
  }

  function StampRunStart(s: string, j: nat): (i: nat)
    requires j <= |s|
    ensures i <= j
  {
    if j > 0 && StampChar(s[j - 1]) then StampRunStart(s, j - 1) else j
  }

  lemma {:induction false} StampRunEndSpec(s: string, i: nat)
    requires i <= |s|
    ensures var j := StampRunEnd(s, i);
      (forall k | i <= k < j :: StampChar(s[k])) && (j < |s| ==> !StampChar(s[j]))
    decreases |s| - i
  {
    if i < |s| && StampChar(s[i]) {
      StampRunEndSpec(s, i + 1);
    }
  }

  lemma {:induction false} StampRunStartSpec(s: string, j: nat)
    requires j <= |s|
    ensures var i := StampRunStart(s, j);
      (forall k | i <= k < j :: StampChar(s[k])) && (i > 0 ==> !StampChar(s[i - 1]))
  {
    if j > 0 && StampChar(s[j - 1]) {
      StampRunStartSpec(s, j - 1);
    }
  }

  /** `\s+\([0-9:]+\)\s*$` tried at one position. */
  predicate StampAt(s: string, i: nat)
    requires i <= |s|
  {
    && i < |s| && IsSpace(s[i])
    && var a := SpaceRunEnd(s, i);
    && a < |s| && s[a] == '('
    && var b := StampRunEnd(s, a + 1);
    && b > a + 1 && b < |s| && s[b] == ')'
    && SpaceRunEnd(s, b + 1) == |s|
  }

  /** `re.search(r'\s+\([0-9:]+\)\s*$', name)` finds a match. */
  predicate SearchStamp(s: string) {
    exists i | 0 <= i < |s| :: StampAt(s, i)
  }

  /** The same test read from the end: after trailing whitespace, a ')',
      a non-empty run of digits and colons, a '(' and a whitespace. */
  predicate StampSuffix(s: string) {
    var t := TrimEnd(s);
    && |t| >= 1 && t[|t| - 1] == ')'
    && var b := StampRunStart(t, |t| - 1);
    && 2 <= b < |t| - 1
    && t[b - 1] == '(' && IsSpace(t[b - 2])
  }

  /** A stamp read from the end is a match of the regex at the whitespace
      before its '('. */
  lemma {:induction false} StampSuffixFound(s: string)
    requires StampSuffix(s)
    ensures SearchStamp(s)
  {
    var t := TrimEnd(s);
    TrimEndSpec(s);
    var b := StampRunStart(t, |t| - 1);
    StampRunStartSpec(t, |t| - 1);
    var i := b - 2;
    assert s[i] == t[i] && s[b - 1] == t[b - 1] && s[|t| - 1] == t[|t| - 1];
    assert SpaceRunEnd(s, i) == b - 1 by {
      SpaceRunEndSpec(s, i);
    }
    assert StampRunEnd(s, b) == |t| - 1 by {
      StampRunEndExact(s, b, |t| - 1);
    }
    assert SpaceRunEnd(s, |t|) == |s| by {
      SpaceRunEndExact(s, |t|);
    }
    assert StampAt(s, i);
  }

  /** A match of the regex is a stamp read from the end. */
  lemma {:induction false} StampSuffixOfMatch(s: string, i: nat)
    requires i < |s| && StampAt(s, i)
    ensures StampSuffix(s)
  {
    var a := SpaceRunEnd(s, i);
    var b := StampRunEnd(s, a + 1);
    SpaceRunEndSpec(s, i);
    StampRunEndSpec(s, a + 1);
    SpaceRunEndSpec(s, b + 1);
    var t := TrimEnd(s);
    assert |t| == b + 1 by {
      TrimEndAt(s, b + 1);
    }
    TrimEndSpec(s);
    assert StampRunStart(t, |t| - 1) == a + 1 by {
      StampRunStartExact(t, a + 1, b);
    }
    assert t[a] == s[a] && t[a - 1] == s[a - 1];
  }

  /** Reading the stamp from the end agrees with the regex search. */
  lemma {:induction false} StampSuffixIsSearch(s: string)
    ensures StampSuffix(s) <==> SearchStamp(s)
  {
    if StampSuffix(s) {
      StampSuffixFound(s);
    }
    if SearchStamp(s) {
      var i :| 0 <= i < |s| && StampAt(s, i);
      StampSuffixOfMatch(s, i);
    }
  }

  /** A run of stamp characters from `i` to `j` that stops at `j` ends there. */
  lemma {:induction false} StampRunEndExact(s: string, i: nat, j: nat)
    requires i <= j <= |s|
    requires forall k | i <= k < j :: StampChar(s[k])
    requires j < |s| ==> !StampChar(s[j])
    ensures StampRunEnd(s, i) == j
    decreases j - i
  {
    if i < j {
      StampRunEndExact(s, i + 1, j);
    }
  }

  /** A run of stamp characters from `i` to `j` preceded by a non-stamp
      character starts at `i`. */
  lemma {:induction false} StampRunStartExact(s: string, i: nat, j: nat)
    requires i <= j <= |s|
    requires forall k | i <= k < j :: StampChar(s[k])
    requires i > 0 ==> !StampChar(s[i - 1])
    ensures StampRunStart(s, j) == i
    decreases j - i
  {
    if i < j {
      StampRunStartExact(s, i, j - 1);
    }
  }

  /** Whitespace from `i` to the end is one run. */
  lemma {:induction false} SpaceRunEndExact(s: string, i: nat)
    requires i <= |s|
    requires forall k | i <= k < |s| :: IsSpace(s[k])
    ensures SpaceRunEnd(s, i) == |s|
    decreases |s| - i
  {
    if i < |s| {
      SpaceRunEndExact(s, i + 1);
    }
  }

  /** A run of whitespace from `i` to `j` preceded by something else
      starts at `i`. */
  lemma {:induction false} SpaceRunStartExact(s: string, i: nat, j: nat)
    requires i <= j <= |s|
    requires forall k | i <= k < j :: IsSpace(s[k])
    requires i > 0 ==> !IsSpace(s[i - 1])
    ensures SpaceRunStart(s, j) == i
    decreases j - i
  {
    if i < j {
      SpaceRunStartExact(s, i, j - 1);
    }
  }

  /** `rstrip` stops after the last character that is not whitespace. */
  lemma {:induction false} TrimEndAt(s: string, j: nat)
    requires 0 < j <= |s| && !IsSpace(s[j - 1])
    requires forall k | j <= k < |s| :: IsSpace(s[k])
    ensures |TrimEnd(s)| == j
  {
    SpaceRunStartExact(s, j, |s|);
  }

  /** A position that satisfies `p`, with none before it, is what
      `FirstFrom` finds. */
  lemma {:induction false} FirstFromAt(p: nat -> bool, i: nat, n: nat, j: nat)
    requires i <= j < n && p(j)
    requires forall k | i <= k < j :: !p(k)
    ensures FirstFrom(p, i, n) == Some(j)
    decreases j - i
  {
    if i < j {
      FirstFromAt(p, i + 1, n, j);
    }
  }

  /** The usual OverDrive file title: the track number is guessed as 3. */
  lemma {:induction false} MyBookPartNumber()
    ensures PartNumber("My Book - Part 3") == Some(3)
  {
    var t := "My Book - Part 3";
    assert SpaceRunEnd(t, 9) == 10 by {
      assert SpaceRunEnd(t, 10) == 10;
    }
    assert SpaceRunEnd(t, 14) == 15 by {
      assert SpaceRunEnd(t, 15) == 15;
    }
    assert DigitRunEnd(t, 15) == 16;
    assert PartWordAt(t, 10);
    assert PartGroupAt(t, 8) == Some((15, 16));
    forall k | 0 <= k < 8 ensures !PartMatches(t)(k) {
      assert t[k] != '-';
    }
    assert PartMatches(t)(8);
    FirstFromAt(PartMatches(t), 0, |t|, 8);
    assert t[15..16] == "3";
    assert DigitsValue("3") == 3;
  }

  /** The same title with the part cut off is "My Book". */
  lemma {:induction false} MyBookStripPart()
    ensures StripPart("My Book - Part 3") == "My Book"
  {
    var t := "My Book - Part 3";
    MyBookSuffixAt7();
    MyBookNoEarlierSuffix();
    FirstFromAt(PartSuffixMatches(t), 0, |t|, 7);
    assert t[..7] == "My Book";
  }

  /** " - Part 3" matches the suffix pattern. */
  lemma {:induction false} MyBookSuffixAt7()
    ensures PartSuffixMatches("My Book - Part 3")(7)
  {
    var t := "My Book - Part 3";
    assert SpaceRunEnd(t, 7) == 8 by {
      assert SpaceRunEnd(t, 8) == 8;
    }
    assert SpaceRunEnd(t, 9) == 10 by {
      assert SpaceRunEnd(t, 10) == 10;
    }
    assert SpaceRunEnd(t, 14) == 15 by {
      assert SpaceRunEnd(t, 15) == 15;
    }
    assert DigitRunEnd(t, 15) == 16;
    assert SpaceRunEnd(t, 16) == 16;
    assert PartWordAt(t, 10);
  }

  /** No position of "My Book" starts the suffix pattern. */
  lemma {:induction false} MyBookNoEarlierSuffix()
    ensures forall k | 0 <= k < 7 :: !PartSuffixMatches("My Book - Part 3")(k)
  {
    var t := "My Book - Part 3";
    forall k | 0 <= k < 7 ensures !PartSuffixMatches(t)(k) {
      if k == 2 {
        assert SpaceRunEnd(t, 2) == 3 by {
          assert SpaceRunEnd(t, 3) == 3;
        }
        assert !PartWordAt(t, 3);
      } else {
        assert SpaceRunEnd(t, k) == k;
        assert !PartWordAt(t, k);
      }
    }
  }
}
