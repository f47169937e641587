/** `is_heading` of app/core/pdf_outline_extractor.py: the text and layout rules that decide
    whether one line of a page is a heading, and of which level.

    The three regular expressions are matched by small scanners. Each scanner comes with a
    declarative description of the strings the expression accepts, and with lemmas showing
    that the two agree. Font sizes and y coordinates are exact `real`s. */
module Heading {
  import opened Wrappers
  import opened Text

  datatype Level = H1 | H2 | H3

  const MinLength := 3
  const MaxLength := 200

  /** Lines that are never headings, compared after lower-casing. */
  const Boilerplate: seq<string> := ["page", "copyright", "\U{A9}"]

  /** End of the maximal run of characters satisfying `p` that starts at `i`. */
  function RunEnd<T>(s: seq<T>, i: nat, p: T -> bool): (j: nat)
    requires i <= |s|
    ensures i <= j <= |s|
    ensures forall k :: i <= k < j ==> p(s[k])
    ensures j == |s| || !p(s[j])
    decreases |s| - i
  {
    if i < |s| && p(s[i]) then RunEnd(s, i + 1, p) else i
  }

  /** A run that is known to end at `j` is found to end there. */
  lemma {:induction false} RunEndAt<T>(s: seq<T>, i: nat, j: nat, p: T -> bool)
    requires i <= j <= |s|
    requires forall k :: i <= k < j ==> p(s[k])
    requires j == |s| || !p(s[j])
    ensures RunEnd(s, i, p) == j
    decreases j - i
  {
    if i < j {
      RunEndAt(s, i + 1, j, p);
    }
  }

  function SpaceEnd(s: string, i: nat): (j: nat)
    requires i <= |s|
    ensures i <= j <= |s|
    ensures forall k :: i <= k < j ==> IsSpace(s[k])
    ensures j == |s| || !IsSpace(s[j])
  {
    RunEnd(s, i, IsSpace)
  }

  /** `\s*[A-Z]` at position `i`. */
  predicate SpacesThenCapitalAt(s: string, i: nat)
    requires i <= |s|
  {
    var m := SpaceEnd(s, i);
    m < |s| && IsUpper(s[m])
  }

  /** The declarative reading of `\s*[A-Z]`: spaces on `[k, m)` and a capital at `m`. */
  predicate SpacesThenCapital(s: string, k: nat, m: nat) {
    k <= m < |s| && (forall t :: k <= t < m ==> IsSpace(s[t])) && IsUpper(s[m])
  }

  lemma SpacesThenCapitalMatch(s: string, k: nat, m: nat)
    requires SpacesThenCapital(s, k, m)
    ensures SpacesThenCapitalAt(s, k)
  {
    RunEndAt(s, k, m, IsSpace);
  }

  // ---------------------------------------------------------------------------------
  // `^(\d+\.)+\s*[A-Z]`

  /** End of the greedy `(\d+\.)*` run starting at `i`. Backtracking cannot help this
      expression: giving back a group or a digit leaves a digit where a dot, a space or a
      capital is needed. */
  function GroupsEnd(s: string, i: nat): (j: nat)
    requires i <= |s|
    ensures i <= j <= |s|
    decreases |s| - i
  {
    var d := RunEnd(s, i, IsDigit);
    if d > i && d < |s| && s[d] == '.' then GroupsEnd(s, d + 1) else i
  }

  predicate MatchNumbered(s: string) {
    var g := GroupsEnd(s, 0);
    0 < g && SpacesThenCapitalAt(s, g)
  }

  /** `s[i..k]` is one or more `\d+\.` groups: digits and dots only, starting with a digit,
      ending with a dot, and every dot preceded by a digit. */
  predicate Groups(s: string, i: nat, k: nat) {
    && i < k <= |s|
    && IsDigit(s[i])
    && s[k - 1] == '.'
    && (forall t :: i <= t < k ==> IsDigit(s[t]) || s[t] == '.')
    && (forall t :: i < t < k && s[t] == '.' ==> IsDigit(s[t - 1]))
  }

  /** The strings `^(\d+\.)+\s*[A-Z]` accepts, with the groups ending at `k` and the capital
      at `m`. */
  predicate NumberedAt(s: string, k: nat, m: nat) {
    Groups(s, 0, k) && SpacesThenCapital(s, k, m)
  }

  lemma {:induction false} GroupsEndShape(s: string, i: nat)
    requires i <= |s|
    ensures GroupsEnd(s, i) > i ==> Groups(s, i, GroupsEnd(s, i))
    decreases |s| - i
  {
    var d := RunEnd(s, i, IsDigit);
    if d > i && d < |s| && s[d] == '.' {
      GroupsEndShape(s, d + 1);
      var g := GroupsEnd(s, d + 1);
      if g > d + 1 {
        assert IsDigit(s[d + 1]);
      }
    }
  }

  lemma {:induction false} GroupsEndAt(s: string, i: nat, k: nat)
    requires Groups(s, i, k)
    requires k == |s| || !IsDigit(s[k])
    ensures GroupsEnd(s, i) == k
    decreases k - i
  {
    var d := RunEnd(s, i, IsDigit);
    assert d < k by {
      assert !IsDigit(s[k - 1]);
    }
    assert s[d] == '.';
    if d + 1 == k {
      RunEndAt(s, k, k, IsDigit);
    } else {
      assert IsDigit(s[d + 1]) by {
        assert !IsDigit(s[(d + 1) - 1]);
      }
      GroupsEndAt(s, d + 1, k);
    }
  }

  /** The scanner only accepts strings of the declared shape... */
  lemma MatchNumberedSound(s: string) returns (k: nat, m: nat)
    requires MatchNumbered(s)
    ensures NumberedAt(s, k, m)
  {
    k := GroupsEnd(s, 0);
    GroupsEndShape(s, 0);
    m := SpaceEnd(s, k);
  }

  /** ...and accepts every one of them. */
  lemma MatchNumberedComplete(s: string, k: nat, m: nat)
    requires NumberedAt(s, k, m)
    ensures MatchNumbered(s)
  {
    GroupsEndAt(s, 0, k);
    SpacesThenCapitalMatch(s, k, m);
  }

  // ---------------------------------------------------------------------------------
  // `^[IVX]+\.\s*[A-Z]` and `^[A-Z]\.\s*[A-Z]`

  predicate IsRoman(c: char) { c == 'I' || c == 'V' || c == 'X' }

  predicate MatchRoman(s: string) {
    var r := RunEnd(s, 0, IsRoman);
    0 < r < |s| && s[r] == '.' && SpacesThenCapitalAt(s, r + 1)
  }

  /** The strings `^[IVX]+\.\s*[A-Z]` accepts: numeral letters on `[0, r)`, a dot at `r`. */
  predicate RomanAt(s: string, r: nat, m: nat) {
    && 0 < r < |s|
    && (forall t :: 0 <= t < r ==> IsRoman(s[t]))
    && s[r] == '.'
    && SpacesThenCapital(s, r + 1, m)
  }

  lemma MatchRomanSound(s: string) returns (r: nat, m: nat)
    requires MatchRoman(s)
    ensures RomanAt(s, r, m)
  {
    r := RunEnd(s, 0, IsRoman);
    m := SpaceEnd(s, r + 1);
  }

  lemma MatchRomanComplete(s: string, r: nat, m: nat)
    requires RomanAt(s, r, m)
    ensures MatchRoman(s)
  {
    RunEndAt(s, 0, r, IsRoman);
    SpacesThenCapitalMatch(s, r + 1, m);
  }

  predicate MatchLetter(s: string) {
    |s| >= 2 && IsUpper(s[0]) && s[1] == '.' && SpacesThenCapitalAt(s, 2)
  }

  /** A single numeral letter followed by a dot matches the roman rule as well, so "I. Scope"
      is H1 and never reaches the single-capital rule. */
  lemma NumeralLetterIsRoman(s: string)
    requires MatchLetter(s) && IsRoman(s[0])
    ensures MatchRoman(s)
  {
    RunEndAt(s, 0, 1, IsRoman);
  }

  // ---------------------------------------------------------------------------------
  // The classifier.

  /** Level from the number of dots on the whole line. */
  function DotsLevel(dots: nat): Level {
    if dots == 1 then H1 else if dots == 2 then H2 else H3
  }

  /** Level of a line whose font is above 1.1 times the average. */
  function FontLevel(fontSize: real, avgFontSize: real): Level {
    if fontSize > avgFontSize * 1.4 then H1
    else if fontSize > avgFontSize * 1.2 then H2
    else H3
  }

  /** The rules checked before any layout cue: length, digits only, boilerplate. */
  predicate Rejected(t: string) {
    |t| < MinLength || |t| > MaxLength || IsDigits(t) || Lower(t) in Boilerplate
  }

  /** The previous line's y is used only when it is truthy: present and non-zero. */
  predicate FarBelow(lineY: real, prevLineY: Option<real>) {
    prevLineY.Some? && prevLineY.value != 0.0 && prevLineY.value - lineY > 20.0
  }

  function IsHeading(text: string, fontSize: real, avgFontSize: real, lineY: real, prevLineY: Option<real>): (r: Option<Level>)
    ensures r.Some? ==> !Rejected(Strip(text))
    ensures r.Some? ==> MinLength <= |Strip(text)| <= MaxLength
    ensures Rejected(Strip(text)) ==> r.None?
    ensures r.Some? && fontSize <= avgFontSize * 1.1 && !FarBelow(lineY, prevLineY) ==>
      MatchNumbered(Strip(text)) || MatchRoman(Strip(text)) || MatchLetter(Strip(text)) || IsUpperCase(Strip(text))
  {
    var t := Strip(text);
    if |t| < MinLength || |t| > MaxLength then None
    else if IsDigits(t) || Lower(t) in Boilerplate then None
    else if MatchNumbered(t) then Some(DotsLevel(Count(t, '.')))
    else if MatchRoman(t) then Some(H1)
    else if MatchLetter(t) then Some(H2)
    else if fontSize > avgFontSize * 1.1 then Some(FontLevel(fontSize, avgFontSize))
    else if IsUpperCase(t) && |t| > 5 then Some(H2)
    else if IsTitleCase(t) && |t| > 10 && FarBelow(lineY, prevLineY) then Some(H3)
    else None
  }

  // ---------------------------------------------------------------------------------
  // Properties.

  /** Surrounding whitespace never changes the verdict. */
  lemma HeadingIgnoresSurroundingSpace(text: string, fontSize: real, avgFontSize: real, lineY: real, prevLineY: Option<real>)
    ensures IsHeading(text, fontSize, avgFontSize, lineY, prevLineY)
         == IsHeading(Strip(text), fontSize, avgFontSize, lineY, prevLineY)
  {
    StripStripped(Strip(text));
  }

  /** A numbered line is classified by its dots alone, whatever its font or position. */
  lemma NumberedIgnoresLayout(text: string, k: nat, m: nat, fontSize: real, avgFontSize: real, lineY: real, prevLineY: Option<real>)
    requires NumberedAt(Strip(text), k, m)
    requires MinLength <= |Strip(text)| <= MaxLength
    ensures IsHeading(text, fontSize, avgFontSize, lineY, prevLineY) == Some(DotsLevel(Count(Strip(text), '.')))
  {
    var t := Strip(text);
    MatchNumberedComplete(t, k, m);
    assert !IsDigit(t[m]);
    assert Lower(t)[0] == t[0];
    assert Lower(t) !in Boilerplate by {
      assert IsDigit(Lower(t)[0]);
    }
  }

  /** The level counts every dot on the line, not only those of the numbering: "1. Version
      2.0" has one numbering group but is H2. */
  lemma DotsCountWholeLine()
    ensures IsHeading(VersionLine, 12.0, 12.0, 0.0, None) == Some(H2)
  {
    VersionLineShape();
    VersionLineDots();
    NumberedIgnoresLayout(VersionLine, 2, 3, 12.0, 12.0, 0.0, None);
  }

  const VersionLine := "1. Version 2.0"

  lemma VersionLineShape()
    ensures Strip(VersionLine) == VersionLine
    ensures NumberedAt(VersionLine, 2, 3)
  {
    StripStripped(VersionLine);
  }

  lemma VersionLineDots()
    ensures Count(VersionLine, '.') == 2
  {
    assert multiset(VersionLine) == multiset{'1', '.', ' ', 'V', 'e', 'r', 's', 'i', 'o', 'n', ' ', '2', '.', '0'};
  }

  /** A bigger font never lowers the level the font rule gives. */
  lemma FontLevelMonotone(f1: real, f2: real, avg: real)
    requires f1 <= f2
    ensures FontLevel(f1, avg) == H1 ==> FontLevel(f2, avg) == H1
    ensures FontLevel(f1, avg) == H2 ==> FontLevel(f2, avg) != H3
  {
  }

  /** The rules are not monotone in the font size as a whole: an all-capitals line is H2 at
      the average size but H3 at 1.15 times it, because the font rule comes first. */
  lemma CapitalsDemotedByFont(text: string, avg: real, lineY: real, prevLineY: Option<real>)
    requires avg > 0.0
    requires !Rejected(Strip(text))
    requires !MatchNumbered(Strip(text)) && !MatchRoman(Strip(text)) && !MatchLetter(Strip(text))
    requires IsUpperCase(Strip(text)) && |Strip(text)| > 5
    ensures IsHeading(text, avg, avg, lineY, prevLineY) == Some(H2)
    ensures IsHeading(text, avg * 1.15, avg, lineY, prevLineY) == Some(H3)
  {
  }

  /** A previous line at y = 0 is falsy and counts as no previous line at all. */
  lemma ZeroPreviousIsNoPrevious(text: string, fontSize: real, avgFontSize: real, lineY: real)
    ensures IsHeading(text, fontSize, avgFontSize, lineY, Some(0.0)) == IsHeading(text, fontSize, avgFontSize, lineY, None)
  {
  }

  /** A title-case line at ordinary size that no other rule claims is H3 exactly when it
      sits more than 20 units below a truthy previous line. */
  lemma TitleNeedsGap(text: string, fontSize: real, avgFontSize: real, lineY: real, prevLineY: Option<real>)
    requires !Rejected(Strip(text))
    requires !MatchNumbered(Strip(text)) && !MatchRoman(Strip(text)) && !MatchLetter(Strip(text))
    requires fontSize <= avgFontSize * 1.1 && !IsUpperCase(Strip(text))
    requires IsTitleCase(Strip(text)) && |Strip(text)| > 10
    ensures IsHeading(text, fontSize, avgFontSize, lineY, prevLineY) == Some(H3) <==> FarBelow(lineY, prevLineY)
    ensures IsHeading(text, fontSize, avgFontSize, lineY, prevLineY) != Some(H3) ==> IsHeading(text, fontSize, avgFontSize, lineY, prevLineY).None?
  {
  }
}
