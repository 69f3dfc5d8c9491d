/** The trailing year marker of a title and the title left once it is cut
    off: the patterns `\((..../[IVX]+)\)$` and `\((....)\)$` of
    `extract_title_year`, with `.` read as any character but a line feed. */
module TitleYears {
  import opened Text

  predicate IsRomanDigit(c: char) {
    c == 'I' || c == 'V' || c == 'X'
  }

  /** What the regex `.` matches. */
  predicate AnyChar(c: char) {
    c != '\n'
  }

  /** `..../[IVX]+`: four characters, a slash and a roman-numeral code. */
  predicate IsCodedYear(y: string) {
    |y| >= 6 && (forall i :: 0 <= i < 4 ==> AnyChar(y[i])) && y[4] == '/' &&
    forall i :: 5 <= i < |y| ==> IsRomanDigit(y[i])
  }

  /** `....`: any four characters. */
  predicate IsPlainYear(y: string) {
    |y| == 4 && forall i :: 0 <= i < 4 ==> AnyChar(y[i])
  }

  /** `s` ends with `(y)`. */
  predicate EndsWithMarker(s: string, y: string) {
    |y| + 2 <= |s| && s[|s| - |y| - 2..] == "(" + y + ")"
  }

  /** The last index at or before `j` whose character is no roman digit, or -1. */
  function LastNonRoman(s: string, j: int): (r: int)
    requires -1 <= j < |s|
    decreases j + 1
    ensures -1 <= r <= j
    ensures r >= 0 ==> !IsRomanDigit(s[r])
    ensures forall i :: r < i <= j ==> IsRomanDigit(s[i])
  {
    if j < 0 || !IsRomanDigit(s[j]) then j else LastNonRoman(s, j - 1)
  }

  /** The capture of `\((..../[IVX]+)\)$`, found by walking back over the code. */
  function CodedYearMatch(s: string): (r: Option<string>)
    ensures r.Some? ==> IsCodedYear(r.value) && EndsWithMarker(s, r.value)
  {
    if |s| < 8 || s[|s| - 1] != ')' then None
    else
      var slash := LastNonRoman(s, |s| - 2);
      if 5 <= slash < |s| - 2 && s[slash] == '/' && s[slash - 5] == '(' &&
         forall i :: slash - 4 <= i < slash ==> AnyChar(s[i])
      then
        var y := s[slash - 4..|s| - 1];
        assert s[|s| - |y| - 2..] == "(" + y + ")";
        Some(y)
      else None
  }

  /** Where the characters of a trailing `(y)` sit in `s`. */
  lemma MarkerChars(s: string, y: string)
    requires EndsWithMarker(s, y)
    ensures s[|s| - |y| - 2] == '(' && s[|s| - 1] == ')'
    ensures forall i :: 0 <= i < |y| ==> s[|s| - |y| - 1 + i] == y[i]
  {
    var m := s[|s| - |y| - 2..];
    assert s[|s| - |y| - 2] == m[0] && s[|s| - 1] == m[|y| + 1];
    forall i | 0 <= i < |y| ensures s[|s| - |y| - 1 + i] == y[i] {
      assert s[|s| - |y| - 1 + i] == m[i + 1];
    }
  }

  /** The coded pattern matches in one place only, so `CodedYearMatch` finds
      every coded marker a title ends with. */
  lemma CodedYearMatchComplete(s: string, y: string)
    requires IsCodedYear(y) && EndsWithMarker(s, y)
    ensures CodedYearMatch(s) == Some(y)
  {
    MarkerChars(s, y);
    var start := |s| - |y| - 1;
    var q := start + 4;
    assert s[q] == y[4];
    assert forall i :: q < i <= |s| - 2 ==> IsRomanDigit(s[i]) by {
      forall i | q < i <= |s| - 2 ensures IsRomanDigit(s[i]) {
        assert s[start + (i - start)] == y[i - start];
      }
    }
    assert LastNonRoman(s, |s| - 2) == q;
    assert forall i :: q - 4 <= i < q ==> AnyChar(s[i]) by {
      forall i | q - 4 <= i < q ensures AnyChar(s[i]) {
        assert s[start + (i - start)] == y[i - start];
      }
    }
    assert s[q - 4..|s| - 1] == y;
  }

  /** The capture of `\((....)\)$`. */
  function PlainYearMatch(s: string): (r: Option<string>)
    ensures r.Some? ==> IsPlainYear(r.value) && EndsWithMarker(s, r.value)
  {
    if |s| >= 6 && s[|s| - 6] == '(' && s[|s| - 1] == ')' && IsPlainYear(s[|s| - 5..|s| - 1]) then
      assert s[|s| - 6..] == "(" + s[|s| - 5..|s| - 1] + ")";
      Some(s[|s| - 5..|s| - 1])
    else None
  }

  /** The plain pattern looks only at the last six characters, so
      `PlainYearMatch` finds every plain marker a title ends with. */
  lemma PlainYearMatchComplete(s: string, y: string)
    requires IsPlainYear(y) && EndsWithMarker(s, y)
    ensures PlainYearMatch(s) == Some(y)
  {
    MarkerChars(s, y);
    assert s[|s| - 5..|s| - 1] == y;
  }

  /** No coded marker can end a title whose next-to-last character is no
      roman digit. */
  lemma NoCodedMatch(s: string)
    requires |s| >= 2 && !IsRomanDigit(s[|s| - 2])
    ensures CodedYearMatch(s) == None
  {
  }

  /** The title year `extract_title_year` records: the coded capture when
      there is one, else the plain capture, else nothing. */
  function TitleYearOf(s: string): (y: string)
    ensures y == "" || (EndsWithMarker(s, y) && (IsCodedYear(y) || IsPlainYear(y)))
  {
    match CodedYearMatch(s)
    case Some(y) => y
    case None =>
      match PlainYearMatch(s)
      case Some(y) => y
      case None => ""
  }

  /** The slice at movies.rs:99 stays within bounds: at least three
      characters are left besides the title year. */
  predicate TitleTrimOk(s: string) {
    |TitleYearOf(s)| + 3 <= |s|
  }

  /** The string `extract_title_year` returns: `s` minus the title year and
      three more characters, the space and the parentheses around it. */
  function TitleBefore(s: string): (t: string)
    requires TitleTrimOk(s)
    ensures |t| + |TitleYearOf(s)| + 3 == |s| && t == s[..|t|]
  {
    s[..|s| - |TitleYearOf(s)| - 3]
  }

  /** A coded marker wins whether or not the plain pattern matches too, and
      cutting it off gives back the title in front of ` (year/code)`. */
  lemma CodedMarkerTitle(t: string, y: string)
    requires IsCodedYear(y)
    ensures var s := t + " (" + y + ")";
            TitleYearOf(s) == y && TitleTrimOk(s) && TitleBefore(s) == t
  {
    var s := t + " (" + y + ")";
    assert s[|s| - |y| - 2..] == "(" + y + ")";
    CodedYearMatchComplete(s, y);
    assert s[..|t|] == t;
  }

  /** A plain marker is the title year whenever no coded marker ends the
      title as well, and cutting it off gives back the title in front of
      ` (year)`. */
  lemma PlainMarkerTitle(t: string, y: string)
    requires IsPlainYear(y)
    requires forall c :: IsCodedYear(c) ==> !EndsWithMarker(t + " (" + y + ")", c)
    ensures var s := t + " (" + y + ")";
            TitleYearOf(s) == y && TitleTrimOk(s) && TitleBefore(s) == t
  {
    var s := t + " (" + y + ")";
    assert CodedYearMatch(s).None?;
    assert s[|s| - |y| - 2..] == "(" + y + ")";
    PlainYearMatchComplete(s, y);
    assert s[..|t|] == t;
  }

  /** A title ending in a coded marker has a roman digit just before its
      closing parenthesis. */
  lemma CodedMarkerEndsRoman(s: string)
    ensures forall c :: IsCodedYear(c) && EndsWithMarker(s, c) ==> IsRomanDigit(s[|s| - 2])
  {
    forall c | IsCodedYear(c) && EndsWithMarker(s, c) ensures IsRomanDigit(s[|s| - 2]) {
      MarkerChars(s, c);
      assert s[|s| - 2] == s[|s| - |c| - 1 + (|c| - 1)];
    }
  }

  /** So no coded marker ends `t (y)` when the plain year `y` ends in no
      roman digit. */
  lemma RomanFreePlainNoCode(t: string, y: string)
    requires IsPlainYear(y) && !IsRomanDigit(y[3])
    ensures forall c :: IsCodedYear(c) ==> !EndsWithMarker(t + " (" + y + ")", c)
  {
    var s := t + " (" + y + ")";
    CodedMarkerEndsRoman(s);
    assert s[|s| - 2] == y[3];
  }

  /** The plain year of `t (y)` is read back whatever `t` is when `y` does
      not end in a roman digit. */
  lemma RomanFreePlainTitle(t: string, y: string)
    requires IsPlainYear(y) && !IsRomanDigit(y[3])
    ensures var s := t + " (" + y + ")";
            TitleYearOf(s) == y && TitleTrimOk(s) && TitleBefore(s) == t
  {
    RomanFreePlainNoCode(t, y);
    PlainMarkerTitle(t, y);
  }

  /** With no marker at the end the title year is empty and still three
      characters are cut off the title. */
  lemma NoMarkerTitle(s: string)
    requires forall y :: IsPlainYear(y) ==> !EndsWithMarker(s, y)
    requires forall y :: IsCodedYear(y) ==> !EndsWithMarker(s, y)
    requires |s| >= 3
    ensures TitleYearOf(s) == "" && TitleTrimOk(s) && TitleBefore(s) == s[..|s| - 3]
  {
  }
}
