/** One catalogue line turned into a movie record: split the line into full
    title and year field, expand the year field, peel off the episode
    suffix, cut off the title year, and ask the registry for the id of the
    full title. */
module Movies {
  import opened Text
  import opened YearRange
  import opened Episodes
  import opened TitleYears
  import IdRegistry

  /** The fields of a movie, as a value: what `parse_line` hands back as a clone. */
  datatype MovieRecord = MovieRecord(
    id: int,
    fullTitle: string,
    fullYear: string,
    title: string,
    titleYear: string,
    titleCategory: string,
    years: seq<int>,
    yearOpenEnd: bool,
    isEpisode: bool,
    episodeName: string,
    episodeSeason: string,
    episodeEpisode: string,
    episodeParentTitle: string,
    suspended: bool)

  /** The field values `Movie::new` starts from. */
  const Defaults: MovieRecord :=
    MovieRecord(-1, "", "", "", "", "", [], false, false, "", "", "", "", false)

  /** The first tab-separated field of a line; the empty line has none. */
  function FullTitleOf(line: string): string
    requires line != []
  {
    SplitTabs(line)[0]
  }

  /** The second tab-separated field of a line. */
  function FullYearOf(line: string): string
    requires |SplitTabs(line)| >= 2
  {
    SplitTabs(line)[1]
  }

  /** `extract_year` on a record: the years of its year field, and the open
      end raised (never lowered) when the field is `YYYY-????`. */
  function WithYears(m: MovieRecord, currentYear: int): MovieRecord {
    m.(years := Years(m.fullYear, currentYear),
       yearOpenEnd := m.yearOpenEnd || Classify(m.fullYear).OpenRange?)
  }

  /** The fields `extract_episode` writes, by what it found in the full
      title: nothing for a title without braces; otherwise the episode flag
      and name, the season and episode numbers only when the marker value
      split in two, and the parent title unless no marker was found. */
  function WithEpisode(m: MovieRecord, e: Episode): MovieRecord {
    match e
    case NotEpisode => m
    case Unnumbered(name, _) => m.(isEpisode := true, episodeName := name)
    case Numbered(name, season, episode, parent) =>
      m.(isEpisode := true, episodeName := name, episodeSeason := season,
         episodeEpisode := episode, episodeParentTitle := parent)
    case Unsplit(name, parent) =>
      m.(isEpisode := true, episodeName := name, episodeParentTitle := parent)
  }

  /** A line `parse_line` gets through without a panic: it has a second
      field, its episode and title-year slices stay within bounds, and an
      open range ends before `i32::MAX`. */
  predicate LineParses(line: string, currentYear: int) {
    |SplitTabs(line)| >= 2 &&
    var ft := FullTitleOf(line);
    EpisodeSlicesOk(ft) &&
    TitleTrimOk(Remaining(EpisodeOf(ft), ft)) &&
    (Classify(FullYearOf(line)).OpenRange? ==> currentYear < I32Max)
  }

  /** The record `parse_line` leaves behind, starting from `m`, when the
      registry answers `id` for the full title: the steps in the order
      `parse_line` takes them, the episode read off the untouched full title
      and the title year cut off what the episode step hands on. */
  function ParseSpec(m: MovieRecord, line: string, currentYear: int, id: int): MovieRecord
    requires LineParses(line, currentYear)
  {
    var ft := FullTitleOf(line);
    var m1 := m.(fullTitle := ft).(fullYear := FullYearOf(line));
    var m2 := WithEpisode(WithYears(m1, currentYear), EpisodeOf(ft));
    var rest := Remaining(EpisodeOf(ft), ft);
    m2.(titleYear := TitleYearOf(rest)).(title := TitleBefore(rest)).(id := id)
  }

  /** A line made of a full title, a run of tabs and a year field gives
      both fields back, however many tabs separate them. */
  lemma LineFields(ft: string, n: nat, fy: string)
    requires '\t' !in ft && '\t' !in fy && fy != [] && n >= 1
    ensures var line := ft + Tabs(n) + fy;
            |SplitTabs(line)| >= 2 && FullTitleOf(line) == ft && FullYearOf(line) == fy
  {
    FieldsAroundTabRun(ft, n, fy, []);
    assert ft + Tabs(n) + fy + [] == ft + Tabs(n) + fy;
  }

  /** A line whose tabs end it has no second field, so `parts[1]` at
      movies.rs:73 panics: the line does not parse. */
  lemma TrailingTabsNoYearField(ft: string, n: nat, currentYear: int)
    requires '\t' !in ft && n >= 1
    ensures !LineParses(ft + Tabs(n), currentYear)
  {
    TrailingTabsOneField(ft, n);
  }

  /** A title year `extract_title_year` reads back off `t (y)`: a coded
      year, or a plain one when no coded marker ends `t (y)` as well. */
  ghost predicate RecognisedYear(t: string, y: string) {
    IsCodedYear(y) ||
    (IsPlainYear(y) && forall c :: IsCodedYear(c) ==> !EndsWithMarker(t + " (" + y + ")", c))
  }

  /** `title (year)`: the title year comes back and the title is cut out. */
  lemma MarkedTitle(t: string, y: string)
    requires RecognisedYear(t, y)
    ensures var s := t + " (" + y + ")";
            TitleYearOf(s) == y && TitleTrimOk(s) && TitleBefore(s) == t
  {
    if IsCodedYear(y) {
      CodedMarkerTitle(t, y);
    } else {
      PlainMarkerTitle(t, y);
    }
  }

  /** An episode line, `title (year) {name (#season.episode)}`, a run of
      tabs and a year field, parses back into the parts it was made of;
      the fields `parse_line` does not write keep their values. */
  lemma EpisodeLineParts(m: MovieRecord, title: string, titleYear: string, name: string,
                         season: string, episode: string, n: nat, fy: string,
                         currentYear: int, id: int)
    requires RecognisedYear(title, titleYear)
    requires var content := NumberedContent(name, season, episode);
             !Contains(content, EpisodeDelimiter) &&
             '\t' !in EpisodeTitle(title + " (" + titleYear + ")", content)
    requires '.' !in season && '.' !in episode && !Contains(season + "." + episode, SpacedMarker)
    requires '\t' !in fy && fy != [] && n >= 1
    requires Classify(fy).OpenRange? ==> currentYear < I32Max
    ensures var parent := title + " (" + titleYear + ")";
            var ft := EpisodeTitle(parent, NumberedContent(name, season, episode));
            var line := ft + Tabs(n) + fy;
            LineParses(line, currentYear) &&
            var r := ParseSpec(m, line, currentYear, id);
            r.fullTitle == ft && r.fullYear == fy && r.years == Years(fy, currentYear) &&
            r.isEpisode && r.episodeName == name && r.episodeSeason == season &&
            r.episodeEpisode == episode && r.episodeParentTitle == parent &&
            r.title == title && r.titleYear == titleYear && r.id == id &&
            r.yearOpenEnd == (m.yearOpenEnd || Classify(fy).OpenRange?) &&
            r.titleCategory == m.titleCategory && r.suspended == m.suspended
  {
    var parent := title + " (" + titleYear + ")";
    var ft := EpisodeTitle(parent, NumberedContent(name, season, episode));
    var line := ft + Tabs(n) + fy;
    LineFields(ft, n, fy);
    assert parent[|parent| - 1] == ')';
    NumberedRoundTrip(parent, name, season, episode);
    MarkedTitle(title, titleYear);
    var e := Numbered(name, season, episode, parent);
    assert FullTitleOf(line) == ft && EpisodeOf(ft) == e && Remaining(e, ft) == parent;
    var m1 := WithYears(m.(fullTitle := ft).(fullYear := fy), currentYear);
    assert ParseSpec(m, line, currentYear, id)
        == WithEpisode(m1, e).(titleYear := titleYear).(title := title).(id := id);
  }

  /** A line whose full title `title (year)` has no episode braces: the
      episode fields keep their values and the title year is cut off. */
  lemma PlainLineParts(m: MovieRecord, title: string, titleYear: string, n: nat, fy: string,
                       currentYear: int, id: int)
    requires RecognisedYear(title, titleYear)
    requires var ft := title + " (" + titleYear + ")";
             !Contains(ft, EpisodeDelimiter) && '\t' !in ft
    requires '\t' !in fy && fy != [] && n >= 1
    requires Classify(fy).OpenRange? ==> currentYear < I32Max
    ensures var ft := title + " (" + titleYear + ")";
            var line := ft + Tabs(n) + fy;
            LineParses(line, currentYear) &&
            var r := ParseSpec(m, line, currentYear, id);
            r.fullTitle == ft && r.fullYear == fy && r.years == Years(fy, currentYear) &&
            r.isEpisode == m.isEpisode && r.episodeName == m.episodeName &&
            r.episodeSeason == m.episodeSeason && r.episodeEpisode == m.episodeEpisode &&
            r.episodeParentTitle == m.episodeParentTitle &&
            r.title == title && r.titleYear == titleYear && r.id == id &&
            r.yearOpenEnd == (m.yearOpenEnd || Classify(fy).OpenRange?) &&
            r.titleCategory == m.titleCategory && r.suspended == m.suspended
  {
    var ft := title + " (" + titleYear + ")";
    LineFields(ft, n, fy);
    NoDelimiterNoEpisode(ft);
    MarkedTitle(title, titleYear);
  }

  /** The title and title year of the unit tests' episode line. */
  const SampleShow: string := "\"1st Amendment Stand Up\""
  const SampleShowYear: string := "2005"

  /** The full title of the unit tests' episode line,
      `"1st Amendment Stand Up" (2005) {E. Griff/Ralphie May (#1.3)}`. */
  function SampleFullTitle(): string {
    EpisodeTitle(SampleShow + " (" + SampleShowYear + ")", NumberedContent("E. Griff/Ralphie May", "1", "3"))
  }

  /** Proof helper for the sample lemmas: the parent title spelled out. */
  lemma SampleParentText()
    ensures SampleShow + " (" + SampleShowYear + ")" == "\"1st Amendment Stand Up\" (2005)"
  {
  }

  /** Proof helper for the sample lemmas: the brace content spelled out. */
  lemma SampleContentText()
    ensures NumberedContent("E. Griff/Ralphie May", "1", "3") == "E. Griff/Ralphie May (#1.3)"
  {
  }

  /** Proof helper for the sample lemmas: the spelled-out parent title and
      content around `" {"` and `"}"`. */
  lemma SampleTitleText()
    ensures EpisodeTitle("\"1st Amendment Stand Up\" (2005)", "E. Griff/Ralphie May (#1.3)") == IdRegistry.SampleTitle
  {
    SampleOpenBrace();
    SampleTitleBody();
  }

  /** Proof helper for the sample lemmas: the parent title followed by the
      opening `" {"`. */
  lemma SampleOpenBrace()
    ensures "\"1st Amendment Stand Up\" (2005)" + " {" == "\"1st Amendment Stand Up\" (2005) {"
  {
  }

  /** Proof helper for the sample lemmas: the content after the opening brace. */
  lemma SampleTitleBody()
    ensures "\"1st Amendment Stand Up\" (2005) {" + "E. Griff/Ralphie May (#1.3)" == "\"1st Amendment Stand Up\" (2005) {E. Griff/Ralphie May (#1.3)"
  {
  }

  /** That full title is the one the registry's `generate` registers. */
  lemma SampleTitleRegistered()
    ensures SampleFullTitle() == IdRegistry.SampleTitle
  {
    SampleParentText();
    SampleContentText();
    SampleTitleText();
  }

  /** The full title of the unit tests' episode line holds no tab. */
  lemma SampleTitleTabFree()
    ensures '\t' !in SampleFullTitle()
  {
    SampleTitleRegistered();
  }

  /** The parts of the unit tests' episode line meet `EpisodeLineParts`'s
      requirements. */
  lemma SampleLineShape()
    ensures var content := NumberedContent("E. Griff/Ralphie May", "1", "3");
            !Contains(content, EpisodeDelimiter) && !Contains("1" + "." + "3", SpacedMarker) &&
            '\t' !in SampleFullTitle() && RecognisedYear(SampleShow, SampleShowYear) && Tabs(1) == "\t"
  {
    var content := NumberedContent("E. Griff/Ralphie May", "1", "3");
    SampleContentText();
    assert '{' !in content;
    MissingCharNotContained(content, EpisodeDelimiter, 2);
    MissingCharNotContained("1" + "." + "3", SpacedMarker, 0);
    SampleTitleTabFree();
    RomanFreePlainNoCode(SampleShow, SampleShowYear);
  }

  /** The year field `2005` is one closed year. */
  lemma SingleYearField(currentYear: int)
    ensures Years("2005", currentYear) == [2005] && !Classify("2005").OpenRange?
  {
    assert Classify("2005") == SingleYear(2005);
    assert Range(2005, 2005) == [2005];
  }

  /** A fresh registry already holds id 11 for the unit tests' episode line. */
  lemma SampleEpisodeId()
    ensures var line := SampleFullTitle() + "\t" + "2005";
            |SplitTabs(line)| >= 2 && IdRegistry.Assign(IdRegistry.Generated(), FullTitleOf(line)).1 == 11
  {
    SampleLineShape();
    LineFields(SampleFullTitle(), 1, "2005");
    SampleTitleRegistered();
  }

  /** The episode line of the unit tests, parsed by a fresh movie: name,
      season, episode and parent come apart and the title loses its year. */
  lemma SampleEpisodeLine(currentYear: int)
    ensures var line := SampleFullTitle() + "\t" + "2005";
            LineParses(line, currentYear) &&
            var r := ParseSpec(Defaults, line, currentYear, 11);
            r.id == 11 && r.fullTitle == SampleFullTitle() && r.fullYear == "2005" &&
            r.title == SampleShow && r.titleYear == SampleShowYear && r.titleCategory == "" &&
            r.years == [2005] && !r.yearOpenEnd &&
            r.isEpisode && r.episodeName == "E. Griff/Ralphie May" &&
            r.episodeSeason == "1" && r.episodeEpisode == "3" &&
            r.episodeParentTitle == SampleShow + " (" + SampleShowYear + ")" && !r.suspended
  {
    SampleLineShape();
    EpisodeLineParts(Defaults, SampleShow, SampleShowYear, "E. Griff/Ralphie May", "1", "3",
                     1, "2005", currentYear, 11);
    SingleYearField(currentYear);
  }

  /** The closed range `1994-1995` holds both years. */
  lemma ClosedRangeField(currentYear: int)
    ensures Years("1994-1995", currentYear) == [1994, 1995] && !Classify("1994-1995").OpenRange?
  {
    assert Classify("1994-1995") == ClosedRange(1994, 1995);
    assert Range(1994, 1995) == [1994, 1995];
  }

  /** The open range `2006-????` runs from 2006 to the current year. */
  lemma OpenRangeField(currentYear: int)
    ensures Years("2006-????", currentYear) == Range(2006, currentYear) && Classify("2006-????").OpenRange?
  {
    assert Classify("2006-????") == OpenRange(2006);
  }

  /** The plain title `title (year)` of a test line has no episode braces,
      and its year, which ends in no roman digit, is read back. */
  lemma PlainSampleShape(title: string, year: string)
    requires '{' !in title && '\t' !in title && '{' !in year && '\t' !in year
    requires IsPlainYear(year) && !IsRomanDigit(year[3])
    ensures var ft := title + " (" + year + ")";
            !Contains(ft, EpisodeDelimiter) && '\t' !in ft && RecognisedYear(title, year)
  {
    RomanFreePlainNoCode(title, year);
    var ft := title + " (" + year + ")";
    assert '{' !in ft;
    MissingCharNotContained(ft, EpisodeDelimiter, 2);
  }

  /** The closed-range line of the unit tests: no episode, title and title
      year cut apart, both years listed. */
  lemma SampleClosedRangeLine(currentYear: int, id: int)
    ensures var line := "\"!Next?\"" + " (" + "1994" + ")" + Tabs(5) + "1994-1995";
            LineParses(line, currentYear) &&
            var r := ParseSpec(Defaults, line, currentYear, id);
            r.fullTitle == "\"!Next?\"" + " (" + "1994" + ")" && r.fullYear == "1994-1995" &&
            r.title == "\"!Next?\"" && r.titleYear == "1994" &&
            r.years == [1994, 1995] && !r.yearOpenEnd &&
            !r.isEpisode && r.episodeParentTitle == "" && r.id == id
  {
    PlainSampleShape("\"!Next?\"", "1994");
    PlainLineParts(Defaults, "\"!Next?\"", "1994", 5, "1994-1995", currentYear, id);
    ClosedRangeField(currentYear);
  }

  /** The open-range line of the unit tests: the years run from 2006 to the
      current year, so there are more than nine of them from 2015 on, and
      the open end is recorded. */
  lemma SampleOpenRangeLine(currentYear: int, id: int)
    requires currentYear < I32Max
    ensures var line := "\"#1 Single\"" + " (" + "2006" + ")" + Tabs(5) + "2006-????";
            LineParses(line, currentYear) &&
            var r := ParseSpec(Defaults, line, currentYear, id);
            r.fullTitle == "\"#1 Single\"" + " (" + "2006" + ")" && r.fullYear == "2006-????" &&
            r.title == "\"#1 Single\"" && r.titleYear == "2006" &&
            r.years == Range(2006, currentYear) && r.yearOpenEnd &&
            (currentYear >= 2015 ==> |r.years| > 9 && r.years[0] == 2006 && r.years[9] == 2015) &&
            !r.isEpisode && r.episodeParentTitle == "" && r.id == id
  {
    PlainSampleShape("\"#1 Single\"", "2006");
    OpenRangeField(currentYear);
    PlainLineParts(Defaults, "\"#1 Single\"", "2006", 5, "2006-????", currentYear, id);
  }

  /** The struct `Movie`, whose `extract_*` steps write its fields in place. */
  class Movie {
    var id: int
    var fullTitle: string
    var fullYear: string
    var title: string
    var titleYear: string
    var titleCategory: string
    var years: seq<int>
    var yearOpenEnd: bool
    var isEpisode: bool
    var episodeName: string
    var episodeSeason: string
    var episodeEpisode: string
    var episodeParentTitle: string
    var suspended: bool

    function Value(): MovieRecord
      reads this
    {
      MovieRecord(id, fullTitle, fullYear, title, titleYear, titleCategory, years, yearOpenEnd,
                  isEpisode, episodeName, episodeSeason, episodeEpisode, episodeParentTitle, suspended)
    }

    /** The struct literal `Movie::new` starts from. */
    constructor Init()
      ensures Value() == Defaults
    {
      id, fullTitle, fullYear := -1, "", "";
      title, titleYear, titleCategory := "", "", "";
      years, yearOpenEnd := [], false;
      isEpisode := false;
      episodeName, episodeSeason, episodeEpisode := "", "", "";
      episodeParentTitle, suspended := "", false;
    }

    /** `Movie::new`: a fresh movie parsed from `line`. */
    static method New(ids: IdRegistry.IdHandler, line: string, currentYear: int) returns (m: MovieRecord)
      requires ids.Valid() && LineParses(line, currentYear)
      requires FullTitleOf(line) in ids.movieIds || ids.movieIdMax < I32Max
      modifies ids
      ensures ids.Valid()
      ensures (ids.Model(), m.id) == IdRegistry.Assign(old(ids.Model()), FullTitleOf(line))
      ensures m == ParseSpec(Defaults, line, currentYear, m.id)
    {
      var movie := new Movie.Init();
      m := movie.ParseLine(ids, line, currentYear);
    }

    /** `parse_line`: the steps in their fixed order, then the id of the
        untouched full title; the result is a copy of the fields. */
    method ParseLine(ids: IdRegistry.IdHandler, line: string, currentYear: int) returns (copy: MovieRecord)
      requires ids.Valid() && LineParses(line, currentYear)
      requires FullTitleOf(line) in ids.movieIds || ids.movieIdMax < I32Max
      modifies this, ids
      ensures ids.Valid()
      ensures (ids.Model(), id) == IdRegistry.Assign(old(ids.Model()), FullTitleOf(line))
      ensures Value() == ParseSpec(old(Value()), line, currentYear, id)
      ensures copy == Value()
    {
      ExtractFullTitle(line);
      ExtractFullYear(line);
      ExtractYear(currentYear);
      var remainingTitle := ExtractEpisode();
      remainingTitle := ExtractTitleYear(remainingTitle);
      ExtractTitle(remainingTitle);
      SetId(ids);
      copy := Value();
    }

    /** `set_id`: the registry's id for the full title, not the cut-down title. */
    method SetId(ids: IdRegistry.IdHandler)
      requires ids.Valid()
      requires fullTitle in ids.movieIds || ids.movieIdMax < I32Max
      modifies this, ids
      ensures ids.Valid()
      ensures (ids.Model(), id) == IdRegistry.Assign(old(ids.Model()), old(fullTitle))
      ensures Value() == old(Value()).(id := id)
    {
      id := ids.FindOrGenerateMovieId(fullTitle);
    }

    method ExtractFullTitle(line: string)
      requires line != []
      modifies this
      ensures Value() == old(Value()).(fullTitle := FullTitleOf(line))
    {
      var parts := SplitTabs(line);
      fullTitle := parts[0];
    }

    method ExtractFullYear(line: string)
      requires |SplitTabs(line)| >= 2
      modifies this
      ensures Value() == old(Value()).(fullYear := FullYearOf(line))
    {
      var parts := SplitTabs(line);
      fullYear := parts[1];
    }

    method ExtractTitle(line: string)
      modifies this
      ensures Value() == old(Value()).(title := line)
    {
      title := line;
    }

    /** `extract_title_year`: record the title year and return `line` without
        it, its parentheses and one more character. */
    method ExtractTitleYear(line: string) returns (rest: string)
      requires TitleTrimOk(line)
      modifies this
      ensures Value() == old(Value()).(titleYear := TitleYearOf(line))
      ensures rest == TitleBefore(line)
    {
      var found := "";
      if CodedYearMatch(line).Some? {
        var caps := Captures(CodedYearMatch(line));
        for k := 0 to |caps|
          invariant k > 0 ==> found == caps[k - 1]
        {
          found := caps[k];
        }
        assert found == CodedYearMatch(line).value;
      } else if PlainYearMatch(line).Some? {
        var caps := Captures(PlainYearMatch(line));
        for k := 0 to |caps|
          invariant k > 0 ==> found == caps[k - 1]
        {
          found := caps[k];
        }
        assert found == PlainYearMatch(line).value;
      } else {
        found := "";
      }
      assert found == TitleYearOf(line);
      titleYear := found;
      var titleLength := |line| - |titleYear|;
      rest := line[..titleLength - 3];
    }

    /** `extract_year`: the bounds of the year field's shape, then `years`
        cleared and refilled with every year between them. */
    method ExtractYear(currentYear: int)
      requires Classify(fullYear).OpenRange? ==> currentYear < I32Max
      modifies this
      ensures Value() == WithYears(old(Value()), currentYear)
    {
      var startYear: int, endYear: int := 0, 0;
      if fullYear == "" {
        startYear, endYear := -1, -1;
      } else if IsFourDigits(fullYear) {
        startYear := ParseYear(fullYear);
        endYear := startYear;
      } else if OpenMatch(fullYear).Some? {
        var caps := Captures(OpenMatch(fullYear));
        for k := 0 to |caps|
          invariant k > 0 ==> startYear == ParseYear(caps[k - 1])
        {
          startYear := ParseYear(caps[k]);
        }
        endYear := currentYear;
        yearOpenEnd := true;
      } else if ClosedMatch(fullYear).Some? {
        var caps := Captures(ClosedMatch(fullYear));
        for k := 0 to |caps|
          invariant k > 0 ==> startYear == ParseYear(caps[k - 1].0) && endYear == ParseYear(caps[k - 1].1)
        {
          startYear := ParseYear(caps[k].0);
          endYear := ParseYear(caps[k].1);
        }
      }
      years := [];
      years := years + Range(startYear, endYear);
    }

    /** `extract_episode`: find the last `) {`, read name, season and episode
        out of the braces, and return the parent title (or the full title
        when there are no braces). */
    method ExtractEpisode() returns (remaining: string)
      requires EpisodeSlicesOk(fullTitle)
      modifies this
      ensures Value() == WithEpisode(old(Value()), EpisodeOf(old(fullTitle)))
      ensures remaining == Remaining(EpisodeOf(old(fullTitle)), old(fullTitle))
      // Implied by the first clause; said outright for the steps that follow.
      ensures fullTitle == old(fullTitle)
    {
      // The full title is only read here; one local copy serves every read.
      var ft := fullTitle;
      var epPosition;
      match RFind(ft, EpisodeDelimiter) {
        case None => return ft;
        case Some(x) => epPosition := x;
      }
      EpisodeAtDelimiter(ft, epPosition);
      isEpisode := true;
      var episodeData := BraceContent(ft, epPosition);
      var epvalPosition;
      match RFind(episodeData, SpacedMarker) {
        case None =>
          if StartsWith(episodeData, BareMarker) {
            epvalPosition := 0;
          } else {
            EpisodeInUnmarked(episodeData, ParentOf(ft, epPosition));
            episodeName := episodeData;
            return ParentOf(ft, epPosition);
          }
        case Some(x) => epvalPosition := x + 1;
      }
      ReadEpisodeNumber(episodeData, epvalPosition, ParentOf(ft, epPosition));
      remaining := ParentOf(ft, epPosition);
    }

    /** The rest of `extract_episode` once the number marker is found at
        `epvalPosition`: season and episode when the marker value splits in
        two, the name, and the parent title. */
    method ReadEpisodeNumber(episodeData: string, epvalPosition: nat, parentTitle: string)
      requires isEpisode && ContentSlicesOk(episodeData)
      requires MarkerPosition(episodeData) == Some(epvalPosition)
      modifies this
      ensures Value() == WithEpisode(old(Value()), EpisodeIn(episodeData, parentTitle))
    {
      var epvalData := MarkerValue(episodeData, epvalPosition);
      var epvalParts := Split(epvalData, '.');
      if |epvalParts| == 2 {
        episodeSeason := epvalParts[0];
        episodeEpisode := epvalParts[1];
        episodeName := NameBeforeMarker(episodeData, epvalPosition);
      } else {
        episodeName := episodeData;
      }
      episodeParentTitle := parentTitle;
    }
  }
}
