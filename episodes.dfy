/** Peeling the episode suffix `{name (#season.episode)}` off a full title:
    the offset arithmetic of `extract_episode`, as pure functions. */
module Episodes {
  import opened Text

  /** Close-paren, space, open-brace: where a parent title meets its episode braces. */
  const EpisodeDelimiter: string := ") {"
  /** The number marker with the space that separates it from the episode name. */
  const SpacedMarker: string := " (#"
  /** The number marker at the very start of the brace content. */
  const BareMarker: string := "(#"

  /** What `extract_episode` finds in a full title. `parent` is the prefix of
      the full title through the `)` of the last delimiter. */
  datatype Episode =
    | NotEpisode
      /** No number marker: the whole brace content is the name; the parent
          prefix is passed on but not recorded. */
    | Unnumbered(name: string, parent: string)
      /** A marker whose value splits on `.` into season and episode. */
    | Numbered(name: string, season: string, episode: string, parent: string)
      /** A marker whose value does not split into exactly two parts. */
    | Unsplit(name: string, parent: string)

  /** The text between `{` and the last character of the full title. */
  function BraceContent(ft: string, p: nat): string
    requires p + 3 <= |ft| - 1
  {
    ft[p + 3..|ft| - 1]
  }

  /** The parent title: the full title through the `)` of the delimiter at `p`. */
  function ParentOf(ft: string, p: nat): string
    requires p + 1 <= |ft|
  {
    ft[..p + 1]
  }

  /** Where the `(#` marker starts in the brace content: one past the last
      `" (#"`, or 0 when the content itself starts with `"(#"`. */
  function MarkerPosition(data: string): (r: Option<nat>)
    ensures r.Some? ==> OccursAt(data, BareMarker, r.value)
    ensures r.Some? && r.value > 0 ==> data[r.value - 1] == ' '
    ensures r.None? <==> !Contains(data, SpacedMarker) && !StartsWith(data, BareMarker)
    ensures r.Some? && r.value > 0 ==> RFind(data, SpacedMarker) == Some(r.value - 1)
    ensures r.Some? && r.value == 0 ==> !Contains(data, SpacedMarker)
  {
    match RFind(data, SpacedMarker)
    case Some(x) =>
      assert data[x + 1..x + 3] == data[x..x + 3][1..];
      Some(x + 1)
    case None =>
      if StartsWith(data, BareMarker) then Some(0) else None
  }

  /** The text between `(#` and the last character of the brace content. */
  function MarkerValue(data: string, m: nat): string
    requires m + 2 <= |data| - 1
  {
    data[m + 2..|data| - 1]
  }

  /** The slice at movies.rs:157 stays within bounds: the marker value is
      not "negative" in length. */
  predicate ContentSlicesOk(data: string) {
    match MarkerPosition(data)
    case None => true
    case Some(m) => m + 2 <= |data| - 1
  }

  /** The slices at movies.rs:143 and movies.rs:157 stay within bounds: the
      brace content and the marker value are not "negative" in length. */
  predicate EpisodeSlicesOk(ft: string) {
    match RFind(ft, EpisodeDelimiter)
    case None => true
    case Some(p) => p + 3 <= |ft| - 1 && ContentSlicesOk(BraceContent(ft, p))
  }

  /** The episode name before a numbered marker: the content up to the space
      in front of the marker, and nothing when the marker opens the content. */
  function NameBeforeMarker(data: string, m: nat): string
    requires m <= |data|
  {
    if m == 0 then "" else data[..m - 1]
  }

  /** The name slice as movies.rs:163 writes it, `data[0..m-1]`: for `m == 0`
      the subtraction underflows and the program panics (`None`). */
  function NameBeforeMarkerAsWritten(data: string, m: nat): (r: Option<string>)
    requires m <= |data|
    ensures r.None? <==> m == 0
    ensures r.Some? ==> r.value == NameBeforeMarker(data, m)
  {
    if m == 0 then None else Some(data[..m - 1])
  }

  /** What `extract_episode` reads out of the brace content `data` of a
      title whose parent prefix is `parent`. */
  function EpisodeIn(data: string, parent: string): (e: Episode)
    requires ContentSlicesOk(data)
    ensures !e.NotEpisode? && e.parent == parent
  {
    match MarkerPosition(data)
    case None => Unnumbered(data, parent)
    case Some(m) =>
      var parts := Split(MarkerValue(data, m), '.');
      if |parts| == 2 then Numbered(NameBeforeMarker(data, m), parts[0], parts[1], parent)
      else Unsplit(data, parent)
  }

  /** What `extract_episode` finds in the full title `ft`. */
  function EpisodeOf(ft: string): (e: Episode)
    requires EpisodeSlicesOk(ft)
    ensures e.NotEpisode? <==> !Contains(ft, EpisodeDelimiter)
    ensures !e.NotEpisode? ==>
              |e.parent| + 2 < |ft| && e.parent == ft[..|e.parent|] &&
              OccursAt(ft, EpisodeDelimiter, |e.parent| - 1) &&
              forall j :: |e.parent| - 1 < j ==> !OccursAt(ft, EpisodeDelimiter, j)
  {
    match RFind(ft, EpisodeDelimiter)
    case None => NotEpisode
    case Some(p) => EpisodeIn(BraceContent(ft, p), ParentOf(ft, p))
  }

  /** Proof helper, unfolding `EpisodeOf`: once the last delimiter is found
      at `p`, the brace content is read with the parent prefix. */
  lemma EpisodeAtDelimiter(ft: string, p: nat)
    requires EpisodeSlicesOk(ft) && RFind(ft, EpisodeDelimiter) == Some(p)
    ensures p + 3 <= |ft| - 1 && ContentSlicesOk(BraceContent(ft, p))
    ensures EpisodeOf(ft) == EpisodeIn(BraceContent(ft, p), ParentOf(ft, p))
  {
  }

  /** Proof helper, unfolding `EpisodeIn`: brace content with neither marker
      is all name. */
  lemma EpisodeInUnmarked(data: string, parent: string)
    requires RFind(data, SpacedMarker).None? && !StartsWith(data, BareMarker)
    ensures ContentSlicesOk(data) && EpisodeIn(data, parent) == Unnumbered(data, parent)
  {
  }

  /** Proof helper, unfolding `EpisodeIn`: with its marker at `m` (one past
      the last `" (#"`, or 0 for a leading `"(#"`), the value after the
      marker decides. */
  lemma EpisodeInMarked(data: string, parent: string, m: nat)
    requires ContentSlicesOk(data)
    requires if m == 0 then RFind(data, SpacedMarker).None? && StartsWith(data, BareMarker)
             else RFind(data, SpacedMarker) == Some(m - 1)
    ensures m + 2 <= |data| - 1
    ensures var parts := Split(MarkerValue(data, m), '.');
            EpisodeIn(data, parent) ==
              if |parts| == 2 then Numbered(NameBeforeMarker(data, m), parts[0], parts[1], parent)
              else Unsplit(data, parent)
  {
  }

  /** The string `extract_episode` hands to the next step. */
  function Remaining(e: Episode, ft: string): string {
    if e.NotEpisode? then ft else e.parent
  }

  /** A full title built from a parent title and episode brace content. */
  function EpisodeTitle(parent: string, content: string): string {
    parent + " {" + content + "}"
  }

  /** The delimiter `extract_episode` finds in a composed title is the one
      between the parent and the braces, and the brace content comes back. */
  lemma DelimiterOfEpisodeTitle(parent: string, content: string)
    requires parent != [] && parent[|parent| - 1] == ')'
    requires !Contains(content, EpisodeDelimiter)
    ensures var ft := EpisodeTitle(parent, content);
            RFind(ft, EpisodeDelimiter) == Some(|parent| - 1) &&
            |parent| + 2 <= |ft| - 1 &&
            BraceContent(ft, |parent| - 1) == content &&
            ft[..|parent|] == parent
  {
    var ft := EpisodeTitle(parent, content);
    var pre := parent[..|parent| - 1];
    assert ft == pre + EpisodeDelimiter + content + ['}'];
    LastOccurrenceAfter(pre, EpisodeDelimiter, content, '}');
    assert BraceContent(ft, |parent| - 1) == content;
  }

  /** The episode of `parent {content}` is what the content reads as. */
  lemma EpisodeOfTitle(parent: string, content: string)
    requires parent != [] && parent[|parent| - 1] == ')'
    requires !Contains(content, EpisodeDelimiter) && ContentSlicesOk(content)
    ensures var ft := EpisodeTitle(parent, content);
            EpisodeSlicesOk(ft) && EpisodeOf(ft) == EpisodeIn(content, parent)
  {
    var ft := EpisodeTitle(parent, content);
    DelimiterOfEpisodeTitle(parent, content);
    EpisodeAtDelimiter(ft, |parent| - 1);
    assert ParentOf(ft, |parent| - 1) == parent;
  }

  /** A title without the delimiter is no episode and passes on unchanged. */
  lemma NoDelimiterNoEpisode(ft: string)
    requires !Contains(ft, EpisodeDelimiter)
    ensures EpisodeSlicesOk(ft) && EpisodeOf(ft) == NotEpisode && Remaining(EpisodeOf(ft), ft) == ft
  {
  }

  /** Episode brace content written as `name (#season.episode)`. */
  function NumberedContent(name: string, season: string, episode: string): string {
    name + SpacedMarker + season + "." + episode + ")"
  }

  /** In `name (#value)` the last `" (#"` is the one after the name when the
      value holds none. */
  lemma LastSpacedMarker(name: string, value: string)
    requires !Contains(value, SpacedMarker)
    ensures RFind(name + SpacedMarker + value + ")", SpacedMarker) == Some(|name|)
  {
    LastOccurrenceAfter(name, SpacedMarker, value, ')');
    assert name + SpacedMarker + value + ")" == name + SpacedMarker + value + [')'];
  }

  /** In `name (#season.episode)` the marker sits after the name and its
      value splits back into season and episode. */
  lemma NumberedContentFacts(name: string, season: string, episode: string)
    requires '.' !in season && '.' !in episode
    requires !Contains(season + "." + episode, SpacedMarker)
    ensures var content := NumberedContent(name, season, episode);
            RFind(content, SpacedMarker) == Some(|name|) &&
            ContentSlicesOk(content) &&
            |name| + 3 <= |content| - 1 &&
            Split(MarkerValue(content, |name| + 1), '.') == [season, episode] &&
            NameBeforeMarker(content, |name| + 1) == name
  {
    var value := season + "." + episode;
    var content := NumberedContent(name, season, episode);
    assert content == name + SpacedMarker + value + ")";
    LastSpacedMarker(name, value);
    var x := |name|;
    assert MarkerPosition(content) == Some(x + 1);
    assert MarkerValue(content, x + 1) == value;
    assert value == Join([season, episode], '.');
    SplitJoin([season, episode], '.');
    assert content[..x] == name;
  }

  /** Brace content `name (#season.episode)` reads as that numbered episode. */
  lemma NumberedContentEpisode(name: string, season: string, episode: string, parent: string)
    requires '.' !in season && '.' !in episode
    requires !Contains(season + "." + episode, SpacedMarker)
    ensures var content := NumberedContent(name, season, episode);
            ContentSlicesOk(content) && EpisodeIn(content, parent) == Numbered(name, season, episode, parent)
  {
    NumberedContentFacts(name, season, episode);
    EpisodeInMarked(NumberedContent(name, season, episode), parent, |name| + 1);
  }

  /** Name, season and episode come back from a title written as
      `parent {name (#season.episode)}`, and the parent is passed on. */
  lemma NumberedRoundTrip(parent: string, name: string, season: string, episode: string)
    requires parent != [] && parent[|parent| - 1] == ')'
    requires !Contains(NumberedContent(name, season, episode), EpisodeDelimiter)
    requires '.' !in season && '.' !in episode
    requires !Contains(season + "." + episode, SpacedMarker)
    ensures var ft := EpisodeTitle(parent, NumberedContent(name, season, episode));
            EpisodeSlicesOk(ft) &&
            EpisodeOf(ft) == Numbered(name, season, episode, parent) &&
            Remaining(EpisodeOf(ft), ft) == parent
  {
    var content := NumberedContent(name, season, episode);
    NumberedContentEpisode(name, season, episode, parent);
    EpisodeOfTitle(parent, content);
  }

  /** Without a number marker the whole brace content is the episode name. */
  lemma UnnumberedRoundTrip(parent: string, name: string)
    requires parent != [] && parent[|parent| - 1] == ')'
    requires !Contains(name, EpisodeDelimiter)
    requires !Contains(name, SpacedMarker) && !StartsWith(name, BareMarker)
    ensures var ft := EpisodeTitle(parent, name);
            EpisodeSlicesOk(ft) &&
            EpisodeOf(ft) == Unnumbered(name, parent) &&
            Remaining(EpisodeOf(ft), ft) == parent
  {
    DelimiterOfEpisodeTitle(parent, name);
  }

  /** Brace content that opens with the marker: `(#season.episode)`. */
  function BareNumberedContent(season: string, episode: string): string {
    BareMarker + season + "." + episode + ")"
  }

  /** Season and episode text that cannot be mistaken for markers. */
  predicate PlainNumber(s: string) {
    '.' !in s && ' ' !in s && '{' !in s
  }

  /** Facts about `parent {(#season.episode)}` shared by the finding's two halves. */
  lemma BareNumberedFacts(parent: string, season: string, episode: string)
    requires parent != [] && parent[|parent| - 1] == ')'
    requires PlainNumber(season) && PlainNumber(episode)
    ensures var content := BareNumberedContent(season, episode);
            var ft := EpisodeTitle(parent, content);
            RFind(ft, EpisodeDelimiter) == Some(|parent| - 1) &&
            |parent| + 2 <= |ft| - 1 &&
            BraceContent(ft, |parent| - 1) == content &&
            ft[..|parent|] == parent &&
            MarkerPosition(content) == Some(0) &&
            2 <= |content| - 1 &&
            Split(MarkerValue(content, 0), '.') == [season, episode]
  {
    var value := season + "." + episode;
    var content := BareNumberedContent(season, episode);
    assert content == BareMarker + value + ")";
    assert '{' !in content;
    MissingCharNotContained(content, EpisodeDelimiter, 2);
    DelimiterOfEpisodeTitle(parent, content);
    assert ' ' !in content;
    MissingCharNotContained(content, SpacedMarker, 0);
    assert content[..2] == BareMarker;
    assert MarkerValue(content, 0) == value;
    assert value == Join([season, episode], '.');
    SplitJoin([season, episode], '.');
  }

  /** A marker at the very start of the brace content, with a two-part value:
      the model names the episode with the empty string. */
  lemma MarkerAtStartNumbered(parent: string, season: string, episode: string)
    requires parent != [] && parent[|parent| - 1] == ')'
    requires PlainNumber(season) && PlainNumber(episode)
    ensures var ft := EpisodeTitle(parent, BareNumberedContent(season, episode));
            EpisodeSlicesOk(ft) &&
            EpisodeOf(ft) == Numbered("", season, episode, parent)
  {
    BareNumberedFacts(parent, season, episode);
  }

  /** The same title drives movies.rs:163 into `data[0..0 - 1]`: the marker
      position is 0, the value splits in two, and the slice as written panics. */
  lemma MarkerAtStartPanics(parent: string, season: string, episode: string)
    requires parent != [] && parent[|parent| - 1] == ')'
    requires PlainNumber(season) && PlainNumber(episode)
    ensures var content := BareNumberedContent(season, episode);
            var ft := EpisodeTitle(parent, content);
            RFind(ft, EpisodeDelimiter) == Some(|parent| - 1) &&
            MarkerPosition(content) == Some(0) &&
            |Split(MarkerValue(content, 0), '.')| == 2 &&
            NameBeforeMarkerAsWritten(content, 0).None?
  {
    BareNumberedFacts(parent, season, episode);
  }
}
