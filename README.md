# Movie catalogue line parser and id registry

This project models the per-line record parser of a movie catalogue importer
and the id registry it draws ids from.

The parser is the struct `Movie` in `src/movies.rs`. It takes one catalogue
line, such as `"!Next?" (1994)<tabs>1994-1995`, through a fixed chain of
steps. Each step writes fields of the movie in place:

1. `extract_full_title` and `extract_full_year` split the line on runs of
   tabs.
2. `extract_year` expands the year field into an inclusive list of years.
3. `extract_episode` peels an episode suffix `{name (#season.episode)}` off
   the full title.
4. `extract_title_year` cuts a trailing `(year)` or `(year/CODE)` marker off
   what is left.
5. `extract_title` stores the remaining text as the title.
6. `set_id` asks the registry for the id of the untouched full title.

`parse_line` returns a clone of the fields.

The registry is `IdHandler` in `src/id_handler.rs`. It is a map from full
title to id plus a high-water counter. A known title gets its stored id. A
new title gets the counter plus one.

## Layout

- `text.dfy` (module `Text`): `rfind`, prefix tests, `str::split` on one
  character, and `Regex::split` on `\t+`.
- `years.dfy` (module `YearRange`): the shapes of the year field, the
  inclusive year list, and the write-back of a year field.
- `episodes.dfy` (module `Episodes`): the offset arithmetic of
  `extract_episode` as pure functions over the full title.
- `title_years.dfy` (module `TitleYears`): the two trailing-year patterns and
  the trim of the title.
- `id_handler.dfy` (module `IdRegistry`): the registry as a value
  (`Registry`, `Assign`) and as the class `IdHandler` that updates it in
  place.
- `movies.dfy` (module `Movies`):
  - `MovieRecord` is the value `parse_line` returns.
  - `ParseSpec` is the whole pipeline as one function.
  - The class `Movie` has one method per `extract_*` step. Each method is
    proved against the function for its step.

Rust panics become preconditions:
- `parts[0]` needs a non-empty line, and `parts[1]` needs text after the
  first run of tabs.
- The slices at movies.rs:99, 143 and 157 need enough characters.
- The `+ 1` on the `i32` id counter and on the current year needs room
  below `i32::MAX`.

The regular expressions become character predicates:
- `\d` is an ASCII digit.
- `.` is any character except a line feed.

The current year, which the source reads from the clock, is a parameter.

The tab split follows version 0.1 of the regex crate, the version whose
`Captures::at` the parser calls. Its `split` yields no empty last field when
a run of tabs ends the line, and no field at all for the empty line.

Some behaviour of movies.rs that a reader might not expect:
- The code has no suspension-marker handling and no `(TV)`/`(V)`/`(VG)`
  category step. `title_category` and `suspended` are declared but never
  written.
- When the brace content has no number marker, `episode_parent_title` is not
  written, although the parent prefix is still passed on (movies.rs:150-151).
- A closed range whose start exceeds its end gives an empty `years` list.
- The title year is any four characters, not only digits. A title with no
  trailing marker still loses its last three characters.

## Model

| member | source | states |
|---|---|---|
| Text.Captures | src/movies.rs:87-89 | glue helper: turns an optional match into the list the `captures_iter` loop walks, empty or that one match; that each end-anchored pattern matches in one place only is stated by `TitleYears.CodedYearMatchComplete`, `TitleYears.PlainYearMatchComplete` and the if-and-only-if contracts of `YearRange.OpenMatch` and `YearRange.ClosedMatch` |
| Text.RFind | src/movies.rs:137 | `rfind` returns an occurrence with none after it, and nothing exactly when the pattern does not occur |
| Text.RFindIsLast | src/movies.rs:137 | an occurrence with none after it is the one `rfind` reports |
| Text.Split | src/movies.rs:158 | `split('.')` always yields at least one piece |
| Text.SplitPartsLackSeparator | src/movies.rs:158 | no piece of `split` holds the separator |
| Text.JoinSplit | src/movies.rs:158 | gluing the pieces back with the separator gives the original string |
| Text.SplitJoin | src/movies.rs:158 | separator-free pieces glued with the separator split back into the same pieces |
| Text.SplitTabs | src/movies.rs:62-64 | splitting on `\t+` yields tab-free fields; there is one exactly when the line is not empty, and a second exactly when some tab has a non-tab character after it |
| Text.FieldsAroundTabRun | src/movies.rs:60-74 | field 0 is the text before the first run of tabs and field 1 the non-empty text up to the next run, however many tabs there are |
| Text.TrailingTabsOneField | src/movies.rs:62-64 | a line that ends in its first run of tabs splits into the text before the tabs alone |
| YearRange.ParseYear | src/movies.rs:114 | parsing four digits gives a year of at most 9999 |
| YearRange.FormatYear | src/movies.rs:114 | a year up to 9999 is written as four digits |
| YearRange.ParseFormat | src/movies.rs:114 | parsing a written year gives the year back |
| YearRange.FormatParse | src/movies.rs:114 | writing a parsed four-digit field gives the field back |
| YearRange.OpenMatch | src/movies.rs:108 | `^(\d\d\d\d)-(\?\?\?\?)$` matches exactly open fields, and its capture is the four start digits |
| YearRange.ClosedMatch | src/movies.rs:107 | `^(\d\d\d\d)-(\d\d\d\d)$` matches exactly closed fields, and its captures are both years' digits |
| YearRange.Classify | src/movies.rs:110-128 | the shape is empty, single, open or closed exactly when the field has that form, tested in the source's order |
| YearRange.ClassifyFormat | src/movies.rs:110-128 | writing a shape out and classifying it again gives the same shape |
| YearRange.FormatClassify | src/movies.rs:110-128 | every recognised field is the written form of its shape |
| YearRange.Range | src/movies.rs:131 | `start..end+1` is `end - start + 1` integers from `start` on, and empty when `start > end` |
| YearRange.YearsConsecutive | src/movies.rs:130-132 | `years` runs from the start bound to the end bound, each year its predecessor plus one, and is empty exactly when the start exceeds the end |
| YearRange.SentinelYears | src/movies.rs:103-112 | an empty field gives `[-1]` and a field of no known shape gives `[0]` |
| YearRange.YearFieldRoundTrip | src/movies.rs:102-133 | rewriting the year field from a non-empty `years` list and the open-end flag classifies to the same bounds and the same open end |
| Episodes.MarkerPosition | src/movies.rs:145-155 | the marker sits one past the last `" (#"` whenever there is one; otherwise at 0 when the content starts with `"(#"`; it is absent exactly when neither occurs |
| Episodes.NameBeforeMarkerAsWritten | src/movies.rs:163 | the name slice as written panics exactly when the marker is at offset 0, and otherwise gives the corrected name |
| Episodes.EpisodeIn | src/movies.rs:145-169 | brace content always makes an episode, and it carries the parent prefix |
| Episodes.EpisodeOf | src/movies.rs:135-170 | a title is an episode exactly when it contains `") {"`, and the parent then ends at the `)` of the last delimiter |
| Episodes.EpisodeAtDelimiter | src/movies.rs:137-145 | proof helper: once the last delimiter is found, the episode is read from the brace content and the parent prefix |
| Episodes.EpisodeInUnmarked | src/movies.rs:145-152 | proof helper: brace content with neither marker is all name, with no season or episode |
| Episodes.EpisodeInMarked | src/movies.rs:154-166 | proof helper: with the marker found, a two-part value gives name, season and episode, and any other value leaves the whole content as the name |
| Episodes.EpisodeOfTitle | src/movies.rs:135-157 | in `parent {content}`, the episode is what the brace content reads as, with `parent` as the parent prefix |
| Episodes.DelimiterOfEpisodeTitle | src/movies.rs:137-143 | in `parent {content}`, the last `") {"` is the one after the parent, and the brace content comes back |
| Episodes.NoDelimiterNoEpisode | src/movies.rs:137-138 | a title without `") {"` is no episode and is passed on unchanged |
| Episodes.LastSpacedMarker | src/movies.rs:145 | in `name (#value)` the last `" (#"` is the one after the name |
| Episodes.NumberedContentFacts | src/movies.rs:145-163 | in `name (#season.episode)` the marker follows the name, its value splits into season and episode, and the name comes back |
| Episodes.NumberedContentEpisode | src/movies.rs:145-169 | brace content `name (#season.episode)` reads as that numbered episode |
| Episodes.NumberedRoundTrip | src/movies.rs:135-170 | a title `parent {name (#season.episode)}` gives back name, season, episode and parent, and passes the parent on |
| Episodes.UnnumberedRoundTrip | src/movies.rs:145-152 | a title `parent {name}` with no marker gives back the whole name and passes the parent on |
| Episodes.BareNumberedFacts | src/movies.rs:147-163 | in `parent {(#season.episode)}` the marker is at offset 0 and the value splits into season and episode |
| Episodes.MarkerAtStartNumbered | src/movies.rs:147-163 | with the corrected name slice, such a title is a numbered episode with an empty name |
| Episodes.MarkerAtStartPanics | src/movies.rs:163 | the same title reaches the name slice as written with marker 0 and a two-part value, so the slice panics |
| TitleYears.CodedYearMatch | src/movies.rs:82 | a coded match is a `..../[IVX]+` year that the title ends with, in parentheses |
| TitleYears.CodedYearMatchComplete | src/movies.rs:86-89 | every coded marker a title ends with is found |
| TitleYears.PlainYearMatch | src/movies.rs:83 | a plain match is a four-character year that the title ends with, in parentheses |
| TitleYears.PlainYearMatchComplete | src/movies.rs:90-93 | every plain marker a title ends with is found |
| TitleYears.NoCodedMatch | src/movies.rs:82 | no coded marker ends a title whose next-to-last character is not a roman digit |
| TitleYears.TitleYearOf | src/movies.rs:85-97 | the title year is empty, or a coded or plain year that the title ends with in parentheses |
| TitleYears.TitleBefore | src/movies.rs:98-99 | the returned title is a prefix that is shorter by the title year plus three characters |
| TitleYears.CodedMarkerTitle | src/movies.rs:80-100 | `t (year/CODE)` gives title year `year/CODE` and title `t`, even when the plain pattern matches too |
| TitleYears.PlainMarkerTitle | src/movies.rs:80-100 | `t (year)`, with `year` any four characters but a line feed and no coded marker ending the title, gives title year `year` and title `t`; this covers years such as `199X` |
| TitleYears.CodedMarkerEndsRoman | src/movies.rs:82 | a title ending in a coded marker has a roman digit just before its closing parenthesis |
| TitleYears.RomanFreePlainNoCode | src/movies.rs:82-93 | no coded marker ends `t (year)` when the plain year ends in no roman digit, so the plain pattern decides |
| TitleYears.RomanFreePlainTitle | src/movies.rs:80-100 | `t (year)` with a plain year ending in no roman digit gives title year `year` and title `t`, whatever `t` is |
| TitleYears.NoMarkerTitle | src/movies.rs:94-99 | with no marker the title year is empty and three characters are still cut off |
| IdRegistry.Generated | src/id_handler.rs:16-20 | after `generate` the registry maps only the sample title, to 11, and the counter is 11 |
| IdRegistry.Assign | src/id_handler.rs:29-44 | the title is mapped to the returned id afterwards, and the counter grows by at most one |
| IdRegistry.MintKeepsInv | src/id_handler.rs:22-27 | `new_movie_id` returns the old counter plus one, an id not in use, and keeps ids distinct and within `(10, max]` |
| IdRegistry.AssignSpec | src/id_handler.rs:29-42 | a known title gets its stored id and nothing changes; an unknown one gets the counter plus one and exactly one new entry; the invariant holds and no entry changes |
| IdRegistry.AssignIdempotent | src/id_handler.rs:29-35 | asking twice for a title gives the same id, and the second call changes nothing |
| IdRegistry.AssignDistinct | src/id_handler.rs:22-44 | two different titles get different ids |
| IdRegistry.AssignAll | src/id_handler.rs:29-44 | a run of lookups returns one id per title and advances the counter by at most the run's length |
| IdRegistry.AssignAllRecords | src/id_handler.rs:29-44 | after a run, each title maps to the id it was given, earlier entries are kept, and the invariant holds |
| IdRegistry.AssignAllIdsMatchTitles | src/id_handler.rs:29-44 | within a run, two lookups return the same id exactly when they asked for the same title |
| IdRegistry.IdHandler.constructor | src/id_handler.rs:10-14 | a new handler is the generated registry and satisfies the invariant |
| IdRegistry.IdHandler.Generate | src/id_handler.rs:16-20 | the registry is reset to the generated one |
| IdRegistry.IdHandler.NewMovieId | src/id_handler.rs:22-27 | the key maps to the old counter plus one, which becomes the counter and is returned; the invariant is kept |
| IdRegistry.IdHandler.FindOrGenerateMovieId | src/id_handler.rs:29-44 | the new state and the returned id are `Assign`'s: a known title's stored id with nothing changed, or a new id of counter plus one added for the title |
| Movies.LineFields | src/movies.rs:60-74 | a line `title<tabs>year` with a non-empty year has a second field, and both fields come back whatever the number of tabs |
| Movies.TrailingTabsNoYearField | src/movies.rs:68-74 | a line `title<tabs>` has no second field, so `parts[1]` panics and the line does not parse |
| Movies.MarkedTitle | src/movies.rs:80-100 | `t (year)` gives title year `year` and title `t` when `year` is coded, or plain with no coded marker also ending `t (year)` |
| Movies.EpisodeLineParts | src/movies.rs:44-54 | an episode line parses into its parts: full title, year field, years, episode name, season, episode and parent, title, title year and id; the unwritten fields keep their values |
| Movies.PlainLineParts | src/movies.rs:44-54 | a line without episode braces parses into its title, title year and years, and every episode field keeps its value |
| Movies.SingleYearField | src/movies.rs:245-247 | the year field `2005` gives `[2005]` and no open end |
| Movies.ClosedRangeField | src/movies.rs:249-252 | the year field `1994-1995` gives `[1994, 1995]` |
| Movies.OpenRangeField | src/movies.rs:254-265 | the year field `2006-????` gives every year from 2006 to the current year, with an open end |
| Movies.SampleTitleRegistered | src/id_handler.rs:19 | the unit tests' episode title is the one `generate` registers |
| Movies.SampleEpisodeId | src/movies.rs:56-58 | a fresh registry answers 11 for the unit tests' episode line |
| Movies.SampleEpisodeLine | src/movies.rs:216-311 | the unit tests' episode line gives its full title, year `2005`, years `[2005]`, the episode fields, title, title year and id 11 |
| Movies.SampleClosedRangeLine | src/movies.rs:216-311 | the line `"!Next?" (1994)` with five tabs and `1994-1995` gives title `"!Next?"`, title year `1994`, years `[1994, 1995]` and no episode |
| Movies.SampleOpenRangeLine | src/movies.rs:216-311 | the line `"#1 Single" (2006)` with five tabs and `2006-????` gives title year `2006`, years from 2006 with an open end (more than nine from 2015 on), and no episode |
| Movies.Movie.Init | src/movies.rs:32-39 | a new movie holds the default fields: id -1, empty strings, empty years, all flags false |
| Movies.Movie.New | src/movies.rs:31-42 | `Movie::new` returns the record `ParseSpec` gives from the defaults, with the id the registry assigns to the full title |
| Movies.Movie.ParseLine | src/movies.rs:44-54 | the steps leave the fields `ParseSpec` gives, the id is the registry's answer for the untouched full title, and the copy equals the fields |
| Movies.Movie.SetId | src/movies.rs:56-58 | the id is the registry's answer for the full title; no other field changes |
| Movies.Movie.ExtractFullTitle | src/movies.rs:60-66 | only `full_title` changes, to the first tab-separated field |
| Movies.Movie.ExtractFullYear | src/movies.rs:68-74 | only `full_year` changes, to the second tab-separated field |
| Movies.Movie.ExtractTitle | src/movies.rs:76-78 | only `title` changes, to the given text |
| Movies.Movie.ExtractTitleYear | src/movies.rs:80-100 | only `title_year` changes, to the title year of the text, and the text without it and three more characters is returned |
| Movies.Movie.ExtractYear | src/movies.rs:102-133 | `years` becomes the list for the year field and the open end is raised for an open range; nothing else changes |
| Movies.Movie.ExtractEpisode | src/movies.rs:135-170 | the episode fields are written as `EpisodeOf` the full title finds them, the parent or the full title is returned, and the full title is untouched |
| Movies.Movie.ReadEpisodeNumber | src/movies.rs:157-169 | with the marker found, season, episode, name and parent are written as `EpisodeIn` reads them from the brace content |

## Left out

- `Movies::parse_file` (src/movies.rs:173-208) is left out. It is file input, a skip of the header lines and a single push.
- The `println!` logging calls are left out.
- `Local::now()` is left out. The current year is a parameter of `ExtractYear`, `ParseLine` and `New`.
- src/main.rs is not part of this model. It only wires the pieces together.
- The regex engine is left out. Each pattern is a predicate on characters. Rust's Unicode `\d` is read as an ASCII digit.
- Strings are sequences of characters, and byte offsets are read as indices. This holds for ASCII lines. Slicing a multi-byte character in the middle, which would panic in Rust, is not modelled.
- Movies.Movie.ExtractEpisode: the tail of `extract_episode`, from the marker value on, is a separate method, `ReadEpisodeNumber`. Both write the same fields in the same order as the source.
- Movies.Movie.ReadEpisodeNumber: uses the corrected name slice of the finding below. When the marker opens the brace content and its value splits in two, as in `{(#1.2)}`, the source panics and the model gives the empty name instead.
- Episodes.EpisodeIn: the same correction. It returns an empty name where movies.rs:163 panics.
- Episodes.EpisodeOf: the same correction, through `EpisodeIn`.
- Movies.Movie.ExtractEpisode: the same correction, through `ReadEpisodeNumber`.
- Movies.Movie.ParseLine: the same correction, through `ExtractEpisode`.
- Movies.Movie.New: the same correction, through `ParseLine`.
- Movies.Movie.ParseLine: the clone is a `MovieRecord` value. The model says nothing about where it lives in memory.
- Panics become preconditions rather than modelled failures:
  - `parts[0]` on the empty line, and `parts[1]` on a line with no text after its first run of tabs;
  - the slices at movies.rs:99, 143 and 157;
  - `i32` overflow of the id counter and of the open range's `current year + 1`.
- Concurrency is left out. The source is single-threaded.

## Findings

| source | as written | input that shows it | evidently intended | confidence | as-written member | corrected member |
|---|---|---|---|---|---|---|
| src/movies.rs:163 | `episode_data[0..epval_position-1]` computes `0 - 1` on a `usize` when the brace content starts with `(#` and its value splits in two, and panics | full title `"Show" (2000) {(#1.2)}` | the episode name is empty when the marker opens the brace content | not executed | Episodes.MarkerAtStartPanics | Episodes.MarkerAtStartNumbered |
