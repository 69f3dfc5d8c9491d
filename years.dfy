/** The year field of a catalogue line (its second tab-separated field) and
    the inclusive list of years it stands for. The three shapes are the
    anchored patterns `^(\d\d\d\d)$`, `^(\d\d\d\d)-(\?\?\?\?)$` and
    `^(\d\d\d\d)-(\d\d\d\d)$`, with `\d` read as an ASCII digit. */
module YearRange {
  import opened Text

  predicate IsDigit(c: char) {
    '0' <= c <= '9'
  }

  predicate IsFourDigits(s: string) {
    |s| == 4 && forall i :: 0 <= i < 4 ==> IsDigit(s[i])
  }

  function DigitValue(c: char): nat
    requires IsDigit(c)
  {
    c as nat - '0' as nat
  }

  function DigitChar(d: nat): char
    requires d < 10
  {
    ('0' as nat + d) as char
  }

  /** `str::parse::<i32>` on four ASCII digits. */
  function ParseYear(s: string): (n: nat)
    requires IsFourDigits(s)
    ensures n <= 9999
  {
    1000 * DigitValue(s[0]) + 100 * DigitValue(s[1]) + 10 * DigitValue(s[2]) + DigitValue(s[3])
  }

  /** A year written with four digits, leading zeros included. */
  function FormatYear(n: nat): (s: string)
    requires n <= 9999
    ensures IsFourDigits(s)
  {
    [DigitChar(n / 1000), DigitChar(n / 100 % 10), DigitChar(n / 10 % 10), DigitChar(n % 10)]
  }

  lemma ParseFormat(n: nat)
    requires n <= 9999
    ensures ParseYear(FormatYear(n)) == n
  {
    var a, b, c, d := n / 1000, n / 100 % 10, n / 10 % 10, n % 10;
    assert n / 100 == 10 * a + b;
    assert n / 10 == 10 * (n / 100) + c;
    assert n == 10 * (n / 10) + d;
  }

  lemma FormatParse(s: string)
    requires IsFourDigits(s)
    ensures FormatYear(ParseYear(s)) == s
  {
    var a, b, c, d := DigitValue(s[0]), DigitValue(s[1]), DigitValue(s[2]), DigitValue(s[3]);
    var n := ParseYear(s);
    assert n == 10 * (10 * (10 * a + b) + c) + d;
    assert n % 10 == d && n / 10 == 10 * (10 * a + b) + c;
    assert n / 100 == (n / 10) / 10 == 10 * a + b;
    assert n / 100 % 10 == b && n / 1000 == a;
    assert n / 10 % 10 == c;
    var t := FormatYear(n);
    assert t[0] == s[0] && t[1] == s[1] && t[2] == s[2] && t[3] == s[3];
  }

  /** `YYYY-????`: a range still running. */
  predicate IsOpenField(s: string) {
    |s| == 9 && IsFourDigits(s[..4]) && s[4] == '-' && s[5..] == "????"
  }

  /** `YYYY-YYYY`: a closed range. */
  predicate IsClosedField(s: string) {
    |s| == 9 && IsFourDigits(s[..4]) && s[4] == '-' && IsFourDigits(s[5..])
  }

  /** The capture of `^(\d\d\d\d)-(\?\?\?\?)$`: the start year's digits. */
  function OpenMatch(fy: string): (r: Option<string>)
    ensures r.Some? <==> IsOpenField(fy)
    ensures r.Some? ==> IsFourDigits(r.value) && r.value + "-????" == fy
  {
    if IsOpenField(fy) then
      assert fy == fy[..4] + fy[4..5] + fy[5..];
      Some(fy[..4])
    else None
  }

  /** The captures of `^(\d\d\d\d)-(\d\d\d\d)$`: both years' digits. */
  function ClosedMatch(fy: string): (r: Option<(string, string)>)
    ensures r.Some? <==> IsClosedField(fy)
    ensures r.Some? ==> IsFourDigits(r.value.0) && IsFourDigits(r.value.1) && r.value.0 + "-" + r.value.1 == fy
  {
    if IsClosedField(fy) then
      assert fy == fy[..4] + fy[4..5] + fy[5..];
      Some((fy[..4], fy[5..]))
    else None
  }

  /** The shapes `extract_year` tells apart, in the order it tests them. */
  datatype YearShape =
    | NoYear
    | SingleYear(year: int)
    | OpenRange(from: int)
    | ClosedRange(from: int, to: int)
    | Unrecognized

  /** Which shape a year field has; the first test that matches wins. */
  function Classify(fy: string): (shape: YearShape)
    ensures shape == NoYear <==> fy == ""
    ensures shape.SingleYear? <==> IsFourDigits(fy)
    ensures shape.OpenRange? <==> IsOpenField(fy)
    ensures shape.ClosedRange? <==> IsClosedField(fy)
  {
    if fy == "" then NoYear
    else if IsFourDigits(fy) then SingleYear(ParseYear(fy))
    else if IsOpenField(fy) then
      assert !IsDigit(fy[5..][0]);
      OpenRange(ParseYear(fy[..4]))
    else if IsClosedField(fy) then
      ClosedRange(ParseYear(fy[..4]), ParseYear(fy[5..]))
    else Unrecognized
  }

  /** A shape that some year field has, with its years written in four digits. */
  predicate Writable(shape: YearShape) {
    match shape
    case NoYear => true
    case SingleYear(y) => 0 <= y <= 9999
    case OpenRange(y) => 0 <= y <= 9999
    case ClosedRange(a, b) => 0 <= a <= 9999 && 0 <= b <= 9999
    case Unrecognized => false
  }

  /** The year field a shape is read from: the inverse of `Classify`. */
  function Format(shape: YearShape): string
    requires Writable(shape)
  {
    match shape
    case NoYear => ""
    case SingleYear(y) => FormatYear(y)
    case OpenRange(y) => FormatYear(y) + "-????"
    case ClosedRange(a, b) => FormatYear(a) + "-" + FormatYear(b)
  }

  lemma ClassifyFormat(shape: YearShape)
    requires Writable(shape)
    ensures Classify(Format(shape)) == shape
  {
    var fy := Format(shape);
    match shape
    case NoYear =>
    case SingleYear(y) =>
      ParseFormat(y);
    case OpenRange(y) =>
      assert fy[..4] == FormatYear(y);
      ParseFormat(y);
    case ClosedRange(a, b) =>
      assert fy[..4] == FormatYear(a) && fy[5..] == FormatYear(b);
      ParseFormat(a);
      ParseFormat(b);
  }

  lemma FormatClassify(fy: string)
    requires !Classify(fy).Unrecognized?
    ensures Writable(Classify(fy)) && Format(Classify(fy)) == fy
  {
    if IsFourDigits(fy) {
      FormatParse(fy);
    } else if IsOpenField(fy) {
      FormatParse(fy[..4]);
      assert fy == fy[..4] + fy[4..5] + fy[5..];
    } else if IsClosedField(fy) {
      FormatParse(fy[..4]);
      FormatParse(fy[5..]);
      assert fy == fy[..4] + fy[4..5] + fy[5..];
    }
  }

  /** The first and last year of the range; the open end is the current year. */
  function Bounds(shape: YearShape, currentYear: int): (int, int) {
    match shape
    case NoYear => (-1, -1)
    case SingleYear(y) => (y, y)
    case OpenRange(y) => (y, currentYear)
    case ClosedRange(a, b) => (a, b)
    case Unrecognized => (0, 0)
  }

  /** `(start..end + 1).collect()`: every integer from `start` to `end`. */
  function Range(start: int, end: int): (r: seq<int>)
    decreases end - start + 1
    ensures |r| == if start <= end then end - start + 1 else 0
    ensures forall k :: 0 <= k < |r| ==> r[k] == start + k
  {
    if start > end then [] else [start] + Range(start + 1, end)
  }

  /** The `years` list `extract_year` builds from a year field. */
  function Years(fy: string, currentYear: int): seq<int> {
    var (start, end) := Bounds(Classify(fy), currentYear);
    Range(start, end)
  }

  /** Each year in the list follows its predecessor, from the start bound up
      to the end bound; the list is empty exactly when the start exceeds the end. */
  lemma YearsConsecutive(fy: string, currentYear: int)
    ensures var years := Years(fy, currentYear);
            var (start, end) := Bounds(Classify(fy), currentYear);
            (years == [] <==> start > end) &&
            (years != [] ==> years[0] == start && years[|years| - 1] == end) &&
            forall k :: 0 < k < |years| ==> years[k] == years[k - 1] + 1
  {
  }

  /** The single-element sentinels: an empty field gives `[-1]` and a field
      of no known shape gives `[0]`. */
  lemma SentinelYears(fy: string, currentYear: int)
    requires fy == "" || Classify(fy).Unrecognized?
    ensures Years(fy, currentYear) == if fy == "" then [-1] else [0]
  {
    assert Range(0, 0) == [0];
    assert Range(-1, -1) == [-1];
  }

  /** A year field written back from a non-empty `years` list and the open-end
      flag: open ranges end in `????`, one-year lists are a single year. */
  function YearFieldOf(years: seq<int>, openEnd: bool): string
    requires years != [] && 0 <= years[0] <= 9999 && 0 <= years[|years| - 1] <= 9999
  {
    if openEnd then FormatYear(years[0]) + "-????"
    else if |years| == 1 then FormatYear(years[0])
    else FormatYear(years[0]) + "-" + FormatYear(years[|years| - 1])
  }

  /** Re-deriving the year field from the parsed years and the open-end flag
      classifies to the same range: same bounds, same open end. */
  lemma YearFieldRoundTrip(fy: string, currentYear: int)
    requires Classify(fy).SingleYear? || Classify(fy).OpenRange? || Classify(fy).ClosedRange?
    requires Years(fy, currentYear) != []
    requires Classify(fy).OpenRange? ==> currentYear <= 9999
    ensures var years := Years(fy, currentYear);
            var openEnd := Classify(fy).OpenRange?;
            var fy' := YearFieldOf(years, openEnd);
            Bounds(Classify(fy'), currentYear) == Bounds(Classify(fy), currentYear) &&
            Classify(fy').OpenRange? == openEnd
  {
    var shape := Classify(fy);
    var years := Years(fy, currentYear);
    var (start, end) := Bounds(shape, currentYear);
    assert years[0] == start && years[|years| - 1] == end;
    FormatClassify(fy);
    var shape' := if shape.OpenRange? then OpenRange(start)
                  else if |years| == 1 then SingleYear(start)
                  else ClosedRange(start, end);
    assert Writable(shape');
    assert YearFieldOf(years, shape.OpenRange?) == Format(shape');
    ClassifyFormat(shape');
  }
}
