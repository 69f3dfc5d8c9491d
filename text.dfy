/** String operations the record parser relies on: substring search
    (`str::rfind`), prefix tests, splitting on one character (`str::split`)
    and splitting on runs of tabs (`Regex::split` with the pattern `\t+`).
    Catalogue lines are ASCII, so a byte offset is a sequence index. */
module Text {

  datatype Option<T> = None | Some(value: T)

  /** The largest value of Rust's `i32`, the type of the years and of the id counter. */
  const I32Max: int := 0x7fff_ffff

  /** Glue helper: what `captures_iter` yields for a pattern anchored at the
      end of the text, its one match or nothing. That such a pattern matches
      in one place only is proved about each pattern's own match function. */
  function Captures<T>(m: Option<T>): (caps: seq<T>)
    ensures |caps| <= 1 && (m.Some? <==> |caps| == 1)
    ensures m.Some? ==> caps[0] == m.value
  {
    if m.Some? then [m.value] else []
  }

  /** `p` occurs in `s` starting at index `i`. */
  predicate OccursAt(s: string, p: string, i: int) {
    0 <= i && i + |p| <= |s| && s[i..i + |p|] == p
  }

  ghost predicate Contains(s: string, p: string) {
    exists i :: OccursAt(s, p, i)
  }

  predicate StartsWith(s: string, p: string) {
    |p| <= |s| && s[..|p|] == p
  }

  /** The start of the last occurrence of `p` in `s` that begins before `k`. */
  function LastOccurrenceBefore(s: string, p: string, k: int): (r: Option<nat>)
    decreases k
    ensures r.Some? ==> r.value < k && OccursAt(s, p, r.value)
    ensures r.Some? ==> forall j :: r.value < j < k ==> !OccursAt(s, p, j)
    ensures r.None? ==> forall j :: j < k ==> !OccursAt(s, p, j)
  {
    if k <= 0 then None
    else if OccursAt(s, p, k - 1) then Some(k - 1)
    else LastOccurrenceBefore(s, p, k - 1)
  }

  /** `str::rfind`: where the last occurrence of `p` in `s` starts. */
  function RFind(s: string, p: string): (r: Option<nat>)
    ensures r.Some? ==> OccursAt(s, p, r.value)
    ensures r.Some? ==> forall j :: r.value < j ==> !OccursAt(s, p, j)
    ensures r.None? <==> !Contains(s, p)
  {
    LastOccurrenceBefore(s, p, |s| + 1)
  }

  /** An occurrence with none after it is the one `RFind` reports. */
  lemma RFindIsLast(s: string, p: string, i: int)
    requires OccursAt(s, p, i)
    requires forall j :: i < j ==> !OccursAt(s, p, j)
    ensures RFind(s, p) == Some(i)
  {
    var r := RFind(s, p);
    assert r.Some?;
  }

  /** A pattern holding a character that `s` lacks cannot occur in `s`. */
  lemma MissingCharNotContained(s: string, p: string, k: nat)
    requires k < |p| && p[k] !in s
    ensures !Contains(s, p)
  {
    forall i ensures !OccursAt(s, p, i) {
      if 0 <= i && i + |p| <= |s| {
        assert s[i..i + |p|][k] == s[i + k];
      }
    }
  }

  /** In `pre + p + rest + [c]` the copy of the three-character pattern `p`
      after `pre` is the last one, when `rest` holds none, neither later
      character of `p` can start it, and `c` cannot end it. */
  lemma LastOccurrenceAfter(pre: string, p: string, rest: string, c: char)
    requires |p| == 3 && p[1] != p[0] && p[2] != p[0] && c != p[2]
    requires !Contains(rest, p)
    ensures RFind(pre + p + rest + [c], p) == Some(|pre|)
  {
    var s := pre + p + rest + [c];
    var x := |pre|;
    assert s[x..x + 3] == p;
    assert s[x + 3..|s| - 1] == rest;
    forall j | x < j ensures !OccursAt(s, p, j) {
      if j + 3 <= |s| {
        var w := s[j..j + 3];
        if j <= x + 2 {
          assert w[0] == s[j] == p[j - x];
        } else if j + 3 <= |s| - 1 {
          assert w == s[x + 3..|s| - 1][j - x - 3..j - x];
          assert !OccursAt(rest, p, j - x - 3);
        } else {
          assert w[2] == s[|s| - 1] == c;
        }
      }
    }
    RFindIsLast(s, p, x);
  }

  /** The first index holding `c`, or `|s|` when there is none. */
  function IndexOf(s: string, c: char): (i: nat)
    ensures i <= |s|
    ensures i < |s| ==> s[i] == c
    ensures forall k :: 0 <= k < i ==> s[k] != c
  {
    if |s| == 0 then 0
    else if s[0] == c then 0
    else 1 + IndexOf(s[1..], c)
  }

  /** The first index at or after `i` that does not hold `c`, or `|s|`. */
  function SkipRun(s: string, c: char, i: nat): (j: nat)
    requires i <= |s|
    decreases |s| - i
    ensures i <= j <= |s|
    ensures forall k :: i <= k < j ==> s[k] == c
    ensures j < |s| ==> s[j] != c
  {
    if i == |s| || s[i] != c then i else SkipRun(s, c, i + 1)
  }

  /** `str::split` on a single character: the pieces between its occurrences. */
  function Split(s: string, c: char): (parts: seq<string>)
    decreases |s|
    ensures |parts| >= 1
  {
    var i := IndexOf(s, c);
    if i == |s| then [s] else [s[..i]] + Split(s[i + 1..], c)
  }

  /** No piece `Split` returns holds the separator. */
  lemma {:induction false} SplitPartsLackSeparator(s: string, c: char)
    decreases |s|
    ensures forall k :: 0 <= k < |Split(s, c)| ==> c !in Split(s, c)[k]
  {
    var i := IndexOf(s, c);
    if i < |s| {
      SplitPartsLackSeparator(s[i + 1..], c);
      var rest := Split(s[i + 1..], c);
      assert Split(s, c) == [s[..i]] + rest;
      forall k | 0 <= k < |Split(s, c)| ensures c !in Split(s, c)[k] {
        if k > 0 {
          assert Split(s, c)[k] == rest[k - 1];
        }
      }
    }
  }

  /** The inverse of `Split`: the pieces glued back with `c` between them. */
  function Join(parts: seq<string>, c: char): string
    requires |parts| >= 1
  {
    if |parts| == 1 then parts[0] else parts[0] + [c] + Join(parts[1..], c)
  }

  lemma {:induction false} JoinSplit(s: string, c: char)
    ensures Join(Split(s, c), c) == s
    decreases |s|
  {
    var i := IndexOf(s, c);
    if i < |s| {
      var rest := Split(s[i + 1..], c);
      assert Split(s, c) == [s[..i]] + rest;
      JoinSplit(s[i + 1..], c);
      assert Join([s[..i]] + rest, c) == s[..i] + [c] + Join(rest, c);
      assert s == s[..i] + [c] + s[i + 1..];
    }
  }

  lemma {:induction false} SplitJoin(parts: seq<string>, c: char)
    requires |parts| >= 1
    requires forall k :: 0 <= k < |parts| ==> c !in parts[k]
    ensures Split(Join(parts, c), c) == parts
  {
    if |parts| == 1 {
      assert IndexOf(parts[0], c) == |parts[0]|;
    } else {
      var s := Join(parts, c);
      var a, tail := parts[0], Join(parts[1..], c);
      assert s == a + [c] + tail;
      assert c !in a;
      assert forall k :: 0 <= k < |a| ==> s[k] == a[k];
      assert s[|a|] == c;
      assert IndexOf(s, c) == |a|;
      assert s[..|a|] == a && s[|a| + 1..] == tail;
      assert Split(s, c) == [a] + Split(tail, c);
      SplitJoin(parts[1..], c);
      assert [a] + parts[1..] == parts;
    }
  }

  /** `Regex::split` with `\t+`, as version 0.1 of the regex crate does it
      (the version whose `Captures::at` the parser calls): the text before
      each maximal run of tabs, then the rest of the text if any is left. A
      run of tabs that ends the text yields no empty last field, and the
      empty text yields no field at all. */
  function SplitTabs(s: string): (parts: seq<string>)
    decreases |s|
    ensures forall k :: 0 <= k < |parts| ==> '\t' !in parts[k]
    ensures |parts| >= 1 <==> s != []
    ensures |parts| >= 2 <==> exists i, j :: 0 <= i < j < |s| && s[i] == '\t' && s[j] != '\t'
  {
    if s == [] then []
    else
      var i := IndexOf(s, '\t');
      if i == |s| then [s]
      else
        var j := SkipRun(s, '\t', i);
        assert j < |s| ==> s[i] == '\t' && s[j] != '\t';
        [s[..i]] + SplitTabs(s[j..])
  }

  /** `n` tab characters. */
  function Tabs(n: nat): (t: string)
    ensures |t| == n && forall k :: 0 <= k < n ==> t[k] == '\t'
  {
    seq(n, _ => '\t')
  }

  /** A run of tabs, however long, separates two fields: the text before the
      first run is field 0 and the text up to the next run is field 1. */
  lemma FieldsAroundTabRun(x: string, n: nat, y: string, rest: string)
    requires '\t' !in x && '\t' !in y && n >= 1 && y != []
    requires rest == [] || rest[0] == '\t'
    ensures var parts := SplitTabs(x + Tabs(n) + y + rest);
            |parts| >= 2 && parts[0] == x && parts[1] == y
  {
    var s := x + Tabs(n) + y + rest;
    assert s[|x|] == '\t';
    var i := IndexOf(s, '\t');
    assert forall m :: 0 <= m < |x| ==> s[m] == x[m] && x[m] != '\t';
    assert i == |x|;
    var j := SkipRun(s, '\t', i);
    assert forall m :: |x| <= m < |x| + n ==> s[m] == '\t';
    assert s[|x| + n] == y[0] && y[0] != '\t';
    assert j == |x| + n;
    var t := s[j..];
    assert t == y + rest;
    var k := IndexOf(t, '\t');
    assert forall m :: 0 <= m < |y| ==> t[m] == y[m] && y[m] != '\t';
    assert |y| < |t| ==> t[|y|] == rest[0] == '\t';
    assert k == |y|;
    assert s[..i] == x;
    assert t[..k] == y;
  }

  /** A line that ends in its first run of tabs has one field only: the
      text before the tabs. */
  lemma TrailingTabsOneField(x: string, n: nat)
    requires '\t' !in x && n >= 1
    ensures SplitTabs(x + Tabs(n)) == [x]
  {
    var s := x + Tabs(n);
    assert s[|x|] == '\t';
    assert forall m :: 0 <= m < |x| ==> s[m] == x[m] && x[m] != '\t';
    assert IndexOf(s, '\t') == |x|;
    assert forall m :: |x| <= m < |s| ==> s[m] == '\t';
    assert SkipRun(s, '\t', |x|) == |s|;
    assert s[..|x|] == x;
  }
}
