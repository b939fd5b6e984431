/** String helpers shared by the converters: the character classes of the
    patterns in js/main.js, prefix tests, first occurrence, and the two ways
    the source splits text (`split(/\t - \t/)` and `split(/[\n\r]+/)`). */
module Text {
  import opened Records

  /** The characters `.` does not match in a pattern without the `s` flag. */
  predicate IsLineTerminator(c: char) {
    c == '\n' || c == '\r' || c == '\U{2028}' || c == '\U{2029}'
  }

  /** s[lo..hi] is something `.*` can match. */
  predicate NoTerminatorIn(s: string, lo: int, hi: int)
    requires 0 <= lo <= hi <= |s|
  {
    forall k :: lo <= k < hi ==> !IsLineTerminator(s[k])
  }

  /** `\w` */
  predicate IsWordChar(c: char) {
    'a' <= c <= 'z' || 'A' <= c <= 'Z' || '0' <= c <= '9' || c == '_'
  }

  predicate StartsWith(s: string, prefix: string) {
    |prefix| <= |s| && s[..|prefix|] == prefix
  }

  predicate OccursAt(s: string, pat: string, i: int) {
    0 <= i && i + |pat| <= |s| && s[i..i + |pat|] == pat
  }

  /** `s.contains(pat)` (the pre-ES2015 name of `includes`), and `pat.test(s)`
      for a pattern that is a plain string. */
  predicate HasSubstring(s: string, pat: string) {
    exists i :: 0 <= i <= |s| - |pat| && OccursAt(s, pat, i)
  }

  /** The first occurrence of `pat` in `s` at or after `from`. */
  function IndexOf(s: string, pat: string, from: nat): (r: Option<nat>)
    requires |pat| > 0
    ensures r.Some? ==> from <= r.value && OccursAt(s, pat, r.value)
    ensures r.Some? ==> forall j :: from <= j < r.value ==> !OccursAt(s, pat, j)
    ensures r.None? ==> forall j :: from <= j ==> !OccursAt(s, pat, j)
    decreases |s| - from
  {
    if from + |pat| > |s| then None
    else if s[from..from + |pat|] == pat then Some(from)
    else IndexOf(s, pat, from + 1)
  }

  /** `s.split(sep)` for a separator that matches one fixed non-empty string:
      the pieces between successive leftmost occurrences. */
  function SplitOn(s: string, sep: string): (parts: seq<string>)
    requires |sep| > 0
    ensures |parts| >= 1
    ensures forall k :: 0 <= k < |parts| ==> !HasSubstring(parts[k], sep)
    decreases |s|
  {
    match IndexOf(s, sep, 0)
    case None => [s]
    case Some(i) =>
      var head := s[..i];
      assert !HasSubstring(head, sep) by {
        forall j | 0 <= j <= |head| - |sep| ensures !OccursAt(head, sep, j) {
          assert j < i && head[j..j + |sep|] == s[j..j + |sep|];
          assert !OccursAt(s, sep, j);
        }
      }
      [head] + SplitOn(s[i + |sep|..], sep)
  }

  /** The inverse of SplitOn. */
  function Join(parts: seq<string>, sep: string): string
    requires |parts| >= 1
  {
    if |parts| == 1 then parts[0] else parts[0] + sep + Join(parts[1..], sep)
  }

  /** Splitting loses nothing: joining the pieces with the separator gives the
      text back. */
  lemma {:induction false} JoinSplitOn(s: string, sep: string)
    requires |sep| > 0
    ensures Join(SplitOn(s, sep), sep) == s
    decreases |s|
  {
    var r := IndexOf(s, sep, 0);
    if r.Some? {
      var i := r.value;
      var head, tail := s[..i], s[i + |sep|..];
      assert Join(SplitOn(s, sep), sep) == head + sep + Join(SplitOn(tail, sep), sep) by {
        var parts := SplitOn(s, sep);
        assert parts == [head] + SplitOn(tail, sep);
        assert parts[1..] == SplitOn(tail, sep);
      }
      JoinSplitOn(tail, sep);
      assert s == head + sep + tail by {
        CutInThree(s, i, i + |sep|);
      }
    }
  }

  lemma Associative<T>(x: seq<T>, y: seq<T>, z: seq<T>)
    ensures x + (y + z) == (x + y) + z
  {
  }

  /** A sequence is its three slices at i and j, put back together. */
  lemma CutInThree<T>(s: seq<T>, i: int, j: int)
    requires 0 <= i <= j <= |s|
    ensures s == s[..i] + s[i..j] + s[j..]
  {
  }

  /** With a separator present, the pieces are the text before its first
      occurrence and the pieces of the text after it. */
  lemma SplitAtFirst(s: string, sep: string)
    requires |sep| > 0 && HasSubstring(s, sep)
    ensures IndexOf(s, sep, 0).Some?
    ensures var i := IndexOf(s, sep, 0).value;
      && SplitOn(s, sep) == [s[..i]] + SplitOn(s[i + |sep|..], sep)
      && s == s[..i] + sep + s[i + |sep|..]
  {
    var k :| 0 <= k <= |s| - |sep| && OccursAt(s, sep, k);
    var i := IndexOf(s, sep, 0).value;
    CutInThree(s, i, i + |sep|);
  }

  /** The first piece ends at the first occurrence of the separator. */
  lemma FirstPieceOfSplit(s: string, sep: string)
    requires |sep| > 0
    ensures var parts := SplitOn(s, sep);
      StartsWith(s, parts[0]) &&
      (|parts| == 1 <==> !HasSubstring(s, sep)) &&
      (|parts| > 1 ==> OccursAt(s, sep, |parts[0]|)) &&
      (forall j :: 0 <= j < |parts[0]| ==> !OccursAt(s, sep, j))
  {
    match IndexOf(s, sep, 0)
    case None =>
    case Some(i) =>
  }

  predicate IsNewline(c: char) {
    c == '\n' || c == '\r'
  }

  predicate NoNewline(s: string) {
    forall k :: 0 <= k < |s| ==> !IsNewline(s[k])
  }

  /** The first newline at or after `from`, or |s|. */
  function NextNewline(s: string, from: nat): (i: nat)
    requires from <= |s|
    ensures from <= i <= |s| && NoNewline(s[from..i])
    ensures i < |s| ==> IsNewline(s[i])
    decreases |s| - from
  {
    if from == |s| || IsNewline(s[from]) then from else NextNewline(s, from + 1)
  }

  /** The end of the run of newlines that starts at `from`. */
  function SkipNewlines(s: string, from: nat): (j: nat)
    requires from <= |s|
    ensures from <= j <= |s| && (j < |s| ==> !IsNewline(s[j]))
    ensures forall k :: from <= k < j ==> IsNewline(s[k])
    decreases |s| - from
  {
    if from < |s| && IsNewline(s[from]) then SkipNewlines(s, from + 1) else from
  }

  /** `s.split(/[\n\r]+/)`: the pieces between maximal runs of CR/LF. */
  function SplitLines(s: string): (lines: seq<string>)
    ensures |lines| >= 1
    ensures forall k :: 0 <= k < |lines| ==> NoNewline(lines[k])
    decreases |s|
  {
    var i := NextNewline(s, 0);
    if i == |s| then
      assert s[0..i] == s;
      [s]
    else
      assert s[0..i] == s[..i];
      [s[..i]] + SplitLines(s[SkipNewlines(s, i)..])
  }

  function Concat(parts: seq<string>): string {
    if parts == [] then "" else parts[0] + Concat(parts[1..])
  }

  /** The text with its CR and LF characters taken out. */
  function WithoutNewlines(s: string): string {
    if s == "" then "" else (if IsNewline(s[0]) then "" else [s[0]]) + WithoutNewlines(s[1..])
  }

  lemma {:induction false} WithoutNewlinesAppend(a: string, b: string)
    ensures WithoutNewlines(a + b) == WithoutNewlines(a) + WithoutNewlines(b)
    decreases |a|
  {
    if a == "" {
      assert a + b == b;
    } else {
      var h := if IsNewline(a[0]) then "" else [a[0]];
      assert (a + b)[0] == a[0] && (a + b)[1..] == a[1..] + b;
      assert WithoutNewlines(a + b) == h + WithoutNewlines(a[1..] + b);
      WithoutNewlinesAppend(a[1..], b);
      Associative(h, WithoutNewlines(a[1..]), WithoutNewlines(b));
    }
  }

  lemma {:induction false} WithoutNewlinesOfPlain(s: string)
    requires NoNewline(s)
    ensures WithoutNewlines(s) == s
    decreases |s|
  {
    if s != "" {
      WithoutNewlinesOfPlain(s[1..]);
    }
  }

  lemma {:induction false} WithoutNewlinesOfBreaks(s: string)
    requires forall k :: 0 <= k < |s| ==> IsNewline(s[k])
    ensures WithoutNewlines(s) == ""
    decreases |s|
  {
    if s != "" {
      WithoutNewlinesOfBreaks(s[1..]);
    }
  }

  /** Splitting into lines keeps every character that is not CR or LF, in
      order, and drops only those. */
  lemma {:induction false} SplitLinesKeepsText(s: string)
    ensures Concat(SplitLines(s)) == WithoutNewlines(s)
    decreases |s|
  {
    var i := NextNewline(s, 0);
    if i == |s| {
      assert s[0..i] == s;
      WithoutNewlinesOfPlain(s);
    } else {
      var tail := s[SkipNewlines(s, i)..];
      SplitLinesStep(s);
      WithoutNewlinesStep(s);
      SplitLinesKeepsText(tail);
    }
  }

  /** With a newline in it, the lines of the text are the part before the
      first newline and the lines after the run of newlines there. */
  lemma SplitLinesStep(s: string)
    requires NextNewline(s, 0) < |s|
    ensures var i := NextNewline(s, 0);
      Concat(SplitLines(s)) == s[..i] + Concat(SplitLines(s[SkipNewlines(s, i)..]))
  {
    var i := NextNewline(s, 0);
    var tail := s[SkipNewlines(s, i)..];
    assert s[0..i] == s[..i];
    var lines := SplitLines(s);
    assert lines == [s[..i]] + SplitLines(tail);
    assert lines[1..] == SplitLines(tail);
  }

  /** Taking out newlines skips the run of newlines after the first line. */
  lemma WithoutNewlinesStep(s: string)
    requires NextNewline(s, 0) < |s|
    ensures var i := NextNewline(s, 0);
      WithoutNewlines(s) == s[..i] + WithoutNewlines(s[SkipNewlines(s, i)..])
  {
    var i := NextNewline(s, 0);
    var j := SkipNewlines(s, i);
    FirstLineIsPlain(s);
    BreakRunVanishes(s, i);
    WithoutNewlinesOfThree(s, i, j);
    assert s[..i] + "" == s[..i];
  }

  lemma FirstLineIsPlain(s: string)
    ensures WithoutNewlines(s[..NextNewline(s, 0)]) == s[..NextNewline(s, 0)]
  {
    var i := NextNewline(s, 0);
    assert s[0..i] == s[..i];
    WithoutNewlinesOfPlain(s[..i]);
  }

  lemma BreakRunVanishes(s: string, i: nat)
    requires i <= |s|
    ensures WithoutNewlines(s[i..SkipNewlines(s, i)]) == ""
  {
    var breaks := s[i..SkipNewlines(s, i)];
    forall k | 0 <= k < |breaks| ensures IsNewline(breaks[k]) {
      assert breaks[k] == s[i + k];
    }
    WithoutNewlinesOfBreaks(breaks);
  }

  /** Taking out newlines works slice by slice. */
  lemma WithoutNewlinesOfThree(s: string, i: nat, j: nat)
    requires i <= j <= |s|
    ensures WithoutNewlines(s) == WithoutNewlines(s[..i]) + WithoutNewlines(s[i..j]) + WithoutNewlines(s[j..])
  {
    var head, breaks, tail := s[..i], s[i..j], s[j..];
    CutInThree(s, i, j);
    Associative(head, breaks, tail);
    WithoutNewlinesAppend(head, breaks + tail);
    WithoutNewlinesAppend(breaks, tail);
    Associative(WithoutNewlines(head), WithoutNewlines(breaks), WithoutNewlines(tail));
  }

  predicate AllNewlines(s: string) {
    forall k :: 0 <= k < |s| ==> IsNewline(s[k])
  }

  /** The runs of CR and LF the text is split at, in order. */
  function BreakRuns(s: string): (runs: seq<string>)
    ensures forall k :: 0 <= k < |runs| ==> runs[k] != "" && AllNewlines(runs[k])
    decreases |s|
  {
    var i := NextNewline(s, 0);
    if i == |s| then []
    else
      var j := SkipNewlines(s, i);
      assert AllNewlines(s[i..j]) by {
        forall k | 0 <= k < j - i ensures IsNewline(s[i..j][k]) {
          assert s[i..j][k] == s[i + k];
        }
      }
      [s[i..j]] + BreakRuns(s[j..])
  }

  /** The lines with the runs put back between them: line, run, line, ...,
      line. */
  function Interleave(lines: seq<string>, runs: seq<string>): string
    requires |lines| == |runs| + 1
  {
    if runs == [] then lines[0] else lines[0] + runs[0] + Interleave(lines[1..], runs[1..])
  }

  /** The text breaks into lines at each maximal run of CR and LF and nowhere
      else: it is its lines with those runs put back between them, one run
      between two lines, and a line with lines on both sides is never empty. */
  lemma {:induction false} SplitLinesRebuild(s: string)
    ensures |BreakRuns(s)| + 1 == |SplitLines(s)|
    ensures Interleave(SplitLines(s), BreakRuns(s)) == s
    ensures forall k :: 0 < k < |SplitLines(s)| - 1 ==> SplitLines(s)[k] != ""
    decreases |s|
  {
    var i := NextNewline(s, 0);
    if i == |s| {
      assert s[0..i] == s;
    } else {
      var j := SkipNewlines(s, i);
      var tail := s[j..];
      SplitLinesRebuild(tail);
      var lines, runs := SplitLines(s), BreakRuns(s);
      assert s[0..i] == s[..i];
      assert lines == [s[..i]] + SplitLines(tail);
      assert lines[1..] == SplitLines(tail) && runs[1..] == BreakRuns(tail);
      assert Interleave(lines, runs) == s[..i] + s[i..j] + tail by {
        CutInThree(s, i, j);
      }
      CutInThree(s, i, j);
      if j < |s| {
        FirstLineNotEmpty(tail);
      } else {
        assert tail == "";
        assert NextNewline(tail, 0) == 0;
      }
      forall k | 0 < k < |lines| - 1 ensures lines[k] != "" {
        assert lines[k] == SplitLines(tail)[k - 1];
      }
    }
  }

  /** A text that starts with neither CR nor LF has a non-empty first line. */
  lemma FirstLineNotEmpty(t: string)
    requires t != "" && !IsNewline(t[0])
    ensures SplitLines(t)[0] != ""
  {
    var i := NextNewline(t, 0);
    assert i > 0;
    if i < |t| {
      assert t[0..i] == t[..i];
      assert SplitLines(t)[0] == t[..i];
    }
  }

  /** The length of the run of word characters that starts `s`. */
  function WordRun(s: string, from: nat): (n: nat)
    requires from <= |s|
    ensures from <= n <= |s| && (n < |s| ==> !IsWordChar(s[n]))
    ensures forall k :: from <= k < n ==> IsWordChar(s[k])
    decreases |s| - from
  {
    if from < |s| && IsWordChar(s[from]) then WordRun(s, from + 1) else from
  }

  /** `line.replace(/^\w+:/, '')`: strips a leading run of word characters and
      the colon after it, if there is such a prefix, and nothing otherwise. */
  function StripFormatPrefix(line: string): (r: string)
    ensures |r| <= |line| && r == line[|line| - |r|..]
    ensures var n := |line| - |r|;
      n > 0 ==> n >= 2 && line[n - 1] == ':' && forall k :: 0 <= k < n - 1 ==> IsWordChar(line[k])
    ensures r == line ==>
      forall m :: 0 < m < |line| && line[m] == ':' ==> exists k :: 0 <= k < m && !IsWordChar(line[k])
  {
    var n := WordRun(line, 0);
    if 0 < n < |line| && line[n] == ':' then line[n + 1..] else line
  }
}
