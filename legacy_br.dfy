/** `convertLegacyBR` (js/main.js:406-420): every line break written in the
    form older chaika versions accepted, `/<br(?:\\s| )?[\+\*]?\\?\/>/g`, is
    rewritten to `<br>`. In that pattern `\\s` is a backslash followed by the
    letter s, not white space. */
module LegacyBR {
  import opened Records
  import opened Text

  /** What the legacy form allows between "<br" and "/>": an optional
      backslash-s or space, then an optional `+` or `*`, then an optional
      backslash. */
  const LegacyMiddles: set<string> := {
    "", "+", "*", "\\", "+\\", "*\\",
    "\\s", "\\s+", "\\s*", "\\s\\", "\\s+\\", "\\s*\\",
    " ", " +", " *", " \\", " +\\", " *\\"
  }

  /** t is one of the strings the legacy pattern matches. */
  predicate IsLegacyBR(t: string) {
    5 <= |t| && t[0] == '<' && t[1] == 'b' && t[2] == 'r' && t[3..|t| - 2] in LegacyMiddles &&
    t[|t| - 2] == '/' && t[|t| - 1] == '>'
  }

  /** Some substring of t is a legacy line break. */
  ghost predicate ContainsLegacyBR(t: string) {
    exists i, k :: 0 <= i <= k <= |t| && IsLegacyBR(t[i..k])
  }

  /** Past the optional `\\s` or space after "<br". */
  function SkipSpace(s: string): nat
    requires 5 <= |s|
  {
    if s[3] == '\\' && s[4] == 's' then 5 else if s[3] == ' ' then 4 else 3
  }

  /** Past the optional `+` or `*` at a. */
  function SkipSign(s: string, a: nat): nat
    requires a <= |s|
  {
    if a < |s| && (s[a] == '+' || s[a] == '*') then a + 1 else a
  }

  /** Past the optional backslash at b. */
  function SkipBackslash(s: string, b: nat): nat
    requires b <= |s|
  {
    if b < |s| && s[b] == '\\' then b + 1 else b
  }

  /** The length of the legacy line break that starts `s`, or 0 when none does
      (MatchLengthMeaning says why). */
  function MatchLength(s: string): nat
  {
    if |s| < 5 || s[0] != '<' || s[1] != 'b' || s[2] != 'r' then 0
    else
      var c := SkipBackslash(s, SkipSign(s, SkipSpace(s)));
      if c + 2 <= |s| && s[c] == '/' && s[c + 1] == '>' then c + 2 else 0
  }

  lemma MiddlesCombine(x: string, y: string, z: string)
    requires x in {"", "\\s", " "} && y in {"", "+", "*"} && z in {"", "\\"}
    ensures x + y + z in LegacyMiddles
  {
    if x == "" {
      assert x + y + z == y + z;
      if y == "" { assert y + z == z; }
      else { assert y + z == if z == "" then y else [y[0], '\\']; }
    } else if x == " " {
      if y == "" { assert x + y + z == if z == "" then " " else " \\"; }
      else { assert x + y + z == if z == "" then [' ', y[0]] else [' ', y[0], '\\']; }
    } else {
      if y == "" { assert x + y + z == if z == "" then "\\s" else "\\s\\"; }
      else { assert x + y + z == if z == "" then ['\\', 's', y[0]] else ['\\', 's', y[0], '\\']; }
    }
  }

  lemma SpacePart(s: string)
    requires 5 <= |s|
    ensures s[3..SkipSpace(s)] in {"", "\\s", " "}
  {
    var a := SkipSpace(s);
    if a == 5 { assert s[3..a] == [s[3], s[4]]; }
    else if a == 4 { assert s[3..a] == [s[3]]; }
    else { assert s[3..a] == ""; }
  }

  lemma SignPart(s: string, a: nat)
    requires a <= |s|
    ensures s[a..SkipSign(s, a)] in {"", "+", "*"}
  {
    var b := SkipSign(s, a);
    if b == a + 1 { assert s[a..b] == [s[a]]; } else { assert s[a..b] == ""; }
  }

  lemma BackslashPart(s: string, b: nat)
    requires b <= |s|
    ensures s[b..SkipBackslash(s, b)] in {"", "\\"}
  {
    var c := SkipBackslash(s, b);
    if c == b + 1 { assert s[b..c] == [s[b]]; } else { assert s[b..c] == ""; }
  }

  /** What the scan skips between "<br" and "/>" is one of the middles. */
  lemma SkippedMiddle(s: string)
    requires 5 <= |s|
    ensures var c := SkipBackslash(s, SkipSign(s, SkipSpace(s))); s[3..c] in LegacyMiddles
  {
    var a := SkipSpace(s);
    var b := SkipSign(s, a);
    var c := SkipBackslash(s, b);
    SpacePart(s);
    SignPart(s, a);
    BackslashPart(s, b);
    assert s[3..c] == s[3..a] + s[a..b] + s[b..c];
    MiddlesCombine(s[3..a], s[a..b], s[b..c]);
  }

  /** What the scan finds is a legacy line break. */
  lemma MatchLengthSound(s: string)
    requires MatchLength(s) > 0
    ensures 5 <= MatchLength(s) <= |s| && IsLegacyBR(s[..MatchLength(s)])
  {
    var c := SkipBackslash(s, SkipSign(s, SkipSpace(s)));
    var n := MatchLength(s);
    assert n == c + 2 && s[c] == '/' && s[c + 1] == '>';
    var t := s[..n];
    assert t[3..n - 2] in LegacyMiddles by {
      SkippedMiddle(s);
      assert t[3..n - 2] == s[3..c];
    }
  }

  /** The scan finds a legacy line break exactly when the text starts with one,
      and then it finds that one: the pattern has no two matches at one
      position, so this is the match the regular expression finds there. */
  lemma MatchLengthMeaning(s: string)
    ensures var n := MatchLength(s); n == 0 || (5 <= n <= |s| && IsLegacyBR(s[..n]))
    ensures forall k :: 0 <= k <= |s| && IsLegacyBR(s[..k]) ==> MatchLength(s) == k
  {
    if MatchLength(s) > 0 {
      MatchLengthSound(s);
    }
    forall k | 0 <= k <= |s| && IsLegacyBR(s[..k]) ensures MatchLength(s) == k {
      MatchLengthComplete(s, k);
    }
  }

  lemma MatchLengthComplete(s: string, k: nat)
    requires k <= |s| && IsLegacyBR(s[..k])
    ensures MatchLength(s) == k
  {
    var t := s[..k];
    var m := t[3..k - 2];
    assert s[k - 2] == t[|t| - 2..][0] && s[k - 1] == t[|t| - 2..][1];
    assert forall j :: 0 <= j < |m| ==> s[3 + j] == m[j];
    if m == "" {
    } else if m == "+" || m == "*" || m == "\\" || m == " " {
      assert s[3] == m[0];
    } else if m == "+\\" || m == "*\\" || m == "\\s" || m == " +" || m == " *" || m == " \\" {
      assert s[3] == m[0] && s[4] == m[1];
    } else if m == "\\s+" || m == "\\s*" || m == "\\s\\" || m == " +\\" || m == " *\\" {
      assert s[3] == m[0] && s[4] == m[1] && s[5] == m[2];
    } else {
      assert m == "\\s+\\" || m == "\\s*\\";
      assert s[3] == m[0] && s[4] == m[1] && s[5] == m[2] && s[6] == m[3];
    }
  }

  /** A match starts with '<'. */
  lemma MatchStartsWithAngle(s: string)
    requires MatchLength(s) > 0
    ensures s[0] == '<'
  {
  }

  /** The global replace: scan left to right, replace each match by `<br>` and
      go on after it, copy every other character. */
  function ConvertLegacyBR(s: string): (r: string)
    ensures |r| <= |s|
    decreases |s|
  {
    if s == "" then ""
    else
      var n := MatchLength(s);
      if n > 0 then "<br>" + ConvertLegacyBR(s[n..]) else [s[0]] + ConvertLegacyBR(s[1..])
  }

  /** The rewrite at the first legacy line break: the text before it is
      copied, the break becomes `<br>`, and the rest of the text is rewritten
      in turn. With ConvertKeepsCleanText, this fixes the result for every
      text. */
  lemma ConvertAtFirstMatch(s: string, i: nat)
    requires i < |s| && MatchLength(s[i..]) > 0
    requires forall k :: 0 <= k < i ==> MatchLength(s[k..]) == 0
    ensures var n := MatchLength(s[i..]);
      i + n <= |s| && ConvertLegacyBR(s) == s[..i] + "<br>" + ConvertLegacyBR(s[i + n..])
  {
    var n := MatchLength(s[i..]);
    ConvertUnmatchedPrefix(s, i);
    ConvertOfMatched(s[i..]);
    assert s[i..][n..] == s[i + n..];
    Associative(s[..i], "<br>", ConvertLegacyBR(s[i + n..]));
  }

  /** Text in which no legacy line break starts before i is copied up to i. */
  lemma {:induction false} ConvertUnmatchedPrefix(s: string, i: nat)
    requires i <= |s|
    requires forall k :: 0 <= k < i ==> MatchLength(s[k..]) == 0
    ensures ConvertLegacyBR(s) == s[..i] + ConvertLegacyBR(s[i..])
    decreases i
  {
    if i == 0 {
      assert s[..i] == "" && s[i..] == s;
    } else {
      var t := s[1..];
      var y := ConvertLegacyBR(s[i..]);
      UnmatchedTail(s, i);
      ConvertOfUnmatched(s);
      ConvertUnmatchedPrefix(t, i - 1);
      assert t[i - 1..] == s[i..];
      assert s[..i] == [s[0]] + t[..i - 1];
      Associative([s[0]], t[..i - 1], y);
    }
  }

  /** Dropping the first character keeps "no match before i", one position
      earlier. */
  lemma UnmatchedTail(s: string, i: nat)
    requires 0 < i <= |s|
    requires forall k :: 0 <= k < i ==> MatchLength(s[k..]) == 0
    ensures MatchLength(s) == 0
    ensures forall k :: 0 <= k < i - 1 ==> MatchLength(s[1..][k..]) == 0
  {
    assert s[0..] == s;
    forall k | 0 <= k < i - 1 ensures MatchLength(s[1..][k..]) == 0 {
      assert s[1..][k..] == s[k + 1..];
    }
  }

  /** A legacy line break at the start becomes `<br>`. */
  lemma ConvertOfMatched(t: string)
    requires MatchLength(t) > 0
    ensures MatchLength(t) <= |t| && ConvertLegacyBR(t) == "<br>" + ConvertLegacyBR(t[MatchLength(t)..])
  {
  }

  /** A first character that starts no legacy line break is copied. */
  lemma ConvertOfUnmatched(t: string)
    requires t != "" && MatchLength(t) == 0
    ensures ConvertLegacyBR(t) == [t[0]] + ConvertLegacyBR(t[1..])
  {
  }

  /** No position of t starts a legacy line break. */
  ghost predicate NoMatchIn(t: string) {
    forall i :: 0 <= i <= |t| ==> MatchLength(t[i..]) == 0
  }

  lemma NoMatchInIsClean(t: string)
    ensures NoMatchIn(t) <==> !ContainsLegacyBR(t)
  {
    if NoMatchIn(t) {
      forall i, k | 0 <= i <= k <= |t| ensures !IsLegacyBR(t[i..k]) {
        assert t[i..][..k - i] == t[i..k];
        MatchLengthMeaning(t[i..]);
        assert MatchLength(t[i..]) == 0;
      }
    } else {
      var i :| 0 <= i <= |t| && MatchLength(t[i..]) != 0;
      var n := MatchLength(t[i..]);
      MatchLengthMeaning(t[i..]);
      assert t[i..][..n] == t[i..i + n];
    }
  }

  /** Inside a legacy line break only its first character is '<'. */
  lemma LegacyBRHasOneAngle(t: string, q: int)
    requires IsLegacyBR(t) && 1 <= q < |t|
    ensures t[q] != '<'
  {
    var m := t[3..|t| - 2];
    if q >= 3 && q < |t| - 2 {
      assert t[q] == m[q - 3];
    }
  }

  /** A match depends on the characters it covers only. */
  lemma MatchLengthOfSamePrefix(s: string, t: string, n: nat)
    requires 0 < n <= |s| && n <= |t| && s[..n] == t[..n] && MatchLength(s) == n
    ensures MatchLength(t) == n
  {
    MatchLengthMeaning(s);
    MatchLengthComplete(t, n);
  }

  /** A first character other than '<' is copied. */
  lemma ConvertOfPlainChar(t: string)
    requires t != "" && t[0] != '<'
    ensures ConvertLegacyBR(t) == [t[0]] + ConvertLegacyBR(t[1..])
  {
    if MatchLength(t) > 0 { MatchStartsWithAngle(t); }
  }

  /** Text before the first '<' is copied unchanged. */
  lemma {:induction false} ConvertKeepsPlainPrefix(t: string, p: nat)
    requires p <= |t| && forall q :: 0 <= q < p ==> t[q] != '<'
    ensures ConvertLegacyBR(t) == t[..p] + ConvertLegacyBR(t[p..])
    decreases p
  {
    if p == 0 {
      assert t[..p] == "" && t[p..] == t;
    } else {
      var t1 := t[1..];
      var y := ConvertLegacyBR(t[p..]);
      ConvertOfPlainChar(t);
      assert ConvertLegacyBR(t1) == t1[..p - 1] + y by {
        assert forall q :: 0 <= q < p - 1 ==> t1[q] == t[q + 1];
        ConvertKeepsPlainPrefix(t1, p - 1);
        assert t1[p - 1..] == t[p..];
      }
      assert t[..p] == [t[0]] + t1[..p - 1];
      Associative([t[0]], t1[..p - 1], y);
    }
  }

  /** Text that starts with '<' converts to text that starts with '<'. */
  lemma ConvertOfAngle(t: string)
    requires t != "" && t[0] == '<'
    ensures ConvertLegacyBR(t) != "" && ConvertLegacyBR(t)[0] == '<'
  {
  }

  /** The index of the first '<' in t, or |t|. */
  function FirstAngle(t: string): (p: nat)
    ensures p <= |t| && (p < |t| ==> t[p] == '<')
    ensures forall q :: 0 <= q < p ==> t[q] != '<'
  {
    if t == "" || t[0] == '<' then 0 else 1 + FirstAngle(t[1..])
  }

  /** A match ends before any later '<'. */
  lemma MatchStopsBeforeAngle(u: string, q: nat)
    requires 0 < q < |u| && u[q] == '<' && MatchLength(u) > 0
    ensures MatchLength(u) <= q
  {
    var m := MatchLength(u);
    MatchLengthMeaning(u);
    if q < m {
      assert u[..m][q] == u[q];
      LegacyBRHasOneAngle(u[..m], q);
    }
  }

  /** A prefix of text that starts no match, followed by nothing more or by a
      '<', still starts no match: a match would end before that '<' and so
      lie inside the prefix. */
  lemma NoMatchBeforeAngle(s: string, p: nat, y: string)
    requires MatchLength(s) == 0 && p < |s|
    requires if y == "" then p + 1 == |s| else y[0] == '<'
    ensures MatchLength(s[..p + 1] + y) == 0
  {
    var u := s[..p + 1] + y;
    var m := MatchLength(u);
    if m > 0 {
      MatchLengthMeaning(u);
      assert m <= p + 1 by {
        if y != "" {
          assert u[p + 1] == '<';
          MatchStopsBeforeAngle(u, p + 1);
        }
      }
      assert u[..m] == s[..m];
      MatchLengthOfSamePrefix(u, s, m);
    }
  }

  /** From the first '<' on, the converted text is empty only when there is
      no '<', and otherwise starts with '<'. */
  lemma ConvertFromFirstAngle(t: string)
    ensures var p := FirstAngle(t); var y := ConvertLegacyBR(t[p..]);
      if y == "" then p == |t| else y[0] == '<'
  {
    var p := FirstAngle(t);
    if p < |t| {
      ConvertOfAngle(t[p..]);
    } else {
      assert t[p..] == "";
    }
  }

  /** A '<' that does not start a match still does not start one once the text
      after it is converted: the conversion only changes text from the next
      '<' on, and no match reaches that far. */
  lemma NoMatchAfterCopiedAngle(s: string)
    requires s != "" && s[0] == '<' && MatchLength(s) == 0
    ensures MatchLength([s[0]] + ConvertLegacyBR(s[1..])) == 0
  {
    var t := s[1..];
    var p := FirstAngle(t);
    var y := ConvertLegacyBR(t[p..]);
    ConvertFromFirstAngle(t);
    NoMatchBeforeAngle(s, p, y);
    assert [s[0]] + ConvertLegacyBR(t) == s[..p + 1] + y by {
      ConvertKeepsPlainPrefix(t, p);
      assert [s[0]] + t[..p] == s[..p + 1];
      Associative([s[0]], t[..p], y);
    }
  }

  /** Every legacy line break is gone after the conversion. */
  lemma {:induction false} ConvertLeavesNoMatch(s: string)
    ensures NoMatchIn(ConvertLegacyBR(s))
    decreases |s|
  {
    if s != "" {
      var n := MatchLength(s);
      if n > 0 {
        ConvertLeavesNoMatch(s[n..]);
        NoMatchAfterBR(ConvertLegacyBR(s[n..]));
      } else {
        ConvertLeavesNoMatch(s[1..]);
        NoMatchAfterCopy(s);
      }
    }
  }

  /** Putting `<br>` in front of clean text gives clean text. */
  lemma NoMatchAfterBR(rest: string)
    requires NoMatchIn(rest)
    ensures NoMatchIn("<br>" + rest)
  {
    var r := "<br>" + rest;
    forall i | 0 <= i <= |r| ensures MatchLength(r[i..]) == 0 {
      if i >= 4 {
        assert r[i..] == rest[i - 4..];
      } else if i == 0 {
        assert r[3] == '>';
      } else {
        assert r[i..][0] != '<';
      }
    }
  }

  /** A character that starts no match, in front of clean text, gives clean
      text. */
  lemma NoMatchAfterChar(c: char, rest: string)
    requires NoMatchIn(rest) && MatchLength([c] + rest) == 0
    ensures NoMatchIn([c] + rest)
  {
    var r := [c] + rest;
    forall i | 0 <= i <= |r| ensures MatchLength(r[i..]) == 0 {
      if i >= 1 {
        assert r[i..] == rest[i - 1..];
      } else {
        assert r[i..] == r;
      }
    }
  }

  /** Copying a character that starts no match in front of the clean
      conversion of the rest gives clean text. */
  lemma NoMatchAfterCopy(s: string)
    requires s != "" && MatchLength(s) == 0 && NoMatchIn(ConvertLegacyBR(s[1..]))
    ensures NoMatchIn([s[0]] + ConvertLegacyBR(s[1..]))
  {
    var rest := ConvertLegacyBR(s[1..]);
    if s[0] == '<' {
      NoMatchAfterCopiedAngle(s);
    } else {
      assert ([s[0]] + rest)[0] != '<';
    }
    NoMatchAfterChar(s[0], rest);
  }

  /** Text with no legacy line break is left as it is. */
  lemma {:induction false} ConvertKeepsCleanText(s: string)
    requires NoMatchIn(s)
    ensures ConvertLegacyBR(s) == s
    decreases |s|
  {
    if s != "" {
      assert MatchLength(s[0..]) == 0;
      assert s[0..] == s;
      assert NoMatchIn(s[1..]) by {
        forall i | 0 <= i <= |s[1..]| ensures MatchLength(s[1..][i..]) == 0 {
          assert s[1..][i..] == s[i + 1..];
        }
      }
      ConvertKeepsCleanText(s[1..]);
    }
  }

  /** No substring of the result is a legacy line break. */
  lemma ConvertRemovesLegacyForms(s: string)
    ensures !ContainsLegacyBR(ConvertLegacyBR(s))
  {
    ConvertLeavesNoMatch(s);
    NoMatchInIsClean(ConvertLegacyBR(s));
  }

  /** The conversion changes the text exactly when it holds a legacy line break. */
  lemma ConvertChangesIffLegacy(s: string)
    ensures ConvertLegacyBR(s) == s <==> !ContainsLegacyBR(s)
  {
    ConvertRemovesLegacyForms(s);
    NoMatchInIsClean(s);
    if !ContainsLegacyBR(s) {
      ConvertKeepsCleanText(s);
    }
  }

  /** Converting twice is converting once. */
  lemma ConvertIdempotent(s: string)
    ensures ConvertLegacyBR(ConvertLegacyBR(s)) == ConvertLegacyBR(s)
  {
    ConvertLeavesNoMatch(s);
    ConvertKeepsCleanText(ConvertLegacyBR(s));
  }

  /** `/(?:<br[^>]|\\r|\\n)/`: a `<br` not closed right away, or a backslash
      followed by r or n (a newline escaped as text). */
  predicate LooksMalformed(q: string) {
    exists i :: 0 <= i < |q| &&
      ((i + 4 <= |q| && q[i..i + 3] == "<br" && q[i + 3] != '>') ||
       (i + 2 <= |q| && q[i] == '\\' && (q[i + 1] == 'r' || q[i + 1] == 'n')))
  }

  /** The messages convertLegacyBR prints: an Info when it rewrote something,
      then a Warning when the result still looks like a broken line break. */
  function Diagnostics(legacy: string): (log: seq<Diagnostic>)
    ensures (exists d :: d in log && d.kind == LegacyBRRewritten) <==> ContainsLegacyBR(legacy)
    ensures (exists d :: d in log && d.kind == SuspiciousLineBreak) <==> LooksMalformed(ConvertLegacyBR(legacy))
    ensures forall d :: d in log ==>
      d == Diagnostic(Info, LegacyBRRewritten, legacy) ||
      d == Diagnostic(Warning, SuspiciousLineBreak, ConvertLegacyBR(legacy))
  {
    ConvertChangesIffLegacy(legacy);
    var query := ConvertLegacyBR(legacy);
    (if legacy != query then [Diagnostic(Info, LegacyBRRewritten, legacy)] else []) +
    (if LooksMalformed(query) then [Diagnostic(Warning, SuspiciousLineBreak, query)] else [])
  }

  /** The messages exactly, in order: the info message when the text held a
      legacy line break, then the warning when the result still looks broken. */
  lemma DiagnosticsInOrder(legacy: string)
    ensures Diagnostics(legacy) ==
      (if ContainsLegacyBR(legacy) then [Diagnostic(Info, LegacyBRRewritten, legacy)] else []) +
      (if LooksMalformed(ConvertLegacyBR(legacy))
       then [Diagnostic(Warning, SuspiciousLineBreak, ConvertLegacyBR(legacy))] else [])
  {
    ConvertChangesIffLegacy(legacy);
  }

}
