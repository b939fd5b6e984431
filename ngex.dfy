/** The NGex format (js/main.js:226-340): a `\w+:` prefix, then inline tags
    such as `<n>name</n>` or `<W>'word'</W>`. Each letter of a fixed tag list
    is looked up once, its first span is taken out of the line and turned into
    the record's highlight flag, its title, or one rule. */
module NGex {
  import opened Records
  import opened Text
  import LegacyBR

  /** The tags in the order they are looked up. */
  const Tags: seq<char> := ['!', '#', 'a', 'b', 'i', 'n', 't', 'u', 'w']

  /** `NGex.validate`: the line starts with `Ex:`, and then the `\w+:` prefix
      `convert` strips is exactly that. */
  predicate Validate(line: string): (b: bool)
    ensures b <==> |line| >= 3 && line[0] == 'E' && line[1] == 'x' && line[2] == ':'
    ensures b ==> StripFormatPrefix(line) == line[3..]
  {
    if StartsWith(line, "Ex:") then ExPrefixStripped(line); true else false
  }

  lemma ExPrefixStripped(line: string)
    requires StartsWith(line, "Ex:")
    ensures StripFormatPrefix(line) == line[3..]
  {
    assert line[..3] == "Ex:";
    assert line[0] == 'E' && line[1] == 'x' && line[2] == ':';
    assert WordRun(line, 2) == 2;
    assert WordRun(line, 1) == 2;
  }

  /** The letter `c` matches the tag letter under the `i` flag: the tag itself,
      or for a lower-case ASCII letter also its upper-case form. */
  predicate IsTagLetter(c: char, tag: char) {
    c == tag || ('a' <= tag <= 'z' && c as int == tag as int - 32)
  }

  /** `<x>` starts at i. */
  predicate OpensAt(s: string, tag: char, i: int) {
    0 <= i && i + 3 <= |s| && s[i] == '<' && IsTagLetter(s[i + 1], tag) && s[i + 2] == '>'
  }

  /** `</x>` starts at j. */
  predicate ClosesAt(s: string, tag: char, j: int) {
    0 <= j && j + 4 <= |s| && s[j] == '<' && s[j + 1] == '/' && IsTagLetter(s[j + 2], tag) && s[j + 3] == '>'
  }

  /** s[i..j + 4] is a match of `<(x)>(.*?)</x>`: an opening tag at i, content
      s[i + 3..j] without line terminators, a closing tag at j. */
  predicate SpanAt(s: string, tag: char, i: int, j: int) {
    OpensAt(s, tag, i) && i + 3 <= j && ClosesAt(s, tag, j) && NoTerminatorIn(s, i + 3, j)
  }

  /** Where a span opens and where its closing tag starts. */
  datatype TagMatch = TagMatch(start: nat, close: nat)

  /** The lazy `(.*?)`: the first closing tag at or after `from` that no line
      terminator separates from `from`. */
  function FindClose(s: string, tag: char, from: nat): (r: Option<nat>)
    requires from <= |s|
    ensures r.Some? ==> from <= r.value && ClosesAt(s, tag, r.value) && NoTerminatorIn(s, from, r.value)
    ensures r.Some? ==> forall j :: from <= j < r.value ==> !ClosesAt(s, tag, j)
    ensures r.None? ==> forall j :: from <= j && ClosesAt(s, tag, j) ==> !NoTerminatorIn(s, from, j)
    decreases |s| - from
  {
    if ClosesAt(s, tag, from) then Some(from)
    else if from == |s| || IsLineTerminator(s[from]) then None
    else FindClose(s, tag, from + 1)
  }

  /** The match a non-global `replace` acts on, searching from `i`: the
      leftmost opening that has a span, with its shortest span (see
      FindTagFromMeaning). */
  function FindTagFrom(s: string, tag: char, i: nat): (r: Option<TagMatch>)
    requires i <= |s|
    ensures r.Some? ==> i <= r.value.start && r.value.start + 3 <= r.value.close && r.value.close + 4 <= |s|
    decreases |s| - i
  {
    if i + 3 > |s| then None
    else if OpensAt(s, tag, i) then
      match FindClose(s, tag, i + 3)
      case Some(j) => Some(TagMatch(i, j))
      case None => FindTagFrom(s, tag, i + 1)
    else FindTagFrom(s, tag, i + 1)
  }

  /** The match found from `i` is a span, no span opens between `i` and it,
      its content holds no closing tag, and there is none only when no span
      opens at or after `i`. */
  lemma {:induction false} FindTagFromMeaning(s: string, tag: char, i: nat)
    requires i <= |s|
    ensures var r := FindTagFrom(s, tag, i);
      && (r.Some? ==> SpanAt(s, tag, r.value.start, r.value.close))
      && (r.Some? ==> forall j :: r.value.start + 3 <= j < r.value.close ==> !ClosesAt(s, tag, j))
      && (r.Some? ==> forall k, j :: i <= k < r.value.start ==> !SpanAt(s, tag, k, j))
      && (r.None? ==> forall k, j :: i <= k ==> !SpanAt(s, tag, k, j))
    decreases |s| - i
  {
    if i + 3 <= |s| {
      var close := if OpensAt(s, tag, i) then FindClose(s, tag, i + 3) else None;
      if close.None? {
        FindTagFromMeaning(s, tag, i + 1);
        forall j | !OpensAt(s, tag, i) ensures !SpanAt(s, tag, i, j) {}
      }
    }
  }

  /** The span `replace` acts on (see FindTagMeaning). */
  function FindTag(s: string, tag: char): (r: Option<TagMatch>)
    ensures r.Some? ==> r.value.start + 3 <= r.value.close && r.value.close + 4 <= |s|
  {
    FindTagFrom(s, tag, 0)
  }

  /** The span found is a match of the pattern, no span starts further left,
      and its content holds no closing tag; there is none exactly when the
      pattern does not match. */
  lemma FindTagMeaning(s: string, tag: char)
    ensures var r := FindTag(s, tag);
      && (r.Some? ==> SpanAt(s, tag, r.value.start, r.value.close))
      && (r.Some? ==> forall k, j :: k < r.value.start ==> !SpanAt(s, tag, k, j))
      && (r.Some? ==> forall j :: r.value.start + 3 <= j < r.value.close ==> !ClosesAt(s, tag, j))
      && (r.None? <==> forall k, j :: !SpanAt(s, tag, k, j))
  {
    FindTagFromMeaning(s, tag, 0);
    var r := FindTag(s, tag);
    if r.Some? {
      assert !forall k, j :: !SpanAt(s, tag, k, j) by {
        assert SpanAt(s, tag, r.value.start, r.value.close);
      }
    }
  }

  /** Those properties pin the match down: a span with no span to its left
      and no closing tag inside is the one found. */
  lemma FindTagUnique(s: string, tag: char, i: int, j: int)
    requires SpanAt(s, tag, i, j)
    requires forall k, l :: k < i ==> !SpanAt(s, tag, k, l)
    requires forall l :: i + 3 <= l < j ==> !ClosesAt(s, tag, l)
    ensures FindTag(s, tag) == Some(TagMatch(i, j))
  {
    FindTagMeaning(s, tag);
    var m := FindTag(s, tag).value;
    assert m.start == i;
  }

  /** The span's content, `_content`. */
  function Content(s: string, m: TagMatch): string
    requires m.start + 3 <= m.close <= |s|
  {
    s[m.start + 3..m.close]
  }

  /** The line with the span replaced by ''. */
  function Remove(s: string, m: TagMatch): string
    requires m.start <= m.close && m.close + 4 <= |s|
  {
    s[..m.start] + s[m.close + 4..]
  }

  /** A regex literal `/body/flag` split into its parts. */
  datatype RegexLit = RegexLit(body: string, flag: string)

  /** `c` is `/`, body, `/`, then at most one of the flags g, i, m, y. */
  predicate IsRegexLiteral(c: string, body: string, flag: string) {
    c == "/" + body + "/" + flag && |flag| <= 1 && (forall ch :: ch in flag ==> ch in "gimy") &&
    NoTerminatorIn(body, 0, |body|)
  }

  /** `^\/(.*)\/([gimy]?)$` with a greedy body: the body ends at the last
      character when that is a slash, else one character earlier. */
  function RegexLiteral(c: string): (r: Option<RegexLit>)
    ensures r.Some? ==> IsRegexLiteral(c, r.value.body, r.value.flag)
    ensures r.None? ==> forall body, flag :: !IsRegexLiteral(c, body, flag)
    ensures r.Some? ==> forall body, flag :: IsRegexLiteral(c, body, flag) ==> |body| <= |r.value.body|
  {
    if |c| >= 2 && c[0] == '/' && c[|c| - 1] == '/' && NoTerminatorIn(c, 1, |c| - 1) then
      assert c == "/" + c[1..|c| - 1] + "/" + "";
      Some(RegexLit(c[1..|c| - 1], ""))
    else if |c| >= 3 && c[0] == '/' && c[|c| - 2] == '/' && c[|c| - 1] in "gimy" && NoTerminatorIn(c, 1, |c| - 2) then
      assert c == "/" + c[1..|c| - 2] + "/" + [c[|c| - 1]];
      var r := Some(RegexLit(c[1..|c| - 2], [c[|c| - 1]]));
      assert forall body, flag :: IsRegexLiteral(c, body, flag) ==> |body| <= |r.value.body| by {
        forall body, flag | IsRegexLiteral(c, body, flag) ensures |body| <= |c| - 3 {
          RegexLiteralParts(c, body, flag);
        }
      }
      r
    else
      assert forall body, flag :: !IsRegexLiteral(c, body, flag) by {
        forall body, flag | IsRegexLiteral(c, body, flag) ensures false {
          RegexLiteralParts(c, body, flag);
        }
      }
      None
  }

  /** Where the parts of a regex literal sit in it. */
  lemma RegexLiteralParts(c: string, body: string, flag: string)
    requires IsRegexLiteral(c, body, flag)
    ensures |c| == |body| + 2 + |flag| && c[0] == '/' && c[|body| + 1] == '/'
    ensures c[1..|body| + 1] == body && NoTerminatorIn(c, 1, |body| + 1)
    ensures flag != "" ==> c[|c| - 1] == flag[0] && flag[0] in "gimy"
  {
    assert c[1..|body| + 1] == body;
    assert flag != "" ==> flag[0] in flag;
  }

  /** `replace(/^'(.*)'$/, '"$1"')`: single quotes become double quotes. */
  function SingleToDouble(c: string): string {
    if |c| >= 2 && c[0] == '\'' && c[|c| - 1] == '\'' && NoTerminatorIn(c, 1, |c| - 1) then
      "\"" + c[1..|c| - 1] + "\""
    else c
  }

  /** `/^"(.*)"$/`: the text between the double quotes. */
  function DoubleQuoted(c: string): Option<string> {
    if |c| >= 2 && c[0] == '"' && c[|c| - 1] == '"' && NoTerminatorIn(c, 1, |c| - 1) then
      Some(c[1..|c| - 1])
    else None
  }

  /** `c` is `inner` between two equal quotes, single or double. */
  predicate IsQuoted(c: string, inner: string) {
    exists q :: q in "'\"" && c == [q] + inner + [q] && NoTerminatorIn(inner, 0, |inner|)
  }

  /** The two replaces together unwrap exactly the contents written between
      matching single or matching double quotes. */
  lemma {:induction false} QuotedMeaning(c: string)
    ensures DoubleQuoted(SingleToDouble(c)).Some? ==> IsQuoted(c, DoubleQuoted(SingleToDouble(c)).value)
    ensures forall inner :: IsQuoted(c, inner) ==> DoubleQuoted(SingleToDouble(c)) == Some(inner)
  {
    var d := SingleToDouble(c);
    if DoubleQuoted(d).Some? {
      var inner := DoubleQuoted(d).value;
      assert inner == c[1..|c| - 1];
      if c[0] == '\'' {
        assert c == ['\''] + inner + ['\''];
      } else {
        assert c == ['"'] + inner + ['"'];
      }
    }
    forall inner | IsQuoted(c, inner) ensures DoubleQuoted(d) == Some(inner) {
      var q :| q in "'\"" && c == [q] + inner + [q] && NoTerminatorIn(inner, 0, |inner|);
      assert c[1..|c| - 1] == inner;
      assert NoTerminatorIn(c, 1, |c| - 1) by {
        forall k | 1 <= k < |c| - 1 ensures !IsLineTerminator(c[k]) {
          assert c[k] == inner[k - 1];
        }
      }
      if q == '\'' {
        assert d == "\"" + inner + "\"";
        assert d[1..|d| - 1] == inner;
      }
    }
  }

  /** When the second replace finds no double quotes, the first one changed
      nothing either. */
  lemma UnquotedIsUnchanged(c: string)
    requires DoubleQuoted(SingleToDouble(c)).None?
    ensures SingleToDouble(c) == c
  {
  }

  /** The tags that make a rule. */
  predicate IsRuleTag(tag: char) {
    tag in "abintuw"
  }

  /** The field each rule tag looks at. */
  function TagTarget(tag: char): RuleTarget
    requires IsRuleTag(tag)
  {
    match tag
    case 'a' => Mail
    case 'b' => Be
    case 'i' => Id
    case 'n' => Name
    case 't' => Title
    case 'u' => ThreadUrl
    case 'w' => Msg
  }

  /** The position of a rule's field among the rule tags a, b, i, n, t, u, w;
      7 for the fields NGex never produces. */
  function TagRank(t: RuleTarget): nat {
    match t
    case Mail => 0
    case Be => 1
    case Id => 2
    case Name => 3
    case Title => 4
    case ThreadUrl => 5
    case Msg => 6
    case _ => 7
  }

  /** The rule tag at position i of the tag list has rank i - 2. */
  lemma RankOfTag(i: int)
    requires 2 <= i < |Tags|
    ensures IsRuleTag(Tags[i]) && TagRank(TagTarget(Tags[i])) == i - 2
  {
    if i == 2 {} else if i == 3 {} else if i == 4 {} else if i == 5 {}
    else if i == 6 {} else if i == 7 {} else {}
  }

  /** The text handed to convertLegacyBR: the regex body, the unquoted text,
      or the content itself. */
  function LiteralText(content: string): string {
    match RegexLiteral(content)
    case Some(lit) => lit.body
    case None =>
      match DoubleQuoted(SingleToDouble(content))
      case Some(inner) => inner
      case None => content
  }

  /** The rule a tag's span gives, opened with letter `opening` (see
      TagRuleMeaning). */
  function TagRule(tag: char, opening: char, content: string): (r: Rule)
    requires IsRuleTag(tag)
    ensures r.target == TagTarget(tag)
  {
    var invert := opening != tag;
    match RegexLiteral(content)
    case Some(lit) =>
      Rule(TagTarget(tag), true, Some('i' in lit.flag), LegacyBR.ConvertLegacyBR(lit.body),
           if invert then NotContain else Contains)
    case None =>
      match DoubleQuoted(SingleToDouble(content))
      case Some(inner) =>
        Rule(TagTarget(tag), false, Some(false), LegacyBR.ConvertLegacyBR(inner),
             if invert then NotEqual else Equals)
      case None =>
        Rule(TagTarget(tag), false, Some(true), LegacyBR.ConvertLegacyBR(content),
             if invert then NotContain else Contains)
  }

  /** The rule looks at the tag's field and searches for the literal text with
      legacy line breaks rewritten; it is a regex search exactly when the
      content is a regex literal, case-insensitive when its flag is `i`; it is
      an exact match exactly when the content is quoted, and then
      case-sensitive; a plain search ignores case; and it is negated exactly
      when the tag was opened with the other letter case. */
  lemma TagRuleMeaning(tag: char, opening: char, content: string)
    requires IsRuleTag(tag)
    ensures var r := TagRule(tag, opening, content);
      && r.target == TagTarget(tag)
      && r.query == LegacyBR.ConvertLegacyBR(LiteralText(content))
      && (r.regexp <==> exists body, flag :: IsRegexLiteral(content, body, flag))
      && (r.regexp ==> r.ignoreCase == Some('i' in RegexLiteral(content).value.flag))
      && ((r.condition == Equals || r.condition == NotEqual) <==>
           !r.regexp && exists inner :: IsQuoted(content, inner))
      && ((r.condition == Equals || r.condition == NotEqual) ==> r.ignoreCase == Some(false))
      && (!r.regexp && (r.condition == Contains || r.condition == NotContain) ==> r.ignoreCase == Some(true))
      && ((r.condition == NotContain || r.condition == NotEqual) <==> opening != tag)
  {
    QuotedMeaning(content);
  }

  /** Opening a rule tag with the other letter case gives the same rule with
      the condition negated: contains becomes notContain and equals becomes
      notEqual. */
  lemma InversionNegates(tag: char, opening: char, content: string)
    requires IsRuleTag(tag) && opening != tag
    ensures var r := TagRule(tag, tag, content);
      TagRule(tag, opening, content) == r.(condition := Negated(r.condition))
  {
  }

  /** The converter's state between two tags: `_line`, `ngex` and the console
      messages so far. */
  datatype ScanState = ScanState(rest: string, ngex: NGExRecord, log: seq<Diagnostic>)

  /** `Object.create(NGExData)` with target, match and rules set. */
  const Fresh: NGExRecord := Blank.(target := Post, matching := All, rules := [])

  /** One `replace` call of the loop: the first span of `tag` is taken out and
      acted on; with no span nothing changes. */
  function Step(st: ScanState, tag: char): (r: ScanState)
  {
    match FindTag(st.rest, tag)
    case None => st
    case Some(m) =>
      var content := Content(st.rest, m);
      var rest := Remove(st.rest, m);
      if tag == '!' then
        ScanState(rest, if content == "4" then st.ngex.(highlight := true) else st.ngex, st.log)
      else if tag == '#' then
        ScanState(rest, st.ngex.(title := content), st.log)
      else if IsRuleTag(tag) then
        ScanState(rest, st.ngex.(rules := st.ngex.rules + [TagRule(tag, st.rest[m.start + 1], content)]),
                  st.log + LegacyBR.Diagnostics(LiteralText(content)))
      else ScanState(rest, st.ngex, st.log)
  }

  /** Every message so far is one of convertLegacyBR's, and the rules come
      from distinct rule tags before position `bound` of the list, in list
      order. */
  predicate Invariant(st: ScanState, bound: int) {
    && st.ngex.target == Post && st.ngex.matching == All
    && st.ngex.chain.None? && st.ngex.hide.None? && st.ngex.expire.None? && st.ngex.autoNGID.None?
    && (forall d :: d in st.log ==> d.kind == LegacyBRRewritten || d.kind == SuspiciousLineBreak)
    && Ranked(st.ngex.rules, bound - 2)
  }

  /** The rule at position p has a rank of at least p and below `bound`, and
      ranks strictly grow along the list. */
  predicate Ranked(rules: seq<Rule>, bound: int) {
    && (forall p :: 0 <= p < |rules| ==> p <= TagRank(rules[p].target) < bound)
    && (forall p, q :: 0 <= p < q < |rules| ==> TagRank(rules[p].target) < TagRank(rules[q].target))
  }

  /** Rules with ranks that start at 0 and grow are at most as many as the
      bound on their ranks. */
  lemma RanksBoundLength(rules: seq<Rule>, bound: int)
    requires bound >= 0
    requires forall p :: 0 <= p < |rules| ==> p <= TagRank(rules[p].target) < bound
    ensures |rules| <= bound
  {
    if |rules| > 0 {
      var p := |rules| - 1;
      assert p <= TagRank(rules[p].target) < bound;
    }
  }

  /** A rule of rank `bound` goes after every rule ranked below it. */
  lemma RankedAppend(rules: seq<Rule>, r: Rule, bound: int)
    requires bound >= 0 && Ranked(rules, bound) && TagRank(r.target) == bound
    ensures Ranked(rules + [r], bound + 1)
  {
    var rules' := rules + [r];
    RanksBoundLength(rules, bound);
    forall p | 0 <= p < |rules'| ensures p <= TagRank(rules'[p].target) < bound + 1 {
      if p < |rules| { assert rules'[p] == rules[p]; }
    }
    forall p, q | 0 <= p < q < |rules'| ensures TagRank(rules'[p].target) < TagRank(rules'[q].target) {
      assert rules'[p] == rules[p];
      if q < |rules| { assert rules'[q] == rules[q]; }
    }
  }

  /** What a rule tag's span does to the state. */
  lemma RuleStep(st: ScanState, tag: char, m: TagMatch)
    requires IsRuleTag(tag) && FindTag(st.rest, tag) == Some(m)
    ensures var content := Content(st.rest, m);
      Step(st, tag) == ScanState(Remove(st.rest, m),
                                 st.ngex.(rules := st.ngex.rules + [TagRule(tag, st.rest[m.start + 1], content)]),
                                 st.log + LegacyBR.Diagnostics(LiteralText(content)))
  {
    assert tag != '!' && tag != '#';
  }

  /** A rule tag's span appends one rule, ranked after every earlier one. */
  lemma RuleStepKeepsInvariant(st: ScanState, i: nat, m: TagMatch)
    requires 2 <= i < |Tags| && Invariant(st, i) && FindTag(st.rest, Tags[i]) == Some(m)
    ensures Invariant(Step(st, Tags[i]), i + 1)
  {
    var tag := Tags[i];
    var content := Content(st.rest, m);
    var r := TagRule(tag, st.rest[m.start + 1], content);
    var log := LegacyBR.Diagnostics(LiteralText(content));
    assert TagRank(r.target) == i - 2 && IsRuleTag(tag) by {
      RankOfTag(i);
      TagRuleMeaning(tag, st.rest[m.start + 1], content);
    }
    RuleStep(st, tag, m);
    RankedAppend(st.ngex.rules, r, i - 2);
    assert forall d :: d in st.log + log ==> d.kind == LegacyBRRewritten || d.kind == SuspiciousLineBreak;
  }

  /** Looking up the tag at position i keeps the invariant, one position on. */
  lemma StepKeepsInvariant(st: ScanState, i: nat)
    requires i < |Tags| && Invariant(st, i)
    ensures Invariant(Step(st, Tags[i]), i + 1)
  {
    match FindTag(st.rest, Tags[i])
    case None =>
    case Some(m) =>
      if 2 <= i {
        RuleStepKeepsInvariant(st, i, m);
      } else {
        assert Tags[i] == '!' || Tags[i] == '#' by { assert i == 0 || i == 1; }
      }
  }

  /** The state after the first k tags of the list. */
  function ScanUpTo(line: string, k: nat): (r: ScanState)
    requires k <= |Tags|
  {
    if k == 0 then ScanState(StripFormatPrefix(line), Fresh, [])
    else Step(ScanUpTo(line, k - 1), Tags[k - 1])
  }

  /** Whatever the line, the state after the first k tags keeps the
      invariant. */
  lemma {:induction false} ScanKeepsInvariant(line: string, k: nat)
    requires k <= |Tags|
    ensures Invariant(ScanUpTo(line, k), k)
  {
    if k > 0 {
      ScanKeepsInvariant(line, k - 1);
      ScanOneMore(line, k);
      StepKeepsInvariant(ScanUpTo(line, k - 1), k - 1);
    }
  }

  /** What `NGex.convert` returns, with its messages. */
  function Conversion(line: string): (o: Outcome)
    ensures o.result.Ok?
    ensures var r := o.result.value;
      && r.target == Post && r.matching == All
      && r.chain.None? && r.hide.None? && r.expire.None? && r.autoNGID.None?
      && (line != "" ==> r.title != "")
      && |r.rules| <= 7
      && (forall p :: 0 <= p < |r.rules| ==> TagRank(r.rules[p].target) < 7)
      && (forall p, q :: 0 <= p < q < |r.rules| ==> TagRank(r.rules[p].target) < TagRank(r.rules[q].target))
    ensures var st := ScanUpTo(line, |Tags|);
      (Diagnostic(Warning, UnrecognizedCondition, st.rest) in o.log <==> st.rest != "")
  {
    var st := ScanUpTo(line, |Tags|);
    ScanKeepsInvariant(line, |Tags|);
    RanksBoundLength(st.ngex.rules, |Tags| - 2);
    Outcome(Ok(st.ngex.(title := if st.ngex.title == "" then line else st.ngex.title)),
            st.log + if st.rest != "" then [Diagnostic(Warning, UnrecognizedCondition, st.rest)] else [])
  }

  /** The rules the tag's span adds: its rule when it is a rule tag with a
      span, and none otherwise. */
  function AddedRules(st: ScanState, tag: char): seq<Rule> {
    if IsRuleTag(tag) then
      match FindTag(st.rest, tag)
      case Some(m) => [TagRule(tag, st.rest[m.start + 1], Content(st.rest, m))]
      case None => []
    else []
  }

  lemma StepRules(st: ScanState, tag: char)
    ensures Step(st, tag).ngex.rules == st.ngex.rules + AddedRules(st, tag)
  {
    match FindTag(st.rest, tag)
    case None =>
      assert st.ngex.rules + [] == st.ngex.rules;
    case Some(m) =>
      if IsRuleTag(tag) {
        RuleStep(st, tag, m);
      } else {
        assert st.ngex.rules + [] == st.ngex.rules;
      }
  }

  /** The rules the tag at position i adds are of rank i - 2. */
  lemma AddedRulesRank(st: ScanState, i: nat)
    requires 2 <= i < |Tags|
    ensures forall r :: r in AddedRules(st, Tags[i]) ==> TagRank(r.target) == i - 2
  {
    RankOfTag(i);
  }

  /** The rules after k tags: those after k - 1 tags, then what tag k adds. */
  lemma ScanRules(line: string, k: nat)
    requires 1 <= k <= |Tags|
    ensures var prev := ScanUpTo(line, k - 1);
      ScanUpTo(line, k).ngex.rules == prev.ngex.rules + AddedRules(prev, Tags[k - 1])
  {
    ScanOneMore(line, k);
    StepRules(ScanUpTo(line, k - 1), Tags[k - 1]);
  }

  /** The record's rules are those after the whole tag list. */
  lemma ConversionRulesAreScan(line: string)
    ensures Conversion(line).result.value.rules == ScanUpTo(line, |Tags|).ngex.rules
  {
  }

  /** `before` stays a prefix when rules of rank `bound` or more are appended. */
  lemma PrefixGrows(before: seq<Rule>, mid: seq<Rule>, added: seq<Rule>, bound: int)
    requires |before| <= |mid| && mid[..|before|] == before
    requires forall p :: |before| <= p < |mid| ==> bound <= TagRank(mid[p].target)
    requires forall r :: r in added ==> bound <= TagRank(r.target)
    ensures var after := mid + added;
      && |before| <= |after| && after[..|before|] == before
      && forall p :: |before| <= p < |after| ==> bound <= TagRank(after[p].target)
  {
    var after := mid + added;
    assert after[..|mid|] == mid;
    forall p | |before| <= p < |after| ensures bound <= TagRank(after[p].target) {
      if p >= |mid| {
        assert after[p] in added;
      } else {
        assert after[p] == mid[p];
      }
    }
  }

  /** From position j of the tag list on, rules are only appended, and every
      rule appended comes from a tag at j or later. */
  lemma {:induction false} RulesOnlyGrow(line: string, j: nat, k: nat)
    requires 2 <= j <= k <= |Tags|
    ensures var before, after := ScanUpTo(line, j).ngex.rules, ScanUpTo(line, k).ngex.rules;
      && |before| <= |after| && after[..|before|] == before
      && forall p :: |before| <= p < |after| ==> j - 2 <= TagRank(after[p].target)
    decreases k
  {
    if k > j {
      RulesOnlyGrow(line, j, k - 1);
      var prev := ScanUpTo(line, k - 1);
      ScanRules(line, k);
      AddedRulesRank(prev, k - 1);
      PrefixGrows(ScanUpTo(line, j).ngex.rules, prev.ngex.rules, AddedRules(prev, Tags[k - 1]), j - 2);
    }
  }

  /** The rules of the record, tag by tag: a rule tag with a span puts the
      rule of that span into the record, and a rule tag with no span leaves
      no rule on its field. `st` is the line as the tag finds it. */
  lemma ConversionRules(line: string, i: nat)
    requires 2 <= i < |Tags|
    ensures var st := ScanUpTo(line, i);
      var rules := Conversion(line).result.value.rules;
      && IsRuleTag(Tags[i])
      && match FindTag(st.rest, Tags[i])
         case Some(m) => TagRule(Tags[i], st.rest[m.start + 1], Content(st.rest, m)) in rules
         case None => forall r :: r in rules ==> r.target != TagTarget(Tags[i])
  {
    ConversionRulesAreScan(line);
    ScanRulesOfTag(line, i);
  }

  /** The same for the rules after the whole tag list. */
  lemma ScanRulesOfTag(line: string, i: nat)
    requires 2 <= i < |Tags|
    ensures var st := ScanUpTo(line, i);
      var rules := ScanUpTo(line, |Tags|).ngex.rules;
      && IsRuleTag(Tags[i])
      && match FindTag(st.rest, Tags[i])
         case Some(m) => TagRule(Tags[i], st.rest[m.start + 1], Content(st.rest, m)) in rules
         case None => forall r :: r in rules ==> r.target != TagTarget(Tags[i])
  {
    var st := ScanUpTo(line, i);
    RankOfTag(i);
    ScanRules(line, i + 1);
    RulesOnlyGrow(line, i + 1, |Tags|);
    ScanKeepsInvariant(line, i);
    RulesOfTag(st, i, ScanUpTo(line, i + 1).ngex.rules, ScanUpTo(line, |Tags|).ngex.rules);
  }

  /** The same, for the rules `next` after the tag at i and the rules `rules`
      after the whole list. */
  lemma RulesOfTag(st: ScanState, i: nat, next: seq<Rule>, rules: seq<Rule>)
    requires 2 <= i < |Tags| && IsRuleTag(Tags[i]) && TagRank(TagTarget(Tags[i])) == i - 2
    requires Ranked(st.ngex.rules, i - 2)
    requires next == st.ngex.rules + AddedRules(st, Tags[i])
    requires |next| <= |rules| && rules[..|next|] == next
    requires forall p :: |next| <= p < |rules| ==> i - 1 <= TagRank(rules[p].target)
    ensures match FindTag(st.rest, Tags[i])
      case Some(m) => TagRule(Tags[i], st.rest[m.start + 1], Content(st.rest, m)) in rules
      case None => forall r :: r in rules ==> r.target != TagTarget(Tags[i])
  {
    match FindTag(st.rest, Tags[i])
    case Some(m) =>
      var n := |next| - 1;
      assert next[n] == TagRule(Tags[i], st.rest[m.start + 1], Content(st.rest, m));
      assert rules[n] == next[n] by {
        assert rules[..|next|][n] == next[n];
      }
    case None =>
      assert next == st.ngex.rules;
      forall r | r in rules ensures r.target != TagTarget(Tags[i]) {
        var p :| 0 <= p < |rules| && rules[p] == r;
        if p < |next| {
          assert rules[p] == rules[..|next|][p] == next[p];
        }
      }
  }

  /** Conversely, each rule of the record is the rule of the span of the tag
      whose field it looks at: no rule comes from anywhere else. */
  lemma ConversionRuleSource(line: string, p: nat)
    requires p < |Conversion(line).result.value.rules|
    ensures var r := Conversion(line).result.value.rules[p];
      var i := TagRank(r.target) + 2;
      i < |Tags| && AddedRules(ScanUpTo(line, i), Tags[i]) == [r]
  {
    ConversionRulesAreScan(line);
    ScanRuleSource(line, p);
  }

  /** The same for the rules after the whole tag list. */
  lemma ScanRuleSource(line: string, p: nat)
    requires p < |ScanUpTo(line, |Tags|).ngex.rules|
    ensures var r := ScanUpTo(line, |Tags|).ngex.rules[p];
      var i := TagRank(r.target) + 2;
      i < |Tags| && AddedRules(ScanUpTo(line, i), Tags[i]) == [r]
  {
    var rules := ScanUpTo(line, |Tags|).ngex.rules;
    ScanKeepsInvariant(line, |Tags|);
    var i := TagRank(rules[p].target) + 2;
    ScanRulesOfTag(line, i);
    RankOfTag(i);
    RuleOfItsTag(ScanUpTo(line, i), i, rules, p);
  }

  /** A rule of rank i - 2 in a list ranked strictly is the one the tag at i
      adds, given what that tag's lookup says about the list. */
  lemma RuleOfItsTag(st: ScanState, i: nat, rules: seq<Rule>, p: nat)
    requires 2 <= i < |Tags| && IsRuleTag(Tags[i]) && TagRank(TagTarget(Tags[i])) == i - 2
    requires p < |rules| && TagRank(rules[p].target) == i - 2
    requires forall a, b :: 0 <= a < b < |rules| ==> TagRank(rules[a].target) < TagRank(rules[b].target)
    requires match FindTag(st.rest, Tags[i])
      case Some(m) => TagRule(Tags[i], st.rest[m.start + 1], Content(st.rest, m)) in rules
      case None => forall r :: r in rules ==> r.target != TagTarget(Tags[i])
    ensures AddedRules(st, Tags[i]) == [rules[p]]
  {
    var tag := Tags[i];
    SameRankSameTarget(rules[p].target, TagTarget(tag));
    assert rules[p] in rules;
    var m := FindTag(st.rest, tag).value;
    var rule := TagRule(tag, st.rest[m.start + 1], Content(st.rest, m));
    var q :| 0 <= q < |rules| && rules[q] == rule;
    UniqueRank(rules, p, q);
  }

  /** In a list with strictly growing ranks, a rank sits at one position. */
  lemma UniqueRank(rules: seq<Rule>, p: nat, q: nat)
    requires p < |rules| && q < |rules| && TagRank(rules[p].target) == TagRank(rules[q].target)
    requires forall a, b :: 0 <= a < b < |rules| ==> TagRank(rules[a].target) < TagRank(rules[b].target)
    ensures p == q
  {
  }

  /** Below 7, the rank tells the field. */
  lemma SameRankSameTarget(a: RuleTarget, b: RuleTarget)
    requires TagRank(a) == TagRank(b) < 7
    ensures a == b
  {
  }

  /** The default branch of the `replace` callback: the rule is filled in
      field by field, and `text` is what is left of the content once the regex
      or quote forms are taken apart. */
  method BuildRule(tag: char, opening: char, content: string) returns (rule: Rule, text: string)
    requires IsRuleTag(tag)
    ensures rule == TagRule(tag, opening, content) && text == LiteralText(content)
  {
    var invert := opening != tag;
    text := content;
    rule := Rule(TagTarget(tag), false, Some(true), "", Contains);
    var condition: Option<Condition> := None;
    var regex := RegexLiteral(text);
    if regex.Some? {
      rule := rule.(regexp := true, ignoreCase := Some('i' in regex.value.flag));
      text := regex.value.body;
    }
    if !rule.regexp {
      text := SingleToDouble(text);
      var quoted := DoubleQuoted(text);
      if quoted.Some? {
        rule := rule.(ignoreCase := Some(false));
        condition := Some(if !invert then Equals else NotEqual);
        text := quoted.value;
      } else {
        UnquotedIsUnchanged(content);
      }
    }
    if condition.None? {
      condition := Some(if !invert then Contains else NotContain);
    }
    rule := rule.(condition := condition.value, query := LegacyBR.ConvertLegacyBR(text));
  }

  /** `s` after a non-global `replace` of the tag's pattern by ''. */
  function Without(s: string, tag: char): string {
    match FindTag(s, tag)
    case None => s
    case Some(m) => Remove(s, m)
  }

  /** Only the first tag of the list is `!`, and only the second is `#`. */
  lemma LaterTags(i: int)
    requires 1 <= i < |Tags|
    ensures Tags[i] != '!' && (i >= 2 ==> Tags[i] != '#')
  {
  }

  /** The tags after `#` touch neither the title nor the highlight flag, and
      the tags after `!` do not touch the highlight flag: from position j on,
      both stay as they were. */
  lemma {:induction false} LaterTagsKeepFlags(line: string, j: nat, k: nat)
    requires 1 <= j <= k <= |Tags|
    ensures ScanUpTo(line, k).ngex.highlight == ScanUpTo(line, j).ngex.highlight
    ensures j >= 2 ==> ScanUpTo(line, k).ngex.title == ScanUpTo(line, j).ngex.title
    decreases k
  {
    if k > j {
      LaterTagsKeepFlags(line, j, k - 1);
      ScanOneMore(line, k);
      LaterTags(k - 1);
      StepKeepsFlags(ScanUpTo(line, k - 1), Tags[k - 1]);
    }
  }

  /** Only `!` sets the highlight flag and only `#` the title. */
  lemma StepKeepsFlags(st: ScanState, tag: char)
    ensures tag != '!' ==> Step(st, tag).ngex.highlight == st.ngex.highlight
    ensures tag != '!' && tag != '#' ==> Step(st, tag).ngex.title == st.ngex.title
  {
    match FindTag(st.rest, tag)
    case None =>
    case Some(m) =>
  }

  /** One more tag of the list. */
  lemma ScanOneMore(line: string, k: nat)
    requires 1 <= k <= |Tags|
    ensures ScanUpTo(line, k) == Step(ScanUpTo(line, k - 1), Tags[k - 1])
  {
  }

  /** The first tag looked up is `!`, on the line without its prefix. */
  lemma FirstTagStep(line: string)
    ensures ScanUpTo(line, 1) == Step(ScanState(StripFormatPrefix(line), Fresh, []), '!')
    ensures ScanUpTo(line, 1).rest == Without(StripFormatPrefix(line), '!')
    ensures ScanUpTo(line, 1).ngex.title == ""
  {
  }

  /** `highlight` is set exactly when the first `<!>…</!>` span holds `4`. */
  lemma HighlightOnlyFromFour(line: string)
    ensures var s := StripFormatPrefix(line);
      Conversion(line).result.value.highlight <==>
        FindTag(s, '!').Some? && Content(s, FindTag(s, '!').value) == "4"
  {
    LaterTagsKeepFlags(line, 1, |Tags|);
    FirstTagStep(line);
  }

  /** The title is the content of the first `<#>…</#>` span, looked for once
      the `!` span is gone; with no such span, or an empty one, it is the
      whole line as given, prefix included. */
  lemma TitleFromHashTag(line: string)
    ensures var title := Conversion(line).result.value.title;
      var s := Without(StripFormatPrefix(line), '!');
      match FindTag(s, '#')
      case Some(m) => title == (if Content(s, m) != "" then Content(s, m) else line)
      case None => title == line
  {
    var s := Without(StripFormatPrefix(line), '!');
    var last := ScanUpTo(line, |Tags|);
    assert Conversion(line).result.value.title == if last.ngex.title == "" then line else last.ngex.title;
    assert last.ngex.title == ScanUpTo(line, 2).ngex.title by { LaterTagsKeepFlags(line, 2, |Tags|); }
    SecondTagSetsTitle(line);
  }

  /** After `#`, the title is the content of its span, or still empty. */
  lemma SecondTagSetsTitle(line: string)
    ensures var s := Without(StripFormatPrefix(line), '!');
      ScanUpTo(line, 2).ngex.title == match FindTag(s, '#') case Some(m) => Content(s, m) case None => ""
  {
    FirstTagStep(line);
    HashTagStep(line, 2);
  }

  /** At the position of `#` in the list, the title becomes the content of its
      span, or stays as it was. */
  lemma HashTagStep(line: string, k: nat)
    requires 1 <= k <= |Tags| && Tags[k - 1] == '#'
    ensures var prev := ScanUpTo(line, k - 1);
      ScanUpTo(line, k).ngex.title ==
        match FindTag(prev.rest, '#') case Some(m) => Content(prev.rest, m) case None => prev.ngex.title
  {
    ScanOneMore(line, k);
    HashStepTitle(ScanUpTo(line, k - 1));
  }

  lemma HashStepTitle(st: ScanState)
    ensures Step(st, '#').ngex.title ==
      match FindTag(st.rest, '#') case Some(m) => Content(st.rest, m) case None => st.ngex.title
  {
  }

  /** Without a `<` there is no tag: no rule, no highlight, the line as the
      title, and the whole line after its prefix reported as not understood. */
  lemma LineWithoutTags(line: string)
    requires '<' !in line
    ensures var o := Conversion(line);
      var s := StripFormatPrefix(line);
      && o.result.value.rules == [] && !o.result.value.highlight && o.result.value.title == line
      && o.log == (if s == "" then [] else [Diagnostic(Warning, UnrecognizedCondition, s)])
  {
    NoAngleAfterPrefix(line);
    UntaggedScan(line, |Tags|);
  }

  lemma NoAngleAfterPrefix(line: string)
    requires '<' !in line
    ensures forall p :: 0 <= p < |StripFormatPrefix(line)| ==> StripFormatPrefix(line)[p] != '<'
  {
    var s := StripFormatPrefix(line);
    forall p | 0 <= p < |s| ensures s[p] != '<' {
      assert s[p] == line[|line| - |s| + p];
    }
  }

  lemma {:induction false} UntaggedScan(line: string, k: nat)
    requires k <= |Tags|
    requires forall p :: 0 <= p < |StripFormatPrefix(line)| ==> StripFormatPrefix(line)[p] != '<'
    ensures ScanUpTo(line, k) == ScanState(StripFormatPrefix(line), Fresh, [])
  {
    if k > 0 {
      UntaggedScan(line, k - 1);
      var s, tag := StripFormatPrefix(line), Tags[k - 1];
      assert FindTag(s, tag).None? by {
        FindTagMeaning(s, tag);
        forall i, j ensures !SpanAt(s, tag, i, j) {
          if 0 <= i < |s| { assert s[i] != '<'; }
        }
      }
    }
  }

  /** The `forEach` callback for one tag: the `replace` call on `_line` and
      what its callback writes into `ngex`. */
  method ApplyTag(rest: string, ngex: NGExRecord, log: seq<Diagnostic>, tag: char)
    returns (rest': string, ngex': NGExRecord, log': seq<Diagnostic>)
    ensures ScanState(rest', ngex', log') == Step(ScanState(rest, ngex, log), tag)
  {
    rest', ngex', log' := rest, ngex, log;
    var found := FindTag(rest, tag);
    if found.Some? {
      var m := found.value;
      var content := Content(rest, m);
      if tag == '!' {
        if content == "4" {
          ngex' := ngex'.(highlight := true);
        }
      } else if tag == '#' {
        ngex' := ngex'.(title := content);
      } else if IsRuleTag(tag) {
        var rule, text := BuildRule(tag, rest[m.start + 1], content);
        log' := log' + LegacyBR.Diagnostics(text);
        ngex' := ngex'.(rules := ngex'.rules + [rule]);
        RuleStep(ScanState(rest, ngex, log), tag, m);
      }
      rest' := Remove(rest, m);
    }
  }

  /** `NGex.convert`: the loop over the tag list, then the leftover warning
      and the title fallback. */
  method Convert(line: string) returns (o: Outcome)
    ensures o == Conversion(line)
  {
    var rest := StripFormatPrefix(line);
    var ngex := Fresh;
    var log: seq<Diagnostic> := [];
    var i := 0;
    while i < |Tags|
      invariant 0 <= i <= |Tags|
      invariant ScanState(rest, ngex, log) == ScanUpTo(line, i)
    {
      rest, ngex, log := ApplyTag(rest, ngex, log, Tags[i]);
      ScanOneMore(line, i + 1);
      i := i + 1;
    }
    if rest != "" {
      log := log + [Diagnostic(Warning, UnrecognizedCondition, rest)];
    }
    if ngex.title == "" {
      ngex := ngex.(title := line);
    }
    o := Outcome(Ok(ngex), log);
  }
}
