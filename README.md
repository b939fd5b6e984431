# Chaika NGEx converter — a verified model

This project models the filter-rule conversion engine of the Chaika NGEx
converter (`js/main.js`). The engine reads the NG lists of older chaika
versions line by line. Each line is in one of four legacy syntaxes:

- NGadv: one JSON object per line
- NGex: `Ex:` and inline tags such as `<n>name</n>`
- NGthreads: `T:` and the same tags
- NGid2: a poster ID, optionally with an expiry date

Every line that converts becomes one canonical NGEx record (`NGExData`).
The records keep the input order.

The model has one module per part of the engine:

| file | module | models |
|---|---|---|
| `records.dfy` | `Records` | the NGEx record and its rules, the failures a converter throws, and the console messages, kept as data |
| `text.dfy` | `Text` | the string operations of the engine: `split(/\t - \t/)`, `split(/[\n\r]+/)`, `replace(/^\w+:/, '')` and substring search |
| `legacy_br.dfy` | `LegacyBR` | `convertLegacyBR`: the global rewrite of legacy `<br…/>` forms and the two messages it may print |
| `ngadv.dfy` | `NGadv` | the NGadv mapper: the enum tables, dropped conditions, `match` any/all, and the TypeError of a non-string `str` |
| `ngex.dfy` | `NGex` | the inline-tag parser. `NGex.Convert` is a method with the `forEach` loop over the tag list. It is proved equal to `NGex.Conversion`, a fold of one `replace` step per tag. |
| `ngthreads.dfy` | `NGthreads` | NGex with the target switched to thread |
| `ngid2.dfy` | `NGid2` | a bare ID, or an ID and an expiry date |
| `pipeline.dfy` | `Pipeline` | the per-line dispatch of `convert()`: the split into lines, the `find` over validators in the order NGadv, NGex, NGthreads, NGid2, and the `filter` of lines that give no record |

Each regular expression of the source is written out as a string function.
A lemma then says what that function matches:

- the leftmost-shortest match of `<(x)>(.*?)</x>` under the `i` flag
- the greedy match of `^\/(.*)\/([gimy]?)$`
- the two quote replaces
- the legacy line-break pattern

`JSON.parse` and `Date.parse` are parameters of the model (`Pipeline.Env`).

## Model

| member | source | states |
|---|---|---|
| Records.Negated | js/main.js:308-315 | inverting a condition gives a different condition: contains and notContain are swapped, and so are equals and notEqual |
| Text.SplitOn | js/main.js:377 | splitting always gives at least one piece, and no piece contains the separator |
| Text.JoinSplitOn | js/main.js:377 | joining the pieces with the separator gives the line back, so splitting loses nothing |
| Text.FirstPieceOfSplit | js/main.js:377 | the first piece is a prefix of the line; there is one piece exactly when the separator does not occur; otherwise the separator follows the first piece; no occurrence of the separator starts inside the first piece, so it ends at the first one |
| Text.SplitLines | js/main.js:467 | splitting into lines gives at least one line, and no line holds CR or LF |
| Text.SplitLinesKeepsText | js/main.js:467 | the lines together hold every character of the text except CR and LF, in order |
| Text.BreakRuns | js/main.js:467 | the runs of CR and LF the text is split at are non-empty and hold only CR and LF |
| Text.SplitLinesRebuild | js/main.js:467 | the text breaks exactly at its maximal runs of CR and LF: there is one run fewer than lines, the lines with the runs put back between them give the text, and every line between two others is non-empty |
| Text.StripFormatPrefix | js/main.js:232 | the result is a suffix of the line; what is removed is a run of word characters followed by a colon; a line with such a prefix always loses it |
| NGadv.Validate | js/main.js:83-89 | a line is NGadv exactly when `JSON.parse` succeeds and gives a string `title`; the test is the parameter `parse`, so this predicate carries no contract of its own |
| NGadv.TargetOf | js/main.js:105-116 | `RES` gives a post record and `THREAD` a thread record; every other value is unknown |
| NGadv.RuleTargetOf | js/main.js:139-177 | a known `type` is the name of the field it selects, so no two `type` values select the same field |
| NGadv.ConditionOf | js/main.js:179-200 | a known `condStr` is the name of the condition it selects: `!==` is contains, `===` notContain, `ALL_EQUAL` equals, `NOT_EQUAL` notEqual |
| NGadv.TablesRoundTrip | js/main.js:139-200 | every field and every condition can be selected by its name |
| LegacyBR.MatchLengthSound | js/main.js:407 | a length the scan reports is a legacy line break at the start of the text |
| LegacyBR.MatchLengthComplete | js/main.js:407 | a legacy line break at the start of the text is exactly the one the scan reports |
| LegacyBR.MatchLengthMeaning | js/main.js:407 | the scan finds a match exactly when the text starts with a legacy form, and then it finds that form |
| LegacyBR.ConvertLegacyBR | js/main.js:407 | the rewrite never makes the text longer |
| LegacyBR.ConvertAtFirstMatch | js/main.js:407 | at the first position where a legacy line break starts, everything before it is copied, the break becomes `<br>`, and the text after it is rewritten in turn |
| LegacyBR.ConvertUnmatchedPrefix | js/main.js:407 | text in which no legacy line break starts before a position is copied unchanged up to that position |
| LegacyBR.ConvertKeepsPlainPrefix | js/main.js:407 | text before the first `<` is copied unchanged |
| LegacyBR.NoMatchInIsClean | js/main.js:407 | no position starts a match exactly when no substring is a legacy form |
| LegacyBR.ConvertLeavesNoMatch | js/main.js:407 | after the rewrite, no position of the result starts a legacy form |
| LegacyBR.ConvertRemovesLegacyForms | js/main.js:407 | no substring of the result is a legacy line break |
| LegacyBR.ConvertKeepsCleanText | js/main.js:407 | text without a legacy form is left unchanged (with ConvertAtFirstMatch this fixes the result of every text) |
| LegacyBR.ConvertChangesIffLegacy | js/main.js:407-409 | the query changes exactly when it contains a legacy form; this is the test that decides whether the info message is printed |
| LegacyBR.ConvertIdempotent | js/main.js:407 | rewriting twice is the same as rewriting once |
| LegacyBR.Diagnostics | js/main.js:409-417 | an info message appears exactly when a legacy form was rewritten; a warning appears exactly when the result still looks like a broken `<br` or an escaped `\r`/`\n`; nothing else is printed |
| LegacyBR.DiagnosticsInOrder | js/main.js:409-417 | the messages exactly and in order: the info message carrying the original text when it held a legacy line break, then the warning carrying the result when that still looks broken, and nothing else |
| NGadv.MapOne | js/main.js:135-211 | an unknown `type` or `condStr` drops the condition; a known one without a string `str` throws; otherwise the condition gives exactly its mapped rule |
| NGadv.MapConditions | js/main.js:135-212 | there are never more rules than conditions, and mapping prints no any-approximation warning |
| NGadv.MapConditionsMeaning | js/main.js:135-212 | the map throws exactly when a kept condition has no string `str`; otherwise every rule comes from a kept condition and takes its target, condition, regexp, ignoreCase and converted query from it |
| NGadv.MapConditionsAppend | js/main.js:135-212 | conditions are mapped one by one: the outcome for a list is the outcome for its first part followed by that for the rest, so kept conditions keep their order |
| NGadv.MapOneCondition | js/main.js:139-211 | a single condition gives no rule, a TypeError, or exactly its rule |
| NGadv.MapConditionsKeepsOrder | js/main.js:135-212 | when the map does not throw, its rules are exactly the rules of the kept conditions, one each, in the order of the conditions |
| NGadv.FromEntry | js/main.js:100-222 | succeeds exactly when the target is RES or THREAD, `conditions` is a list and every kept condition has a string `str`; an unknown target fails and prints nothing; a known target with no list fails with the TypeError; it never fails as malformed; on success the title, expire, hide, chain and autoNGID are copied, the target follows `targetType`, `match` is any exactly when some `andor` is OR, the rules are those of the mapped conditions, which are the rules of the kept conditions in order, and the any-approximation warning is printed exactly when `match` is any |
| NGadv.Convert | js/main.js:91-222 | a line that is not an NGadv JSON object fails as malformed and prints nothing; a line that is gives exactly the outcome of mapping its parsed object, which is never a malformed-line failure |
| NGid2.Convert | js/main.js:362-401 | a line without a space is a bare ID: title `NGID: ` + line, post, all, one equals-rule on the ID, no expiry; otherwise the line fails as malformed exactly when piece 0 or piece 1 is missing or empty, fails on the date exactly when `Date.parse` of piece 1 is NaN or 0, and succeeds exactly in the remaining case, with the ID record of piece 0 (title `NGID: ` + ID, post, all, one equals-rule on the ID) expiring at the parsed time; nothing is printed |
| NGid2.Validate | js/main.js:356-358 | an accepted line is non-empty, and it holds a space exactly when it holds the separator, so `convert` reads a line with a space as an ID and a date |
| NGid2.ExpiringLineShape | js/main.js:377 | on a line with a separator: there are at least two pieces; the line starts with piece 0, the separator and piece 1; there are more pieces exactly when another separator follows |
| NGid2.FirstSeparatorAfterId | js/main.js:377 | in an ID-then-date line, the first separator is the one right after the ID |
| NGid2.ExpiringLineRoundTrip | js/main.js:377-399 | an ID line with a date that has no separator and parses to a non-zero time converts back to that ID and that time |
| NGex.Validate | js/main.js:227-232 | a line is NGex exactly when it starts with `Ex:`, and then `convert` strips exactly that prefix |
| NGex.FindClose | js/main.js:240 | the lazy `(.*?)`: the first closing tag with no line terminator before it, and none otherwise |
| NGex.FindTagFrom | js/main.js:240-242 | a match found from `i` lies within the text at or after `i` |
| NGex.FindTagFromMeaning | js/main.js:240-242 | the match from `i` is a span, is the leftmost span at or after `i`, and holds no closing tag; there is no match only when no span opens at or after `i` |
| NGex.FindTag | js/main.js:240-242 | the span found lies within the text |
| NGex.FindTagMeaning | js/main.js:240-242 | the span `replace` acts on is a match of the tag pattern, no match starts further left, and it is the shortest; there is none exactly when the pattern does not match |
| NGex.FindTagUnique | js/main.js:240-242 | a leftmost span with no closing tag inside is the one found |
| NGex.RegexLiteral | js/main.js:296 | the content is `/body/flag` with at most one flag of `gimy` exactly when a literal is found; the body found is the longest possible |
| NGex.RegexLiteralParts | js/main.js:296 | where the slashes, the body and the flag sit in a regex literal |
| NGex.QuotedMeaning | js/main.js:305-306 | the two quote replaces unwrap exactly the content written between two equal quotes, single or double |
| NGex.RankOfTag | js/main.js:265-293 | the rule tags a, b, i, n, t, u, w look at mail, be, id, name, title, thread_url and msg, in list order |
| NGex.TagRule | js/main.js:259-318 | the rule a tag's span gives looks at that tag's field (the other fields are stated by `TagRuleMeaning`) |
| NGex.TagRuleMeaning | js/main.js:259-318 | the target is the tag's field; the query is the literal text after `convertLegacyBR`; `regexp` is set exactly when the content is a regex literal, and then `ignoreCase` tells whether the flag is `i`; the condition is equals or notEqual exactly when the content is quoted and not a regex, and then `ignoreCase` is false; a plain search has `ignoreCase` true; the condition is negated exactly when the opening letter differs from the tag |
| NGex.InversionNegates | js/main.js:260 | opening a tag with the other letter case gives the same rule with its condition negated |
| NGex.RanksBoundLength | js/main.js:239 | rules ranked by distinct positions in the tag list are at most as many as those positions |
| NGex.RankedAppend | js/main.js:239-320 | a rule from a later tag goes after every rule from earlier tags |
| NGex.RuleStepKeepsInvariant | js/main.js:258-322 | keeps the invariant (ranked rules, fixed fields, only convertLegacyBR messages) across a rule tag's step; StepRules says which rule is appended |
| NGex.StepKeepsInvariant | js/main.js:242-326 | one `replace` per tag keeps the record's fixed fields, orders rules by tag, and logs only `convertLegacyBR` messages |
| NGex.StepRules | js/main.js:240-326 | one `replace` step appends to the rules exactly the rule of the tag's span when it is a rule tag with a span, and nothing otherwise |
| NGex.ScanRules | js/main.js:239-327 | the rules after k tags are those after k - 1 tags followed by what tag k adds |
| NGex.RulesOnlyGrow | js/main.js:239-327 | from any tag of the list on, the rules are only appended to, and each rule appended comes from that tag or a later one |
| NGex.ScanKeepsInvariant | js/main.js:239-327 | after any number of tags the rules are in tag-list order, at most one per tag, and the other fields are as set up |
| NGex.Conversion | js/main.js:231-338 | never fails; a post record matching all, with no chain, hide, expire or autoNGID; its title is never empty for a non-empty line; at most 7 rules, each on a field NGex knows, in tag-list order with distinct fields; the unrecognised-condition warning is printed exactly when text is left over; which rules there are is stated by `ConversionRules` and `ConversionRuleSource` |
| NGex.ConversionRules | js/main.js:239-320 | for each rule tag, with the line as that tag finds it: a span puts exactly the rule of that span into the record, and no span leaves no rule on the tag's field |
| NGex.ConversionRuleSource | js/main.js:239-320 | every rule of the record is the rule of the span of the tag whose field it looks at, so the record holds those rules and no others |
| NGex.BuildRule | js/main.js:259-318 | the rule built field by field, as in the source, is the rule `TagRuleMeaning` describes, and the text handed to `convertLegacyBR` is the literal text |
| NGex.ApplyTag | js/main.js:240-326 | one pass of the `forEach` callback performs exactly one replace step on `_line`, `ngex` and the messages |
| NGex.Convert | js/main.js:231-339 | the loop over the tag list, the leftover warning and the title fallback give exactly `Conversion` |
| NGex.StepKeepsFlags | js/main.js:243-255 | only `!` sets `highlight`, and only `#` sets the title |
| NGex.LaterTagsKeepFlags | js/main.js:239-255 | once the `!` and `#` tags have been looked up, no later tag changes the highlight flag or the title |
| NGex.SecondTagSetsTitle | js/main.js:253-254 | after `#` the title is the content of its first span once the `!` span is gone, or empty |
| NGex.HighlightOnlyFromFour | js/main.js:246-250 | `highlight` is set exactly when the first `<!>` span holds `4` |
| NGex.TitleFromHashTag | js/main.js:253-336 | the title is the content of the first `#` span; with no such span, or an empty one, it is the whole line |
| NGex.LineWithoutTags | js/main.js:329-336 | a line without `<` gives no rules, no highlight, the line as its title, and one warning naming the text after the prefix (none if that is empty) |
| NGex.UntaggedScan | js/main.js:239-242 | with no `<` after the prefix, no tag changes anything |
| NGthreads.Conversion | js/main.js:347-352 | the record is NGex's for the same line with the target set to thread, and the messages are the same |
| NGthreads.Convert | js/main.js:347-352 | the method gives exactly that conversion |
| NGthreads.Validate | js/main.js:343-345 | a line is NGthreads exactly when it starts with `T:`, and then NGex's `convert` strips exactly that prefix |
| Pipeline.FindFrom | js/main.js:472-474 | the first accepting format from a position on, or none when no format from there accepts |
| Pipeline.Detect | js/main.js:472-474 | the chosen format accepts the line and no format before it in the order NGadv, NGex, NGthreads, NGid2 does; there is none exactly when no format accepts |
| Pipeline.DetectPrefixes | js/main.js:472-474 | a valid NGadv line always goes to NGadv; otherwise an `Ex:` line goes to NGex and a `T:` line to NGthreads |
| Pipeline.ConvertWith | js/main.js:478-480 | the NGadv format calls NGadv.Convert, NGex calls NGex.Conversion, NGid2 calls NGid2.Convert, and NGthreads gives NGex's record retargeted to Thread; NGex and NGthreads always succeed and NGid2 prints nothing |
| Pipeline.LineUsesItsConverter | js/main.js:472-484 | a line gets the record of the converter of its detected format when that converter succeeds and no record when it throws, after that converter's messages and, on failure, an error |
| Pipeline.ConvertLine | js/main.js:468-486 | an empty line gives nothing; a line no format accepts gives no record and one unknown-format error; otherwise the record is the chosen converter's when it does not throw, and when it throws its messages are followed by a conversion-failed error |
| Pipeline.ConvertLines | js/main.js:467-487 | there are never more records than lines |
| Pipeline.ConvertLinesAppend | js/main.js:467-487 | converting two runs of lines is converting each on its own and concatenating records and messages in order |
| Pipeline.LineStandsAlone | js/main.js:467-487 | a line's record sits between the records of the lines before and after it, and its messages between theirs, whatever they are; an empty line changes nothing |
| Pipeline.ConvertText | js/main.js:467-487 | a text gives at most one record per line |

### Where the code does something one might not expect

- **Inversion.** One might expect a condition to be inverted when the opening and closing letters differ in case. The code (js/main.js:260) inverts exactly when the opening letter differs from the lower-case tag. The closing tag is matched case-insensitively, so its case never matters.
- **NGid2 split.** One might expect an NGid2 line to be split at its first separator only. The code (js/main.js:377) splits at every separator and reads pieces 0 and 1. So a second separator ends the date early, and an empty piece 1 is an error.
- **Zero date.** A `Date.parse` result of 0 is falsy, so the code (js/main.js:385) rejects it like NaN.
- **Title fallback.** The code falls back to the whole line when the title is empty (js/main.js:334), so an empty `<#></#>` also falls back.
- **Regex flags.** The regex form takes at most one flag character of `gimy` (js/main.js:296). `ignoreCase` is whether that flag is `i`.
- **`contains`.** `_flag.contains('i')` and `line.contains(' ')` are modelled as substring tests.
- **Rule order.** Rules appear in the order of the tag list (js/main.js:239), not in the order the tags are written in the line.
- **Empty NGadv title.** The NGadv title is copied as given (js/main.js:103) and may be empty.

## Left out

- `readFileContent` and `fetchFilesContent` (js/main.js:423-458): file reading, Shift_JIS decoding and promises are I/O. The model starts from the text they produce.
- The DOM, the Blob and download link, `console.time` and `if(!data) return` (js/main.js:462-465, 492-501): these are UI side effects. An empty text gives no records in the model, and the UI update is not modelled.
- `JSON.parse` (js/main.js:85, 95) is the parameter `Env.parseNGadv`. It gives a parsed `NGadv.Entry` when the line is JSON with a string title.
- JSON values of the wrong type are not modelled in full. A non-object condition element, and an `ignoreCase`, `expire`, `hide`, `chain` or `autoNGID` that is neither missing nor of its own type, are not represented.
- `JSON.stringify` and `join('\n')` (js/main.js:486-489): the output is the list of records, not its serialized text. An unset `chain`, `hide`, `expire`, `autoNGID` or `ignoreCase` is `None`. An unset `highlight` or `regexp` is `false`, as listed below, so for those two keys the model does not tell apart a key that is written as false from one that is left out.
- `Date.parse` (js/main.js:383) is the parameter `Env.parseDate`. `None` stands for NaN.
- Console messages are kept as a severity, a kind and the text they are about. Their wording, and the objects printed with them, are left out.
- The implicit global `format` (js/main.js:472) is a local binding in the model.
- The `startsWith` and `endsWith` conditions of `NGExData` (js/main.js:76) are not modelled, because no converter produces them.
- Strings are sequences of Unicode characters, while JavaScript strings are UTF-16 code units. Lines with surrogate pairs are outside the model.
- NGid2.Convert: an NGid2 rule is stored with `regexp` false and `ignoreCase` unset, where the source leaves both keys out. The record's `highlight` is stored as false, where the source object literal has no such key.
- NGex.Conversion: `highlight` false stands for both false and unset, as in `Records.NGExRecord`. NGex sets it only for a `<!>` span holding 4.
- NGex.TagRule: a rule that is not a regex literal is stored with `regexp` false, where the source (js/main.js:296-301) leaves the key out.
- NGadv.FromEntry: `highlight` is stored as false, where the source never sets it and the record only inherits it from `NGExData`, so it is not written out.
