/** The canonical NGEx record every converter produces (js/main.js:5-79), and
    the values the converters and the pipeline share: results, failures and
    diagnostics. */
module Records {

  datatype Option<+T> = None | Some(value: T)

  /** Why a converter gave up on a line (the source throws). */
  datatype Failure =
    | MalformedLine    // NGadv: not JSON; NGid2: empty id or expiry part
    | InvalidTarget    // NGadv: targetType is neither RES nor THREAD
    | NotAList         // NGadv: `conditions` is not an array (TypeError)
    | NotAString       // NGadv: a mapped condition's `str` is not a string (TypeError)
    | InvalidDate      // NGid2: Date.parse gave NaN or 0

  datatype Result<+T> = Ok(value: T) | Err(failure: Failure)

  /** 'post' or 'thread' */
  datatype Target = Post | Thread

  /** 'any' or 'all' */
  datatype Match = Any | All

  /** The comparable fields a rule can look at. */
  datatype RuleTarget =
    Name | Mail | Date | Ip | Host | Id | Be | BaseBe | Msg | Title | BoardUrl | ThreadUrl

  datatype Condition = Contains | NotContain | Equals | NotEqual

  /** One condition of a record. A rule whose `regexp` the source leaves unset
      is stored with `regexp == false`; `ignoreCase` keeps "unset" apart. */
  datatype Rule = Rule(
    target: RuleTarget,
    regexp: bool,
    ignoreCase: Option<bool>,
    query: string,
    condition: Condition)

  /** One NGEx record. `None` stands for a field that is left undefined and so
      falls back to the consumer's default; `highlight == false` stands for both
      false and unset. */
  datatype NGExRecord = NGExRecord(
    title: string,
    target: Target,
    matching: Match,
    chain: Option<bool>,
    hide: Option<bool>,
    expire: Option<int>,
    autoNGID: Option<bool>,
    highlight: bool,
    rules: seq<Rule>)

  /** The fields a fresh record serializes with (inherited prototype
      defaults such as `autoNGID: false` are not own properties, so they are
      not written out). */
  const Blank: NGExRecord := NGExRecord("", Post, All, None, None, None, None, false, [])

  datatype Severity = Info | Warning | Error

  datatype DiagnosticKind =
    | LegacyBRRewritten      // a legacy line break was rewritten
    | SuspiciousLineBreak    // a line break still looks malformed
    | UnknownRuleTarget      // an NGadv condition with an unknown `type` was dropped
    | UnknownMatchMethod     // an NGadv condition with an unknown `condStr` was dropped
    | AnyApproximation       // an NGadv OR was approximated by match 'any'
    | UnrecognizedCondition  // text left over after all NGex tags were taken out
    | UnknownFormat          // no format accepts the line
    | ConversionFailed       // the converter gave up on the line

  /** A console message, as data; `subject` is the text the message is about. */
  datatype Diagnostic = Diagnostic(severity: Severity, kind: DiagnosticKind, subject: string)

  /** What a converter returns: the record or the failure, and the messages it
      emitted on the way (also those emitted before it gave up). */
  datatype Outcome = Outcome(result: Result<NGExRecord>, log: seq<Diagnostic>)

  /** The inverse of a condition: what an upper-case NGex tag letter selects. */
  function Negated(c: Condition): (r: Condition)
    ensures r != c
    ensures (c == Contains) == (r == NotContain) && (c == Equals) == (r == NotEqual)
    ensures (c == NotContain) == (r == Contains) && (c == NotEqual) == (r == Equals)
  {
    match c
    case Contains => NotContain
    case NotContain => Contains
    case Equals => NotEqual
    case NotEqual => Equals
  }
}
