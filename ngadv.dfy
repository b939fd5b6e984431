/** The NGadv format (js/main.js:82-224): one JSON object per line, mapped
    field by field onto an NGEx record. JSON parsing itself is not modelled:
    a line reaches this module as the `Entry` JSON.parse would have produced. */
module NGadv {
  import opened Records
  import LegacyBR

  /** One element of `conditions`. The fields the source only compares with
      `===` are strings; a missing or non-string JSON value stands as any
      string outside the tables. `None` is a missing field. */
  datatype AdvCondition = AdvCondition(
    andor: string,
    kind: string,            // the JSON field `type`
    condStr: string,
    ignoreCase: Option<bool>,
    strType: string,
    str: Option<string>)     // None: missing or not a string

  /** A parsed NGadv line whose `title` is a string. `conditions` is None when
      it is missing or not an array. */
  datatype Entry = Entry(
    title: string,
    targetType: string,
    expire: Option<int>,
    hide: Option<bool>,
    chain: Option<bool>,
    autoNGID: Option<bool>,
    conditions: Option<seq<AdvCondition>>)

  /** `NGadv.validate`: the line is JSON with a string title. `parse` stands for
      JSON.parse followed by that check; None when either fails. */
  predicate Validate(parse: string -> Option<Entry>, line: string) {
    parse(line).Some?
  }

  /** The `targetType` switch: RES is a post rule, THREAD a thread rule, and
      nothing else is known. */
  function TargetOf(targetType: string): (r: Option<Target>)
    ensures r == Some(Post) <==> targetType == "RES"
    ensures r == Some(Thread) <==> targetType == "THREAD"
  {
    match targetType
    case "RES" => Some(Post)
    case "THREAD" => Some(Thread)
    case _ => None
  }

  /** The `type` value that selects each field. */
  function AdvKind(t: RuleTarget): string {
    match t
    case Name => "NAME"
    case Mail => "MAIL"
    case Date => "DATE"
    case Ip => "IP"
    case Host => "HOST"
    case Id => "ID"
    case Be => "BEID"
    case BaseBe => "BEBASEID"
    case Msg => "RES"
    case Title => "THREAD"
    case BoardUrl => "BOARD"
    case ThreadUrl => "THREAD_URL"
  }

  /** The `type` switch: a known `type` is the name AdvKind gives its field,
      so no two known values select the same field. */
  function RuleTargetOf(kind: string): (r: Option<RuleTarget>)
    ensures r.Some? ==> AdvKind(r.value) == kind
  {
    match kind
    case "NAME" => Some(Name)
    case "MAIL" => Some(Mail)
    case "DATE" => Some(Date)
    case "IP" => Some(Ip)
    case "HOST" => Some(Host)
    case "ID" => Some(Id)
    case "BEID" => Some(Be)
    case "BEBASEID" => Some(BaseBe)
    case "RES" => Some(Msg)
    case "THREAD" => Some(Title)
    case "BOARD" => Some(BoardUrl)
    case "THREAD_URL" => Some(ThreadUrl)
    case _ => None
  }

  /** The `condStr` value that selects each condition. */
  function AdvCondStr(c: Condition): string {
    match c
    case Contains => "!=="
    case NotContain => "==="
    case Equals => "ALL_EQUAL"
    case NotEqual => "NOT_EQUAL"
  }

  /** The `condStr` switch. The legacy `!==` means "contains" and `===` means
      "does not contain". A known `condStr` is the name AdvCondStr gives its
      condition. */
  function ConditionOf(condStr: string): (r: Option<Condition>)
    ensures r.Some? ==> AdvCondStr(r.value) == condStr
  {
    match condStr
    case "!==" => Some(Contains)
    case "===" => Some(NotContain)
    case "ALL_EQUAL" => Some(Equals)
    case "NOT_EQUAL" => Some(NotEqual)
    case _ => None
  }

  /** Every field and every condition can be selected: the switches read the
      names back. */
  lemma TablesRoundTrip(t: RuleTarget, c: Condition)
    ensures RuleTargetOf(AdvKind(t)) == Some(t)
    ensures ConditionOf(AdvCondStr(c)) == Some(c)
  {
    match t
    case Name => case Mail => case Date => case Ip => case Host => case Id =>
    case Be => case BaseBe => case Msg => case Title => case BoardUrl => case ThreadUrl =>
  }

  /** Both switches know the condition, so it is not dropped. */
  predicate Mappable(c: AdvCondition) {
    RuleTargetOf(c.kind).Some? && ConditionOf(c.condStr).Some?
  }

  function RuleOf(c: AdvCondition): Rule
    requires Mappable(c) && c.str.Some?
  {
    Rule(RuleTargetOf(c.kind).value, c.strType == "REG", c.ignoreCase,
         LegacyBR.ConvertLegacyBR(c.str.value), ConditionOf(c.condStr).value)
  }

  /** The rule list so far, or the TypeError that stopped the `map`, and the
      warnings printed up to that point. */
  datatype Mapped = Mapped(rules: Result<seq<Rule>>, log: seq<Diagnostic>)

  /** Each rule is the rule of a kept condition: its fields come from it. */
  ghost predicate FromKeptCondition(r: Rule, conds: seq<AdvCondition>) {
    exists c :: c in conds && Mappable(c) && c.str.Some? &&
      Some(r.target) == RuleTargetOf(c.kind) && Some(r.condition) == ConditionOf(c.condStr) &&
      r.regexp == (c.strType == "REG") && r.ignoreCase == c.ignoreCase &&
      r.query == LegacyBR.ConvertLegacyBR(c.str.value)
  }

  /** The `map` callback for one condition: an unknown `type` or `condStr`
      gives null (dropped by the `filter`) and a warning; a known one whose
      `str` is not a string makes `convertLegacyBR` throw; otherwise the rule,
      with what `convertLegacyBR` printed. */
  function MapOne(c: AdvCondition): (m: Mapped)
    ensures m.rules.Err? <==> Mappable(c) && c.str.None?
    ensures m.rules.Err? ==> m == Mapped(Err(NotAString), [])
    ensures m.rules.Ok? && m.rules.value != [] ==> Mappable(c) && c.str.Some? && m.rules.value == [RuleOf(c)]
    ensures m.rules == Ok([]) <==> !Mappable(c)
    ensures forall d :: d in m.log ==> d.kind != AnyApproximation
  {
    if RuleTargetOf(c.kind).None? then
      Mapped(Ok([]), [Diagnostic(Warning, UnknownRuleTarget, c.kind)])
    else if ConditionOf(c.condStr).None? then
      Mapped(Ok([]), [Diagnostic(Warning, UnknownMatchMethod, c.condStr)])
    else if c.str.None? then
      Mapped(Err(NotAString), [])
    else
      Mapped(Ok([RuleOf(c)]), LegacyBR.Diagnostics(c.str.value))
  }

  /** The rules of two lists of conditions, one after the other. */
  function Combine(x: Result<seq<Rule>>, y: Result<seq<Rule>>): Result<seq<Rule>> {
    if x.Err? then x else if y.Err? then y else Ok(x.value + y.value)
  }

  /** One part of the list mapped, then the rest: a throw in the first part
      ends the `map` there. */
  function Then(first: Mapped, rest: Mapped): Mapped {
    if first.rules.Err? then first else Mapped(Combine(first.rules, rest.rules), first.log + rest.log)
  }

  /** `conditions.map(...).filter(item => item !== null)` */
  function MapConditions(conds: seq<AdvCondition>): (m: Mapped)
    ensures m.rules.Ok? ==> |m.rules.value| <= |conds|
    ensures forall d :: d in m.log ==> d.kind != AnyApproximation
  {
    if conds == [] then Mapped(Ok([]), [])
    else Then(MapOne(conds[0]), MapConditions(conds[1..]))
  }

  /** The map fails exactly when a kept condition has no string `str`, and
      otherwise every rule comes from a kept condition. */
  lemma {:induction false} MapConditionsMeaning(conds: seq<AdvCondition>)
    ensures var m := MapConditions(conds);
      && (m.rules.Err? <==> exists c :: c in conds && Mappable(c) && c.str.None?)
      && (m.rules.Err? ==> m.rules.failure == NotAString)
      && (m.rules.Ok? ==> forall r :: r in m.rules.value ==> FromKeptCondition(r, conds))
  {
    if conds != [] {
      var c := conds[0];
      MapConditionsMeaning(conds[1..]);
      assert forall d :: d in conds[1..] ==> d in conds;
      assert conds == [c] + conds[1..];
      if Mappable(c) && c.str.Some? {
        assert FromKeptCondition(RuleOf(c), conds);
      }
    }
  }

  /** The rules of the kept conditions, in list order. */
  function KeptRules(conds: seq<AdvCondition>): seq<Rule> {
    if conds == [] then []
    else (if Mappable(conds[0]) && conds[0].str.Some? then [RuleOf(conds[0])] else []) + KeptRules(conds[1..])
  }

  /** When the map does not throw, its rules are exactly those of the kept
      conditions, one each, in the order of the conditions. */
  lemma {:induction false} MapConditionsKeepsOrder(conds: seq<AdvCondition>)
    ensures MapConditions(conds).rules.Ok? ==> MapConditions(conds).rules.value == KeptRules(conds)
  {
    if conds != [] {
      MapConditionsKeepsOrder(conds[1..]);
    }
  }

  /** Mapping one part of a list and then the next is mapping them in turn. */
  lemma ThenAssociative(x: Mapped, y: Mapped, z: Mapped)
    ensures Then(Then(x, y), z) == Then(x, Then(y, z))
  {
    if x.rules.Ok? && y.rules.Ok? && z.rules.Ok? {
      assert x.rules.value + y.rules.value + z.rules.value == x.rules.value + (y.rules.value + z.rules.value);
    }
    assert x.log + y.log + z.log == x.log + (y.log + z.log);
  }

  /** Mapping is done condition by condition: the outcome for a list is the
      outcome for its first part followed by that for the rest, so kept
      conditions keep their relative order, no condition affects another,
      and a throw drops what comes after it. */
  lemma {:induction false} MapConditionsAppend(a: seq<AdvCondition>, b: seq<AdvCondition>)
    ensures MapConditions(a + b) == Then(MapConditions(a), MapConditions(b))
    decreases |a|
  {
    if a == [] {
      assert a + b == b;
      var y := MapConditions(b);
      assert Then(Mapped(Ok([]), []), y) == y by {
        if y.rules.Ok? { assert [] + y.rules.value == y.rules.value; }
        assert [] + y.log == y.log;
      }
    } else {
      assert (a + b)[0] == a[0] && (a + b)[1..] == a[1..] + b;
      MapConditionsAppend(a[1..], b);
      ThenAssociative(MapOne(a[0]), MapConditions(a[1..]), MapConditions(b));
    }
  }

  /** What a single condition contributes. */
  lemma MapOneCondition(c: AdvCondition)
    ensures MapConditions([c]).rules ==
      if !Mappable(c) then Ok([]) else if c.str.None? then Err(NotAString) else Ok([RuleOf(c)])
  {
    assert [c][1..] == [];
    var m := MapOne(c);
    if m.rules.Ok? {
      assert m.rules.value + [] == m.rules.value;
    }
  }

  /** `NGadv.convert` after parsing. */
  function FromEntry(e: Entry): (o: Outcome)
    ensures o.result.Ok? <==>
      TargetOf(e.targetType).Some? && e.conditions.Some? &&
      forall c :: c in e.conditions.value && Mappable(c) ==> c.str.Some?
    ensures TargetOf(e.targetType).None? ==> o.result == Err(InvalidTarget) && o.log == []
    ensures o.result == Err(NotAList) <==> TargetOf(e.targetType).Some? && e.conditions.None?
    ensures o.result.Err? ==> o.result.failure != MalformedLine && o.result.failure != InvalidDate
    ensures o.result.Ok? ==>
      var r := o.result.value;
      var conds := e.conditions.value;
      && r.title == e.title
      && (r.target == Post <==> e.targetType == "RES")
      && (r.target == Thread <==> e.targetType == "THREAD")
      && r.expire == e.expire && r.hide == e.hide && r.chain == e.chain
      && r.autoNGID == e.autoNGID && !r.highlight
      && (r.matching == Any <==> exists c :: c in conds && c.andor == "OR")
      && MapConditions(conds).rules.Ok? && r.rules == MapConditions(conds).rules.value
      && r.rules == KeptRules(conds)
      && (forall rule :: rule in r.rules ==> FromKeptCondition(rule, conds))
      && (Diagnostic(Warning, AnyApproximation, e.title) in o.log <==> r.matching == Any)
  {
    match TargetOf(e.targetType)
    case None => Outcome(Err(InvalidTarget), [])
    case Some(target) =>
      match e.conditions
      case None => Outcome(Err(NotAList), [])
      case Some(conds) =>
        var any := exists c :: c in conds && c.andor == "OR";
        var mapped := MapConditions(conds);
        MapConditionsMeaning(conds);
        MapConditionsKeepsOrder(conds);
        match mapped.rules
        case Err(f) => Outcome(Err(f), mapped.log)
        case Ok(rules) =>
          var record := NGExRecord(e.title, target, if any then Any else All,
                                   e.chain, e.hide, e.expire, e.autoNGID, false, rules);
          assert Diagnostic(Warning, AnyApproximation, e.title) !in mapped.log;
          Outcome(Ok(record),
                  mapped.log + if any then [Diagnostic(Warning, AnyApproximation, e.title)] else [])
  }

  /** `NGadv.convert`: parse, then map. */
  function Convert(parse: string -> Option<Entry>, line: string): (o: Outcome)
    ensures o.result.Ok? ==> Validate(parse, line)
    ensures !Validate(parse, line) ==> o == Outcome(Err(MalformedLine), [])
    ensures Validate(parse, line) ==> o == FromEntry(parse(line).value) && o.result != Err(MalformedLine)
  {
    match parse(line)
    case None => Outcome(Err(MalformedLine), [])
    case Some(e) => FromEntry(e)
  }
}
