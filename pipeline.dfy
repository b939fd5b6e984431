/** The per-line dispatch of `convert()` (js/main.js:460-489): the text is
    split into lines, each non-empty line goes to the first format whose
    validator accepts it, and the records of the lines that converted are
    kept in input order. The library calls the converters need are carried by
    an environment. */
module Pipeline {
  import opened Records
  import opened Text
  import NGadv
  import NGex
  import NGthreads
  import NGid2

  /** JSON.parse (with NGadv's string-title test) and Date.parse. */
  datatype Env = Env(parseNGadv: string -> Option<NGadv.Entry>, parseDate: string -> Option<int>)

  datatype Format = Adv | Ex | Threads | Id2

  /** The order the validators are tried in. */
  const Priority: seq<Format> := [Adv, Ex, Threads, Id2]

  predicate Accepts(env: Env, f: Format, line: string) {
    match f
    case Adv => NGadv.Validate(env.parseNGadv, line)
    case Ex => NGex.Validate(line)
    case Threads => NGthreads.Validate(line)
    case Id2 => NGid2.Validate(line)
  }

  /** `Array.prototype.find` over the formats from position i. */
  function FindFrom(env: Env, line: string, i: nat): (r: Option<nat>)
    requires i <= |Priority|
    ensures r.Some? ==> i <= r.value < |Priority| && Accepts(env, Priority[r.value], line)
    ensures r.Some? ==> forall j :: i <= j < r.value ==> !Accepts(env, Priority[j], line)
    ensures r.None? ==> forall j :: i <= j < |Priority| ==> !Accepts(env, Priority[j], line)
    decreases |Priority| - i
  {
    if i == |Priority| then None
    else if Accepts(env, Priority[i], line) then Some(i)
    else FindFrom(env, line, i + 1)
  }

  /** The format the line is converted with: the first in priority order
      whose validator accepts it, or None when none does. */
  function Detect(env: Env, line: string): (r: Option<Format>)
    ensures r.Some? ==> Accepts(env, r.value, line)
    ensures r.Some? ==> forall j :: 0 <= j < |Priority| && Priority[j] == r.value ==>
      forall k :: 0 <= k < j ==> !Accepts(env, Priority[k], line)
    ensures r.None? <==> forall f :: !Accepts(env, f, line)
  {
    match FindFrom(env, line, 0)
    case None =>
      assert forall f :: !Accepts(env, f, line) by {
        forall f ensures !Accepts(env, f, line) {
          var j := if f == Adv then 0 else if f == Ex then 1 else if f == Threads then 2 else 3;
          assert Priority[j] == f;
        }
      }
      None
    case Some(i) =>
      assert forall j :: 0 <= j < |Priority| && Priority[j] == Priority[i] ==> j == i;
      Some(Priority[i])
  }

  /** A line NGadv accepts is always read as NGadv; an `Ex:` or `T:` line
      that is not NGadv goes to its own format. */
  lemma DetectPrefixes(env: Env, line: string)
    ensures NGadv.Validate(env.parseNGadv, line) ==> Detect(env, line) == Some(Adv)
    ensures !NGadv.Validate(env.parseNGadv, line) && StartsWith(line, "Ex:") ==> Detect(env, line) == Some(Ex)
    ensures !NGadv.Validate(env.parseNGadv, line) && StartsWith(line, "T:") ==> Detect(env, line) == Some(Threads)
  {
    var r := Detect(env, line);
    if !NGadv.Validate(env.parseNGadv, line) && StartsWith(line, "Ex:") {
      assert r.Some? by { assert Accepts(env, Ex, line); }
      assert r.value != Adv;
    }
    if !NGadv.Validate(env.parseNGadv, line) && StartsWith(line, "T:") {
      assert r.Some? by { assert Accepts(env, Threads, line); }
      assert line[0] == 'T';
      assert r.value != Adv && r.value != Ex;
    }
  }

  /** The converter of a format. NGex and NGthreads never throw and differ
      only in the target; NGid2 prints nothing. */
  function ConvertWith(env: Env, f: Format, line: string): (o: Outcome)
    ensures f == Ex ==> o.result.Ok? && o.result.value.target == Post
    ensures f == Threads ==>
      && o.result.Ok? && o.result.value.target == Thread
      && o.result.value.(target := Post) == NGex.Conversion(line).result.value
    ensures f == Id2 ==> o.log == []
    ensures f == Adv ==> o == NGadv.Convert(env.parseNGadv, line)
    ensures f == Ex ==> o == NGex.Conversion(line)
    ensures f == Id2 ==> o == NGid2.Convert(env.parseDate, line)
  {
    match f
    case Adv => NGadv.Convert(env.parseNGadv, line)
    case Ex => NGex.Conversion(line)
    case Threads => NGthreads.Conversion(line)
    case Id2 => NGid2.Convert(env.parseDate, line)
  }

  /** What one line contributes: its record, if it has one, and its messages. */
  datatype LineResult = LineResult(record: Option<NGExRecord>, log: seq<Diagnostic>)

  /** The `map` callback: empty lines and lines no format accepts give no
      record; a converter that throws gives none either, after its messages
      and an error. */
  function ConvertLine(env: Env, line: string): (r: LineResult)
    ensures line == "" ==> r == LineResult(None, [])
    ensures r.record.Some? <==>
      line != "" && Detect(env, line).Some? && ConvertWith(env, Detect(env, line).value, line).result.Ok?
    ensures r.record.Some? ==> r.record.value == ConvertWith(env, Detect(env, line).value, line).result.value
    ensures line != "" && Detect(env, line).None? ==> r.log == [Diagnostic(Error, UnknownFormat, line)]
    ensures line != "" && Detect(env, line).Some? ==>
      var o := ConvertWith(env, Detect(env, line).value, line);
      r.log == o.log + if o.result.Err? then [Diagnostic(Error, ConversionFailed, line)] else []
  {
    if line == "" then LineResult(None, [])
    else
      match Detect(env, line)
      case None => LineResult(None, [Diagnostic(Error, UnknownFormat, line)])
      case Some(f) =>
        var o := ConvertWith(env, f, line);
        match o.result
        case Ok(record) => LineResult(Some(record), o.log)
        case Err(_) => LineResult(None, o.log + [Diagnostic(Error, ConversionFailed, line)])
  }

  /** A line goes to the converter of the format Detect picks: it gets that
      converter's record when the converter succeeds and none when it throws,
      after the converter's messages and, on failure, an error. */
  lemma LineUsesItsConverter(env: Env, line: string)
    requires line != ""
    ensures Detect(env, line) == Some(Adv) ==>
      var o := NGadv.Convert(env.parseNGadv, line);
      && ConvertLine(env, line).record == (if o.result.Ok? then Some(o.result.value) else None)
      && ConvertLine(env, line).log == o.log + if o.result.Err? then [Diagnostic(Error, ConversionFailed, line)] else []
    ensures Detect(env, line) == Some(Ex) ==>
      var o := NGex.Conversion(line);
      ConvertLine(env, line) == LineResult(Some(o.result.value), o.log)
    ensures Detect(env, line) == Some(Threads) ==>
      var o := NGthreads.Conversion(line);
      ConvertLine(env, line) == LineResult(Some(o.result.value), o.log)
    ensures Detect(env, line) == Some(Id2) ==>
      var o := NGid2.Convert(env.parseDate, line);
      && ConvertLine(env, line).record == (if o.result.Ok? then Some(o.result.value) else None)
      && ConvertLine(env, line).log == if o.result.Err? then [Diagnostic(Error, ConversionFailed, line)] else []
  {
  }

  /** The records that survive the `filter`, and every message, in order. */
  datatype Output = Output(records: seq<NGExRecord>, log: seq<Diagnostic>)

  function Kept(r: LineResult): seq<NGExRecord> {
    if r.record.Some? then [r.record.value] else []
  }

  /** `lines.map(...).filter(item => !!item)` */
  function ConvertLines(env: Env, lines: seq<string>): (out: Output)
    ensures |out.records| <= |lines|
  {
    if lines == [] then Output([], [])
    else
      var first := ConvertLine(env, lines[0]);
      var rest := ConvertLines(env, lines[1..]);
      Output(Kept(first) + rest.records, first.log + rest.log)
  }

  /** Converting two runs of lines one after the other is converting each on
      its own and putting the results one after the other. */
  lemma {:induction false} ConvertLinesAppend(env: Env, a: seq<string>, b: seq<string>)
    ensures ConvertLines(env, a + b) ==
      Output(ConvertLines(env, a).records + ConvertLines(env, b).records,
             ConvertLines(env, a).log + ConvertLines(env, b).log)
    decreases |a|
  {
    if a == [] {
      assert a + b == b;
    } else {
      assert (a + b)[0] == a[0] && (a + b)[1..] == a[1..] + b;
      ConvertLinesAppend(env, a[1..], b);
      PrependLine(ConvertLine(env, a[0]), ConvertLines(env, a[1..]), ConvertLines(env, b));
    }
  }

  /** Putting one line's result in front commutes with putting two runs
      together. */
  lemma PrependLine(first: LineResult, x: Output, y: Output)
    ensures Output(Kept(first) + (x.records + y.records), first.log + (x.log + y.log)) ==
      Output((Kept(first) + x.records) + y.records, (first.log + x.log) + y.log)
  {
    Associative(Kept(first), x.records, y.records);
    Associative(first.log, x.log, y.log);
  }

  /** One line's record does not depend on the lines around it: it sits
      between the records of the lines before and those of the lines after,
      and an empty line adds nothing. */
  lemma LineStandsAlone(env: Env, before: seq<string>, line: string, after: seq<string>)
    ensures ConvertLines(env, before + [line] + after).records ==
      ConvertLines(env, before).records + Kept(ConvertLine(env, line)) + ConvertLines(env, after).records
    ensures ConvertLines(env, before + [line] + after).log ==
      ConvertLines(env, before).log + ConvertLine(env, line).log + ConvertLines(env, after).log
    ensures line == "" ==>
      (ConvertLines(env, before + [line] + after) == ConvertLines(env, before + after))
  {
    ConvertLinesAppend(env, before + [line], after);
    ConvertLinesAppend(env, before, [line]);
    ConvertLinesAppend(env, before, after);
    var one := ConvertLines(env, [line]);
    assert one == Output(Kept(ConvertLine(env, line)), ConvertLine(env, line).log) by {
      assert [line][1..] == [];
      assert ConvertLines(env, []) == Output([], []);
      assert Kept(ConvertLine(env, line)) + [] == Kept(ConvertLine(env, line));
      assert ConvertLine(env, line).log + [] == ConvertLine(env, line).log;
    }
    if line == "" {
      assert one == Output([], []) by { assert [line][1..] == []; }
      var x, y := ConvertLines(env, before), ConvertLines(env, after);
      assert x.records + [] == x.records && x.log + [] == x.log;
    }
  }

  /** `convert()` from the text read to the records written out. */
  function ConvertText(env: Env, data: string): (out: Output)
    ensures |out.records| <= |SplitLines(data)|
  {
    ConvertLines(env, SplitLines(data))
  }
}
