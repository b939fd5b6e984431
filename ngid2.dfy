/** The NGid2 format (js/main.js:355-403): a bare poster ID, or an ID and an
    expiry date separated by tab, space, dash, space, tab. Date.parse is not
    modelled: it is the parameter `parseDate`, None standing for NaN. */
module NGid2 {
  import opened Records
  import opened Text

  const Separator: string := "\t - \t"

  /** `[0-9A-Za-z\+\/!]` */
  predicate IsIdChar(c: char) {
    '0' <= c <= '9' || 'A' <= c <= 'Z' || 'a' <= c <= 'z' || c == '+' || c == '/' || c == '!'
  }

  /** `NGid2.validate`: the line holds the separator, or is a non-empty run of
      ID characters. */
  predicate Validate(line: string): (b: bool)
    ensures b ==> line != ""
    ensures b ==> (' ' in line <==> HasSubstring(line, Separator))
  {
    SeparatorHasSpace(line);
    HasSubstring(line, Separator) || (|line| > 0 && forall k :: 0 <= k < |line| ==> IsIdChar(line[k]))
  }

  /** A line with the separator holds a space; a run of ID characters holds
      neither. */
  lemma SeparatorHasSpace(line: string)
    ensures HasSubstring(line, Separator) ==> line != "" && ' ' in line
    ensures (forall k :: 0 <= k < |line| ==> IsIdChar(line[k])) ==> ' ' !in line && !HasSubstring(line, Separator)
  {
    if HasSubstring(line, Separator) {
      var i :| 0 <= i <= |line| - |Separator| && OccursAt(line, Separator, i);
      assert line[i + 1] == line[i..i + |Separator|][1] == ' ';
    }
    if forall k :: 0 <= k < |line| ==> IsIdChar(line[k]) {
      forall i | 0 <= i <= |line| - |Separator| ensures !OccursAt(line, Separator, i) {
        assert IsIdChar(line[i]) && line[i..i + |Separator|][0] == line[i];
      }
    }
  }

  /** The one rule of an NGid2 record; it sets no `regexp` and no `ignoreCase`. */
  function IdRule(id: string): Rule {
    Rule(Id, false, None, id, Equals)
  }

  function IdRecord(id: string, expire: Option<int>): NGExRecord {
    NGExRecord("NGID: " + id, Post, All, None, None, expire, None, false, [IdRule(id)])
  }

  /** `NGid2.convert`. A line without a space is a bare ID. Otherwise the line
      is split at every separator and only the first two pieces are used:
      an empty or missing piece, or a date that parses to NaN or to 0, makes
      the conversion throw. */
  function Convert(parseDate: string -> Option<int>, line: string): (o: Outcome)
    ensures o.log == []
    ensures ' ' !in line ==>
      && o.result == Ok(IdRecord(line, None)) && o.result.value.title == "NGID: " + line
      && o.result.value.rules == [Rule(Id, false, None, line, Equals)]
      && o.result.value.expire.None? && o.result.value.target == Post && o.result.value.matching == All
    ensures ' ' in line ==>
      var parts := SplitOn(line, Separator);
      && (o.result == Err(MalformedLine) <==> parts[0] == "" || |parts| < 2 || parts[1] == "")
      && (o.result == Err(InvalidDate) <==>
           parts[0] != "" && |parts| >= 2 && parts[1] != "" &&
           (parseDate(parts[1]).None? || parseDate(parts[1]).value == 0))
      && (o.result.Ok? <==>
           parts[0] != "" && |parts| >= 2 && parts[1] != "" &&
           parseDate(parts[1]).Some? && parseDate(parts[1]).value != 0)
      && (o.result.Ok? ==>
           o.result.value == IdRecord(parts[0], parseDate(parts[1])) &&
           o.result.value.title == "NGID: " + parts[0] &&
           o.result.value.rules == [Rule(Id, false, None, parts[0], Equals)] &&
           o.result.value.target == Post && o.result.value.matching == All &&
           o.result.value.expire == parseDate(parts[1]) && o.result.value.expire != Some(0))
  {
    if ' ' !in line then
      Outcome(Ok(IdRecord(line, None)), [])
    else
      var parts := SplitOn(line, Separator);
      var id := parts[0];
      if id == "" || |parts| < 2 || parts[1] == "" then
        Outcome(Err(MalformedLine), [])
      else
        match parseDate(parts[1])
        case None => Outcome(Err(InvalidDate), [])
        case Some(t) =>
          if t == 0 then Outcome(Err(InvalidDate), []) else Outcome(Ok(IdRecord(id, Some(t))), [])
  }

  /** The two pieces an ID-with-expiry line is read from: the ID is everything
      before the first separator, the expiry everything up to the next one (or
      to the end), and neither holds a separator. */
  lemma ExpiringLineShape(line: string)
    requires HasSubstring(line, Separator)
    ensures var parts := SplitOn(line, Separator);
      && |parts| >= 2
      && StartsWith(line, parts[0] + Separator + parts[1])
      && !HasSubstring(parts[0], Separator) && !HasSubstring(parts[1], Separator)
      && (|parts| > 2 <==> HasSubstring(line[|parts[0]| + |Separator|..], Separator))
  {
    SplitAtFirst(line, Separator);
    var i := IndexOf(line, Separator, 0).value;
    var head, rest := line[..i], line[i + |Separator|..];
    var tail := SplitOn(rest, Separator);
    var parts := SplitOn(line, Separator);
    assert parts[0] == head && parts[1] == tail[0] && |parts| == 1 + |tail|;
    assert StartsWith(rest, tail[0]) && (|tail| == 1 <==> !HasSubstring(rest, Separator)) by {
      FirstPieceOfSplit(rest, Separator);
    }
    assert StartsWith(line, head + Separator + tail[0]) by {
      assert line == head + Separator + rest;
      assert rest[..|tail[0]|] == tail[0];
      assert (head + Separator + rest)[..|head + Separator + tail[0]|] == head + Separator + tail[0];
    }
  }

  /** The line NGid2 writes for an ID that expires. */
  function ExpiringLine(id: string, date: string): string {
    id + Separator + date
  }

  /** Reading such a line back gives the ID and the parsed date, provided the
      ID is made of ID characters, the date holds no separator and parses to
      a non-zero time. */
  lemma ExpiringLineRoundTrip(parseDate: string -> Option<int>, id: string, date: string)
    requires id != "" && forall k :: 0 <= k < |id| ==> IsIdChar(id[k])
    requires date != "" && !HasSubstring(date, Separator)
    requires parseDate(date).Some? && parseDate(date).value != 0
    ensures Convert(parseDate, ExpiringLine(id, date)).result == Ok(IdRecord(id, parseDate(date)))
  {
    var line := ExpiringLine(id, date);
    assert ' ' in line by { assert line[|id| + 1] == ' '; }
    assert SplitOn(line, Separator) == [id, date] by {
      FirstSeparatorAfterId(id, date);
      assert line[..|id|] == id && line[|id| + |Separator|..] == date;
      FirstPieceOfSplit(date, Separator);
    }
  }

  /** The first separator in such a line is the one after the ID. */
  lemma FirstSeparatorAfterId(id: string, date: string)
    requires forall k :: 0 <= k < |id| ==> IsIdChar(id[k])
    ensures IndexOf(ExpiringLine(id, date), Separator, 0) == Some(|id|)
  {
    var line := ExpiringLine(id, date);
    assert OccursAt(line, Separator, |id|) by {
      assert line[|id|..|id| + |Separator|] == Separator;
    }
    forall p | 0 <= p < |id| ensures !OccursAt(line, Separator, p) {
      assert line[p] == id[p];
    }
  }
}
