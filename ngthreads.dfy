/** The NGthreads format (js/main.js:342-353): NGex syntax behind a `T:`
    prefix, producing a thread rule. */
module NGthreads {
  import opened Records
  import opened Text
  import NGex

  /** `NGthreads.validate`: the line starts with `T:`, and then the `\w+:`
      prefix NGex's `convert` strips is exactly that. */
  predicate Validate(line: string): (b: bool)
    ensures b <==> |line| >= 2 && line[0] == 'T' && line[1] == ':'
    ensures b ==> StripFormatPrefix(line) == line[2..]
  {
    if StartsWith(line, "T:") then TPrefixStripped(line); true else false
  }

  lemma TPrefixStripped(line: string)
    requires StartsWith(line, "T:")
    ensures StripFormatPrefix(line) == line[2..]
  {
    assert line[..2] == "T:";
    assert line[0] == 'T' && line[1] == ':';
    assert WordRun(line, 1) == 1;
  }

  /** What `NGthreads.convert` returns: the NGex record of the same line
      with its target switched to thread, and nothing else changed. */
  function Conversion(line: string): (o: Outcome)
    ensures o.result.Ok? && o.result.value.target == Thread
    ensures o.result.value.(target := Post) == NGex.Conversion(line).result.value
    ensures o.log == NGex.Conversion(line).log
  {
    var ex := NGex.Conversion(line);
    Outcome(Ok(ex.result.value.(target := Thread)), ex.log)
  }

  /** `NGthreads.convert`: NGex's conversion, then `ngex.target = 'thread'`. */
  method Convert(line: string) returns (o: Outcome)
    ensures o == Conversion(line)
  {
    o := NGex.Convert(line);
    var ngex := o.result.value;
    ngex := ngex.(target := Thread);
    o := o.(result := Ok(ngex));
  }
}
