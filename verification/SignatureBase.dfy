/** The signature base (section 2.5 of RFC 9421): one line per covered component and
    the line of signature parameters, joined by LF. */
module SignatureBase {
  import opened Wrappers
  import opened SfvWriter
  import opened SignatureTypes
  import opened SignatureText
  import opened HttpMessage
  import opened FieldValues

  function Lines(cs: seq<Component>, values: seq<string>): (lines: seq<string>)
    requires |cs| == |values|
    ensures |lines| == |cs|
    ensures forall i :: 0 <= i < |cs| ==> lines[i] == ComponentLine(cs[i], values[i])
  {
    if cs == [] then [] else [ComponentLine(cs[0], values[0])] + Lines(cs[1..], values[1..])
  }

  function Values(msg: Message, cs: seq<Component>): (r: Option<seq<string>>)
    ensures r.Some? ==> |r.value| == |cs|
    ensures r.Some? ==> forall i :: 0 <= i < |cs| ==> ComponentValue(msg, cs[i]) == Some(r.value[i])
  {
    hide ComponentValue;
    if cs == [] then Some([])
    else
      var first :- ComponentValue(msg, cs[0]);
      var rest :- Values(msg, cs[1..]);
      Some([first] + rest)
  }

  function BaseText(cs: seq<Component>, values: seq<string>, p: SignatureParams): string
    requires |cs| == |values|
  {
    Join(Lines(cs, values) + [ParamsLine(cs, p)], "\n")
  }

  function BuildText(msg: Message, cs: seq<Component>, p: SignatureParams): Option<string> {
    var values :- Values(msg, cs);
    Some(BaseText(cs, values, p))
  }

  /** The streamed form: it writes as it extracts, and writes what assembling the
      formatted lines would give. */
  method Build(msg: Message, cs: seq<Component>, p: SignatureParams) returns (r: Option<string>)
    ensures r == BuildText(msg, cs, p)
  {
    hide ComponentValue, ComponentLine, ParamsLine, Values, Lines, Join;
    var sb := new StringBuilder();
    ghost var values: seq<string> := [];
    ghost var lines: seq<string> := [];
    AppendNone();
    for i := 0 to |cs|
      invariant |values| == i && |lines| == i
      invariant forall j :: 0 <= j < i ==> ComponentValue(msg, cs[j]) == Some(values[j])
      invariant forall j :: 0 <= j < i ==> lines[j] == ComponentLine(cs[j], values[j])
      invariant sb.contents == Join(lines, "\n")
    {
      var value := ExtractComponentValue(msg, cs[i]);
      if value.None? {
        MissingValue(msg, cs, i);
        return None;
      }
      if i > 0 {
        sb.WriteString("\n");
      }
      WriteComponentLine(sb, cs[i], value.value);
      AppendLine(lines, ComponentLine(cs[i], value.value), sb.contents);
      values := values + [value.value];
      lines := lines + [ComponentLine(cs[i], value.value)];
    }
    if |cs| > 0 {
      sb.WriteString("\n");
    }
    WriteSignatureParamsLine(sb, cs, p);
    AppendLine(lines, ParamsLine(cs, p), sb.contents);
    ValuesAre(msg, cs, values);
    assert lines == Lines(cs, values);
    return Some(sb.contents);
  }

  lemma AppendNone()
    ensures Join([], "\n") == ""
  {
  }

  lemma AppendLine(lines: seq<string>, last: string, written: string)
    requires written == if lines == [] then Join(lines, "\n") + last else Join(lines, "\n") + "\n" + last
    ensures written == Join(lines + [last], "\n")
  {
    if lines == [] {
      assert lines + [last] == [last];
      assert "" + last == last;
    } else {
      JoinAppend(lines, last, "\n");
    }
  }

  /** Assembling the formatted lines gives the same base as Build. */
  method BuildFromLines(msg: Message, cs: seq<Component>, p: SignatureParams) returns (r: Option<string>)
    ensures r == BuildText(msg, cs, p)
  {
    hide ComponentValue, ComponentLine, ParamsLine, Join;
    var values: seq<string> := [];
    for i := 0 to |cs|
      invariant |values| == i
      invariant forall j :: 0 <= j < i ==> ComponentValue(msg, cs[j]) == Some(values[j])
    {
      var value := ExtractComponentValue(msg, cs[i]);
      if value.None? {
        MissingValue(msg, cs, i);
        return None;
      }
      values := values + [value.value];
    }
    ValuesAre(msg, cs, values);
    var text := AssembleSignatureBase(Lines(cs, values), ParamsLine(cs, p));
    return Some(text);
  }

  lemma {:induction false} MissingValue(msg: Message, cs: seq<Component>, i: nat)
    requires i < |cs| && ComponentValue(msg, cs[i]).None?
    ensures Values(msg, cs).None?
  {
    hide ComponentValue;
    if i > 0 {
      MissingValue(msg, cs[1..], i - 1);
    }
  }

  lemma {:induction false} ValuesAre(msg: Message, cs: seq<Component>, values: seq<string>)
    requires |values| == |cs|
    requires forall j :: 0 <= j < |cs| ==> ComponentValue(msg, cs[j]) == Some(values[j])
    ensures Values(msg, cs) == Some(values)
  {
    hide ComponentValue;
    if cs != [] {
      ValuesAre(msg, cs[1..], values[1..]);
      assert values == [values[0]] + values[1..];
    }
  }
}
