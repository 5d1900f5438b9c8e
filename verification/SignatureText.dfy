/** The lines of a signature base (section 2.5 of RFC 9421) as pkg/base prints them:
    component identifiers with the name between plain quotes, and the line of
    signature parameters. */
module SignatureText {
  import opened Wrappers
  import opened SfvTypes
  import opened SfvGrammar
  import opened SfvWriter
  import opened SignatureTypes
  import opened SignatureInput
  import Base64

  /** Nil prints like true: the key alone. */
  function ValueSuffix(v: Value): string {
    match v
    case BooleanValue(b) => if b then "" else "=?0"
    case StringValue(s) => "=" + StringText(s)
    case TokenValue(t) => "=" + t
    case IntegerValue(n) => "=" + FormatInt(n)
    case BytesValue(bs) => "=:" + Base64.Encode(bs, true) + ":"
    case Nil => ""
  }

  function IdentifierParameterText(p: ComponentParameter): string {
    ";" + p.key + ValueSuffix(p.value)
  }

  function IdentifierParametersText(ps: seq<ComponentParameter>): string {
    if ps == [] then "" else IdentifierParameterText(ps[0]) + IdentifierParametersText(ps[1..])
  }

  /** The name is not escaped. */
  function IdentifierText(c: Component): string {
    "\"" + c.name + "\"" + IdentifierParametersText(c.parameters)
  }

  function IdentifiersText(cs: seq<Component>): string {
    if cs == [] then ""
    else if |cs| == 1 then IdentifierText(cs[0])
    else IdentifierText(cs[0]) + " " + IdentifiersText(cs[1..])
  }

  function IntText(key: string, v: Option<int64>): string {
    if v.Some? then ";" + key + "=" + FormatInt(v.value) else ""
  }

  function StrText(key: string, v: Option<string>): string {
    if v.Some? then ";" + key + "=" + StringText(v.value) else ""
  }

  function MetadataText(p: SignatureParams): string {
    IntText("created", p.created) + IntText("expires", p.expires) + StrText("nonce", p.nonce)
    + StrText("alg", p.algorithm) + StrText("keyid", p.keyId) + StrText("tag", p.tag)
  }

  /** The value of @signature-params. */
  function ParamsValue(cs: seq<Component>, p: SignatureParams): string {
    "(" + IdentifiersText(cs) + ")" + MetadataText(p)
  }

  const PARAMS_PREFIX := "\"@signature-params\": "

  function ParamsLine(cs: seq<Component>, p: SignatureParams): string {
    PARAMS_PREFIX + ParamsValue(cs, p)
  }

  function ComponentLine(c: Component, value: string): string {
    IdentifierText(c) + ": " + value
  }

  // The writers

  method WriteAssigned(sb: StringBuilder, text: string)
    modifies sb
    ensures sb.contents == old(sb.contents) + ("=" + text)
  {
    sb.WriteString("=");
    sb.WriteString(text);
    ConcatAssociates(old(sb.contents), "=", text);
  }

  method WriteAssignedBytes(sb: StringBuilder, text: string)
    modifies sb
    ensures sb.contents == old(sb.contents) + ("=:" + text + ":")
  {
    sb.WriteString("=:");
    sb.WriteString(text);
    sb.WriteString(":");
    ConcatAssociates(old(sb.contents), "=:", text);
    ConcatAssociates(old(sb.contents), "=:" + text, ":");
  }

  method WriteValueSuffix(sb: StringBuilder, v: Value)
    modifies sb
    ensures sb.contents == old(sb.contents) + ValueSuffix(v)
  {
    hide Base64.Encode, FormatInt, StringText;
    match v {
      case BooleanValue(b) =>
        if b {
          NothingAdded(sb.contents);
        } else {
          sb.WriteString("=?0");
        }
      case StringValue(s) =>
        var text := SerializeString(s);
        WriteAssigned(sb, text);
      case TokenValue(t) =>
        WriteAssigned(sb, t);
      case IntegerValue(n) =>
        WriteAssigned(sb, FormatInt(n));
      case BytesValue(bs) =>
        WriteAssignedBytes(sb, Base64.Encode(bs, true));
      case Nil =>
        NothingAdded(sb.contents);
    }
  }

  method WriteIdentifierParameter(sb: StringBuilder, p: ComponentParameter)
    modifies sb
    ensures sb.contents == old(sb.contents) + IdentifierParameterText(p)
  {
    hide ValueSuffix;
    sb.WriteString(";");
    sb.WriteString(p.key);
    WriteValueSuffix(sb, p.value);
    ConcatAssociates(old(sb.contents), ";", p.key);
    ConcatAssociates(old(sb.contents), ";" + p.key, ValueSuffix(p.value));
  }

  lemma IdentifierParametersStep(ps: seq<ComponentParameter>, i: nat)
    requires i < |ps|
    ensures IdentifierParametersText(ps[i..]) == IdentifierParameterText(ps[i]) + IdentifierParametersText(ps[i + 1..])
  {
    hide IdentifierParameterText;
    assert ps[i..][1..] == ps[i + 1..];
  }

  lemma IdentifierParametersEnd(ps: seq<ComponentParameter>)
    ensures ps[0..] == ps && IdentifierParametersText(ps[|ps|..]) == ""
  {
    hide IdentifierParameterText;
  }

  method WriteComponentIdentifier(sb: StringBuilder, c: Component)
    modifies sb
    ensures sb.contents == old(sb.contents) + IdentifierText(c)
  {
    hide IdentifierParameterText, IdentifierParametersText, Pending;
    sb.WriteString("\"");
    sb.WriteString(c.name);
    sb.WriteString("\"");
    ghost var start, whole := sb.contents, IdentifierParametersText(c.parameters);
    assert start == old(sb.contents) + ("\"" + c.name + "\"");
    ConcatAssociates(old(sb.contents), "\"" + c.name + "\"", whole);
    IdentifierParametersEnd(c.parameters);
    PendingAll(start, whole);
    for i := 0 to |c.parameters|
      invariant Pending(sb.contents, IdentifierParametersText(c.parameters[i..]), start, whole)
    {
      IdentifierParametersStep(c.parameters, i);
      PendingStep(
        sb.contents, IdentifierParameterText(c.parameters[i]), IdentifierParametersText(c.parameters[i + 1..]),
        start, whole);
      WriteIdentifierParameter(sb, c.parameters[i]);
    }
    PendingNone(sb.contents, start, whole);
  }

  ghost function IdentifiersLeft(cs: seq<Component>, i: nat): string
    requires i <= |cs|
  {
    (if 0 < i < |cs| then " " else "") + IdentifiersText(cs[i..])
  }

  lemma IdentifiersLeftStep(cs: seq<Component>, i: nat)
    requires i < |cs|
    ensures IdentifiersLeft(cs, i) == Lead(i, " ") + (IdentifierText(cs[i]) + IdentifiersLeft(cs, i + 1))
  {
    hide IdentifierText;
    assert cs[i..][1..] == cs[i + 1..];
    if i + 1 < |cs| {
      ConcatAssociates(IdentifierText(cs[i]), " ", IdentifiersText(cs[i + 1..]));
    } else {
      NothingAdded(IdentifierText(cs[i]));
    }
  }

  lemma IdentifiersLeftEnds(cs: seq<Component>)
    ensures IdentifiersLeft(cs, 0) == IdentifiersText(cs) && IdentifiersLeft(cs, |cs|) == ""
  {
    hide IdentifierText;
  }

  method WriteOptionalInt(sb: StringBuilder, key: string, v: Option<int64>)
    modifies sb
    ensures sb.contents == old(sb.contents) + IntText(key, v)
  {
    hide FormatInt;
    if v.Some? {
      sb.WriteString(";" + key + "=");
      sb.WriteString(FormatInt(v.value));
    }
  }

  method WriteOptionalString(sb: StringBuilder, key: string, v: Option<string>)
    modifies sb
    ensures sb.contents == old(sb.contents) + StrText(key, v)
  {
    hide StringText;
    if v.Some? {
      sb.WriteString(";" + key + "=");
      var text := SerializeString(v.value);
      sb.WriteString(text);
    }
  }

  method WriteIdentifiers(sb: StringBuilder, cs: seq<Component>)
    modifies sb
    ensures sb.contents == old(sb.contents) + IdentifiersText(cs)
  {
    hide IdentifierText, IdentifiersText, IdentifiersLeft, Pending, Lead;
    ghost var start, whole := sb.contents, IdentifiersText(cs);
    IdentifiersLeftEnds(cs);
    PendingAll(start, whole);
    for i := 0 to |cs|
      invariant Pending(sb.contents, IdentifiersLeft(cs, i), start, whole)
    {
      IdentifiersLeftStep(cs, i);
      PendingStep(sb.contents, Lead(i, " "), IdentifierText(cs[i]) + IdentifiersLeft(cs, i + 1), start, whole);
      WriteLead(sb, i, " ");
      PendingStep(sb.contents, IdentifierText(cs[i]), IdentifiersLeft(cs, i + 1), start, whole);
      WriteComponentIdentifier(sb, cs[i]);
    }
    PendingNone(sb.contents, start, whole);
  }

  method WriteSignatureParamsLine(sb: StringBuilder, cs: seq<Component>, p: SignatureParams)
    modifies sb
    ensures sb.contents == old(sb.contents) + ParamsLine(cs, p)
  {
    hide IdentifiersText, MetadataText;
    sb.WriteString("\"@signature-params\": (");
    WriteIdentifiers(sb, cs);
    sb.WriteString(")");
    WriteMetadata(sb, p);
    LineParts(old(sb.contents), IdentifiersText(cs), MetadataText(p));
  }

  lemma LineParts(start: string, identifiers: string, metadata: string)
    ensures start + "\"@signature-params\": (" + identifiers + ")" + metadata ==
            start + (PARAMS_PREFIX + ("(" + identifiers + ")" + metadata))
  {
    assert "\"@signature-params\": (" == PARAMS_PREFIX + "(";
    ConcatAssociates(start, PARAMS_PREFIX + "(", identifiers);
    ConcatAssociates(start, PARAMS_PREFIX + "(" + identifiers, ")");
    ConcatAssociates(start, PARAMS_PREFIX + "(" + identifiers + ")", metadata);
    ConcatAssociates(PARAMS_PREFIX, "(", identifiers);
    ConcatAssociates(PARAMS_PREFIX, "(" + identifiers, ")");
    ConcatAssociates(PARAMS_PREFIX, "(" + identifiers + ")", metadata);
  }

  method WriteMetadata(sb: StringBuilder, p: SignatureParams)
    modifies sb
    ensures sb.contents == old(sb.contents) + MetadataText(p)
  {
    hide IntText, StrText;
    WriteOptionalInt(sb, "created", p.created);
    WriteOptionalInt(sb, "expires", p.expires);
    WriteOptionalString(sb, "nonce", p.nonce);
    WriteOptionalString(sb, "alg", p.algorithm);
    WriteOptionalString(sb, "keyid", p.keyId);
    WriteOptionalString(sb, "tag", p.tag);
  }

  method WriteComponentLine(sb: StringBuilder, c: Component, value: string)
    modifies sb
    ensures sb.contents == old(sb.contents) + ComponentLine(c, value)
  {
    hide IdentifierText;
    WriteComponentIdentifier(sb, c);
    sb.WriteString(":");
    sb.WriteString(" ");
    sb.WriteString(value);
  }

  method AssembleSignatureBase(lines: seq<string>, paramsLine: string) returns (r: string)
    ensures r == Join(lines + [paramsLine], "\n")
  {
    var totalSize := |paramsLine|;
    for i := 0 to |lines| {
      totalSize := totalSize + |lines[i]| + 1;
    }
    var sb := new StringBuilder();
    for i := 0 to |lines|
      invariant sb.contents == Join(lines[..i], "\n")
    {
      if i > 0 {
        sb.WriteString("\n");
      }
      sb.WriteString(lines[i]);
      assert lines[..i + 1] == lines[..i] + [lines[i]];
      if i > 0 {
        JoinAppend(lines[..i], lines[i], "\n");
      }
    }
    assert lines[..|lines|] == lines;
    if |lines| > 0 {
      sb.WriteString("\n");
      JoinAppend(lines, paramsLine, "\n");
    }
    sb.WriteString(paramsLine);
    r := sb.contents;
  }

  // The two printers

  /** Names the two printers write alike. */
  predicate IsPlain(name: string) {
    forall i :: 0 <= i < |name| ==> name[i] != '"' && name[i] != '\\'
  }

  lemma {:induction false} EscapePlain(name: string)
    ensures |Escape(name)| >= |name|
    ensures IsPlain(name) <==> |Escape(name)| == |name|
    ensures IsPlain(name) ==> Escape(name) == name
  {
    if name != "" {
      EscapePlain(name[1..]);
      if IsPlain(name) {
        assert IsPlain(name[1..]);
        assert name == [name[0]] + name[1..];
      } else if IsPlain(name[1..]) {
        assert forall i :: 1 <= i < |name| ==> name[i] == name[1..][i - 1];
      }
    }
  }

  lemma ValueTextsAgree(p: ComponentParameter)
    requires !p.value.Nil?
    ensures IdentifierParameterText(p) == ParameterText(ToSfvParameter(p))
  {
    hide Base64.Encode, FormatInt, StringText;
  }

  lemma {:induction false} IdentifierParametersAgree(ps: seq<ComponentParameter>)
    requires forall i :: 0 <= i < |ps| ==> !ps[i].value.Nil?
    ensures IdentifierParametersText(ps) == ParametersText(ToSfvParameters(ps))
  {
    hide IdentifierParameterText, ParameterText, ToSfvParameter;
    if ps != [] {
      ValueTextsAgree(ps[0]);
      assert ToSfvParameters(ps)[1..] == ToSfvParameters(ps[1..]);
      IdentifierParametersAgree(ps[1..]);
    }
  }

  predicate HasValues(c: Component) {
    forall i :: 0 <= i < |c.parameters| ==> !c.parameters[i].value.Nil?
  }

  /** The Signature-Input form is the longer one, unless the name is plain. */
  lemma IdentifierTexts(c: Component)
    requires HasValues(c)
    ensures |ItemText(ToSfvItem(c))| >= |IdentifierText(c)|
    ensures IsPlain(c.name) <==> |ItemText(ToSfvItem(c))| == |IdentifierText(c)|
    ensures IsPlain(c.name) ==> ItemText(ToSfvItem(c)) == IdentifierText(c)
  {
    hide IdentifierParametersText, ParametersText, ToSfvParameters, IsPlain;
    EscapePlain(c.name);
    IdentifierParametersAgree(c.parameters);
  }

  predicate AllPlain(cs: seq<Component>) {
    forall i :: 0 <= i < |cs| ==> IsPlain(cs[i].name)
  }

  lemma {:induction false} IdentifiersTexts(cs: seq<Component>)
    requires forall i :: 0 <= i < |cs| ==> HasValues(cs[i])
    ensures |ItemsText(ToSfvItems(cs))| >= |IdentifiersText(cs)|
    ensures AllPlain(cs) <==> |ItemsText(ToSfvItems(cs))| == |IdentifiersText(cs)|
    ensures AllPlain(cs) ==> ItemsText(ToSfvItems(cs)) == IdentifiersText(cs)
  {
    hide ItemText, IdentifierText, ToSfvItem, IsPlain, HasValues;
    if cs != [] {
      IdentifierTexts(cs[0]);
      assert ToSfvItems(cs)[1..] == ToSfvItems(cs[1..]);
      IdentifiersTexts(cs[1..]);
      assert AllPlain(cs) <==> IsPlain(cs[0].name) && AllPlain(cs[1..]) by {
        assert forall i :: 1 <= i < |cs| ==> cs[i] == cs[1..][i - 1];
      }
    }
  }

  lemma {:induction false} ParametersTextAppend(a: seq<Parameter>, b: seq<Parameter>)
    ensures ParametersText(a + b) == ParametersText(a) + ParametersText(b)
    decreases |a|
  {
    hide ParameterText;
    if a == [] {
      assert a + b == b;
    } else {
      assert (a + b)[1..] == a[1..] + b;
      ParametersTextAppend(a[1..], b);
      ConcatAssociates(ParameterText(a[0]), ParametersText(a[1..]), ParametersText(b));
    }
  }

  lemma OptionalTexts(key: string, n: Option<int64>, s: Option<string>)
    ensures ParametersText(IntParameter(key, n)) == IntText(key, n)
    ensures ParametersText(StringParameter(key, s)) == StrText(key, s)
  {
    hide FormatInt, StringText;
    if n.Some? {
      var p := Parameter(key, Integer(n.value));
      assert [p][1..] == [];
      assert ParametersText([p]) == ParameterText(p) + "";
    }
    if s.Some? {
      var p := Parameter(key, Str(s.value));
      assert [p][1..] == [];
      assert ParametersText([p]) == ParameterText(p) + "";
    }
  }

  lemma MetadataTexts(p: SignatureParams)
    ensures ParametersText(ToSfvSignatureParams(p)) == MetadataText(p)
  {
    hide IntText, StrText, IntParameter, StringParameter, ParametersText;
    var a1 := IntParameter("created", p.created);
    var a2 := a1 + IntParameter("expires", p.expires);
    var a3 := a2 + StringParameter("nonce", p.nonce);
    var a4 := a3 + StringParameter("alg", p.algorithm);
    var a5 := a4 + StringParameter("keyid", p.keyId);
    OptionalTexts("created", p.created, None);
    OptionalTexts("expires", p.expires, None);
    OptionalTexts("nonce", None, p.nonce);
    OptionalTexts("alg", None, p.algorithm);
    OptionalTexts("keyid", None, p.keyId);
    OptionalTexts("tag", None, p.tag);
    ParametersTextAppend(a1, IntParameter("expires", p.expires));
    ParametersTextAppend(a2, StringParameter("nonce", p.nonce));
    ParametersTextAppend(a3, StringParameter("alg", p.algorithm));
    ParametersTextAppend(a4, StringParameter("keyid", p.keyId));
    ParametersTextAppend(a5, StringParameter("tag", p.tag));
  }

  /** Signature-Input is the label, '=' and the value of the @signature-params line,
      exactly when no component name needs escaping. */
  lemma PrintersAgree(labelText: string, cs: seq<Component>, p: SignatureParams)
    requires forall i :: 0 <= i < |cs| ==> HasValues(cs[i])
    ensures InputText(labelText, cs, p) == labelText + "=" + ParamsValue(cs, p) <==> AllPlain(cs)
  {
    hide ItemsText, IdentifiersText, ToSfvItems, ToSfvSignatureParams, MetadataText, ParametersText, AllPlain;
    IdentifiersTexts(cs);
    MetadataTexts(p);
  }

  /** The last line of a base is that of a component named @signature-params. */
  lemma ParamsLineIsComponentLine(cs: seq<Component>, p: SignatureParams)
    ensures ParamsLine(cs, p) == ComponentLine(Component("@signature-params", Derived, []), ParamsValue(cs, p))
  {
    hide ParamsValue;
    NothingAdded("\"" + "@signature-params" + "\"");
    assert PARAMS_PREFIX == "\"" + "@signature-params" + "\"" + ": ";
  }
}
