/** Component values (sections 2.1, 2.2 and 2.4 of RFC 9421): canonical field values,
    with or without the sf, bs, key and tr parameters, derived components, and
    components taken from the related request. */
module FieldValues {
  import opened Wrappers
  import opened SfvTypes
  import opened SfvGrammar
  import opened SfvParser
  import opened SfvWriter
  import opened SignatureTypes
  import opened LineFolding
  import opened HttpMessage
  import SfvLimits
  import SfvPrintable
  import Base64

  // Canonical field values

  predicate IsSpaceByte(c: char) {
    c == ' ' || ('\t' <= c <= '\r')
  }

  function TrimRight(s: string): string {
    if s != "" && IsSpaceByte(s[|s| - 1]) then TrimRight(s[..|s| - 1]) else s
  }

  /** strings.TrimSpace for ASCII. */
  function Trim(s: string): string {
    TrimRight(s[Span(IsSpaceByte, s)..])
  }

  function CanonicalParts(values: seq<string>): Option<seq<string>> {
    if values == [] then Some([])
    else
      var first :- Normalize(values[0]);
      var rest :- CanonicalParts(values[1..]);
      Some([Trim(first)] + rest)
  }

  function CanonicalValue(values: seq<string>): Option<string> {
    var parts :- CanonicalParts(values);
    Some(Join(parts, ", "))
  }

  method CanonicalizeFieldValues(values: seq<string>) returns (r: Option<string>)
    ensures r == CanonicalValue(values)
  {
    hide Normalize, Trim;
    var parts: seq<string> := [];
    ghost var whole := CanonicalParts(values);
    assert values[0..] == values;
    assert whole.Some? ==> parts + whole.value == whole.value;
    for i := 0 to |values|
      invariant match CanonicalParts(values[i..])
                case None => whole.None?
                case Some(rest) => whole == Some(parts + rest)
    {
      var v := NormalizeLineFolding(values[i]);
      assert values[i..][1..] == values[i + 1..];
      if v.None? {
        return None;
      }
      ghost var rest := CanonicalParts(values[i + 1..]);
      if rest.Some? {
        ConcatAssociates(parts, [Trim(v.value)], rest.value);
      }
      parts := parts + [Trim(v.value)];
    }
    assert parts + [] == parts;
    return Some(Join(parts, ", "));
  }

  // Parameters of a field component

  datatype FieldParams = FieldParams(isTrailer: bool, useSf: bool, useBs: bool, keyName: string)

  /** The last value of the right type wins. */
  function ReadParam(f: FieldParams, p: ComponentParameter): FieldParams {
    if p.key == "tr" && p.value.BooleanValue? then f.(isTrailer := p.value.flag)
    else if p.key == "sf" && p.value.BooleanValue? then f.(useSf := p.value.flag)
    else if p.key == "bs" && p.value.BooleanValue? then f.(useBs := p.value.flag)
    else if p.key == "key" && p.value.StringValue? then f.(keyName := p.value.text)
    else f
  }

  function ReadParamsFrom(f: FieldParams, ps: seq<ComponentParameter>): FieldParams
    decreases |ps|
  {
    if ps == [] then f else ReadParamsFrom(ReadParam(f, ps[0]), ps[1..])
  }

  function ReadParams(ps: seq<ComponentParameter>): FieldParams {
    ReadParamsFrom(FieldParams(false, false, false, ""), ps)
  }

  method ParseHttpFieldParams(ps: seq<ComponentParameter>) returns (f: FieldParams)
    ensures f == ReadParams(ps)
  {
    f := FieldParams(false, false, false, "");
    assert ps[0..] == ps;
    for i := 0 to |ps|
      invariant ReadParamsFrom(f, ps[i..]) == ReadParams(ps)
    {
      var p := ps[i];
      assert ps[i..][1..] == ps[i + 1..];
      assert ReadParamsFrom(f, ps[i..]) == ReadParamsFrom(ReadParam(f, p), ps[i + 1..]);
      hide ReadParamsFrom;
      if p.key == "tr" {
        if p.value.BooleanValue? {
          f := f.(isTrailer := p.value.flag);
        }
      } else if p.key == "sf" {
        if p.value.BooleanValue? {
          f := f.(useSf := p.value.flag);
        }
      } else if p.key == "bs" {
        if p.value.BooleanValue? {
          f := f.(useBs := p.value.flag);
        }
      } else if p.key == "key" {
        if p.value.StringValue? {
          f := f.(keyName := p.value.text);
        }
      }
    }
  }

  // Structured fields

  /** A member of the dictionary, or the whole value read as a dictionary, else as a
      list, else as an item; always under the default limits. */
  function StructuredValue(raw: string, keyName: string): Option<string> {
    if keyName != "" then
      var d :- ParseDictionary(raw, DEFAULT_LIMITS);
      if keyName in d.values && PrintsMember(d.values[keyName]) then Some(MemberText(d.values[keyName])) else None
    else
      var dict := ParseDictionary(raw, DEFAULT_LIMITS);
      if dict.Some? then (if PrintsDictionary(dict.value) then Some(DictionaryText(dict.value)) else None)
      else
        var list := ParseList(raw, DEFAULT_LIMITS);
        if list.Some? then (if PrintsList(list.value) then Some(MembersText(list.value.members)) else None)
        else
          match ParseItem(raw, DEFAULT_LIMITS)
          case Fail => None
          case Done(item, _) => if PrintsItem(item) then Some(ItemText(item)) else None
  }

  method SerializeStructuredFieldValue(raw: string, keyName: string) returns (r: Option<string>)
    ensures r == StructuredValue(raw, keyName)
  {
    hide ParseDictionary, ParseList, ParseItem, PrintsMember, PrintsDictionary, PrintsList, PrintsItem,
      MemberText, DictionaryText, MembersText, ItemText;
    var parser := new Parser(raw, DEFAULT_LIMITS);
    var dict := parser.ParseDictionary();
    if keyName != "" {
      if dict.None? {
        return None;
      }
      if keyName !in dict.value.values {
        return None;
      }
      r := SerializeStructuredFieldMember(dict.value.values[keyName]);
      return;
    }
    if dict.Some? {
      r := SerializeDictionary(dict.value);
      return;
    }
    parser := new Parser(raw, DEFAULT_LIMITS);
    var list := parser.ParseList();
    if list.Some? {
      r := SerializeList(list.value);
      return;
    }
    parser := new Parser(raw, DEFAULT_LIMITS);
    assert raw[0..] == raw;
    var item := parser.ParseItem();
    if item.Some? {
      r := SerializeItem(item.value);
      return;
    }
    return None;
  }

  method SerializeStructuredFieldMember(m: Member) returns (r: Option<string>)
    ensures r == if PrintsMember(m) then Some(MemberText(m)) else None
  {
    hide ItemText, InnerListText, PrintsItem;
    match m {
      case Single(item) =>
        r := SerializeItem(item);
      case Inner(list) =>
        r := SerializeInnerList(list);
    }
  }

  // Field components

  /** The bytes of a text; a Go string is bytes already. */
  function Octets(s: string): seq<Octet> {
    if s == "" then [] else [s[0] as int % 256] + Octets(s[1..])
  }

  function ByteSequenceValue(raw: string): string {
    ":" + Base64.Encode(Octets(raw), true) + ":"
  }

  function FieldValue(msg: Message, c: Component): Option<string> {
    var f := ReadParams(c.parameters);
    if f.useSf && f.useBs then None
    else if f.keyName != "" && !f.useSf then None
    else
      var values := if f.isTrailer then TrailerValues(msg, c.name) else HeaderValues(msg, c.name);
      if |values| == 0 then None
      else
        var raw :- CanonicalValue(values);
        if f.useSf then StructuredValue(raw, f.keyName)
        else if f.useBs then Some(ByteSequenceValue(raw))
        else Some(raw)
  }

  method ExtractHttpFieldValue(msg: Message, c: Component) returns (r: Option<string>)
    ensures r == FieldValue(msg, c)
  {
    hide ReadParams, CanonicalValue, StructuredValue, Base64.Encode, Octets, Lookup;
    var params := ParseHttpFieldParams(c.parameters);
    if params.useSf && params.useBs {
      return None;
    }
    if params.keyName != "" && !params.useSf {
      return None;
    }
    var values;
    if params.isTrailer {
      values := TrailerValues(msg, c.name);
    } else {
      values := HeaderValues(msg, c.name);
    }
    if |values| == 0 {
      return None;
    }
    var raw := CanonicalizeFieldValues(values);
    if raw.None? {
      return None;
    }
    if params.useSf {
      r := SerializeStructuredFieldValue(raw.value, params.keyName);
      return;
    }
    if params.useBs {
      var encoded := Base64.Encode(Octets(raw.value), true);
      return Some(":" + encoded + ":");
    }
    return raw;
  }

  // Derived components

  /** The first name parameter that is a string. */
  function QueryParamName(ps: seq<ComponentParameter>): string {
    if ps == [] then ""
    else if ps[0].key == "name" && ps[0].value.StringValue? then ps[0].value.text
    else QueryParamName(ps[1..])
  }

  method FindQueryParamName(ps: seq<ComponentParameter>) returns (r: string)
    ensures r == QueryParamName(ps)
  {
    assert ps[0..] == ps;
    for i := 0 to |ps|
      invariant QueryParamName(ps[i..]) == QueryParamName(ps)
    {
      assert ps[i..][1..] == ps[i + 1..];
      if ps[i].key != "name" {
        continue;
      }
      if ps[i].value.StringValue? {
        return ps[i].value.text;
      }
    }
    return "";
  }

  function UrlOf(msg: Message): Option<Url> {
    if msg.RequestMessage? then msg.request.url else None
  }

  function PathOf(u: Url): string {
    if u.escapedPath == "" then "/" else u.escapedPath
  }

  function DerivedValue(msg: Message, c: Component): Option<string> {
    if c.name == "@method" then
      if msg.RequestMessage? then Some(msg.request.verb) else None
    else if c.name == "@status" then
      if msg.ResponseMessage? then Some(FormatInt(msg.status)) else None
    else if c.name == "@query-param" && QueryParamName(c.parameters) == "" then None
    else
      var u :- UrlOf(msg);
      match c.name
      case "@target-uri" => Some(u.full)
      case "@authority" => Some(u.host)
      case "@scheme" => Some(u.scheme)
      case "@request-target" => Some(if u.rawQuery != "" then PathOf(u) + "?" + u.rawQuery else PathOf(u))
      case "@path" => Some(PathOf(u))
      case "@query" => Some("?" + u.rawQuery)
      case "@query-param" =>
        var name := QueryParamName(c.parameters);
        if name in u.query && |u.query[name]| > 0 then Some(u.query[name][0]) else None
      case _ => None
  }

  function DirectValue(msg: Message, c: Component): Option<string> {
    match c.kind
    case Field => FieldValue(msg, c)
    case Derived => DerivedValue(msg, c)
    case Unknown(_) => None
  }

  // The related request

  /** The first req parameter decides. */
  predicate HasReq(ps: seq<ComponentParameter>) {
    if ps == [] then false
    else if ps[0].key == "req" then ps[0].value == BooleanValue(true)
    else HasReq(ps[1..])
  }

  method HasReqParameter(ps: seq<ComponentParameter>) returns (r: bool)
    ensures r == HasReq(ps)
  {
    assert ps[0..] == ps;
    for i := 0 to |ps|
      invariant HasReq(ps[i..]) == HasReq(ps)
    {
      assert ps[i..][1..] == ps[i + 1..];
      if ps[i].key != "req" {
        continue;
      }
      return ps[i].value.BooleanValue? && ps[i].value.flag;
    }
    return false;
  }

  function WithoutReq(ps: seq<ComponentParameter>): seq<ComponentParameter> {
    if ps == [] then []
    else (if ps[0].key != "req" then [ps[0]] else []) + WithoutReq(ps[1..])
  }

  lemma {:induction false} WithoutReqHasNone(ps: seq<ComponentParameter>)
    ensures forall i :: 0 <= i < |WithoutReq(ps)| ==> WithoutReq(ps)[i].key != "req"
    ensures !HasReq(WithoutReq(ps))
  {
    if ps != [] {
      WithoutReqHasNone(ps[1..]);
      var rest := WithoutReq(ps[1..]);
      assert WithoutReq(ps) == if ps[0].key != "req" then [ps[0]] + rest else rest;
      assert ps[0].key != "req" ==> WithoutReq(ps)[1..] == rest;
    }
  }

  method RemoveReq(ps: seq<ComponentParameter>) returns (r: seq<ComponentParameter>)
    ensures r == WithoutReq(ps)
  {
    hide WithoutReq;
    r := [];
    assert ps[0..] == ps && [] + WithoutReq(ps) == WithoutReq(ps);
    for i := 0 to |ps|
      invariant r + WithoutReq(ps[i..]) == WithoutReq(ps)
    {
      ghost var kept := if ps[i].key != "req" then [ps[i]] else [];
      WithoutReqStep(ps, i);
      ConcatAssociates(r, kept, WithoutReq(ps[i + 1..]));
      if ps[i].key != "req" {
        r := r + [ps[i]];
      } else {
        NothingAdded(r);
      }
    }
    NothingAdded(r);
    NoneLeft(ps);
  }

  lemma WithoutReqStep(ps: seq<ComponentParameter>, i: nat)
    requires i < |ps|
    ensures WithoutReq(ps[i..]) == (if ps[i].key != "req" then [ps[i]] else []) + WithoutReq(ps[i + 1..])
  {
    assert ps[i..][1..] == ps[i + 1..];
  }

  lemma NoneLeft(ps: seq<ComponentParameter>)
    ensures WithoutReq(ps[|ps|..]) == []
  {
  }

  function RelatedRequest(msg: Message): Option<Request> {
    if msg.ResponseMessage? then msg.related else None
  }

  function ComponentValue(msg: Message, c: Component): Option<string> {
    if HasReq(c.parameters) then
      var request :- RelatedRequest(msg);
      DirectValue(RequestMessage(request), c.(parameters := WithoutReq(c.parameters)))
    else DirectValue(msg, c)
  }

  method ExtractFromRelatedRequest(msg: Message, c: Component) returns (r: Option<string>)
    requires HasReq(c.parameters)
    ensures r == ComponentValue(msg, c)
    decreases 1
  {
    hide FieldValue, DerivedValue;
    if !msg.ResponseMessage? {
      return None;
    }
    if msg.related.None? {
      return None;
    }
    var parameters := RemoveReq(c.parameters);
    var forRequest := Component(c.name, c.kind, parameters);
    WithoutReqHasNone(c.parameters);
    r := ExtractComponentValue(RequestMessage(msg.related.value), forRequest);
  }

  /** The source recurses: the request's component has no req parameter left. */
  method ExtractComponentValue(msg: Message, c: Component) returns (r: Option<string>)
    ensures r == ComponentValue(msg, c)
    decreases if HasReq(c.parameters) then 2 else 0
  {
    hide FieldValue, DerivedValue;
    var hasReq := HasReqParameter(c.parameters);
    if hasReq {
      r := ExtractFromRelatedRequest(msg, c);
      return;
    }
    match c.kind {
      case Field =>
        r := ExtractHttpFieldValue(msg, c);
      case Derived =>
        r := DerivedValue(msg, c);
      case Unknown(_) =>
        r := None;
    }
  }

  // No field value has a newline

  lemma NoNewlineConcat(a: string, b: string)
    ensures NoNewline(a + b) <==> NoNewline(a) && NoNewline(b)
  {
    hide IsNewline;
    if NoNewline(a + b) {
      assert forall i :: 0 <= i < |a| ==> a[i] == (a + b)[i];
      assert forall i :: 0 <= i < |b| ==> b[i] == (a + b)[|a| + i];
    }
  }

  lemma PrintableHasNoNewline(s: string)
    requires AllPrintable(s)
    ensures NoNewline(s)
  {
  }

  lemma {:induction false} TrimRightIsPrefix(s: string) returns (n: nat)
    ensures n <= |s| && TrimRight(s) == s[..n]
  {
    if s != "" && IsSpaceByte(s[|s| - 1]) {
      n := TrimRightIsPrefix(s[..|s| - 1]);
      assert s[..|s| - 1][..n] == s[..n];
    } else {
      n := |s|;
    }
  }

  lemma TrimKeepsNoNewline(s: string)
    requires NoNewline(s)
    ensures NoNewline(Trim(s))
  {
    hide IsNewline, IsSpaceByte;
    var k := Span(IsSpaceByte, s);
    var n := TrimRightIsPrefix(s[k..]);
    assert forall i :: 0 <= i < n ==> s[k..][..n][i] == s[k + i];
  }

  /** A trimmed value has no white space at either end. */
  lemma TrimEnds(s: string)
    ensures var t := Trim(s); t != "" ==> !IsSpaceByte(t[0]) && !IsSpaceByte(t[|t| - 1])
  {
    var k := Span(IsSpaceByte, s);
    var n := TrimRightIsPrefix(s[k..]);
    TrimRightEnds(s[k..]);
  }

  lemma {:induction false} TrimRightEnds(s: string)
    ensures var t := TrimRight(s); t != "" ==> !IsSpaceByte(t[|t| - 1])
  {
    if s != "" && IsSpaceByte(s[|s| - 1]) {
      TrimRightEnds(s[..|s| - 1]);
    }
  }

  lemma {:induction false} JoinKeepsNoNewline(parts: seq<string>)
    requires forall i :: 0 <= i < |parts| ==> NoNewline(parts[i])
    ensures NoNewline(Join(parts, ", "))
  {
    hide NoNewline;
    if parts == [] {
      PrintableHasNoNewline("");
    } else if |parts| > 1 {
      JoinKeepsNoNewline(parts[1..]);
      PrintableHasNoNewline(", ");
      NoNewlineConcat(parts[0], ", ");
      NoNewlineConcat(parts[0] + ", ", Join(parts[1..], ", "));
    }
  }

  lemma {:induction false} PartsHaveNoNewline(values: seq<string>)
    requires CanonicalParts(values).Some?
    ensures forall i :: 0 <= i < |CanonicalParts(values).value| ==> NoNewline(CanonicalParts(values).value[i])
  {
    hide Normalize, Trim, NoNewline;
    if values != [] {
      NormalizedHasNoNewline(values[0]);
      TrimKeepsNoNewline(Normalize(values[0]).value);
      PartsHaveNoNewline(values[1..]);
    }
  }

  lemma StructuredHasNoNewline(raw: string, keyName: string)
    requires StructuredValue(raw, keyName).Some?
    ensures NoNewline(StructuredValue(raw, keyName).value)
  {
    hide PrintsMember, PrintsDictionary, PrintsList, PrintsItem, ParseItem, ParseDictionary, ParseList,
      MemberText, EntriesText, MembersText, ItemText, FitsMember, FitsItem, FitsToken, NoNewline, AllPrintable;
    var dict := ParseDictionary(raw, DEFAULT_LIMITS);
    if dict.Some? {
      var d := dict.value;
      SfvLimits.DictionaryLimits(raw, DEFAULT_LIMITS, DEFAULT_LIMITS);
      if keyName != "" {
        assert exists i :: 0 <= i < |d.keys| && d.keys[i] == keyName;
        SfvPrintable.MemberPrintable(d.values[keyName], DEFAULT_LIMITS);
      } else {
        SfvPrintable.EntriesPrintable(d.keys, d.values, DEFAULT_LIMITS);
      }
    } else {
      var list := ParseList(raw, DEFAULT_LIMITS);
      if list.Some? {
        SfvLimits.ListLimits(raw, DEFAULT_LIMITS, DEFAULT_LIMITS);
        SfvPrintable.MembersPrintable(list.value.members, DEFAULT_LIMITS);
      } else {
        SfvLimits.ItemLimits(raw, DEFAULT_LIMITS, DEFAULT_LIMITS);
        SfvPrintable.ItemPrintable(ParseItem(raw, DEFAULT_LIMITS).value, DEFAULT_LIMITS);
      }
    }
    PrintableHasNoNewline(StructuredValue(raw, keyName).value);
  }

  /** Whatever the parameters, a field value has no CR and no LF: field components
      cannot break the lines of a signature base. */
  lemma FieldValueHasNoNewline(msg: Message, c: Component)
    requires FieldValue(msg, c).Some?
    ensures NoNewline(FieldValue(msg, c).value)
  {
    hide ReadParams, StructuredValue, CanonicalParts, NoNewline, Lookup, AllPrintable, Base64.Encode, Octets;
    var f := ReadParams(c.parameters);
    var values := if f.isTrailer then TrailerValues(msg, c.name) else HeaderValues(msg, c.name);
    var raw := CanonicalValue(values).value;
    if f.useSf {
      StructuredHasNoNewline(raw, f.keyName);
    } else if f.useBs {
      SfvPrintable.Base64Printable(Octets(raw));
      PrintableHasNoNewline(ByteSequenceValue(raw));
    } else {
      PartsHaveNoNewline(values);
      JoinKeepsNoNewline(CanonicalParts(values).value);
    }
  }
}
