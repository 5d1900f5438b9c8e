/** The signer's header values: Signature-Input through the dictionary serializer,
    Signature directly; and the round trip of the metadata through the parser. */
module SignatureInput {
  import opened Wrappers
  import opened SfvTypes
  import opened SfvGrammar
  import opened SfvWriter
  import opened SignatureTypes
  import SignatureParser
  import SfvLimits
  import SfvRoundTrip
  import Base64

  function ToSfv(v: Value): BareItem {
    match v
    case BooleanValue(b) => Boolean(b)
    case IntegerValue(n) => Integer(n)
    case StringValue(s) => Str(s)
    case TokenValue(t) => Token(t)
    case BytesValue(bs) => ByteSequence(bs)
    case Nil => Unsupported
  }

  function ToSfvParameter(p: ComponentParameter): Parameter {
    Parameter(p.key, ToSfv(p.value))
  }

  function ToSfvParameters(ps: seq<ComponentParameter>): (r: seq<Parameter>)
    ensures |r| == |ps|
    ensures forall i :: 0 <= i < |ps| ==> r[i] == ToSfvParameter(ps[i])
  {
    if ps == [] then [] else [ToSfvParameter(ps[0])] + ToSfvParameters(ps[1..])
  }

  function ToSfvItem(c: Component): Item {
    Item(Str(c.name), ToSfvParameters(c.parameters))
  }

  function ToSfvItems(cs: seq<Component>): (r: seq<Item>)
    ensures |r| == |cs|
    ensures forall i :: 0 <= i < |cs| ==> r[i] == ToSfvItem(cs[i])
  {
    if cs == [] then [] else [ToSfvItem(cs[0])] + ToSfvItems(cs[1..])
  }

  function IntParameter(key: string, v: Option<int64>): seq<Parameter> {
    if v.Some? then [Parameter(key, Integer(v.value))] else []
  }

  function StringParameter(key: string, v: Option<string>): seq<Parameter> {
    if v.Some? then [Parameter(key, Str(v.value))] else []
  }

  /** The order of section 2.3 of RFC 9421; absent parameters leave no trace. */
  function ToSfvSignatureParams(p: SignatureParams): seq<Parameter> {
    IntParameter("created", p.created) + IntParameter("expires", p.expires) + StringParameter("nonce", p.nonce)
    + StringParameter("alg", p.algorithm) + StringParameter("keyid", p.keyId) + StringParameter("tag", p.tag)
  }

  function InputList(cs: seq<Component>, p: SignatureParams): InnerList {
    InnerList(ToSfvItems(cs), ToSfvSignatureParams(p))
  }

  function InputDictionary(labelText: string, cs: seq<Component>, p: SignatureParams): Dictionary {
    Dictionary([labelText], map[labelText := Inner(InputList(cs, p))])
  }

  function InputText(labelText: string, cs: seq<Component>, p: SignatureParams): string {
    labelText + "=" + InnerListText(InputList(cs, p))
  }

  function SignatureDictionary(labelText: string, signature: seq<Octet>): Dictionary {
    Dictionary([labelText], map[labelText := Single(Item(ByteSequence(signature), []))])
  }

  function SignatureText(labelText: string, signature: seq<Octet>): string {
    labelText + "=:" + Base64.Encode(signature, true) + ":"
  }

  method ComponentParamsToSfv(ps: seq<ComponentParameter>) returns (r: seq<Parameter>)
    ensures r == ToSfvParameters(ps)
  {
    if |ps| == 0 {
      return [];
    }
    r := [];
    for i := 0 to |ps|
      invariant |r| == i
      invariant forall j :: 0 <= j < i ==> r[j] == ToSfvParameter(ps[j])
    {
      r := r + [Parameter(ps[i].key, ToSfv(ps[i].value))];
    }
  }

  method SignatureParamsToSfv(p: SignatureParams) returns (r: seq<Parameter>)
    ensures r == ToSfvSignatureParams(p)
  {
    r := [];
    if p.created.Some? {
      r := r + [Parameter("created", Integer(p.created.value))];
    }
    assert r == IntParameter("created", p.created);
    if p.expires.Some? {
      r := r + [Parameter("expires", Integer(p.expires.value))];
    }
    ghost var r2 := IntParameter("created", p.created) + IntParameter("expires", p.expires);
    assert r == r2;
    if p.nonce.Some? {
      r := r + [Parameter("nonce", Str(p.nonce.value))];
    }
    ghost var r3 := r2 + StringParameter("nonce", p.nonce);
    assert r == r3;
    if p.algorithm.Some? {
      r := r + [Parameter("alg", Str(p.algorithm.value))];
    }
    ghost var r4 := r3 + StringParameter("alg", p.algorithm);
    assert r == r4;
    if p.keyId.Some? {
      r := r + [Parameter("keyid", Str(p.keyId.value))];
    }
    ghost var r5 := r4 + StringParameter("keyid", p.keyId);
    assert r == r5;
    if p.tag.Some? {
      r := r + [Parameter("tag", Str(p.tag.value))];
    }
    assert r == r5 + StringParameter("tag", p.tag);
  }

  /** Fails exactly for an empty label or a parameter without a value. */
  method SerializeSignatureInput(labelText: string, cs: seq<Component>, p: SignatureParams) returns (r: Option<string>)
    ensures r == if labelText != "" && PrintsMember(Inner(InputList(cs, p)))
                 then Some(InputText(labelText, cs, p))
                 else None
  {
    if labelText == "" {
      return None;
    }
    var items: seq<Item> := [];
    for i := 0 to |cs|
      invariant |items| == i
      invariant forall j :: 0 <= j < i ==> items[j] == ToSfvItem(cs[j])
    {
      var params := ComponentParamsToSfv(cs[i].parameters);
      items := items + [Item(Str(cs[i].name), params)];
    }
    var params := SignatureParamsToSfv(p);
    var d := Dictionary([labelText], map[labelText := Inner(InnerList(items, params))]);
    assert items == ToSfvItems(cs);
    hide PrintsMember, InnerListText, ToSfvItems, ToSfvSignatureParams;
    r := SerializeDictionary(d);
    InputTextIsDictionary(labelText, cs, p);
  }

  method SerializeSignature(labelText: string, signature: seq<Octet>) returns (r: Option<string>)
    ensures r == if labelText != "" then Some(SignatureText(labelText, signature)) else None
  {
    if labelText == "" {
      return None;
    }
    var encoded := Base64.Encode(signature, true);
    var sb := new StringBuilder();
    sb.WriteString(labelText);
    assert sb.contents == labelText;
    sb.WriteString("=:");
    sb.WriteString(encoded);
    sb.WriteString(":");
    return Some(sb.contents);
  }

  lemma InputTextIsDictionary(labelText: string, cs: seq<Component>, p: SignatureParams)
    ensures DictionaryText(InputDictionary(labelText, cs, p)) == InputText(labelText, cs, p)
    ensures PrintsDictionary(InputDictionary(labelText, cs, p)) == PrintsMember(Inner(InputList(cs, p)))
  {
    hide InnerListText, InputList, PrintsMember;
    var d := InputDictionary(labelText, cs, p);
    if PrintsMember(Inner(InputList(cs, p))) {
      assert PrintsDictionary(d);
    } else {
      assert !PrintsMember(d.values[d.keys[0]]);
    }
  }

  /** The direct form of the Signature header is the serialized one-entry dictionary. */
  lemma SignatureTextIsDictionary(labelText: string, signature: seq<Octet>)
    ensures DictionaryText(SignatureDictionary(labelText, signature)) == SignatureText(labelText, signature)
  {
    hide Base64.Encode;
    var m := Single(Item(ByteSequence(signature), []));
    assert MemberText(m) == ":" + Base64.Encode(signature, true) + ":";
  }

  // Round trip

  /** The metadata can be said in a Signature-Input header within the limits, and the
      components pass validation. */
  predicate Expressible(labelText: string, cs: seq<Component>, p: SignatureParams, limits: Limits) {
    && FitsToken(labelText, limits)
    && FitsMember(Inner(InputList(cs, p)), limits)
    && Within(|InputText(labelText, cs, p)|, limits.maxInputLength)
    && forall i :: 0 <= i < |cs| ==> ValidComponent(cs[i]) && cs[i].kind == KindOf(cs[i].name)
  }

  lemma ConvertToSfv(v: Value, limits: Limits)
    requires FitsBareItem(ToSfv(v), limits)
    ensures SignatureParser.ConvertBareItem(ToSfv(v)) == v
  {
  }

  lemma ConvertComponent(c: Component, limits: Limits)
    requires FitsItem(ToSfvItem(c), limits) && ValidComponent(c) && c.kind == KindOf(c.name)
    ensures SignatureParser.ConvertItem(ToSfvItem(c)) == Some(c)
  {
    hide ValidComponent, FitsBareItem, FitsToken, ToSfv;
    var item := ToSfvItem(c);
    forall i | 0 <= i < |c.parameters|
      ensures SignatureParser.ConvertParameters(item.parameters)[i] == c.parameters[i]
    {
      assert FitsParameter(item.parameters[i], limits);
      ConvertToSfv(c.parameters[i].value, limits);
    }
    assert SignatureParser.ConvertParameters(item.parameters) == c.parameters;
  }

  lemma {:induction false} ConvertComponents(cs: seq<Component>, limits: Limits)
    requires FitsItems(ToSfvItems(cs), limits)
    requires forall i :: 0 <= i < |cs| ==> ValidComponent(cs[i]) && cs[i].kind == KindOf(cs[i].name)
    ensures SignatureParser.ConvertItems(ToSfvItems(cs)) == Some(cs)
  {
    hide FitsItem, ValidComponent, SignatureParser.ConvertItem, ToSfvItem, KindOf;
    if cs != [] {
      var items := ToSfvItems(cs);
      assert items[1..] == ToSfvItems(cs[1..]);
      ConvertComponents(cs[1..], limits);
      ConvertComponent(cs[0], limits);
      assert cs == [cs[0]] + cs[1..];
    }
  }

  lemma {:induction false} ExtractAppend(sp: SignatureParams, a: seq<Parameter>, b: seq<Parameter>)
    ensures SignatureParser.ExtractFrom(sp, a + b) ==
            match SignatureParser.ExtractFrom(sp, a)
            case None => None
            case Some(next) => SignatureParser.ExtractFrom(next, b)
    decreases |a|
  {
    hide SignatureParser.ExtractOne;
    if a == [] {
      assert a + b == b;
    } else {
      assert (a + b)[1..] == a[1..] + b;
      var next := SignatureParser.ExtractOne(sp, a[0]);
      if next.Some? {
        ExtractAppend(next.value, a[1..], b);
      }
    }
  }

  lemma ExtractKnown(sp: SignatureParams, n: Option<int64>, s: Option<string>)
    ensures SignatureParser.ExtractFrom(sp, IntParameter("created", n)) ==
            Some(if n.Some? then sp.(created := n) else sp)
    ensures SignatureParser.ExtractFrom(sp, IntParameter("expires", n)) ==
            Some(if n.Some? then sp.(expires := n) else sp)
    ensures SignatureParser.ExtractFrom(sp, StringParameter("nonce", s)) ==
            Some(if s.Some? then sp.(nonce := s) else sp)
    ensures SignatureParser.ExtractFrom(sp, StringParameter("alg", s)) ==
            Some(if s.Some? then sp.(algorithm := s) else sp)
    ensures SignatureParser.ExtractFrom(sp, StringParameter("keyid", s)) ==
            Some(if s.Some? then sp.(keyId := s) else sp)
    ensures SignatureParser.ExtractFrom(sp, StringParameter("tag", s)) == Some(if s.Some? then sp.(tag := s) else sp)
  {
  }

  /** Extraction undoes the assembly of the parameters, absent ones included. */
  lemma ExtractSignatureParams(p: SignatureParams)
    ensures SignatureParser.ExtractFrom(NO_PARAMS, ToSfvSignatureParams(p)) == Some(p)
  {
    var p0 := NO_PARAMS;
    var p1 := p0.(created := p.created);
    var p2 := p1.(expires := p.expires);
    var p3 := p2.(nonce := p.nonce);
    var p4 := p3.(algorithm := p.algorithm);
    var p5 := p4.(keyId := p.keyId);
    var a1 := IntParameter("created", p.created);
    var a2 := a1 + IntParameter("expires", p.expires);
    var a3 := a2 + StringParameter("nonce", p.nonce);
    var a4 := a3 + StringParameter("alg", p.algorithm);
    var a5 := a4 + StringParameter("keyid", p.keyId);
    ExtractKnown(p0, p.created, None);
    ExtractKnown(p1, p.expires, None);
    ExtractKnown(p2, None, p.nonce);
    ExtractKnown(p3, None, p.algorithm);
    ExtractKnown(p4, None, p.keyId);
    ExtractKnown(p5, None, p.tag);
    hide IntParameter, StringParameter, SignatureParser.ExtractFrom;
    ExtractAppend(p0, a1, IntParameter("expires", p.expires));
    ExtractAppend(p0, a2, StringParameter("nonce", p.nonce));
    ExtractAppend(p0, a3, StringParameter("alg", p.algorithm));
    ExtractAppend(p0, a4, StringParameter("keyid", p.keyId));
    ExtractAppend(p0, a5, StringParameter("tag", p.tag));
  }

  lemma ExpressibleReadsBack(labelText: string, cs: seq<Component>, p: SignatureParams, limits: Limits)
    requires Expressible(labelText, cs, p, limits)
    ensures SignatureParser.InputEntries(InputText(labelText, cs, p), limits) ==
            Some(map[labelText := SignatureEntry(labelText, cs, p, [])])
  {
    hide FitsItems, FitsParameters, ToSfvItems, ToSfvSignatureParams, InnerListText, ValidComponent,
      SignatureParser.ConvertItems, SignatureParser.ExtractFrom, ParseDictionary, KindOf;
    var d := InputDictionary(labelText, cs, p);
    InputTextIsDictionary(labelText, cs, p);
    SfvRoundTrip.DictionaryRoundTrip(d, limits);
    ConvertComponents(cs, limits);
    ExtractSignatureParams(p);
    var entry := SignatureEntry(labelText, cs, p, []);
    assert SignatureParser.EntryFromInput(labelText, d.values[labelText]) == Some(entry);
    hide SignatureParser.EntryFromInput, DictionaryText, InputList;
    assert SignatureParser.EntriesOf(d).value == map[labelText := entry];
  }

  // What has been parsed can be printed within the same limits

  lemma ConvertedParameter(p: Parameter, limits: Limits)
    requires FitsParameter(p, limits)
    ensures ToSfvParameter(ComponentParameter(p.key, SignatureParser.ConvertBareItem(p.value))) == p
  {
    hide FitsToken;
  }

  lemma ConvertedItem(item: Item, limits: Limits)
    requires FitsItem(item, limits) && SignatureParser.ConvertItem(item).Some?
    ensures var c := SignatureParser.ConvertItem(item).value;
            ToSfvItem(c) == item && ValidComponent(c) && c.kind == KindOf(c.name)
  {
    hide ValidComponent, FitsBareItem, FitsParameter, KindOf, ToSfvParameter, SignatureParser.ConvertBareItem;
    var c := SignatureParser.ConvertItem(item).value;
    forall i | 0 <= i < |item.parameters|
      ensures ToSfvParameters(c.parameters)[i] == item.parameters[i]
    {
      ConvertedParameter(item.parameters[i], limits);
    }
    assert ToSfvParameters(c.parameters) == item.parameters;
  }

  lemma ConvertedItems(items: seq<Item>, limits: Limits)
    requires FitsItems(items, limits) && SignatureParser.ConvertItems(items).Some?
    ensures var cs := SignatureParser.ConvertItems(items).value;
            && ToSfvItems(cs) == items
            && forall i :: 0 <= i < |cs| ==> ValidComponent(cs[i]) && cs[i].kind == KindOf(cs[i].name)
  {
    hide FitsItem, ToSfvItem, ValidComponent, KindOf, SignatureParser.ConvertItem;
    var cs := SignatureParser.ConvertItems(items).value;
    forall i | 0 <= i < |items|
      ensures ToSfvItems(cs)[i] == items[i] && ValidComponent(cs[i]) && cs[i].kind == KindOf(cs[i].name)
    {
      ConvertedItem(items[i], limits);
    }
    assert ToSfvItems(cs) == items;
  }

  predicate AllFit(ps: seq<Parameter>, limits: Limits) {
    forall i :: 0 <= i < |ps| ==> FitsParameter(ps[i], limits)
  }

  predicate TimesFit(sp: SignatureParams, limits: Limits) {
    AllFit(IntParameter("created", sp.created), limits) && AllFit(IntParameter("expires", sp.expires), limits)
  }

  predicate TextsFit(sp: SignatureParams, limits: Limits) {
    && AllFit(StringParameter("nonce", sp.nonce), limits) && AllFit(StringParameter("alg", sp.algorithm), limits)
    && AllFit(StringParameter("keyid", sp.keyId), limits) && AllFit(StringParameter("tag", sp.tag), limits)
  }

  lemma TogetherFit(sp: SignatureParams, limits: Limits)
    requires TimesFit(sp, limits) && TextsFit(sp, limits)
    ensures AllFit(ToSfvSignatureParams(sp), limits)
  {
    hide FitsParameter, IntParameter, StringParameter;
  }

  lemma ExtractedValue(p: Parameter)
    ensures SignatureParser.ExtractInt(p.value).Some? ==>
              IntParameter(p.key, SignatureParser.ExtractInt(p.value)) == [p]
    ensures SignatureParser.ExtractString(p.value).Some? ==>
              StringParameter(p.key, SignatureParser.ExtractString(p.value)) == [p]
  {
  }

  lemma ExtractedTimesFit(sp: SignatureParams, p: Parameter, limits: Limits)
    requires TimesFit(sp, limits) && FitsParameter(p, limits) && SignatureParser.ExtractOne(sp, p).Some?
    ensures TimesFit(SignatureParser.ExtractOne(sp, p).value, limits)
  {
    ExtractedValue(p);
    hide FitsParameter, IntParameter, SignatureParser.ExtractInt, SignatureParser.ExtractString;
  }

  lemma ExtractedTextsFit(sp: SignatureParams, p: Parameter, limits: Limits)
    requires TextsFit(sp, limits) && FitsParameter(p, limits) && SignatureParser.ExtractOne(sp, p).Some?
    ensures TextsFit(SignatureParser.ExtractOne(sp, p).value, limits)
  {
    ExtractedValue(p);
    hide FitsParameter, StringParameter, SignatureParser.ExtractInt, SignatureParser.ExtractString;
  }

  function Count<T>(v: Option<T>): nat {
    if v.Some? then 1 else 0
  }

  function CountSet(sp: SignatureParams): nat {
    Count(sp.created) + Count(sp.expires) + Count(sp.nonce) + Count(sp.algorithm) + Count(sp.keyId) + Count(sp.tag)
  }

  lemma EachSetIsOne(sp: SignatureParams)
    ensures |ToSfvSignatureParams(sp)| == CountSet(sp)
  {
  }

  /** At most one parameter is set, the others stay. */
  ghost predicate SetsOne(a: SignatureParams, b: SignatureParams) {
    || b == a
    || (b.created.Some? && b == a.(created := b.created))
    || (b.expires.Some? && b == a.(expires := b.expires))
    || (b.nonce.Some? && b == a.(nonce := b.nonce))
    || (b.algorithm.Some? && b == a.(algorithm := b.algorithm))
    || (b.keyId.Some? && b == a.(keyId := b.keyId))
    || (b.tag.Some? && b == a.(tag := b.tag))
  }

  lemma ExtractOneSetsOne(sp: SignatureParams, p: Parameter)
    requires SignatureParser.ExtractOne(sp, p).Some?
    ensures SetsOne(sp, SignatureParser.ExtractOne(sp, p).value)
  {
    hide SignatureParser.ExtractInt, SignatureParser.ExtractString;
  }

  lemma ExtractOneAddsOne(sp: SignatureParams, p: Parameter)
    requires SignatureParser.ExtractOne(sp, p).Some?
    ensures CountSet(SignatureParser.ExtractOne(sp, p).value) <= CountSet(sp) + 1
  {
    hide SignatureParser.ExtractOne;
    ExtractOneSetsOne(sp, p);
  }

  /** Extracted parameters are no more than were there, and fit where those fit. */
  lemma {:induction false} ExtractedFits(sp: SignatureParams, ps: seq<Parameter>, limits: Limits)
    requires TimesFit(sp, limits) && TextsFit(sp, limits) && AllFit(ps, limits)
    requires SignatureParser.ExtractFrom(sp, ps).Some?
    ensures var extracted := ToSfvSignatureParams(SignatureParser.ExtractFrom(sp, ps).value);
            AllFit(extracted, limits) && |extracted| <= CountSet(sp) + |ps|
    decreases |ps|
  {
    hide TimesFit, TextsFit, FitsParameter, SignatureParser.ExtractOne, ToSfvSignatureParams, CountSet;
    if ps == [] {
      TogetherFit(sp, limits);
      EachSetIsOne(sp);
    } else {
      ExtractedTimesFit(sp, ps[0], limits);
      ExtractedTextsFit(sp, ps[0], limits);
      ExtractOneAddsOne(sp, ps[0]);
      ExtractedFits(SignatureParser.ExtractOne(sp, ps[0]).value, ps[1..], limits);
    }
  }

  lemma ExtractedParametersFit(ps: seq<Parameter>, limits: Limits)
    requires FitsParameters(ps, limits) && SignatureParser.ExtractFrom(NO_PARAMS, ps).Some?
    ensures FitsParameters(ToSfvSignatureParams(SignatureParser.ExtractFrom(NO_PARAMS, ps).value), limits)
  {
    assert TimesFit(NO_PARAMS, limits) && TextsFit(NO_PARAMS, limits) && CountSet(NO_PARAMS) == 0;
    hide FitsParameter, TimesFit, TextsFit, CountSet, ToSfvSignatureParams, SignatureParser.ExtractFrom;
    ExtractedFits(NO_PARAMS, ps, limits);
  }

  lemma EntryFits(labelText: string, list: InnerList, limits: Limits)
    requires FitsMember(Inner(list), limits) && SignatureParser.EntryFromInput(labelText, Inner(list)).Some?
    ensures var entry := SignatureParser.EntryFromInput(labelText, Inner(list)).value;
            && entry == SignatureEntry(labelText, entry.components, entry.params, [])
            && FitsMember(Inner(InputList(entry.components, entry.params)), limits)
            && forall i :: 0 <= i < |entry.components| ==>
                             ValidComponent(entry.components[i])
                             && entry.components[i].kind == KindOf(entry.components[i].name)
  {
    hide FitsItems, FitsParameters, ToSfvItems, ToSfvSignatureParams, SignatureParser.ConvertItems,
      SignatureParser.ExtractFrom, ValidComponent, KindOf;
    ConvertedItems(list.items, limits);
    ExtractedParametersFit(list.parameters, limits);
  }

  /** Whatever has been parsed: its label and its metadata fit the limits, and its
      components are valid and of the type their name says. */
  lemma ParsedFits(header: string, labelText: string, limits: Limits)
    requires SignatureParser.InputEntries(header, limits).Some?
    requires labelText in SignatureParser.InputEntries(header, limits).value
    ensures var entry := SignatureParser.InputEntries(header, limits).value[labelText];
            && entry == SignatureEntry(labelText, entry.components, entry.params, [])
            && FitsToken(labelText, limits)
            && FitsMember(Inner(InputList(entry.components, entry.params)), limits)
            && forall i :: 0 <= i < |entry.components| ==>
                             ValidComponent(entry.components[i])
                             && entry.components[i].kind == KindOf(entry.components[i].name)
  {
    hide ParseDictionary, SignatureParser.EntryFromInput, FitsMember, FitsToken, ValidComponent, KindOf, InputList;
    SfvLimits.DictionaryLimits(header, limits, limits);
    var d := ParseDictionary(header, limits).value;
    var k :| 0 <= k < |d.keys| && d.keys[k] == labelText;
    var m := d.values[labelText];
    assert SignatureParser.EntryFromInput(labelText, m).Some?;
    IsInnerList(labelText, m);
    EntryFits(labelText, m.list, limits);
  }

  lemma IsInnerList(labelText: string, m: Member)
    requires SignatureParser.EntryFromInput(labelText, m).Some?
    ensures m.Inner?
  {
  }

  /** Parsing a printed Signature-Input gives exactly one entry: its label, its components
      with the type recovered from the name, and its parameters; if and only if they can
      be said within the limits. So this is also which signer configurations a verifier
      does not read back as themselves, though the signer prints them. */
  lemma {:induction false} MetadataRoundTrip(labelText: string, cs: seq<Component>, p: SignatureParams, limits: Limits)
    ensures SignatureParser.InputEntries(InputText(labelText, cs, p), limits) ==
            Some(map[labelText := SignatureEntry(labelText, cs, p, [])])
            <==> Expressible(labelText, cs, p, limits)
  {
    hide FitsToken, FitsMember, InputList, SignatureParser.EntriesOf, ParseDictionaryFrom, ValidComponent, KindOf,
      InputText;
    if Expressible(labelText, cs, p, limits) {
      ExpressibleReadsBack(labelText, cs, p, limits);
    }
    var entry := SignatureEntry(labelText, cs, p, []);
    if SignatureParser.InputEntries(InputText(labelText, cs, p), limits) == Some(map[labelText := entry]) {
      ParsedFits(InputText(labelText, cs, p), labelText, limits);
    }
  }

  /** The Signature header parses to its one byte sequence. */
  lemma SignatureRoundTrip(labelText: string, signature: seq<Octet>, limits: Limits)
    requires FitsToken(labelText, limits) && Within(|signature|, limits.maxByteSequenceLength)
    requires Within(|SignatureText(labelText, signature)|, limits.maxInputLength)
    ensures ParseDictionary(SignatureText(labelText, signature), limits) ==
            Some(SignatureDictionary(labelText, signature))
  {
    SignatureTextIsDictionary(labelText, signature);
    hide ParseDictionary, DictionaryText, SignatureText, FitsToken;
    SfvRoundTrip.DictionaryRoundTrip(SignatureDictionary(labelText, signature), limits);
  }
}
