/** Signature-Input and Signature headers: dictionaries of inner lists and of byte
    sequences, read into signature entries. */
module SignatureParser {
  import opened Wrappers
  import opened SfvTypes
  import opened SfvParser
  import opened SignatureTypes
  import SfvGrammar
  import SfvLimits

  /** A parsed bare item is never Unsupported; the source would print it as nil. */
  function ConvertBareItem(v: BareItem): Value {
    match v
    case Boolean(b) => BooleanValue(b)
    case Integer(n) => IntegerValue(n)
    case Token(t) => TokenValue(t)
    case Str(s) => StringValue(s)
    case ByteSequence(bs) => BytesValue(bs)
    case Unsupported => StringValue("<nil>")
  }

  function ConvertParameters(ps: seq<Parameter>): (r: seq<ComponentParameter>)
    ensures |r| == |ps|
    ensures forall i :: 0 <= i < |ps| ==> r[i] == ComponentParameter(ps[i].key, ConvertBareItem(ps[i].value))
  {
    if ps == [] then []
    else [ComponentParameter(ps[0].key, ConvertBareItem(ps[0].value))] + ConvertParameters(ps[1..])
  }

  /** A covered component: a string, typed by its first byte, valid as an identifier. */
  function ConvertItem(item: Item): Option<Component> {
    match item.value
    case Str(name) =>
      var c := Component(name, KindOf(name), ConvertParameters(item.parameters));
      if ValidComponent(c) then Some(c) else None
    case _ => None
  }

  function ConvertItems(items: seq<Item>): (r: Option<seq<Component>>)
    ensures r.Some? <==> forall i :: 0 <= i < |items| ==> ConvertItem(items[i]).Some?
    ensures r.Some? ==> |r.value| == |items|
    ensures r.Some? ==> forall i :: 0 <= i < |items| ==> ConvertItem(items[i]) == Some(r.value[i])
  {
    hide ConvertItem;
    if items == [] then Some([])
    else
      var c :- ConvertItem(items[0]);
      var cs :- ConvertItems(items[1..]);
      Some([c] + cs)
  }

  // Signature parameters

  function ExtractInt(v: BareItem): Option<int64> {
    if v.Integer? then Some(v.number) else None
  }

  function ExtractString(v: BareItem): Option<string> {
    if v.Str? then Some(v.text) else None
  }

  /** A known key needs its type; an unknown key is ignored. */
  function ExtractOne(sp: SignatureParams, p: Parameter): Option<SignatureParams> {
    if p.key == "created" then
      var n :- ExtractInt(p.value);
      Some(sp.(created := Some(n)))
    else if p.key == "expires" then
      var n :- ExtractInt(p.value);
      Some(sp.(expires := Some(n)))
    else if p.key == "nonce" then
      var s :- ExtractString(p.value);
      Some(sp.(nonce := Some(s)))
    else if p.key == "alg" then
      var s :- ExtractString(p.value);
      Some(sp.(algorithm := Some(s)))
    else if p.key == "keyid" then
      var s :- ExtractString(p.value);
      Some(sp.(keyId := Some(s)))
    else if p.key == "tag" then
      var s :- ExtractString(p.value);
      Some(sp.(tag := Some(s)))
    else Some(sp)
  }

  function ExtractFrom(sp: SignatureParams, ps: seq<Parameter>): Option<SignatureParams>
    decreases |ps|
  {
    if ps == [] then Some(sp)
    else
      var next :- ExtractOne(sp, ps[0]);
      ExtractFrom(next, ps[1..])
  }

  method ExtractSignatureParams(ps: seq<Parameter>) returns (r: Option<SignatureParams>)
    ensures r == ExtractFrom(NO_PARAMS, ps)
  {
    var sp := NO_PARAMS;
    for i := 0 to |ps|
      invariant ExtractFrom(sp, ps[i..]) == ExtractFrom(NO_PARAMS, ps)
    {
      var key, value := ps[i].key, ps[i].value;
      assert ps[i..][1..] == ps[i + 1..];
      assert ExtractFrom(sp, ps[i..]) ==
             match ExtractOne(sp, ps[i]) case None => None case Some(next) => ExtractFrom(next, ps[i + 1..]);
      hide ExtractFrom;
      if key == "created" || key == "expires" {
        var n := ExtractInt(value);
        if n.None? {
          return None;
        }
        if key == "created" {
          sp := sp.(created := n);
        } else {
          sp := sp.(expires := n);
        }
      } else if key == "nonce" || key == "alg" || key == "keyid" || key == "tag" {
        var s := ExtractString(value);
        if s.None? {
          return None;
        }
        if key == "nonce" {
          sp := sp.(nonce := s);
        } else if key == "alg" {
          sp := sp.(algorithm := s);
        } else if key == "keyid" {
          sp := sp.(keyId := s);
        } else {
          sp := sp.(tag := s);
        }
      }
    }
    return Some(sp);
  }

  // Entries

  function EntryFromInput(labelText: string, m: Member): Option<SignatureEntry> {
    match m
    case Single(_) => None
    case Inner(list) =>
      var components :- ConvertItems(list.items);
      var params :- ExtractFrom(NO_PARAMS, list.parameters);
      Some(SignatureEntry(labelText, components, params, []))
  }

  method ParseSignatureEntryFromInput(labelText: string, m: Member) returns (r: Option<SignatureEntry>)
    ensures r == EntryFromInput(labelText, m)
  {
    hide ExtractFrom, ValidComponent;
    if !m.Inner? {
      return None;
    }
    var components: seq<Component> := [];
    for i := 0 to |m.list.items|
      invariant |components| == i
      invariant forall j :: 0 <= j < i ==> ConvertItem(m.list.items[j]) == Some(components[j])
    {
      var item := m.list.items[i];
      if !item.value.Str? {
        assert ConvertItem(item).None?;
        return None;
      }
      var name := item.value.text;
      var kind := Field;
      if |name| > 0 && name[0] == '@' {
        kind := Derived;
      }
      var parameters: seq<ComponentParameter> := [];
      for j := 0 to |item.parameters|
        invariant |parameters| == j
        invariant forall k :: 0 <= k < j ==> parameters[k] == ConvertParameters(item.parameters)[k]
      {
        var p := item.parameters[j];
        parameters := parameters + [ComponentParameter(p.key, ConvertBareItem(p.value))];
      }
      var component := Component(name, kind, parameters);
      assert parameters == ConvertParameters(item.parameters);
      var ok := ValidateComponentIdentifier(component);
      if !ok {
        assert ConvertItem(item).None?;
        return None;
      }
      components := components + [component];
    }
    assert ConvertItems(m.list.items).value == components;
    var params := ExtractSignatureParams(m.list.parameters);
    if params.None? {
      return None;
    }
    return Some(SignatureEntry(labelText, components, params.value, []));
  }

  /** The byte sequence a Signature member has to be. */
  function SignatureBytes(m: Member): Option<seq<Octet>> {
    if m.Single? && m.item.value.ByteSequence? then Some(m.item.value.bytes) else None
  }

  function Entry(labelText: string, input: Member, signature: Member): Option<SignatureEntry> {
    var entry :- EntryFromInput(labelText, input);
    var bytes :- SignatureBytes(signature);
    Some(entry.(signature := bytes))
  }

  method ParseSignatureEntry(labelText: string, input: Member, signature: Member) returns (r: Option<SignatureEntry>)
    ensures r == Entry(labelText, input, signature)
  {
    hide EntryFromInput;
    var entry := ParseSignatureEntryFromInput(labelText, input);
    if entry.None? {
      return None;
    }
    if !signature.Single? {
      return None;
    }
    if !signature.item.value.ByteSequence? {
      return None;
    }
    return Some(entry.value.(signature := signature.item.value.bytes));
  }

  // Headers

  type Entries = map<string, SignatureEntry>

  function EntriesOf(d: Dictionary): Option<Entries> {
    if forall k :: k in d.values ==> EntryFromInput(k, d.values[k]).Some?
    then Some(map k | k in d.values :: EntryFromInput(k, d.values[k]).value)
    else None
  }

  function InputEntries(header: string, limits: Limits): Option<Entries> {
    if header == "" then None
    else
      var d :- SfvGrammar.ParseDictionary(header, limits);
      EntriesOf(d)
  }

  function SignedEntriesOf(inputs: Dictionary, signatures: Dictionary): Option<Entries>
    requires inputs.values.Keys == signatures.values.Keys
  {
    if forall k :: k in inputs.values ==> Entry(k, inputs.values[k], signatures.values[k]).Some?
    then Some(map k | k in inputs.values :: Entry(k, inputs.values[k], signatures.values[k]).value)
    else None
  }

  /** Both dictionaries parse, have the same labels, and every label has an entry. */
  function SignatureEntries(input: string, signature: string, limits: Limits): Option<Entries> {
    if input == "" || signature == "" then None
    else
      var inputs :- SfvGrammar.ParseDictionary(input, limits);
      var signatures :- SfvGrammar.ParseDictionary(signature, limits);
      if inputs.values.Keys != signatures.values.Keys then None else SignedEntriesOf(inputs, signatures)
  }

  /** A new parser over a header, and the dictionary it reads. */
  method ParseHeader(header: string, limits: Limits) returns (r: Option<Dictionary>)
    ensures r == SfvGrammar.ParseDictionary(header, limits)
    ensures r.Some? ==> IsOrdered(r.value)
  {
    hide SfvGrammar.ParseDictionary, SfvGrammar.ParseDictionaryFrom, FitsMember, FitsToken;
    var parser := new Parser(header, limits);
    r := parser.ParseDictionary();
    if r.Some? {
      SfvLimits.DictionaryLimits(header, limits, limits);
    }
  }

  /** The keys of an ordered dictionary seen so far. */
  predicate Collected(d: Dictionary, i: nat, result: Entries)
    requires i <= |d.keys|
  {
    (forall j :: 0 <= j < i ==> d.keys[j] in result) && forall k :: k in result ==> k in d.values
  }

  method CollectEntries(d: Dictionary) returns (r: Option<Entries>)
    requires IsOrdered(d)
    ensures r == EntriesOf(d)
  {
    hide EntryFromInput;
    var result: Entries := map[];
    for i := 0 to |d.keys|
      invariant Collected(d, i, result)
      invariant forall k :: k in result ==> k in d.values && EntryFromInput(k, d.values[k]) == Some(result[k])
    {
      var labelText := d.keys[i];
      var entry := ParseSignatureEntryFromInput(labelText, d.values[labelText]);
      if entry.None? {
        return None;
      }
      result := result[labelText := entry.value];
    }
    assert result.Keys == d.values.Keys;
    assert EntriesOf(d).Some? && result == EntriesOf(d).value;
    return Some(result);
  }

  method ParseSignatureInput(header: string, limits: Limits) returns (r: Option<Entries>)
    ensures r == InputEntries(header, limits)
  {
    hide EntriesOf, SfvGrammar.ParseDictionary, IsOrdered;
    if header == "" {
      return None;
    }
    var d := ParseHeader(header, limits);
    if d.None? {
      return None;
    }
    r := CollectEntries(d.value);
  }

  /** Every key of a has a value in b. */
  method KeysHaveValues(a: Dictionary, b: Dictionary) returns (ok: bool)
    requires IsOrdered(a)
    ensures ok == (a.values.Keys <= b.values.Keys)
  {
    for i := 0 to |a.keys|
      invariant forall j :: 0 <= j < i ==> a.keys[j] in b.values
    {
      if a.keys[i] !in b.values {
        return false;
      }
    }
    return true;
  }

  method CollectSignatures(inputs: Dictionary, signatures: Dictionary) returns (r: Option<Entries>)
    requires IsOrdered(inputs) && inputs.values.Keys == signatures.values.Keys
    ensures r == SignedEntriesOf(inputs, signatures)
  {
    hide Entry;
    var result: Entries := map[];
    for i := 0 to |inputs.keys|
      invariant forall j :: 0 <= j < i ==> inputs.keys[j] in result
      invariant forall k :: k in result ==>
                  k in inputs.values && Entry(k, inputs.values[k], signatures.values[k]) == Some(result[k])
    {
      var labelText := inputs.keys[i];
      var entry := ParseSignatureEntry(labelText, inputs.values[labelText], signatures.values[labelText]);
      if entry.None? {
        return None;
      }
      result := result[labelText := entry.value];
    }
    AllSignaturesCollected(inputs, signatures, result);
    return Some(result);
  }

  lemma AllSignaturesCollected(inputs: Dictionary, signatures: Dictionary, result: Entries)
    requires IsOrdered(inputs) && inputs.values.Keys == signatures.values.Keys
    requires forall j :: 0 <= j < |inputs.keys| ==> inputs.keys[j] in result
    requires forall k :: k in result ==>
               k in inputs.values && Entry(k, inputs.values[k], signatures.values[k]) == Some(result[k])
    ensures SignedEntriesOf(inputs, signatures) == Some(result)
  {
    hide Entry;
    assert result.Keys == inputs.values.Keys;
    assert SignedEntriesOf(inputs, signatures).Some? && result == SignedEntriesOf(inputs, signatures).value;
  }

  method ParseSignatures(input: string, signature: string, limits: Limits) returns (r: Option<Entries>)
    ensures r == SignatureEntries(input, signature, limits)
  {
    hide SignedEntriesOf, SfvGrammar.ParseDictionary, IsOrdered;
    if input == "" || signature == "" {
      return None;
    }
    var inputs := ParseHeader(input, limits);
    if inputs.None? {
      return None;
    }
    var signatures := ParseHeader(signature, limits);
    if signatures.None? {
      return None;
    }
    var ok := KeysHaveValues(inputs.value, signatures.value);
    if !ok {
      return None;
    }
    ok := KeysHaveValues(signatures.value, inputs.value);
    if !ok {
      return None;
    }
    r := CollectSignatures(inputs.value, signatures.value);
  }

  /** ParseSignatures is ParseSignatureInput with the bytes of the Signature dictionary
      filled in: it succeeds exactly when that dictionary has the same labels, each
      with a byte sequence, and agrees with it entry by entry. */
  lemma SignaturesExtendInput(input: string, signature: string, limits: Limits)
    ensures var both := SignatureEntries(input, signature, limits);
            var inputs := InputEntries(input, limits);
            var d := SfvGrammar.ParseDictionary(signature, limits);
            && (both.Some? <==>
                  signature != "" && inputs.Some? && d.Some? && inputs.value.Keys == d.value.values.Keys
                  && forall k :: k in d.value.values ==> SignatureBytes(d.value.values[k]).Some?)
            && (both.Some? ==>
                  both.value == map k | k in inputs.value ::
                                  inputs.value[k].(signature := SignatureBytes(d.value.values[k]).value))
  {
    hide EntryFromInput, SfvGrammar.ParseDictionary, SignatureBytes;
    var both := SignatureEntries(input, signature, limits);
    var inputs := InputEntries(input, limits);
    var inputDict := SfvGrammar.ParseDictionary(input, limits);
    var d := SfvGrammar.ParseDictionary(signature, limits);
    if input != "" && signature != "" && inputDict.Some? && d.Some?
      && inputDict.value.values.Keys == d.value.values.Keys {
      var iv, sv := inputDict.value.values, d.value.values;
      assert forall k :: k in iv ==> (Entry(k, iv[k], sv[k]).Some? <==>
                                        EntryFromInput(k, iv[k]).Some? && SignatureBytes(sv[k]).Some?);
      if both.Some? {
        assert inputs.Some?;
      }
    }
  }
}
