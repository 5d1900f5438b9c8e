/** What a Signature-Input header has to be, and what its parameters say: when one is
    accepted at all, and which of several parameters counts. */
module ParameterLaws {
  import opened Wrappers
  import opened SfvTypes
  import opened SignatureTypes
  import opened SignatureParser
  import SfvGrammar

  // Signature parameters

  /** Times are integers, the other known parameters strings; unknown ones are anything. */
  predicate IsWellTyped(p: Parameter) {
    && (p.key in {"created", "expires"} ==> p.value.Integer?)
    && (p.key in {"nonce", "alg", "keyid", "tag"} ==> p.value.Str?)
  }

  /** What the parameters say under a key. */
  function SaidUnder(sp: SignatureParams, key: string): Option<BareItem> {
    if key == "created" then AsInteger(sp.created)
    else if key == "expires" then AsInteger(sp.expires)
    else if key == "nonce" then AsString(sp.nonce)
    else if key == "alg" then AsString(sp.algorithm)
    else if key == "keyid" then AsString(sp.keyId)
    else if key == "tag" then AsString(sp.tag)
    else None
  }

  function AsInteger(n: Option<int64>): Option<BareItem> {
    if n.Some? then Some(Integer(n.value)) else None
  }

  function AsString(s: Option<string>): Option<BareItem> {
    if s.Some? then Some(Str(s.value)) else None
  }

  const KNOWN := {"created", "expires", "nonce", "alg", "keyid", "tag"}

  lemma OneIsExtracted(sp: SignatureParams, p: Parameter, key: string)
    ensures ExtractOne(sp, p).Some? <==> IsWellTyped(p)
    ensures ExtractOne(sp, p).Some? ==>
              SaidUnder(ExtractOne(sp, p).value, key) ==
              if p.key == key && key in KNOWN then Some(p.value) else SaidUnder(sp, key)
  {
  }

  /** The parameters are accepted exactly when every known one has its type. */
  lemma {:induction false} ExtractsExactly(sp: SignatureParams, ps: seq<Parameter>)
    ensures ExtractFrom(sp, ps).Some? <==> forall i :: 0 <= i < |ps| ==> IsWellTyped(ps[i])
    decreases |ps|
  {
    hide ExtractOne, IsWellTyped;
    if ps != [] {
      OneIsExtracted(sp, ps[0], "");
      if IsWellTyped(ps[0]) {
        ExtractsExactly(ExtractOne(sp, ps[0]).value, ps[1..]);
        assert forall i :: 1 <= i < |ps| ==> ps[i] == ps[1..][i - 1];
      }
    }
  }

  /** Of several parameters under a known key the last one counts; without one nothing is
      said, and unknown keys say nothing. */
  lemma {:induction false} LastParameterCounts(sp: SignatureParams, ps: seq<Parameter>, key: string, i: int)
    requires ExtractFrom(sp, ps).Some? && -1 <= i < |ps|
    requires (i >= 0 ==> ps[i].key == key && key in KNOWN) && forall j :: i < j < |ps| ==> ps[j].key != key
    ensures SaidUnder(ExtractFrom(sp, ps).value, key) == if i >= 0 then Some(ps[i].value) else SaidUnder(sp, key)
    decreases |ps|
  {
    hide ExtractOne, SaidUnder;
    if ps != [] {
      OneIsExtracted(sp, ps[0], key);
      LastParameterCounts(ExtractOne(sp, ps[0]).value, ps[1..], key, if i <= 0 then -1 else i - 1);
    }
  }

  // Headers

  /** An inner list of strings that are valid component names, with well typed parameters. */
  predicate IsEntryMember(m: Member) {
    && m.Inner?
    && (forall i :: 0 <= i < |m.list.items| ==> IsComponentItem(m.list.items[i]))
    && forall i :: 0 <= i < |m.list.parameters| ==> IsWellTyped(m.list.parameters[i])
  }

  predicate IsComponentItem(item: Item) {
    item.value.Str? && ValidComponent(AsComponent(item))
  }

  function AsComponent(item: Item): Component
    requires item.value.Str?
  {
    Component(item.value.text, KindOf(item.value.text), ConvertParameters(item.parameters))
  }

  lemma EntryExactly(labelText: string, m: Member)
    ensures EntryFromInput(labelText, m).Some? <==> IsEntryMember(m)
    ensures IsEntryMember(m) ==>
              var e := EntryFromInput(labelText, m).value;
              && e.labelText == labelText && e.signature == [] && |e.components| == |m.list.items|
              && forall i :: 0 <= i < |m.list.items| ==> e.components[i] == AsComponent(m.list.items[i])
  {
    hide ExtractFrom, ValidComponent, ConvertParameters, KindOf, IsWellTyped;
    if m.Inner? {
      ExtractsExactly(NO_PARAMS, m.list.parameters);
      forall i | 0 <= i < |m.list.items|
        ensures ConvertItem(m.list.items[i]).Some? <==> IsComponentItem(m.list.items[i])
      {
      }
    }
  }

  /** A header is accepted as a whole or not at all: it is not empty, it is a dictionary,
      and every member has the form of an entry; then every label has its entry. */
  lemma {:induction false} HeaderExactly(header: string, limits: Limits)
    ensures var d := SfvGrammar.ParseDictionary(header, limits);
            var entries := InputEntries(header, limits);
            && (entries.Some? <==>
                  header != "" && d.Some? && forall k :: k in d.value.values ==> IsEntryMember(d.value.values[k]))
            && (entries.Some? ==>
                  && entries.value.Keys == d.value.values.Keys
                  && forall k :: k in entries.value ==>
                                   EntryFromInput(k, d.value.values[k]) == Some(entries.value[k]))
  {
    hide EntryFromInput, IsEntryMember, SfvGrammar.ParseDictionary;
    var d := SfvGrammar.ParseDictionary(header, limits);
    if d.Some? {
      forall k | k in d.value.values
        ensures EntryFromInput(k, d.value.values[k]).Some? <==> IsEntryMember(d.value.values[k])
      {
        EntryExactly(k, d.value.values[k]);
      }
    }
  }

  /** Of bs, sf and key the only valid combinations are none, bs alone, sf alone, and sf
      with key. */
  lemma ValidCombinations(ps: seq<ComponentParameter>)
    ensures ValidCombination(ps) <==>
            (HasKey(ps, "bs"), HasKey(ps, "sf"), HasKey(ps, "key")) in {
              (false, false, false), (true, false, false), (false, true, false), (false, true, true)}
  {
    hide HasKey;
  }
}
