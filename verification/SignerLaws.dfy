/** What a signer's headers say of the options it was made from. */
module SignerLaws {
  import opened Wrappers
  import opened SfvTypes
  import opened SignatureTypes
  import opened SignatureInput
  import opened HttpMessage
  import opened SignatureBase
  import opened HttpSig
  import SfvGrammar
  import SignatureParser

  /** No component parameter is the absent value. */
  predicate AllHaveValues(cs: seq<Component>) {
    forall i, j :: 0 <= i < |cs| && 0 <= j < |cs[i].parameters| ==> !cs[i].parameters[j].value.Nil?
  }

  lemma ParametersPrint(ps: seq<ComponentParameter>)
    ensures SfvGrammar.PrintsParameters(ToSfvParameters(ps)) <==> forall j :: 0 <= j < |ps| ==> !ps[j].value.Nil?
  {
    forall j | 0 <= j < |ps|
      ensures ToSfvParameters(ps)[j].value.Unsupported? <==> ps[j].value.Nil?
    {
      assert ToSfvParameters(ps)[j] == ToSfvParameter(ps[j]);
    }
  }

  lemma MetadataPrints(p: SignatureParams)
    ensures SfvGrammar.PrintsParameters(ToSfvSignatureParams(p))
  {
  }

  lemma {:induction false} ComponentsPrint(cs: seq<Component>, p: SignatureParams)
    ensures SfvGrammar.PrintsMember(Inner(InputList(cs, p))) <==> AllHaveValues(cs)
  {
    MetadataPrints(p);
    hide ToSfvSignatureParams, ToSfvParameters, SfvGrammar.PrintsParameters;
    forall i | 0 <= i < |cs|
      ensures SfvGrammar.PrintsItem(ToSfvItems(cs)[i]) <==>
              forall j :: 0 <= j < |cs[i].parameters| ==> !cs[i].parameters[j].value.Nil?
    {
      ParametersPrint(cs[i].parameters);
      assert ToSfvItems(cs)[i] == ToSfvItem(cs[i]);
    }
  }

  /** A signer takes a key, a registered algorithm, and values for all component
      parameters; nothing else can fail. It has that key and that algorithm, covers the
      components, and its label is sig1 where none is given. */
  lemma {:induction false} SignerExactly(opts: SignerOptions, registry: Registry)
    ensures var s := SignerFor(opts, registry);
            && (s.Some? <==>
                  opts.key.Some? && opts.algorithm != "" && opts.algorithm in registry
                  && AllHaveValues(opts.components))
            && (s.Some? ==>
                  && s.value.labelText == (if opts.labelText == "" then "sig1" else opts.labelText)
                  && s.value.components == opts.components
                  && s.value.alg == registry[opts.algorithm] && opts.key == Some(s.value.key))
  {
    hide Params, InputList, InputText, SfvGrammar.PrintsMember, AllHaveValues;
    ComponentsPrint(opts.components, Params(opts));
  }

  /** The signer's metadata fits a header within the limits and passes validation. */
  predicate CanBeSaid(s: Signer, limits: Limits) {
    Expressible(s.labelText, s.components, s.params, limits)
  }

  /** An option that is given, as a parameter. */
  predicate Says(p: Option<string>, option: string) {
    if option == "" then p.None? else p == Some(option)
  }

  /** Read back, the signer's Signature-Input header has one entry, which says what the
      options say: created is the time given, else now, unless it is disabled; the
      algorithm is named unless that is disabled; and the rest is there if it is given. */
  lemma {:induction false} HeaderSaysOptions(opts: SignerOptions, registry: Registry, s: Signer, limits: Limits)
    requires SignerFor(opts, registry) == Some(s) && CanBeSaid(s, limits)
    ensures var labelText := if opts.labelText == "" then "sig1" else opts.labelText;
            var entries := SignatureParser.InputEntries(s.input, limits);
            && entries.Some? && entries.value.Keys == {labelText}
            && var e := entries.value[labelText];
               && e.labelText == labelText && e.components == opts.components && e.signature == []
               && (opts.disableCreated ==> e.params.created.None?)
               && (!opts.disableCreated && opts.created.Some? ==> e.params.created == opts.created)
               && (!opts.disableCreated && opts.created.None? ==> e.params.created == Some(opts.now))
               && e.params.expires == opts.expires
               && Says(e.params.nonce, opts.nonce)
               && (if opts.disableAlgorithm then e.params.algorithm.None?
                   else e.params.algorithm == Some(opts.algorithm))
               && Says(e.params.keyId, opts.keyId)
               && Says(e.params.tag, opts.tag)
  {
    hide SfvGrammar.PrintsMember, Expressible, SignatureParser.InputEntries, InputText, InputList;
    MetadataRoundTrip(s.labelText, s.components, s.params, limits);
  }

  /** Such a signer signs exactly what has a base and the algorithm signs; the headers are
      its own input, and a dictionary with the signature's bytes under its label. */
  lemma {:induction false} SignsExactly(
    opts: SignerOptions, registry: Registry, s: Signer, msg: Message, random: seq<Octet>, limits: Limits)
    requires SignerFor(opts, registry) == Some(s) && CanBeSaid(s, limits)
    ensures var base := BuildText(msg, opts.components, s.params);
            var h := SignHeaders(s, msg, random);
            && (h.Some? <==> base.Some? && registry[opts.algorithm].sign(base.value, opts.key.value, random).Some?)
            && (h.Some? ==>
                  var bytes := registry[opts.algorithm].sign(base.value, opts.key.value, random).value;
                  && h.value.input == s.input
                  && (Within(|bytes|, limits.maxByteSequenceLength)
                      && Within(|h.value.signature|, limits.maxInputLength) ==>
                        SfvGrammar.ParseDictionary(h.value.signature, limits) ==
                        Some(SignatureDictionary(s.labelText, bytes))))
  {
    SignerExactly(opts, registry);
    LabelIsToken(s, limits);
    hide SignerFor, BuildText, SfvGrammar.ParseDictionary, SignatureInput.SignatureText, SignatureDictionary,
      Expressible;
    var h := SignHeaders(s, msg, random);
    if h.Some? {
      var bytes := s.alg.sign(BuildText(msg, opts.components, s.params).value, s.key, random).value;
      if Within(|bytes|, limits.maxByteSequenceLength) && Within(|h.value.signature|, limits.maxInputLength) {
        SignatureRoundTrip(s.labelText, bytes, limits);
      }
    }
  }

  lemma LabelIsToken(s: Signer, limits: Limits)
    requires CanBeSaid(s, limits)
    ensures FitsToken(s.labelText, limits) && s.labelText != ""
  {
  }
}
