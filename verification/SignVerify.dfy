/** Signer and verifier together: what a verifier accepts is what a signer signed, and
    everything a signer signs is accepted. */
module SignVerify {
  import opened Wrappers
  import opened SfvTypes
  import opened SignatureTypes
  import opened SignatureInput
  import opened HttpMessage
  import opened FieldValues
  import opened SignatureBase
  import opened Identifiers
  import opened BaseInjectivity
  import opened BaseCollisions
  import opened ClearComponents
  import opened HttpSig
  import SfvGrammar
  import SfvLimits
  import SignatureParser
  import SignatureText

  // Verified means covered

  /** A whole line of the text, with the LF that ends it. */
  ghost predicate IsLineOf(line: string, text: string) {
    exists before, after ::
      text == before + line + "\n" + after && (before != "" ==> before[|before| - 1] == '\n')
  }

  lemma {:induction false} JoinHasLine(lines: seq<string>, last: string, i: nat)
    requires i < |lines|
    ensures IsLineOf(lines[i], Join(lines + [last], "\n"))
  {
    var all := lines + [last];
    assert all[1..] == lines[1..] + [last];
    var rest := Join(all[1..], "\n");
    if i == 0 {
      assert Join(all, "\n") == "" + lines[0] + "\n" + rest;
    } else {
      JoinHasLine(lines[1..], last, i - 1);
      hide Join;
      var before, after :| rest == before + lines[i] + "\n" + after && (before != "" ==> before[|before| - 1] == '\n');
      LineBelow(lines[0], before, lines[i], after);
    }
  }

  lemma LineBelow(first: string, before: string, line: string, after: string)
    requires before != "" ==> before[|before| - 1] == '\n'
    ensures IsLineOf(line, first + "\n" + (before + line + "\n" + after))
  {
    var above := first + "\n" + before;
    ConcatAssociates(first + "\n", before + line + "\n", after);
    ConcatAssociates(first + "\n", before + line, "\n");
    ConcatAssociates(first + "\n", before, line);
    assert first + "\n" + (before + line + "\n" + after) == above + line + "\n" + after;
  }

  /** Everything that is set and names an algorithm names this one; something does;
      and it is on the allow list, if there is one. An empty alg parameter counts as
      not set, unless the verifier has an algorithm to compare it with. */
  predicate Agreed(v: Verifier, resolved: string, params: SignatureParams, id: string) {
    var named := params.algorithm.Some? && (params.algorithm.value != "" || v.algorithm != "");
    && id != ""
    && (v.algorithm != "" ==> v.algorithm == id)
    && (named ==> params.algorithm.value == id)
    && (resolved != "" ==> resolved == id)
    && (v.algorithm == id || named || resolved == id)
    && (v.allowed != {} ==> id in v.allowed)
  }

  /** The key and the algorithm for these parameters: a resolver is shown the label and
      the parameters and gives the key and possibly an algorithm; without one the key is
      the configured one. */
  predicate SettlesOn(v: Verifier, labelText: string, params: SignatureParams, key: Key, id: string) {
    if v.resolver.Some? then
      match v.resolver.value(labelText, params)
      case None => false
      case Some((found, named)) => found == Some(key) && Agreed(v, named, params, id)
    else v.key == Some(key) && Agreed(v, "", params, id)
  }

  /** Resolution gives a key and an algorithm exactly when all sources agree on them. */
  lemma AlgorithmIsAgreed(v: Verifier, labelText: string, params: SignatureParams, key: Key, id: string)
    ensures ResolveKeyAndAlgorithm(v, labelText, params) == Some((key, id)) <==>
            SettlesOn(v, labelText, params, key, id)
  {
  }

  /** Each required component is covered, has a value in the message, and its line is
      a line of the base that was accepted by an algorithm and a key that all agree on. */
  lemma VerifiedMeansCovered(v: Verifier, registry: Registry, msg: Message, r: VerifyResult, c: Component)
    requires Verifies(v, registry, msg, r) && c in v.required
    ensures c in r.entry.components
    ensures ComponentValue(msg, c).Some?
    ensures IsLineOf(SignatureText.ComponentLine(c, ComponentValue(msg, c).value), r.signatureBase)
    ensures AcceptedAsSettled(v, registry, r)
  {
    AcceptedExactly(v, registry, r);
    hide Accepted, AcceptedAsSettled, Chosen, SfvGrammar.ParseDictionary, SignatureParser.InputEntries,
      SignatureParser.SignatureBytes, ComponentValue, SignatureText.ComponentLine, SignatureText.ParamsLine,
      Canonical, Join, IsLineOf;
    var cs, p := r.entry.components, r.entry.params;
    var i :| 0 <= i < |v.required| && v.required[i] == c;
    var k :| 0 <= k < |cs| && cs[k] == c;
    var values := Values(msg, cs).value;
    JoinHasLine(Lines(cs, values), SignatureText.ParamsLine(cs, p), k);
  }

  /** The algorithm that is settled on accepts the signature over the base, with the key
      that is settled on. */
  ghost predicate AcceptedAsSettled(v: Verifier, registry: Registry, r: VerifyResult) {
    exists key, id ::
      && SettlesOn(v, r.labelText, r.entry.params, key, id) && id in registry
      && registry[id].verify(r.signatureBase, r.entry.signature, key)
  }

  lemma AcceptedExactly(v: Verifier, registry: Registry, r: VerifyResult)
    ensures Accepted(v, registry, r) <==> AcceptedAsSettled(v, registry, r)
  {
    hide ResolveKeyAndAlgorithm, SettlesOn;
    if Accepted(v, registry, r) {
      var (key, id) := ResolveKeyAndAlgorithm(v, r.labelText, r.entry.params).value;
      AlgorithmIsAgreed(v, r.labelText, r.entry.params, key, id);
    }
    if key, id :|
      && SettlesOn(v, r.labelText, r.entry.params, key, id) && id in registry
      && registry[id].verify(r.signatureBase, r.entry.signature, key)
    {
      AlgorithmIsAgreed(v, r.labelText, r.entry.params, key, id);
      SettledIsNamed(v, r.labelText, r.entry.params, key, id);
    }
  }

  lemma SettledIsNamed(v: Verifier, labelText: string, params: SignatureParams, key: Key, id: string)
    requires SettlesOn(v, labelText, params, key, id)
    ensures id != ""
  {
  }

  // Sign, then verify

  /** The component is read from the headers the signer sets. */
  predicate ReadsSignature(c: Component) {
    && c.kind == Field
    && !HasReq(c.parameters)
    && !ReadParams(c.parameters).isTrailer
    && (Canonical(c.name) == Canonical(INPUT_HEADER) || Canonical(c.name) == Canonical(SIGNATURE_HEADER))
  }

  lemma SameComponentValue(msg: Message, h: SignatureHeaders, c: Component)
    requires !ReadsSignature(c)
    ensures ComponentValue(WithHeaders(msg, Attach(Headers(msg), h)), c) == ComponentValue(msg, c)
  {
    hide Canonical, CanonicalValue, StructuredValue, ReadParams, HasReq, WithoutReq, QueryParamName;
  }

  lemma {:induction false} SameValues(msg: Message, h: SignatureHeaders, cs: seq<Component>)
    requires forall i :: 0 <= i < |cs| ==> !ReadsSignature(cs[i])
    ensures Values(WithHeaders(msg, Attach(Headers(msg), h)), cs) == Values(msg, cs)
  {
    hide ReadsSignature, ComponentValue, WithHeaders, Attach;
    if cs != [] {
      SameComponentValue(msg, h, cs[0]);
      SameValues(msg, h, cs[1..]);
    }
  }

  /** The first line of the field has this value, whatever the case of its name. */
  predicate FirstLineIs(msg: Message, name: string, value: string) {
    |HeaderValues(msg, name)| > 0 && HeaderValues(msg, name)[0] == value
  }

  /** The message carries these headers; further lines do not matter. */
  predicate Carries(msg: Message, h: SignatureHeaders) {
    FirstLineIs(msg, "Signature-Input", h.input) && FirstLineIs(msg, "Signature", h.signature)
  }

  lemma AttachedHeaders(msg: Message, h: SignatureHeaders)
    ensures Carries(WithHeaders(msg, Attach(Headers(msg), h)), h)
  {
    hide Canonical;
    CanonicalLength(INPUT_HEADER);
    CanonicalLength(SIGNATURE_HEADER);
  }

  lemma CanonicalLength(name: string)
    ensures |Canonical(name)| == |name|
  {
  }

  lemma FirstLineIsRead(msg: Message, h: SignatureHeaders)
    requires Carries(msg, h)
    ensures HttpMessage.Get(Headers(msg), INPUT_HEADER) == h.input
    ensures HttpMessage.Get(Headers(msg), SIGNATURE_HEADER) == h.signature
  {
    hide Canonical;
  }

  lemma SameHeadersCarry(m: Message, n: Message, h: SignatureHeaders)
    requires Carries(m, h) && Headers(n) == Headers(m)
    ensures Carries(n, h)
  {
    hide Canonical;
  }

  /** The scheme's verification accepts what its signing makes. */
  ghost predicate Correct(alg: Algorithm, key: Key, public: Key) {
    forall text, random ::
      alg.sign(text, key, random).Some? ==> alg.verify(text, alg.sign(text, key, random).value, public)
  }

  /** The verifier's policy, the algorithm aside, accepts the signer's metadata. */
  predicate Permits(v: Verifier, s: Signer) {
    && (v.labelText == "" || v.labelText == s.labelText)
    && (forall i :: 0 <= i < |v.required| ==> v.required[i] in s.components)
    && v.paramsValid(s.params)
  }

  /** It settles on this key and this algorithm for the signer's metadata. */
  predicate Settles(v: Verifier, s: Signer, id: string, public: Key) {
    SettlesOn(v, s.labelText, s.params, public, id)
  }

  /** The signer's headers have been set on the message, and can be said within the
      verifier's limits. */
  ghost predicate Attached(
    s: Signer, msg: Message, random: seq<Octet>, h: SignatureHeaders, signed: Message, limits: Limits)
  {
    && SignHeaders(s, msg, random) == Some(h)
    && s.input == InputText(s.labelText, s.components, s.params)
    && signed == WithHeaders(msg, Attach(Headers(msg), h))
    && Expressible(s.labelText, s.components, s.params, limits)
    && Within(|SignatureOf(s, msg, random).value|, limits.maxByteSequenceLength)
    && Within(|h.signature|, limits.maxInputLength)
  }

  /** What the verifier reads from such a message, over a base of its own. */
  ghost function ReadBack(s: Signer, signature: seq<Octet>, text: string): VerifyResult {
    VerifyResult(s.labelText, SignatureEntry(s.labelText, s.components, s.params, signature), text)
  }

  /** A message that carries a signer's headers verifies exactly when the policy permits
      the signer's metadata and the algorithm accepts the signature over the base built
      from the message as it is now; and then to that result. */
  lemma {:induction false} AttachedVerifies(
    v: Verifier, registry: Registry, s: Signer, msg: Message, random: seq<Octet>, h: SignatureHeaders,
    signed: Message, r: VerifyResult)
    requires Attached(s, msg, random, h, signed, v.limits)
    ensures Verifies(v, registry, signed, r) <==>
            && BuildText(signed, s.components, s.params) == Some(r.signatureBase)
            && r == ReadBack(s, SignatureOf(s, msg, random).value, r.signatureBase)
            && Permits(v, s)
            && AcceptedAsSettled(v, registry, r)
  {
    hide AcceptedAsSettled, Canonical, Attach, WithHeaders, Headers, SignatureParser.InputEntries,
      SfvGrammar.ParseDictionary, BuildText, InputText, SignatureInput.SignatureText, FitsMember, IsToken,
      ValidComponent, KindOf, Carries, Verifies, Accepted, Permits;
    var signature := SignatureOf(s, msg, random).value;
    AttachedHeaders(msg, h);
    MetadataRoundTrip(s.labelText, s.components, s.params, v.limits);
    SignatureRoundTrip(s.labelText, signature, v.limits);
    ReadBackVerifies(v, registry, signed, s, h, signature, r);
    AcceptedExactly(v, registry, r);
  }

  lemma {:induction false} ReadBackVerifies(
    v: Verifier, registry: Registry, signed: Message, s: Signer, h: SignatureHeaders, signature: seq<Octet>,
    r: VerifyResult)
    requires Carries(signed, h)
    requires h.signature == SignatureInput.SignatureText(s.labelText, signature)
    requires SignatureParser.InputEntries(h.input, v.limits) ==
             Some(map[s.labelText := SignatureEntry(s.labelText, s.components, s.params, [])])
    requires SfvGrammar.ParseDictionary(h.signature, v.limits) == Some(SignatureDictionary(s.labelText, signature))
    ensures Verifies(v, registry, signed, r) <==>
            && BuildText(signed, s.components, s.params) == Some(r.signatureBase)
            && r == ReadBack(s, signature, r.signatureBase)
            && Permits(v, s)
            && Accepted(v, registry, r)
  {
    hide BuildText, SfvGrammar.ParseDictionary, SignatureParser.InputEntries, Headers, HttpMessage.Get, Accepted,
      Carries, Canonical, SignatureParser.SignatureBytes;
    FirstLineIsRead(signed, h);
    OneLabelOnly(v, s, signature);
  }

  lemma OneLabelOnly(v: Verifier, s: Signer, signature: seq<Octet>)
    ensures var entries := map[s.labelText := SignatureEntry(s.labelText, s.components, s.params, [])];
            forall l :: Chosen(v, entries, l) <==> l == s.labelText && (v.labelText == "" || v.labelText == l)
    ensures SignatureParser.SignatureBytes(Single(Item(ByteSequence(signature), []))) == Some(signature)
  {
    var entries := map[s.labelText := SignatureEntry(s.labelText, s.components, s.params, [])];
    assert |entries.Keys| == 1;
  }

  /** What the signer attached verifies, over the very base that was signed, and to no
      other result. */
  lemma {:induction false} SignThenVerify(
    opts: SignerOptions, registry: Registry, s: Signer, msg: Message, random: seq<Octet>, h: SignatureHeaders,
    signed: Message, v: Verifier, public: Key)
    requires SignerFor(opts, registry) == Some(s)
    requires Attached(s, msg, random, h, signed, v.limits)
    requires Correct(s.alg, s.key, public)
    requires Permits(v, s) && Settles(v, s, opts.algorithm, public)
    requires forall i :: 0 <= i < |s.components| ==> !ReadsSignature(s.components[i])
    ensures var result := ReadBack(s, SignatureOf(s, msg, random).value, BuildText(msg, s.components, s.params).value);
            forall r :: Verifies(v, registry, signed, r) <==> r == result
  {
    hide Canonical, Attach, WithHeaders, Headers, ReadsSignature, BaseText, Values, Correct, Verifies,
      AcceptedAsSettled, Settles, Expressible, SfvGrammar.PrintsMember, InputText, Params;
    var signature := SignatureOf(s, msg, random).value;
    SameValues(msg, h, s.components);
    SignatureIsAccepted(opts, registry, s, msg, random, v, public);
    hide SignerFor, SignHeaders, SignatureOf, Attached;
    forall r
      ensures Verifies(v, registry, signed, r) <==>
              r == ReadBack(s, signature, BuildText(msg, s.components, s.params).value)
    {
      AttachedVerifies(v, registry, s, msg, random, h, signed, r);
    }
  }

  lemma {:induction false} SignatureIsAccepted(
    opts: SignerOptions, registry: Registry, s: Signer, msg: Message, random: seq<Octet>, v: Verifier, public: Key)
    requires SignerFor(opts, registry) == Some(s)
    requires SignatureOf(s, msg, random).Some?
    requires Correct(s.alg, s.key, public)
    requires Settles(v, s, opts.algorithm, public)
    ensures AcceptedAsSettled(
              v, registry, ReadBack(s, SignatureOf(s, msg, random).value, BuildText(msg, s.components, s.params).value))
  {
    hide BuildText, InputText, SfvGrammar.PrintsMember, Params, SettlesOn;
    assert SettlesOn(v, s.labelText, s.params, public, opts.algorithm);
  }

  /** The conditions can be met: a signer, a message, its signed form and a verifier. */
  lemma SignThenVerifyApplies() returns (
      opts: SignerOptions, registry: Registry, s: Signer, msg: Message, random: seq<Octet>, h: SignatureHeaders,
      signed: Message, v: Verifier, public: Key)
    ensures SignerFor(opts, registry) == Some(s)
    ensures Attached(s, msg, random, h, signed, v.limits)
    ensures Correct(s.alg, s.key, public)
    ensures Permits(v, s) && Settles(v, s, opts.algorithm, public)
    ensures forall i :: 0 <= i < |s.components| ==> !ReadsSignature(s.components[i])
  {
    hide InputText, SfvGrammar.PrintsMember, Expressible, BaseText, SignatureInput.SignatureText, Attach, InputList;
    var c := Component("@method", Derived, []);
    var alg := Algorithm("a", (text, key, random) => Some([]), (text, signature, key) => true);
    opts := SignerOptions("sig1", [c], "a", Some([]), "", "", "", None, None, true, true, 0);
    registry, random, public := map["a" := alg], [], [];
    s := Signer("sig1", [c], NO_PARAMS, alg, [], InputText("sig1", [c], NO_PARAMS));
    msg := RequestMessage(Request("GET", None, map[], map[]));
    h := SignatureHeaders(s.input, SignatureInput.SignatureText("sig1", []));
    signed := WithHeaders(msg, Attach(Headers(msg), h));
    v := Verifier("", [], {}, Some([]), "a", None, params => true, NO_LIMITS);
    MethodIsExpressible(c);
    assert ComponentValue(msg, c) == Some("GET");
    ValuesAre(msg, [c], ["GET"]);
  }

  lemma MethodIsExpressible(c: Component)
    requires c == Component("@method", Derived, [])
    ensures Expressible("sig1", [c], NO_PARAMS, NO_LIMITS)
    ensures SfvGrammar.PrintsMember(Inner(InputList([c], NO_PARAMS)))
  {
    hide InputText, FitsItem, FitsToken, ValidComponent, KindOf, SfvGrammar.PrintsMember, ToSfvItem;
    MethodIsValid(c);
    LabelFits();
    assert ToSfvItems([c]) == [ToSfvItem(c)] && ToSfvSignatureParams(NO_PARAMS) == [];
    hide ToSfvItems, ToSfvSignatureParams;
    SfvLimits.FitsPrints(Inner(InputList([c], NO_PARAMS)), NO_LIMITS);
  }

  lemma MethodIsValid(c: Component)
    requires c == Component("@method", Derived, [])
    ensures ValidComponent(c) && c.kind == KindOf(c.name) && FitsItem(ToSfvItem(c), NO_LIMITS)
  {
  }

  lemma LabelFits()
    ensures FitsToken("sig1", NO_LIMITS)
  {
  }

  /** The signature is accepted over the text that was signed and over no other. */
  ghost predicate OnlySigned(alg: Algorithm, signature: seq<Octet>, public: Key, signedText: string) {
    forall text :: alg.verify(text, signature, public) <==> text == signedText
  }

  /** Whatever is covered and whatever has happened to the message since, it verifies
      exactly when its base is still the base that was signed. A component read from the
      headers the signer sets is the case in which setting them already changes it. */
  lemma {:induction false} VerifiesWhileBaseIsSame(
    opts: SignerOptions, registry: Registry, s: Signer, msg: Message, random: seq<Octet>, h: SignatureHeaders,
    signed: Message, later: Message, v: Verifier, public: Key)
    requires SignerFor(opts, registry) == Some(s)
    requires Attached(s, msg, random, h, signed, v.limits)
    requires Permits(v, s) && Settles(v, s, opts.algorithm, public)
    requires Carries(later, h)
    requires OnlySigned(s.alg, SignatureOf(s, msg, random).value, public, BuildText(msg, s.components, s.params).value)
    ensures (exists r :: Verifies(v, registry, later, r)) <==>
            BuildText(later, s.components, s.params) == BuildText(msg, s.components, s.params)
  {
    hide Canonical, Attach, WithHeaders, Headers, Carries, BuildText, Verifies, SfvGrammar.PrintsMember,
      InputText, Params, FitsMember, IsToken, ValidComponent, KindOf, SignatureInput.SignatureText,
      SignatureParser.InputEntries, SfvGrammar.ParseDictionary, Permits, SettlesOn, ResolveKeyAndAlgorithm;
    var signature := SignatureOf(s, msg, random).value;
    MetadataRoundTrip(s.labelText, s.components, s.params, v.limits);
    SignatureRoundTrip(s.labelText, signature, v.limits);
    AlgorithmIsAgreed(v, s.labelText, s.params, public, opts.algorithm);
    hide Expressible;
    forall r
      ensures Verifies(v, registry, later, r) <==>
              && BuildText(later, s.components, s.params) == Some(r.signatureBase)
              && r == ReadBack(s, signature, r.signatureBase)
              && r.signatureBase == BuildText(msg, s.components, s.params).value
    {
      ReadBackVerifies(v, registry, later, s, h, signature, r);
    }
    var now := BuildText(later, s.components, s.params);
    if now == BuildText(msg, s.components, s.params) {
      assert Verifies(v, registry, later, ReadBack(s, signature, now.value));
    }
  }

  /** The same said of the components, whatever their names, when the values that were
      signed are determined: any change to a covered value is noticed, and nothing else
      matters. */
  lemma {:induction false} VerifiesWhileValuesAreSame(
    opts: SignerOptions, registry: Registry, s: Signer, msg: Message, random: seq<Octet>, h: SignatureHeaders,
    signed: Message, later: Message, v: Verifier, public: Key)
    requires SignerFor(opts, registry) == Some(s)
    requires Attached(s, msg, random, h, signed, v.limits)
    requires Permits(v, s) && Settles(v, s, opts.algorithm, public)
    requires Carries(later, h)
    requires OnlySigned(s.alg, SignatureOf(s, msg, random).value, public, BuildText(msg, s.components, s.params).value)
    requires Determined(s.components, Values(msg, s.components).value)
    ensures (exists r :: Verifies(v, registry, later, r)) <==>
            forall i :: 0 <= i < |s.components| ==>
                          ComponentValue(later, s.components[i]) == ComponentValue(msg, s.components[i])
  {
    hide Attach, WithHeaders, Headers, Carries, Verifies, Permits, Settles, ComponentValue, SignerFor,
      Determined, IdentifiersHaveNoLf, BaseText, FitsItems, FitsParameters, ToSfvItems;
    VerifiesWhileBaseIsSame(opts, registry, s, msg, random, h, signed, later, v, public);
    var cs, p := s.components, s.params;
    var values := Values(msg, cs).value;
    ItemsHaveNoLf(cs, v.limits);
    if BuildText(later, cs, p) == BuildText(msg, cs, p) {
      ValuesDetermined(cs, values, Values(later, cs).value, p);
    }
    if forall i :: 0 <= i < |cs| ==> ComponentValue(later, cs[i]) == ComponentValue(msg, cs[i]) {
      ValuesAre(later, cs, values);
    }
  }

  // Two accepted messages with one base

  /** Parsed metadata is validated and has a text; the one the base prints, when its names are plain. */
  lemma ParsedIsWellFormed(header: string, limits: Limits, labelText: string)
    requires SignatureParser.InputEntries(header, limits).Some?
    requires labelText in SignatureParser.InputEntries(header, limits).value
    ensures var entry := SignatureParser.InputEntries(header, limits).value[labelText];
            && Printed(entry.components, entry.params)
            && AllParsed(entry.components)
            && (SignatureText.AllPlain(entry.components) ==> WellFormed(entry.components, entry.params))
  {
    hide SfvGrammar.ParseDictionary, SignatureParser.EntriesOf, SignatureText.AllPlain, FitsMember, FitsDictionary,
      ValidComponent, KindOf, InputList;
    SfvLimits.DictionaryLimits(header, limits, NO_LIMITS);
    ParsedFits(header, labelText, NO_LIMITS);
  }

  lemma VerifiedIsPrinted(v: Verifier, registry: Registry, msg: Message, r: VerifyResult)
    requires Verifies(v, registry, msg, r)
    ensures Printed(r.entry.components, r.entry.params) && AllParsed(r.entry.components)
    ensures SignatureText.AllPlain(r.entry.components) ==> WellFormed(r.entry.components, r.entry.params)
    ensures BuildText(msg, r.entry.components, r.entry.params) == Some(r.signatureBase)
  {
    hide Accepted, SfvGrammar.ParseDictionary, SignatureParser.InputEntries, SignatureParser.SignatureBytes,
      Canonical, SignatureText.AllPlain, BuildText, WellFormed, Printed, AllParsed;
    ParsedIsWellFormed(HttpMessage.Get(Headers(msg), INPUT_HEADER), v.limits, r.labelText);
  }

  /** A message that was signed: what was covered and under which parameters. */
  datatype Signing = Signing(message: Message, components: seq<Component>, params: SignatureParams)

  /** The key's verification accepts the bases of these signings and nothing else. */
  ghost predicate AcceptsOnly(alg: Algorithm, public: Key, log: seq<Signing>) {
    forall text, signature :: alg.verify(text, signature, public) ==>
                                exists i :: 0 <= i < |log| && IsBaseOf(log[i], text)
  }

  ghost predicate IsBaseOf(s: Signing, text: string) {
    BuildText(s.message, s.components, s.params) == Some(text)
  }

  lemma AcceptedWasSigned(v: Verifier, registry: Registry, r: VerifyResult, id: string, public: Key, log: seq<Signing>)
    returns (i: nat)
    requires Accepted(v, registry, r)
    requires SettlesOn(v, r.labelText, r.entry.params, public, id)
    requires GetAlgorithm(registry, id).Some? && AcceptsOnly(GetAlgorithm(registry, id).value, public, log)
    ensures i < |log| && IsBaseOf(log[i], r.signatureBase)
  {
    hide ResolveKeyAndAlgorithm, GetAlgorithm, IsBaseOf, SettlesOn;
    AlgorithmIsAgreed(v, r.labelText, r.entry.params, public, id);
    i :| 0 <= i < |log| && IsBaseOf(log[i], r.signatureBase);
  }

  /** With a scheme that cannot be forged, a verified message agrees with one that was
      signed, whatever names it covers: identifiers that print alike, the same value of
      each, the same signature parameters; and the same component wherever the one that
      was signed is unmistakable, or no name needs an escape. */
  lemma {:induction false} VerifiedWasSigned(
    v: Verifier, registry: Registry, msg: Message, r: VerifyResult, id: string, public: Key, log: seq<Signing>)
    requires Verifies(v, registry, msg, r)
    requires SettlesOn(v, r.labelText, r.entry.params, public, id)
    requires GetAlgorithm(registry, id).Some? && AcceptsOnly(GetAlgorithm(registry, id).value, public, log)
    requires forall i :: 0 <= i < |log| ==> Printed(log[i].components, log[i].params)
    requires forall i :: 0 <= i < |log| ==> OneLineEach(log[i].message, log[i].components)
    requires OneLineEach(msg, r.entry.components)
    ensures exists i :: 0 <= i < |log| && SameCoverage(log[i], msg, r.entry)
  {
    VerifiedIsPrinted(v, registry, msg, r);
    hide Printed, BuildText, OneLineEach, SettlesOn, Canonical, AcceptsOnly, WellFormed, AllParsed,
      IsBaseOf, SfvGrammar.ParseDictionary, SignatureParser.InputEntries, GetAlgorithm, Accepted, SameCoverage;
    var i := AcceptedWasSigned(v, registry, r, id, public, log);
    assert Printed(log[i].components, log[i].params) && OneLineEach(log[i].message, log[i].components);
    OneLineCoverage(log[i], msg, r);
  }

  lemma OneLineCoverage(s: Signing, msg: Message, r: VerifyResult)
    requires IsBaseOf(s, r.signatureBase) && BuildText(msg, r.entry.components, r.entry.params) == Some(r.signatureBase)
    requires Printed(s.components, s.params) && OneLineEach(s.message, s.components)
    requires Printed(r.entry.components, r.entry.params) && OneLineEach(msg, r.entry.components)
    requires AllParsed(r.entry.components)
    ensures SameCoverage(s, msg, r.entry)
  {
    hide Printed, BuildText, OneLineEach, ComponentValue, WellFormed, KindOf, Unmistakable,
      SignatureText.IdentifierText;
    SameBaseAnyNames(s.message, s.components, s.params, msg, r.entry.components, r.entry.params);
  }

  ghost predicate SameCoverage(s: Signing, msg: Message, entry: SignatureEntry) {
    && SameIdentifiers(s.components, entry.components)
    && s.params == entry.params
    && (forall i :: 0 <= i < |s.components| ==>
                      ComponentValue(s.message, s.components[i]) == ComponentValue(msg, entry.components[i]))
    && (forall i :: 0 <= i < |s.components| && Unmistakable(s.components[i], true)
                    && s.components[i].kind == KindOf(s.components[i].name) ==>
                      s.components[i] == entry.components[i])
    && (WellFormed(s.components, s.params) && WellFormed(entry.components, entry.params) ==>
          s.components == entry.components)
  }

  /** With names that need no escape nothing is asked of the values of the verified
      message: it is enough that those that were signed are determined. */
  lemma {:induction false} VerifiedPlainWasSigned(
    v: Verifier, registry: Registry, msg: Message, r: VerifyResult, id: string, public: Key, log: seq<Signing>)
    requires Verifies(v, registry, msg, r) && SignatureText.AllPlain(r.entry.components)
    requires SettlesOn(v, r.labelText, r.entry.params, public, id)
    requires GetAlgorithm(registry, id).Some? && AcceptsOnly(GetAlgorithm(registry, id).value, public, log)
    requires forall i :: 0 <= i < |log| ==> IsDeterminedSigning(log[i])
    ensures exists i :: 0 <= i < |log| && log[i].components == r.entry.components && SameCoverage(log[i], msg, r.entry)
  {
    VerifiedIsPrinted(v, registry, msg, r);
    hide WellFormed, SettlesOn, Canonical, AcceptsOnly, BuildText, IsDeterminedSigning, SameCoverage,
      IsBaseOf, Printed, AllParsed, SfvGrammar.ParseDictionary, SignatureParser.InputEntries, GetAlgorithm, Accepted,
      SignatureText.AllPlain;
    var i := AcceptedWasSigned(v, registry, r, id, public, log);
    DeterminedCoverage(log[i], msg, r);
  }

  lemma DeterminedCoverage(s: Signing, msg: Message, r: VerifyResult)
    requires IsDeterminedSigning(s) && IsBaseOf(s, r.signatureBase) && WellFormed(r.entry.components, r.entry.params)
    requires BuildText(msg, r.entry.components, r.entry.params) == Some(r.signatureBase)
    ensures s.components == r.entry.components && SameCoverage(s, msg, r.entry)
  {
    hide WellFormed, ComponentValue, BaseText, Determined, SignatureText.IdentifierText, Unmistakable, KindOf;
    SameBaseSameValues(s.message, s.components, s.params, msg, r.entry.components, r.entry.params);
  }

  /** If what was signed is clear, nothing is asked of the verified message, neither of
      its names nor of its values. */
  lemma {:induction false} VerifiedClearWasSigned(
    v: Verifier, registry: Registry, msg: Message, r: VerifyResult, id: string, public: Key, log: seq<Signing>)
    requires Verifies(v, registry, msg, r)
    requires SettlesOn(v, r.labelText, r.entry.params, public, id)
    requires GetAlgorithm(registry, id).Some? && AcceptsOnly(GetAlgorithm(registry, id).value, public, log)
    requires forall i :: 0 <= i < |log| ==> IsClearSigning(log[i])
    ensures exists i :: 0 <= i < |log| && log[i].components == r.entry.components && SameCoverage(log[i], msg, r.entry)
  {
    VerifiedIsPrinted(v, registry, msg, r);
    hide Printed, BuildText, SettlesOn, Canonical, AcceptsOnly, WellFormed, AllParsed, IsBaseOf,
      IsClearSigning, SfvGrammar.ParseDictionary, SignatureParser.InputEntries, GetAlgorithm, Accepted, SameCoverage;
    var i := AcceptedWasSigned(v, registry, r, id, public, log);
    assert IsClearSigning(log[i]);
    ClearCoverage(log[i], msg, r);
  }

  ghost predicate IsClearSigning(s: Signing) {
    && Printed(s.components, s.params)
    && AllClear(s.components) && Apart(s.components)
    && OneLineEach(s.message, s.components)
  }

  lemma ClearCoverage(s: Signing, msg: Message, r: VerifyResult)
    requires IsBaseOf(s, r.signatureBase) && BuildText(msg, r.entry.components, r.entry.params) == Some(r.signatureBase)
    requires IsClearSigning(s) && Printed(r.entry.components, r.entry.params) && AllParsed(r.entry.components)
    ensures s.components == r.entry.components && SameCoverage(s, msg, r.entry)
  {
    hide Printed, AllClear, OneLineEach, ComponentValue, WellFormed, BaseText, KindOf, Unmistakable, AllNoLf,
      SignatureText.IdentifierText;
    ValuesHaveNoLf(s.message, s.components);
    ClearBaseDetermines(
      s.components, Values(s.message, s.components).value, s.params,
      r.entry.components, Values(msg, r.entry.components).value, r.entry.params);
  }

  ghost predicate IsDeterminedSigning(s: Signing) {
    && WellFormed(s.components, s.params)
    && (Values(s.message, s.components).Some? ==> Determined(s.components, Values(s.message, s.components).value))
  }

  // One signature over two messages

  /** Two messages with the same headers and the same base verify alike. */
  lemma {:induction false} BothVerify(
    v: Verifier, registry: Registry, s: Signer, msg: Message, random: seq<Octet>, h: SignatureHeaders,
    m: Message, n: Message, r: VerifyResult)
    requires Attached(s, msg, random, h, m, v.limits) && Headers(n) == Headers(m)
    requires BuildText(n, s.components, s.params) == BuildText(m, s.components, s.params)
    ensures Verifies(v, registry, m, r) <==> Verifies(v, registry, n, r)
  {
    hide Canonical, Attach, WithHeaders, Headers, SignatureParser.InputEntries, SfvGrammar.ParseDictionary,
      BuildText, InputText, SignatureInput.SignatureText, FitsMember, IsToken, ValidComponent, KindOf, Carries,
      Verifies, Accepted, Permits;
    var signature := SignatureOf(s, msg, random).value;
    AttachedHeaders(msg, h);
    SameHeadersCarry(m, n, h);
    MetadataRoundTrip(s.labelText, s.components, s.params, v.limits);
    SignatureRoundTrip(s.labelText, signature, v.limits);
    ReadBackVerifies(v, registry, m, s, h, signature, r);
    ReadBackVerifies(v, registry, n, s, h, signature, r);
  }

  /** A query parameter with an LF: what the signer attached to one request verifies on
      another one too, in which both covered parameters have other values. */
  lemma {:induction false} OneSignatureTwoQueries(
    opts: SignerOptions, registry: Registry, s: Signer, request: Request, a: string, b: string,
    x: string, y: string, z: string, random: seq<Octet>, h: SignatureHeaders, v: Verifier, public: Key)
    requires request.url.Some? && a != "" && b != "" && a != b
    requires s.components == [QueryParam(a), QueryParam(b)]
    requires var line := Separator(QueryParam(b));
             var m := WithQuery(request, map[a := [x + line + y], b := [z]]);
             Attached(s, m, random, h, WithHeaders(m, Attach(request.headers, h)), v.limits)
    requires SignerFor(opts, registry) == Some(s) && Correct(s.alg, s.key, public)
    requires Permits(v, s) && Settles(v, s, opts.algorithm, public)
    ensures var line := Separator(QueryParam(b));
            var m := WithHeaders(WithQuery(request, map[a := [x + line + y], b := [z]]), Attach(request.headers, h));
            var n := WithHeaders(WithQuery(request, map[a := [x], b := [y + line + z]]), Attach(request.headers, h));
            && ComponentValue(m, QueryParam(a)) != ComponentValue(n, QueryParam(a))
            && ComponentValue(m, QueryParam(b)) != ComponentValue(n, QueryParam(b))
            && (exists r :: Verifies(v, registry, m, r))
            && forall r :: Verifies(v, registry, m, r) <==> Verifies(v, registry, n, r)
  {
    var signed := request.(headers := Attach(request.headers, h));
    hide Separator, QueryParam, ComponentValue, BuildText, Attach, Canonical, Attached, SignerFor, Correct, Permits,
      Settles, Verifies, ReadsSignature;
    var line := Separator(QueryParam(b));
    var first, second := map[a := [x + line + y], b := [z]], map[a := [x], b := [y + line + z]];
    var unsigned, m, n := WithQuery(request, first), WithQuery(signed, first), WithQuery(signed, second);
    QueriesCollide(signed, s.params, a, b, x, y, z);
    QueryReadsNoHeader(a);
    QueryReadsNoHeader(b);
    assert m == WithHeaders(unsigned, Attach(request.headers, h));
    assert n == WithHeaders(WithQuery(request, second), Attach(request.headers, h));
    assert Headers(m) == Headers(n);
    hide WithQuery, WithHeaders, Headers;
    SignThenVerify(opts, registry, s, unsigned, random, h, m, v, public);
    AttachedIsSigned(s, unsigned, random, h, m, v.limits);
    assert Verifies(
        v, registry, m,
        ReadBack(s, SignatureOf(s, unsigned, random).value, BuildText(unsigned, s.components, s.params).value));
    forall r
      ensures Verifies(v, registry, m, r) <==> Verifies(v, registry, n, r)
    {
      BothVerify(v, registry, s, unsigned, random, h, m, n, r);
    }
  }

  lemma AttachedIsSigned(
    s: Signer, msg: Message, random: seq<Octet>, h: SignatureHeaders, signed: Message, limits: Limits)
    requires Attached(s, msg, random, h, signed, limits)
    ensures SignatureOf(s, msg, random).Some? && BuildText(msg, s.components, s.params).Some?
  {
    hide BuildText, Expressible;
  }

  lemma QueryReadsNoHeader(name: string)
    ensures !ReadsSignature(QueryParam(name))
  {
  }
}
