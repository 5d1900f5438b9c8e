/** Signing and verifying a message (pkg/httpsig). Cryptography is a parameter: an
    algorithm is a pair of functions, signing takes its random bytes as an argument. */
module HttpSig {
  import opened Wrappers
  import opened SfvTypes
  import opened SignatureTypes
  import opened SignatureInput
  import opened HttpMessage
  import opened SignatureBase
  import SfvGrammar
  import SignatureParser

  type Key = seq<Octet>

  datatype Algorithm = Algorithm(
    id: string,
    sign: (string, Key, seq<Octet>) -> Option<seq<Octet>>,
    verify: (string, seq<Octet>, Key) -> bool)

  type Registry = map<string, Algorithm>

  function GetAlgorithm(registry: Registry, id: string): Option<Algorithm> {
    if id == "" || id !in registry then None else Some(registry[id])
  }

  // Signing

  const DEFAULT_LABEL := "sig1"

  /** Times are Unix seconds; None is the zero time, and now is the clock. */
  datatype SignerOptions = SignerOptions(
    labelText: string,
    components: seq<Component>,
    algorithm: string,
    key: Option<Key>,
    keyId: string,
    nonce: string,
    tag: string,
    created: Option<int64>,
    expires: Option<int64>,
    disableCreated: bool,
    disableAlgorithm: bool,
    now: int64)

  datatype Signer = Signer(
    labelText: string,
    components: seq<Component>,
    params: SignatureParams,
    alg: Algorithm,
    key: Key,
    input: string)

  datatype SignatureHeaders = SignatureHeaders(input: string, signature: string)

  function Label(opts: SignerOptions): string {
    if opts.labelText == "" then DEFAULT_LABEL else opts.labelText
  }

  function NonEmpty(s: string): Option<string> {
    if s != "" then Some(s) else None
  }

  function Params(opts: SignerOptions): SignatureParams {
    SignatureParams(
      if opts.disableCreated then None else if opts.created.Some? then opts.created else Some(opts.now),
      opts.expires,
      NonEmpty(opts.nonce),
      if opts.disableAlgorithm then None else Some(opts.algorithm),
      NonEmpty(opts.keyId),
      NonEmpty(opts.tag))
  }

  /** The signer a configuration gives: it needs a known algorithm, a key, and a value
      for every component parameter. */
  function SignerFor(opts: SignerOptions, registry: Registry): Option<Signer> {
    var key :- opts.key;
    var alg :- GetAlgorithm(registry, opts.algorithm);
    if SfvGrammar.PrintsMember(Inner(InputList(opts.components, Params(opts)))) then
      var input := InputText(Label(opts), opts.components, Params(opts));
      Some(Signer(Label(opts), opts.components, Params(opts), alg, key, input))
    else None
  }

  /** The parameters, field by field. */
  method AssembleParams(opts: SignerOptions) returns (params: SignatureParams)
    ensures params == Params(opts)
  {
    params := NO_PARAMS;
    if !opts.disableCreated {
      var created := opts.now;
      if opts.created.Some? {
        created := opts.created.value;
      }
      params := params.(created := Some(created));
    }
    if opts.expires.Some? {
      params := params.(expires := opts.expires);
    }
    if !opts.disableAlgorithm {
      params := params.(algorithm := Some(opts.algorithm));
    }
    if opts.keyId != "" {
      params := params.(keyId := Some(opts.keyId));
    }
    if opts.nonce != "" {
      params := params.(nonce := Some(opts.nonce));
    }
    if opts.tag != "" {
      params := params.(tag := Some(opts.tag));
    }
  }

  method NewSigner(opts: SignerOptions, registry: Registry) returns (r: Option<Signer>)
    ensures r == SignerFor(opts, registry)
  {
    hide SfvGrammar.PrintsMember, InputText, InputList, Params;
    if opts.algorithm == "" {
      return None;
    }
    if opts.key.None? {
      return None;
    }
    var labelText := opts.labelText;
    if labelText == "" {
      labelText := DEFAULT_LABEL;
    }
    var alg := GetAlgorithm(registry, opts.algorithm);
    if alg.None? {
      return None;
    }
    var params := AssembleParams(opts);
    var input := SerializeSignatureInput(labelText, opts.components, params);
    if input.None? {
      return None;
    }
    return Some(Signer(labelText, opts.components, params, alg.value, opts.key.value, input.value));
  }

  /** The bytes a signer signs into a message's base. */
  function SignatureOf(s: Signer, msg: Message, random: seq<Octet>): Option<seq<Octet>> {
    var text :- BuildText(msg, s.components, s.params);
    s.alg.sign(text, s.key, random)
  }

  function SignHeaders(s: Signer, msg: Message, random: seq<Octet>): Option<SignatureHeaders> {
    var signature :- SignatureOf(s, msg, random);
    if s.labelText == "" then None
    else Some(SignatureHeaders(s.input, SignatureInput.SignatureText(s.labelText, signature)))
  }

  method SignMessage(s: Signer, msg: Message, random: seq<Octet>) returns (r: Option<SignatureHeaders>)
    ensures r == SignHeaders(s, msg, random)
  {
    hide BuildText;
    var text := Build(msg, s.components, s.params);
    if text.None? {
      return None;
    }
    var signature := s.alg.sign(text.value, s.key, random);
    if signature.None? {
      return None;
    }
    var header := SerializeSignature(s.labelText, signature.value);
    if header.None? {
      return None;
    }
    return Some(SignatureHeaders(s.input, header.value));
  }

  const INPUT_HEADER := "Signature-Input"
  const SIGNATURE_HEADER := "Signature"

  function Attach(fields: Fields, h: SignatureHeaders): Fields {
    HttpMessage.Set(HttpMessage.Set(fields, INPUT_HEADER, h.input), SIGNATURE_HEADER, h.signature)
  }

  /** A message whose headers the signer sets in place. */
  class LiveMessage {
    var message: Message

    constructor (message: Message)
      ensures this.message == message
    {
      this.message := message;
    }

    method SetHeader(name: string, value: string)
      modifies this
      ensures message == WithHeaders(old(message), HttpMessage.Set(Headers(old(message)), name, value))
    {
      hide Canonical;
      message := WithHeaders(message, HttpMessage.Set(Headers(message), name, value));
    }
  }

  /** SignRequest and SignResponse: the headers are set only when signing succeeds. */
  method SignLive(s: Signer, live: LiveMessage, random: seq<Octet>) returns (r: Option<SignatureHeaders>)
    modifies live
    ensures r == SignHeaders(s, old(live.message), random)
    ensures live.message == if r.Some? then WithHeaders(old(live.message), Attach(Headers(old(live.message)), r.value))
                            else old(live.message)
  {
    hide SignHeaders, Canonical;
    r := SignMessage(s, live.message, random);
    if r.None? {
      return;
    }
    live.SetHeader(INPUT_HEADER, r.value.input);
    live.SetHeader(SIGNATURE_HEADER, r.value.signature);
  }

  // Verifying

  type Resolver = (string, SignatureParams) -> Option<(Option<Key>, string)>

  datatype VerifyOptions = VerifyOptions(
    labelText: string,
    required: seq<Component>,
    allowed: seq<string>,
    key: Option<Key>,
    algorithm: string,
    resolver: Option<Resolver>,
    paramsValid: SignatureParams -> bool,
    limits: Option<Limits>)

  datatype Verifier = Verifier(
    labelText: string,
    required: seq<Component>,
    allowed: set<string>,
    key: Option<Key>,
    algorithm: string,
    resolver: Option<Resolver>,
    paramsValid: SignatureParams -> bool,
    limits: Limits)

  datatype VerifyResult = VerifyResult(labelText: string, entry: SignatureEntry, signatureBase: string)

  /** Exactly one of a key and a resolver. */
  method NewVerifier(opts: VerifyOptions) returns (r: Option<Verifier>)
    ensures r.Some? <==> (opts.resolver.Some? <==> opts.key.None?)
    ensures r.Some? ==>
              r.value == Verifier(opts.labelText, opts.required, (set a | a in opts.allowed), opts.key, opts.algorithm,
                                  opts.resolver, opts.paramsValid,
                                  if opts.limits.Some? then opts.limits.value else DEFAULT_LIMITS)
  {
    if opts.resolver.Some? && opts.key.Some? {
      return None;
    }
    if opts.resolver.None? && opts.key.None? {
      return None;
    }
    var limits := DEFAULT_LIMITS;
    if opts.limits.Some? {
      limits := opts.limits.value;
    }
    var allowed: set<string> := {};
    for i := 0 to |opts.allowed|
      invariant allowed == set a | a in opts.allowed[..i]
    {
      allowed := allowed + {opts.allowed[i]};
      assert opts.allowed[..i + 1] == opts.allowed[..i] + [opts.allowed[i]];
    }
    assert opts.allowed[..|opts.allowed|] == opts.allowed;
    return Some(Verifier(opts.labelText, opts.required, allowed, opts.key, opts.algorithm, opts.resolver,
                         opts.paramsValid, limits));
  }

  function InitialAlgorithm(v: Verifier, params: SignatureParams): Option<string> {
    if params.algorithm.Some? then
      if v.algorithm != "" && v.algorithm != params.algorithm.value then None
      else if v.algorithm == "" then Some(params.algorithm.value)
      else Some(v.algorithm)
    else Some(v.algorithm)
  }

  function MergeResolvedAlgorithm(algorithm: string, resolved: string): Option<string> {
    if resolved == "" then Some(algorithm)
    else if algorithm != "" && algorithm != resolved then None
    else Some(resolved)
  }

  function ResolveKey(v: Verifier, labelText: string, params: SignatureParams): Option<(Option<Key>, string)> {
    if v.resolver.Some? then v.resolver.value(labelText, params) else Some((v.key, ""))
  }

  function ResolveKeyAndAlgorithm(v: Verifier, labelText: string, params: SignatureParams): Option<(Key, string)> {
    var initial :- InitialAlgorithm(v, params);
    var (resolvedKey, resolved) :- ResolveKey(v, labelText, params);
    var key :- resolvedKey;
    var algorithm :- MergeResolvedAlgorithm(initial, resolved);
    if algorithm == "" then None
    else if v.allowed != {} && algorithm !in v.allowed then None
    else Some((key, algorithm))
  }

  // Equality of components, element by element

  function ValueEqual(a: Value, b: Value): bool {
    match a
    case BooleanValue(x) => b.BooleanValue? && x == b.flag
    case IntegerValue(x) => b.IntegerValue? && x == b.number
    case StringValue(x) => b.StringValue? && x == b.text
    case TokenValue(x) => b.TokenValue? && x == b.name
    case BytesValue(x) => b.BytesValue? && x == b.bytes
    case Nil => b.Nil?
  }

  method ComponentEqual(a: Component, b: Component) returns (r: bool)
    ensures r == (a == b)
  {
    if a.name != b.name || a.kind != b.kind {
      return false;
    }
    if |a.parameters| != |b.parameters| {
      return false;
    }
    for i := 0 to |a.parameters|
      invariant forall j :: 0 <= j < i ==> a.parameters[j] == b.parameters[j]
    {
      if a.parameters[i].key != b.parameters[i].key || !ValueEqual(a.parameters[i].value, b.parameters[i].value) {
        return false;
      }
    }
    return true;
  }

  method ComponentInList(list: seq<Component>, target: Component) returns (r: bool)
    ensures r == (target in list)
  {
    for i := 0 to |list|
      invariant forall j :: 0 <= j < i ==> list[j] != target
    {
      var same := ComponentEqual(list[i], target);
      if same {
        return true;
      }
    }
    return false;
  }

  method ValidateRequiredComponents(required: seq<Component>, covered: seq<Component>) returns (ok: bool)
    ensures ok == forall i :: 0 <= i < |required| ==> required[i] in covered
  {
    for i := 0 to |required|
      invariant forall j :: 0 <= j < i ==> required[j] in covered
    {
      var found := ComponentInList(covered, required[i]);
      if !found {
        return false;
      }
    }
    return true;
  }

  /** The label to verify: the configured one, or the only one there is. */
  ghost predicate Chosen(v: Verifier, entries: SignatureParser.Entries, labelText: string) {
    labelText in entries && if v.labelText == "" then |entries| == 1 else labelText == v.labelText
  }

  lemma ChosenIsUnique(v: Verifier, entries: SignatureParser.Entries, a: string, b: string)
    requires Chosen(v, entries, a) && Chosen(v, entries, b)
    ensures a == b
  {
    if v.labelText == "" {
      assert |entries.Keys - {a}| == 0;
      assert b !in entries.Keys - {a};
    }
  }

  /** What verifyMessage has established when it succeeds. */
  ghost predicate Verifies(v: Verifier, registry: Registry, msg: Message, r: VerifyResult) {
    var input := HttpMessage.Get(Headers(msg), INPUT_HEADER);
    var signature := HttpMessage.Get(Headers(msg), SIGNATURE_HEADER);
    var entries := SignatureParser.InputEntries(input, v.limits);
    var d := SfvGrammar.ParseDictionary(signature, v.limits);
    && signature != ""
    && entries.Some? && d.Some?
    && Chosen(v, entries.value, r.labelText)
    && r.labelText in d.value.values
    && SignatureParser.SignatureBytes(d.value.values[r.labelText]) == Some(r.entry.signature)
    && r.entry == entries.value[r.labelText].(signature := r.entry.signature)
    && Established(v, registry, msg, r)
  }

  /** The policy is met, and the base is accepted. */
  ghost predicate Established(v: Verifier, registry: Registry, msg: Message, r: VerifyResult) {
    && (forall i :: 0 <= i < |v.required| ==> v.required[i] in r.entry.components)
    && v.paramsValid(r.entry.params)
    && BuildText(msg, r.entry.components, r.entry.params) == Some(r.signatureBase)
    && Accepted(v, registry, r)
  }

  /** The algorithm the verifier settles on accepts the signature. */
  ghost predicate Accepted(v: Verifier, registry: Registry, r: VerifyResult) {
    match ResolveKeyAndAlgorithm(v, r.labelText, r.entry.params)
    case None => false
    case Some(pair) =>
      var alg := GetAlgorithm(registry, pair.1);
      alg.Some? && alg.value.verify(r.signatureBase, r.entry.signature, pair.0)
  }

  /** It succeeds exactly when some result can be established, with that result. */
  method VerifyMessage(v: Verifier, registry: Registry, msg: Message) returns (r: Option<VerifyResult>)
    ensures r.Some? ==> Verifies(v, registry, msg, r.value)
    ensures r.None? ==> forall other :: !Verifies(v, registry, msg, other)
  {
    hide Established, SfvGrammar.ParseDictionary, SignatureParser.InputEntries, Canonical,
      SignatureParser.SignatureBytes;
    var input := HttpMessage.Get(Headers(msg), INPUT_HEADER);
    var signature := HttpMessage.Get(Headers(msg), SIGNATURE_HEADER);
    if input == "" {
      NoInputNoEntries(v.limits);
      return None;
    }
    if signature == "" {
      return None;
    }
    var entries := SignatureParser.ParseSignatureInput(input, v.limits);
    if entries.None? {
      return None;
    }
    var d := SignatureParser.ParseHeader(signature, v.limits);
    if d.None? {
      return None;
    }
    var labelText := v.labelText;
    if labelText == "" {
      if |entries.value| != 1 {
        return None;
      }
      labelText :| labelText in entries.value;
    }
    if labelText !in entries.value {
      return None;
    }
    assert Chosen(v, entries.value, labelText);
    forall other | Verifies(v, registry, msg, other)
      ensures other.labelText == labelText
    {
      ChosenIsUnique(v, entries.value, other.labelText, labelText);
    }
    hide Chosen;
    if labelText !in d.value.values {
      return None;
    }
    var bytes := SignatureParser.SignatureBytes(d.value.values[labelText]);
    if bytes.None? {
      return None;
    }
    var entry := entries.value[labelText].(signature := bytes.value);
    r := VerifyEntry(v, registry, msg, labelText, entry);
  }

  /** The steps of verifyMessage behind the entry and its signature. */
  method VerifyEntry(v: Verifier, registry: Registry, msg: Message, labelText: string, entry: SignatureEntry)
    returns (r: Option<VerifyResult>)
    ensures r.Some? ==>
              r.value == VerifyResult(labelText, entry, r.value.signatureBase) && Established(v, registry, msg, r.value)
    ensures r.None? ==> forall text :: !Established(v, registry, msg, VerifyResult(labelText, entry, text))
  {
    hide BuildText, ResolveKeyAndAlgorithm, GetAlgorithm;
    var covered := ValidateRequiredComponents(v.required, entry.components);
    if !covered {
      return None;
    }
    if !v.paramsValid(entry.params) {
      return None;
    }
    var resolved := ResolveKeyAndAlgorithm(v, labelText, entry.params);
    if resolved.None? {
      return None;
    }
    var alg := GetAlgorithm(registry, resolved.value.1);
    if alg.None? {
      return None;
    }
    var text := Build(msg, entry.components, entry.params);
    if text.None? {
      return None;
    }
    if !alg.value.verify(text.value, entry.signature, resolved.value.0) {
      return None;
    }
    return Some(VerifyResult(labelText, entry, text.value));
  }

  lemma NoInputNoEntries(limits: Limits)
    ensures SignatureParser.InputEntries("", limits).None?
  {
  }

  /** A message has at most one verification result. */
  lemma VerifiedResultIsUnique(v: Verifier, registry: Registry, msg: Message, r: VerifyResult, q: VerifyResult)
    requires Verifies(v, registry, msg, r) && Verifies(v, registry, msg, q)
    ensures r == q
  {
    hide BuildText, SfvGrammar.ParseDictionary, SignatureParser.InputEntries, Canonical, Accepted,
      SignatureParser.SignatureBytes, Chosen;
    var entries := SignatureParser.InputEntries(HttpMessage.Get(Headers(msg), INPUT_HEADER), v.limits).value;
    ChosenIsUnique(v, entries, r.labelText, q.labelText);
  }
}
