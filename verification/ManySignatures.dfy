/** A message with two signatures: each is found under its label, and without a label a
    verifier refuses to choose. */
module ManySignatures {
  import opened Wrappers
  import opened SfvTypes
  import opened SignatureTypes
  import opened SignatureInput
  import opened HttpMessage
  import opened SignatureBase
  import opened HttpSig
  import opened SignVerify
  import SfvGrammar
  import SfvRoundTrip
  import SignatureParser

  /** What is said under one label. */
  datatype Said = Said(labelText: string, components: seq<Component>, params: SignatureParams, signature: seq<Octet>)

  predicate CanBeSaid(a: Said, limits: Limits) {
    && Expressible(a.labelText, a.components, a.params, limits)
    && Within(|a.signature|, limits.maxByteSequenceLength)
  }

  function InputOf(a: Said): string {
    InputText(a.labelText, a.components, a.params)
  }

  function SignatureLine(a: Said): string {
    SignatureInput.SignatureText(a.labelText, a.signature)
  }

  function EntryOf(a: Said): SignatureEntry {
    SignatureEntry(a.labelText, a.components, a.params, [])
  }

  /** Both headers with one member for each of the two. */
  function Together(a: Said, b: Said): SignatureHeaders {
    SignatureHeaders(InputOf(a) + (", " + InputOf(b)), SignatureLine(a) + (", " + SignatureLine(b)))
  }

  predicate TogetherFit(a: Said, b: Said, limits: Limits) {
    && a.labelText != b.labelText && CanBeSaid(a, limits) && CanBeSaid(b, limits)
    && Within(2, limits.maxDictionaryMembers)
    && Within(|Together(a, b).input|, limits.maxInputLength)
    && Within(|Together(a, b).signature|, limits.maxInputLength)
  }

  function Two(x: string, v: Member, y: string, w: Member): Dictionary {
    Dictionary([x, y], map[x := v, y := w])
  }

  lemma TwoText(x: string, v: Member, y: string, w: Member)
    requires x != y
    ensures SfvGrammar.DictionaryText(Two(x, v, y, w)) ==
            SfvGrammar.EntryText(x, v) + (", " + SfvGrammar.EntryText(y, w))
  {
    hide SfvGrammar.EntryText;
    var values := map[x := v, y := w];
    assert [x, y][1..] == [y];
    assert SfvGrammar.EntryTextIn(x, values) == SfvGrammar.EntryText(x, v);
    assert SfvGrammar.EntriesText([y], values) == SfvGrammar.EntryText(y, w);
    ConcatAssociates(SfvGrammar.EntryText(x, v), ", ", SfvGrammar.EntryText(y, w));
  }

  lemma TwoRead(x: string, v: Member, y: string, w: Member, limits: Limits)
    requires x != y && FitsToken(x, limits) && FitsToken(y, limits) && FitsMember(v, limits) && FitsMember(w, limits)
    requires Within(2, limits.maxDictionaryMembers)
    requires Within(|SfvGrammar.EntryText(x, v) + (", " + SfvGrammar.EntryText(y, w))|, limits.maxInputLength)
    ensures SfvGrammar.ParseDictionary(SfvGrammar.EntryText(x, v) + (", " + SfvGrammar.EntryText(y, w)), limits) ==
            Some(Two(x, v, y, w))
  {
    hide FitsToken, FitsMember, SfvGrammar.EntryText, SfvGrammar.ParseDictionary, SfvGrammar.DictionaryText;
    TwoText(x, v, y, w);
    assert FitsDictionary(Two(x, v, y, w), limits);
    SfvRoundTrip.DictionaryRoundTrip(Two(x, v, y, w), limits);
  }

  function InputMember(a: Said): Member {
    Inner(InputList(a.components, a.params))
  }

  function SignatureMember(a: Said): Member {
    Single(Item(ByteSequence(a.signature), []))
  }

  lemma LinesAreEntries(a: Said, limits: Limits)
    requires CanBeSaid(a, limits)
    ensures InputOf(a) == SfvGrammar.EntryText(a.labelText, InputMember(a))
    ensures SignatureLine(a) == SfvGrammar.EntryText(a.labelText, SignatureMember(a))
    ensures FitsToken(a.labelText, limits)
    ensures FitsMember(InputMember(a), limits) && FitsMember(SignatureMember(a), limits)
    ensures SignatureParser.EntryFromInput(a.labelText, InputMember(a)) == Some(EntryOf(a))
  {
    hide FitsToken, FitsItems, FitsParameters, InputText, SignatureInput.SignatureText, SfvGrammar.EntryText,
      ToSfvItems, ToSfvSignatureParams, ValidComponent, KindOf, SignatureParser.ConvertItems,
      SignatureParser.ExtractFrom;
    BytesFit(a.signature, limits);
    InputTextIsDictionary(a.labelText, a.components, a.params);
    SignatureTextIsDictionary(a.labelText, a.signature);
    ConvertComponents(a.components, limits);
    ExtractSignatureParams(a.params);
    hide InputList;
    OneText(a.labelText, InputMember(a));
    OneText(a.labelText, SignatureMember(a));
  }

  lemma BytesFit(bs: seq<Octet>, limits: Limits)
    requires Within(|bs|, limits.maxByteSequenceLength)
    ensures FitsMember(Single(Item(ByteSequence(bs), [])), limits)
  {
  }

  lemma OneText(key: string, value: Member)
    ensures SfvGrammar.DictionaryText(Dictionary([key], map[key := value])) == SfvGrammar.EntryText(key, value)
  {
    hide SfvGrammar.EntryText;
  }

  /** Both headers are read label by label. */
  lemma {:induction false} BothRead(a: Said, b: Said, limits: Limits)
    requires TogetherFit(a, b, limits)
    ensures SignatureParser.InputEntries(Together(a, b).input, limits) ==
            Some(map[a.labelText := EntryOf(a), b.labelText := EntryOf(b)])
    ensures SfvGrammar.ParseDictionary(Together(a, b).signature, limits) ==
            Some(Two(a.labelText, SignatureMember(a), b.labelText, SignatureMember(b)))
  {
    hide FitsToken, FitsMember, CanBeSaid, InputOf, SignatureLine, SfvGrammar.EntryText, SfvGrammar.ParseDictionary,
      SignatureParser.EntryFromInput, InputMember, SignatureMember, EntryOf;
    LinesAreEntries(a, limits);
    LinesAreEntries(b, limits);
    TwoRead(a.labelText, InputMember(a), b.labelText, InputMember(b), limits);
    TwoRead(a.labelText, SignatureMember(a), b.labelText, SignatureMember(b), limits);
    TwoEntries(a, b);
  }

  lemma TwoEntries(a: Said, b: Said)
    requires a.labelText != b.labelText
    requires SignatureParser.EntryFromInput(a.labelText, InputMember(a)) == Some(EntryOf(a))
    requires SignatureParser.EntryFromInput(b.labelText, InputMember(b)) == Some(EntryOf(b))
    ensures SignatureParser.EntriesOf(Two(a.labelText, InputMember(a), b.labelText, InputMember(b))) ==
            Some(map[a.labelText := EntryOf(a), b.labelText := EntryOf(b)])
  {
    hide SignatureParser.EntryFromInput, InputMember, EntryOf;
    var d := Two(a.labelText, InputMember(a), b.labelText, InputMember(b));
    var entries := map[a.labelText := EntryOf(a), b.labelText := EntryOf(b)];
    assert d.values.Keys == entries.Keys;
    assert SignatureParser.EntriesOf(d).value == entries;
  }

  /** What verification establishes of one of them. */
  ghost predicate VerifiesSaid(v: Verifier, registry: Registry, msg: Message, a: Said, r: VerifyResult) {
    && BuildText(msg, a.components, a.params) == Some(r.signatureBase)
    && r == VerifyResult(a.labelText, EntryOf(a).(signature := a.signature), r.signatureBase)
    && (forall i :: 0 <= i < |v.required| ==> v.required[i] in a.components)
    && v.paramsValid(a.params)
    && AcceptedAsSettled(v, registry, r)
  }

  /** With a label only the entry and the signature under it count. */
  lemma {:induction false} LabelledVerifies(
    v: Verifier, registry: Registry, msg: Message, h: SignatureHeaders, entries: SignatureParser.Entries,
    d: Dictionary, a: Said, r: VerifyResult)
    requires Carries(msg, h) && h.signature != "" && v.labelText == a.labelText != ""
    requires SignatureParser.InputEntries(h.input, v.limits) == Some(entries)
    requires SfvGrammar.ParseDictionary(h.signature, v.limits) == Some(d)
    requires a.labelText in entries && entries[a.labelText] == EntryOf(a)
    requires a.labelText in d.values && d.values[a.labelText] == SignatureMember(a)
    ensures Verifies(v, registry, msg, r) <==> VerifiesSaid(v, registry, msg, a, r)
  {
    hide SfvGrammar.ParseDictionary, SignatureParser.InputEntries, Headers, HttpMessage.Get, Accepted,
      AcceptedAsSettled, BuildText, Carries, Canonical;
    FirstLineIsRead(msg, h);
    AcceptedExactly(v, registry, r);
  }

  /** A verifier that is given a label finds nothing under another one. */
  lemma OtherLabelFails(
    v: Verifier, registry: Registry, msg: Message, h: SignatureHeaders, entries: SignatureParser.Entries,
    r: VerifyResult)
    requires Carries(msg, h) && SignatureParser.InputEntries(h.input, v.limits) == Some(entries)
    requires if v.labelText == "" then |entries| != 1 else v.labelText !in entries
    ensures !Verifies(v, registry, msg, r)
  {
    hide SfvGrammar.ParseDictionary, SignatureParser.InputEntries, Headers, HttpMessage.Get, Accepted, BuildText,
      Carries, Established, Canonical;
    FirstLineIsRead(msg, h);
  }

  /** A verifier that is given the label of one verifies that one, as if the other were
      not there; without a label, or with another one, it verifies neither. */
  lemma {:induction false} EachVerifiesAlone(
    v: Verifier, registry: Registry, msg: Message, a: Said, b: Said, r: VerifyResult)
    requires TogetherFit(a, b, v.limits) && Carries(msg, Together(a, b))
    ensures v.labelText == a.labelText ==> (Verifies(v, registry, msg, r) <==> VerifiesSaid(v, registry, msg, a, r))
    ensures v.labelText == b.labelText ==> (Verifies(v, registry, msg, r) <==> VerifiesSaid(v, registry, msg, b, r))
    ensures v.labelText !in {a.labelText, b.labelText} ==> !Verifies(v, registry, msg, r)
  {
    hide SfvGrammar.ParseDictionary, SignatureParser.InputEntries, VerifiesSaid, Verifies, SignatureMember, EntryOf,
      Carries, Together, TogetherFit;
    BothRead(a, b, v.limits);
    LabelsAndHeaders(a, b, v.limits);
    var h, entries := Together(a, b), map[a.labelText := EntryOf(a), b.labelText := EntryOf(b)];
    var d := Two(a.labelText, SignatureMember(a), b.labelText, SignatureMember(b));
    if v.labelText == a.labelText {
      LabelledVerifies(v, registry, msg, h, entries, d, a, r);
    } else if v.labelText == b.labelText {
      LabelledVerifies(v, registry, msg, h, entries, d, b, r);
    } else {
      TwoKeys(a.labelText, EntryOf(a), b.labelText, EntryOf(b));
      OtherLabelFails(v, registry, msg, h, entries, r);
    }
  }

  lemma LabelsAndHeaders(a: Said, b: Said, limits: Limits)
    requires TogetherFit(a, b, limits)
    ensures a.labelText != "" && b.labelText != "" && a.labelText != b.labelText
    ensures Together(a, b).signature != ""
  {
    LabelIsToken(a, limits);
    LabelIsToken(b, limits);
    hide CanBeSaid;
  }

  lemma LabelIsToken(a: Said, limits: Limits)
    requires CanBeSaid(a, limits)
    ensures a.labelText != ""
  {
  }

  lemma TwoKeys<T>(x: string, v: T, y: string, w: T)
    requires x != y
    ensures |map[x := v, y := w]| == 2
  {
    assert map[x := v, y := w].Keys == {x, y};
  }
}
