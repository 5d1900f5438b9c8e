/** Structured field values of RFC 8941, parser limits, and what it takes for a
    value to be expressible as text within given limits. */
module SfvTypes {
  import opened Wrappers

  type int64 = i: int | -0x8000_0000_0000_0000 <= i < 0x8000_0000_0000_0000

  /** A Go value held in an `any`. Unsupported is every other dynamic type, and nil. */
  datatype BareItem =
    | Boolean(flag: bool)
    | Integer(number: int64)
    | Str(text: string)
    | Token(name: string)
    | ByteSequence(bytes: seq<Octet>)
    | Unsupported

  datatype Parameter = Parameter(key: string, value: BareItem)

  datatype Item = Item(value: BareItem, parameters: seq<Parameter>)

  datatype InnerList = InnerList(items: seq<Item>, parameters: seq<Parameter>)

  datatype Member = Single(item: Item) | Inner(list: InnerList)

  datatype List = List(members: seq<Member>)

  /** Keys in order of first occurrence; a later value for a key replaces the earlier one. */
  datatype Dictionary = Dictionary(keys: seq<string>, values: map<string, Member>)

  /** Zero or less means unlimited. */
  datatype Limits = Limits(
    maxInputLength: int,
    maxStringLength: int,
    maxByteSequenceLength: int,
    maxDictionaryMembers: int,
    maxInnerListMembers: int,
    maxParameters: int,
    maxTokenLength: int)

  const DEFAULT_LIMITS := Limits(65536, 8192, 16384, 128, 128, 64, 256)
  const NO_LIMITS := Limits(0, 0, 0, 0, 0, 0, 0)

  predicate Within(n: int, limit: int) {
    limit > 0 ==> n <= limit
  }

  /** Every bound of a is at least as permissive in b. */
  predicate Looser(a: int, b: int) {
    b <= 0 || (0 < a <= b)
  }

  predicate LooserLimits(a: Limits, b: Limits) {
    && Looser(a.maxInputLength, b.maxInputLength)
    && Looser(a.maxStringLength, b.maxStringLength)
    && Looser(a.maxByteSequenceLength, b.maxByteSequenceLength)
    && Looser(a.maxDictionaryMembers, b.maxDictionaryMembers)
    && Looser(a.maxInnerListMembers, b.maxInnerListMembers)
    && Looser(a.maxParameters, b.maxParameters)
    && Looser(a.maxTokenLength, b.maxTokenLength)
  }

  // Character classes

  predicate IsAlpha(c: char) {
    'a' <= c <= 'z' || 'A' <= c <= 'Z'
  }

  predicate IsDigit(c: char) {
    '0' <= c <= '9'
  }

  predicate IsTokenChar(c: char) {
    IsAlpha(c) || IsDigit(c) || c == '_' || c == '-' || c == '.' || c == ':' || c == '%' || c == '*' || c == '/'
  }

  predicate IsBase64Char(c: char) {
    IsAlpha(c) || IsDigit(c) || c == '+' || c == '/' || c == '='
  }

  lemma ColonIsNotBase64()
    ensures !IsBase64Char(':')
  {
  }

  predicate IsOws(c: char) {
    c == ' ' || c == '\t'
  }

  predicate IsSpace(c: char) {
    c == ' '
  }

  predicate IsPrintable(c: char) {
    ' ' <= c <= '~'
  }

  predicate IsToken(t: string) {
    t != "" && (IsAlpha(t[0]) || t[0] == '*') && forall i :: 0 <= i < |t| ==> IsTokenChar(t[i])
  }

  predicate AllPrintable(s: string) {
    forall i :: 0 <= i < |s| ==> IsPrintable(s[i])
  }

  // Values that have a text within limits

  function EscapeChar(c: char): string {
    if c == '"' || c == '\\' then ['\\', c] else [c]
  }

  /** The text between the quotes: backslash before '"' and '\'. */
  function Escape(s: string): string {
    if s == "" then "" else EscapeChar(s[0]) + Escape(s[1..])
  }

  predicate FitsToken(t: string, limits: Limits) {
    IsToken(t) && Within(|t|, limits.maxTokenLength)
  }

  predicate FitsBareItem(v: BareItem, limits: Limits) {
    match v
    case Boolean(_) => true
    case Integer(n) => -1_000_000_000_000_000 < n < 1_000_000_000_000_000
    case Str(s) => AllPrintable(s) && Within(|Escape(s)|, limits.maxStringLength)
    case Token(t) => FitsToken(t, limits)
    case ByteSequence(bs) => Within(|bs|, limits.maxByteSequenceLength)
    case Unsupported => false
  }

  predicate FitsParameter(p: Parameter, limits: Limits) {
    FitsToken(p.key, limits) && FitsBareItem(p.value, limits)
  }

  predicate FitsParameters(ps: seq<Parameter>, limits: Limits) {
    Within(|ps|, limits.maxParameters) && forall i :: 0 <= i < |ps| ==> FitsParameter(ps[i], limits)
  }

  predicate FitsItem(item: Item, limits: Limits) {
    FitsBareItem(item.value, limits) && FitsParameters(item.parameters, limits)
  }

  predicate FitsItems(items: seq<Item>, limits: Limits) {
    forall i :: 0 <= i < |items| ==> FitsItem(items[i], limits)
  }

  predicate FitsMember(m: Member, limits: Limits) {
    match m
    case Single(item) => FitsItem(item, limits)
    case Inner(l) =>
      FitsItems(l.items, limits)
      && Within(|l.items|, limits.maxInnerListMembers)
      && FitsParameters(l.parameters, limits)
  }

  predicate FitsList(l: List, limits: Limits) {
    && Within(|l.members|, limits.maxDictionaryMembers)
    && forall i :: 0 <= i < |l.members| ==> FitsMember(l.members[i], limits)
  }

  /** The keys are distinct and are exactly the domain of the map. */
  predicate IsOrdered(d: Dictionary) {
    && (forall i, j :: 0 <= i < j < |d.keys| ==> d.keys[i] != d.keys[j])
    && (forall i :: 0 <= i < |d.keys| ==> d.keys[i] in d.values)
    && (forall k :: k in d.values ==> k in d.keys)
  }

  predicate FitsDictionary(d: Dictionary, limits: Limits) {
    && IsOrdered(d)
    && Within(|d.keys|, limits.maxDictionaryMembers)
    && forall i :: 0 <= i < |d.keys| ==> FitsToken(d.keys[i], limits) && FitsMember(d.values[d.keys[i]], limits)
  }
}
