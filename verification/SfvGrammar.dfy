/** What the parser accepts and what the serializer prints, as functions. A parse
    takes the text that remains and returns a value with the text left over. */
module SfvGrammar {
  import opened Wrappers
  import opened SfvTypes
  import Base64

  datatype Parse<+T> = Fail | Done(value: T, rest: string) {
    predicate IsFailure() {
      Fail?
    }

    function PropagateFailure<U>(): Parse<U>
      requires Fail?
    {
      Fail
    }

    function Extract(): (T, string)
      requires Done?
    {
      (value, rest)
    }
  }

  // Integers in decimal

  function DigitChar(n: int): char
    requires 0 <= n < 10
  {
    ('0' as int + n) as char
  }

  function Decimal(n: nat): string {
    if n < 10 then [DigitChar(n)] else Decimal(n / 10) + [DigitChar(n % 10)]
  }

  /** strconv.FormatInt in base ten. */
  function FormatInt(i: int): string {
    if i < 0 then "-" + Decimal(-i) else Decimal(i)
  }

  function DecimalValue(s: string): nat
    requires forall i :: 0 <= i < |s| ==> IsDigit(s[i])
  {
    if s == "" then 0
    else
      assert IsDigit(s[|s| - 1]);
      DecimalValue(s[..|s| - 1]) * 10 + (s[|s| - 1] as int - '0' as int)
  }

  /** strconv.ParseInt in base ten, for a sign and digits: fails outside 64 bits. */
  function ParseInt64(negative: bool, digits: string): Option<int64>
    requires forall i :: 0 <= i < |digits| ==> IsDigit(digits[i])
  {
    var magnitude: int := DecimalValue(digits);
    var i := if negative then -magnitude else magnitude;
    if -0x8000_0000_0000_0000 <= i < 0x8000_0000_0000_0000 then Some(i) else None
  }

  // Parsing

  function SkipOws(s: string): (rest: string)
    ensures |rest| <= |s|
  {
    s[Span(IsOws, s)..]
  }

  function SkipSpaces(s: string): (rest: string)
    ensures |rest| <= |s|
  {
    s[Span(IsSpace, s)..]
  }

  function ParseBoolean(s: string): (p: Parse<BareItem>)
    ensures p.Done? ==> |p.rest| < |s|
  {
    if |s| >= 2 && s[0] == '?' && (s[1] == '0' || s[1] == '1') then Done(Boolean(s[1] == '1'), s[2..]) else Fail
  }

  function ParseInteger(s: string): (p: Parse<BareItem>)
    ensures p.Done? ==> |p.rest| < |s|
  {
    var negative := s != "" && s[0] == '-';
    var digits := if negative then s[1..] else s;
    var n := Span(IsDigit, digits);
    if n == 0 || n > 15 then Fail
    else
      match ParseInt64(negative, digits[..n])
      case None => Fail
      case Some(i) => Done(Integer(i), digits[n..])
  }

  /** The next byte inside a string and the length of its raw form. */
  function NextChar(s: string): (r: Option<(char, int)>)
    requires s != ""
    ensures r.Some? ==> 1 <= r.value.1 <= |s|
  {
    if s[0] == '\\' then
      if |s| >= 2 && (s[1] == '"' || s[1] == '\\') then Some((s[1], 2)) else None
    else if IsPrintable(s[0]) then Some((s[0], 1))
    else None
  }

  /** A quoted string read in one pass: `used` raw bytes have been read since the quote. */
  function ParseStringBody(s: string, used: nat, limits: Limits): (p: Parse<string>)
    ensures p.Done? ==> |p.rest| < |s|
  {
    if s == "" then Fail
    else if s[0] == '"' then Done("", s[1..])
    else
      match NextChar(s)
      case None => Fail
      case Some((c, n)) =>
        if !Within(used + n, limits.maxStringLength) then Fail
        else
          var (text, rest) :- ParseStringBody(s[n..], used + n, limits);
          Done([c] + text, rest)
  }

  function ParseString(s: string, limits: Limits): (p: Parse<BareItem>)
    ensures p.Done? ==> |p.rest| < |s|
  {
    if s == "" || s[0] != '"' then Fail
    else
      var (text, rest) :- ParseStringBody(s[1..], 0, limits);
      Done(Str(text), rest)
  }

  function ParseToken(s: string, limits: Limits): (p: Parse<string>)
    ensures p.Done? ==> |p.rest| < |s|
  {
    if s == "" || (!IsAlpha(s[0]) && s[0] != '*') then Fail
    else
      var n := 1 + Span(IsTokenChar, s[1..]);
      if Within(n, limits.maxTokenLength) then Done(s[..n], s[n..]) else Fail
  }

  function ParseByteSequence(s: string, limits: Limits): (p: Parse<BareItem>)
    ensures p.Done? ==> |p.rest| < |s|
  {
    if s == "" || s[0] != ':' then Fail
    else
      var n := Span(IsBase64Char, s[1..]);
      var after := s[1..][n..];
      if after == "" || after[0] != ':' then Fail
      else
        match Base64.DecodeEither(s[1..][..n])
        case None => Fail
        case Some(bs) =>
          if Within(|bs|, limits.maxByteSequenceLength) then Done(ByteSequence(bs), after[1..]) else Fail
  }

  function ParseBareItem(s: string, limits: Limits): (p: Parse<BareItem>)
    ensures p.Done? ==> |p.rest| < |s|
  {
    if s == "" then Fail
    else if s[0] == '?' then ParseBoolean(s)
    else if s[0] == '-' || IsDigit(s[0]) then ParseInteger(s)
    else if s[0] == '"' then ParseString(s, limits)
    else if s[0] == ':' then ParseByteSequence(s, limits)
    else if s[0] == '*' || IsAlpha(s[0]) then
      var (t, rest) :- ParseToken(s, limits);
      Done(Token(t), rest)
    else Fail
  }

  /** One parameter after its ';'. */
  function ParseParameter(s: string, limits: Limits): (p: Parse<Parameter>)
    ensures p.Done? ==> |p.rest| < |s|
  {
    var (key, afterKey) :- ParseToken(s, limits);
    if afterKey != "" && afterKey[0] == '=' then
      var (value, rest) :- ParseBareItem(afterKey[1..], limits);
      Done(Parameter(key, value), rest)
    else Done(Parameter(key, Boolean(true)), afterKey)
  }

  /** `count` parameters have been read already. */
  function ParseParameters(s: string, count: nat, limits: Limits): (p: Parse<seq<Parameter>>)
    ensures p.Done? ==> |p.rest| <= |s|
    decreases |s|
  {
    if s == "" || s[0] != ';' then Done([], s)
    else if !Within(count + 1, limits.maxParameters) then Fail
    else
      var (param, afterParam) :- ParseParameter(s[1..], limits);
      var (params, rest) :- ParseParameters(afterParam, count + 1, limits);
      Done([param] + params, rest)
  }

  /** ParseItem; it leaves the rest of the input unread. */
  function ParseItem(s: string, limits: Limits): (p: Parse<Item>)
    ensures p.Done? ==> |p.rest| < |s|
  {
    var (value, afterValue) :- ParseBareItem(s, limits);
    var (params, rest) :- ParseParameters(afterValue, 0, limits);
    Done(Item(value, params), rest)
  }

  /** The items up to, not including, the ')'. */
  function ParseItems(s: string, count: nat, limits: Limits): (p: Parse<seq<Item>>)
    ensures p.Done? ==> |p.rest| <= |s|
    decreases |s|
  {
    var t := SkipSpaces(s);
    if t != "" && t[0] == ')' then Done([], t)
    else if !Within(count + 1, limits.maxInnerListMembers) then Fail
    else
      var (item, afterItem) :- ParseItem(t, limits);
      var (items, rest) :- ParseItems(afterItem, count + 1, limits);
      Done([item] + items, rest)
  }

  function ParseInnerList(s: string, limits: Limits): (p: Parse<InnerList>)
    ensures p.Done? ==> |p.rest| < |s|
  {
    if s == "" || s[0] != '(' then Fail
    else
      var (items, afterItems) :- ParseItems(s[1..], 0, limits);
      if afterItems == "" || afterItems[0] != ')' then Fail
      else
        var (params, rest) :- ParseParameters(afterItems[1..], 0, limits);
        Done(InnerList(items, params), rest)
  }

  function ParseValue(s: string, limits: Limits): (p: Parse<Member>)
    ensures p.Done? ==> |p.rest| < |s|
  {
    if s != "" && s[0] == '(' then
      var (list, rest) :- ParseInnerList(s, limits);
      Done(Inner(list), rest)
    else
      var (item, rest) :- ParseItem(s, limits);
      Done(Single(item), rest)
  }

  function ParseMember(s: string, limits: Limits): (p: Parse<(string, Member)>)
    ensures p.Done? ==> |p.rest| < |s|
  {
    var (key, afterKey) :- ParseToken(s, limits);
    if afterKey != "" && IsOws(afterKey[0]) then Fail
    else if afterKey == "" || afterKey[0] != '=' then Done((key, Single(Item(Boolean(true), []))), afterKey)
    else
      var (value, rest) :- ParseValue(afterKey[1..], limits);
      Done((key, value), rest)
  }

  /** What follows a member: the next member's text, or None after the last. A comma
      with nothing behind it is an error; anything but a comma ends the members,
      and the text behind it is ignored. */
  datatype Separation = TrailingComma | Last | Next(rest: string)

  function Separate(s: string): (sep: Separation)
    ensures sep.Next? ==> |sep.rest| < |s|
  {
    var t := SkipOws(s);
    if t == "" || t[0] != ',' then Last
    else
      var u := SkipOws(t[1..]);
      if u == "" then TrailingComma else Next(u)
  }

  function Store(d: Dictionary, key: string, value: Member): Dictionary {
    Dictionary(if key in d.values then d.keys else d.keys + [key], d.values[key := value])
  }

  function ParseDictionaryFrom(s: string, d: Dictionary, limits: Limits): Option<Dictionary>
    decreases |s|
  {
    if s == "" then Some(d)
    else if !Within(|d.keys| + 1, limits.maxDictionaryMembers) then None
    else
      match ParseMember(s, limits)
      case Fail => None
      case Done((key, value), afterMember) =>
        var stored := Store(d, key, value);
        match Separate(afterMember)
        case TrailingComma => None
        case Last => Some(stored)
        case Next(rest) => ParseDictionaryFrom(rest, stored, limits)
  }

  const EMPTY_DICTIONARY := Dictionary([], map[])

  function ParseDictionary(s: string, limits: Limits): Option<Dictionary> {
    if Within(|s|, limits.maxInputLength) then ParseDictionaryFrom(s, EMPTY_DICTIONARY, limits) else None
  }

  function ParseListFrom(s: string, count: nat, limits: Limits): Option<seq<Member>>
    decreases |s|
  {
    if s == "" then Some([])
    else if !Within(count + 1, limits.maxDictionaryMembers) then None
    else
      match ParseValue(s, limits)
      case Fail => None
      case Done(value, afterValue) =>
        match Separate(afterValue)
        case TrailingComma => None
        case Last => Some([value])
        case Next(rest) =>
          var members :- ParseListFrom(rest, count + 1, limits);
          Some([value] + members)
  }

  function ParseList(s: string, limits: Limits): Option<List> {
    if Within(|s|, limits.maxInputLength) then
      var members :- ParseListFrom(s, 0, limits);
      Some(List(members))
    else None
  }

  // Printing

  function StringText(s: string): string {
    "\"" + Escape(s) + "\""
  }

  function BareItemText(v: BareItem): string {
    match v
    case Boolean(b) => if b then "?1" else "?0"
    case Integer(n) => FormatInt(n)
    case Str(s) => StringText(s)
    case Token(t) => t
    case ByteSequence(bs) => ":" + Base64.Encode(bs, true) + ":"
    case Unsupported => ""
  }

  function ParameterText(p: Parameter): string {
    ";" + p.key + if p.value == Boolean(true) then "" else "=" + BareItemText(p.value)
  }

  function ParametersText(ps: seq<Parameter>): string {
    if ps == [] then "" else ParameterText(ps[0]) + ParametersText(ps[1..])
  }

  function ItemText(item: Item): string {
    BareItemText(item.value) + ParametersText(item.parameters)
  }

  function ItemsText(items: seq<Item>): string {
    if items == [] then ""
    else if |items| == 1 then ItemText(items[0])
    else ItemText(items[0]) + " " + ItemsText(items[1..])
  }

  function InnerListText(l: InnerList): string {
    "(" + ItemsText(l.items) + ")" + ParametersText(l.parameters)
  }

  function MemberText(m: Member): string {
    match m
    case Single(item) => ItemText(item)
    case Inner(l) => InnerListText(l)
  }

  /** True without parameters is printed as the bare key. */
  function EntryText(key: string, value: Member): string {
    if value == Single(Item(Boolean(true), [])) then key else key + "=" + MemberText(value)
  }

  function MembersText(ms: seq<Member>): string {
    if ms == [] then ""
    else if |ms| == 1 then MemberText(ms[0])
    else MemberText(ms[0]) + ", " + MembersText(ms[1..])
  }

  /** A key without a value prints nothing: the serializer refuses it. */
  function EntryTextIn(key: string, values: map<string, Member>): string {
    if key in values then EntryText(key, values[key]) else ""
  }

  function EntriesText(keys: seq<string>, values: map<string, Member>): string {
    if keys == [] then ""
    else if |keys| == 1 then EntryTextIn(keys[0], values)
    else EntryTextIn(keys[0], values) + ", " + EntriesText(keys[1..], values)
  }

  function DictionaryText(d: Dictionary): string {
    EntriesText(d.keys, d.values)
  }

  // What the serializer accepts: no unsupported Go value, no key without a value

  predicate PrintsParameters(ps: seq<Parameter>) {
    forall i :: 0 <= i < |ps| ==> !ps[i].value.Unsupported?
  }

  predicate PrintsItem(item: Item) {
    !item.value.Unsupported? && PrintsParameters(item.parameters)
  }

  predicate PrintsMember(m: Member) {
    match m
    case Single(item) => PrintsItem(item)
    case Inner(l) =>
      (forall i :: 0 <= i < |l.items| ==> PrintsItem(l.items[i])) && PrintsParameters(l.parameters)
  }

  predicate PrintsDictionary(d: Dictionary) {
    forall i :: 0 <= i < |d.keys| ==> d.keys[i] in d.values && PrintsMember(d.values[d.keys[i]])
  }

  predicate PrintsList(l: List) {
    forall i :: 0 <= i < |l.members| ==> PrintsMember(l.members[i])
  }
}
