/** Every way of writing a structured field: the texts the parser accepts, without limits,
    are exactly the spellings below, and each means what its pieces say. */
module SfvSpelling {
  import opened Wrappers
  import opened SfvTypes
  import opened SfvGrammar
  import opened SfvPrimitives
  import opened SfvDictionary
  import Base64
  import SfvRoundTrip

  /** A bare item as it is written. */
  datatype BareSpelling = BareSpelling(text: string, value: BareItem)

  /** Leading zeros and "-0" are accepted, and base64 with or without padding. */
  ghost predicate IsBareSpelling(b: BareSpelling) {
    match b.value
    case Boolean(flag) => b.text == if flag then "?1" else "?0"
    case Integer(n) => exists negative, digits :: IsIntegerText(b.text, n, "", negative, digits)
    case Str(s) => b.text == StringText(s) && AllPrintable(s)
    case Token(t) => b.text == t && IsToken(t)
    case ByteSequence(bs) => exists encoded :: IsByteSequenceText(b.text, bs, "", encoded)
    case Unsupported => false
  }

  predicate NoDigitFirst(rest: string) {
    rest != "" ==> !IsDigit(rest[0])
  }

  /** The text behind a bare item does not continue it. */
  predicate EndsBare(v: BareItem, rest: string) {
    (v.Integer? ==> NoDigitFirst(rest)) && (v.Token? ==> Stops(rest))
  }

  // Bare items

  lemma {:induction false} BareIsRead(b: BareSpelling, rest: string)
    requires IsBareSpelling(b) && EndsBare(b.value, rest)
    ensures ParseBareItem(b.text + rest, NO_LIMITS) == Done(b.value, rest)
    ensures b.text != "" && !IsOws(b.text[0]) && b.text[0] !in {'(', ')', ',', ';', '='}
  {
    hide ParseBareItem, IsToken, AllPrintable, StringText, IsIntegerText, IsByteSequenceText, Stops, NoDigitFirst;
    match b.value {
      case Boolean(flag) =>
        BooleanIsRead(flag, rest);
      case Integer(n) =>
        IntegerIsRead(b, n, rest);
      case Str(s) =>
        StringIsRead(s, rest);
      case Token(t) =>
        TokenIsRead(t, rest);
      case ByteSequence(bs) =>
        BytesAreRead(b, bs, rest);
    }
  }

  lemma BooleanIsRead(flag: bool, rest: string)
    ensures ParseBareItem((if flag then "?1" else "?0") + rest, NO_LIMITS) == Done(Boolean(flag), rest)
  {
    assert ((if flag then "?1" else "?0") + rest)[2..] == rest;
  }

  lemma TokenIsRead(t: string, rest: string)
    requires IsToken(t) && Stops(rest)
    ensures ParseBareItem(t + rest, NO_LIMITS) == Done(Token(t), rest)
    ensures t != "" && (t[0] == '*' || IsAlpha(t[0]))
  {
    TokenRoundTrip(t, rest, NO_LIMITS);
    hide ParseToken;
  }

  lemma IntegerIsRead(b: BareSpelling, n: int64, rest: string)
    requires IsBareSpelling(b) && b.value == Integer(n) && NoDigitFirst(rest)
    ensures ParseBareItem(b.text + rest, NO_LIMITS) == Done(b.value, rest)
    ensures b.text != "" && (b.text[0] == '-' || IsDigit(b.text[0]))
  {
    hide IsIntegerText, ParseInteger, NoDigitFirst, IsDigit;
    var negative, digits :| IsIntegerText(b.text, n, "", negative, digits);
    IntegerText(b.text, n, rest, negative, digits);
    IntegerExactly(b.text + rest, n, rest);
    SignOrDigit(b.text + rest);
  }

  lemma SignOrDigit(s: string)
    requires s != "" && (s[0] == '-' || IsDigit(s[0]))
    ensures ParseBareItem(s, NO_LIMITS) == ParseInteger(s)
  {
    hide ParseInteger;
  }

  lemma IntegerText(text: string, n: int64, rest: string, negative: bool, digits: string)
    requires IsIntegerText(text, n, "", negative, digits) && NoDigitFirst(rest)
    ensures IsIntegerText(text + rest, n, rest, negative, digits)
    ensures text != "" && (text[0] == '-' || IsDigit(text[0]))
  {
    hide DecimalValue;
    NothingAdded(if negative then "-" + digits else digits);
    assert IsDigit(digits[0]);
  }

  lemma StringIsRead(s: string, rest: string)
    requires AllPrintable(s)
    ensures ParseBareItem(StringText(s) + rest, NO_LIMITS) == Done(Str(s), rest)
    ensures StringText(s) != "" && StringText(s)[0] == '"'
  {
    hide Escape, ParseString;
    StringExactly(StringText(s) + rest, s, rest, NO_LIMITS);
  }

  lemma BytesAreRead(b: BareSpelling, bs: seq<Octet>, rest: string)
    requires IsBareSpelling(b) && b.value == ByteSequence(bs)
    ensures ParseBareItem(b.text + rest, NO_LIMITS) == Done(b.value, rest)
    ensures b.text != "" && b.text[0] == ':'
  {
    hide IsByteSequenceText, ParseByteSequence;
    var encoded :| IsByteSequenceText(b.text, bs, "", encoded);
    BytesText(b.text, bs, rest, encoded);
    ByteSequenceExactly(b.text + rest, bs, rest, NO_LIMITS);
  }

  lemma BytesText(text: string, bs: seq<Octet>, rest: string, encoded: string)
    requires IsByteSequenceText(text, bs, "", encoded)
    ensures IsByteSequenceText(text + rest, bs, rest, encoded)
    ensures text != "" && text[0] == ':'
  {
    hide Base64.DecodeEither, IsBase64Char;
    NothingAdded(":" + encoded + ":");
  }

  lemma {:induction false} BareWasSpelled(s: string) returns (b: BareSpelling)
    requires ParseBareItem(s, NO_LIMITS).Done?
    ensures var p := ParseBareItem(s, NO_LIMITS);
            s == b.text + p.rest && b.value == p.value && IsBareSpelling(b) && EndsBare(b.value, p.rest)
  {
    var v, rest := ParseBareItem(s, NO_LIMITS).value, ParseBareItem(s, NO_LIMITS).rest;
    if s[0] == '?' {
      b := BareSpelling(s[..2], v);
    } else if s[0] == '-' || IsDigit(s[0]) {
      b := IntegerWasSpelled(s);
    } else if s[0] == '"' {
      b := StringWasSpelled(s);
    } else if s[0] == ':' {
      b := BytesWereSpelled(s);
    } else {
      hide ParseToken;
      TokenExactly(s, v.name, rest, NO_LIMITS);
      b := BareSpelling(v.name, v);
    }
  }

  lemma IntegerWasSpelled(s: string) returns (b: BareSpelling)
    requires ParseInteger(s).Done?
    ensures var p := ParseInteger(s);
            s == b.text + p.rest && b.value == p.value && IsBareSpelling(b) && EndsBare(b.value, p.rest)
  {
    hide ParseInteger;
    var negative, digits := IntegerConsumes(s);
    var signed := if negative then "-" + digits else digits;
    b := BareSpelling(signed, ParseInteger(s).value);
    NothingAdded(signed);
    assert IsIntegerText(signed, b.value.number, "", negative, digits);
  }

  lemma StringWasSpelled(s: string) returns (b: BareSpelling)
    requires ParseString(s, NO_LIMITS).Done?
    ensures var p := ParseString(s, NO_LIMITS);
            s == b.text + p.rest && b.value == p.value && IsBareSpelling(b) && EndsBare(b.value, p.rest)
  {
    var p := ParseString(s, NO_LIMITS);
    b := BareSpelling(StringText(p.value.text), p.value);
    StringExactly(s, p.value.text, p.rest, NO_LIMITS);
    hide ParseString, Escape;
  }

  lemma BytesWereSpelled(s: string) returns (b: BareSpelling)
    requires ParseByteSequence(s, NO_LIMITS).Done?
    ensures var p := ParseByteSequence(s, NO_LIMITS);
            s == b.text + p.rest && b.value == p.value && IsBareSpelling(b) && EndsBare(b.value, p.rest)
  {
    var p := ParseByteSequence(s, NO_LIMITS);
    var encoded := ByteSequenceConsumes(s, p.value.bytes, p.rest, NO_LIMITS);
    hide ParseByteSequence;
    var text := ":" + encoded + ":";
    NothingAdded(text);
    assert IsByteSequenceText(text, p.value.bytes, "", encoded);
    b := BareSpelling(text, p.value);
  }

  // Parameters

  /** A key alone is true; nothing may stand around ';' and '='. */
  datatype ParameterSpelling = KeyAlone(key: string) | Assigned(key: string, bare: BareSpelling)

  function ParameterWritten(p: ParameterSpelling): string {
    match p
    case KeyAlone(key) => key
    case Assigned(key, bare) => key + ("=" + bare.text)
  }

  function ParameterMeant(p: ParameterSpelling): Parameter {
    match p
    case KeyAlone(key) => Parameter(key, Boolean(true))
    case Assigned(key, bare) => Parameter(key, bare.value)
  }

  ghost predicate IsParameterSpelling(p: ParameterSpelling) {
    IsToken(p.key) && (p.Assigned? ==> IsBareSpelling(p.bare))
  }

  predicate EndsParameter(p: ParameterSpelling, rest: string) {
    match p
    case KeyAlone(_) => Stops(rest) && (rest != "" ==> rest[0] != '=')
    case Assigned(_, bare) => EndsBare(bare.value, rest)
  }

  lemma AssignedText(key: string, text: string, rest: string)
    ensures key + ("=" + text) + rest == key + ("=" + (text + rest))
    ensures ("=" + (text + rest))[0] == '=' && ("=" + (text + rest))[1..] == text + rest
    ensures Stops("=" + (text + rest))
  {
    ConcatAssociates("=", text, rest);
    ConcatAssociates(key, "=" + text, rest);
    SfvRoundTrip.EqualsStops(text + rest);
  }

  lemma {:induction false} ParameterIsRead(p: ParameterSpelling, rest: string)
    requires IsParameterSpelling(p) && EndsParameter(p, rest)
    ensures ParseParameter(ParameterWritten(p) + rest, NO_LIMITS) == Done(ParameterMeant(p), rest)
  {
    hide ParseToken, ParseBareItem, IsToken, IsBareSpelling, EndsBare;
    match p {
      case KeyAlone(key) =>
        TokenRoundTrip(key, rest, NO_LIMITS);
      case Assigned(key, bare) =>
        AssignedText(key, bare.text, rest);
        TokenRoundTrip(key, "=" + (bare.text + rest), NO_LIMITS);
        BareIsRead(bare, rest);
    }
  }

  lemma {:induction false} ParameterWasSpelled(s: string) returns (p: ParameterSpelling)
    requires ParseParameter(s, NO_LIMITS).Done?
    ensures var r := ParseParameter(s, NO_LIMITS);
            && s == ParameterWritten(p) + r.rest && ParameterMeant(p) == r.value
            && IsParameterSpelling(p) && EndsParameter(p, r.rest)
  {
    hide ParseToken, ParseBareItem, IsToken, IsBareSpelling, EndsBare;
    var key, after := ParseToken(s, NO_LIMITS).value, ParseToken(s, NO_LIMITS).rest;
    TokenExactly(s, key, after, NO_LIMITS);
    if after != "" && after[0] == '=' {
      var bare := BareWasSpelled(after[1..]);
      p := Assigned(key, bare);
      var rest := ParseBareItem(after[1..], NO_LIMITS).rest;
      assert after == "=" + after[1..];
      ConcatAssociates("=", bare.text, rest);
      ConcatAssociates(key, "=" + bare.text, rest);
    } else {
      p := KeyAlone(key);
    }
  }

  function ParametersWritten(ps: seq<ParameterSpelling>): string {
    if ps == [] then "" else ";" + ParameterWritten(ps[0]) + ParametersWritten(ps[1..])
  }

  function ParametersMeant(ps: seq<ParameterSpelling>): (r: seq<Parameter>)
    ensures |r| == |ps|
  {
    if ps == [] then [] else [ParameterMeant(ps[0])] + ParametersMeant(ps[1..])
  }

  ghost predicate AreParameters(ps: seq<ParameterSpelling>) {
    forall i :: 0 <= i < |ps| ==> IsParameterSpelling(ps[i])
  }

  predicate EndsParameters(ps: seq<ParameterSpelling>, rest: string) {
    (rest != "" ==> rest[0] != ';') && (ps != [] ==> EndsParameter(ps[|ps| - 1], rest))
  }

  lemma SemicolonEnds(p: ParameterSpelling, rest: string)
    requires rest != "" && rest[0] == ';'
    ensures EndsParameter(p, rest)
  {
  }

  lemma ParametersSplit(ps: seq<ParameterSpelling>, rest: string)
    requires ps != []
    ensures var tail := ParametersWritten(ps[1..]) + rest;
            && ParametersWritten(ps) + rest == ";" + (ParameterWritten(ps[0]) + tail)
            && (|ps| == 1 ==> tail == rest)
            && (|ps| > 1 ==> tail != "" && tail[0] == ';')
  {
    hide ParameterWritten;
    var first, others := ParameterWritten(ps[0]), ParametersWritten(ps[1..]);
    ConcatAssociates(";" + first, others, rest);
    ConcatAssociates(";", first, others + rest);
    NothingAdded(rest);
  }

  lemma {:induction false} ParametersAreRead(ps: seq<ParameterSpelling>, count: nat, rest: string)
    requires AreParameters(ps) && EndsParameters(ps, rest)
    ensures ParseParameters(ParametersWritten(ps) + rest, count, NO_LIMITS) == Done(ParametersMeant(ps), rest)
    decreases |ps|
  {
    hide ParseParameter, ParameterWritten, ParameterMeant, IsParameterSpelling, EndsParameter;
    if ps == [] {
      NothingAdded(rest);
    } else {
      var tail := ParametersWritten(ps[1..]) + rest;
      ParametersSplit(ps, rest);
      DropFirst(";", ParameterWritten(ps[0]) + tail);
      NothingAdded(ParameterWritten(ps[0]) + tail);
      if |ps| > 1 {
        SemicolonEnds(ps[0], tail);
        assert ps[1..][|ps[1..]| - 1] == ps[|ps| - 1];
      }
      ParametersAreRead(ps[1..], count + 1, rest);
      ParameterIsRead(ps[0], tail);
    }
  }

  lemma {:induction false} ParametersWereSpelled(s: string, count: nat) returns (ps: seq<ParameterSpelling>)
    requires ParseParameters(s, count, NO_LIMITS).Done?
    ensures var r := ParseParameters(s, count, NO_LIMITS);
            && s == ParametersWritten(ps) + r.rest && ParametersMeant(ps) == r.value
            && AreParameters(ps) && EndsParameters(ps, r.rest)
    decreases |s|
  {
    hide ParseParameter, ParameterWritten, ParameterMeant, IsParameterSpelling, EndsParameter;
    if s == "" || s[0] != ';' {
      ps := [];
      NothingAdded(s);
    } else {
      var p := ParameterWasSpelled(s[1..]);
      var after := ParseParameter(s[1..], NO_LIMITS).rest;
      var others := ParametersWereSpelled(after, count + 1);
      ps := [p] + others;
      assert ps[1..] == others && s == ";" + s[1..];
      ParametersSplit(ps, ParseParameters(s, count, NO_LIMITS).rest);
      if others == [] {
        NothingAdded(ParseParameters(after, count + 1, NO_LIMITS).rest);
      }
    }
  }

  // Items

  datatype ItemSpelling = ItemSpelling(bare: BareSpelling, parameters: seq<ParameterSpelling>)

  function ItemWritten(i: ItemSpelling): string {
    i.bare.text + ParametersWritten(i.parameters)
  }

  function ItemMeant(i: ItemSpelling): Item {
    Item(i.bare.value, ParametersMeant(i.parameters))
  }

  ghost predicate IsItemSpelling(i: ItemSpelling) {
    IsBareSpelling(i.bare) && AreParameters(i.parameters)
  }

  predicate EndsItem(i: ItemSpelling, rest: string) {
    EndsParameters(i.parameters, rest) && (i.parameters == [] ==> EndsBare(i.bare.value, rest))
  }

  lemma {:induction false} ItemIsRead(i: ItemSpelling, rest: string)
    requires IsItemSpelling(i) && EndsItem(i, rest)
    ensures ParseItem(ItemWritten(i) + rest, NO_LIMITS) == Done(ItemMeant(i), rest)
    ensures ItemWritten(i) != "" && !IsOws(ItemWritten(i)[0]) && ItemWritten(i)[0] !in {'(', ')', ','}
  {
    hide ParseBareItem, ParseParameters, IsBareSpelling, AreParameters;
    var tail := ParametersWritten(i.parameters) + rest;
    ParametersAreRead(i.parameters, 0, rest);
    ParametersEndBare(i, rest);
    BareIsRead(i.bare, tail);
    ConcatAssociates(i.bare.text, ParametersWritten(i.parameters), rest);
  }

  lemma ParametersEndBare(i: ItemSpelling, rest: string)
    requires EndsItem(i, rest)
    ensures EndsBare(i.bare.value, ParametersWritten(i.parameters) + rest)
  {
    hide ParameterWritten;
    if i.parameters == [] {
      NothingAdded(rest);
    }
  }

  lemma BareEnds(i: ItemSpelling, rest: string)
    requires EndsBare(i.bare.value, ParametersWritten(i.parameters) + rest) && EndsParameters(i.parameters, rest)
    ensures EndsItem(i, rest)
  {
    if i.parameters == [] {
      NothingAdded(rest);
    }
  }

  lemma {:induction false} ItemWasSpelled(s: string) returns (i: ItemSpelling)
    requires ParseItem(s, NO_LIMITS).Done?
    ensures var r := ParseItem(s, NO_LIMITS);
            && s == ItemWritten(i) + r.rest && ItemMeant(i) == r.value
            && IsItemSpelling(i) && EndsItem(i, r.rest)
  {
    hide ParseBareItem, ParseParameters, IsBareSpelling, AreParameters, EndsBare, EndsParameters;
    var bare := BareWasSpelled(s);
    var after := ParseBareItem(s, NO_LIMITS).rest;
    var ps := ParametersWereSpelled(after, 0);
    var rest := ParseParameters(after, 0, NO_LIMITS).rest;
    i := ItemSpelling(bare, ps);
    ConcatAssociates(bare.text, ParametersWritten(ps), rest);
    BareEnds(i, rest);
  }

  // Inner lists

  /** An item with any number of spaces in front of it. */
  datatype SpacedItem = SpacedItem(spaces: nat, item: ItemSpelling)

  function Spaces(n: nat): (s: string)
    ensures |s| == n && forall i :: 0 <= i < n ==> s[i] == ' '
  {
    if n == 0 then "" else " " + Spaces(n - 1)
  }

  /** The items, and the spaces in front of the parenthesis. */
  function SpacedWritten(items: seq<SpacedItem>, last: nat): string {
    if items == [] then Spaces(last)
    else Spaces(items[0].spaces) + (ItemWritten(items[0].item) + SpacedWritten(items[1..], last))
  }

  function SpacedMeant(items: seq<SpacedItem>): (r: seq<Item>)
    ensures |r| == |items|
  {
    if items == [] then [] else [ItemMeant(items[0].item)] + SpacedMeant(items[1..])
  }

  /** Every item is ended by what is written behind it: a space always ends it. */
  ghost predicate AreSpaced(items: seq<SpacedItem>, last: nat, rest: string)
    decreases |items|
  {
    items != [] ==>
      && IsItemSpelling(items[0].item)
      && EndsItem(items[0].item, SpacedWritten(items[1..], last) + rest)
      && AreSpaced(items[1..], last, rest)
  }

  /** Any number of spaces is skipped, and nothing else. */
  lemma SpacesAreSkipped(n: nat, s: string)
    ensures SkipSpaces(Spaces(n) + s) == SkipSpaces(s)
  {
    var k := Span(IsSpace, s);
    ConcatAssociates(Spaces(n), s[..k], s[k..]);
    assert s[..k] + s[k..] == s;
    assert forall i :: 0 <= i < n + k ==> (Spaces(n) + s[..k])[i] == ' ';
    SpanIs(IsSpace, Spaces(n) + s[..k], s[k..]);
  }

  lemma NothingSkipped(s: string)
    requires s != "" ==> s[0] != ' '
    ensures SkipSpaces(s) == s
  {
  }

  lemma {:induction false} SkippedSpaces(s: string) returns (n: nat)
    ensures s == Spaces(n) + SkipSpaces(s)
    ensures SkipSpaces(s) != "" ==> SkipSpaces(s)[0] != ' '
  {
    n := Span(IsSpace, s);
    assert s[..n] == Spaces(n);
  }

  /** Spaces in front of an item, of the parenthesis, or behind the opening one do not
      matter. */
  lemma {:induction false} SpacesDoNotMatter(n: nat, s: string, count: nat, limits: Limits)
    ensures ParseItems(Spaces(n) + s, count, limits) == ParseItems(s, count, limits)
  {
    SpacesAreSkipped(n, s);
    hide SkipSpaces, ParseItem;
  }

  lemma {:induction false} SpacedAreRead(items: seq<SpacedItem>, last: nat, count: nat, rest: string)
    requires rest != "" && rest[0] == ')' && AreSpaced(items, last, rest)
    ensures ParseItems(SpacedWritten(items, last) + rest, count, NO_LIMITS) == Done(SpacedMeant(items), rest)
    decreases |items|
  {
    hide ParseItem, ItemWritten, ItemMeant, IsItemSpelling, EndsItem, SkipSpaces, IsOws;
    if items == [] {
      SpacesAreSkipped(last, rest);
      NothingSkipped(rest);
    } else {
      var item, behind := items[0].item, SpacedWritten(items[1..], last);
      var tail := behind + rest;
      ItemIsRead(item, tail);
      ConcatAssociates(Spaces(items[0].spaces), ItemWritten(item) + behind, rest);
      ConcatAssociates(ItemWritten(item), behind, rest);
      SpacesAreSkipped(items[0].spaces, ItemWritten(item) + tail);
      SfvRoundTrip.FirstOfText(ItemWritten(item), tail);
      OwsIsSpace(ItemWritten(item)[0]);
      NothingSkipped(ItemWritten(item) + tail);
      SpacedAreRead(items[1..], last, count + 1, rest);
    }
  }

  lemma OwsIsSpace(c: char)
    ensures IsOws(c) <==> c == ' ' || c == '\t'
  {
  }

  lemma {:induction false} SpacedWereSpelled(s: string, count: nat) returns (items: seq<SpacedItem>, last: nat)
    requires ParseItems(s, count, NO_LIMITS).Done?
    ensures var r := ParseItems(s, count, NO_LIMITS);
            && s == SpacedWritten(items, last) + r.rest && SpacedMeant(items) == r.value
            && r.rest != "" && r.rest[0] == ')' && AreSpaced(items, last, r.rest)
    decreases |s|
  {
    hide ParseItem, ItemWritten, ItemMeant, IsItemSpelling, EndsItem, SkipSpaces;
    var n := SkippedSpaces(s);
    var t := SkipSpaces(s);
    if t != "" && t[0] == ')' {
      items, last := [], n;
    } else {
      var item := ItemWasSpelled(t);
      var after := ParseItem(t, NO_LIMITS).rest;
      var others;
      others, last := SpacedWereSpelled(after, count + 1);
      items := [SpacedItem(n, item)] + others;
      assert items[1..] == others;
      var rest := ParseItems(s, count, NO_LIMITS).rest;
      ConcatAssociates(ItemWritten(item), SpacedWritten(others, last), rest);
      ConcatAssociates(Spaces(n), ItemWritten(item) + SpacedWritten(others, last), rest);
    }
  }

  /** A tab is no space: where an item could begin it is an error. */
  lemma TabFails(n: nat, s: string, count: nat, limits: Limits)
    ensures ParseItems(Spaces(n) + ("\t" + s), count, limits) == Fail
  {
    hide SkipSpaces, ParseBareItem, Spaces;
    SpacesDoNotMatter(n, "\t" + s, count, limits);
    NothingSkipped("\t" + s);
    TabIsNoItem(s, limits);
  }

  lemma TabIsNoItem(s: string, limits: Limits)
    ensures ParseBareItem("\t" + s, limits) == Fail
  {
  }

  /** The items as they are printed, with other numbers of spaces. */
  function SpacedText(items: seq<Item>, spaces: seq<nat>, last: nat): string
    requires |spaces| == |items|
  {
    if items == [] then Spaces(last)
    else Spaces(spaces[0]) + (ItemText(items[0]) + SpacedText(items[1..], spaces[1..], last))
  }

  lemma SpacesFollow(items: seq<Item>, spaces: seq<nat>, last: nat, rest: string)
    requires |spaces| == |items| && (items != [] ==> spaces[0] > 0) && rest != "" && rest[0] == ')'
    ensures SfvRoundTrip.Follows(SpacedText(items, spaces, last) + rest)
  {
    hide ItemText;
  }

  lemma {:induction false} SpacedRoundTrip(
    items: seq<Item>, spaces: seq<nat>, last: nat, count: nat, rest: string, limits: Limits)
    requires |spaces| == |items| && forall i :: 0 < i < |spaces| ==> spaces[i] > 0
    requires Within(count + |items|, limits.maxInnerListMembers) && FitsItems(items, limits)
    requires rest != "" && rest[0] == ')'
    ensures ParseItems(SpacedText(items, spaces, last) + rest, count, limits) == Done(items, rest)
    decreases |items|
  {
    hide ParseItem, ItemText, FitsItem, SkipSpaces, SfvRoundTrip.Follows, IsOws;
    if items == [] {
      SpacesAreSkipped(last, rest);
      NothingSkipped(rest);
    } else {
      var behind := SpacedText(items[1..], spaces[1..], last);
      var tail := behind + rest;
      SpacesFollow(items[1..], spaces[1..], last, rest);
      SfvRoundTrip.ItemRoundTrip(items[0], tail, limits);
      ConcatAssociates(Spaces(spaces[0]), ItemText(items[0]) + behind, rest);
      ConcatAssociates(ItemText(items[0]), behind, rest);
      SpacesAreSkipped(spaces[0], ItemText(items[0]) + tail);
      SfvRoundTrip.FirstOfText(ItemText(items[0]), tail);
      OwsIsSpace(ItemText(items[0])[0]);
      NothingSkipped(ItemText(items[0]) + tail);
      SpacedRoundTrip(items[1..], spaces[1..], last, count + 1, rest, limits);
      assert items == [items[0]] + items[1..];
    }
  }

  /** An inner list may have any spaces behind '(' and in front of ')', and at least one
      between items. */
  lemma InnerListAnySpaces(l: InnerList, spaces: seq<nat>, last: nat, rest: string, limits: Limits)
    requires FitsMember(Inner(l), limits) && SfvRoundTrip.Follows(rest)
    requires |spaces| == |l.items| && forall i :: 0 < i < |spaces| ==> spaces[i] > 0
    ensures var s := "(" + (SpacedText(l.items, spaces, last) + (")" + (ParametersText(l.parameters) + rest)));
            ParseInnerList(s, limits) == Done(l, rest)
  {
    hide ParseItems, SpacedText, ParseParameters, ParametersText, FitsItem, FitsParameter, SfvRoundTrip.Follows;
    var behind := ParametersText(l.parameters) + rest;
    SpacedRoundTrip(l.items, spaces, last, 0, ")" + behind, limits);
    SfvRoundTrip.ParametersRoundTrip(l.parameters, 0, rest, limits);
    DropFirst("(", SpacedText(l.items, spaces, last) + (")" + behind));
    NothingAdded(SpacedText(l.items, spaces, last) + (")" + behind));
    DropFirst(")", behind);
    NothingAdded(behind);
  }

  // Members

  datatype ValueSpelling =
    | ItemValue(item: ItemSpelling)
    | ListValue(items: seq<SpacedItem>, last: nat, parameters: seq<ParameterSpelling>)

  function ValueWritten(v: ValueSpelling): string {
    match v
    case ItemValue(item) => ItemWritten(item)
    case ListValue(items, last, ps) => "(" + (SpacedWritten(items, last) + (")" + ParametersWritten(ps)))
  }

  function ValueMeant(v: ValueSpelling): Member {
    match v
    case ItemValue(item) => Single(ItemMeant(item))
    case ListValue(items, _, ps) => Inner(InnerList(SpacedMeant(items), ParametersMeant(ps)))
  }

  ghost predicate IsValueSpelling(v: ValueSpelling) {
    match v
    case ItemValue(item) => IsItemSpelling(item)
    case ListValue(items, last, ps) => AreSpaced(items, last, ")") && AreParameters(ps)
  }

  predicate EndsValue(v: ValueSpelling, rest: string) {
    match v
    case ItemValue(item) => EndsItem(item, rest)
    case ListValue(_, _, ps) => EndsParameters(ps, rest)
  }

  /** What ends an item is the first character behind it. */
  lemma SameEnd(i: ItemSpelling, a: string, b: string)
    requires a != "" && b != "" && a[0] == b[0]
    ensures EndsItem(i, a) <==> EndsItem(i, b)
  {
  }

  lemma SameFirst(behind: string, a: string, b: string)
    requires a != "" && b != "" && a[0] == b[0]
    ensures behind + a != "" && behind + b != "" && (behind + a)[0] == (behind + b)[0]
  {
  }

  lemma {:induction false} SpacedBehind(items: seq<SpacedItem>, last: nat, a: string, b: string)
    requires a != "" && b != "" && a[0] == b[0]
    ensures AreSpaced(items, last, a) <==> AreSpaced(items, last, b)
    decreases |items|
  {
    hide EndsItem, SpacedWritten, IsItemSpelling;
    if items != [] {
      SpacedBehind(items[1..], last, a, b);
      var behind := SpacedWritten(items[1..], last);
      SameFirst(behind, a, b);
      SameEnd(items[0].item, behind + a, behind + b);
    }
  }

  lemma ListPieces(items: string, ps: string, rest: string)
    ensures "(" + (items + (")" + ps)) + rest == "(" + (items + (")" + (ps + rest)))
  {
    ConcatAssociates("(", items + (")" + ps), rest);
    ConcatAssociates(items, ")" + ps, rest);
    ConcatAssociates(")", ps, rest);
  }

  lemma {:induction false} ValueIsRead(v: ValueSpelling, rest: string)
    requires IsValueSpelling(v) && EndsValue(v, rest)
    ensures ParseValue(ValueWritten(v) + rest, NO_LIMITS) == Done(ValueMeant(v), rest)
    ensures ValueWritten(v) != "" && !IsOws(ValueWritten(v)[0]) && ValueWritten(v)[0] != ','
  {
    hide ParseItem, ParseItems, ParseParameters, EndsItem, EndsParameters, IsItemSpelling, AreSpaced, AreParameters,
      ItemWritten, ItemMeant, SpacedWritten, ParametersWritten;
    match v {
      case ItemValue(item) =>
        ItemIsRead(item, rest);
        SfvRoundTrip.FirstOfText(ItemWritten(item), rest);
      case ListValue(items, last, ps) =>
        var tail := ")" + (ParametersWritten(ps) + rest);
        ListPieces(SpacedWritten(items, last), ParametersWritten(ps), rest);
        SpacedBehind(items, last, ")", tail);
        SpacedAreRead(items, last, 0, tail);
        ParametersAreRead(ps, 0, rest);
        DropFirst("(", SpacedWritten(items, last) + tail);
        NothingAdded(SpacedWritten(items, last) + tail);
        DropFirst(")", ParametersWritten(ps) + rest);
        NothingAdded(ParametersWritten(ps) + rest);
    }
  }

  lemma {:induction false} ValueWasSpelled(s: string) returns (v: ValueSpelling)
    requires ParseValue(s, NO_LIMITS).Done?
    ensures var r := ParseValue(s, NO_LIMITS);
            && s == ValueWritten(v) + r.rest && ValueMeant(v) == r.value
            && IsValueSpelling(v) && EndsValue(v, r.rest)
  {
    hide ParseItem, ParseItems, ParseParameters, EndsItem, EndsParameters, IsItemSpelling, AreSpaced, AreParameters,
      ItemWritten, ItemMeant, SpacedWritten, ParametersWritten;
    if s != "" && s[0] == '(' {
      var items, last := SpacedWereSpelled(s[1..], 0);
      var after := ParseItems(s[1..], 0, NO_LIMITS).rest;
      var ps := ParametersWereSpelled(after[1..], 0);
      var rest := ParseParameters(after[1..], 0, NO_LIMITS).rest;
      v := ListValue(items, last, ps);
      SpacedBehind(items, last, ")", after);
      assert s == "(" + s[1..] && after == ")" + after[1..];
      ListPieces(SpacedWritten(items, last), ParametersWritten(ps), rest);
    } else {
      var item := ItemWasSpelled(s);
      v := ItemValue(item);
    }
  }

  // Dictionary entries

  /** A key alone is true, takes no parameters, and has no white space behind it. */
  datatype EntrySpelling = NameAlone(key: string) | Named(key: string, value: ValueSpelling)

  function EntryWritten(e: EntrySpelling): string {
    match e
    case NameAlone(key) => key
    case Named(key, value) => key + ("=" + ValueWritten(value))
  }

  function EntryMeant(e: EntrySpelling): Entry {
    match e
    case NameAlone(key) => (key, Single(Item(Boolean(true), [])))
    case Named(key, value) => (key, ValueMeant(value))
  }

  ghost predicate IsEntrySpelling(e: EntrySpelling) {
    IsToken(e.key) && (e.Named? ==> IsValueSpelling(e.value))
  }

  predicate EndsEntry(e: EntrySpelling, rest: string) {
    match e
    case NameAlone(_) => Stops(rest) && (rest != "" ==> rest[0] != '=' && !IsOws(rest[0]))
    case Named(_, value) => EndsValue(value, rest)
  }

  lemma NamedIsRead(key: string, value: ValueSpelling, rest: string)
    requires IsToken(key) && IsValueSpelling(value) && EndsValue(value, rest)
    ensures ParseMember(key + ("=" + ValueWritten(value)) + rest, NO_LIMITS) == Done((key, ValueMeant(value)), rest)
  {
    hide ParseToken, ParseValue, IsToken, IsValueSpelling, EndsValue, ValueWritten, ValueMeant, Stops, IsOws;
    AssignedText(key, ValueWritten(value), rest);
    EqualsIsNoWhite();
    TokenRoundTrip(key, "=" + (ValueWritten(value) + rest), NO_LIMITS);
    ValueIsRead(value, rest);
  }

  lemma EqualsIsNoWhite()
    ensures !IsOws('=')
  {
  }

  lemma NameAloneIsRead(key: string, rest: string)
    requires IsToken(key) && EndsEntry(NameAlone(key), rest)
    ensures ParseMember(key + rest, NO_LIMITS) == Done((key, Single(Item(Boolean(true), []))), rest)
  {
    hide ParseToken, IsToken, IsOws;
    TokenRoundTrip(key, rest, NO_LIMITS);
  }

  lemma {:induction false} EntryIsRead(e: EntrySpelling, rest: string)
    requires IsEntrySpelling(e) && EndsEntry(e, rest)
    ensures ParseMember(EntryWritten(e) + rest, NO_LIMITS) == Done(EntryMeant(e), rest)
    ensures EntryWritten(e) != "" && !IsOws(EntryWritten(e)[0])
  {
    SfvRoundTrip.KeyStarts(e.key, NO_LIMITS);
    hide ParseMember, IsToken, IsOws, IsValueSpelling, EndsValue, ValueWritten, ValueMeant;
    match e {
      case NameAlone(key) =>
        NameAloneIsRead(key, rest);
      case Named(key, value) =>
        NamedIsRead(key, value, rest);
        SfvRoundTrip.FirstOfText(key, "=" + ValueWritten(value));
    }
  }

  lemma {:induction false} EntryWasSpelled(s: string) returns (e: EntrySpelling)
    requires ParseMember(s, NO_LIMITS).Done?
    ensures var r := ParseMember(s, NO_LIMITS);
            && s == EntryWritten(e) + r.rest && EntryMeant(e) == r.value
            && IsEntrySpelling(e) && EndsEntry(e, r.rest)
  {
    hide ParseToken, ParseValue, IsToken, IsValueSpelling, EndsValue, ValueWritten, ValueMeant;
    var key, after := ParseToken(s, NO_LIMITS).value, ParseToken(s, NO_LIMITS).rest;
    TokenExactly(s, key, after, NO_LIMITS);
    if after != "" && after[0] == '=' {
      var value := ValueWasSpelled(after[1..]);
      var rest := ParseValue(after[1..], NO_LIMITS).rest;
      e := Named(key, value);
      assert after == "=" + after[1..];
      ConcatAssociates("=", ValueWritten(value), rest);
      ConcatAssociates(key, "=" + ValueWritten(value), rest);
    } else {
      e := NameAlone(key);
    }
  }
}
