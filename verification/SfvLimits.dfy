/** Limits only reject: a parse that succeeds gives the same result under looser
    limits, and everything in the result is within the limits it was parsed under.
    Together with the round trips this makes serialization a stable normal form. */
module SfvLimits {
  import opened Wrappers
  import opened SfvTypes
  import opened SfvGrammar
  import opened SfvPrimitives
  import opened SfvRoundTrip
  import Base64

  lemma {:induction false} StringBodyLimits(s: string, used: nat, a: Limits, b: Limits)
    requires LooserLimits(a, b) && ParseStringBody(s, used, a).Done?
    ensures ParseStringBody(s, used, b) == ParseStringBody(s, used, a)
  {
    hide NextChar;
    if s[0] != '"' {
      var n := NextChar(s).value.1;
      StringBodyLimits(s[n..], used + n, a, b);
    }
  }

  lemma TokenLimits(s: string, a: Limits, b: Limits)
    requires LooserLimits(a, b) && ParseToken(s, a).Done?
    ensures ParseToken(s, b) == ParseToken(s, a)
    ensures FitsToken(ParseToken(s, a).value, a)
  {
    var t := ParseToken(s, a).value;
    forall i | 0 <= i < |t|
      ensures IsTokenChar(t[i])
    {
      assert i > 0 ==> t[i] == s[1..][i - 1];
    }
  }

  lemma BareItemLimits(s: string, a: Limits, b: Limits)
    requires LooserLimits(a, b) && ParseBareItem(s, a).Done?
    ensures ParseBareItem(s, b) == ParseBareItem(s, a)
    ensures FitsBareItem(ParseBareItem(s, a).value, a)
  {
    hide ParseToken, FitsToken, ParseStringBody, ParseInt64, Base64.DecodeEither, ParseByteSequence;
    if s[0] == '?' {
    } else if s[0] == '-' || IsDigit(s[0]) {
      var negative := s[0] == '-';
      var digits := if negative then s[1..] else s;
      ParseInt64NeverFails(negative, digits[..Span(IsDigit, digits)]);
    } else if s[0] == '"' {
      StringBodyLimits(s[1..], 0, a, b);
      StringConsumes(s, a);
    } else if s[0] == ':' {
      ByteSequenceLimits(s, a, b);
    } else {
      TokenLimits(s, a, b);
    }
  }

  lemma ByteSequenceLimits(s: string, a: Limits, b: Limits)
    requires LooserLimits(a, b) && ParseByteSequence(s, a).Done?
    ensures ParseByteSequence(s, b) == ParseByteSequence(s, a)
    ensures FitsBareItem(ParseByteSequence(s, a).value, a)
  {
    hide Base64.DecodeEither;
  }

  lemma ParameterLimits(s: string, a: Limits, b: Limits)
    requires LooserLimits(a, b) && ParseParameter(s, a).Done?
    ensures ParseParameter(s, b) == ParseParameter(s, a)
    ensures FitsParameter(ParseParameter(s, a).value, a)
  {
    hide ParseToken, ParseBareItem, FitsToken;
    TokenLimits(s, a, b);
    var afterKey := ParseToken(s, a).rest;
    if afterKey != "" && afterKey[0] == '=' {
      BareItemLimits(afterKey[1..], a, b);
    }
  }

  lemma {:induction false} ParametersLimits(s: string, count: nat, a: Limits, b: Limits)
    requires LooserLimits(a, b) && ParseParameters(s, count, a).Done? && Within(count, a.maxParameters)
    ensures ParseParameters(s, count, b) == ParseParameters(s, count, a)
    ensures var ps := ParseParameters(s, count, a).value;
            Within(count + |ps|, a.maxParameters) && forall i :: 0 <= i < |ps| ==> FitsParameter(ps[i], a)
    decreases |s|
  {
    hide ParseParameter, FitsParameter;
    if s != "" && s[0] == ';' {
      ParameterLimits(s[1..], a, b);
      ParametersLimits(ParseParameter(s[1..], a).rest, count + 1, a, b);
    }
  }

  lemma ItemLimits(s: string, a: Limits, b: Limits)
    requires LooserLimits(a, b) && ParseItem(s, a).Done?
    ensures ParseItem(s, b) == ParseItem(s, a)
    ensures FitsItem(ParseItem(s, a).value, a)
  {
    hide ParseBareItem, ParseParameters, FitsBareItem, FitsParameter;
    BareItemLimits(s, a, b);
    ParametersLimits(ParseBareItem(s, a).rest, 0, a, b);
  }

  lemma {:induction false} ItemsLimits(s: string, count: nat, a: Limits, b: Limits)
    requires LooserLimits(a, b) && ParseItems(s, count, a).Done? && Within(count, a.maxInnerListMembers)
    ensures ParseItems(s, count, b) == ParseItems(s, count, a)
    ensures var items := ParseItems(s, count, a).value;
            Within(count + |items|, a.maxInnerListMembers) && FitsItems(items, a)
    decreases |s|
  {
    hide ParseItem, FitsItem, SkipSpaces;
    var t := SkipSpaces(s);
    if !(t != "" && t[0] == ')') {
      ItemLimits(t, a, b);
      ItemsLimits(ParseItem(t, a).rest, count + 1, a, b);
    }
  }

  lemma ValueLimits(s: string, a: Limits, b: Limits)
    requires LooserLimits(a, b) && ParseValue(s, a).Done?
    ensures ParseValue(s, b) == ParseValue(s, a)
    ensures FitsMember(ParseValue(s, a).value, a)
  {
    hide ParseItem, ParseItems, FitsItem, ParseParameters, FitsParameter;
    if s != "" && s[0] == '(' {
      ItemsLimits(s[1..], 0, a, b);
      ParametersLimits(ParseItems(s[1..], 0, a).rest[1..], 0, a, b);
    } else {
      ItemLimits(s, a, b);
    }
  }

  lemma MemberLimits(s: string, a: Limits, b: Limits)
    requires LooserLimits(a, b) && ParseMember(s, a).Done?
    ensures ParseMember(s, b) == ParseMember(s, a)
    ensures var (key, value) := ParseMember(s, a).value; FitsToken(key, a) && FitsMember(value, a)
  {
    hide ParseToken, ParseValue, FitsToken;
    TokenLimits(s, a, b);
    var afterKey := ParseToken(s, a).rest;
    if afterKey != "" && afterKey[0] == '=' {
      ValueLimits(afterKey[1..], a, b);
    }
  }

  lemma StoreFits(d: Dictionary, key: string, value: Member, limits: Limits)
    requires FitsDictionary(d, limits) && FitsToken(key, limits) && FitsMember(value, limits)
    requires Within(|d.keys| + 1, limits.maxDictionaryMembers)
    ensures FitsDictionary(Store(d, key, value), limits)
  {
    hide FitsToken, FitsMember;
    var stored := Store(d, key, value);
    assert forall k :: k in stored.keys <==> k in d.keys || k == key;
  }

  lemma {:induction false} DictionaryFromLimits(s: string, d: Dictionary, a: Limits, b: Limits)
    requires LooserLimits(a, b) && ParseDictionaryFrom(s, d, a).Some? && FitsDictionary(d, a)
    ensures ParseDictionaryFrom(s, d, b) == ParseDictionaryFrom(s, d, a)
    ensures FitsDictionary(ParseDictionaryFrom(s, d, a).value, a)
    decreases |s|
  {
    hide ParseMember, FitsToken, FitsMember, Separate, Store, FitsDictionary;
    if s != "" {
      MemberLimits(s, a, b);
      var (key, value) := ParseMember(s, a).value;
      StoreFits(d, key, value, a);
      var separation := Separate(ParseMember(s, a).rest);
      if separation.Next? {
        DictionaryFromLimits(separation.rest, Store(d, key, value), a, b);
      }
    }
  }

  /** Limits only reject, for dictionaries. */
  lemma DictionaryLimits(s: string, a: Limits, b: Limits)
    requires LooserLimits(a, b) && ParseDictionary(s, a).Some?
    ensures ParseDictionary(s, b) == ParseDictionary(s, a)
    ensures FitsDictionary(ParseDictionary(s, a).value, a)
  {
    hide ParseDictionaryFrom;
    DictionaryFromLimits(s, EMPTY_DICTIONARY, a, b);
  }

  lemma {:induction false} ListFromLimits(s: string, count: nat, a: Limits, b: Limits)
    requires LooserLimits(a, b) && ParseListFrom(s, count, a).Some? && Within(count, a.maxDictionaryMembers)
    ensures ParseListFrom(s, count, b) == ParseListFrom(s, count, a)
    ensures var ms := ParseListFrom(s, count, a).value;
            Within(count + |ms|, a.maxDictionaryMembers) && forall i :: 0 <= i < |ms| ==> FitsMember(ms[i], a)
    decreases |s|
  {
    hide ParseValue, FitsMember, Separate;
    if s != "" {
      ValueLimits(s, a, b);
      var separation := Separate(ParseValue(s, a).rest);
      if separation.Next? {
        ListFromLimits(separation.rest, count + 1, a, b);
      }
    }
  }

  /** Limits only reject, for lists. */
  lemma ListLimits(s: string, a: Limits, b: Limits)
    requires LooserLimits(a, b) && ParseList(s, a).Some?
    ensures ParseList(s, b) == ParseList(s, a)
    ensures FitsList(ParseList(s, a).value, a)
  {
    hide ParseListFrom, FitsMember;
    ListFromLimits(s, 0, a, b);
  }

  // Serialization is a stable normal form

  lemma FitsPrints(m: Member, limits: Limits)
    requires FitsMember(m, limits)
    ensures PrintsMember(m)
  {
    hide FitsToken, Escape, AllPrintable;
    match m
    case Single(item) =>
      assert forall i :: 0 <= i < |item.parameters| ==> FitsParameter(item.parameters[i], limits);
    case Inner(l) =>
      forall i | 0 <= i < |l.items|
        ensures PrintsItem(l.items[i])
      {
        assert FitsItem(l.items[i], limits);
        assert forall j :: 0 <= j < |l.items[i].parameters| ==> FitsParameter(l.items[i].parameters[j], limits);
      }
      assert forall i :: 0 <= i < |l.parameters| ==> FitsParameter(l.parameters[i], limits);
  }

  /** Any accepted input: its serialization cannot fail and parses to the same
      dictionary under the same limits, input length aside. */
  lemma DictionaryIsStable(s: string, limits: Limits)
    requires ParseDictionary(s, limits).Some?
    ensures var d := ParseDictionary(s, limits).value;
            && PrintsDictionary(d)
            && ParseDictionary(DictionaryText(d), limits.(maxInputLength := 0)) == Some(d)
  {
    hide ParseDictionaryFrom, FitsToken, FitsMember, PrintsMember, EntriesText;
    var unbounded := limits.(maxInputLength := 0);
    DictionaryLimits(s, limits, unbounded);
    DictionaryLimits(s, unbounded, unbounded);
    var d := ParseDictionary(s, limits).value;
    forall i | 0 <= i < |d.keys|
      ensures PrintsMember(d.values[d.keys[i]])
    {
      FitsPrints(d.values[d.keys[i]], limits);
    }
    DictionaryRoundTrip(d, unbounded);
  }

  lemma ListIsStable(s: string, limits: Limits)
    requires ParseList(s, limits).Some?
    ensures var l := ParseList(s, limits).value;
            && PrintsList(l)
            && ParseList(MembersText(l.members), limits.(maxInputLength := 0)) == Some(l)
  {
    hide ParseListFrom, FitsMember, PrintsMember, MembersText;
    var unbounded := limits.(maxInputLength := 0);
    ListLimits(s, limits, unbounded);
    ListLimits(s, unbounded, unbounded);
    var l := ParseList(s, limits).value;
    forall i | 0 <= i < |l.members|
      ensures PrintsMember(l.members[i])
    {
      FitsPrints(l.members[i], limits);
    }
    ListRoundTrip(l, unbounded);
  }

  // What can be printed and what is well formed

  /** Strings are printable, tokens are tokens, integers have fifteen digits at most. */
  predicate IsSound(v: BareItem) {
    match v
    case Str(s) => AllPrintable(s)
    case Token(t) => IsToken(t)
    case Integer(n) => -999_999_999_999_999 <= n <= 999_999_999_999_999
    case _ => true
  }

  predicate AreSound(ps: seq<Parameter>) {
    forall i :: 0 <= i < |ps| ==> IsToken(ps[i].key) && IsSound(ps[i].value)
  }

  predicate IsSoundItem(item: Item) {
    IsSound(item.value) && AreSound(item.parameters)
  }

  predicate IsSoundMember(m: Member) {
    match m
    case Single(item) => IsSoundItem(item)
    case Inner(l) => AreSound(l.parameters) && forall i :: 0 <= i < |l.items| ==> IsSoundItem(l.items[i])
  }

  lemma SoundItem(item: Item)
    ensures FitsItem(item, NO_LIMITS) <==> PrintsItem(item) && IsSoundItem(item)
  {
    hide Escape, AllPrintable, IsToken;
    var ps := item.parameters;
    forall i | 0 <= i < |ps|
      ensures FitsParameter(ps[i], NO_LIMITS) <==>
              !ps[i].value.Unsupported? && IsToken(ps[i].key) && IsSound(ps[i].value)
    {
    }
  }

  lemma SoundParameters(ps: seq<Parameter>)
    ensures FitsParameters(ps, NO_LIMITS) <==> PrintsParameters(ps) && AreSound(ps)
  {
    SoundItem(Item(Boolean(true), ps));
  }

  /** A member has a text that reads back, limits aside, exactly when the serializer accepts
      it and its strings, tokens and integers are sound; the serializer looks for unsupported
      types only. */
  lemma {:induction false} SoundMember(m: Member)
    ensures FitsMember(m, NO_LIMITS) <==> PrintsMember(m) && IsSoundMember(m)
  {
    hide FitsItem, FitsParameters, PrintsItem, PrintsParameters, IsSoundItem, AreSound;
    match m {
      case Single(item) =>
        SoundItem(item);
      case Inner(l) =>
        SoundParameters(l.parameters);
        forall i | 0 <= i < |l.items|
          ensures FitsItem(l.items[i], NO_LIMITS) <==> PrintsItem(l.items[i]) && IsSoundItem(l.items[i])
        {
          SoundItem(l.items[i]);
        }
    }
  }

  /** A dictionary too, and its keys have to be distinct tokens; a key without a value is
      refused. */
  lemma {:induction false} SoundDictionary(d: Dictionary)
    ensures PrintsDictionary(d) ==> forall i :: 0 <= i < |d.keys| ==> d.keys[i] in d.values
    ensures FitsDictionary(d, NO_LIMITS) <==>
            && IsOrdered(d) && PrintsDictionary(d)
            && forall i :: 0 <= i < |d.keys| ==> IsToken(d.keys[i]) && IsSoundMember(d.values[d.keys[i]])
  {
    hide FitsMember, PrintsMember, IsSoundMember, IsToken;
    forall i | 0 <= i < |d.keys| && d.keys[i] in d.values
      ensures FitsMember(d.values[d.keys[i]], NO_LIMITS) <==>
              PrintsMember(d.values[d.keys[i]]) && IsSoundMember(d.values[d.keys[i]])
    {
      SoundMember(d.values[d.keys[i]]);
    }
  }
}
