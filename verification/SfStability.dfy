/** The sf form of a field value: reading as a dictionary, else a list, else an item.
    When reading the printed form again gives the same text, and when it does not. */
module SfStability {
  import opened Wrappers
  import opened SfvTypes
  import opened SfvGrammar
  import opened SfvPrimitives
  import opened SfvRoundTrip
  import opened FieldValues
  import SfvLimits

  const TRUE_MEMBER := Single(Item(Boolean(true), []))

  predicate IsTokenMember(m: Member) {
    m.Single? && m.item.value.Token?
  }

  function ParametersOf(m: Member): seq<Parameter> {
    if m.Single? then m.item.parameters else []
  }

  function NameOf(m: Member): string {
    if IsTokenMember(m) then m.item.value.name else ""
  }

  predicate IsBareToken(m: Member) {
    IsTokenMember(m) && m.item.parameters == []
  }

  /** How a dictionary parser reads the text of a list: tokens are keys, a token with
      parameters ends the dictionary, anything else is an error. */
  function ReadAsDictionary(ms: seq<Member>, d: Dictionary): Option<Dictionary> {
    if ms == [] then Some(d)
    else if !IsTokenMember(ms[0]) then None
    else
      var stored := Store(d, NameOf(ms[0]), TRUE_MEMBER);
      if ParametersOf(ms[0]) == [] then ReadAsDictionary(ms[1..], stored) else Some(stored)
  }

  lemma TokenMemberRead(m: Member, rest: string, limits: Limits)
    requires IsTokenMember(m) && FitsMember(m, limits) && AtEnd(rest)
    ensures var after := ParametersText(ParametersOf(m)) + rest;
            ParseMember(MemberText(m) + rest, limits) == Done((NameOf(m), TRUE_MEMBER), after)
    ensures ParametersOf(m) != [] ==> Separate(ParametersText(ParametersOf(m)) + rest) == Last
  {
    hide ParseToken, ParseValue, IsToken, FitsParameter;
    var name, ps := NameOf(m), ParametersOf(m);
    var after := ParametersText(ps) + rest;
    ConcatAssociates(name, ParametersText(ps), rest);
    if ps != [] {
      assert ParametersText(ps)[0] == ';';
      assert after[0] == ';';
    }
    TokenRoundTrip(name, after, limits);
  }

  lemma OtherMemberFails(m: Member, rest: string, limits: Limits)
    requires !IsTokenMember(m) && FitsMember(m, limits)
    ensures ParseMember(MemberText(m) + rest, limits) == Fail
  {
    hide FitsParameter, ParametersText, ItemsText, IsToken;
    var s := MemberText(m) + rest;
    if m.Single? {
      BareItemRoundTrip(m.item.value, "", limits);
    }
    assert s != "" && !IsAlpha(s[0]) && s[0] != '*';
  }

  lemma MemberRead(s: string, d: Dictionary, key: string, value: Member, after: string, limits: Limits)
    requires s != "" && Within(|d.keys| + 1, limits.maxDictionaryMembers)
    requires ParseMember(s, limits) == Done((key, value), after)
    ensures ParseDictionaryFrom(s, d, limits) ==
            match Separate(after)
            case TrailingComma => None
            case Last => Some(Store(d, key, value))
            case Next(rest) => ParseDictionaryFrom(rest, Store(d, key, value), limits)
  {
    hide ParseMember, Separate, Store;
  }

  lemma MemberFails(s: string, d: Dictionary, limits: Limits)
    requires s != "" && ParseMember(s, limits).Fail?
    ensures ParseDictionaryFrom(s, d, limits).None?
  {
    hide ParseMember;
  }

  function TextBehindFirst(ms: seq<Member>): string
    requires ms != []
  {
    if |ms| == 1 then "" else ", " + MembersText(ms[1..])
  }

  lemma MembersTextSplit(ms: seq<Member>, limits: Limits)
    requires ms != [] && forall i :: 0 <= i < |ms| ==> FitsMember(ms[i], limits)
    ensures MembersText(ms) == MemberText(ms[0]) + TextBehindFirst(ms) && MembersText(ms) != ""
    ensures Separate(TextBehindFirst(ms)) == if |ms| == 1 then Last else Next(MembersText(ms[1..]))
  {
    hide FitsMember, MemberText, ParseValue, Separate, MembersText;
    MemberRoundTrip(ms[0], "", limits);
    MembersTextStarts(ms);
    SeparateLast();
    if |ms| > 1 {
      MemberRoundTrip(ms[1], "", limits);
      MembersTextStarts(ms[1..]);
      SeparateNext(MembersText(ms[1..]));
    }
  }

  lemma StoredCount(d: Dictionary, key: string, value: Member)
    ensures |Store(d, key, value).keys| <= |d.keys| + 1
  {
  }

  lemma {:induction false} ListReadAsDictionary(ms: seq<Member>, d: Dictionary, limits: Limits)
    requires forall i :: 0 <= i < |ms| ==> FitsMember(ms[i], limits)
    requires Within(|d.keys| + |ms|, limits.maxDictionaryMembers)
    ensures ParseDictionaryFrom(MembersText(ms), d, limits) == ReadAsDictionary(ms, d)
    decreases |ms|
  {
    hide FitsMember, ParseMember, Separate, ParametersText, MemberText, ParseDictionaryFrom, NameOf, IsTokenMember,
      ParametersOf, MembersText, Store, TextBehindFirst;
    if ms == [] {
      NothingRead(d, limits);
      NoMembersText();
      return;
    }
    MembersTextSplit(ms, limits);
    var rest := TextBehindFirst(ms);
    if !IsTokenMember(ms[0]) {
      OtherMemberFails(ms[0], rest, limits);
      MemberFails(MembersText(ms), d, limits);
      return;
    }
    EndsBehindFirst(ms);
    TokenMemberRead(ms[0], rest, limits);
    var stored := Store(d, NameOf(ms[0]), TRUE_MEMBER);
    StoredCount(d, NameOf(ms[0]), TRUE_MEMBER);
    MemberRead(MembersText(ms), d, NameOf(ms[0]), TRUE_MEMBER, ParametersText(ParametersOf(ms[0])) + rest, limits);
    if ParametersOf(ms[0]) == [] {
      NoParametersText(rest);
      ListReadAsDictionary(ms[1..], stored, limits);
      NothingRead(stored, limits);
      NoMembersText();
    }
  }

  lemma NoMembersText()
    ensures MembersText([]) == ""
  {
  }

  lemma EndsBehindFirst(ms: seq<Member>)
    requires ms != []
    ensures AtEnd(TextBehindFirst(ms))
  {
    hide MembersText;
  }

  lemma NothingRead(d: Dictionary, limits: Limits)
    ensures ParseDictionaryFrom("", d, limits) == Some(d)
  {
  }

  lemma NoParametersText(rest: string)
    ensures ParametersText([]) + rest == rest
  {
  }

  lemma MembersTextStarts(ms: seq<Member>)
    requires ms != [] && MemberText(ms[0]) != ""
    ensures MembersText(ms) == MemberText(ms[0]) + TextBehindFirst(ms)
    ensures MembersText(ms) != "" && MembersText(ms)[0] == MemberText(ms[0])[0]
  {
    hide MemberText;
  }

  // A dictionary of bare keys prints as the list of them

  function BareTokens(names: seq<string>): (ms: seq<Member>)
    ensures |ms| == |names|
    ensures forall i :: 0 <= i < |ms| ==> ms[i] == Single(Item(Token(names[i]), []))
  {
    if names == [] then [] else [Single(Item(Token(names[0]), []))] + BareTokens(names[1..])
  }

  predicate AllTrue(d: Dictionary) {
    IsOrdered(d) && forall k :: k in d.values ==> d.values[k] == TRUE_MEMBER
  }

  lemma {:induction false} BareKeysText(keys: seq<string>, values: map<string, Member>)
    requires forall i :: 0 <= i < |keys| ==> keys[i] in values && values[keys[i]] == TRUE_MEMBER
    ensures EntriesText(keys, values) == MembersText(BareTokens(keys))
  {
    if keys != [] {
      assert MemberText(BareTokens(keys)[0]) == keys[0];
      assert BareTokens(keys)[1..] == BareTokens(keys[1..]);
      hide MemberText;
      BareKeysText(keys[1..], values);
    }
  }

  lemma StoreTrue(d: Dictionary, name: string)
    requires AllTrue(d)
    ensures AllTrue(Store(d, name, TRUE_MEMBER))
    ensures |Store(d, name, TRUE_MEMBER).keys| <= |d.keys| + 1
  {
    var stored := Store(d, name, TRUE_MEMBER);
    assert forall k :: k in d.keys || k == name ==> k in stored.keys;
  }

  lemma {:induction false} ReadIsAllTrue(ms: seq<Member>, d: Dictionary)
    requires AllTrue(d) && ReadAsDictionary(ms, d).Some?
    ensures AllTrue(ReadAsDictionary(ms, d).value)
    decreases |ms|
  {
    hide AllTrue, Store;
    if ms != [] {
      StoreTrue(d, NameOf(ms[0]));
      if ParametersOf(ms[0]) == [] {
        ReadIsAllTrue(ms[1..], Store(d, NameOf(ms[0]), TRUE_MEMBER));
      }
    }
  }

  lemma {:induction false} BareTokensAppend(names: seq<string>, last: string)
    ensures BareTokens(names + [last]) == BareTokens(names) + [Single(Item(Token(last), []))]
  {
    var a, b := BareTokens(names + [last]), BareTokens(names) + [Single(Item(Token(last), []))];
    forall i | 0 <= i < |a|
      ensures a[i] == b[i]
    {
      assert a[i] == Single(Item(Token((names + [last])[i]), []));
    }
  }

  lemma BareIsItsName(m: Member)
    requires IsBareToken(m)
    ensures m == Single(Item(Token(NameOf(m)), []))
  {
  }

  lemma DistinctNames(ms: seq<Member>)
    requires forall i :: 0 <= i < |ms| ==> IsBareToken(ms[i])
    requires forall i, j :: 0 <= i < j < |ms| ==> ms[i] != ms[j]
    ensures forall i, j :: 0 <= i < j < |ms| ==> NameOf(ms[i]) != NameOf(ms[j])
  {
    hide IsBareToken, NameOf;
    forall i, j | 0 <= i < j < |ms|
      ensures NameOf(ms[i]) != NameOf(ms[j])
    {
      BareIsItsName(ms[i]);
      BareIsItsName(ms[j]);
    }
  }

  /** Bare tokens are read as keys: all of them are kept exactly when none repeats. */
  lemma {:induction false} BareTokensRead(ms: seq<Member>, d: Dictionary)
    requires forall i :: 0 <= i < |ms| ==> IsBareToken(ms[i])
    requires forall i, j :: 0 <= i < j < |ms| ==> NameOf(ms[i]) != NameOf(ms[j])
    requires forall i :: 0 <= i < |ms| ==> NameOf(ms[i]) !in d.values
    ensures ReadAsDictionary(ms, d).Some?
    ensures BareTokens(ReadAsDictionary(ms, d).value.keys) == BareTokens(d.keys) + ms
    decreases |ms|
  {
    if ms == [] {
      assert BareTokens(d.keys) + [] == BareTokens(d.keys);
      return;
    }
    assert IsBareToken(ms[0]) && IsTokenMember(ms[0]);
    BareIsItsName(ms[0]);
    var stored := Store(d, NameOf(ms[0]), TRUE_MEMBER);
    assert stored.keys == d.keys + [NameOf(ms[0])];
    hide IsBareToken, IsTokenMember, NameOf, BareTokens;
    BareTokensRead(ms[1..], stored);
    BareTokensAppend(d.keys, NameOf(ms[0]));
    hide ReadAsDictionary, Store;
    assert ms == [ms[0]] + ms[1..];
    ConcatAssociates(BareTokens(d.keys), [ms[0]], ms[1..]);
  }

  // The theorem

  /** The number of bare tokens in front. */
  function BareRun(ms: seq<Member>): (n: nat)
    ensures n <= |ms|
    ensures forall i :: 0 <= i < n ==> IsBareToken(ms[i])
    ensures n < |ms| ==> !IsBareToken(ms[n])
  {
    if ms == [] || !IsBareToken(ms[0]) then 0 else 1 + BareRun(ms[1..])
  }

  /** Behind the bare tokens in front comes something no dictionary has there; or
      there is nothing else and no token repeats. */
  predicate KeepsItsText(ms: seq<Member>) {
    var n := BareRun(ms);
    if n < |ms| then !IsTokenMember(ms[n]) else forall i, j :: 0 <= i < j < |ms| ==> ms[i] != ms[j]
  }

  lemma {:induction false} ReadFails(ms: seq<Member>, d: Dictionary)
    ensures ReadAsDictionary(ms, d).None? <==> BareRun(ms) < |ms| && !IsTokenMember(ms[BareRun(ms)])
    decreases |ms|
  {
    if ms != [] && IsBareToken(ms[0]) {
      ReadFails(ms[1..], Store(d, NameOf(ms[0]), TRUE_MEMBER));
    }
  }

  /** A bare list is the list of its own keys when it keeps its text. */
  lemma KeptKeys(ms: seq<Member>)
    requires ReadAsDictionary(ms, EMPTY_DICTIONARY).Some?
    ensures ms == BareTokens(ReadAsDictionary(ms, EMPTY_DICTIONARY).value.keys) <==> KeepsItsText(ms)
  {
    hide IsTokenMember, Store;
    var d := ReadAsDictionary(ms, EMPTY_DICTIONARY).value;
    ReadFails(ms, EMPTY_DICTIONARY);
    ReadIsAllTrue(ms, EMPTY_DICTIONARY);
    hide ReadAsDictionary;
    if KeepsItsText(ms) {
      DistinctNames(ms);
      BareTokensRead(ms, EMPTY_DICTIONARY);
      assert BareTokens([]) + ms == ms;
    }
    if ms == BareTokens(d.keys) {
      BareTokensAreBare(d.keys);
    }
  }

  lemma BareTokensAreBare(names: seq<string>)
    requires forall i, j :: 0 <= i < j < |names| ==> names[i] != names[j]
    ensures KeepsItsText(BareTokens(names))
  {
    var ms := BareTokens(names);
    assert forall i :: 0 <= i < |ms| ==> IsBareToken(ms[i]);
    forall i, j | 0 <= i < j < |ms|
      ensures ms[i] != ms[j]
    {
      assert ms[i].item.value.name == names[i] && ms[j].item.value.name == names[j];
    }
  }

  /** Texts of lists within the limits are equal only for equal lists. */
  lemma SameListText(ms: seq<Member>, others: seq<Member>, limits: Limits)
    requires FitsList(List(ms), limits) && FitsList(List(others), limits)
    requires Within(|MembersText(ms)|, limits.maxInputLength)
    ensures MembersText(ms) == MembersText(others) <==> ms == others
  {
    hide FitsList, MembersText, ParseList;
    if MembersText(ms) == MembersText(others) {
      ListRoundTrip(List(ms), limits);
      ListRoundTrip(List(others), limits);
    }
  }

  lemma BareTokensFit(d: Dictionary, limits: Limits)
    requires FitsDictionary(d, limits)
    ensures FitsList(List(BareTokens(d.keys)), limits)
  {
    hide SfvTypes.IsToken, IsOrdered;
    var ms := BareTokens(d.keys);
    forall i | 0 <= i < |ms|
      ensures FitsMember(ms[i], limits)
    {
      assert FitsToken(d.keys[i], limits);
    }
  }

  lemma ReadTextIs(ms: seq<Member>)
    requires FitsList(List(ms), DEFAULT_LIMITS) && |MembersText(ms)| <= DEFAULT_LIMITS.maxInputLength
    ensures ParseDictionary(MembersText(ms), DEFAULT_LIMITS) == ReadAsDictionary(ms, EMPTY_DICTIONARY)
    ensures ParseList(MembersText(ms), DEFAULT_LIMITS) == Some(List(ms))
    ensures PrintsList(List(ms))
  {
    hide FitsMember, ParseDictionaryFrom, ReadAsDictionary, MembersText, PrintsMember, ParseList;
    ListReadAsDictionary(ms, EMPTY_DICTIONARY, DEFAULT_LIMITS);
    ListRoundTrip(List(ms), DEFAULT_LIMITS);
    forall i | 0 <= i < |ms|
      ensures PrintsMember(ms[i])
    {
      SfvLimits.FitsPrints(ms[i], DEFAULT_LIMITS);
    }
  }

  lemma AllTruePrints(d: Dictionary)
    requires AllTrue(d)
    ensures PrintsDictionary(d) && DictionaryText(d) == MembersText(BareTokens(d.keys))
  {
    hide MembersText, EntriesText;
    BareKeysText(d.keys, d.values);
  }

  lemma UnreadKeepsItsText(ms: seq<Member>)
    requires ReadAsDictionary(ms, EMPTY_DICTIONARY).None?
    ensures KeepsItsText(ms)
  {
    hide ReadAsDictionary, IsTokenMember, BareRun;
    ReadFails(ms, EMPTY_DICTIONARY);
  }

  lemma ReadFitsBareTokens(ms: seq<Member>)
    requires ParseDictionary(MembersText(ms), DEFAULT_LIMITS).Some?
    ensures FitsList(List(BareTokens(ParseDictionary(MembersText(ms), DEFAULT_LIMITS).value.keys)), DEFAULT_LIMITS)
  {
    hide ParseDictionary, FitsDictionary, FitsList, MembersText, BareTokens;
    SfvLimits.DictionaryLimits(MembersText(ms), DEFAULT_LIMITS, DEFAULT_LIMITS);
    BareTokensFit(ParseDictionary(MembersText(ms), DEFAULT_LIMITS).value, DEFAULT_LIMITS);
  }

  /** The text of a list keeps itself under the sf form exactly when it is not read as
      a dictionary that says less. */
  lemma ListTextStable(ms: seq<Member>)
    requires FitsList(List(ms), DEFAULT_LIMITS) && |MembersText(ms)| <= DEFAULT_LIMITS.maxInputLength
    ensures StructuredValue(MembersText(ms), "") == Some(MembersText(ms)) <==> KeepsItsText(ms)
  {
    hide FitsList, ParseItem, ParseList, ParseDictionary, PrintsDictionary, PrintsList, PrintsItem, DictionaryText,
      MembersText, ReadAsDictionary, KeepsItsText, AllTrue, FitsDictionary, BareTokens, ItemText;
    ReadTextIs(ms);
    var read := ReadAsDictionary(ms, EMPTY_DICTIONARY);
    if read.None? {
      UnreadKeepsItsText(ms);
    } else {
      NothingIsTrue();
      ReadIsAllTrue(ms, EMPTY_DICTIONARY);
      AllTruePrints(read.value);
      KeptKeys(ms);
      ReadFitsBareTokens(ms);
      SameListText(ms, BareTokens(read.value.keys), DEFAULT_LIMITS);
    }
  }

  lemma NothingIsTrue()
    ensures AllTrue(EMPTY_DICTIONARY)
  {
  }

  /** What the sf form of a value prints, when it is not a dictionary. */
  function MembersOf(raw: string): seq<Member> {
    var list := ParseList(raw, DEFAULT_LIMITS);
    if list.Some? then list.value.members
    else
      var item := ParseItem(raw, DEFAULT_LIMITS);
      if item.Done? then [Single(item.value)] else []
  }

  // Text over the input limit is read as an item, without a length check

  lemma FirstKeyRead(key: string, rest: string, limits: Limits)
    requires FitsToken(key, limits) && (rest != "" ==> rest[0] == '=' || rest[0] == ',')
    ensures ParseItem(key + rest, limits) == Done(Item(Token(key), []), rest)
  {
    assert (key + rest)[0] == key[0];
    assert !IsDigit(key[0]);
    hide ParseToken, IsAlpha, IsTokenChar, IsDigit;
    StopsAtSeparator(rest);
    TokenRoundTrip(key, rest, limits);
  }

  lemma StopsAtSeparator(rest: string)
    requires rest != "" ==> rest[0] == '=' || rest[0] == ','
    ensures Stops(rest)
  {
  }

  function TextBehindKey(d: Dictionary): string
    requires d.keys != [] && d.keys[0] in d.values
  {
    var value := d.values[d.keys[0]];
    (if value == TRUE_MEMBER then "" else "=" + MemberText(value))
    + (if |d.keys| == 1 then "" else ", " + EntriesText(d.keys[1..], d.values))
  }

  lemma DictionaryTextSplit(d: Dictionary)
    requires d.keys != [] && d.keys[0] in d.values
    ensures DictionaryText(d) == d.keys[0] + TextBehindKey(d)
    ensures var rest := TextBehindKey(d); rest != "" ==> rest[0] == '=' || rest[0] == ','
  {
    hide MemberText;
    var key, value := d.keys[0], d.values[d.keys[0]];
    var rest := if |d.keys| == 1 then "" else ", " + EntriesText(d.keys[1..], d.values);
    ConcatAssociates(key, if value == TRUE_MEMBER then "" else "=" + MemberText(value), rest);
    ConcatAssociates(key, "=", MemberText(value));
    ConcatAssociates(EntryText(key, value), ", ", EntriesText(d.keys[1..], d.values));
    assert key + "" == key;
  }

  /** The text of a dictionary that is over the limit is read as its first key. */
  lemma LongDictionaryText(d: Dictionary)
    requires FitsDictionary(d, DEFAULT_LIMITS) && |DictionaryText(d)| > DEFAULT_LIMITS.maxInputLength
    ensures d.keys != [] && StructuredValue(DictionaryText(d), "") == Some(d.keys[0])
    ensures d.keys[0] != DictionaryText(d)
  {
    hide FitsMember, ParseItem, ParseDictionaryFrom, ParseListFrom, IsToken, EntryTextIn;
    assert d.keys != [];
    DictionaryTextSplit(d);
    FirstKeyRead(d.keys[0], TextBehindKey(d), DEFAULT_LIMITS);
    assert FitsToken(d.keys[0], DEFAULT_LIMITS) && |d.keys[0]| <= 256;
    KeyText(d.keys[0]);
  }

  lemma KeyText(key: string)
    ensures PrintsItem(Item(Token(key), [])) && ItemText(Item(Token(key), [])) == key
  {
    assert key + "" == key;
  }

  lemma InnerListIsNoItem(list: InnerList, rest: string, limits: Limits)
    ensures ParseItem(InnerListText(list) + rest, limits) == Fail
  {
    hide ItemsText, ParametersText;
    assert (InnerListText(list) + rest)[0] == '(';
  }

  /** The text of a list that is over the limit is read as its first member, if that is
      an item. */
  lemma LongListText(ms: seq<Member>)
    requires FitsList(List(ms), DEFAULT_LIMITS) && |MembersText(ms)| > DEFAULT_LIMITS.maxInputLength
    ensures ms != []
    ensures StructuredValue(MembersText(ms), "") == if ms[0].Single? then Some(ItemText(ms[0].item)) else None
  {
    assert ms != [];
    MembersTextSplit(ms, DEFAULT_LIMITS);
    hide MembersText, ParseItem, ParseDictionaryFrom, ParseListFrom, FitsItem, FitsItems, FitsParameters, ItemText,
      InnerListText, PrintsItem, Separate;
    var rest := TextBehindFirst(ms);
    assert FitsMember(ms[0], DEFAULT_LIMITS);
    if ms[0].Single? {
      ItemRoundTrip(ms[0].item, rest, DEFAULT_LIMITS);
      SfvLimits.FitsPrints(ms[0], DEFAULT_LIMITS);
    } else {
      InnerListIsNoItem(ms[0].list, rest, DEFAULT_LIMITS);
    }
  }

  lemma OnlyFirst(ms: seq<Member>)
    requires ms != [] && ms[0].Single?
    ensures ItemText(ms[0].item) == MembersText(ms) <==> |ms| == 1
  {
    hide ItemText;
    if |ms| > 1 {
      assert |MembersText(ms)| > |ItemText(ms[0].item)|;
    }
  }

  /** Taking the sf form twice is taking it once exactly when
      - the text is within the input limit and the value is a dictionary, or a list
        whose text keeps itself; or
      - the text is over the limit and the value is a single item.
      Printing can outgrow the limit, since it adds a space behind every comma. */
  lemma {:induction false} SfFormStable(raw: string)
    requires StructuredValue(raw, "").Some?
    ensures var text := StructuredValue(raw, "").value;
            var dict := ParseDictionary(raw, DEFAULT_LIMITS);
            var ms := MembersOf(raw);
            StructuredValue(text, "") == Some(text) <==>
            if |text| <= DEFAULT_LIMITS.maxInputLength then dict.Some? || KeepsItsText(ms)
            else dict.None? && |ms| == 1 && ms[0].Single?
  {
    hide ParseItem, ParseList, ParseDictionary, KeepsItsText, PrintsDictionary, PrintsList, PrintsItem, FitsDictionary,
      FitsMember, DictionaryText, ItemText, FitsItem, FitsList, MembersText;
    var text := StructuredValue(raw, "").value;
    if ParseDictionary(raw, DEFAULT_LIMITS).Some? {
      var d := ParseDictionary(raw, DEFAULT_LIMITS).value;
      SfvLimits.DictionaryLimits(raw, DEFAULT_LIMITS, DEFAULT_LIMITS);
      if |text| <= DEFAULT_LIMITS.maxInputLength {
        DictionaryRoundTrip(d, DEFAULT_LIMITS);
      } else {
        LongDictionaryText(d);
      }
      return;
    }
    if ParseList(raw, DEFAULT_LIMITS).Some? {
      SfvLimits.ListLimits(raw, DEFAULT_LIMITS, DEFAULT_LIMITS);
    } else {
      SfvLimits.ItemLimits(raw, DEFAULT_LIMITS, DEFAULT_LIMITS);
      SingleFits(ParseItem(raw, DEFAULT_LIMITS).value);
    }
    var ms := MembersOf(raw);
    assert text == MembersText(ms);
    hide StructuredValue, MembersOf;
    if |text| <= DEFAULT_LIMITS.maxInputLength {
      ListTextStable(ms);
    } else {
      LongListText(ms);
      if ms[0].Single? {
        OnlyFirst(ms);
      }
    }
  }

  /** A dictionary that outgrows the limit: two members, a comma without a space between
      them, as long as an input can be. Its sf form is one byte longer, and the sf form
      of that is the first key alone. */
  lemma {:induction false} SfFormOutgrowsLimit(item: Item)
    requires FitsItem(item, DEFAULT_LIMITS) && item != TRUE_MEMBER.item
    requires |"a=" + ItemText(item) + ",b"| == DEFAULT_LIMITS.maxInputLength
    ensures var raw := "a=" + ItemText(item) + ",b";
            var text := "a=" + ItemText(item) + ", b";
            StructuredValue(raw, "") == Some(text) && StructuredValue(text, "") == Some("a")
  {
    var raw := "a=" + ItemText(item) + ",b";
    var d := TwoMembers(item);
    assert |raw| == 65536;
    TwoMembersFit(item);
    TwoMembersRead(item);
    TwoMembersText(item);
    hide FitsDictionary, ParseDictionary, DictionaryText, PrintsDictionary, ItemText, FitsItem;
    LongDictionaryText(d);
  }

  function TwoMembers(item: Item): Dictionary {
    Dictionary(["a", "b"], map["a" := Single(item), "b" := TRUE_MEMBER])
  }

  lemma TwoMembersFit(item: Item)
    requires FitsItem(item, DEFAULT_LIMITS)
    ensures FitsDictionary(TwoMembers(item), DEFAULT_LIMITS) && PrintsDictionary(TwoMembers(item))
  {
    hide FitsItem, PrintsItem;
    SfvLimits.FitsPrints(Single(item), DEFAULT_LIMITS);
    TrueFits();
    KeysFit();
    hide FitsMember, PrintsMember, FitsToken;
    var d := TwoMembers(item);
    assert "a" != "b" by {
      assert "a"[0] != "b"[0];
    }
    assert forall k :: k in d.values ==> k == d.keys[0] || k == d.keys[1];
  }

  lemma TrueFits()
    ensures FitsMember(TRUE_MEMBER, DEFAULT_LIMITS) && PrintsMember(TRUE_MEMBER)
  {
  }

  lemma KeysFit()
    ensures FitsToken("a", DEFAULT_LIMITS) && FitsToken("b", DEFAULT_LIMITS)
  {
  }

  lemma TwoMembersText(item: Item)
    requires item != TRUE_MEMBER.item
    ensures DictionaryText(TwoMembers(item)) == "a=" + ItemText(item) + ", b"
  {
    hide ItemText;
    var d := TwoMembers(item);
    assert d.keys[1..] == ["b"];
    assert EntriesText(["b"], d.values) == "b";
    assert EntryText("a", Single(item)) == "a" + "=" + ItemText(item);
  }

  lemma FirstEntryRead(item: Item)
    requires FitsItem(item, DEFAULT_LIMITS) && item != TRUE_MEMBER.item
    ensures ParseMember("a=" + ItemText(item) + ",b", DEFAULT_LIMITS) == Done(("a", Single(item)), ",b")
  {
    KeysFit();
    hide FitsItem, ItemText, ParseMember, FitsToken;
    EntryRoundTrip("a", Single(item), ",b", DEFAULT_LIMITS);
    assert "a" + "=" == "a=";
    assert EntryText("a", Single(item)) == "a=" + ItemText(item);
  }

  lemma SecondEntryRead()
    ensures ParseMember("b", DEFAULT_LIMITS) == Done(("b", TRUE_MEMBER), "")
  {
    KeysFit();
    TrueFits();
    assert EntryText("b", TRUE_MEMBER) + "" == "b";
    hide ParseMember, FitsToken, FitsMember;
    EntryRoundTrip("b", TRUE_MEMBER, "", DEFAULT_LIMITS);
  }

  lemma StoredTwo(item: Item)
    ensures Store(Store(EMPTY_DICTIONARY, "a", Single(item)), "b", TRUE_MEMBER) == TwoMembers(item)
  {
    assert "a"[0] != "b"[0];
  }

  lemma TwoMembersRead(item: Item)
    requires FitsItem(item, DEFAULT_LIMITS) && item != TRUE_MEMBER.item
    requires |"a=" + ItemText(item) + ",b"| <= DEFAULT_LIMITS.maxInputLength
    ensures ParseDictionary("a=" + ItemText(item) + ",b", DEFAULT_LIMITS) == Some(TwoMembers(item))
  {
    hide FitsItem, ItemText, ParseMember, ParseDictionaryFrom, TwoMembers, Separate;
    var raw := "a=" + ItemText(item) + ",b";
    var first := Store(EMPTY_DICTIONARY, "a", Single(item));
    FirstEntryRead(item);
    SecondEntryRead();
    assert "," + "b" == ",b" && !IsOws("b"[0]);
    SeparateBare("b");
    SeparateLast();
    StoredTwo(item);
    assert |first.keys| == 1;
    hide Store;
    MemberRead(raw, EMPTY_DICTIONARY, "a", Single(item), ",b", DEFAULT_LIMITS);
    MemberRead("b", first, "b", TRUE_MEMBER, "", DEFAULT_LIMITS);
  }

  lemma SeparateBare(next: string)
    requires next != "" && !IsOws(next[0])
    ensures Separate("," + next) == Next(next)
  {
    assert SkipOws("," + next) == "," + next;
    assert ("," + next)[1..] == next;
    assert SkipOws(next) == next;
  }

  // There is such an item

  function Repeated(n: nat): string {
    if n == 0 then "" else "x" + Repeated(n - 1)
  }

  lemma {:induction false} RepeatedText(n: nat)
    ensures |Repeated(n)| == n && AllPrintable(Repeated(n)) && Escape(Repeated(n)) == Repeated(n)
  {
    if n > 0 {
      RepeatedText(n - 1);
      assert Repeated(n)[1..] == Repeated(n - 1);
    }
  }

  function Copies(p: Parameter, n: nat): (ps: seq<Parameter>)
    ensures |ps| == n && forall i :: 0 <= i < n ==> ps[i] == p
  {
    if n == 0 then [] else [p] + Copies(p, n - 1)
  }

  lemma {:induction false} CopiesText(p: Parameter, n: nat)
    requires |ParameterText(p)| == 8195
    ensures |ParametersText(Copies(p, n))| == 8195 * n
  {
    hide ParameterText;
    if n > 0 {
      assert Copies(p, n)[1..] == Copies(p, n - 1);
      CopiesText(p, n - 1);
    }
  }

  function LongItem(n: nat, m: nat): Item {
    Item(Str(Repeated(n)), Copies(Parameter("p", Str(Repeated(m))), 7))
  }

  lemma LongStringFits(n: nat)
    requires n <= 8190
    ensures var v := Str(Repeated(n)); FitsBareItem(v, DEFAULT_LIMITS) && |BareItemText(v)| == n + 2
  {
    RepeatedText(n);
    hide Repeated, Escape;
  }

  lemma LongParameterFits(m: nat)
    requires m == 8190
    ensures var p := Parameter("p", Str(Repeated(m))); FitsParameter(p, DEFAULT_LIMITS) && |ParameterText(p)| == 8195
  {
    LongStringFits(m);
    hide Repeated, BareItemText, FitsBareItem;
    assert IsAlpha('p');
  }

  lemma LongItemText(n: nat, m: nat)
    requires n == 8165 && m == 8190
    ensures FitsItem(LongItem(n, m), DEFAULT_LIMITS) && LongItem(n, m) != TRUE_MEMBER.item
    ensures |"a=" + ItemText(LongItem(n, m)) + ",b"| == DEFAULT_LIMITS.maxInputLength
  {
    var p := Parameter("p", Str(Repeated(m)));
    hide Repeated, Copies, ParameterText, BareItemText, FitsBareItem, FitsParameter, ParametersText;
    LongStringFits(n);
    LongParameterFits(m);
    CopiesText(p, 7);
  }

  /** There is such an item, of 65532 bytes, every part of it within its limit. */
  lemma LongItemExists()
    ensures exists item :: FitsItem(item, DEFAULT_LIMITS) && item != TRUE_MEMBER.item
                           && |"a=" + ItemText(item) + ",b"| == DEFAULT_LIMITS.maxInputLength
  {
    hide FitsItem, ItemText, LongItem;
    LongItemText(8165, 8190);
  }

  lemma SingleFits(item: Item)
    requires FitsItem(item, DEFAULT_LIMITS)
    ensures FitsList(List([Single(item)]), DEFAULT_LIMITS) && MembersText([Single(item)]) == ItemText(item)
  {
    hide FitsItem, ItemText;
  }

  /** The sf form is not idempotent: this list, with a space where no dictionary has one,
      prints as a dictionary with a repeated key, which then loses its third member. */
  lemma SfFormUnstable(x: string, y: string)
    requires FitsToken(x, DEFAULT_LIMITS) && FitsToken(y, DEFAULT_LIMITS) && x != y
    ensures StructuredValue(x + " ," + y + ", " + x, "") == Some(x + ", " + y + ", " + x)
    ensures StructuredValue(x + ", " + y + ", " + x, "") == Some(x + ", " + y)
  {
    hide FitsToken, FitsMember, MembersText, BareTokens, ParseItem, ParseList, ParseDictionary, ReadAsDictionary,
      FitsList, PrintsList, PrintsDictionary, DictionaryText, PrintsItem, ItemText;
    ThreeTokensFit(x, y);
    BareTexts(x, y);
    ListWithSpace(x, y);
    ReadTextIs(BareTokens([x, y, x]));
    ReadOfThree(x, y);
  }

  lemma ThreeTokensFit(x: string, y: string)
    requires FitsToken(x, DEFAULT_LIMITS) && FitsToken(y, DEFAULT_LIMITS)
    ensures FitsList(List(BareTokens([x, y, x])), DEFAULT_LIMITS)
    ensures |x + ", " + y + ", " + x| <= DEFAULT_LIMITS.maxInputLength
  {
    hide IsToken;
    var ms := BareTokens([x, y, x]);
    assert forall i :: 0 <= i < |ms| ==> FitsMember(ms[i], DEFAULT_LIMITS);
  }

  lemma BareText(name: string, names: seq<string>)
    ensures MembersText(BareTokens([name] + names)) ==
            if names == [] then name else name + ", " + MembersText(BareTokens(names))
    ensures BareTokens([name] + names) == [Single(Item(Token(name), []))] + BareTokens(names)
  {
    var ms := BareTokens([name] + names);
    assert ([name] + names)[1..] == names;
    assert ms[1..] == BareTokens(names);
    assert MemberText(ms[0]) == name by {
      assert name + "" == name;
    }
  }

  lemma BareTexts(x: string, y: string)
    ensures MembersText(BareTokens([x, y])) == x + ", " + y
    ensures MembersText(BareTokens([y, x])) == y + ", " + x
    ensures MembersText(BareTokens([x, y, x])) == x + ", " + y + ", " + x
  {
    hide MembersText, BareTokens;
    BareText(x, []);
    BareText(y, []);
    BareText(x, [y]);
    BareText(y, [x]);
    BareText(x, [y, x]);
    assert [x] + [y] == [x, y] && [y] + [x] == [y, x] && [x] + [y, x] == [x, y, x];
    assert [x] + [] == [x] && [y] + [] == [y];
    ConcatAssociates(x + ", ", y + ", ", x);
    ConcatAssociates(x + ", ", y, ", ");
  }

  lemma ReadOfThree(x: string, y: string)
    requires x != y
    ensures var read := ReadAsDictionary(BareTokens([x, y, x]), EMPTY_DICTIONARY);
            read.Some? && PrintsDictionary(read.value) && DictionaryText(read.value) == MembersText(BareTokens([x, y]))
  {
    var ms := BareTokens([x, y, x]);
    var d1 := Store(EMPTY_DICTIONARY, x, TRUE_MEMBER);
    var d2 := Store(d1, y, TRUE_MEMBER);
    var d3 := Store(d2, x, TRUE_MEMBER);
    assert d3.keys == [x, y];
    assert ReadAsDictionary(ms[3..], d3) == Some(d3);
    assert ms[2..][1..] == ms[3..] && ms[1..][1..] == ms[2..];
    assert ReadAsDictionary(ms[2..], d2) == Some(d3);
    assert ReadAsDictionary(ms[1..], d1) == Some(d3);
    ReadIsAllTrue(ms, EMPTY_DICTIONARY);
    AllTruePrints(d3);
  }

  lemma SeparateSpaced(next: string)
    requires next != "" && !IsOws(next[0])
    ensures Separate(" ," + next) == Next(next)
  {
    assert " ," + next == " " + ("," + next);
    SpanIs(IsOws, " ", "," + next);
    assert ("," + next)[1..] == next;
    SpanIs(IsOws, "", next);
  }

  /** White space behind the first key is no dictionary. */
  lemma SpacedIsNoDictionary(x: string, rest: string)
    requires FitsToken(x, DEFAULT_LIMITS) && rest != "" && IsOws(rest[0])
    ensures ParseDictionary(x + rest, DEFAULT_LIMITS).None?
  {
    TokenRoundTrip(x, rest, DEFAULT_LIMITS);
    hide ParseToken, ParseDictionaryFrom, ParseValue;
    MemberFails(x + rest, EMPTY_DICTIONARY, DEFAULT_LIMITS);
  }

  lemma ListThen(m: Member, rest: string, next: string, others: seq<Member>)
    requires FitsMember(m, DEFAULT_LIMITS) && Follows(rest)
    requires Separate(rest) == Next(next) && ParseListFrom(next, 1, DEFAULT_LIMITS) == Some(others)
    ensures ParseListFrom(MemberText(m) + rest, 0, DEFAULT_LIMITS) == Some([m] + others)
  {
    hide ParseValue, Separate, MemberText, FitsMember;
    MemberRoundTrip(m, rest, DEFAULT_LIMITS);
  }

  lemma BareTokenFits(x: string)
    requires FitsToken(x, DEFAULT_LIMITS)
    ensures var m := Single(Item(Token(x), []));
            FitsMember(m, DEFAULT_LIMITS) && MemberText(m) == x && x != "" && !IsOws(x[0])
  {
    var m := Single(Item(Token(x), []));
    assert x + "" == x;
    MemberRoundTrip(m, "", DEFAULT_LIMITS);
  }

  lemma TwoTokens(x: string, y: string)
    requires FitsToken(x, DEFAULT_LIMITS) && FitsToken(y, DEFAULT_LIMITS)
    ensures var text := y + ", " + x;
            text != "" && !IsOws(text[0]) && ParseListFrom(text, 1, DEFAULT_LIMITS) == Some(BareTokens([y, x]))
  {
    hide FitsToken, ParseListFrom, MembersText, FitsMember, MemberText;
    var ms := BareTokens([y, x]);
    BareTokenFits(x);
    BareTokenFits(y);
    BareTexts(x, y);
    assert forall i :: 0 <= i < |ms| ==> FitsMember(ms[i], DEFAULT_LIMITS);
    MembersRoundTrip(ms, 1, DEFAULT_LIMITS);
  }

  lemma ListWithSpace(x: string, y: string)
    requires FitsToken(x, DEFAULT_LIMITS) && FitsToken(y, DEFAULT_LIMITS)
    ensures var raw := x + " ," + y + ", " + x;
            ParseDictionary(raw, DEFAULT_LIMITS).None?
            && ParseList(raw, DEFAULT_LIMITS) == Some(List(BareTokens([x, y, x])))
  {
    var raw := x + " ," + y + ", " + x;
    assert |raw| <= 65536;
    hide FitsToken, ParseListFrom, ParseDictionary, BareTokens, FitsMember, MemberText, Separate, IsOws;
    var first, next := Single(Item(Token(x), [])), y + ", " + x;
    assert raw == x + (" ," + next);
    assert (" ," + next)[0] == ' ' && IsOws(' ');
    BareTokenFits(x);
    TwoTokens(x, y);
    SeparateSpaced(next);
    ListThen(first, " ," + next, next, BareTokens([y, x]));
    SpacedIsNoDictionary(x, " ," + next);
    assert [x] + [y, x] == [x, y, x];
    BareText(x, [y, x]);
  }
}
