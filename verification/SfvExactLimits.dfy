/** Limits reject exactly what does not fit: an item or a list is parsed under limits if
    and only if it is parsed without them and fits. A dictionary also has to fit while
    it is read: values that are replaced later, and room for one more key in front of
    every member, also of one that repeats a key. */
module SfvExactLimits {
  import opened Wrappers
  import opened SfvTypes
  import opened SfvGrammar
  import opened SfvPrimitives
  import opened SfvLimits
  import opened SfvRoundTrip
  import opened SfvDictionary

  lemma BareItemWithin(s: string, a: Limits, b: Limits)
    requires ParseBareItem(s, b).Done? && FitsBareItem(ParseBareItem(s, b).value, a)
    ensures ParseBareItem(s, a) == ParseBareItem(s, b)
  {
    hide ParseBoolean, ParseInteger, ParseString, ParseByteSequence, ParseToken, FitsBareItem, FitsToken;
    var v, rest := ParseBareItem(s, b).value, ParseBareItem(s, b).rest;
    if s[0] == '"' {
      StringConsumes(s, b);
      StringExactly(s, v.text, rest, b);
      StringExactly(s, v.text, rest, a);
    } else if s[0] == ':' {
      BytesWithin(s, a, b);
    } else if s[0] == '*' || IsAlpha(s[0]) {
      TokenWithin(s, a, b);
    }
  }

  lemma BytesWithin(s: string, a: Limits, b: Limits)
    requires ParseByteSequence(s, b).Done? && FitsBareItem(ParseByteSequence(s, b).value, a)
    ensures ParseByteSequence(s, a) == ParseByteSequence(s, b)
  {
    hide Span;
  }

  lemma TokenWithin(s: string, a: Limits, b: Limits)
    requires ParseToken(s, b).Done? && FitsBareItem(Token(ParseToken(s, b).value), a)
    ensures ParseToken(s, a) == ParseToken(s, b)
  {
    var t, rest := ParseToken(s, b).value, ParseToken(s, b).rest;
    TokenExactly(s, t, rest, b);
    TokenExactly(s, t, rest, a);
  }

  lemma ParameterWithin(s: string, a: Limits, b: Limits)
    requires ParseParameter(s, b).Done? && FitsParameter(ParseParameter(s, b).value, a)
    ensures ParseParameter(s, a) == ParseParameter(s, b)
  {
    KeyFits(ParseParameter(s, b).value.key, a);
    hide ParseToken, ParseBareItem, FitsBareItem, FitsToken;
    TokenWithin(s, a, b);
    var afterKey := ParseToken(s, b).rest;
    if afterKey != "" && afterKey[0] == '=' {
      BareItemWithin(afterKey[1..], a, b);
    }
  }

  lemma KeyFits(key: string, limits: Limits)
    ensures FitsBareItem(Token(key), limits) == FitsToken(key, limits)
  {
  }

  lemma {:induction false} ParametersWithin(s: string, count: nat, a: Limits, b: Limits)
    requires ParseParameters(s, count, b).Done?
    requires var ps := ParseParameters(s, count, b).value;
             Within(count + |ps|, a.maxParameters) && forall i :: 0 <= i < |ps| ==> FitsParameter(ps[i], a)
    ensures ParseParameters(s, count, a) == ParseParameters(s, count, b)
    decreases |s|
  {
    hide ParseParameter, FitsParameter;
    if s != "" && s[0] == ';' {
      var ps := ParseParameters(s, count, b).value;
      var rest := ParseParameter(s[1..], b).rest;
      var tail := ParseParameters(rest, count + 1, b).value;
      assert ps[0] == ParseParameter(s[1..], b).value && ps[1..] == tail;
      ParameterWithin(s[1..], a, b);
      ParametersWithin(rest, count + 1, a, b);
    }
  }

  lemma ItemWithin(s: string, a: Limits, b: Limits)
    requires ParseItem(s, b).Done? && FitsItem(ParseItem(s, b).value, a)
    ensures ParseItem(s, a) == ParseItem(s, b)
  {
    hide ParseBareItem, ParseParameters, FitsBareItem, FitsParameter;
    BareItemWithin(s, a, b);
    ParametersWithin(ParseBareItem(s, b).rest, 0, a, b);
  }

  lemma {:induction false} ItemsWithin(s: string, count: nat, a: Limits, b: Limits)
    requires ParseItems(s, count, b).Done?
    requires var items := ParseItems(s, count, b).value;
             Within(count + |items|, a.maxInnerListMembers) && FitsItems(items, a)
    ensures ParseItems(s, count, a) == ParseItems(s, count, b)
    decreases |s|
  {
    hide ParseItem, FitsItem;
    var t := SkipSpaces(s);
    if t == "" || t[0] != ')' {
      var items := ParseItems(s, count, b).value;
      var rest := ParseItem(t, b).rest;
      assert items[0] == ParseItem(t, b).value && items[1..] == ParseItems(rest, count + 1, b).value;
      ItemWithin(t, a, b);
      ItemsWithin(rest, count + 1, a, b);
    }
  }

  lemma ValueWithin(s: string, a: Limits, b: Limits)
    requires ParseValue(s, b).Done? && FitsMember(ParseValue(s, b).value, a)
    ensures ParseValue(s, a) == ParseValue(s, b)
  {
    hide ParseItem, ParseItems, ParseParameters, FitsItem, FitsParameter;
    if s != "" && s[0] == '(' {
      ItemsWithin(s[1..], 0, a, b);
      ParametersWithin(ParseItems(s[1..], 0, b).rest[1..], 0, a, b);
    } else {
      ItemWithin(s, a, b);
    }
  }

  lemma MemberWithin(s: string, a: Limits, b: Limits)
    requires ParseMember(s, b).Done?
    requires FitsToken(ParseMember(s, b).value.0, a) && FitsMember(ParseMember(s, b).value.1, a)
    ensures ParseMember(s, a) == ParseMember(s, b)
  {
    KeyFits(ParseMember(s, b).value.0, a);
    hide ParseToken, ParseValue, FitsMember, FitsToken, FitsBareItem;
    TokenWithin(s, a, b);
    var afterKey := ParseToken(s, b).rest;
    if afterKey != "" && afterKey[0] == '=' {
      ValueWithin(afterKey[1..], a, b);
    }
  }

  lemma {:induction false} ListFromWithin(s: string, count: nat, a: Limits, b: Limits)
    requires ParseListFrom(s, count, b).Some?
    requires var ms := ParseListFrom(s, count, b).value;
             Within(count + |ms|, a.maxDictionaryMembers) && forall i :: 0 <= i < |ms| ==> FitsMember(ms[i], a)
    ensures ParseListFrom(s, count, a) == ParseListFrom(s, count, b)
    decreases |s|
  {
    hide ParseValue, Separate, FitsMember;
    if s != "" {
      var ms := ParseListFrom(s, count, b).value;
      assert ms[0] == ParseValue(s, b).value;
      ValueWithin(s, a, b);
      var separation := Separate(ParseValue(s, b).rest);
      if separation.Next? {
        assert ms[1..] == ParseListFrom(separation.rest, count + 1, b).value;
        ListFromWithin(separation.rest, count + 1, a, b);
      }
    }
  }

  /** An item is parsed under tighter limits exactly when it fits them. */
  lemma {:induction false} ItemLimitsExactly(s: string, item: Item, rest: string, a: Limits, b: Limits)
    requires LooserLimits(a, b)
    ensures ParseItem(s, a) == Done(item, rest) <==> ParseItem(s, b) == Done(item, rest) && FitsItem(item, a)
  {
    hide ParseItem, FitsItem;
    if ParseItem(s, a) == Done(item, rest) {
      ItemLimits(s, a, b);
    }
    if ParseItem(s, b) == Done(item, rest) && FitsItem(item, a) {
      ItemWithin(s, a, b);
    }
  }

  /** A list is parsed under tighter limits exactly when it fits them, and the input is
      within the length limit. */
  lemma {:induction false} ListLimitsExactly(s: string, l: List, a: Limits, b: Limits)
    requires LooserLimits(a, b)
    ensures ParseList(s, a) == Some(l) <==>
            ParseList(s, b) == Some(l) && FitsList(l, a) && Within(|s|, a.maxInputLength)
  {
    hide ParseListFrom, FitsMember;
    if ParseList(s, a) == Some(l) {
      ListLimits(s, a, b);
    }
    if ParseList(s, b) == Some(l) && FitsList(l, a) {
      ListFromWithin(s, 0, a, b);
    }
  }

  // Dictionaries

  predicate EntriesFit(entries: seq<Entry>, limits: Limits) {
    forall i :: 0 <= i < |entries| ==> FitsToken(entries[i].0, limits) && FitsMember(entries[i].1, limits)
  }

  /** The keys known when the last entry is read. */
  function KnownBeforeLast(entries: seq<Entry>, known: set<string>): set<string> {
    if |entries| <= 1 then known else KnownBeforeLast(entries[1..], known + {entries[0].0})
  }

  lemma {:induction false} KnownGrows(entries: seq<Entry>, known: set<string>)
    ensures |known| <= |KnownBeforeLast(entries, known)|
    decreases |entries|
  {
    if |entries| > 1 {
      var more := known + {entries[0].0};
      KnownGrows(entries[1..], more);
      assert more == known + (more - known);
    }
  }

  /** There is room for one more key when the last entry is read, so for every one before. */
  predicate HasRoom(entries: seq<Entry>, known: set<string>, limits: Limits) {
    entries != [] ==> Within(|KnownBeforeLast(entries, known)| + 1, limits.maxDictionaryMembers)
  }

  lemma {:induction false} EntriesLimits(s: string, known: set<string>, a: Limits, b: Limits)
    requires LooserLimits(a, b) && Entries(s, known, a).Some?
    ensures Entries(s, known, b) == Entries(s, known, a)
    ensures EntriesFit(Entries(s, known, a).value, a) && HasRoom(Entries(s, known, a).value, known, a)
    decreases |s|
  {
    hide ParseMember, Separate, FitsToken, FitsMember;
    if s != "" {
      MemberLimits(s, a, b);
      var entry, separation := ParseMember(s, a).value, Separate(ParseMember(s, a).rest);
      var entries := Entries(s, known, a).value;
      if separation.Next? {
        EntriesLimits(separation.rest, known + {entry.0}, a, b);
        assert entries[1..] == Entries(separation.rest, known + {entry.0}, a).value;
        NextIsNotEmpty(ParseMember(s, a).rest);
        NextIsEntry(separation.rest, known + {entry.0}, a);
      }
    }
  }

  lemma NextIsEntry(s: string, known: set<string>, limits: Limits)
    requires s != "" && Entries(s, known, limits).Some?
    ensures Entries(s, known, limits).value != []
  {
    hide ParseMember, Separate;
  }

  lemma {:induction false} EntriesWithin(s: string, known: set<string>, a: Limits, b: Limits)
    requires Entries(s, known, b).Some?
    requires EntriesFit(Entries(s, known, b).value, a) && HasRoom(Entries(s, known, b).value, known, a)
    ensures Entries(s, known, a) == Entries(s, known, b)
    decreases |s|
  {
    hide ParseMember, Separate, FitsToken, FitsMember;
    if s != "" {
      var entries := Entries(s, known, b).value;
      var entry, separation := ParseMember(s, b).value, Separate(ParseMember(s, b).rest);
      assert entries[0] == entry;
      KnownGrows(entries, known);
      MemberWithin(s, a, b);
      if separation.Next? {
        var more := known + {entry.0};
        assert entries[1..] == Entries(separation.rest, more, b).value;
        NextIsNotEmpty(ParseMember(s, b).rest);
        NextIsEntry(separation.rest, more, b);
        EntriesWithin(separation.rest, more, a, b);
      }
    }
  }

  /** A dictionary is parsed under tighter limits exactly when every member read fits
      them, also one that is replaced later, there is room for one more key whenever a
      member is read, and the input is within the length limit. */
  lemma {:induction false} DictionaryLimitsExactly(s: string, d: Dictionary, a: Limits, b: Limits)
    requires LooserLimits(a, b)
    ensures ParseDictionary(s, a) == Some(d) <==>
            && ParseDictionary(s, b) == Some(d)
            && Entries(s, {}, b).Some?
            && EntriesFit(Entries(s, {}, b).value, a)
            && HasRoom(Entries(s, {}, b).value, {}, a)
            && Within(|s|, a.maxInputLength)
  {
    hide ParseDictionaryFrom, Entries, StoreAll, EntriesFit, HasRoom;
    DictionaryIsFold(s, EMPTY_DICTIONARY, a);
    DictionaryIsFold(s, EMPTY_DICTIONARY, b);
    assert KeySet(EMPTY_DICTIONARY) == {};
    if Entries(s, {}, a).Some? {
      EntriesLimits(s, {}, a, b);
    }
    if Entries(s, {}, b).Some? && EntriesFit(Entries(s, {}, b).value, a) && HasRoom(Entries(s, {}, b).value, {}, a) {
      EntriesWithin(s, {}, a, b);
    }
  }

  /** The result of a dictionary can fit limits that refuse it: a full dictionary takes
      no further member, though it only replaces a value. */
  lemma {:induction false} FullDictionaryRefuses(d: Dictionary, key: string, value: Member, limits: Limits)
    requires FitsDictionary(d, limits) && limits.maxDictionaryMembers == |d.keys| > 0 && limits.maxInputLength <= 0
    requires key in d.values && FitsToken(key, limits) && FitsMember(value, limits)
    ensures var s := DictionaryText(d) + (", " + EntryText(key, value));
            var stored := Store(d, key, value);
            && ParseDictionary(s, limits).None?
            && ParseDictionary(s, limits.(maxDictionaryMembers := 0)) == Some(stored)
            && FitsDictionary(stored, limits)
  {
    hide FitsToken, FitsMember, EntryText, DictionaryText, ParseDictionary, ParseMember;
    var more := EntryText(key, value);
    var unbounded := limits.(maxDictionaryMembers := 0);
    SameFit(d, key, value, limits);
    EntryRoundTrip(key, value, "", unbounded);
    assert more + "" == more;
    SeparateNext(more);
    DictionaryTextThen(d, ", " + more, limits);
    DictionaryTextThen(d, ", " + more, unbounded);
    SeparateLast();
  }

  lemma SameFit(d: Dictionary, key: string, value: Member, limits: Limits)
    requires FitsDictionary(d, limits) && key in d.values && FitsToken(key, limits) && FitsMember(value, limits)
    ensures var unbounded := limits.(maxDictionaryMembers := 0);
            FitsDictionary(d, unbounded) && FitsToken(key, unbounded) && FitsMember(value, unbounded)
    ensures FitsDictionary(Store(d, key, value), limits)
  {
    hide IsToken, IsOrdered;
    var unbounded := limits.(maxDictionaryMembers := 0);
    StoreIsOrdered(d, key, value);
    forall i | 0 <= i < |d.keys|
      ensures FitsToken(d.keys[i], unbounded) && FitsMember(d.values[d.keys[i]], unbounded)
    {
      SameMemberFit(d.values[d.keys[i]], limits, unbounded);
    }
    SameMemberFit(value, limits, unbounded);
  }

  lemma SameMemberFit(m: Member, a: Limits, b: Limits)
    requires FitsMember(m, a) && b == a.(maxDictionaryMembers := 0)
    ensures FitsMember(m, b)
  {
  }

  // The default limits

  /** Strings count as they are written, byte sequences by their bytes. */
  predicate IsModest(v: BareItem) {
    match v
    case Str(s) => |Escape(s)| <= 8192
    case Token(t) => |t| <= 256
    case ByteSequence(bs) => |bs| <= 16384
    case _ => true
  }

  predicate AreModest(ps: seq<Parameter>) {
    |ps| <= 64 && forall i :: 0 <= i < |ps| ==> |ps[i].key| <= 256 && IsModest(ps[i].value)
  }

  predicate IsModestMember(m: Member) {
    match m
    case Single(item) => IsModest(item.value) && AreModest(item.parameters)
    case Inner(l) =>
      && |l.items| <= 128 && AreModest(l.parameters)
      && forall i :: 0 <= i < |l.items| ==> IsModest(l.items[i].value) && AreModest(l.items[i].parameters)
  }

  lemma ModestBareItem(v: BareItem)
    ensures FitsBareItem(v, DEFAULT_LIMITS) <==> FitsBareItem(v, NO_LIMITS) && IsModest(v)
  {
    hide AllPrintable, Escape, IsToken;
  }

  lemma ModestParameters(ps: seq<Parameter>)
    ensures FitsParameters(ps, DEFAULT_LIMITS) <==> FitsParameters(ps, NO_LIMITS) && AreModest(ps)
  {
    hide FitsBareItem, IsModest, IsToken;
    forall i | 0 <= i < |ps|
      ensures FitsBareItem(ps[i].value, DEFAULT_LIMITS) <==>
              FitsBareItem(ps[i].value, NO_LIMITS) && IsModest(ps[i].value)
    {
      ModestBareItem(ps[i].value);
    }
  }

  lemma ModestItem(item: Item)
    ensures FitsItem(item, DEFAULT_LIMITS) <==>
            FitsItem(item, NO_LIMITS) && IsModest(item.value) && AreModest(item.parameters)
  {
    hide FitsBareItem, FitsParameters, IsModest, AreModest;
    ModestBareItem(item.value);
    ModestParameters(item.parameters);
  }

  lemma ModestMember(m: Member)
    ensures FitsMember(m, DEFAULT_LIMITS) <==> FitsMember(m, NO_LIMITS) && IsModestMember(m)
  {
    hide FitsItem, FitsParameters, IsModest, AreModest;
    match m {
      case Single(item) =>
        ModestItem(item);
      case Inner(l) =>
        ModestParameters(l.parameters);
        forall i | 0 <= i < |l.items|
          ensures FitsItem(l.items[i], DEFAULT_LIMITS) <==>
                  FitsItem(l.items[i], NO_LIMITS) && IsModest(l.items[i].value) && AreModest(l.items[i].parameters)
        {
          ModestItem(l.items[i]);
        }
    }
  }

  /** By default a list is accepted if it is one at all, of at most 65536 bytes and 128
      members, with 128 items in an inner list, 64 parameters, strings of 8192 bytes,
      tokens of 256 and byte sequences of 16384 at most. */
  lemma {:induction false} DefaultLimitsExactly(s: string, l: List)
    ensures ParseList(s, DEFAULT_LIMITS) == Some(l) <==>
            && ParseList(s, NO_LIMITS) == Some(l) && |s| <= 65536 && |l.members| <= 128
            && forall i :: 0 <= i < |l.members| ==> IsModestMember(l.members[i])
  {
    hide ParseList, FitsMember, IsModestMember;
    ListLimitsExactly(s, l, DEFAULT_LIMITS, NO_LIMITS);
    if ParseList(s, NO_LIMITS) == Some(l) {
      ListLimits(s, NO_LIMITS, NO_LIMITS);
    }
    forall i | 0 <= i < |l.members|
      ensures FitsMember(l.members[i], DEFAULT_LIMITS) <==>
              FitsMember(l.members[i], NO_LIMITS) && IsModestMember(l.members[i])
    {
      ModestMember(l.members[i]);
    }
  }
}
