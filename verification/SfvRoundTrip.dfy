/** Print then parse is the identity, for dictionaries and lists of any nesting that
    fit the limits; without limits that is every well-formed one. */
module SfvRoundTrip {
  import opened Wrappers
  import opened SfvTypes
  import opened SfvGrammar
  import opened SfvPrimitives

  /** What the printer puts behind an item. */
  predicate Follows(rest: string) {
    rest != "" ==> rest[0] == ' ' || rest[0] == ')' || rest[0] == ','
  }

  /** What the printer puts behind a parameter. */
  predicate AfterParameter(rest: string) {
    rest != "" && rest[0] != ';' ==> Follows(rest)
  }

  /** A dictionary or list member ends here. */
  predicate AtEnd(rest: string) {
    rest != "" ==> rest[0] == ',' || rest[0] == ')'
  }

  lemma {:induction false} ParameterRoundTrip(p: Parameter, rest: string, limits: Limits)
    requires FitsParameter(p, limits) && AfterParameter(rest)
    ensures ParameterText(p) != "" && ParameterText(p)[0] == ';'
    ensures ParseParameter(ParameterText(p)[1..] + rest, limits) == Done(p, rest)
  {
    hide ParseBareItem, BareItemText, ParseToken, FitsBareItem;
    var s := ParameterText(p)[1..] + rest;
    if p.value == Boolean(true) {
      assert s == p.key + rest;
      TokenRoundTrip(p.key, rest, limits);
    } else {
      var tail := "=" + BareItemText(p.value) + rest;
      assert s == p.key + tail;
      TokenRoundTrip(p.key, tail, limits);
      assert tail[1..] == BareItemText(p.value) + rest;
      BareItemRoundTrip(p.value, rest, limits);
    }
  }

  lemma {:induction false} ParametersRoundTrip(ps: seq<Parameter>, count: nat, rest: string, limits: Limits)
    requires Within(count + |ps|, limits.maxParameters)
    requires forall i :: 0 <= i < |ps| ==> FitsParameter(ps[i], limits)
    requires Follows(rest)
    ensures ParseParameters(ParametersText(ps) + rest, count, limits) == Done(ps, rest)
    ensures ParametersText(ps) != "" ==> ParametersText(ps)[0] == ';'
  {
    hide ParseParameter, ParameterText, FitsParameter;
    if ps == [] {
      assert ParametersText(ps) + rest == rest;
    } else {
      var tail := ParametersText(ps[1..]) + rest;
      ParametersRoundTrip(ps[1..], count + 1, rest, limits);
      ParameterRoundTrip(ps[0], tail, limits);
      ConcatAssociates(ParameterText(ps[0]), ParametersText(ps[1..]), rest);
      DropFirst(ParameterText(ps[0]), tail);
      assert ps == [ps[0]] + ps[1..];
    }
  }

  lemma ItemRoundTrip(item: Item, rest: string, limits: Limits)
    requires FitsItem(item, limits) && Follows(rest)
    ensures ParseItem(ItemText(item) + rest, limits) == Done(item, rest)
    ensures ItemText(item) != "" && !IsOws(ItemText(item)[0])
    ensures ItemText(item)[0] != ')' && ItemText(item)[0] != '('
  {
    hide ParseBareItem, BareItemText, ParseParameters, FitsBareItem;
    var tail := ParametersText(item.parameters) + rest;
    ParametersRoundTrip(item.parameters, 0, rest, limits);
    BareItemRoundTrip(item.value, tail, limits);
    assert ItemText(item) + rest == BareItemText(item.value) + tail;
  }

  lemma SkipSpacesLead(lead: string, s: string)
    requires (lead == "" || lead == " ") && s != "" && !IsSpace(s[0])
    ensures SkipSpaces(lead + s) == s
  {
    SpanIs(IsSpace, lead, s);
  }

  /** lead is the separator the printer puts in front of every item but the first. */
  lemma {:induction false} ItemsRoundTrip(items: seq<Item>, lead: string, count: nat, rest: string, limits: Limits)
    requires Within(count + |items|, limits.maxInnerListMembers) && FitsItems(items, limits)
    requires lead == "" || (lead == " " && items != [])
    requires rest != "" && rest[0] == ')'
    ensures ParseItems(lead + ItemsText(items) + rest, count, limits) == Done(items, rest)
  {
    hide ParseItem, ItemText, FitsItem, SkipSpaces, ItemsText;
    ItemsTextSplit(items, lead, rest);
    if items == [] {
      SkipSpacesLead("", rest);
      NothingAdded(rest);
    } else {
      var next := if |items| == 1 then "" else " ";
      var tail := next + ItemsText(items[1..]) + rest;
      ItemRoundTrip(items[0], tail, limits);
      FirstOfText(ItemText(items[0]), tail);
      SkipSpacesLead(lead, ItemText(items[0]) + tail);
      ItemsRoundTrip(items[1..], next, count + 1, rest, limits);
      assert items == [items[0]] + items[1..];
    }
  }

  lemma FirstOfText(a: string, b: string)
    requires a != ""
    ensures a + b != "" && (a + b)[0] == a[0]
  {
  }

  lemma ItemsTextFirst(items: seq<Item>)
    ensures items == [] ==> ItemsText(items) == ""
    ensures items != [] ==>
              ItemsText(items) == ItemText(items[0]) + ((if |items| == 1 then "" else " ") + ItemsText(items[1..]))
  {
    hide ItemText;
    if |items| == 1 {
      assert ItemText(items[0]) + ("" + "") == ItemText(items[0]);
    } else if items != [] {
      ConcatAssociates(ItemText(items[0]), " ", ItemsText(items[1..]));
    }
  }

  lemma TextSplit(lead: string, first: string, others: string, rest: string)
    ensures lead + (first + others) + rest == lead + (first + (others + rest))
  {
    ConcatAssociates(lead, first + others, rest);
    ConcatAssociates(first, others, rest);
  }

  lemma FollowsText(lead: string, others: string, rest: string)
    requires (lead == "" && others == "") || lead == " "
    requires rest != "" && rest[0] == ')'
    ensures Follows(lead + others + rest)
  {
  }

  lemma ItemsTextSplit(items: seq<Item>, lead: string, rest: string)
    requires items == [] ==> lead == ""
    requires rest != "" && rest[0] == ')'
    ensures items == [] ==> lead + ItemsText(items) + rest == rest
    ensures items != [] ==>
              var tail := (if |items| == 1 then "" else " ") + ItemsText(items[1..]) + rest;
              && lead + ItemsText(items) + rest == lead + (ItemText(items[0]) + tail)
              && Follows(tail)
  {
    hide ItemText, ItemsText, Follows;
    ItemsTextFirst(items);
    if items == [] {
      NothingAdded(rest);
    } else {
      var next := if |items| == 1 then "" else " ";
      ItemsTextFirst([]);
      assert |items| == 1 ==> items[1..] == [];
      TextSplit(lead, ItemText(items[0]), next + ItemsText(items[1..]), rest);
      FollowsText(next, ItemsText(items[1..]), rest);
    }
  }

  lemma InnerListRoundTrip(l: InnerList, rest: string, limits: Limits)
    requires FitsMember(Inner(l), limits) && Follows(rest)
    ensures ParseInnerList(InnerListText(l) + rest, limits) == Done(l, rest)
  {
    hide ParseItems, ItemsText, ParseParameters, ParametersText, FitsItem, FitsParameter;
    var afterItems := ")" + ParametersText(l.parameters) + rest;
    ItemsRoundTrip(l.items, "", 0, afterItems, limits);
    assert (InnerListText(l) + rest)[1..] == "" + ItemsText(l.items) + afterItems;
    ParametersRoundTrip(l.parameters, 0, rest, limits);
    assert afterItems[1..] == ParametersText(l.parameters) + rest;
  }

  lemma MemberRoundTrip(m: Member, rest: string, limits: Limits)
    requires FitsMember(m, limits) && Follows(rest)
    ensures ParseValue(MemberText(m) + rest, limits) == Done(m, rest)
    ensures MemberText(m) != "" && !IsOws(MemberText(m)[0])
  {
    hide ParseInnerList, ParseItem, ItemText, FitsItem;
    match m
    case Single(item) =>
      ItemRoundTrip(item, rest, limits);
    case Inner(l) =>
      InnerListRoundTrip(l, rest, limits);
  }

  lemma EntryRoundTrip(key: string, value: Member, rest: string, limits: Limits)
    requires FitsToken(key, limits) && FitsMember(value, limits) && AtEnd(rest)
    ensures ParseMember(EntryText(key, value) + rest, limits) == Done((key, value), rest)
    ensures EntryText(key, value) != "" && !IsOws(EntryText(key, value)[0])
  {
    hide ParseValue, MemberText, ParseToken, FitsMember;
    KeyStarts(key, limits);
    if value == Single(Item(Boolean(true), [])) {
      TokenRoundTrip(key, rest, limits);
    } else {
      var text := MemberText(value);
      ConcatAssociates(key, "=", text);
      ConcatAssociates(key, "=" + text, rest);
      ConcatAssociates("=", text, rest);
      DropFirst("=", text + rest);
      hide FitsToken, IsTokenChar;
      EqualsStops(text + rest);
      TokenRoundTrip(key, "=" + (text + rest), limits);
      MemberRoundTrip(value, rest, limits);
      assert ("=" + (text + rest))[1..] == text + rest;
    }
  }

  lemma KeyStarts(key: string, limits: Limits)
    requires FitsToken(key, limits)
    ensures key != "" && !IsOws(key[0])
  {
  }

  lemma EqualsStops(text: string)
    ensures Stops("=" + text)
  {
  }

  lemma SkipOwsIs(ows: string, rest: string)
    requires (forall i :: 0 <= i < |ows| ==> IsOws(ows[i])) && (rest != "" ==> !IsOws(rest[0]))
    ensures SkipOws(ows + rest) == rest
  {
    SpanIs(IsOws, ows, rest);
  }

  lemma SeparateNext(next: string)
    requires next != "" && !IsOws(next[0])
    ensures Separate(", " + next) == Next(next)
  {
    hide SkipOws;
    var text := ", " + next;
    assert text[0] == ',' && text[1..] == " " + next && "" + text == text;
    SkipOwsIs("", text);
    SkipOwsIs(" ", next);
  }

  lemma NextIsNotEmpty(s: string)
    requires Separate(s).Next?
    ensures Separate(s).rest != ""
  {
  }

  lemma SeparateLast()
    ensures Separate("") == Last
  {
  }

  /** The dictionary made of the first n keys. */
  ghost function Prefix(d: Dictionary, n: nat): Dictionary
    requires IsOrdered(d) && n <= |d.keys|
  {
    Dictionary(d.keys[..n], map k | k in d.keys[..n] :: d.values[k])
  }

  lemma StorePrefix(d: Dictionary, n: nat)
    requires IsOrdered(d) && n < |d.keys|
    ensures Store(Prefix(d, n), d.keys[n], d.values[d.keys[n]]) == Prefix(d, n + 1)
    ensures |Prefix(d, n).keys| == n
  {
    var stored := Store(Prefix(d, n), d.keys[n], d.values[d.keys[n]]);
    assert d.keys[..n + 1] == d.keys[..n] + [d.keys[n]];
    assert d.keys[n] !in d.keys[..n];
    assert forall k :: k in d.keys[..n + 1] <==> k in d.keys[..n] || k == d.keys[n];
    assert stored.values.Keys == Prefix(d, n + 1).values.Keys;
  }

  lemma PrefixAll(d: Dictionary)
    requires IsOrdered(d)
    ensures Prefix(d, |d.keys|) == d && Prefix(d, 0) == EMPTY_DICTIONARY
  {
    assert d.keys[..|d.keys|] == d.keys;
    assert Prefix(d, |d.keys|).values == d.values;
  }

  /** Behind the printed members the parser looks at the separator only: text that
      is no comma is ignored, a comma at the end is an error, and members that
      follow are stored on top. */
  lemma {:induction false} EntriesRoundTrip(d: Dictionary, n: nat, tail: string, limits: Limits)
    requires FitsDictionary(d, limits) && n < |d.keys| && AtEnd(tail)
    ensures EntriesText(d.keys[n..], d.values) != "" && !IsOws(EntriesText(d.keys[n..], d.values)[0])
    ensures ParseDictionaryFrom(EntriesText(d.keys[n..], d.values) + tail, Prefix(d, n), limits) ==
            match Separate(tail)
            case Last => Some(d)
            case TrailingComma => None
            case Next(more) => ParseDictionaryFrom(more, d, limits)
    decreases |d.keys| - n
  {
    hide ParseMember, EntryText, Separate, Store, FitsToken, FitsMember, Prefix, IsOws;
    var key, value := d.keys[n], d.values[d.keys[n]];
    var s := EntriesText(d.keys[n..], d.values);
    assert d.keys[n..][1..] == d.keys[n + 1..];
    StorePrefix(d, n);
    if n + 1 == |d.keys| {
      EntryRoundTrip(key, value, tail, limits);
      PrefixAll(d);
    } else {
      var next := EntriesText(d.keys[n + 1..], d.values);
      EntriesRoundTrip(d, n + 1, tail, limits);
      EntryRoundTrip(key, value, ", " + (next + tail), limits);
      ConcatAssociates(EntryText(key, value), ", ", next);
      ConcatAssociates(EntryText(key, value), ", " + next, tail);
      ConcatAssociates(", ", next, tail);
      SeparateNext(next + tail);
    }
  }

  lemma DictionaryTextThen(d: Dictionary, tail: string, limits: Limits)
    requires FitsDictionary(d, limits) && d.keys != [] && AtEnd(tail)
    requires Within(|DictionaryText(d) + tail|, limits.maxInputLength)
    ensures ParseDictionary(DictionaryText(d) + tail, limits) ==
            match Separate(tail)
            case Last => Some(d)
            case TrailingComma => None
            case Next(more) => ParseDictionaryFrom(more, d, limits)
  {
    PrefixAll(d);
    hide FitsToken, FitsMember, Prefix, EntriesText, ParseDictionaryFrom, Separate;
    assert d.keys[0..] == d.keys;
    EntriesRoundTrip(d, 0, tail, limits);
  }

  /** Print then parse is the identity on dictionaries, key order included. */
  lemma DictionaryRoundTrip(d: Dictionary, limits: Limits)
    requires FitsDictionary(d, limits)
    requires Within(|DictionaryText(d)|, limits.maxInputLength)
    ensures ParseDictionary(DictionaryText(d), limits) == Some(d)
  {
    if d.keys == [] {
      PrefixAll(d);
    } else {
      hide FitsDictionary, DictionaryText, ParseDictionary;
      assert DictionaryText(d) + "" == DictionaryText(d);
      DictionaryTextThen(d, "", limits);
      SeparateLast();
    }
  }

  /** A comma behind the last member is an error, whatever the members. */
  lemma TrailingCommaFails(d: Dictionary, limits: Limits)
    requires FitsDictionary(d, limits) && d.keys != []
    ensures ParseDictionary(DictionaryText(d) + ",", limits) == None
  {
    hide FitsDictionary, DictionaryText, ParseDictionaryFrom, Separate;
    if Within(|DictionaryText(d) + ","|, limits.maxInputLength) {
      DictionaryTextThen(d, ",", limits);
      SeparateTrailing();
    }
  }

  lemma SeparateTrailing()
    ensures Separate(",") == TrailingComma
  {
    hide SkipOws;
    assert "" + "," == "," && "" + "" == "" && ","[1..] == "";
    SkipOwsIs("", ",");
    SkipOwsIs("", "");
  }

  lemma {:induction false} MembersRoundTrip(ms: seq<Member>, count: nat, limits: Limits)
    requires ms != [] && Within(count + |ms|, limits.maxDictionaryMembers)
    requires forall i :: 0 <= i < |ms| ==> FitsMember(ms[i], limits)
    ensures MembersText(ms) != "" && !IsOws(MembersText(ms)[0])
    ensures ParseListFrom(MembersText(ms), count, limits) == Some(ms)
  {
    hide ParseValue, MemberText, Separate, FitsMember, IsOws;
    if |ms| == 1 {
      MemberRoundTrip(ms[0], "", limits);
      assert MemberText(ms[0]) + "" == MemberText(ms[0]) && ms == [ms[0]];
      SeparateLast();
    } else {
      var next := MembersText(ms[1..]);
      MembersRoundTrip(ms[1..], count + 1, limits);
      MemberRoundTrip(ms[0], ", " + next, limits);
      ConcatAssociates(MemberText(ms[0]), ", ", next);
      SeparateNext(next);
      assert ms == [ms[0]] + ms[1..];
    }
  }

  /** Print then parse is the identity on lists. */
  lemma ListRoundTrip(l: List, limits: Limits)
    requires FitsList(l, limits)
    requires Within(|MembersText(l.members)|, limits.maxInputLength)
    ensures ParseList(MembersText(l.members), limits) == Some(l)
  {
    if l.members != [] {
      MembersRoundTrip(l.members, 0, limits);
    }
  }
}
