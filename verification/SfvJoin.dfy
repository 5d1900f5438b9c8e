/** Texts joined by a comma, as the lines of a repeated header field are: what parses in
    front of the comma parses the same with more text behind it. */
module SfvJoin {
  import opened Wrappers
  import opened SfvTypes
  import opened SfvGrammar
  import opened SfvPrimitives
  import Base64
  import SfvRoundTrip

  predicate StartsWithComma(tail: string) {
    tail != "" && tail[0] == ','
  }

  /** The same result, with the tail behind what was left. */
  ghost predicate Extends<T>(long: Parse<T>, short: Parse<T>, tail: string) {
    short.Done? ==> long == Done(short.value, short.rest + tail)
  }

  lemma SpanExtends(p: char -> bool, s: string, tail: string)
    requires tail != "" && !p(tail[0])
    ensures Span(p, s + tail) == Span(p, s)
    ensures var n := Span(p, s); (s + tail)[..n] == s[..n] && (s + tail)[n..] == s[n..] + tail
  {
    var n := Span(p, s);
    assert s + tail == s[..n] + (s[n..] + tail);
    SpanIs(p, s[..n], s[n..] + tail);
  }

  lemma CommaStops(tail: string)
    requires StartsWithComma(tail)
    ensures var c := tail[0]; !IsTokenChar(c) && !IsDigit(c) && !IsBase64Char(c) && !IsOws(c) && !IsSpace(c)
  {
  }

  lemma TokenExtends(s: string, tail: string, limits: Limits)
    requires StartsWithComma(tail)
    ensures Extends(ParseToken(s + tail, limits), ParseToken(s, limits), tail)
  {
    hide ParseToken, FitsToken, IsTokenChar, IsDigit, IsBase64Char, IsOws;
    if ParseToken(s, limits).Done? {
      var t, rest := ParseToken(s, limits).value, ParseToken(s, limits).rest;
      CommaStops(tail);
      TokenExactly(s, t, rest, limits);
      ConcatAssociates(t, rest, tail);
      TokenExactly(s + tail, t, rest + tail, limits);
    }
  }

  lemma IntegerExtends(s: string, tail: string)
    requires StartsWithComma(tail)
    ensures Extends(ParseInteger(s + tail), ParseInteger(s), tail)
  {
    hide ParseInt64, IsDigit, Span;
    if ParseInteger(s).Done? {
      CommaStops(tail);
      DropExtends(s, tail);
      SpanExtends(IsDigit, if s[0] == '-' then s[1..] else s, tail);
    }
  }

  lemma StringExtends(s: string, tail: string, limits: Limits)
    ensures Extends(ParseString(s + tail, limits), ParseString(s, limits), tail)
  {
    hide ParseString, FitsBareItem, StringText;
    if ParseString(s, limits).Done? {
      StringConsumes(s, limits);
      var text, rest := ParseString(s, limits).value.text, ParseString(s, limits).rest;
      ConcatAssociates(StringText(text), rest, tail);
      StringExactly(s + tail, text, rest + tail, limits);
    }
  }

  lemma ByteSequenceExtends(s: string, tail: string, limits: Limits)
    requires StartsWithComma(tail)
    ensures Extends(ParseByteSequence(s + tail, limits), ParseByteSequence(s, limits), tail)
  {
    hide IsBase64Char, Base64.DecodeEither, Span;
    if ParseByteSequence(s, limits).Done? {
      CommaStops(tail);
      DropExtends(s, tail);
      SpanExtends(IsBase64Char, s[1..], tail);
      DropExtends(s[1..][Span(IsBase64Char, s[1..])..], tail);
    }
  }

  lemma BareItemExtends(s: string, tail: string, limits: Limits)
    requires StartsWithComma(tail)
    ensures Extends(ParseBareItem(s + tail, limits), ParseBareItem(s, limits), tail)
  {
    hide ParseBoolean, ParseToken, ParseInteger, ParseString, ParseByteSequence, IsAlpha, IsDigit;
    if ParseBareItem(s, limits).Done? {
      DropExtends(s, tail);
      BooleanExtends(s, tail);
      IntegerExtends(s, tail);
      StringExtends(s, tail, limits);
      ByteSequenceExtends(s, tail, limits);
      TokenExtends(s, tail, limits);
    }
  }

  lemma BooleanExtends(s: string, tail: string)
    ensures Extends(ParseBoolean(s + tail), ParseBoolean(s), tail)
  {
    if ParseBoolean(s).Done? {
      assert (s + tail)[1] == s[1] && (s + tail)[2..] == s[2..] + tail;
    }
  }

  /** One byte further. */
  lemma DropExtends(s: string, tail: string)
    requires s != ""
    ensures (s + tail)[0] == s[0] && (s + tail)[1..] == s[1..] + tail
  {
  }

  lemma ParameterExtends(s: string, tail: string, limits: Limits)
    requires StartsWithComma(tail)
    ensures Extends(ParseParameter(s + tail, limits), ParseParameter(s, limits), tail)
  {
    hide ParseToken, ParseBareItem;
    TokenExtends(s, tail, limits);
    if ParseToken(s, limits).Done? {
      var afterKey := ParseToken(s, limits).rest;
      if afterKey != "" {
        DropExtends(afterKey, tail);
        BareItemExtends(afterKey[1..], tail, limits);
      } else {
        assert afterKey + tail == tail;
      }
    }
  }

  lemma {:induction false} ParametersExtend(s: string, count: nat, tail: string, limits: Limits)
    requires StartsWithComma(tail)
    ensures Extends(ParseParameters(s + tail, count, limits), ParseParameters(s, count, limits), tail)
    decreases |s|
  {
    hide ParseParameter;
    if s == "" {
      assert s + tail == tail;
    } else {
      DropExtends(s, tail);
      if s[0] == ';' && ParseParameter(s[1..], limits).Done? {
        ParameterExtends(s[1..], tail, limits);
        ParametersExtend(ParseParameter(s[1..], limits).rest, count + 1, tail, limits);
      }
    }
  }

  lemma ItemExtends(s: string, tail: string, limits: Limits)
    requires StartsWithComma(tail)
    ensures Extends(ParseItem(s + tail, limits), ParseItem(s, limits), tail)
  {
    hide ParseBareItem, ParseParameters;
    BareItemExtends(s, tail, limits);
    if ParseBareItem(s, limits).Done? {
      ParametersExtend(ParseBareItem(s, limits).rest, 0, tail, limits);
    }
  }

  lemma {:induction false} ItemsExtend(s: string, count: nat, tail: string, limits: Limits)
    requires StartsWithComma(tail)
    ensures Extends(ParseItems(s + tail, count, limits), ParseItems(s, count, limits), tail)
    decreases |s|
  {
    hide ParseItem, Span, IsSpace;
    if ParseItems(s, count, limits).Done? {
      CommaStops(tail);
      SpanExtends(IsSpace, s, tail);
      var t := SkipSpaces(s);
      if t == "" {
        EmptyIsNoItem(limits);
        return;
      }
      DropExtends(t, tail);
      if t[0] != ')' {
        ItemExtends(t, tail, limits);
        ItemsExtend(ParseItem(t, limits).rest, count + 1, tail, limits);
      }
    }
  }

  lemma EmptyIsNoItem(limits: Limits)
    ensures ParseItem("", limits).Fail?
  {
  }

  lemma InnerListExtends(s: string, tail: string, limits: Limits)
    requires StartsWithComma(tail)
    ensures Extends(ParseInnerList(s + tail, limits), ParseInnerList(s, limits), tail)
  {
    hide ParseItems, ParseParameters;
    if ParseInnerList(s, limits).Done? {
      DropExtends(s, tail);
      ItemsExtend(s[1..], 0, tail, limits);
      var afterItems := ParseItems(s[1..], 0, limits).rest;
      DropExtends(afterItems, tail);
      ParametersExtend(afterItems[1..], 0, tail, limits);
    }
  }

  lemma ValueExtends(s: string, tail: string, limits: Limits)
    requires StartsWithComma(tail)
    ensures Extends(ParseValue(s + tail, limits), ParseValue(s, limits), tail)
  {
    hide ParseInnerList, ParseItem;
    if s == "" {
      EmptyIsNoItem(limits);
    } else {
      DropExtends(s, tail);
      InnerListExtends(s, tail, limits);
      ItemExtends(s, tail, limits);
    }
  }

  lemma MemberExtends(s: string, tail: string, limits: Limits)
    requires StartsWithComma(tail)
    ensures Extends(ParseMember(s + tail, limits), ParseMember(s, limits), tail)
  {
    hide ParseToken, ParseValue, IsOws;
    TokenExtends(s, tail, limits);
    CommaStops(tail);
    if ParseToken(s, limits).Done? {
      var afterKey := ParseToken(s, limits).rest;
      if afterKey != "" {
        DropExtends(afterKey, tail);
        ValueExtends(afterKey[1..], tail, limits);
      } else {
        assert afterKey + tail == tail;
      }
    }
  }

  lemma SeparateExtends(s: string, tail: string)
    requires StartsWithComma(tail)
    ensures Separate(s).Next? ==> Separate(s + tail) == Next(Separate(s).rest + tail)
    ensures SkipOws(s) == "" ==> Separate(s + tail) == Separate(tail)
    ensures SkipOws(s) != "" && Separate(s).Last? ==> Separate(s + tail) == Last
  {
    hide Span, IsOws;
    CommaStops(tail);
    SpanExtends(IsOws, s, tail);
    SpanExtends(IsOws, "", tail);
    assert "" + tail == tail;
    var t := SkipOws(s);
    if t != "" {
      DropExtends(t, tail);
      SpanExtends(IsOws, t[1..], tail);
    } else {
      assert t + tail == tail;
    }
  }

  // The members of a text, up to its end

  /** After the last member there is white space only. */
  ghost predicate DictionaryReadToEnd(s: string, limits: Limits)
    decreases |s|
  {
    match ParseMember(s, limits)
    case Fail => false
    case Done(_, after) =>
      match Separate(after)
      case TrailingComma => false
      case Last => SkipOws(after) == ""
      case Next(rest) => DictionaryReadToEnd(rest, limits)
  }

  ghost predicate ListReadToEnd(s: string, limits: Limits)
    decreases |s|
  {
    match ParseValue(s, limits)
    case Fail => false
    case Done(_, after) =>
      match Separate(after)
      case TrailingComma => false
      case Last => SkipOws(after) == ""
      case Next(rest) => ListReadToEnd(rest, limits)
  }

  /** Members read to the end go on behind the comma; behind anything else the tail is
      ignored like the rest of the text. */
  lemma {:induction false} DictionaryExtends(s: string, d: Dictionary, tail: string, limits: Limits)
    requires StartsWithComma(tail) && s != "" && ParseDictionaryFrom(s, d, limits).Some?
    ensures ParseDictionaryFrom(s + tail, d, limits) ==
            if !DictionaryReadToEnd(s, limits) then ParseDictionaryFrom(s, d, limits)
            else
              match Separate(tail)
              case TrailingComma => None
              case Last => ParseDictionaryFrom(s, d, limits)
              case Next(more) => ParseDictionaryFrom(more, ParseDictionaryFrom(s, d, limits).value, limits)
    decreases |s|
  {
    hide ParseMember, Separate, Store, SkipOws;
    MemberExtends(s, tail, limits);
    var after := ParseMember(s, limits).rest;
    SeparateExtends(after, tail);
    if Separate(after).Next? {
      var entry, rest := ParseMember(s, limits).value, Separate(after).rest;
      SfvRoundTrip.NextIsNotEmpty(after);
      DictionaryExtends(rest, Store(d, entry.0, entry.1), tail, limits);
    }
  }

  lemma {:induction false} ListExtends(s: string, count: nat, tail: string, limits: Limits)
    requires StartsWithComma(tail) && s != "" && ParseListFrom(s, count, limits).Some? && !Separate(tail).Last?
    ensures var ms := ParseListFrom(s, count, limits).value;
            ParseListFrom(s + tail, count, limits) ==
            if !ListReadToEnd(s, limits) then Some(ms)
            else if Separate(tail).TrailingComma? then None
            else
              match ParseListFrom(Separate(tail).rest, count + |ms|, limits)
              case None => None
              case Some(more) => Some(ms + more)
    decreases |s|
  {
    hide ParseValue, Separate, SkipOws;
    ValueExtends(s, tail, limits);
    var value, after := ParseValue(s, limits).value, ParseValue(s, limits).rest;
    SeparateExtends(after, tail);
    if Separate(after).Next? {
      var rest := Separate(after).rest;
      SfvRoundTrip.NextIsNotEmpty(after);
      ListExtends(rest, count + 1, tail, limits);
      if Separate(tail).Next? {
        var ms := ParseListFrom(rest, count + 1, limits).value;
        var more := ParseListFrom(Separate(tail).rest, count + 1 + |ms|, limits);
        if more.Some? {
          ConcatAssociates([value], ms, more.value);
        }
      }
    }
  }

  lemma SkipOwsMore(more: string)
    ensures SkipOws(" " + more) == SkipOws(more)
  {
    var n := Span(IsOws, more);
    assert " " + more == (" " + more[..n]) + more[n..];
    SpanIs(IsOws, " " + more[..n], more[n..]);
  }

  /** Behind a comma, and a space: the next member, unless there is white space only. */
  lemma SeparateComma(more: string)
    ensures Separate(", " + more) == if SkipOws(more) == "" then TrailingComma else Next(SkipOws(more))
  {
    hide SkipOws;
    var text := ", " + more;
    assert text[0] == ',' && text[1..] == " " + more;
    NothingAdded(text);
    SfvRoundTrip.SkipOwsIs("", text);
    SkipOwsMore(more);
  }

  /** Two header lines joined, if the first parses by itself: when its members are read
      to its end, the members of the second are stored on top of them; when anything but
      a comma stands behind a member of the first, the second is ignored. A blank second
      line is an error in the first case. */
  lemma {:induction false} JoinedDictionaryLines(s: string, more: string, limits: Limits)
    requires s != "" && ParseDictionary(s, limits).Some?
    requires Within(|s + (", " + more)|, limits.maxInputLength)
    ensures ParseDictionary(s + (", " + more), limits) ==
            if !DictionaryReadToEnd(s, limits) then ParseDictionary(s, limits)
            else if SkipOws(more) == "" then None
            else ParseDictionaryFrom(SkipOws(more), ParseDictionary(s, limits).value, limits)
  {
    hide ParseDictionaryFrom, DictionaryReadToEnd, SkipOws, Separate;
    SeparateComma(more);
    DictionaryExtends(s, EMPTY_DICTIONARY, ", " + more, limits);
  }

  /** And as lists: the members of both, in order, or of the first alone. */
  lemma {:induction false} JoinedListLines(s: string, more: string, limits: Limits)
    requires s != "" && ParseList(s, limits).Some?
    requires Within(|s + (", " + more)|, limits.maxInputLength)
    ensures var ms := ParseList(s, limits).value.members;
            ParseList(s + (", " + more), limits) ==
            if !ListReadToEnd(s, limits) then Some(List(ms))
            else if SkipOws(more) == "" then None
            else
              match ParseListFrom(SkipOws(more), |ms|, limits)
              case None => None
              case Some(others) => Some(List(ms + others))
  {
    hide ParseListFrom, ListReadToEnd, SkipOws, Separate;
    SeparateComma(more);
    ListExtends(s, 0, ", " + more, limits);
  }

  // The first line has to parse by itself

  lemma {:induction false} EscapeAppend(x: string, y: string)
    ensures Escape(x + y) == Escape(x) + Escape(y)
  {
    hide EscapeChar;
    if x == "" {
      NothingAdded(y);
      NothingAdded(Escape(y));
    } else {
      DropFirst(x, y);
      EscapeAppend(x[1..], y);
      ConcatAssociates(EscapeChar(x[0]), Escape(x[1..]), Escape(y));
    }
  }

  lemma {:induction false} OpenStringFails(x: string, used: nat, limits: Limits)
    requires AllPrintable(x)
    ensures ParseStringBody(Escape(x), used, limits) == Fail
  {
    hide EscapeChar, NextChar, AllPrintable, Within;
    if x != "" {
      PrintableSteps(x);
      NextCharIs(x[0], Escape(x[1..]));
      OpenStringFails(x[1..], used + |EscapeChar(x[0])|, limits);
    }
  }

  lemma OpenMemberFails(key: string, x: string, limits: Limits)
    requires FitsToken(key, limits) && AllPrintable(x)
    ensures ParseMember(key + ("=\"" + Escape(x)), limits) == Fail
  {
    hide ParseToken, ParseStringBody, Escape, FitsToken, AllPrintable;
    SfvRoundTrip.EqualsStops("\"" + Escape(x));
    assert "=" + ("\"" + Escape(x)) == "=\"" + Escape(x);
    assert ("=\"" + Escape(x))[1..] == "\"" + Escape(x) && ("\"" + Escape(x))[1..] == Escape(x);
    TokenRoundTrip(key, "=\"" + Escape(x), limits);
    OpenStringFails(x, 0, limits);
  }

  lemma OpenDictionaryFails(key: string, x: string, limits: Limits)
    requires FitsToken(key, limits) && AllPrintable(x)
    ensures ParseDictionary(key + ("=\"" + Escape(x)), limits).None?
  {
    OpenMemberFails(key, x, limits);
    hide ParseMember, Escape, FitsToken, AllPrintable;
  }

  lemma OneStringFits(key: string, x: string, y: string)
    requires IsToken(key) && AllPrintable(x) && AllPrintable(y)
    ensures FitsDictionary(Dictionary([key], map[key := Single(Item(Str(x + ", " + y), []))]), NO_LIMITS)
  {
    hide IsToken;
    var text := x + ", " + y;
    assert AllPrintable(text);
    hide AllPrintable, Escape;
    assert FitsMember(Single(Item(Str(text), [])), NO_LIMITS);
  }

  /** A string cut in two by the join: the first line is refused by itself, and joined
      they are one member. */
  lemma JoinedInsideString(key: string, x: string, y: string)
    requires IsToken(key) && AllPrintable(x) && AllPrintable(y)
    ensures var s, more := key + ("=\"" + Escape(x)), Escape(y) + "\"";
            var value := Single(Item(Str(x + ", " + y), []));
            && ParseDictionary(s, NO_LIMITS).None?
            && ParseDictionary(s + (", " + more), NO_LIMITS) == Some(Dictionary([key], map[key := value]))
  {
    var d := Dictionary([key], map[key := Single(Item(Str(x + ", " + y), []))]);
    assert FitsToken(key, NO_LIMITS);
    hide FitsDictionary, DictionaryText, ParseDictionary, Escape, AllPrintable, IsToken, FitsToken;
    OpenDictionaryFails(key, x, NO_LIMITS);
    OneStringFits(key, x, y);
    JoinedText(key, x, y);
    SfvRoundTrip.DictionaryRoundTrip(d, NO_LIMITS);
  }

  lemma JoinedText(key: string, x: string, y: string)
    ensures var d := Dictionary([key], map[key := Single(Item(Str(x + ", " + y), []))]);
            DictionaryText(d) == key + ("=\"" + Escape(x)) + (", " + (Escape(y) + "\""))
  {
    hide Escape;
    EscapedText(x, y);
    OneStringText(key, x + ", " + y);
    OpenText(key, Escape(x), Escape(y));
  }

  lemma EscapedText(x: string, y: string)
    ensures Escape(x + ", " + y) == Escape(x) + ", " + Escape(y)
  {
    assert Escape(", ") == ", " by {
      assert ", "[1..] == " " && " "[1..] == "";
    }
    hide Escape;
    EscapeAppend(x + ", ", y);
    EscapeAppend(x, ", ");
  }

  lemma OneStringText(key: string, text: string)
    ensures DictionaryText(Dictionary([key], map[key := Single(Item(Str(text), []))])) ==
            key + "=" + ("\"" + Escape(text) + "\"")
  {
    hide Escape;
    var m := Single(Item(Str(text), []));
    NothingAdded(StringText(text));
    assert MemberText(m) == StringText(text);
    hide MemberText;
    assert EntryTextIn(key, map[key := m]) == key + "=" + MemberText(m);
  }

  lemma OpenText(key: string, a: string, b: string)
    ensures key + "=" + ("\"" + (a + ", " + b) + "\"") == key + ("=\"" + a) + (", " + (b + "\""))
  {
    OpenValue(a, b);
    ConcatAssociates(key, "=", "\"" + (a + ", " + b) + "\"");
    ConcatAssociates(key, "=\"" + a, ", " + (b + "\""));
  }

  lemma OpenValue(a: string, b: string)
    ensures "=" + ("\"" + (a + ", " + b) + "\"") == ("=\"" + a) + (", " + (b + "\""))
  {
  }
}
