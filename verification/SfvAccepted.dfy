/** Every way of writing a dictionary, a list and an item: exactly these texts are accepted,
    and this is what they mean. */
module SfvAccepted {
  import opened Wrappers
  import opened SfvTypes
  import opened SfvGrammar
  import opened SfvDictionary
  import opened SfvSpelling
  import SfvRoundTrip

  // Commas

  /** White space on either side of a comma. */
  datatype Comma = Comma(before: string, behind: string)

  predicate IsWhite(s: string) {
    forall i :: 0 <= i < |s| ==> s[i] == ' ' || s[i] == '\t'
  }

  predicate AreCommas(commas: seq<Comma>) {
    forall i :: 0 <= i < |commas| ==> IsWhite(commas[i].before) && IsWhite(commas[i].behind)
  }

  /** What is ignored at the end: anything that has no comma behind its leading white
      space. */
  predicate IsTail(tail: string) {
    forall k :: 0 <= k < |tail| && IsWhite(tail[..k]) ==> tail[k] != ','
  }

  function CommaWritten(c: Comma, next: string): string {
    c.before + ("," + (c.behind + next))
  }

  lemma WhiteIsSkipped(white: string, rest: string)
    requires IsWhite(white) && (rest != "" ==> !IsOws(rest[0]))
    ensures SkipOws(white + rest) == rest
  {
    SfvRoundTrip.SkipOwsIs(white, rest);
  }

  lemma WhiteWasSkipped(s: string) returns (white: string)
    ensures IsWhite(white) && s == white + SkipOws(s)
    ensures SkipOws(s) != "" ==> !IsOws(SkipOws(s)[0])
  {
    white := s[..Span(IsOws, s)];
  }

  lemma CommaSeparates(c: Comma, next: string)
    requires IsWhite(c.before) && IsWhite(c.behind) && next != "" && !IsOws(next[0])
    ensures Separate(CommaWritten(c, next)) == Next(next)
  {
    hide SkipOws, IsWhite;
    var tail := "," + (c.behind + next);
    WhiteIsSkipped(c.before, tail);
    WhiteIsSkipped(c.behind, next);
    assert tail[1..] == c.behind + next;
  }

  lemma CommaWasWritten(s: string) returns (c: Comma)
    requires Separate(s).Next?
    ensures IsWhite(c.before) && IsWhite(c.behind) && s == CommaWritten(c, Separate(s).rest)
    ensures Separate(s).rest != "" && !IsOws(Separate(s).rest[0])
  {
    hide SkipOws, IsWhite;
    var before := WhiteWasSkipped(s);
    var t := SkipOws(s);
    var behind := WhiteWasSkipped(t[1..]);
    c := Comma(before, behind);
    assert t == "," + t[1..];
  }

  lemma TailSeparates(tail: string)
    ensures Separate(tail) == Last <==> IsTail(tail)
  {
    var n := Span(IsOws, tail);
    assert IsWhite(tail[..n]);
    if IsTail(tail) {
      assert n < |tail| ==> tail[n] != ',';
    } else {
      var k :| 0 <= k < |tail| && IsWhite(tail[..k]) && tail[k] == ',';
      assert tail == tail[..k] + tail[k..];
      WhiteIsSkipped(tail[..k], tail[k..]);
    }
  }

  function EntriesWritten(es: seq<EntrySpelling>, commas: seq<Comma>, tail: string): string
    requires |es| == |commas| + 1
  {
    EntryWritten(es[0])
    + if |es| == 1 then tail else CommaWritten(commas[0], EntriesWritten(es[1..], commas[1..], tail))
  }

  function EntriesMeant(es: seq<EntrySpelling>): (r: seq<Entry>)
    ensures |r| == |es|
  {
    if es == [] then [] else [EntryMeant(es[0])] + EntriesMeant(es[1..])
  }

  ghost predicate AreEntries(es: seq<EntrySpelling>, commas: seq<Comma>, tail: string)
    requires |es| == |commas| + 1
  {
    && IsEntrySpelling(es[0])
    && if |es| == 1 then EndsEntry(es[0], tail) && IsTail(tail)
       else
         && IsWhite(commas[0].before) && IsWhite(commas[0].behind)
         && EndsEntry(es[0], CommaWritten(commas[0], EntriesWritten(es[1..], commas[1..], tail)))
         && AreEntries(es[1..], commas[1..], tail)
  }

  lemma {:induction false} EntriesAreRead(es: seq<EntrySpelling>, commas: seq<Comma>, tail: string, d: Dictionary)
    requires |es| == |commas| + 1 && AreEntries(es, commas, tail)
    ensures var s := EntriesWritten(es, commas, tail);
            ParseDictionaryFrom(s, d, NO_LIMITS) == Some(StoreAll(d, EntriesMeant(es))) && s != "" && !IsOws(s[0])
    decreases |es|
  {
    hide ParseMember, Separate, Store, EntryWritten, EntryMeant, IsEntrySpelling, EndsEntry, CommaWritten, IsWhite,
      IsTail, IsOws;
    var behind := if |es| == 1 then tail else CommaWritten(commas[0], EntriesWritten(es[1..], commas[1..], tail));
    EntryIsRead(es[0], behind);
    SfvRoundTrip.FirstOfText(EntryWritten(es[0]), behind);
    var (key, value) := EntryMeant(es[0]);
    assert EntriesMeant(es)[1..] == EntriesMeant(es[1..]);
    if |es| == 1 {
      TailSeparates(tail);
    } else {
      EntriesAreRead(es[1..], commas[1..], tail, Store(d, key, value));
      CommaSeparates(commas[0], EntriesWritten(es[1..], commas[1..], tail));
    }
  }

  lemma {:induction false} EntriesWereSpelled(s: string, d: Dictionary)
    returns (es: seq<EntrySpelling>, commas: seq<Comma>, tail: string)
    requires s != "" && ParseDictionaryFrom(s, d, NO_LIMITS).Some?
    ensures |es| == |commas| + 1 && AreEntries(es, commas, tail) && s == EntriesWritten(es, commas, tail)
    decreases |s|
  {
    hide ParseMember, Separate, Store, EntryWritten, EntryMeant, IsEntrySpelling, EndsEntry, CommaWritten, IsWhite,
      IsTail, IsOws;
    var e := EntryWasSpelled(s);
    var (key, value) := ParseMember(s, NO_LIMITS).value;
    var after := ParseMember(s, NO_LIMITS).rest;
    if Separate(after).Next? {
      var c := CommaWasWritten(after);
      var others, more;
      others, more, tail := EntriesWereSpelled(Separate(after).rest, Store(d, key, value));
      es, commas := [e] + others, [c] + more;
      assert es[1..] == others && commas[1..] == more;
    } else {
      TailSeparates(after);
      es, commas, tail := [e], [], after;
    }
  }

  /** The texts read as a dictionary are exactly these: entries with commas and white
      space between them, and a tail that is ignored. */
  lemma DictionaryExactly(s: string, d: Dictionary)
    ensures ParseDictionary(s, NO_LIMITS) == Some(d) <==>
            (s == "" && d == EMPTY_DICTIONARY)
            || exists es, commas, tail ::
                 && |es| == |commas| + 1 && AreEntries(es, commas, tail)
                 && s == EntriesWritten(es, commas, tail)
                 && d == StoreAll(EMPTY_DICTIONARY, EntriesMeant(es))
  {
    hide EntriesWritten, EntriesMeant, AreEntries, StoreAll;
    if s != "" && ParseDictionary(s, NO_LIMITS) == Some(d) {
      var es, commas, tail := EntriesWereSpelled(s, EMPTY_DICTIONARY);
      EntriesAreRead(es, commas, tail, EMPTY_DICTIONARY);
    }
    if es, commas, tail :|
      && |es| == |commas| + 1 && AreEntries(es, commas, tail)
      && s == EntriesWritten(es, commas, tail)
      && d == StoreAll(EMPTY_DICTIONARY, EntriesMeant(es))
    {
      EntriesAreRead(es, commas, tail, EMPTY_DICTIONARY);
    }
  }

  function ValuesWritten(vs: seq<ValueSpelling>, commas: seq<Comma>, tail: string): string
    requires |vs| == |commas| + 1
  {
    ValueWritten(vs[0])
    + if |vs| == 1 then tail else CommaWritten(commas[0], ValuesWritten(vs[1..], commas[1..], tail))
  }

  function ValuesMeant(vs: seq<ValueSpelling>): (r: seq<Member>)
    ensures |r| == |vs|
  {
    if vs == [] then [] else [ValueMeant(vs[0])] + ValuesMeant(vs[1..])
  }

  ghost predicate AreValues(vs: seq<ValueSpelling>, commas: seq<Comma>, tail: string)
    requires |vs| == |commas| + 1
  {
    && IsValueSpelling(vs[0])
    && if |vs| == 1 then EndsValue(vs[0], tail) && IsTail(tail)
       else
         && IsWhite(commas[0].before) && IsWhite(commas[0].behind)
         && EndsValue(vs[0], CommaWritten(commas[0], ValuesWritten(vs[1..], commas[1..], tail)))
         && AreValues(vs[1..], commas[1..], tail)
  }

  lemma {:induction false} ValuesAreRead(vs: seq<ValueSpelling>, commas: seq<Comma>, tail: string, count: nat)
    requires |vs| == |commas| + 1 && AreValues(vs, commas, tail)
    ensures var s := ValuesWritten(vs, commas, tail);
            ParseListFrom(s, count, NO_LIMITS) == Some(ValuesMeant(vs)) && s != "" && !IsOws(s[0])
    decreases |vs|
  {
    hide ParseValue, Separate, ValueWritten, ValueMeant, IsValueSpelling, EndsValue, CommaWritten, IsWhite, IsTail,
      IsOws;
    var behind := if |vs| == 1 then tail else CommaWritten(commas[0], ValuesWritten(vs[1..], commas[1..], tail));
    ValueIsRead(vs[0], behind);
    SfvRoundTrip.FirstOfText(ValueWritten(vs[0]), behind);
    if |vs| == 1 {
      TailSeparates(tail);
      assert ValuesMeant(vs[1..]) == [];
      NothingAdded([ValueMeant(vs[0])]);
    } else {
      ValuesAreRead(vs[1..], commas[1..], tail, count + 1);
      CommaSeparates(commas[0], ValuesWritten(vs[1..], commas[1..], tail));
    }
  }

  lemma {:induction false} ValuesWereSpelled(s: string, count: nat)
    returns (vs: seq<ValueSpelling>, commas: seq<Comma>, tail: string)
    requires s != "" && ParseListFrom(s, count, NO_LIMITS).Some?
    ensures |vs| == |commas| + 1 && AreValues(vs, commas, tail) && s == ValuesWritten(vs, commas, tail)
    decreases |s|
  {
    hide ParseValue, Separate, ValueWritten, ValueMeant, IsValueSpelling, EndsValue, CommaWritten, IsWhite, IsTail,
      IsOws;
    var v := ValueWasSpelled(s);
    var after := ParseValue(s, NO_LIMITS).rest;
    if Separate(after).Next? {
      var c := CommaWasWritten(after);
      var others, more;
      others, more, tail := ValuesWereSpelled(Separate(after).rest, count + 1);
      vs, commas := [v] + others, [c] + more;
      assert vs[1..] == others && commas[1..] == more;
    } else {
      TailSeparates(after);
      vs, commas, tail := [v], [], after;
    }
  }

  /** And those read as a list. */
  lemma ListExactly(s: string, l: List)
    ensures ParseList(s, NO_LIMITS) == Some(l) <==>
            (s == "" && l == List([]))
            || exists vs, commas, tail ::
                 && |vs| == |commas| + 1 && AreValues(vs, commas, tail)
                 && s == ValuesWritten(vs, commas, tail)
                 && l == List(ValuesMeant(vs))
  {
    hide ValuesWritten, ValuesMeant, AreValues;
    if s != "" && ParseList(s, NO_LIMITS) == Some(l) {
      var vs, commas, tail := ValuesWereSpelled(s, 0);
      ValuesAreRead(vs, commas, tail, 0);
    }
    if vs, commas, tail :|
      && |vs| == |commas| + 1 && AreValues(vs, commas, tail)
      && s == ValuesWritten(vs, commas, tail)
      && l == List(ValuesMeant(vs))
    {
      ValuesAreRead(vs, commas, tail, 0);
    }
  }

  /** And those read as an item, with the rest left unread. */
  lemma ItemExactly(s: string, item: Item, rest: string)
    ensures ParseItem(s, NO_LIMITS) == Done(item, rest) <==>
            exists i :: IsItemSpelling(i) && EndsItem(i, rest) && s == ItemWritten(i) + rest && item == ItemMeant(i)
  {
    hide ParseItem, ItemWritten, ItemMeant, IsItemSpelling, EndsItem;
    if ParseItem(s, NO_LIMITS) == Done(item, rest) {
      var i := ItemWasSpelled(s);
    }
    if i :| IsItemSpelling(i) && EndsItem(i, rest) && s == ItemWritten(i) + rest && item == ItemMeant(i) {
      ItemIsRead(i, rest);
    }
  }
}
