/** What the canonical value of a component promises: which parameter decides, what
    canonical values look like, and when they are canonical again. */
module FieldLaws {
  import opened Wrappers
  import opened SfvTypes
  import opened SignatureTypes
  import opened LineFolding
  import opened HttpMessage
  import opened FieldValues
  import opened SfvGrammar
  import opened SfvPrimitives
  import opened SfvRoundTrip
  import opened SfvLimits
  import Base64

  // Parameters: the last one of the right type decides

  function Flag(f: FieldParams, key: string): bool {
    if key == "tr" then f.isTrailer else if key == "sf" then f.useSf else f.useBs
  }

  predicate SetsFlag(p: ComponentParameter, key: string) {
    p.key == key && p.value.BooleanValue?
  }

  predicate SetsKey(p: ComponentParameter) {
    p.key == "key" && p.value.StringValue?
  }

  lemma {:induction false} FlagStays(f: FieldParams, ps: seq<ComponentParameter>, key: string)
    requires key == "tr" || key == "sf" || key == "bs"
    requires forall j :: 0 <= j < |ps| ==> !SetsFlag(ps[j], key)
    ensures Flag(ReadParamsFrom(f, ps), key) == Flag(f, key)
    decreases |ps|
  {
    if ps != [] {
      ReadOneFlag(f, ps[0], key);
      hide ReadParam, Flag, SetsFlag;
      FlagStays(ReadParam(f, ps[0]), ps[1..], key);
    }
  }

  lemma ReadOneFlag(f: FieldParams, p: ComponentParameter, key: string)
    requires key == "tr" || key == "sf" || key == "bs"
    ensures Flag(ReadParam(f, p), key) == if SetsFlag(p, key) then p.value.flag else Flag(f, key)
  {
  }

  /** The last boolean under a key decides tr, sf and bs; without one they are off. */
  lemma {:induction false} LastFlagDecides(f: FieldParams, ps: seq<ComponentParameter>, key: string, i: nat)
    requires key == "tr" || key == "sf" || key == "bs"
    requires i < |ps| && SetsFlag(ps[i], key) && forall j :: i < j < |ps| ==> !SetsFlag(ps[j], key)
    ensures Flag(ReadParamsFrom(f, ps), key) == ps[i].value.flag
    decreases |ps|
  {
    ReadOneFlag(f, ps[0], key);
    hide ReadParam, Flag;
    if i == 0 {
      FlagStays(ReadParam(f, ps[0]), ps[1..], key);
    } else {
      LastFlagDecides(ReadParam(f, ps[0]), ps[1..], key, i - 1);
    }
  }

  lemma ReadOneKey(f: FieldParams, p: ComponentParameter)
    ensures ReadParam(f, p).keyName == if SetsKey(p) then p.value.text else f.keyName
  {
  }

  /** The last string under key names the dictionary member; without one there is none. */
  lemma {:induction false} LastKeyDecides(f: FieldParams, ps: seq<ComponentParameter>, i: int)
    requires -1 <= i < |ps| && (i >= 0 ==> SetsKey(ps[i])) && forall j :: i < j < |ps| ==> !SetsKey(ps[j])
    ensures ReadParamsFrom(f, ps).keyName == if i >= 0 then ps[i].value.text else f.keyName
    decreases |ps|
  {
    if ps != [] {
      ReadOneKey(f, ps[0]);
      hide ReadParam;
      LastKeyDecides(ReadParam(f, ps[0]), ps[1..], if i <= 0 then -1 else i - 1);
    }
  }

  /** Removing req keeps every other parameter, in order. */
  lemma {:induction false} WithoutReqKeepsOthers(ps: seq<ComponentParameter>, qs: seq<ComponentParameter>)
    ensures WithoutReq(ps + qs) == WithoutReq(ps) + WithoutReq(qs)
    ensures WithoutReq(ps) == ps <==> forall i :: 0 <= i < |ps| ==> ps[i].key != "req"
    ensures |WithoutReq(ps)| <= |ps|
    decreases |ps|
  {
    if ps == [] {
      assert ps + qs == qs;
    } else {
      var kept := if ps[0].key != "req" then [ps[0]] else [];
      assert (ps + qs)[1..] == ps[1..] + qs;
      WithoutReqKeepsOthers(ps[1..], qs);
      ConcatAssociates(kept, WithoutReq(ps[1..]), WithoutReq(qs));
      WithoutReqHasNone(ps);
      assert ps == [ps[0]] + ps[1..];
    }
  }

  /** The first req parameter decides whether the value is the request's. */
  lemma {:induction false} FirstReqDecides(ps: seq<ComponentParameter>, i: nat)
    requires i <= |ps| && (i < |ps| ==> ps[i].key == "req") && forall j :: 0 <= j < i ==> ps[j].key != "req"
    ensures HasReq(ps) <==> i < |ps| && ps[i].value == BooleanValue(true)
  {
    if i > 0 {
      FirstReqDecides(ps[1..], i - 1);
    }
  }

  /** A component with req is read from the request of a response, by its other
      parameters, and has no value where there is none. */
  lemma ReqReadsRequest(msg: Message, c: Component)
    requires HasReq(c.parameters)
    ensures msg.RequestMessage? ==> ComponentValue(msg, c).None?
    ensures msg.ResponseMessage? && msg.related.None? ==> ComponentValue(msg, c).None?
    ensures msg.ResponseMessage? && msg.related.Some? ==>
              ComponentValue(msg, c) ==
              ComponentValue(RequestMessage(msg.related.value), c.(parameters := WithoutReq(c.parameters)))
  {
    hide HasReq, WithoutReq, DirectValue;
    WithoutReqHasNone(c.parameters);
  }

  /** The first string under name is the query parameter's name. */
  lemma {:induction false} FirstNameDecides(ps: seq<ComponentParameter>, i: nat)
    requires i <= |ps| && (i < |ps| ==> ps[i].key == "name" && ps[i].value.StringValue?)
    requires forall j :: 0 <= j < i ==> !(ps[j].key == "name" && ps[j].value.StringValue?)
    ensures QueryParamName(ps) == if i < |ps| then ps[i].value.text else ""
  {
    if i > 0 {
      FirstNameDecides(ps[1..], i - 1);
    }
  }

  // Canonical values

  /** White space of ASCII: tab, LF, VT, FF, CR and space. */
  predicate IsWhiteText(s: string) {
    forall i :: 0 <= i < |s| ==> s[i] as int in {9, 10, 11, 12, 13, 32}
  }

  lemma WhiteBytes(c: char)
    ensures IsSpaceByte(c) <==> c as int in {9, 10, 11, 12, 13, 32}
  {
  }

  lemma {:induction false} TrimRightWhite(t: string, behind: string)
    requires IsWhiteText(behind) && (t != "" ==> !IsSpaceByte(t[|t| - 1]))
    ensures TrimRight(t + behind) == t
  {
    if behind == "" {
      NothingAdded(t);
    } else {
      var n := |behind| - 1;
      WhiteBytes(behind[n]);
      assert (t + behind)[..|t + behind| - 1] == t + behind[..n];
      TrimRightWhite(t, behind[..n]);
    }
  }

  lemma {:induction false} TrimRightCuts(s: string) returns (behind: string)
    ensures s == TrimRight(s) + behind && IsWhiteText(behind)
  {
    if s != "" && IsSpaceByte(s[|s| - 1]) {
      var n := |s| - 1;
      WhiteBytes(s[n]);
      var rest := TrimRightCuts(s[..n]);
      behind := rest + [s[n]];
      assert s == s[..n] + [s[n]];
      ConcatAssociates(TrimRight(s[..n]), rest, [s[n]]);
    } else {
      behind := "";
      NothingAdded(s);
    }
  }

  ghost predicate IsCut(s: string, before: string, t: string, behind: string) {
    s == before + t + behind && IsWhiteText(before) && IsWhiteText(behind)
  }

  /** Trimming takes the white space off both ends, and nothing else. */
  lemma {:induction false} TrimExactly(s: string, t: string)
    ensures Trim(s) == t <==> IsTrimmed(t) && exists before, behind :: IsCut(s, before, t, behind)
  {
    if Trim(s) == t {
      var n := Span(IsSpaceByte, s);
      assert IsWhiteText(s[..n]) by {
        WhiteSpan(s);
      }
      var behind := TrimRightCuts(s[n..]);
      TrimEnds(s);
      assert s == s[..n] + s[n..];
      ConcatAssociates(s[..n], t, behind);
      assert IsCut(s, s[..n], t, behind);
    }
    if before, behind :| IsTrimmed(t) && IsCut(s, before, t, behind) {
      CutIsTrimmed(s, before, t, behind);
    }
  }

  lemma WhiteSpan(s: string)
    ensures IsWhiteText(s[..Span(IsSpaceByte, s)])
  {
    forall i | 0 <= i < Span(IsSpaceByte, s)
      ensures s[i] as int in {9, 10, 11, 12, 13, 32}
    {
      WhiteBytes(s[i]);
    }
  }

  lemma CutIsTrimmed(s: string, before: string, t: string, behind: string)
    requires IsTrimmed(t) && IsCut(s, before, t, behind)
    ensures Trim(s) == t
  {
    ConcatAssociates(before, t, behind);
    forall i | 0 <= i < |before|
      ensures IsSpaceByte(before[i])
    {
      WhiteBytes(before[i]);
    }
    if t == "" {
      forall i | 0 <= i < |s|
        ensures IsSpaceByte(s[i])
      {
        WhiteBytes(s[i]);
      }
      assert s + "" == s;
      SpanIs(IsSpaceByte, s, "");
      assert s[|s|..] == "";
    } else {
      SpanIs(IsSpaceByte, before, t + behind);
      TrimRightWhite(t, behind);
    }
  }

  /** The canonical value is that of every line, unfolded and trimmed, in order, joined by
      a comma and a space; there is none exactly when some line is not well folded. */
  lemma {:induction false} CanonicalLines(values: seq<string>)
    ensures CanonicalValue(values).Some? <==> forall i :: 0 <= i < |values| ==> WellFolded(values[i])
    ensures CanonicalParts(values).Some? ==>
              var parts := CanonicalParts(values).value;
              && CanonicalValue(values) == Some(Join(parts, ", ")) && |parts| == |values|
              && forall i :: 0 <= i < |parts| ==>
                               Normalize(values[i]).Some? && parts[i] == Trim(Normalize(values[i]).value)
  {
    hide WellFolded, Normalize, Trim, Join;
    if values != [] {
      NormalizeAccepts(values[0]);
      CanonicalLines(values[1..]);
      assert forall i :: 1 <= i < |values| ==> values[i] == values[1..][i - 1];
    }
  }

  predicate IsTrimmed(s: string) {
    s != "" ==> !IsSpaceByte(s[0]) && !IsSpaceByte(s[|s| - 1])
  }

  lemma TrimKeeps(s: string)
    ensures Trim(s) == s <==> IsTrimmed(s)
  {
    if IsTrimmed(s) {
      assert Span(IsSpaceByte, s) == 0;
      assert s[0..] == s;
    } else {
      TrimEnds(s);
    }
  }

  /** Where the canonical value is canonical already. */
  lemma SingleValue(s: string)
    requires NoNewline(s)
    ensures CanonicalValue([s]) == Some(Trim(s))
  {
    hide Trim, Normalize;
    NormalizeNoNewline(s);
    assert [s][1..] == [];
    assert CanonicalParts([]) == Some([]);
  }

  lemma {:induction false} PartsAre(values: seq<string>)
    requires CanonicalParts(values).Some?
    ensures var parts := CanonicalParts(values).value;
            |parts| == |values| && forall i :: 0 <= i < |parts| ==> NoNewline(parts[i]) && IsTrimmed(parts[i])
  {
    hide Normalize, Trim, NoNewline, IsTrimmed;
    PartsHaveNoNewline(values);
    if values != [] {
      var first := Normalize(values[0]).value;
      PartsAre(values[1..]);
      assert IsTrimmed(Trim(first)) by {
        FirstIsTrimmed(first);
      }
    }
  }

  lemma FirstIsTrimmed(s: string)
    ensures IsTrimmed(Trim(s))
  {
    TrimEnds(s);
  }

  lemma {:induction false} JoinedEnds(parts: seq<string>)
    requires |parts| > 1 && forall i :: 0 <= i < |parts| ==> IsTrimmed(parts[i])
    ensures IsTrimmed(Join(parts, ", ")) <==> parts[|parts| - 1] != ""
    ensures Join(parts, ", ") != ""
  {
    if |parts| == 2 {
      assert Join(parts[1..], ", ") == parts[1];
    } else {
      JoinedEnds(parts[1..]);
    }
  }

  /** A canonical value, taken as a field line of its own, has itself as canonical value
      exactly when it comes from at most one line or its last line is not blank: a blank
      last line leaves a space behind the final comma. */
  lemma CanonicalIsStable(values: seq<string>)
    requires CanonicalParts(values).Some?
    ensures var parts := CanonicalParts(values).value;
            CanonicalValue([CanonicalValue(values).value]) == CanonicalValue(values)
            <==> |parts| <= 1 || parts[|parts| - 1] != ""
  {
    hide CanonicalParts, NoNewline, IsTrimmed, Trim;
    var parts := CanonicalParts(values).value;
    var text := Join(parts, ", ");
    PartsAre(values);
    JoinKeepsNoNewline(parts);
    SingleValue(text);
    TrimKeeps(text);
    if |parts| > 1 {
      JoinedEnds(parts);
    } else if |parts| == 0 {
      EmptyIsTrimmed();
    }
  }

  lemma EmptyIsTrimmed()
    ensures IsTrimmed("")
  {
  }

  // The bs form

  predicate IsBytes(s: string) {
    forall i :: 0 <= i < |s| ==> s[i] as int < 256
  }

  lemma {:induction false} OctetsInjective(a: string, b: string)
    requires IsBytes(a) && IsBytes(b) && Octets(a) == Octets(b)
    ensures a == b
  {
    if a != "" && b != "" {
      assert Octets(a)[1..] == Octets(a[1..]) && Octets(b)[1..] == Octets(b[1..]);
      OctetsInjective(a[1..], b[1..]);
      assert a == [a[0]] + a[1..] && b == [b[0]] + b[1..];
      assert Octets(a)[0] == Octets(b)[0];
    }
  }

  lemma {:induction false} OctetsAreBytes(s: string)
    requires IsBytes(s)
    ensures |Octets(s)| == |s| && forall i :: 0 <= i < |s| ==> Octets(s)[i] == s[i] as int
  {
    if s != "" {
      OctetsAreBytes(s[1..]);
    }
  }

  /** The bs form is the byte sequence of these bytes, as the serializer prints it. */
  lemma BytesFormIsPrinted(raw: string)
    requires IsBytes(raw)
    ensures exists bs: seq<Octet> ::
              && |bs| == |raw| && (forall i :: 0 <= i < |bs| ==> bs[i] == raw[i] as int)
              && ByteSequenceValue(raw) == ItemText(Item(ByteSequence(bs), []))
  {
    hide Base64.Encode, Octets;
    OctetsAreBytes(raw);
    NothingAdded(ByteSequenceValue(raw));
    assert ItemText(Item(ByteSequence(Octets(raw)), [])) == ByteSequenceValue(raw) + "";
  }

  /** The bs form is a byte sequence that holds the canonical value: it parses back to
      its bytes, so it loses nothing. */
  lemma BytesFormExact(a: string, b: string)
    requires IsBytes(a) && IsBytes(b)
    ensures ParseByteSequence(ByteSequenceValue(a), NO_LIMITS) == Done(ByteSequence(Octets(a)), "")
    ensures ByteSequenceValue(a) == ByteSequenceValue(b) <==> a == b
  {
    hide Base64.Encode, ParseByteSequence, Octets;
    ByteSequenceRoundTrip(Octets(a), true, "", NO_LIMITS);
    ByteSequenceRoundTrip(Octets(b), true, "", NO_LIMITS);
    assert ByteSequenceValue(a) + "" == ByteSequenceValue(a) && ByteSequenceValue(b) + "" == ByteSequenceValue(b);
    if ByteSequenceValue(a) == ByteSequenceValue(b) {
      OctetsInjective(a, b);
    }
  }

  /** The byte sequences of the lines, one by one. */
  function BytesForms(parts: seq<string>): (r: seq<string>)
    ensures |r| == |parts| && forall i :: 0 <= i < |parts| ==> r[i] == ByteSequenceValue(parts[i])
  {
    if parts == [] then [] else [ByteSequenceValue(parts[0])] + BytesForms(parts[1..])
  }

  predicate HasSpace(s: string) {
    exists i :: 0 <= i < |s| && s[i] == ' '
  }

  lemma BytesFormHasNoSpace(raw: string)
    ensures !HasSpace(ByteSequenceValue(raw))
  {
    EncodedIsBase64(Octets(raw), true);
    hide Base64.Encode, Octets;
  }

  lemma JoinedHasSpace(parts: seq<string>)
    requires |parts| > 1
    ensures HasSpace(Join(parts, ", "))
  {
    assert Join(parts, ", ")[|parts[0]| + 1] == ' ';
  }

  /** The bs form of a field is what section 2.1.3 of RFC 9421 asks for, the joined byte
      sequences of its lines, exactly when it has one line. */
  lemma BytesFormIsOneSequence(parts: seq<string>)
    requires parts != []
    ensures ByteSequenceValue(Join(parts, ", ")) == Join(BytesForms(parts), ", ") <==> |parts| == 1
  {
    hide ByteSequenceValue, HasSpace;
    if |parts| > 1 {
      BytesFormHasNoSpace(Join(parts, ", "));
      JoinedHasSpace(BytesForms(parts));
    }
  }

  lemma LinesMerge(x: string, y: string)
    requires NoNewline(x) && NoNewline(y) && IsTrimmed(x) && IsTrimmed(y) && y != ""
    ensures CanonicalValue([x + ", " + y]) == Some(x + ", " + y) && CanonicalValue([x, y]) == Some(x + ", " + y)
  {
    CommaHasNoNewline();
    hide NoNewline;
    NoNewlineConcat(x, ", ");
    NoNewlineConcat(x + ", ", y);
    JoinedTrimmed(x, y);
    hide IsTrimmed, Trim, Normalize;
    SingleValue(x + ", " + y);
    TrimKeeps(x + ", " + y);
    TwoValues(x, y);
  }

  lemma CommaHasNoNewline()
    ensures NoNewline(", ")
  {
  }

  lemma JoinedTrimmed(x: string, y: string)
    requires IsTrimmed(x) && IsTrimmed(y) && y != ""
    ensures IsTrimmed(x + ", " + y)
  {
    var s := x + ", " + y;
    assert s[0] == (if x == "" then ',' else x[0]) && s[|s| - 1] == y[|y| - 1];
  }

  lemma TwoValues(x: string, y: string)
    requires NoNewline(x) && NoNewline(y) && IsTrimmed(x) && IsTrimmed(y)
    ensures CanonicalValue([x, y]) == Some(x + ", " + y)
  {
    hide IsTrimmed, Trim, Normalize, NoNewline;
    NormalizeNoNewline(x);
    NormalizeNoNewline(y);
    TrimKeeps(x);
    TrimKeeps(y);
    NothingAdded([y]);
    assert [x, y][1..] == [y] && [y][1..] == [];
    assert CanonicalParts([]) == Some([]) && CanonicalParts([y]) == Some([y]);
    assert CanonicalParts([x, y]) == Some([x] + [y]);
    assert [x] + [y] == [x, y];
    assert Join([x, y], ", ") == x + ", " + Join([y], ", ");
  }

  /** So the bs form does not tell one line from two: these messages have one value,
      where the byte sequences of their lines differ. */
  lemma BytesFormMergesLines(m: Message, n: Message, c: Component, x: string, y: string)
    requires ReadParams(c.parameters) == FieldParams(false, false, true, "")
    requires HeaderValues(m, c.name) == [x + ", " + y] && HeaderValues(n, c.name) == [x, y]
    requires NoNewline(x) && NoNewline(y) && IsTrimmed(x) && IsTrimmed(y) && y != ""
    ensures FieldValue(m, c).Some? && FieldValue(m, c) == FieldValue(n, c)
    ensures Join(BytesForms([x + ", " + y]), ", ") != Join(BytesForms([x, y]), ", ")
  {
    LinesMerge(x, y);
    hide ReadParams, HeaderValues, NoNewline, IsTrimmed, CanonicalValue, ByteSequenceValue, HasSpace;
    BytesFormHasNoSpace(x + ", " + y);
    JoinedHasSpace(BytesForms([x, y]));
  }

  // The sf form

  /** With a key: the text of that member of the dictionary, which reads back as it. */
  lemma MemberFormReadsBack(raw: string, key: string)
    requires key != ""
    ensures var d := ParseDictionary(raw, DEFAULT_LIMITS);
            && (StructuredValue(raw, key).Some? <==> d.Some? && key in d.value.values)
            && (d.Some? && key in d.value.values ==>
                  ParseValue(StructuredValue(raw, key).value, NO_LIMITS) == Done(d.value.values[key], ""))
  {
    var d := ParseDictionary(raw, DEFAULT_LIMITS);
    hide ParseDictionary, ParseValue, MemberText, PrintsMember, FitsMember, FitsToken;
    if d.Some? && key in d.value.values {
      DictionaryLimits(raw, DEFAULT_LIMITS, NO_LIMITS);
      DictionaryLimits(raw, NO_LIMITS, NO_LIMITS);
      var i :| 0 <= i < |d.value.keys| && d.value.keys[i] == key;
      FitsPrints(d.value.values[key], NO_LIMITS);
      MemberRoundTrip(d.value.values[key], "", NO_LIMITS);
      NothingAdded(MemberText(d.value.values[key]));
    }
  }

  /** Without a key: what is a dictionary is printed as one, else what is a list as a list,
      else what begins with an item as that item; the text reads back, as far as it is read
      as the same type. */
  lemma FormReadsBack(raw: string)
    ensures var d := ParseDictionary(raw, DEFAULT_LIMITS);
            var l := ParseList(raw, DEFAULT_LIMITS);
            var item := ParseItem(raw, DEFAULT_LIMITS);
            var form := StructuredValue(raw, "");
            && (form.Some? <==> d.Some? || l.Some? || item.Done?)
            && (d.Some? ==> ParseDictionary(form.value, NO_LIMITS) == d)
            && (d.None? && l.Some? ==> ParseList(form.value, NO_LIMITS) == l)
            && (d.None? && l.None? && item.Done? ==> ParseItem(form.value, NO_LIMITS) == Done(item.value, ""))
  {
    hide ParseDictionary, ParseList, ParseItem, ItemText, DictionaryText, MembersText, PrintsDictionary, PrintsList,
      PrintsItem, FitsItem;
    if ParseDictionary(raw, DEFAULT_LIMITS).Some? {
      DictionaryLimits(raw, DEFAULT_LIMITS, NO_LIMITS);
      DictionaryIsStable(raw, NO_LIMITS);
    } else if ParseList(raw, DEFAULT_LIMITS).Some? {
      ListLimits(raw, DEFAULT_LIMITS, NO_LIMITS);
      ListIsStable(raw, NO_LIMITS);
    } else if ParseItem(raw, DEFAULT_LIMITS).Done? {
      ItemFormReadsBack(raw);
    }
  }

  lemma ItemFormReadsBack(raw: string)
    requires ParseItem(raw, DEFAULT_LIMITS).Done?
    ensures var item := ParseItem(raw, DEFAULT_LIMITS).value;
            PrintsItem(item) && ParseItem(ItemText(item), NO_LIMITS) == Done(item, "")
  {
    var item := ParseItem(raw, DEFAULT_LIMITS).value;
    hide ParseItem, ItemText, FitsItem, PrintsItem;
    ItemLimits(raw, DEFAULT_LIMITS, NO_LIMITS);
    ItemLimits(raw, NO_LIMITS, NO_LIMITS);
    ItemPrints(item);
    ItemRoundTrip(item, "", NO_LIMITS);
    NothingAdded(ItemText(item));
  }

  lemma ItemPrints(item: Item)
    requires FitsItem(item, NO_LIMITS)
    ensures PrintsItem(item)
  {
    FitsPrints(Single(item), NO_LIMITS);
  }

  // Which field components have a value

  /** What the sf and key parameters ask of the canonical value. */
  predicate HasForm(raw: string, f: FieldParams) {
    f.useSf ==>
      if f.keyName != "" then
        var d := ParseDictionary(raw, DEFAULT_LIMITS);
        d.Some? && f.keyName in d.value.values
      else
        || ParseDictionary(raw, DEFAULT_LIMITS).Some? || ParseList(raw, DEFAULT_LIMITS).Some?
        || ParseItem(raw, DEFAULT_LIMITS).Done?
  }

  /** A field component has a value exactly when its parameters are not at odds, there is a
      line, every line is well folded, and the sf form asked for exists; with tr the lines
      are those of the trailers. */
  lemma {:induction false} FieldHasValueExactly(msg: Message, c: Component)
    ensures var f := ReadParams(c.parameters);
            var lines := if f.isTrailer then TrailerValues(msg, c.name) else HeaderValues(msg, c.name);
            FieldValue(msg, c).Some? <==>
            && !(f.useSf && f.useBs) && (f.keyName != "" ==> f.useSf)
            && lines != [] && (forall i :: 0 <= i < |lines| ==> WellFolded(lines[i]))
            && (CanonicalValue(lines).Some? ==> HasForm(CanonicalValue(lines).value, f))
  {
    hide ReadParams, TrailerValues, HeaderValues, CanonicalValue, CanonicalParts, WellFolded, StructuredValue,
      ParseDictionary, ParseList, ParseItem, ByteSequenceValue;
    var f := ReadParams(c.parameters);
    var lines := if f.isTrailer then TrailerValues(msg, c.name) else HeaderValues(msg, c.name);
    CanonicalLines(lines);
    if CanonicalValue(lines).Some? {
      MemberForm(CanonicalValue(lines).value, f.keyName);
    }
  }

  lemma MemberForm(raw: string, key: string)
    ensures StructuredValue(raw, key).Some? <==> HasForm(raw, FieldParams(false, true, false, key))
  {
    hide ParseDictionary, ParseList, ParseItem, StructuredValue, ParseValue;
    if key == "" {
      FormReadsBack(raw);
    } else {
      MemberFormReadsBack(raw, key);
    }
  }
}
