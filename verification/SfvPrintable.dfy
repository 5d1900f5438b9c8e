/** Every serialized structured field value is printable ASCII: no control byte, and
    so no newline, can come out of the printer. */
module SfvPrintable {
  import opened Wrappers
  import opened SfvTypes
  import opened SfvGrammar
  import opened SfvPrimitives
  import Base64

  lemma PrintableConcat(a: string, b: string)
    requires AllPrintable(a) && AllPrintable(b)
    ensures AllPrintable(a + b)
  {
    hide IsPrintable;
  }

  lemma TokenPrintable(t: string)
    requires IsToken(t)
    ensures AllPrintable(t)
  {
  }

  lemma {:induction false} EscapePrintable(s: string)
    requires AllPrintable(s)
    ensures AllPrintable(Escape(s))
  {
    if s != "" {
      EscapePrintable(s[1..]);
      PrintableConcat(EscapeChar(s[0]), Escape(s[1..]));
    }
  }

  lemma StringPrintable(s: string)
    requires AllPrintable(s)
    ensures AllPrintable(StringText(s))
  {
    EscapePrintable(s);
    hide Escape;
    PrintableConcat("\"", Escape(s));
    PrintableConcat("\"" + Escape(s), "\"");
  }

  lemma IntegerPrintable(i: int)
    ensures AllPrintable(FormatInt(i))
  {
    var n: nat := if i < 0 then -i else i;
    DecimalRoundTrip(n);
    hide Decimal, DecimalValue;
    assert AllPrintable(Decimal(n));
    PrintableConcat("-", Decimal(n));
  }

  lemma Base64Printable(bs: seq<Octet>)
    ensures AllPrintable(":" + Base64.Encode(bs, true) + ":")
  {
    EncodedIsBase64(bs, true);
    hide Base64.Encode;
    assert AllPrintable(Base64.Encode(bs, true));
    PrintableConcat(":", Base64.Encode(bs, true));
    PrintableConcat(":" + Base64.Encode(bs, true), ":");
  }

  lemma BareItemPrintable(v: BareItem, limits: Limits)
    requires FitsBareItem(v, limits)
    ensures AllPrintable(BareItemText(v))
  {
    hide StringText, FormatInt, Base64.Encode, IsToken;
    match v
    case Boolean(_) =>
    case Integer(n) => IntegerPrintable(n);
    case Str(s) => StringPrintable(s);
    case Token(t) => TokenPrintable(t);
    case ByteSequence(bs) => Base64Printable(bs);
  }

  lemma ParameterPrintable(p: Parameter, limits: Limits)
    requires FitsParameter(p, limits)
    ensures AllPrintable(ParameterText(p))
  {
    hide IsToken, BareItemText, FitsBareItem;
    TokenPrintable(p.key);
    BareItemPrintable(p.value, limits);
    PrintableConcat(";", p.key);
    PrintableConcat("=", BareItemText(p.value));
    PrintableConcat(";" + p.key, "=" + BareItemText(p.value));
    PrintableConcat(";" + p.key, "");
  }

  lemma {:induction false} ParametersPrintable(ps: seq<Parameter>, limits: Limits)
    requires forall i :: 0 <= i < |ps| ==> FitsParameter(ps[i], limits)
    ensures AllPrintable(ParametersText(ps))
  {
    hide ParameterText, FitsParameter;
    if ps != [] {
      ParameterPrintable(ps[0], limits);
      ParametersPrintable(ps[1..], limits);
      PrintableConcat(ParameterText(ps[0]), ParametersText(ps[1..]));
    }
  }

  lemma ItemPrintable(item: Item, limits: Limits)
    requires FitsItem(item, limits)
    ensures AllPrintable(ItemText(item))
  {
    hide BareItemText, ParametersText, FitsBareItem, FitsParameter;
    BareItemPrintable(item.value, limits);
    ParametersPrintable(item.parameters, limits);
    PrintableConcat(BareItemText(item.value), ParametersText(item.parameters));
  }

  lemma {:induction false} ItemsPrintable(items: seq<Item>, limits: Limits)
    requires FitsItems(items, limits)
    ensures AllPrintable(ItemsText(items))
  {
    hide ItemText, FitsItem;
    if items != [] {
      ItemPrintable(items[0], limits);
      ItemsPrintable(items[1..], limits);
      PrintableConcat(ItemText(items[0]), " ");
      PrintableConcat(ItemText(items[0]) + " ", ItemsText(items[1..]));
    }
  }

  lemma MemberPrintable(m: Member, limits: Limits)
    requires FitsMember(m, limits)
    ensures AllPrintable(MemberText(m))
  {
    hide ItemText, ItemsText, ParametersText, FitsItem, FitsParameter;
    match m
    case Single(item) => ItemPrintable(item, limits);
    case Inner(l) =>
      ItemsPrintable(l.items, limits);
      ParametersPrintable(l.parameters, limits);
      PrintableConcat("(", ItemsText(l.items));
      PrintableConcat("(" + ItemsText(l.items), ")");
      PrintableConcat("(" + ItemsText(l.items) + ")", ParametersText(l.parameters));
  }

  lemma EntryPrintable(key: string, value: Member, limits: Limits)
    requires FitsToken(key, limits) && FitsMember(value, limits)
    ensures AllPrintable(EntryText(key, value))
  {
    hide IsToken, MemberText, FitsMember;
    TokenPrintable(key);
    MemberPrintable(value, limits);
    PrintableConcat(key, "=");
    PrintableConcat(key + "=", MemberText(value));
  }

  lemma {:induction false} EntriesPrintable(keys: seq<string>, values: map<string, Member>, limits: Limits)
    requires forall i :: 0 <= i < |keys| ==>
               keys[i] in values && FitsToken(keys[i], limits) && FitsMember(values[keys[i]], limits)
    ensures AllPrintable(EntriesText(keys, values))
  {
    hide EntryText, FitsToken, FitsMember;
    if keys != [] {
      EntryPrintable(keys[0], values[keys[0]], limits);
      EntriesPrintable(keys[1..], values, limits);
      PrintableConcat(EntryText(keys[0], values[keys[0]]), ", ");
      PrintableConcat(EntryText(keys[0], values[keys[0]]) + ", ", EntriesText(keys[1..], values));
    }
  }

  lemma {:induction false} MembersPrintable(ms: seq<Member>, limits: Limits)
    requires forall i :: 0 <= i < |ms| ==> FitsMember(ms[i], limits)
    ensures AllPrintable(MembersText(ms))
  {
    hide MemberText, FitsMember;
    if ms != [] {
      MemberPrintable(ms[0], limits);
      MembersPrintable(ms[1..], limits);
      PrintableConcat(MemberText(ms[0]), ", ");
      PrintableConcat(MemberText(ms[0]) + ", ", MembersText(ms[1..]));
    }
  }
}
