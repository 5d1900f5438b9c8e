/** The serializer: methods that append to a string builder, proved to append the
    grammar's text, and to fail exactly for values that have none. */
module SfvWriter {
  import opened Wrappers
  import opened SfvTypes
  import opened SfvGrammar
  import Base64

  class StringBuilder {
    var contents: string

    constructor ()
      ensures contents == ""
    {
      contents := "";
    }

    method WriteString(s: string)
      modifies this
      ensures contents == old(contents) + s
    {
      contents := contents + s;
    }
  }

  // Loops that append: what is still to be written

  /** With `left` behind the contents, `whole` will have been written behind `start`. */
  ghost predicate Pending(contents: string, left: string, start: string, whole: string) {
    contents + left == start + whole
  }

  lemma PendingAll(start: string, whole: string)
    ensures Pending(start, whole, start, whole)
  {
  }

  lemma PendingStep(contents: string, piece: string, rest: string, start: string, whole: string)
    requires Pending(contents, piece + rest, start, whole)
    ensures Pending(contents + piece, rest, start, whole)
  {
    ConcatAssociates(contents, piece, rest);
  }

  lemma PendingNone(contents: string, start: string, whole: string)
    requires Pending(contents, "", start, whole)
    ensures contents == start + whole
  {
    assert contents + "" == contents;
  }

  /** The separator in front of every element but the first. */
  function Lead(i: nat, separator: string): string {
    if i > 0 then separator else ""
  }

  method WriteLead(sb: StringBuilder, i: nat, separator: string)
    modifies sb
    ensures sb.contents == old(sb.contents) + Lead(i, separator)
  {
    if i > 0 {
      sb.WriteString(separator);
    } else {
      NothingAdded(sb.contents);
    }
  }

  method WriteEscaped(sb: StringBuilder, c: char)
    modifies sb
    ensures sb.contents == old(sb.contents) + EscapeChar(c)
  {
    if c == '\\' || c == '"' {
      sb.WriteString("\\");
    }
    sb.WriteString([c]);
  }

  lemma EscapeStep(s: string, i: nat)
    requires i < |s|
    ensures Escape(s[i..]) == EscapeChar(s[i]) + Escape(s[i + 1..])
  {
    hide EscapeChar;
    assert s[i..][1..] == s[i + 1..];
  }

  lemma EscapeEnds(s: string)
    ensures s[0..] == s && Escape(s[|s|..]) == ""
  {
  }

  method WriteQuoted(sb: StringBuilder, s: string)
    modifies sb
    ensures sb.contents == old(sb.contents) + StringText(s)
  {
    hide Escape, EscapeChar, Pending;
    sb.WriteString("\"");
    ghost var start := sb.contents;
    EscapeEnds(s);
    PendingAll(start, Escape(s));
    for i := 0 to |s|
      invariant Pending(sb.contents, Escape(s[i..]), start, Escape(s))
    {
      EscapeStep(s, i);
      PendingStep(sb.contents, EscapeChar(s[i]), Escape(s[i + 1..]), start, Escape(s));
      WriteEscaped(sb, s[i]);
    }
    PendingNone(sb.contents, start, Escape(s));
    sb.WriteString("\"");
    ConcatAssociates(old(sb.contents), "\"", Escape(s));
    ConcatAssociates(old(sb.contents), "\"" + Escape(s), "\"");
  }

  method WriteBareItem(sb: StringBuilder, v: BareItem) returns (ok: bool)
    modifies sb
    ensures ok == !v.Unsupported?
    ensures ok ==> sb.contents == old(sb.contents) + BareItemText(v)
  {
    hide Base64.Encode, FormatInt;
    match v {
      case Boolean(b) =>
        if b {
          sb.WriteString("?1");
        } else {
          sb.WriteString("?0");
        }
      case Integer(n) =>
        sb.WriteString(FormatInt(n));
      case Token(t) =>
        sb.WriteString(t);
      case Str(s) =>
        WriteQuoted(sb, s);
      case ByteSequence(bs) =>
        sb.WriteString(":");
        sb.WriteString(Base64.Encode(bs, true));
        sb.WriteString(":");
      case Unsupported =>
        return false;
    }
    return true;
  }

  method WriteParameter(sb: StringBuilder, param: Parameter) returns (ok: bool)
    modifies sb
    ensures ok == !param.value.Unsupported?
    ensures ok ==> sb.contents == old(sb.contents) + ParameterText(param)
  {
    hide BareItemText;
    sb.WriteString(";");
    sb.WriteString(param.key);
    ok := true;
    if param.value != Boolean(true) {
      sb.WriteString("=");
      ok := WriteBareItem(sb, param.value);
    }
  }

  lemma ParametersStep(params: seq<Parameter>, i: nat)
    requires i < |params|
    ensures ParametersText(params[i..]) == ParameterText(params[i]) + ParametersText(params[i + 1..])
  {
    hide ParameterText;
    assert params[i..][1..] == params[i + 1..];
  }

  lemma ParametersEnd(params: seq<Parameter>)
    ensures params[0..] == params && ParametersText(params[|params|..]) == ""
  {
    hide ParameterText;
  }

  method WriteParameters(sb: StringBuilder, params: seq<Parameter>) returns (ok: bool)
    modifies sb
    ensures ok == PrintsParameters(params)
    ensures ok ==> sb.contents == old(sb.contents) + ParametersText(params)
  {
    hide ParameterText, ParametersText, Pending;
    ghost var start, whole := sb.contents, ParametersText(params);
    ParametersEnd(params);
    PendingAll(start, whole);
    for i := 0 to |params|
      invariant forall j :: 0 <= j < i ==> !params[j].value.Unsupported?
      invariant Pending(sb.contents, ParametersText(params[i..]), start, whole)
    {
      ParametersStep(params, i);
      PendingStep(sb.contents, ParameterText(params[i]), ParametersText(params[i + 1..]), start, whole);
      ok := WriteParameter(sb, params[i]);
      if !ok {
        return;
      }
    }
    PendingNone(sb.contents, start, whole);
    ok := true;
  }

  method WriteItem(sb: StringBuilder, item: Item) returns (ok: bool)
    modifies sb
    ensures ok == PrintsItem(item)
    ensures ok ==> sb.contents == old(sb.contents) + ItemText(item)
  {
    hide BareItemText, ParametersText, PrintsParameters;
    ok := WriteBareItem(sb, item.value);
    if !ok {
      return;
    }
    if |item.parameters| == 0 {
      NoParameters(sb.contents);
      NoParameters(BareItemText(item.value));
      return;
    }
    ok := WriteParameters(sb, item.parameters);
    ConcatAssociates(old(sb.contents), BareItemText(item.value), ParametersText(item.parameters));
  }

  /** The items not yet written, with the separator in front of all but the first. */
  ghost function ItemsLeft(items: seq<Item>, i: nat): string
    requires i <= |items|
  {
    (if 0 < i < |items| then " " else "") + ItemsText(items[i..])
  }

  lemma ItemsLeftStep(items: seq<Item>, i: nat)
    requires i < |items|
    ensures ItemsLeft(items, i) == Lead(i, " ") + (ItemText(items[i]) + ItemsLeft(items, i + 1))
  {
    hide ItemText;
    assert items[i..][1..] == items[i + 1..];
    if i + 1 < |items| {
      ConcatAssociates(ItemText(items[i]), " ", ItemsText(items[i + 1..]));
    } else {
      NothingAdded(ItemText(items[i]));
    }
  }

  lemma ItemsLeftEnds(items: seq<Item>)
    ensures ItemsLeft(items, 0) == ItemsText(items) && ItemsLeft(items, |items|) == ""
  {
    hide ItemText;
  }

  method WriteItems(sb: StringBuilder, items: seq<Item>) returns (ok: bool)
    modifies sb
    ensures ok == forall i :: 0 <= i < |items| ==> PrintsItem(items[i])
    ensures ok ==> sb.contents == old(sb.contents) + ItemsText(items)
  {
    hide ItemText, PrintsItem, ItemsText, ItemsLeft, Pending, Lead;
    ghost var start, whole := sb.contents, ItemsText(items);
    ItemsLeftEnds(items);
    PendingAll(start, whole);
    for i := 0 to |items|
      invariant forall j :: 0 <= j < i ==> PrintsItem(items[j])
      invariant Pending(sb.contents, ItemsLeft(items, i), start, whole)
    {
      ItemsLeftStep(items, i);
      PendingStep(sb.contents, Lead(i, " "), ItemText(items[i]) + ItemsLeft(items, i + 1), start, whole);
      WriteLead(sb, i, " ");
      PendingStep(sb.contents, ItemText(items[i]), ItemsLeft(items, i + 1), start, whole);
      ok := WriteItem(sb, items[i]);
      if !ok {
        return;
      }
    }
    PendingNone(sb.contents, start, whole);
    ok := true;
  }

  method WriteInnerList(sb: StringBuilder, list: InnerList) returns (ok: bool)
    modifies sb
    ensures ok == PrintsMember(Inner(list))
    ensures ok ==> sb.contents == old(sb.contents) + InnerListText(list)
  {
    hide PrintsItem, PrintsParameters, ItemsText, ParametersText;
    sb.WriteString("(");
    ok := WriteItems(sb, list.items);
    if !ok {
      return;
    }
    sb.WriteString(")");
    ghost var items := "(" + ItemsText(list.items) + ")";
    ConcatAssociates(old(sb.contents), "(", ItemsText(list.items));
    ConcatAssociates(old(sb.contents), "(" + ItemsText(list.items), ")");
    if |list.parameters| == 0 {
      NoParameters(old(sb.contents) + items);
      return;
    }
    ok := WriteParameters(sb, list.parameters);
    ConcatAssociates(old(sb.contents), items, ParametersText(list.parameters));
  }

  lemma NoParameters(text: string)
    ensures PrintsParameters([]) && ParametersText([]) == "" && text + "" == text
  {
  }

  /** The type switch of writeDictionary and writeList. */
  method WriteMember(sb: StringBuilder, m: Member) returns (ok: bool)
    modifies sb
    ensures ok == PrintsMember(m)
    ensures ok ==> sb.contents == old(sb.contents) + MemberText(m)
  {
    hide PrintsItem, ItemText, InnerListText;
    match m {
      case Single(item) =>
        ok := WriteItem(sb, item);
      case Inner(list) =>
        ok := WriteInnerList(sb, list);
    }
  }

  ghost function EntriesLeft(d: Dictionary, i: nat): string
    requires i <= |d.keys|
  {
    (if 0 < i < |d.keys| then ", " else "") + EntriesText(d.keys[i..], d.values)
  }

  lemma EntriesLeftStep(d: Dictionary, i: nat)
    requires i < |d.keys|
    ensures EntriesLeft(d, i) == Lead(i, ", ") + (EntryTextIn(d.keys[i], d.values) + EntriesLeft(d, i + 1))
  {
    hide EntryTextIn;
    assert d.keys[i..][1..] == d.keys[i + 1..];
    if i + 1 < |d.keys| {
      ConcatAssociates(EntryTextIn(d.keys[i], d.values), ", ", EntriesText(d.keys[i + 1..], d.values));
    } else {
      NothingAdded(EntryTextIn(d.keys[i], d.values));
    }
  }

  lemma EntriesLeftEnds(d: Dictionary)
    ensures EntriesLeft(d, 0) == DictionaryText(d) && EntriesLeft(d, |d.keys|) == ""
  {
    hide EntryTextIn;
  }

  /** A key without a value is an invalid dictionary value to the source; the key alone
      stands for true without parameters. */
  method WriteEntry(sb: StringBuilder, key: string, values: map<string, Member>) returns (ok: bool)
    modifies sb
    ensures ok == (key in values && PrintsMember(values[key]))
    ensures ok ==> sb.contents == old(sb.contents) + EntryTextIn(key, values)
  {
    hide MemberText;
    sb.WriteString(key);
    if key !in values {
      return false;
    }
    if values[key] == Single(Item(Boolean(true), [])) {
      return true;
    }
    hide PrintsMember;
    sb.WriteString("=");
    ok := WriteMember(sb, values[key]);
    ConcatAssociates(old(sb.contents), key, "=");
    ConcatAssociates(old(sb.contents), key + "=", MemberText(values[key]));
  }

  method WriteDictionary(sb: StringBuilder, d: Dictionary) returns (ok: bool)
    modifies sb
    ensures ok == PrintsDictionary(d)
    ensures ok ==> sb.contents == old(sb.contents) + DictionaryText(d)
  {
    hide PrintsMember, EntryTextIn, EntriesLeft, DictionaryText, Pending, Lead;
    ghost var start, whole := sb.contents, DictionaryText(d);
    EntriesLeftEnds(d);
    PendingAll(start, whole);
    for i := 0 to |d.keys|
      invariant forall j :: 0 <= j < i ==> d.keys[j] in d.values && PrintsMember(d.values[d.keys[j]])
      invariant Pending(sb.contents, EntriesLeft(d, i), start, whole)
    {
      EntriesLeftStep(d, i);
      ghost var text := EntryTextIn(d.keys[i], d.values);
      PendingStep(sb.contents, Lead(i, ", "), text + EntriesLeft(d, i + 1), start, whole);
      WriteLead(sb, i, ", ");
      PendingStep(sb.contents, text, EntriesLeft(d, i + 1), start, whole);
      ok := WriteEntry(sb, d.keys[i], d.values);
      if !ok {
        return;
      }
    }
    PendingNone(sb.contents, start, whole);
    ok := true;
  }

  ghost function MembersLeft(ms: seq<Member>, i: nat): string
    requires i <= |ms|
  {
    (if 0 < i < |ms| then ", " else "") + MembersText(ms[i..])
  }

  lemma MembersLeftStep(ms: seq<Member>, i: nat)
    requires i < |ms|
    ensures MembersLeft(ms, i) == Lead(i, ", ") + (MemberText(ms[i]) + MembersLeft(ms, i + 1))
  {
    hide MemberText;
    assert ms[i..][1..] == ms[i + 1..];
    if i + 1 < |ms| {
      ConcatAssociates(MemberText(ms[i]), ", ", MembersText(ms[i + 1..]));
    } else {
      NothingAdded(MemberText(ms[i]));
    }
  }

  lemma MembersLeftEnds(ms: seq<Member>)
    ensures MembersLeft(ms, 0) == MembersText(ms) && MembersLeft(ms, |ms|) == ""
  {
    hide MemberText;
  }

  method WriteList(sb: StringBuilder, l: List) returns (ok: bool)
    modifies sb
    ensures ok == PrintsList(l)
    ensures ok ==> sb.contents == old(sb.contents) + MembersText(l.members)
  {
    hide MemberText, PrintsMember, MembersText, MembersLeft, Pending, Lead;
    ghost var start, whole := sb.contents, MembersText(l.members);
    MembersLeftEnds(l.members);
    PendingAll(start, whole);
    for i := 0 to |l.members|
      invariant forall j :: 0 <= j < i ==> PrintsMember(l.members[j])
      invariant Pending(sb.contents, MembersLeft(l.members, i), start, whole)
    {
      MembersLeftStep(l.members, i);
      ghost var text := MemberText(l.members[i]);
      PendingStep(sb.contents, Lead(i, ", "), text + MembersLeft(l.members, i + 1), start, whole);
      WriteLead(sb, i, ", ");
      PendingStep(sb.contents, text, MembersLeft(l.members, i + 1), start, whole);
      ok := WriteMember(sb, l.members[i]);
      if !ok {
        return;
      }
    }
    PendingNone(sb.contents, start, whole);
    ok := true;
  }

  method SerializeItem(item: Item) returns (r: Option<string>)
    ensures r == if PrintsItem(item) then Some(ItemText(item)) else None
  {
    hide PrintsItem, ItemText;
    var sb := new StringBuilder();
    var ok := WriteItem(sb, item);
    NothingAdded(ItemText(item));
    return if ok then Some(sb.contents) else None;
  }

  method SerializeInnerList(list: InnerList) returns (r: Option<string>)
    ensures r == if PrintsMember(Inner(list)) then Some(InnerListText(list)) else None
  {
    hide PrintsMember, InnerListText;
    var sb := new StringBuilder();
    var ok := WriteInnerList(sb, list);
    NothingAdded(InnerListText(list));
    return if ok then Some(sb.contents) else None;
  }

  method SerializeDictionary(d: Dictionary) returns (r: Option<string>)
    ensures r == if PrintsDictionary(d) then Some(DictionaryText(d)) else None
  {
    hide PrintsMember;
    if |d.keys| == 0 {
      return Some("");
    }
    hide PrintsDictionary;
    var sb := new StringBuilder();
    var ok := WriteDictionary(sb, d);
    NothingAdded(DictionaryText(d));
    return if ok then Some(sb.contents) else None;
  }

  method SerializeList(l: List) returns (r: Option<string>)
    ensures r == if PrintsList(l) then Some(MembersText(l.members)) else None
  {
    hide PrintsMember;
    if |l.members| == 0 {
      return Some("");
    }
    hide PrintsList;
    var sb := new StringBuilder();
    var ok := WriteList(sb, l);
    NothingAdded(MembersText(l.members));
    return if ok then Some(sb.contents) else None;
  }

  method SerializeString(s: string) returns (r: string)
    ensures r == StringText(s)
  {
    var sb := new StringBuilder();
    WriteQuoted(sb, s);
    NothingAdded(StringText(s));
    r := sb.contents;
  }
}
