/** What an equal signature base implies: the same components, the same signature
    parameters and, unless a value imitates a line next to it, the same values. */
module BaseInjectivity {
  import opened Wrappers
  import opened SfvTypes
  import opened SignatureTypes
  import opened SignatureInput
  import opened SignatureText
  import opened HttpMessage
  import opened FieldValues
  import opened IdentifierQuotes
  import opened Identifiers
  import opened LineCuts
  import opened SignatureBase
  import SfvGrammar
  import SfvPrintable
  import SfvRoundTrip

  /** Identifiers and parameters that have a text. */
  predicate Printed(cs: seq<Component>, p: SignatureParams) {
    FitsMember(Inner(InputList(cs, p)), NO_LIMITS)
  }

  /** And whose names need no escape, so that both printers agree on it. */
  predicate WellFormed(cs: seq<Component>, p: SignatureParams) {
    && Printed(cs, p)
    && AllPlain(cs)
    && forall i :: 0 <= i < |cs| ==> cs[i].kind == KindOf(cs[i].name)
  }

  // The line of parameters is printable

  lemma {:induction false} IdentifiersPrintable(cs: seq<Component>, limits: Limits)
    requires FitsItems(ToSfvItems(cs), limits)
    ensures AllPrintable(IdentifiersText(cs))
  {
    hide FitsItem, IdentifierText, AllPrintable, ToSfvItem;
    QuotePrintable();
    if cs != [] {
      assert ToSfvItems(cs)[1..] == ToSfvItems(cs[1..]);
      IdentifierPrintable(cs[0], limits);
      IdentifiersPrintable(cs[1..], limits);
      SfvPrintable.PrintableConcat(IdentifierText(cs[0]), " ");
      SfvPrintable.PrintableConcat(IdentifierText(cs[0]) + " ", IdentifiersText(cs[1..]));
    }
  }

  lemma ParamsValuePrintable(cs: seq<Component>, p: SignatureParams)
    requires Printed(cs, p)
    ensures AllPrintable(ParamsValue(cs, p))
  {
    hide FitsItem, FitsParameter, AllPrintable, IdentifiersText, MetadataText, ToSfvItems, ToSfvSignatureParams,
      SfvGrammar.ParametersText;
    IdentifiersPrintable(cs, NO_LIMITS);
    SfvPrintable.ParametersPrintable(ToSfvSignatureParams(p), NO_LIMITS);
    MetadataTexts(p);
    QuotePrintable();
    SfvPrintable.PrintableConcat("(", IdentifiersText(cs));
    SfvPrintable.PrintableConcat("(" + IdentifiersText(cs), ")");
    SfvPrintable.PrintableConcat("(" + IdentifiersText(cs) + ")", MetadataText(p));
  }

  lemma PrintableHasNoLf(s: string)
    requires AllPrintable(s)
    ensures NoLf(s)
  {
  }

  lemma NoLfConcat(a: string, b: string)
    requires NoLf(a) && NoLf(b)
    ensures NoLf(a + b)
  {
  }

  lemma PrefixHasNoLf()
    ensures NoLf(PARAMS_PREFIX) && NoLf(": ")
  {
  }

  lemma ParamsLineHasNoLf(cs: seq<Component>, p: SignatureParams)
    requires Printed(cs, p)
    ensures NoLf(ParamsLine(cs, p))
  {
    hide Printed, ParamsValue, AllPrintable, NoLf;
    ParamsValuePrintable(cs, p);
    PrintableHasNoLf(ParamsValue(cs, p));
    PrefixHasNoLf();
    NoLfConcat(PARAMS_PREFIX, ParamsValue(cs, p));
  }

  predicate AllNoLf(lines: seq<string>) {
    forall i :: 0 <= i < |lines| ==> NoLf(lines[i])
  }

  predicate IdentifiersHaveNoLf(cs: seq<Component>) {
    forall i :: 0 <= i < |cs| ==> NoLf(IdentifierText(cs[i]))
  }

  lemma ItemsHaveNoLf(cs: seq<Component>, limits: Limits)
    requires FitsItems(ToSfvItems(cs), limits)
    ensures IdentifiersHaveNoLf(cs)
  {
    hide FitsItem, IdentifierText, NoLf, AllPrintable, ToSfvItem;
    forall i | 0 <= i < |cs|
      ensures NoLf(IdentifierText(cs[i]))
    {
      assert FitsItem(ToSfvItems(cs)[i], limits);
      IdentifierPrintable(cs[i], limits);
      PrintableHasNoLf(IdentifierText(cs[i]));
    }
  }

  lemma LinesHaveNoLf(cs: seq<Component>, values: seq<string>)
    requires |cs| == |values| && IdentifiersHaveNoLf(cs) && AllNoLf(values)
    ensures AllNoLf(Lines(cs, values))
  {
    hide NoLf, IdentifierText;
    PrefixHasNoLf();
    forall i | 0 <= i < |cs|
      ensures NoLf(Lines(cs, values)[i])
    {
      NoLfConcat(IdentifierText(cs[i]), ": ");
      NoLfConcat(IdentifierText(cs[i]) + ": ", values[i]);
    }
  }

  // Joined lines determine their last line

  /** Behind the last LF the text is determined. */
  lemma AfterLastLf(a: string, last: string, b: string, other: string)
    requires NoLf(last) && NoLf(other)
    requires a + "\n" + last == b + "\n" + other
    ensures a == b && last == other
  {
    var s := a + "\n" + last;
    assert s[|a|] == '\n' && s[|b|] == '\n';
    assert forall i :: |a| < i < |s| ==> s[i] == last[i - |a| - 1];
    assert forall i :: |b| < i < |s| ==> s[i] == other[i - |b| - 1];
    assert |a| == |b|;
    assert a == s[..|a|] && b == s[..|b|];
    assert last == s[|a| + 1..] && other == s[|b| + 1..];
  }

  /** Before the first LF the text is determined. */
  lemma BeforeFirstLf(first: string, a: string, other: string, b: string)
    requires NoLf(first) && NoLf(other)
    requires first + "\n" + a == other + "\n" + b
    ensures first == other && a == b
  {
    var s := first + "\n" + a;
    assert s[|first|] == '\n' && s[|other|] == '\n';
    assert forall i :: 0 <= i < |first| ==> s[i] == first[i];
    assert forall i :: 0 <= i < |other| ==> s[i] == other[i];
    assert |first| == |other|;
    assert first == s[..|first|] && other == s[..|other|];
    assert a == s[|first| + 1..] && b == s[|other| + 1..];
  }

  lemma LfInside(a: string, b: string)
    ensures !NoLf(a + "\n" + b)
  {
    assert (a + "\n" + b)[|a|] == '\n';
  }

  lemma JoinLast(lines: seq<string>, last: string)
    ensures Join(lines + [last], "\n") == if lines == [] then last else Join(lines, "\n") + "\n" + last
  {
    if lines == [] {
      assert lines + [last] == [last];
    } else {
      JoinAppend(lines, last, "\n");
    }
  }

  /** Joined lines determine their last line, and whether there are others. */
  lemma LastLineIs(lines: seq<string>, last: string, others: seq<string>, other: string)
    requires NoLf(last) && NoLf(other)
    requires Join(lines + [last], "\n") == Join(others + [other], "\n")
    ensures last == other
    ensures (lines == [] <==> others == []) && Join(lines, "\n") == Join(others, "\n")
  {
    JoinLast(lines, last);
    JoinLast(others, other);
    hide NoLf;
    LfInside(Join(lines, "\n"), last);
    LfInside(Join(others, "\n"), other);
    if lines == [] || others == [] {
      NothingJoined();
      return;
    }
    hide Join;
    AfterLastLf(Join(lines, "\n"), last, Join(others, "\n"), other);
  }

  lemma NothingJoined()
    ensures Join([], "\n") == ""
  {
  }

  lemma {:induction false} JoinInjective(lines: seq<string>, others: seq<string>)
    requires AllNoLf(lines) && AllNoLf(others) && (lines == [] <==> others == [])
    requires Join(lines, "\n") == Join(others, "\n")
    ensures lines == others
  {
    hide NoLf;
    if lines == [] {
      return;
    }
    var a, b := Join(lines[1..], "\n"), Join(others[1..], "\n");
    LfInside(lines[0], a);
    LfInside(others[0], b);
    if |lines| > 1 && |others| > 1 {
      BeforeFirstLf(lines[0], a, others[0], b);
      JoinInjective(lines[1..], others[1..]);
    }
    assert lines == [lines[0]] + lines[1..];
    assert others == [others[0]] + others[1..];
  }

  // Components and parameters

  lemma ParamsValueIs(cs: seq<Component>, p: SignatureParams, limits: Limits)
    requires FitsMember(Inner(InputList(cs, p)), limits) && AllPlain(cs)
    ensures ParamsValue(cs, p) == SfvGrammar.InnerListText(InputList(cs, p))
  {
    hide FitsItem, FitsParameter, AllPlain, ToSfvItem, HasValues;
    forall i | 0 <= i < |cs|
      ensures HasValues(cs[i])
    {
      assert FitsItem(ToSfvItems(cs)[i], limits);
      ComponentHasValues(cs[i], limits);
    }
    PrintersAgree("", cs, p);
    hide ParamsValue, SfvGrammar.InnerListText, InputList;
    var a, b := SfvGrammar.InnerListText(InputList(cs, p)), ParamsValue(cs, p);
    assert ("" + "=" + a)[1..] == a && ("" + "=" + b)[1..] == b;
  }

  /** The components and parameters can be read off the value of @signature-params. */
  lemma ParamsValueDetermines(cs: seq<Component>, p: SignatureParams, ds: seq<Component>, q: SignatureParams)
    requires WellFormed(cs, p) && WellFormed(ds, q)
    requires ParamsValue(cs, p) == ParamsValue(ds, q)
    ensures cs == ds && p == q
  {
    hide FitsItems, FitsParameters, AllPlain, SfvGrammar.InnerListText, SfvGrammar.ParseInnerList,
      ToSfvItems, ToSfvSignatureParams, KindOf, ParamsValue;
    ParamsValueIs(cs, p, NO_LIMITS);
    ParamsValueIs(ds, q, NO_LIMITS);
    SfvRoundTrip.InnerListRoundTrip(InputList(cs, p), "", NO_LIMITS);
    SfvRoundTrip.InnerListRoundTrip(InputList(ds, q), "", NO_LIMITS);
    assert InputList(cs, p) == InputList(ds, q);
    ToSfvItemsInjective(cs, ds);
    ExtractSignatureParams(p);
    ExtractSignatureParams(q);
  }

  lemma ToSfvItemsInjective(cs: seq<Component>, ds: seq<Component>)
    requires ToSfvItems(cs) == ToSfvItems(ds)
    requires forall i :: 0 <= i < |cs| ==> cs[i].kind == KindOf(cs[i].name)
    requires forall i :: 0 <= i < |ds| ==> ds[i].kind == KindOf(ds[i].name)
    ensures cs == ds
  {
    hide KindOf;
    forall i | 0 <= i < |cs|
      ensures cs[i] == ds[i]
    {
      assert ToSfvItem(cs[i]) == ToSfvItem(ds[i]);
      ToSfvParametersInjective(cs[i].parameters, ds[i].parameters);
    }
  }

  lemma MetadataDetermines(p: SignatureParams, q: SignatureParams)
    requires FitsParameters(ToSfvSignatureParams(p), NO_LIMITS) && FitsParameters(ToSfvSignatureParams(q), NO_LIMITS)
    requires MetadataText(p) == MetadataText(q)
    ensures p == q
  {
    MetadataTexts(p);
    MetadataTexts(q);
    hide ToSfvSignatureParams, MetadataText, SfvGrammar.ParametersText, FitsParameter, SfvGrammar.ParseParameters;
    var a, b := ToSfvSignatureParams(p), ToSfvSignatureParams(q);
    SfvRoundTrip.ParametersRoundTrip(a, 0, "", NO_LIMITS);
    SfvRoundTrip.ParametersRoundTrip(b, 0, "", NO_LIMITS);
    ExtractSignatureParams(p);
    ExtractSignatureParams(q);
  }

  // Values

  /** What stands in front of a component's value, from the end of the line before. */
  function Separator(c: Component): string {
    "\n" + IdentifierText(c) + ": "
  }

  function Separators(cs: seq<Component>): (r: seq<string>)
    ensures |r| == |cs|
    ensures forall i :: 0 <= i < |cs| ==> r[i] == Separator(cs[i])
  {
    if cs == [] then [] else [Separator(cs[0])] + Separators(cs[1..])
  }

  /** No value imitates the beginning of the line it starts or of the next one. */
  ghost predicate Determined(cs: seq<Component>, values: seq<string>)
    requires |cs| == |values|
  {
    forall k :: 1 <= k < |cs| ==>
                  !Contains(values[k - 1], Separator(cs[k])) && !Contains(values[k], Separator(cs[k]))
  }

  lemma DeterminedIsUnambiguous(cs: seq<Component>, values: seq<string>)
    requires |cs| == |values| && cs != []
    ensures Determined(cs, values) <==> Unambiguous(Separators(cs[1..]), values)
  {
    hide Contains, Separator;
    var separators := Separators(cs[1..]);
    if Determined(cs, values) {
      forall k | 0 <= k < |separators|
        ensures !Contains(values[k], separators[k]) && !Contains(values[k + 1], separators[k])
      {
        assert separators[k] == Separator(cs[k + 1]) && values[(k + 1) - 1] == values[k];
      }
    }
    if Unambiguous(separators, values) {
      forall k | 1 <= k < |cs|
        ensures !Contains(values[k - 1], Separator(cs[k])) && !Contains(values[k], Separator(cs[k]))
      {
        assert separators[k - 1] == Separator(cs[k]) && values[(k - 1) + 1] == values[k];
      }
    }
  }

  lemma SeparatorsAre(cs: seq<Component>)
    requires IdentifiersHaveNoLf(cs) && cs != []
    ensures AllSeparators(Separators(cs[1..]))
  {
    hide IdentifierText;
    var separators := Separators(cs[1..]);
    forall k | 0 <= k < |separators|
      ensures IsSeparator(separators[k])
    {
      assert separators[k] == Separator(cs[k + 1]);
      IsLineStart(IdentifierText(cs[k + 1]));
    }
  }

  lemma IsLineStart(identifier: string)
    requires NoLf(identifier)
    ensures IsSeparator("\n" + identifier + ": ")
  {
  }

  lemma {:induction false} LinesAsCuts(cs: seq<Component>, values: seq<string>)
    requires |cs| == |values| && cs != []
    ensures Join(Lines(cs, values), "\n") == IdentifierText(cs[0]) + ": " + Joined(Separators(cs[1..]), values)
  {
    hide IdentifierText;
    var head := IdentifierText(cs[0]) + ": ";
    assert Lines(cs, values)[1..] == Lines(cs[1..], values[1..]);
    if |cs| > 1 {
      LinesAsCuts(cs[1..], values[1..]);
      var next := IdentifierText(cs[1]) + ": ";
      var rest := Joined(Separators(cs[2..]), values[1..]);
      assert cs[1..][1..] == cs[2..] && Separators(cs[1..])[1..] == Separators(cs[2..]);
      assert Joined(Separators(cs[1..]), values) == values[0] + ("\n" + IdentifierText(cs[1]) + ": ") + rest;
      hide Joined, Join, Lines, Separators;
      CutAssociates(head, values[0], next, rest);
      ConcatAssociates("\n", IdentifierText(cs[1]), ": ");
    }
  }

  lemma CutAssociates(head: string, value: string, next: string, rest: string)
    ensures head + value + "\n" + (next + rest) == head + (value + ("\n" + next) + rest)
  {
    ConcatAssociates(head, value + ("\n" + next), rest);
    ConcatAssociates(head, value, "\n" + next);
    ConcatAssociates(head + value, "\n", next);
    ConcatAssociates(head + value + "\n", next, rest);
  }

  /** Equal bases over the same components are equal joins of the values. */
  lemma BaseAsCuts(cs: seq<Component>, values: seq<string>, others: seq<string>, p: SignatureParams)
    requires |cs| == |values| == |others| && cs != []
    ensures BaseText(cs, values, p) == BaseText(cs, others, p) <==>
            Joined(Separators(cs[1..]), values) == Joined(Separators(cs[1..]), others)
  {
    hide ParamsLine, Joined, Separators, Join;
    var head := IdentifierText(cs[0]) + ": ";
    LinesAsCuts(cs, values);
    LinesAsCuts(cs, others);
    JoinLast(Lines(cs, values), ParamsLine(cs, p));
    JoinLast(Lines(cs, others), ParamsLine(cs, p));
    hide IdentifierText, Lines;
    var a, b := Joined(Separators(cs[1..]), values), Joined(Separators(cs[1..]), others);
    ConcatAssociates(head + a, "\n", ParamsLine(cs, p));
    ConcatAssociates(head + b, "\n", ParamsLine(cs, p));
    BetweenIsDetermined(head, a, b, "\n" + ParamsLine(cs, p));
  }

  lemma BetweenIsDetermined(head: string, a: string, b: string, end: string)
    ensures head + a + end == head + b + end <==> a == b
  {
    if head + a + end == head + b + end {
      assert |a| == |b|;
      assert (head + a + end)[|head|..|head| + |a|] == a;
      assert (head + b + end)[|head|..|head| + |b|] == b;
    }
  }

  /** Over the same components and parameters, the base determines the values exactly
      when none imitates the start of a line next to it. */
  lemma BaseDetermines(cs: seq<Component>, values: seq<string>, p: SignatureParams)
    requires |cs| == |values| && IdentifiersHaveNoLf(cs)
    ensures Determined(cs, values) <==>
            forall others: seq<string> ::
              |others| == |cs| && BaseText(cs, others, p) == BaseText(cs, values, p) ==> others == values
  {
    hide BaseText, Determined, Unambiguous, Joined, Separators, IdentifiersHaveNoLf, AllSeparators;
    if cs == [] {
      NothingIsDetermined(values);
      return;
    }
    SeparatorsAre(cs);
    DeterminedIsUnambiguous(cs, values);
    CutsDetermined(Separators(cs[1..]), values);
    forall others: seq<string> | |others| == |cs|
      ensures BaseText(cs, others, p) == BaseText(cs, values, p) <==>
              Joined(Separators(cs[1..]), others) == Joined(Separators(cs[1..]), values)
    {
      BaseAsCuts(cs, others, values, p);
    }
  }

  lemma NothingIsDetermined(values: seq<string>)
    requires |values| == 0
    ensures Determined([], values)
  {
  }

  lemma ValuesDetermined(cs: seq<Component>, values: seq<string>, others: seq<string>, p: SignatureParams)
    requires |cs| == |values| == |others| && IdentifiersHaveNoLf(cs) && Determined(cs, values)
    requires BaseText(cs, values, p) == BaseText(cs, others, p)
    ensures values == others
  {
    hide BaseText, Determined, IdentifiersHaveNoLf;
    BaseDetermines(cs, values, p);
  }

  /** Values without LF are determined. */
  lemma NoLfDetermined(cs: seq<Component>, values: seq<string>)
    requires |cs| == |values| && IdentifiersHaveNoLf(cs) && AllNoLf(values)
    ensures Determined(cs, values)
  {
    hide Determined, Unambiguous, Separators, IdentifiersHaveNoLf, NoLf, AllSeparators;
    if cs == [] {
      NothingIsDetermined(values);
    } else {
      SeparatorsAre(cs);
      NoLfUnambiguous(Separators(cs[1..]), values);
      DeterminedIsUnambiguous(cs, values);
    }
  }

  // Injectivity

  lemma ParamsLinesEqual(
    cs: seq<Component>, values: seq<string>, p: SignatureParams,
    ds: seq<Component>, others: seq<string>, q: SignatureParams)
    requires |cs| == |values| && |ds| == |others|
    requires Printed(cs, p) && Printed(ds, q)
    requires BaseText(cs, values, p) == BaseText(ds, others, q)
    ensures ParamsValue(cs, p) == ParamsValue(ds, q)
    ensures (cs == [] <==> ds == []) && Join(Lines(cs, values), "\n") == Join(Lines(ds, others), "\n")
  {
    ParamsLineHasNoLf(cs, p);
    ParamsLineHasNoLf(ds, q);
    hide NoLf, Printed, ParamsValue, Join;
    LastLineIs(Lines(cs, values), ParamsLine(cs, p), Lines(ds, others), ParamsLine(ds, q));
    hide Lines, ComponentLine;
    assert ParamsLine(cs, p)[|PARAMS_PREFIX|..] == ParamsValue(cs, p);
    assert ParamsLine(ds, q)[|PARAMS_PREFIX|..] == ParamsValue(ds, q);
  }

  /** The signature base is injective where names need no escape. An equal base forces the
      same components and signature parameters, whatever the values; and the same values
      too, when those on one side are determined. */
  lemma BaseInjective(
    cs: seq<Component>, values: seq<string>, p: SignatureParams,
    ds: seq<Component>, others: seq<string>, q: SignatureParams)
    requires |cs| == |values| && |ds| == |others|
    requires WellFormed(cs, p) && WellFormed(ds, q)
    requires BaseText(cs, values, p) == BaseText(ds, others, q)
    ensures cs == ds && p == q
    ensures Determined(cs, values) ==> values == others
  {
    hide BaseText, ParamsValue, Determined, FitsItems, FitsParameters, ToSfvItems, ToSfvSignatureParams, AllPlain,
      KindOf, IdentifiersHaveNoLf, Join, Lines;
    ParamsLinesEqual(cs, values, p, ds, others, q);
    ParamsValueDetermines(cs, p, ds, q);
    if Determined(cs, values) {
      ItemsHaveNoLf(cs, NO_LIMITS);
      ValuesDetermined(cs, values, others, p);
    }
  }

  // Any names

  /** What stands behind the first identifier on the line of parameters. */
  function BehindFirst(cs: seq<Component>, x: string): string
    requires cs != []
  {
    if |cs| == 1 then ")" + x else " " + (IdentifiersText(cs[1..]) + ")" + x)
  }

  lemma FirstOnParamsLine(cs: seq<Component>, x: string)
    requires cs != []
    ensures IdentifiersText(cs) + ")" + x == IdentifierText(cs[0]) + BehindFirst(cs, x)
    ensures BehindFirst(cs, x) != "" && (BehindFirst(cs, x)[0] == ' ' || BehindFirst(cs, x)[0] == ')')
  {
    hide IdentifierText;
    var first := IdentifierText(cs[0]);
    if |cs| == 1 {
      ConcatAssociates(first, ")", x);
    } else {
      var rest := IdentifiersText(cs[1..]);
      ConcatAssociates(first, " ", rest);
      ConcatAssociates(first, " " + rest, ")");
      ConcatAssociates(first, " " + rest + ")", x);
      ConcatAssociates(" ", rest, ")");
      ConcatAssociates(" ", rest + ")", x);
    }
  }

  /** A longer identifier would need ':' behind the shorter one on its own line, but a
      space or a parenthesis on the line of parameters. */
  lemma IdentifierDetermined(a: string, v: string, x: string, b: string, w: string, y: string)
    requires a + ": " + v == b + ": " + w && a + x == b + y
    requires x != "" && y != "" && x[0] != ':' && y[0] != ':'
    ensures a == b && v == w && x == y
  {
    assert (a + ": " + v)[|a|] == ':' && (b + ": " + w)[|b|] == ':';
    assert (a + x)[|a|] == x[0] && (b + y)[|b|] == y[0];
    assert forall i :: 0 <= i < |a| ==> (a + ": " + v)[i] == (a + x)[i];
    assert forall i :: 0 <= i < |b| ==> (b + ": " + w)[i] == (b + y)[i];
    assert |a| == |b|;
    assert (a + x)[..|a|] == a && (b + y)[..|b|] == b;
    assert (a + x)[|a|..] == x && (b + y)[|b|..] == y;
    assert (a + ": " + v)[|a| + 2..] == v && (b + ": " + w)[|b| + 2..] == w;
  }

  predicate SameIdentifiers(cs: seq<Component>, ds: seq<Component>) {
    |cs| == |ds| && forall i :: 0 <= i < |cs| ==> IdentifierText(cs[i]) == IdentifierText(ds[i])
  }

  lemma {:induction false} IdentifiersDetermined(
    cs: seq<Component>, values: seq<string>, x: string, ds: seq<Component>, others: seq<string>, y: string)
    requires |cs| == |values| == |ds| == |others|
    requires Lines(cs, values) == Lines(ds, others)
    requires IdentifiersText(cs) + ")" + x == IdentifiersText(ds) + ")" + y
    ensures SameIdentifiers(cs, ds) && values == others && x == y
  {
    hide IdentifierText, Lines, BehindFirst, IdentifiersText, SameIdentifiers, ComponentLine;
    if cs == [] {
      NothingListed(x, y);
      return;
    }
    FirstOnParamsLine(cs, x);
    FirstOnParamsLine(ds, y);
    FirstLine(cs, values);
    FirstLine(ds, others);
    LineIs(cs[0], values[0], ds[0], others[0]);
    IdentifierDetermined(
      IdentifierText(cs[0]), values[0], BehindFirst(cs, x), IdentifierText(ds[0]), others[0], BehindFirst(ds, y));
    BehindFirstDetermined(cs, x, ds, y);
    IdentifiersDetermined(cs[1..], values[1..], x, ds[1..], others[1..], y);
    assert values == [values[0]] + values[1..] && others == [others[0]] + others[1..];
    SameIdentifiersStep(cs, ds);
  }

  lemma NothingListed(x: string, y: string)
    ensures SameIdentifiers([], [])
    ensures IdentifiersText([]) + ")" + x == IdentifiersText([]) + ")" + y ==> x == y
  {
    assert ("" + ")" + x)[1..] == x && ("" + ")" + y)[1..] == y;
  }

  lemma FirstLine(cs: seq<Component>, values: seq<string>)
    requires |cs| == |values| > 0
    ensures Lines(cs, values)[0] == ComponentLine(cs[0], values[0])
    ensures Lines(cs, values)[1..] == Lines(cs[1..], values[1..])
  {
    hide ComponentLine;
  }

  lemma LineIs(c: Component, v: string, d: Component, w: string)
    ensures ComponentLine(c, v) == IdentifierText(c) + ": " + v && ComponentLine(d, w) == IdentifierText(d) + ": " + w
  {
  }

  lemma SameIdentifiersStep(cs: seq<Component>, ds: seq<Component>)
    requires cs != [] && ds != []
    requires IdentifierText(cs[0]) == IdentifierText(ds[0]) && SameIdentifiers(cs[1..], ds[1..])
    ensures SameIdentifiers(cs, ds)
  {
    hide IdentifierText;
    forall i | 0 < i < |cs|
      ensures IdentifierText(cs[i]) == IdentifierText(ds[i])
    {
      assert cs[1..][i - 1] == cs[i] && ds[1..][i - 1] == ds[i];
    }
  }

  lemma BehindFirstDetermined(cs: seq<Component>, x: string, ds: seq<Component>, y: string)
    requires |cs| == |ds| > 0 && BehindFirst(cs, x) == BehindFirst(ds, y)
    ensures IdentifiersText(cs[1..]) + ")" + x == IdentifiersText(ds[1..]) + ")" + y
  {
    hide IdentifierText;
    if |cs| == 1 {
      assert (")" + x)[1..] == x && (")" + y)[1..] == y;
    } else {
      var a, b := IdentifiersText(cs[1..]) + ")" + x, IdentifiersText(ds[1..]) + ")" + y;
      hide IdentifiersText;
      assert (" " + a)[1..] == a && (" " + b)[1..] == b;
    }
  }

  lemma SameParamsValues(cs: seq<Component>, p: SignatureParams, ds: seq<Component>, q: SignatureParams)
    requires ParamsValue(cs, p) == ParamsValue(ds, q)
    ensures IdentifiersText(cs) + ")" + MetadataText(p) == IdentifiersText(ds) + ")" + MetadataText(q)
  {
    hide IdentifiersText, MetadataText;
    var a, b := IdentifiersText(cs), IdentifiersText(ds);
    ConcatAssociates("(", a, ")");
    ConcatAssociates("(", a + ")", MetadataText(p));
    ConcatAssociates("(", b, ")");
    ConcatAssociates("(", b + ")", MetadataText(q));
    assert ("(" + (a + ")" + MetadataText(p)))[1..] == a + ")" + MetadataText(p);
    assert ("(" + (b + ")" + MetadataText(q)))[1..] == b + ")" + MetadataText(q);
  }

  lemma ItemsAreProper(cs: seq<Component>, p: SignatureParams, i: nat)
    requires Printed(cs, p) && i < |cs| && cs[i].kind == KindOf(cs[i].name)
    ensures Proper(cs[i])
  {
    hide FitsItem, FitsParameters, KindOf, ToSfvItem, ToSfvSignatureParams;
    assert FitsItem(ToSfvItems(cs)[i], NO_LIMITS);
  }

  /** Whatever the names, when no value has an LF: an equal base forces identifiers that
      print alike, one by one, the same values and the same signature parameters; so the
      same component wherever one of the two is unmistakable. */
  lemma BaseInjectiveAnyNames(
    cs: seq<Component>, values: seq<string>, p: SignatureParams,
    ds: seq<Component>, others: seq<string>, q: SignatureParams)
    requires |cs| == |values| && |ds| == |others|
    requires Printed(cs, p) && Printed(ds, q) && AllNoLf(values) && AllNoLf(others)
    requires BaseText(cs, values, p) == BaseText(ds, others, q)
    ensures SameIdentifiers(cs, ds) && values == others && p == q
    ensures SameWhereUnmistakable(cs, ds)
    ensures WellFormed(cs, p) && WellFormed(ds, q) ==> cs == ds
  {
    hide BaseText, ParamsValue, FitsItems, FitsParameters, ToSfvItems, ToSfvSignatureParams, WellFormed, AllNoLf,
      IdentifiersHaveNoLf, IdentifiersText, MetadataText, SameIdentifiers, Join, Lines, SameWhereUnmistakable;
    ParamsLinesEqual(cs, values, p, ds, others, q);
    ItemsHaveNoLf(cs, NO_LIMITS);
    ItemsHaveNoLf(ds, NO_LIMITS);
    LinesHaveNoLf(cs, values);
    LinesHaveNoLf(ds, others);
    JoinInjective(Lines(cs, values), Lines(ds, others));
    SameParamsValues(cs, p, ds, q);
    IdentifiersDetermined(cs, values, MetadataText(p), ds, others, MetadataText(q));
    MetadataDetermines(p, q);
    UnmistakableAreSame(cs, p, ds, q);
    if WellFormed(cs, p) && WellFormed(ds, q) {
      ParamsValueDetermines(cs, p, ds, q);
    }
  }

  /** The type of a component that was parsed is the one its name says. */
  ghost predicate SameWhereUnmistakable(cs: seq<Component>, ds: seq<Component>) {
    |cs| == |ds|
    && forall i :: 0 <= i < |cs|
                   && (Unmistakable(cs[i], ValidComponent(ds[i])) || Unmistakable(ds[i], ValidComponent(cs[i])))
                   && cs[i].kind == KindOf(cs[i].name) && ds[i].kind == KindOf(ds[i].name) ==>
                     cs[i] == ds[i]
  }

  lemma UnmistakableAreSame(cs: seq<Component>, p: SignatureParams, ds: seq<Component>, q: SignatureParams)
    requires Printed(cs, p) && Printed(ds, q) && SameIdentifiers(cs, ds)
    ensures SameWhereUnmistakable(cs, ds)
  {
    hide Printed, KindOf, Unmistakable, IdentifierText, Proper, ValidComponent;
    forall i | 0 <= i < |cs|
               && (Unmistakable(cs[i], ValidComponent(ds[i])) || Unmistakable(ds[i], ValidComponent(cs[i])))
               && cs[i].kind == KindOf(cs[i].name) && ds[i].kind == KindOf(ds[i].name)
      ensures cs[i] == ds[i]
    {
      ItemsAreProper(cs, p, i);
      ItemsAreProper(ds, q, i);
      if Unmistakable(cs[i], ValidComponent(ds[i])) {
        UnmistakableDetermines(cs[i], ds[i]);
      } else {
        UnmistakableDetermines(ds[i], cs[i]);
      }
    }
  }

  // Messages

  /** Two messages with one base agree on every covered component, when the values of one
      are determined. */
  lemma SameBaseSameValues(
    m: Message, cs: seq<Component>, p: SignatureParams, n: Message, ds: seq<Component>, q: SignatureParams)
    requires WellFormed(cs, p) && WellFormed(ds, q)
    requires BuildText(m, cs, p).Some? && BuildText(m, cs, p) == BuildText(n, ds, q)
    requires Determined(cs, Values(m, cs).value)
    ensures cs == ds && p == q
    ensures forall i :: 0 <= i < |cs| ==> ComponentValue(m, cs[i]) == ComponentValue(n, cs[i])
  {
    hide WellFormed, BaseText, ComponentValue, Determined;
    BaseInjective(cs, Values(m, cs).value, p, ds, Values(n, ds).value, q);
  }

  /** The value cannot break a line: it is a field's, or it has no LF. */
  ghost predicate KeepsToOneLine(msg: Message, c: Component) {
    c.kind == Field || (ComponentValue(msg, c).Some? ==> NoLf(ComponentValue(msg, c).value))
  }

  ghost predicate OneLineEach(msg: Message, cs: seq<Component>) {
    forall i :: 0 <= i < |cs| ==> KeepsToOneLine(msg, cs[i])
  }

  lemma ValuesHaveNoLf(m: Message, cs: seq<Component>)
    requires Values(m, cs).Some? && OneLineEach(m, cs)
    ensures AllNoLf(Values(m, cs).value)
  {
    hide ComponentValue, NoLf;
    var values := Values(m, cs).value;
    forall i | 0 <= i < |cs|
      ensures NoLf(values[i])
    {
      assert ComponentValue(m, cs[i]) == Some(values[i]) && KeepsToOneLine(m, cs[i]);
      if cs[i].kind == Field {
        FieldHasNoLf(m, cs[i]);
      }
    }
  }

  lemma FieldHasNoLf(m: Message, c: Component)
    requires c.kind == Field && ComponentValue(m, c).Some?
    ensures NoLf(ComponentValue(m, c).value)
  {
    hide FieldValue, HasReq, WithoutReq;
    if HasReq(c.parameters) {
      FieldValueHasNoNewline(RequestMessage(RelatedRequest(m).value), c.(parameters := WithoutReq(c.parameters)));
    } else {
      FieldValueHasNoNewline(m, c);
    }
  }

  /** Two messages with one base agree on every covered component, whatever the names, when
      all values keep to one line. */
  lemma SameBaseAnyNames(
    m: Message, cs: seq<Component>, p: SignatureParams, n: Message, ds: seq<Component>, q: SignatureParams)
    requires Printed(cs, p) && Printed(ds, q) && OneLineEach(m, cs) && OneLineEach(n, ds)
    requires BuildText(m, cs, p).Some? && BuildText(m, cs, p) == BuildText(n, ds, q)
    ensures SameIdentifiers(cs, ds) && p == q
    ensures forall i :: 0 <= i < |cs| ==> ComponentValue(m, cs[i]) == ComponentValue(n, ds[i])
    ensures SameWhereUnmistakable(cs, ds)
    ensures WellFormed(cs, p) && WellFormed(ds, q) ==> cs == ds
  {
    hide Printed, BaseText, ComponentValue, OneLineEach, WellFormed, AllNoLf, IdentifierText, SameWhereUnmistakable;
    ValuesHaveNoLf(m, cs);
    ValuesHaveNoLf(n, ds);
    BaseInjectiveAnyNames(cs, Values(m, cs).value, p, ds, Values(n, ds).value, q);
  }
}
