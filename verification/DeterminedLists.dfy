/** Which lists of components have a base that is no other list's, whatever they are signed
    with: the conditions under which clear components are determined are exact. */
module DeterminedLists {
  import opened Wrappers
  import opened SfvTypes
  import opened SignatureTypes
  import opened SignatureInput
  import opened SignatureText
  import opened IdentifierQuotes
  import opened Identifiers
  import opened LineCuts
  import opened SignatureBase
  import opened BaseInjectivity
  import opened BaseCollisions
  import opened ClearComponents
  import SfvPrintable

  /** Signed with any values without LF, the base is that of no other list a parser can
      return, with any values, and of no other values or signature parameters. */
  ghost predicate AlwaysDetermined(cs: seq<Component>, p: SignatureParams) {
    forall values, ds, others, q ::
      && |cs| == |values| && |ds| == |others| && AllNoLf(values)
      && Printed(ds, q) && AllParsed(ds)
      && BaseText(cs, values, p) == BaseText(ds, others, q)
      ==> cs == ds && values == others && p == q
  }

  /** What a parser can return, with signature parameters that have a text. */
  predicate CanBeParsed(cs: seq<Component>, p: SignatureParams) {
    Printed(cs, p) && AllParsed(cs)
  }

  lemma CanBeParsedParts(cs: seq<Component>, p: SignatureParams)
    ensures CanBeParsed(cs, p) <==>
            (forall i :: 0 <= i < |cs| ==> Proper(cs[i]) && ValidComponent(cs[i]))
            && FitsParameters(ToSfvSignatureParams(p), NO_LIMITS)
  {
    hide FitsItem, FitsParameters, ToSfvItem, ToSfvSignatureParams, ValidComponent, KindOf;
    assert FitsItems(ToSfvItems(cs), NO_LIMITS) <==>
           forall i :: 0 <= i < |cs| ==> FitsItem(ToSfvItem(cs[i]), NO_LIMITS) by {
      assert forall i :: 0 <= i < |cs| ==> ToSfvItems(cs)[i] == ToSfvItem(cs[i]);
    }
  }

  // Another component that prints alike

  function NoValues(n: nat): (values: seq<string>)
    ensures |values| == n && AllNoLf(values)
  {
    if n == 0 then [] else [""] + NoValues(n - 1)
  }

  lemma SameBase(cs: seq<Component>, ds: seq<Component>, values: seq<string>, p: SignatureParams)
    requires |cs| == |values| && SameIdentifiers(cs, ds)
    ensures BaseText(cs, values, p) == BaseText(ds, values, p)
  {
    hide IdentifierText, MetadataText;
    assert Lines(cs, values) == Lines(ds, values);
    IdentifiersJoined(cs);
    IdentifiersJoined(ds);
    assert Texts(cs) == Texts(ds);
  }

  lemma TwinCollides(cs: seq<Component>, p: SignatureParams, i: nat, d: Component)
    requires CanBeParsed(cs, p) && i < |cs| && Proper(d) && ValidComponent(d)
    requires d != cs[i] && IdentifierText(d) == IdentifierText(cs[i])
    ensures !AlwaysDetermined(cs, p)
  {
    hide Proper, ValidComponent, IdentifierText, BaseText, Printed, AllNoLf;
    var ds, values := cs[i := d], NoValues(|cs|);
    CanBeParsedParts(cs, p);
    CanBeParsedParts(ds, p);
    SameBase(cs, ds, values, p);
    assert ds[i] == d;
  }

  // One component that prints like several

  lemma SpanningCanBeParsed(m: seq<Component>, d: Component)
    requires m != [] && m[0].kind == Field && forall i :: 0 <= i < |m| ==> Proper(m[i])
    requires Proper(d) && ValidComponent(d)
    ensures Proper(Spanning(m, d)) && ValidComponent(Spanning(m, d))
  {
    ProperParts(d);
    ProperParts(Spanning(m, d));
    ListPrintable(m);
    var all := IdentifiersText(m);
    SecondCharacter(m[0], if |m| == 1 then "" else " " + IdentifiersText(m[1..]));
    SecondOfAll(m);
    hide Proper, IdentifiersText, IdentifierText, ParametersFit, ValidCombination;
    TailPrintable(all);
    QuoteInName();
    SfvPrintable.PrintableConcat(all[1..], " \"");
    SfvPrintable.PrintableConcat(all[1..] + " \"", d.name);
  }

  lemma ListPrintable(cs: seq<Component>)
    requires forall i :: 0 <= i < |cs| ==> Proper(cs[i])
    ensures AllPrintable(IdentifiersText(cs))
  {
    hide FitsItem, IdentifiersText, AllPrintable, ToSfvItem;
    forall i | 0 <= i < |cs|
      ensures FitsItem(ToSfvItems(cs)[i], NO_LIMITS)
    {
      assert Proper(cs[i]);
    }
    IdentifiersPrintable(cs, NO_LIMITS);
  }

  lemma TailPrintable(s: string)
    requires AllPrintable(s) && s != ""
    ensures AllPrintable(s[1..])
  {
  }

  lemma QuoteInName()
    ensures AllPrintable(" \"")
  {
  }

  lemma SecondOfAll(m: seq<Component>)
    requires m != []
    ensures |IdentifiersText(m)| > 1
    ensures IdentifiersText(m) == IdentifierText(m[0]) + if |m| == 1 then "" else " " + IdentifiersText(m[1..])
  {
    hide IdentifierParametersText;
    if |m| == 1 {
      NothingAdded(IdentifierText(m[0]));
    } else {
      ConcatAssociates(IdentifierText(m[0]), " ", IdentifiersText(m[1..]));
    }
  }

  lemma ImitationHasNoLf(m: seq<Component>, d: Component)
    requires m != [] && Proper(d) && forall i :: 0 <= i < |m| ==> Proper(m[i])
    ensures NoLf(Imitation(m, d, ""))
  {
    hide Proper, AllPrintable, NoLf, IdentifiersText;
    var more := m[1..] + [d];
    ListPrintable(more);
    PrintableHasNoLf(IdentifiersText(more));
    PrefixHasNoLf();
    NoLfConcat(IdentifiersText(more), ": ");
    NothingAdded(IdentifiersText(more) + ": ");
  }

  /** A field that is not the first, prints like a later component and a colon. */
  lemma ColonCollides(cs: seq<Component>, p: SignatureParams, i: nat, j: nat)
    requires CanBeParsed(cs, p) && 0 < i < j < |cs| && cs[i].kind == Field
    requires IdentifierText(cs[i]) == IdentifierText(cs[j]) + ":"
    ensures !AlwaysDetermined(cs, p)
  {
    hide Proper, ValidComponent, IdentifierText, BaseText, Printed, NoLf, Spanning, Imitation, TakingLines;
    var a, m, d, b := cs[..i], cs[i..j], cs[j], cs[j + 1..];
    var av, ms, bv := NoValues(|a|), NoValues(|m|), NoValues(|b|);
    CanBeParsedParts(cs, p);
    SpanningCanBeParsed(m, d);
    ImitationHasNoLf(m, d);
    SpanCollides(a, av, m, ms, d, "", b, bv, p);
    assert cs == a + m + [d] + b;
    var ds := a + [Spanning(m, d)] + b;
    CanBeParsedParts(ds, p);
    var values := av + ms + [Imitation(m, d, "")] + bv;
    assert AllNoLf(values);
    assert |ds| < |cs|;
  }

  /** Every list that is always determined is of unmistakable components that are apart. */
  lemma {:induction false} DeterminedNeeds(cs: seq<Component>, p: SignatureParams)
    requires CanBeParsed(cs, p) && AlwaysDetermined(cs, p)
    ensures Apart(cs) && forall i :: 0 <= i < |cs| ==> Unmistakable(cs[i], true)
  {
    hide IdentifierText, Unmistakable, AlwaysDetermined, CanBeParsed, Proper, ValidComponent;
    CanBeParsedParts(cs, p);
    forall i, j | 0 < i < j < |cs| && cs[i].kind == Field
      ensures IdentifierText(cs[i]) != IdentifierText(cs[j]) + ":"
    {
      if IdentifierText(cs[i]) == IdentifierText(cs[j]) + ":" {
        ColonCollides(cs, p, i, j);
      }
    }
    forall i | 0 <= i < |cs|
      ensures Unmistakable(cs[i], true)
    {
      IdentifierDeterminesComponent(cs[i], true);
      if !Unmistakable(cs[i], true) {
        var d :| Proper(d) && ValidComponent(d) && IdentifierText(d) == IdentifierText(cs[i]) && d != cs[i];
        TwinCollides(cs, p, i, d);
      }
    }
  }

  /** No string stands between the flags sf and key of a field: such a string alone does
      not make a component mistakable, and is not clear either. */
  ghost predicate StringsAreMistakable(cs: seq<Component>) {
    forall i :: 0 <= i < |cs| && HasString(cs[i].parameters) ==> cs[i].kind == Derived || !Unmistakable(cs[i], true)
  }

  /** With names that need no escape, a list is always determined exactly when no field has
      a string parameter and no field but the first component prints like a later one and
      a colon. */
  lemma {:induction false} ListDeterminedExactly(cs: seq<Component>, p: SignatureParams)
    requires CanBeParsed(cs, p) && AllPlain(cs) && StringsAreMistakable(cs)
    ensures AlwaysDetermined(cs, p) <==> AllClear(cs) && Apart(cs)
  {
    CanBeParsedParts(cs, p);
    if AlwaysDetermined(cs, p) {
      hide Proper, Unmistakable, Apart, AlwaysDetermined, CanBeParsed, HasString;
      DeterminedNeeds(cs, p);
    }
    if AllClear(cs) && Apart(cs) {
      ClearIsDetermined(cs, p);
    }
  }

  lemma ClearIsDetermined(cs: seq<Component>, p: SignatureParams)
    requires Printed(cs, p) && AllClear(cs) && Apart(cs)
    ensures AlwaysDetermined(cs, p)
  {
    hide Printed, AllClear, Apart, AllNoLf, BaseText, AllParsed;
    forall values, ds, others, q |
      && |cs| == |values| && |ds| == |others| && AllNoLf(values)
      && Printed(ds, q) && AllParsed(ds)
      && BaseText(cs, values, p) == BaseText(ds, others, q)
      ensures cs == ds && values == others && p == q
    {
      ClearBaseDetermines(cs, values, p, ds, others, q);
    }
  }
}
