/** What the printed identifier of a component tells: names are printed without escaping
    quotes, so a parameter can be taken for a part of the name. */
module Identifiers {
  import opened Wrappers
  import opened SfvTypes
  import opened SignatureTypes
  import opened SignatureInput
  import opened SignatureText
  import opened IdentifierQuotes
  import SfvGrammar
  import SfvPrintable
  import SfvRoundTrip

  // Printed identifiers are printable, whatever the name

  lemma ComponentHasValues(c: Component, limits: Limits)
    requires FitsItem(ToSfvItem(c), limits)
    ensures HasValues(c)
  {
    hide FitsToken;
    var ps := ToSfvItem(c).parameters;
    forall i | 0 <= i < |c.parameters|
      ensures !c.parameters[i].value.Nil?
    {
      assert FitsParameter(ps[i], limits);
    }
  }

  lemma IdentifierPrintable(c: Component, limits: Limits)
    requires FitsItem(ToSfvItem(c), limits)
    ensures AllPrintable(IdentifierText(c))
  {
    assert AllPrintable(c.name) && ParametersFit(c.parameters, limits);
    hide FitsItem, IdentifierParametersText, ParametersFit, AllPrintable;
    FitParametersPrint(c.parameters, limits);
    QuotePrintable();
    SfvPrintable.PrintableConcat("\"", c.name);
    SfvPrintable.PrintableConcat("\"" + c.name, "\"");
    SfvPrintable.PrintableConcat("\"" + c.name + "\"", IdentifierParametersText(c.parameters));
  }

  lemma QuotePrintable()
    ensures AllPrintable("\"") && AllPrintable(" ") && AllPrintable("(") && AllPrintable(")") && AllPrintable("")
  {
  }

  // Which identifiers determine their component

  /** A component that has a text, of the type its name says. Those that a parser returns
      are validated besides; those that a signer is given are not. */
  predicate Proper(c: Component) {
    FitsItem(ToSfvItem(c), NO_LIMITS) && c.kind == KindOf(c.name)
  }

  predicate AsParsed(c: Component) {
    ValidComponent(c) && c.kind == KindOf(c.name)
  }

  ghost function RestOfName(c: Component, k: nat): string
    requires k < |c.name|
  {
    c.name[k + 1..] + "\"" + IdentifierParametersText(c.parameters)
  }

  /** The name could end at its quote k, as the rest can be read as parameters; which have
      to pass validation too, if that is asked. */
  ghost predicate CanEndAt(c: Component, k: nat, validated: bool)
    requires k < |c.name|
  {
    exists ps ::
      && ParametersFit(ps, NO_LIMITS)
      && IdentifierParametersText(ps) == RestOfName(c, k)
      && (validated ==> ValidComponent(Component(c.name[..k], KindOf(c.name[..k]), ps)))
  }

  /** The name cannot end elsewhere: not behind a string among the parameters, nor at a
      quote in the name. Among validated components a derived one has a name without
      quotes, and the parameters of a field need to be a valid combination. */
  ghost predicate Unmistakable(c: Component, validated: bool) {
    && (forall i :: 0 <= i < |c.parameters| && c.parameters[i].value.StringValue? ==>
                      validated && (c.kind == Derived || !ValidCombination(c.parameters[i + 1..])))
    && (forall k :: 0 <= k < |c.name| && c.name[k] == '"' ==> !CanEndAt(c, k, validated))
  }

  lemma ValidDerivedIsPlain(name: string)
    requires name in VALID_DERIVED
    ensures IsPlain(name)
  {
  }

  /** Without strings a plain component is unmistakable; a parsed derived one always is. */
  lemma PlainUnmistakable(c: Component)
    requires IsPlain(c.name) && (!HasString(c.parameters) || c.kind == Derived)
    ensures Unmistakable(c, true) && (!HasString(c.parameters) ==> Unmistakable(c, false))
  {
  }

  /** What is left of a valid combination is valid unless key stays and sf is gone. */
  lemma LeftOverCombination(ps: seq<ComponentParameter>, i: nat)
    requires ValidCombination(ps) && i <= |ps|
    ensures ValidCombination(ps[i..]) <==> (HasKey(ps[i..], "key") ==> HasKey(ps[i..], "sf"))
  {
    assert forall key :: HasKey(ps[i..], key) ==> HasKey(ps, key) by {
      forall key | HasKey(ps[i..], key)
        ensures HasKey(ps, key)
      {
        var j :| 0 <= j < |ps[i..]| && ps[i..][j].key == key;
        assert ps[i + j].key == key;
      }
    }
  }

  // Where the name can end

  lemma NameEnds(name: string, rest: string, other: string, otherRest: string)
    requires "\"" + name + "\"" + rest == "\"" + other + "\"" + otherRest && |other| <= |name|
    ensures |other| == |name| ==> other == name && otherRest == rest
    ensures |other| < |name| ==>
              name[|other|] == '"' && other == name[..|other|] && otherRest == name[|other| + 1..] + "\"" + rest
  {
    var text := "\"" + name + "\"" + rest;
    assert text[1..][..|other|] == other && text[|other| + 2..] == otherRest && text[|other| + 1] == '"';
    assert text[1..] == name + "\"" + rest;
    assert text[|other| + 2..] == (name + "\"" + rest)[|other| + 1..];
    if |other| < |name| {
      assert (name + "\"" + rest)[|other| + 1..] == name[|other| + 1..] + "\"" + rest;
    }
  }

  lemma ProperParts(c: Component)
    ensures Proper(c) <==> AllPrintable(c.name) && ParametersFit(c.parameters, NO_LIMITS) && c.kind == KindOf(c.name)
  {
    hide FitsParameter, AllPrintable, KindOf, ToSfvParameter;
    var ps := ToSfvParameters(c.parameters);
    assert FitsParameters(ps, NO_LIMITS) <==> ParametersFit(c.parameters, NO_LIMITS) by {
      assert forall i :: 0 <= i < |ps| ==> ps[i] == ToSfvParameter(c.parameters[i]);
    }
  }

  lemma UnmistakableDetermines(c: Component, d: Component)
    requires Proper(c) && Proper(d) && Unmistakable(c, ValidComponent(d)) && IdentifierText(d) == IdentifierText(c)
    ensures d == c
  {
    hide AllPrintable, KindOf, ParametersFit, IdentifierParametersText, Proper, CanEndAt, ValidComponent;
    ProperParts(c);
    ProperParts(d);
    if |d.name| <= |c.name| {
      NameEnds(c.name, IdentifierParametersText(c.parameters), d.name, IdentifierParametersText(d.parameters));
      if |d.name| < |c.name| {
        EndsAt(c, |d.name|, d);
        assert false;
      }
      ParametersDetermined(c.parameters, d.parameters);
    } else {
      NameEnds(d.name, IdentifierParametersText(d.parameters), c.name, IdentifierParametersText(c.parameters));
      var head := d.name[|c.name| + 1..];
      ConcatAssociates(head, "\"", IdentifierParametersText(d.parameters));
      var i := QuoteEndsString(c.parameters, head, d.parameters);
      LongerIsField(c, d);
      assert false;
    }
  }

  lemma EndsAt(c: Component, k: nat, d: Component)
    requires k < |c.name| && d.name == c.name[..k] && d.kind == KindOf(d.name) && ParametersFit(d.parameters, NO_LIMITS)
    requires IdentifierParametersText(d.parameters) == RestOfName(c, k)
    ensures CanEndAt(c, k, ValidComponent(d))
  {
    hide ParametersFit, IdentifierParametersText, RestOfName, KindOf, ValidComponent;
    assert d == Component(c.name[..k], KindOf(c.name[..k]), d.parameters);
  }

  /** A valid component with a quote in its name is a field's. */
  lemma LongerIsField(c: Component, d: Component)
    requires ValidComponent(d) && d.kind == KindOf(d.name) && c.kind == KindOf(c.name)
    requires |d.name| > |c.name| && c.name == d.name[..|c.name|] && d.name[|c.name|] == '"'
    ensures c.kind != Derived && ValidCombination(d.parameters)
  {
    hide ValidCombination;
    if d.kind == Derived {
      ValidDerivedIsPlain(d.name);
      assert false;
    }
  }

  // Otherwise there is a twin

  lemma {:induction false} IdentifierParametersAppend(ps: seq<ComponentParameter>, qs: seq<ComponentParameter>)
    ensures IdentifierParametersText(ps + qs) == IdentifierParametersText(ps) + IdentifierParametersText(qs)
    decreases |ps|
  {
    hide IdentifierParameterText;
    if ps == [] {
      NothingAdded(qs);
      NothingAdded(IdentifierParametersText(qs));
    } else {
      assert (ps + qs)[1..] == ps[1..] + qs;
      IdentifierParametersAppend(ps[1..], qs);
      ConcatAssociates(IdentifierParameterText(ps[0]), IdentifierParametersText(ps[1..]), IdentifierParametersText(qs));
    }
  }

  /** The text up to the closing quote of string parameter i. */
  lemma UpToString(ps: seq<ComponentParameter>, i: nat) returns (head: string)
    requires i < |ps| && ps[i].value.StringValue?
    ensures IdentifierParametersText(ps) == head + "\"" + IdentifierParametersText(ps[i + 1..])
  {
    hide IdentifierParametersText, Escape;
    var before, p, behind := ps[..i], ps[i], ps[i + 1..];
    var front := IdentifierParametersText(before);
    head := front + (";" + p.key + "=\"" + Escape(p.value.text));
    assert ps == before + ([p] + behind);
    IdentifierParametersAppend(before, [p] + behind);
    IdentifierParametersAppend([p], behind);
    StringParameterText(p);
    ConcatAssociates(front, ";" + p.key + "=\"" + Escape(p.value.text), "\"");
    ConcatAssociates(front, IdentifierParametersText([p]), IdentifierParametersText(behind));
  }

  lemma StringParameterText(p: ComponentParameter)
    requires p.value.StringValue?
    ensures IdentifierParametersText([p]) == ";" + p.key + "=\"" + Escape(p.value.text) + "\""
  {
    hide Escape;
    assert [p][1..] == [];
    NothingAdded(IdentifierParameterText(p));
    var text := Escape(p.value.text);
    ConcatAssociates(";" + p.key, "=", "\"" + text + "\"");
    ConcatAssociates(";" + p.key, "=\"", text);
    ConcatAssociates(";" + p.key, "=\"" + text, "\"");
    assert "=" + ("\"" + text + "\"") == "=\"" + text + "\"";
  }

  /** Everything up to the closing quote of a string parameter can be the name. */
  lemma StringTwin(c: Component, i: nat) returns (d: Component)
    requires Proper(c) && i < |c.parameters| && c.parameters[i].value.StringValue?
    ensures Proper(d) && d != c && IdentifierText(d) == IdentifierText(c)
    ensures c.kind == Field && ValidCombination(c.parameters[i + 1..]) ==> ValidComponent(d)
  {
    hide AllPrintable, KindOf, IdentifierParametersText, Proper, FitsParameter, ValidCombination;
    ProperParts(c);
    var head := UpToString(c.parameters, i);
    var behind := c.parameters[i + 1..];
    var name := c.name + "\"" + head;
    d := Component(name, KindOf(name), behind);
    FitParametersPrint(c.parameters, NO_LIMITS);
    TwinPrintable(c.name, head, IdentifierParametersText(behind), IdentifierParametersText(c.parameters));
    ProperParts(d);
    ConcatAssociates("\"" + c.name + "\"", head, "\"");
    ConcatAssociates("\"" + c.name + "\"", head + "\"", IdentifierParametersText(behind));
    ConcatAssociates("\"", c.name + "\"", head);
    ConcatAssociates("\"", c.name, "\"");
    assert |d.parameters| < |c.parameters|;
    SameKind(c.name, head);
  }

  lemma SameKind(name: string, head: string)
    ensures KindOf(name + "\"" + head) == KindOf(name)
  {
  }

  lemma TwinPrintable(name: string, head: string, behind: string, whole: string)
    requires AllPrintable(name) && AllPrintable(whole) && whole == head + "\"" + behind
    ensures AllPrintable(name + "\"" + head)
  {
    assert forall i :: 0 <= i < |head| ==> head[i] == whole[i];
  }

  /** And so can everything up to a quote in the name, if the rest can be read as
      parameters. */
  lemma QuoteTwin(c: Component, k: nat, validated: bool) returns (d: Component)
    requires Proper(c) && k < |c.name| && c.name[k] == '"' && CanEndAt(c, k, validated)
    ensures Proper(d) && d != c && IdentifierText(d) == IdentifierText(c)
    ensures validated ==> ValidComponent(d)
  {
    hide AllPrintable, KindOf, IdentifierParametersText, Proper, ParametersFit, ValidComponent;
    ProperParts(c);
    var ps :|
      && ParametersFit(ps, NO_LIMITS)
      && IdentifierParametersText(ps) == RestOfName(c, k)
      && (validated ==> ValidComponent(Component(c.name[..k], KindOf(c.name[..k]), ps)));
    d := Component(c.name[..k], KindOf(c.name[..k]), ps);
    PrefixPrintable(c.name, k);
    ProperParts(d);
    SplitName(c.name, k, IdentifierParametersText(c.parameters));
    assert |d.name| < |c.name|;
  }

  lemma PrefixPrintable(s: string, k: nat)
    requires AllPrintable(s) && k <= |s|
    ensures AllPrintable(s[..k])
  {
  }

  lemma SplitName(name: string, k: nat, rest: string)
    requires k < |name| && name[k] == '"'
    ensures "\"" + name[..k] + "\"" + (name[k + 1..] + "\"" + rest) == "\"" + name + "\"" + rest
  {
    assert name == name[..k] + "\"" + name[k + 1..];
    ConcatAssociates("\"" + name[..k] + "\"", name[k + 1..] + "\"", rest);
    ConcatAssociates("\"" + name[..k] + "\"", name[k + 1..], "\"");
    ConcatAssociates("\"", name[..k] + "\"", name[k + 1..]);
    ConcatAssociates("\"", name[..k], "\"");
  }

  /** The printed identifier determines its component exactly when the component is
      unmistakable, among all components or among those that pass validation. */
  lemma {:induction false} IdentifierDeterminesComponent(c: Component, validated: bool)
    requires Proper(c)
    ensures (forall d ::
               Proper(d) && (validated ==> ValidComponent(d)) && IdentifierText(d) == IdentifierText(c) ==> d == c)
            <==> Unmistakable(c, validated)
  {
    hide Proper, IdentifierText, CanEndAt, ValidComponent;
    if Unmistakable(c, validated) {
      forall d | Proper(d) && (validated ==> ValidComponent(d)) && IdentifierText(d) == IdentifierText(c)
        ensures d == c
      {
        AmongFewer(c, validated, ValidComponent(d));
        UnmistakableDetermines(c, d);
      }
    } else if k :| 0 <= k < |c.name| && c.name[k] == '"' && CanEndAt(c, k, validated) {
      var d := QuoteTwin(c, k, validated);
    } else {
      var i :| 0 <= i < |c.parameters| && c.parameters[i].value.StringValue?
               && !(validated && (c.kind == Derived || !ValidCombination(c.parameters[i + 1..])));
      var d := StringTwin(c, i);
      KindIsKnown(c);
    }
  }

  lemma AmongFewer(c: Component, validated: bool, valid: bool)
    requires Unmistakable(c, validated) && (validated ==> valid)
    ensures Unmistakable(c, valid)
  {
    hide RestOfName, IdentifierParametersText, ValidComponent, ValidCombination, ParametersFit;
  }

  lemma KindIsKnown(c: Component)
    requires Proper(c)
    ensures c.kind == Field || c.kind == Derived
  {
    hide FitsItem;
  }

  /** For a name that needs no escape: among all components exactly when no parameter is
      a string; among those that pass validation also if the component is derived, or
      behind no string the rest is a valid combination. */
  lemma {:induction false} PlainIdentifierDetermines(c: Component)
    requires Proper(c) && IsPlain(c.name)
    ensures (forall d :: Proper(d) && IdentifierText(d) == IdentifierText(c) ==> d == c) <==> !HasString(c.parameters)
    ensures (forall d :: Proper(d) && ValidComponent(d) && IdentifierText(d) == IdentifierText(c) ==> d == c)
            <==> c.kind == Derived
                 || forall i :: 0 <= i < |c.parameters| && c.parameters[i].value.StringValue? ==>
                                  !ValidCombination(c.parameters[i + 1..])
  {
    hide Proper, IdentifierText, CanEndAt, ValidComponent, ValidCombination;
    IdentifierDeterminesComponent(c, false);
    IdentifierDeterminesComponent(c, true);
    assert Unmistakable(c, false) <==> !HasString(c.parameters);
  }

  /** A derived component is read off a text that begins with its identifier, against
      every component that passes validation, whatever its parameters. */
  lemma {:induction false} DerivedDetermined(c: Component, x: string, d: Component, y: string)
    requires Proper(c) && Proper(d) && c.kind == Derived && IsPlain(c.name) && ValidComponent(d)
    requires SfvRoundTrip.Follows(x) && SfvRoundTrip.Follows(y)
    requires IdentifierText(c) + x == IdentifierText(d) + y
    ensures c == d && x == y
  {
    DerivedBegins(c, x, d, y);
    ComponentHasValues(c, NO_LIMITS);
    ComponentHasValues(d, NO_LIMITS);
    hide KindOf, FitsItem, IdentifierText, ToSfvParameters, SfvGrammar.ItemText, SfvGrammar.ParseItem, IsPlain,
      ValidComponent, HasValues, SfvRoundTrip.Follows;
    IdentifierTexts(c);
    IdentifierTexts(d);
    SfvRoundTrip.ItemRoundTrip(ToSfvItem(c), x, NO_LIMITS);
    SfvRoundTrip.ItemRoundTrip(ToSfvItem(d), y, NO_LIMITS);
    ToSfvParametersInjective(c.parameters, d.parameters);
  }

  lemma DerivedBegins(c: Component, x: string, d: Component, y: string)
    requires c.kind == KindOf(c.name) == Derived && d.kind == KindOf(d.name) && ValidComponent(d)
    requires IdentifierText(c) + x == IdentifierText(d) + y
    ensures d.kind == Derived && IsPlain(d.name)
  {
    hide ValidCombination, IdentifierParametersText;
    SecondCharacter(c, x);
    SecondCharacter(d, y);
    ValidDerivedIsPlain(d.name);
  }

  lemma SecondCharacter(c: Component, x: string)
    ensures |IdentifierText(c)| > 1
    ensures KindOf(c.name) == Derived <==> (IdentifierText(c) + x)[1] == '@'
  {
    hide IdentifierParametersText;
  }
}
