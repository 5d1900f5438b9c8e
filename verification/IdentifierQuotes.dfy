/** The quotes among the parameters of a printed identifier: parameters can be read behind
    those only that end a string. */
module IdentifierQuotes {
  import opened Wrappers
  import opened SfvTypes
  import opened SignatureTypes
  import opened SignatureInput
  import opened SignatureText
  import Base64
  import SfvGrammar
  import SfvPrimitives
  import SfvPrintable
  import SfvRoundTrip

  predicate ParametersFit(ps: seq<ComponentParameter>, limits: Limits) {
    forall i :: 0 <= i < |ps| ==> FitsParameter(ToSfvParameter(ps[i]), limits)
  }

  predicate HasString(ps: seq<ComponentParameter>) {
    exists i :: 0 <= i < |ps| && ps[i].value.StringValue?
  }

  lemma FitParametersPrint(ps: seq<ComponentParameter>, limits: Limits)
    requires ParametersFit(ps, limits)
    ensures IdentifierParametersText(ps) == SfvGrammar.ParametersText(ToSfvParameters(ps))
    ensures AllPrintable(IdentifierParametersText(ps))
  {
    hide FitsToken, AllPrintable, SfvGrammar.ParametersText, IdentifierParametersText;
    forall i | 0 <= i < |ps|
      ensures !ps[i].value.Nil?
    {
      assert FitsParameter(ToSfvParameter(ps[i]), limits);
    }
    IdentifierParametersAgree(ps);
    hide FitsParameter;
    SfvPrintable.ParametersPrintable(ToSfvParameters(ps), limits);
  }

  lemma ToSfvParametersInjective(ps: seq<ComponentParameter>, qs: seq<ComponentParameter>)
    requires ToSfvParameters(ps) == ToSfvParameters(qs)
    ensures ps == qs
  {
    forall i | 0 <= i < |ps|
      ensures ps[i] == qs[i]
    {
      assert ToSfvParameter(ps[i]) == ToSfvParameter(qs[i]);
    }
  }

  lemma ParametersDetermined(ps: seq<ComponentParameter>, qs: seq<ComponentParameter>)
    requires ParametersFit(ps, NO_LIMITS) && ParametersFit(qs, NO_LIMITS)
    requires IdentifierParametersText(ps) == IdentifierParametersText(qs)
    ensures ps == qs
  {
    hide FitsParameter, IdentifierParametersText, SfvGrammar.ParametersText, SfvGrammar.ParseParameters, ToSfvParameter;
    FitParametersPrint(ps, NO_LIMITS);
    FitParametersPrint(qs, NO_LIMITS);
    SfvRoundTrip.ParametersRoundTrip(ToSfvParameters(ps), 0, "", NO_LIMITS);
    SfvRoundTrip.ParametersRoundTrip(ToSfvParameters(qs), 0, "", NO_LIMITS);
    ToSfvParametersInjective(ps, qs);
  }

  // Characters that occur in strings only

  predicate Avoids(s: string, marks: set<char>) {
    forall i :: 0 <= i < |s| ==> s[i] !in marks
  }

  lemma AvoidsConcat(a: string, b: string, marks: set<char>)
    requires Avoids(a, marks) && Avoids(b, marks)
    ensures Avoids(a + b, marks)
  {
  }

  const QUOTE := {'"'}
  const MARKS := {'"', '\\', ' ', ')'}

  lemma SignsAvoidMarks()
    ensures Avoids("", MARKS) && Avoids(";", MARKS) && Avoids("=", MARKS) && Avoids("=?0", MARKS)
  {
  }

  lemma MarksAvoided(s: string)
    requires Avoids(s, MARKS)
    ensures Avoids(s, QUOTE) && IsPlain(s)
  {
  }

  lemma NumberAvoidsMarks(n: int)
    ensures Avoids("=" + SfvGrammar.FormatInt(n), MARKS)
  {
    SfvPrimitives.DecimalRoundTrip(if n < 0 then -n else n);
    hide SfvGrammar.Decimal;
  }

  lemma TokenAvoidsMarks(t: string)
    requires IsToken(t)
    ensures Avoids(t, MARKS)
  {
    forall i | 0 <= i < |t|
      ensures t[i] !in MARKS
    {
      assert IsTokenChar(t[i]);
    }
  }

  lemma BytesAvoidMarks(bs: seq<Octet>)
    ensures Avoids("=:" + Base64.Encode(bs, true) + ":", MARKS)
  {
    SfvPrimitives.EncodedIsBase64(bs, true);
    hide Base64.Encode;
  }

  lemma ValueAvoidsMarks(v: Value)
    requires FitsBareItem(ToSfv(v), NO_LIMITS) && !v.StringValue?
    ensures Avoids(ValueSuffix(v), MARKS)
  {
    assert v.TokenValue? ==> IsToken(v.name);
    hide Avoids, FitsBareItem, SfvGrammar.FormatInt, Base64.Encode, IsToken;
    SignsAvoidMarks();
    match v {
      case BooleanValue(b) =>
      case IntegerValue(n) =>
        NumberAvoidsMarks(n);
      case TokenValue(t) =>
        TokenAvoidsMarks(t);
        AvoidsConcat("=", t, MARKS);
      case BytesValue(bs) =>
        BytesAvoidMarks(bs);
      case Nil =>
    }
  }

  lemma FitKey(p: ComponentParameter)
    requires FitsParameter(ToSfvParameter(p), NO_LIMITS)
    ensures IsToken(p.key) && FitsBareItem(ToSfv(p.value), NO_LIMITS)
  {
    hide FitsBareItem, IsToken;
  }

  lemma KeyAvoidsMarks(p: ComponentParameter)
    requires FitsParameter(ToSfvParameter(p), NO_LIMITS)
    ensures Avoids(";" + p.key, MARKS)
  {
    FitKey(p);
    TokenAvoidsMarks(p.key);
    SignsAvoidMarks();
    AvoidsConcat(";", p.key, MARKS);
  }

  lemma ParameterAvoidsMarks(p: ComponentParameter)
    requires FitsParameter(ToSfvParameter(p), NO_LIMITS) && !p.value.StringValue?
    ensures Avoids(IdentifierParameterText(p), MARKS)
  {
    hide Avoids, FitsParameter, FitsBareItem, IsToken, ValueSuffix;
    FitKey(p);
    KeyAvoidsMarks(p);
    ValueAvoidsMarks(p.value);
    AvoidsConcat(";" + p.key, ValueSuffix(p.value), MARKS);
  }

  lemma {:induction false} ParametersAvoidMarks(ps: seq<ComponentParameter>)
    requires ParametersFit(ps, NO_LIMITS) && !HasString(ps)
    ensures Avoids(IdentifierParametersText(ps), MARKS)
  {
    hide Avoids, IdentifierParameterText, FitsParameter, ToSfvParameter;
    SignsAvoidMarks();
    if ps != [] {
      ParameterAvoidsMarks(ps[0]);
      ParametersAvoidMarks(ps[1..]);
      AvoidsConcat(IdentifierParameterText(ps[0]), IdentifierParametersText(ps[1..]), MARKS);
    }
  }

  // Reading a text quote by quote

  /** Whether the text ends inside a string, when it begins outside or inside one. Outside
      of strings there is no backslash. */
  function EndsInside(s: string, inside: bool): Option<bool> {
    if s == "" then Some(inside)
    else if s[0] == '"' then EndsInside(s[1..], !inside)
    else if s[0] != '\\' then EndsInside(s[1..], inside)
    else if inside && |s| > 1 then EndsInside(s[2..], true)
    else None
  }

  /** Begun on both sides, the two readings never meet. */
  lemma {:induction false} EndsDiffer(s: string)
    requires EndsInside(s, false).Some? && EndsInside(s, true).Some?
    ensures EndsInside(s, false) != EndsInside(s, true)
  {
    if s != "" {
      EndsDiffer(s[1..]);
    }
  }

  lemma {:induction false} PlainEnds(a: string, rest: string, inside: bool)
    requires IsPlain(a)
    ensures EndsInside(a + rest, inside) == EndsInside(rest, inside)
  {
    if a == "" {
      NothingAdded(rest);
    } else {
      DropFirst(a, rest);
      PlainEnds(a[1..], rest, inside);
    }
  }

  lemma {:induction false} EscapedEnds(u: string, rest: string)
    ensures EndsInside(Escape(u) + rest, true) == EndsInside(rest, true)
  {
    if u == "" {
      NothingAdded(rest);
    } else {
      ConcatAssociates(EscapeChar(u[0]), Escape(u[1..]), rest);
      EscapedCharEnds(u[0], Escape(u[1..]) + rest);
      EscapedEnds(u[1..], rest);
    }
  }

  lemma EscapedCharEnds(ch: char, rest: string)
    ensures EndsInside(EscapeChar(ch) + rest, true) == EndsInside(rest, true)
  {
    var s := EscapeChar(ch) + rest;
    assert s[|EscapeChar(ch)|..] == rest;
  }

  /** A string and what stands behind it. */
  lemma StringEnds(u: string, rest: string)
    ensures EndsInside("\"" + (Escape(u) + ("\"" + rest)), false) == EndsInside(rest, false)
  {
    hide Escape;
    EscapedEnds(u, "\"" + rest);
    DropFirst("\"", Escape(u) + ("\"" + rest));
    DropFirst("\"", rest);
    NothingAdded(rest);
    NothingAdded(Escape(u) + ("\"" + rest));
  }

  lemma ParameterEnds(p: ComponentParameter, rest: string)
    requires FitsParameter(ToSfvParameter(p), NO_LIMITS)
    ensures EndsInside(IdentifierParameterText(p) + rest, false) == EndsInside(rest, false)
  {
    hide FitsParameter, ToSfvParameter, EndsInside, Escape, IdentifierParameterText, Avoids, IsPlain;
    if p.value.StringValue? {
      FrontIsPlain(p);
      StringParameter(p, rest);
      PlainEnds(";" + p.key + "=", "\"" + (Escape(p.value.text) + ("\"" + rest)), false);
      StringEnds(p.value.text, rest);
    } else {
      ParameterAvoidsMarks(p);
      MarksAvoided(IdentifierParameterText(p));
      PlainEnds(IdentifierParameterText(p), rest, false);
    }
  }

  lemma FrontIsPlain(p: ComponentParameter)
    requires FitsParameter(ToSfvParameter(p), NO_LIMITS)
    ensures IsPlain(";" + p.key + "=")
  {
    hide FitsParameter, Avoids, IsPlain;
    KeyAvoidsMarks(p);
    SignsAvoidMarks();
    AvoidsConcat(";" + p.key, "=", MARKS);
    MarksAvoided(";" + p.key + "=");
  }

  lemma StringParameter(p: ComponentParameter, rest: string)
    requires p.value.StringValue?
    ensures IdentifierParameterText(p) + rest == ";" + p.key + "=" + ("\"" + (Escape(p.value.text) + ("\"" + rest)))
  {
    hide Escape;
    var text := Escape(p.value.text);
    ConcatAssociates(";" + p.key, "=", "\"" + text + "\"");
    ConcatAssociates(";" + p.key + "=", "\"" + text + "\"", rest);
    ConcatAssociates("\"" + text, "\"", rest);
    ConcatAssociates("\"", text, "\"" + rest);
  }

  lemma {:induction false} ParametersEnd(ps: seq<ComponentParameter>)
    requires ParametersFit(ps, NO_LIMITS)
    ensures EndsInside(IdentifierParametersText(ps), false) == Some(false)
  {
    hide IdentifierParameterText, FitsParameter, ToSfvParameter;
    if ps != [] {
      ParameterEnds(ps[0], IdentifierParametersText(ps[1..]));
      ParametersEnd(ps[1..]);
    }
  }

  // Behind which quotes parameters can be read

  lemma NothingReadInside(u: string, ps: seq<ComponentParameter>, qs: seq<ComponentParameter>)
    requires ParametersFit(ps, NO_LIMITS) && ParametersFit(qs, NO_LIMITS)
    ensures Escape(u) + ("\"" + IdentifierParametersText(ps)) != IdentifierParametersText(qs)
  {
    hide ParametersFit, IdentifierParametersText, Escape;
    var text := IdentifierParametersText(ps);
    ParametersEnd(ps);
    ParametersEnd(qs);
    EscapedEnds(u, "\"" + text);
    DropFirst("\"", text);
    NothingAdded(text);
    if Escape(u) + ("\"" + text) == IdentifierParametersText(qs) {
      EndsDiffer(IdentifierParametersText(qs));
    }
  }

  /** Behind a quote in an escaped text stands an escaped text. */
  lemma {:induction false} BehindEscapedQuote(u: string, k: nat) returns (v: string)
    requires k < |Escape(u)| && Escape(u)[k] == '"'
    ensures Escape(u)[k + 1..] == Escape(v)
  {
    var n := |EscapeChar(u[0])|;
    if k < n {
      v := u[1..];
    } else {
      v := BehindEscapedQuote(u[1..], k - n);
      assert Escape(u)[k + 1..] == Escape(u[1..])[k - n + 1..];
    }
  }

  lemma NothingReadInParameter(
    p: ComponentParameter, ps: seq<ComponentParameter>, head: string, qs: seq<ComponentParameter>)
    requires FitsParameter(ToSfvParameter(p), NO_LIMITS) && p.value.StringValue?
    requires ParametersFit(ps, NO_LIMITS) && ParametersFit(qs, NO_LIMITS)
    requires |head| + 1 < |IdentifierParameterText(p)|
    ensures IdentifierParameterText(p) + IdentifierParametersText(ps) != head + ("\"" + IdentifierParametersText(qs))
  {
    hide FitsParameter, ParametersFit, ToSfvParameter, IdentifierParametersText, IdentifierParameterText, Escape,
      IsPlain;
    var front, rest, tail := ";" + p.key + "=", IdentifierParametersText(ps), IdentifierParametersText(qs);
    var u := p.value.text;
    FrontIsPlain(p);
    StringParameter(p, rest);
    StringParameter(p, "");
    StringLength(p);
    if IdentifierParameterText(p) + rest == head + ("\"" + tail) {
      QuoteBehindFront(front, Escape(u) + ("\"" + rest), head, tail);
      if |head| == |front| {
        NothingReadInside(u, ps, qs);
      } else {
        var k := |head| - |front| - 1;
        QuoteInText(Escape(u), rest, k, tail);
        var v := BehindEscapedQuote(u, k);
        NothingReadInside(v, ps, qs);
      }
    }
  }

  lemma StringLength(p: ComponentParameter)
    requires p.value.StringValue?
    ensures |IdentifierParameterText(p)| == |";" + p.key + "="| + |Escape(p.value.text)| + 2
  {
    hide Escape;
  }

  lemma QuoteBehindFront(front: string, text: string, head: string, tail: string)
    requires IsPlain(front) && front + ("\"" + text) == head + ("\"" + tail)
    ensures |head| >= |front|
    ensures |head| == |front| ==> text == tail
    ensures |head| > |front| ==>
              |head| - |front| - 1 < |text| && text[|head| - |front| - 1] == '"' && text[|head| - |front|..] == tail
  {
    var s := head + ("\"" + tail);
    assert s[|head|] == '"' && s[|head| + 1..] == tail;
    assert forall i :: 0 <= i < |front| ==> s[i] == front[i];
    assert s[|front| + 1..] == text;
    if |head| > |front| {
      assert s[|front| + 1..][|head| - |front|..] == s[|head| + 1..];
      assert s[|front| + 1..][|head| - |front| - 1] == s[|head|];
    }
  }

  lemma QuoteInText(text: string, rest: string, k: nat, tail: string)
    requires k < |text| && (text + ("\"" + rest))[k] == '"' && (text + ("\"" + rest))[k + 1..] == tail
    ensures text[k] == '"' && tail == text[k + 1..] + ("\"" + rest)
  {
  }

  /** The quote ends one of the strings, and what can be read behind it are the parameters
      behind that string. */
  lemma {:induction false} QuoteEndsString(ps: seq<ComponentParameter>, head: string, qs: seq<ComponentParameter>)
    returns (i: nat)
    requires ParametersFit(ps, NO_LIMITS) && ParametersFit(qs, NO_LIMITS)
    requires IdentifierParametersText(ps) == head + ("\"" + IdentifierParametersText(qs))
    ensures i < |ps| && ps[i].value.StringValue? && qs == ps[i + 1..]
    decreases |ps|
  {
    hide IdentifierParameterText, FitsParameter, ToSfvParameter;
    assert ps != [];
    var first, rest := IdentifierParameterText(ps[0]), IdentifierParametersText(ps[1..]);
    var tail := IdentifierParametersText(qs);
    hide IdentifierParametersText;
    if |head| >= |first| {
      QuoteLater(first, rest, head, tail);
      i := QuoteEndsString(ps[1..], head[|first|..], qs);
      i := i + 1;
    } else {
      QuoteInFirst(first, rest, head, tail);
      if !ps[0].value.StringValue? {
        ParameterAvoidsMarks(ps[0]);
        assert false;
      }
      if |head| + 1 < |first| {
        NothingReadInParameter(ps[0], ps[1..], head, qs);
        assert false;
      }
      ParametersDetermined(qs, ps[1..]);
      i := 0;
    }
  }

  lemma QuoteLater(first: string, rest: string, head: string, tail: string)
    requires first + rest == head + ("\"" + tail) && |head| >= |first|
    ensures rest == head[|first|..] + ("\"" + tail)
  {
    assert (first + rest)[|first|..] == rest;
  }

  lemma QuoteInFirst(first: string, rest: string, head: string, tail: string)
    requires first + rest == head + ("\"" + tail) && |head| < |first|
    ensures first[|head|] == '"'
    ensures |head| + 1 == |first| ==> rest == tail
  {
    assert (first + rest)[|head|] == '"';
    assert (first + rest)[|first|..] == rest && (head + ("\"" + tail))[|head| + 1..] == tail;
  }
}
