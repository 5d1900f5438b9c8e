/** Where a signature base does not determine what it was built from: values with an LF,
    names with a quote, and both together; as value lists and as messages. */
module BaseCollisions {
  import opened Wrappers
  import opened SfvTypes
  import opened SignatureTypes
  import opened SignatureText
  import opened HttpMessage
  import opened FieldValues
  import opened LineFolding
  import opened LineCuts
  import opened SignatureBase
  import opened BaseInjectivity
  import FieldLaws

  // Values with LF

  /** Without the condition values are not determined: a value can contain the next
      component's line. This pair collides for every x, y and z. */
  lemma ValuesWithLfCollide(c: Component, d: Component, p: SignatureParams, x: string, y: string, z: string)
    ensures var line := Separator(d);
            BaseText([c, d], [x + line + y, z], p) == BaseText([c, d], [x, y + line + z], p)
  {
    hide Separator;
    var line := Separator(d);
    BaseAsCuts([c, d], [x + line + y, z], [x, y + line + z], p);
    assert [c, d][1..] == [d];
    assert Separators([d]) == [line];
    EitherCut([line], x, y, z, []);
    hide Joined, BaseText;
    assert [x, y + line + z] + [] == [x, y + line + z] && [x + line + y, z] + [] == [x + line + y, z];
  }

  function QueryParam(name: string): Component {
    Component("@query-param", Derived, [ComponentParameter("name", StringValue(name))])
  }

  function WithQuery(request: Request, query: map<string, seq<string>>): Message
    requires request.url.Some?
  {
    RequestMessage(request.(url := Some(request.url.value.(query := query))))
  }

  lemma QueryParamValue(request: Request, query: map<string, seq<string>>, name: string)
    requires request.url.Some? && name != "" && name in query && |query[name]| > 0
    ensures ComponentValue(WithQuery(request, query), QueryParam(name)) == Some(query[name][0])
  {
    var c := QueryParam(name);
    assert c.parameters[0] == ComponentParameter("name", StringValue(name)) && c.parameters[1..] == [];
    assert !HasReq(c.parameters);
    assert QueryParamName(c.parameters) == name;
  }

  /** It happens to messages: two requests that differ in the values of two covered query
      parameters, and have one signature base. */
  lemma QueriesCollide(
    request: Request, p: SignatureParams, a: string, b: string, x: string, y: string, z: string)
    requires request.url.Some? && a != "" && b != "" && a != b
    ensures var cs := [QueryParam(a), QueryParam(b)];
            var line := Separator(cs[1]);
            var m := WithQuery(request, map[a := [x + line + y], b := [z]]);
            var n := WithQuery(request, map[a := [x], b := [y + line + z]]);
            && BuildText(m, cs, p).Some? && BuildText(m, cs, p) == BuildText(n, cs, p)
            && ComponentValue(m, cs[0]) != ComponentValue(n, cs[0])
            && ComponentValue(m, cs[1]) != ComponentValue(n, cs[1])
  {
    hide Separator, QueryParam, WithQuery, ComponentValue, BaseText;
    var cs := [QueryParam(a), QueryParam(b)];
    var line := Separator(cs[1]);
    var first, second := map[a := [x + line + y], b := [z]], map[a := [x], b := [y + line + z]];
    BothValues(request, a, b, x + line + y, z);
    BothValues(request, a, b, x, y + line + z);
    ValuesWithLfCollide(cs[0], cs[1], p, x, y, z);
    SeparatorIsNotEmpty(cs[1]);
  }

  lemma SeparatorIsNotEmpty(c: Component)
    ensures |Separator(c)| > 0
  {
  }

  lemma BothValues(request: Request, a: string, b: string, v: string, w: string)
    requires request.url.Some? && a != "" && b != "" && a != b
    ensures var m := WithQuery(request, map[a := [v], b := [w]]);
            && ComponentValue(m, QueryParam(a)) == Some(v) && ComponentValue(m, QueryParam(b)) == Some(w)
            && Values(m, [QueryParam(a), QueryParam(b)]) == Some([v, w])
  {
    hide QueryParam, WithQuery, ComponentValue;
    var query := map[a := [v], b := [w]];
    QueryParamValue(request, query, a);
    QueryParamValue(request, query, b);
    ValuesAre(WithQuery(request, query), [QueryParam(a), QueryParam(b)], [v, w]);
  }

  // Names with quotes

  /** With quotes in a name, components that print alike need not be the same: a
      parameter can be part of the name instead. */
  lemma QuotedNamePrintsAlike(name: string, key: string, text: string, kind: ComponentType)
    requires IsPlain(text)
    ensures var withParameter := Component(name, kind, [ComponentParameter(key, StringValue(text))]);
            var inName := Component(name + "\";" + key + "=\"" + text, kind, []);
            withParameter != inName && IdentifierText(withParameter) == IdentifierText(inName)
  {
    EscapePlain(text);
    hide IsPlain, Escape;
    var p := ComponentParameter(key, StringValue(text));
    assert [p][1..] == [];
    assert IdentifierParameterText(p) + "" == ";" + key + "=\"" + text + "\"";
  }

  // Names that span components

  /** Its name is all that is printed from the first of some components to the name of one
      behind them. */
  function Spanning(cs: seq<Component>, d: Component): Component
    requires cs != []
  {
    Component(IdentifiersText(cs)[1..] + " \"" + d.name, cs[0].kind, d.parameters)
  }

  lemma {:induction false} IdentifiersAppend(cs: seq<Component>, d: Component)
    requires cs != []
    ensures IdentifiersText(cs + [d]) == IdentifiersText(cs) + " " + IdentifierText(d)
  {
    hide IdentifierText;
    assert (cs + [d])[1..] == cs[1..] + [d];
    if |cs| == 1 {
      assert cs[1..] + [d] == [d];
    } else {
      IdentifiersAppend(cs[1..], d);
      ConcatAssociates(IdentifierText(cs[0]) + " ", IdentifiersText(cs[1..]), " ");
      ConcatAssociates(IdentifierText(cs[0]) + " ", IdentifiersText(cs[1..]) + " ", IdentifierText(d));
    }
  }

  /** It prints like all of them. */
  lemma SpanningText(cs: seq<Component>, d: Component)
    requires cs != []
    ensures IdentifierText(Spanning(cs, d)) == IdentifiersText(cs + [d])
  {
    IdentifiersAppend(cs, d);
    var all, rest := IdentifiersText(cs), IdentifierParametersText(d.parameters);
    assert all == "\"" + all[1..];
    hide IdentifiersText, IdentifierParametersText;
    QuotesMove(all, d.name, rest);
  }

  lemma QuotesMove(all: string, name: string, rest: string)
    requires all != "" && all == "\"" + all[1..]
    ensures "\"" + (all[1..] + " \"" + name) + "\"" + rest == all + " " + ("\"" + name + "\"" + rest)
  {
    ConcatAssociates("\"", all[1..] + " \"", name);
    ConcatAssociates("\"", all[1..], " \"");
    assert " \"" == " " + "\"";
    ConcatAssociates(all, " ", "\"");
    ConcatAssociates(all + " ", "\"", name);
    ConcatAssociates(all + " ", "\"" + name, "\"");
    ConcatAssociates(all + " ", "\"" + name + "\"", rest);
  }

  function Texts(cs: seq<Component>): (r: seq<string>)
    ensures |r| == |cs|
    ensures forall i :: 0 <= i < |cs| ==> r[i] == IdentifierText(cs[i])
  {
    if cs == [] then [] else [IdentifierText(cs[0])] + Texts(cs[1..])
  }

  lemma {:induction false} IdentifiersJoined(cs: seq<Component>)
    ensures IdentifiersText(cs) == Join(Texts(cs), " ")
  {
    hide IdentifierText;
    if |cs| > 1 {
      IdentifiersJoined(cs[1..]);
    }
  }

  lemma TextsConcat(cs: seq<Component>, ds: seq<Component>)
    ensures Texts(cs + ds) == Texts(cs) + Texts(ds)
  {
    hide IdentifierText;
  }

  /** Components that print alike together can stand for each other. */
  lemma SameIdentifiersText(a: seq<Component>, x: seq<Component>, y: seq<Component>, b: seq<Component>)
    requires x != [] && y != [] && IdentifiersText(x) == IdentifiersText(y)
    ensures IdentifiersText(a + x + b) == IdentifiersText(a + y + b)
  {
    hide IdentifierText, IdentifiersText, Join, Texts;
    IdentifiersJoined(x);
    IdentifiersJoined(y);
    IdentifiersJoined(a + x + b);
    IdentifiersJoined(a + y + b);
    TextsConcat(a, x);
    TextsConcat(a + x, b);
    TextsConcat(a, y);
    TextsConcat(a + y, b);
    JoinSame(Texts(a), Texts(x), Texts(y), Texts(b), " ");
  }

  /** The value of d that begins its line with the identifier of Spanning(m, d). */
  function Imitation(m: seq<Component>, d: Component, z: string): string
    requires m != []
  {
    IdentifiersText(m[1..] + [d]) + ": " + z
  }

  /** The last value takes the lines of m. */
  function TakingLines(values: seq<string>, m: seq<Component>, ms: seq<string>): (r: seq<string>)
    requires values != [] && |m| == |ms|
    ensures |r| == |values|
  {
    values[..|values| - 1] + [values[|values| - 1] + ("\n" + Join(Lines(m, ms), "\n"))]
  }

  /** If a component prints like a later one and a colon, there is another list with the
      same base: the component and those behind it up to the later one are one component,
      and their lines belong to the value in front of them. For all values but that of the
      later one. */
  lemma SpanCollides(
    a: seq<Component>, av: seq<string>, m: seq<Component>, ms: seq<string>, d: Component, z: string,
    b: seq<Component>, bv: seq<string>, p: SignatureParams)
    requires |a| == |av| > 0 && |m| == |ms| > 0 && |b| == |bv|
    requires IdentifierText(m[0]) == IdentifierText(d) + ":"
    ensures BaseText(a + m + [d] + b, av + ms + [Imitation(m, d, z)] + bv, p) ==
            BaseText(a + [Spanning(m, d)] + b, TakingLines(av, m, ms) + [z] + bv, p)
  {
    hide IdentifiersText, IdentifierText, Spanning, Imitation, TakingLines, Lines, Join, MetadataText, ComponentLine;
    var e := Spanning(m, d);
    SpannedParams(a, m, d, b, p);
    SpanningLine(m, d, z);
    LinesConcat(a + m + [d], av + ms + [Imitation(m, d, z)], b, bv);
    LinesConcat(a + m, av + ms, [d], [Imitation(m, d, z)]);
    LinesConcat(a, av, m, ms);
    LinesConcat(a + [e], TakingLines(av, m, ms) + [z], b, bv);
    LinesConcat(a, TakingLines(av, m, ms), [e], [z]);
    LinesTaken(a, av, m, ms);
    var line := Lines([d], [Imitation(m, d, z)]);
    var rest := line + Lines(b, bv) + [ParamsLine(a + m + [d] + b, p)];
    JoinSame([], Lines(a, av) + Lines(m, ms), Lines(a, TakingLines(av, m, ms)), rest, "\n");
    RestLast(Lines(a, av) + Lines(m, ms), line, Lines(b, bv), ParamsLine(a + m + [d] + b, p));
    RestLast(Lines(a, TakingLines(av, m, ms)), line, Lines(b, bv), ParamsLine(a + m + [d] + b, p));
  }

  lemma RestLast(a: seq<string>, line: seq<string>, b: seq<string>, last: string)
    ensures [] + a + (line + b + [last]) == a + line + b + [last]
  {
  }

  lemma SpannedParams(a: seq<Component>, m: seq<Component>, d: Component, b: seq<Component>, p: SignatureParams)
    requires m != []
    ensures ParamsLine(a + m + [d] + b, p) == ParamsLine(a + [Spanning(m, d)] + b, p)
  {
    var e := Spanning(m, d);
    SpanningText(m, d);
    assert IdentifiersText([e]) == IdentifierText(e);
    hide IdentifiersText, IdentifierText, MetadataText, Spanning;
    SameIdentifiersText(a, m + [d], [e], b);
    ConcatAssociates(a, m, [d]);
  }

  /** The line is that of d and that of the spanning component. */
  lemma SpanningLine(m: seq<Component>, d: Component, z: string)
    requires m != [] && IdentifierText(m[0]) == IdentifierText(d) + ":"
    ensures Lines([d], [Imitation(m, d, z)]) == Lines([Spanning(m, d)], [z])
  {
    var e, more := Spanning(m, d), m[1..] + [d];
    SpanningText(m, d);
    assert m + [d] == [m[0]] + more && (m + [d])[1..] == more;
    assert IdentifiersText(m + [d]) == IdentifierText(m[0]) + " " + IdentifiersText(more);
    hide IdentifiersText, IdentifierText, Spanning;
    SpaceMoves(IdentifierText(d), IdentifiersText(more), z);
  }

  lemma SpaceMoves(text: string, more: string, z: string)
    ensures text + ": " + (more + ": " + z) == text + ":" + " " + more + ": " + z
  {
    assert ": " == ":" + " ";
    ConcatAssociates(text, ":", " ");
    ConcatAssociates(text + ": ", more + ": ", z);
    ConcatAssociates(text + ": ", more, ": ");
  }

  lemma LinesConcat(cs: seq<Component>, values: seq<string>, ds: seq<Component>, others: seq<string>)
    requires |cs| == |values| && |ds| == |others|
    ensures Lines(cs + ds, values + others) == Lines(cs, values) + Lines(ds, others)
  {
    hide ComponentLine;
  }

  lemma LinesTaken(a: seq<Component>, av: seq<string>, m: seq<Component>, ms: seq<string>)
    requires |a| == |av| > 0 && |m| == |ms| > 0
    ensures Join(Lines(a, TakingLines(av, m, ms)), "\n") == Join(Lines(a, av) + Lines(m, ms), "\n")
  {
    hide Lines, Join, ComponentLine, TakingLines;
    var front, last := LinesLast(a, av, "\n" + Join(Lines(m, ms), "\n"));
    TakenAre(av, m, ms);
    JoinExtended(front, last, "\n" + Join(Lines(m, ms), "\n"), "\n");
    JoinConcat(front + [last], Lines(m, ms), "\n");
    ConcatAssociates(Join(front + [last], "\n"), "\n", Join(Lines(m, ms), "\n"));
  }

  lemma TakenAre(values: seq<string>, m: seq<Component>, ms: seq<string>)
    requires values != [] && |m| == |ms|
    ensures TakingLines(values, m, ms) ==
            values[..|values| - 1] + [values[|values| - 1] + ("\n" + Join(Lines(m, ms), "\n"))]
  {
  }

  lemma LinesLast(cs: seq<Component>, values: seq<string>, more: string) returns (front: seq<string>, last: string)
    requires |cs| == |values| > 0
    ensures Lines(cs, values) == front + [last]
    ensures Lines(cs, values[..|values| - 1] + [values[|values| - 1] + more]) == front + [last + more]
  {
    hide Lines, ComponentLine;
    var n := |cs| - 1;
    front, last := Lines(cs[..n], values[..n]), ComponentLine(cs[n], values[n]);
    LinesEnd(cs, values[..n], values[n]);
    LinesEnd(cs, values[..n], values[n] + more);
    assert values == values[..n] + [values[n]];
    LineExtended(cs[n], values[n], more);
  }

  lemma LinesEnd(cs: seq<Component>, values: seq<string>, value: string)
    requires |cs| == |values| + 1
    ensures Lines(cs, values + [value]) ==
            Lines(cs[..|values|], values) + [ComponentLine(cs[|values|], value)]
  {
    hide ComponentLine;
    var n := |values|;
    LinesConcat(cs[..n], values, [cs[n]], [value]);
    assert cs == cs[..n] + [cs[n]];
  }

  lemma LineExtended(c: Component, value: string, more: string)
    ensures ComponentLine(c, value + more) == ComponentLine(c, value) + more
  {
    hide IdentifierText;
    ConcatAssociates(IdentifierText(c) + ": ", value, more);
  }

  /** A smallest case, for all values v, w and z: the second list has its second component
      named b";k=a: "b and gives the first value the line of the second component. */
  lemma QuotedNameAndLfCollide(q: Component, p: SignatureParams, v: string, w: string, z: string)
    ensures var c, d, e := TokenField("b", "a:"), TokenField("b", "a"), TokenField("b\";k=a: \"b", "a");
            BaseText([q, c, d], [v, w, IdentifierText(d) + ": " + z], p) ==
            BaseText([q, e], [v + Separator(c) + w, z], p)
  {
    var c, d, e := TokenField("b", "a:"), TokenField("b", "a"), TokenField("b\";k=a: \"b", "a");
    CollidingNames();
    hide IdentifierText, BaseText, IdentifiersText, TokenField, Spanning, TakingLines, Separator, Imitation;
    OneLineTaken(v, c, w);
    OneImitated(c, d, z);
    SpanCollides([q], [v], [c], [w], d, z, [], [], p);
    OneBehindOther(q, c, d);
    OneBehindOther(v, w, IdentifierText(d) + ": " + z);
    OneBehindOther(q, e, e);
    OneBehindOther(v + Separator(c) + w, z, z);
  }

  lemma CollidingNames()
    ensures var c, d := TokenField("b", "a:"), TokenField("b", "a");
            && IdentifierText(c) == IdentifierText(d) + ":"
            && Spanning([c], d) == TokenField("b\";k=a: \"b", "a")
  {
    var c := TokenField("b", "a:");
    TokenIdentifier("b", "a:");
    TokenIdentifier("b", "a");
    hide IdentifierText;
    assert IdentifiersText([c]) == IdentifierText(c);
  }

  lemma OneBehindOther<T>(a: T, b: T, c: T)
    ensures [a] + [b] + [c] + [] == [a, b, c] && [a] + [b] + [] == [a, b]
  {
  }

  lemma OneImitated(c: Component, d: Component, z: string)
    ensures Imitation([c], d, z) == IdentifierText(d) + ": " + z
  {
    hide IdentifierText;
    assert [c][1..] + [d] == [d];
  }

  lemma OneLineTaken(v: string, c: Component, w: string)
    ensures TakingLines([v], [c], [w]) == [v + Separator(c) + w]
  {
    hide IdentifierText;
    assert Lines([c], [w]) == [ComponentLine(c, w)];
    var text := IdentifierText(c);
    ConcatAssociates(text, ": ", w);
    ConcatAssociates("\n", text, ": " + w);
    ConcatAssociates("\n" + text, ": ", w);
    ConcatAssociates(v, "\n" + text + ": ", w);
  }

  lemma TokenIdentifier(name: string, token: string)
    ensures IdentifierText(Component(name, Field, [ComponentParameter("k", TokenValue(token))])) ==
            "\"" + name + "\";k=" + token
  {
    var p := ComponentParameter("k", TokenValue(token));
    assert [p][1..] == [];
    OneTokenText(p, token);
    hide IdentifierParameterText;
    assert IdentifierParametersText([p]) == ";k=" + token + "";
    ConcatAssociates("\"" + name + "\"", ";k=", token);
    assert ";k=" + token + "" == ";k=" + token;
    assert "\"" + ";k=" == "\";k=";
    ConcatAssociates("\"" + name, "\"", ";k=");
  }

  lemma OneTokenText(p: ComponentParameter, token: string)
    requires p == ComponentParameter("k", TokenValue(token))
    ensures IdentifierParameterText(p) == ";k=" + token
  {
    ConcatAssociates(";k", "=", token);
    assert ";" + "k" == ";k" && ";k" + "=" == ";k=";
  }

  // And they happen to messages

  function TokenField(name: string, token: string): Component {
    Component(name, Field, [ComponentParameter("k", TokenValue(token))])
  }

  /** The request with a query, and one more header field. */
  function WithQueryAndHeader(request: Request, query: map<string, seq<string>>, name: string, value: string): Message
    requires request.url.Some?
  {
    WithQuery(request.(headers := request.headers[Canonical(name) := [value]]), query)
  }

  lemma TokenFieldValue(msg: Message, name: string, token: string, value: string)
    requires Lookup(Headers(msg), name) == [value] && NoNewline(value) && FieldLaws.IsTrimmed(value)
    ensures ComponentValue(msg, TokenField(name, token)) == Some(value)
  {
    var c := TokenField(name, token);
    var p := c.parameters[0];
    assert c.parameters[1..] == [];
    assert !HasReq(c.parameters);
    IgnoredParameter(p);
    var none := FieldParams(false, false, false, "");
    assert ReadParamsFrom(none, c.parameters[1..]) == none;
    assert ReadParams(c.parameters) == none;
    hide ReadParams, HasReq, Lookup, Headers, CanonicalValue, StructuredValue, NoNewline, FieldLaws.IsTrimmed;
    FieldLaws.SingleValue(value);
    FieldLaws.TrimKeeps(value);
  }

  lemma IgnoredParameter(p: ComponentParameter)
    requires p.key == "k" && p.value.TokenValue?
    ensures ReadParam(FieldParams(false, false, false, ""), p) == FieldParams(false, false, false, "")
  {
  }

  lemma QueryAndHeaderValues(
    request: Request, query: string, v: string, name: string, token: string, value: string)
    requires request.url.Some? && query != "" && NoNewline(value) && FieldLaws.IsTrimmed(value)
    ensures var m := WithQueryAndHeader(request, map[query := [v]], name, value);
            ComponentValue(m, QueryParam(query)) == Some(v) && ComponentValue(m, TokenField(name, token)) == Some(value)
  {
    var withHeader := request.(headers := request.headers[Canonical(name) := [value]]);
    hide Canonical, NoNewline, FieldLaws.IsTrimmed, ComponentValue, QueryParam;
    QueryParamValue(withHeader, map[query := [v]], query);
    TokenFieldValue(WithQueryAndHeader(request, map[query := [v]], name, value), name, token, value);
  }

  /** The line of a field, as a value. */
  lemma LineIsValue(token: string, z: string)
    requires token == "a" && NoNewline(z) && FieldLaws.IsTrimmed(z) && z != ""
    ensures var w := IdentifierText(TokenField("b", token)) + ": " + z; NoNewline(w) && FieldLaws.IsTrimmed(w)
  {
    TokenIdentifier("b", token);
    hide IdentifierText;
    var front := "\"" + "b" + "\";k=" + token + ": ";
    assert NoNewline(front);
    NoNewlineConcat(front, z);
    assert (front + z)[0] == '"' && (front + z)[|front + z| - 1] == z[|z| - 1];
  }

  lemma TwoFieldsBase(
    request: Request, query: string, p: SignatureParams, v: string, token: string, other: string, w: string)
    requires request.url.Some? && query != "" && NoNewline(w) && FieldLaws.IsTrimmed(w)
    ensures var m, cs := WithQueryAndHeader(request, map[query := [v]], "b", w),
                         [QueryParam(query), TokenField("b", token), TokenField("b", other)];
            BuildText(m, cs, p) == Some(BaseText(cs, [v, w, w], p))
  {
    hide QueryParam, TokenField, ComponentValue, BaseText, WithQueryAndHeader, NoNewline, FieldLaws.IsTrimmed;
    var m := WithQueryAndHeader(request, map[query := [v]], "b", w);
    QueryAndHeaderValues(request, query, v, "b", token, w);
    QueryAndHeaderValues(request, query, v, "b", other, w);
    ValuesAre(m, [QueryParam(query), TokenField("b", token), TokenField("b", other)], [v, w, w]);
  }

  lemma OneFieldBase(
    request: Request, query: string, p: SignatureParams, v: string, name: string, token: string, z: string)
    requires request.url.Some? && query != "" && NoNewline(z) && FieldLaws.IsTrimmed(z)
    ensures var m, cs := WithQueryAndHeader(request, map[query := [v]], name, z),
                         [QueryParam(query), TokenField(name, token)];
            BuildText(m, cs, p) == Some(BaseText(cs, [v, z], p))
  {
    hide QueryParam, TokenField, ComponentValue, BaseText, WithQueryAndHeader, NoNewline, FieldLaws.IsTrimmed;
    var m := WithQueryAndHeader(request, map[query := [v]], name, z);
    QueryAndHeaderValues(request, query, v, name, token, z);
    ValuesAre(m, [QueryParam(query), TokenField(name, token)], [v, z]);
  }

  /** Two requests with one base and different covered components: a query parameter and
      the header b twice, or the query parameter and a header with quotes in its name. */
  lemma HeadersCollide(request: Request, query: string, p: SignatureParams, v: string, z: string)
    requires request.url.Some? && query != "" && NoNewline(z) && FieldLaws.IsTrimmed(z) && z != ""
    ensures var q, c, d := QueryParam(query), TokenField("b", "a:"), TokenField("b", "a");
            var e := TokenField("b\";k=a: \"b", "a");
            var w := IdentifierText(d) + ": " + z;
            var m := WithQueryAndHeader(request, map[query := [v]], "b", w);
            var n := WithQueryAndHeader(request, map[query := [v + Separator(c) + w]], e.name, z);
            BuildText(m, [q, c, d], p).Some? && BuildText(m, [q, c, d], p) == BuildText(n, [q, e], p)
  {
    var q, c, d := QueryParam(query), TokenField("b", "a:"), TokenField("b", "a");
    QuotedNameAndLfCollide(q, p, v, IdentifierText(d) + ": " + z, z);
    LineIsValue("a", z);
    hide QueryParam, BuildText, BaseText, IdentifierText, Separator, WithQueryAndHeader, NoNewline, FieldLaws.IsTrimmed;
    var w := IdentifierText(d) + ": " + z;
    TwoFieldsBase(request, query, p, v, "a:", "a", w);
    OneFieldBase(request, query, p, v + Separator(c) + w, "b\";k=a: \"b", "a", z);
  }
}
