/** Derived components: which of them have a value, in which messages, and how their
    values hang together. */
module DerivedLaws {
  import opened Wrappers
  import opened SfvTypes
  import opened SfvGrammar
  import opened SignatureTypes
  import opened SignatureInput
  import opened HttpMessage
  import opened FieldValues
  import IdentifierQuotes
  import SfvPrimitives
  import SignatureParser

  // Which derived components have a value

  lemma {:induction false} ReqIsNoName(ps: seq<ComponentParameter>)
    ensures QueryParamName(WithoutReq(ps)) == QueryParamName(ps)
  {
    if ps != [] {
      ReqIsNoName(ps[1..]);
      var rest := WithoutReq(ps[1..]);
      assert WithoutReq(ps) == if ps[0].key != "req" then [ps[0]] + rest else rest;
      assert ps[0].key != "req" ==> WithoutReq(ps)[1..] == rest;
    }
  }

  /** What a derived component asks of the message apart, it needs one of these names, a
      name if it is a query parameter, and no related request if it is the status. */
  predicate CanHaveValue(c: Component) {
    && c.name in VALID_DERIVED
    && (c.name == "@query-param" ==> QueryParamName(c.parameters) != "")
    && (c.name == "@status" ==> !HasReq(c.parameters))
  }

  /** A request with every part there is, and the query parameter asked for. */
  function FullRequest(name: string): Request {
    Request("GET", Some(Url("https://a/", "a", "https", "/", "", map[name := [""]])), map[], map[])
  }

  function FullMessage(c: Component): Message {
    var request := FullRequest(QueryParamName(c.parameters));
    if c.name == "@status" then ResponseMessage(200, map[], map[], None)
    else if HasReq(c.parameters) then ResponseMessage(200, map[], map[], Some(request))
    else RequestMessage(request)
  }

  lemma FullHasValue(c: Component)
    requires c.kind == Derived && CanHaveValue(c)
    ensures ComponentValue(FullMessage(c), c).Some?
  {
    hide HasReq, WithoutReq, QueryParamName;
    ReqIsNoName(c.parameters);
  }

  lemma ValueNeedsName(msg: Message, c: Component)
    requires c.kind == Derived && ComponentValue(msg, c).Some?
    ensures CanHaveValue(c)
  {
    hide HasReq, WithoutReq, QueryParamName;
    ReqIsNoName(c.parameters);
  }

  /** A derived component has a value in some message exactly under these conditions. */
  lemma {:induction false} HasValueExactly(c: Component)
    requires c.kind == Derived
    ensures (exists msg :: ComponentValue(msg, c).Some?) <==> CanHaveValue(c)
  {
    hide ComponentValue, CanHaveValue, FullMessage;
    if CanHaveValue(c) {
      FullHasValue(c);
    }
    if msg :| ComponentValue(msg, c).Some? {
      ValueNeedsName(msg, c);
    }
  }

  function Named(name: string): Component {
    Component(name, Derived, [ComponentParameter("name", StringValue("a"))])
  }

  /** The names that validation admits are exactly those with a value in some message. */
  lemma {:induction false} ValidNamesExactly(name: string)
    ensures name in VALID_DERIVED <==>
            exists msg, c: Component :: c.kind == Derived && c.name == name && ComponentValue(msg, c).Some?
  {
    NamedIsComplete(name);
    hide ComponentValue;
    if name in VALID_DERIVED {
      HasValueExactly(Named(name));
      var msg :| ComponentValue(msg, Named(name)).Some?;
    }
    if msg, c: Component :| c.kind == Derived && c.name == name && ComponentValue(msg, c).Some? {
      HasValueExactly(c);
    }
  }

  lemma NamedIsComplete(name: string)
    ensures CanHaveValue(Named(name)) <==> name in VALID_DERIVED
  {
  }

  lemma {:induction false} NameIsKey(ps: seq<ComponentParameter>)
    requires QueryParamName(ps) != ""
    ensures HasKey(ps, "name")
  {
    if !(ps[0].key == "name" && ps[0].value.StringValue?) {
      NameIsKey(ps[1..]);
      var i :| 0 <= i < |ps[1..]| && ps[1..][i].key == "name";
      assert ps[i + 1].key == "name";
    }
  }

  /** Whatever has a value is accepted by the parser, unless it combines flags that
      exclude each other. */
  lemma ValueIsAccepted(msg: Message, c: Component, limits: Limits)
    requires c.kind == KindOf(c.name) == Derived && ComponentValue(msg, c).Some?
    requires FitsItem(ToSfvItem(c), limits)
    ensures SignatureParser.ConvertItem(ToSfvItem(c)) == if ValidCombination(c.parameters) then Some(c) else None
  {
    ValueNeedsName(msg, c);
    if c.name == "@query-param" {
      NameIsKey(c.parameters);
    }
    hide ComponentValue, ValidCombination, FitsItem;
    if ValidCombination(c.parameters) {
      ConvertComponent(c, limits);
    } else {
      InvalidIsRefused(c, limits);
    }
  }

  lemma InvalidIsRefused(c: Component, limits: Limits)
    requires c.kind == KindOf(c.name) && FitsItem(ToSfvItem(c), limits) && !ValidCombination(c.parameters)
    ensures SignatureParser.ConvertItem(ToSfvItem(c)).None?
  {
    hide ValidCombination, FitsBareItem, FitsParameter;
    if SignatureParser.ConvertItem(ToSfvItem(c)).Some? {
      ConvertedItem(ToSfvItem(c), limits);
      var d := SignatureParser.ConvertItem(ToSfvItem(c)).value;
      assert ToSfvItem(d) == ToSfvItem(c);
      IdentifierQuotes.ToSfvParametersInjective(c.parameters, d.parameters);
    }
  }

  /** What is accepted and has a value nowhere: a query parameter whose name is no string,
      or empty, and the status of a related request. */
  lemma AcceptedWithoutValue(c: Component, limits: Limits)
    requires FitsItem(ToSfvItem(c), limits) && SignatureParser.ConvertItem(ToSfvItem(c)) == Some(c)
    requires c.kind == Derived && forall msg :: ComponentValue(msg, c).None?
    ensures (c.name == "@query-param" && HasKey(c.parameters, "name") && QueryParamName(c.parameters) == "")
            || (c.name == "@status" && HasReq(c.parameters))
  {
    hide ComponentValue, HasReq, HasKey, QueryParamName, ValidCombination, FitsItem;
    HasValueExactly(c);
    ConvertedItem(ToSfvItem(c), limits);
  }

  // In which messages

  /** The status belongs to responses; everything else to requests, also to the request
      of a response. */
  lemma OfOneKindOfMessage(msg: Message, c: Component)
    requires c.kind == Derived && !HasReq(c.parameters) && ComponentValue(msg, c).Some?
    ensures msg.ResponseMessage? <==> c.name == "@status"
  {
    hide QueryParamName;
  }

  /** The method tells requests apart exactly as their verbs do. */
  lemma MethodIsVerb(m: Message, n: Message, c: Component)
    requires m.RequestMessage? && n.RequestMessage? && c == Component("@method", Derived, [])
    ensures ComponentValue(m, c).Some?
    ensures ComponentValue(m, c) == ComponentValue(n, c) <==> m.request.verb == n.request.verb
  {
  }

  /** The status can be read back as the integer it is. */
  lemma StatusReadsBack(msg: Message, c: Component)
    requires msg.ResponseMessage? && -1_000_000_000_000_000 < msg.status < 1_000_000_000_000_000
    requires c.kind == Derived && c.name == "@status" && !HasReq(c.parameters)
    ensures ComponentValue(msg, c).Some?
    ensures ParseInteger(ComponentValue(msg, c).value) == Done(Integer(msg.status), "")
  {
    hide ParseInteger, FormatInt;
    SfvPrimitives.IntegerRoundTrip(msg.status, "");
    NothingAdded(FormatInt(msg.status));
  }

  /** A query parameter has its first value, however many follow. */
  lemma FurtherValuesIgnored(request: Request, c: Component, first: string, more: seq<string>)
    requires request.url.Some? && c.kind == Derived && c.name == "@query-param" && !HasReq(c.parameters)
    requires QueryParamName(c.parameters) != ""
    ensures var name := QueryParamName(c.parameters);
            var query := request.url.value.query[name := [first] + more];
            ComponentValue(RequestMessage(request.(url := Some(request.url.value.(query := query)))), c) == Some(first)
  {
    hide QueryParamName, HasReq;
  }

  // How the values of a URL hang together

  /** The request target is the path, then the query with its question mark, unless the
      query is empty: there @query is "?" and the target has none. */
  lemma RequestTargetIsPathAndQuery(msg: Message, target: Component, path: Component, query: Component)
    requires target.name == "@request-target" && path.name == "@path" && query.name == "@query"
    requires DerivedValue(msg, target).Some?
    ensures DerivedValue(msg, path).Some? && DerivedValue(msg, query).Some?
    ensures var p, q := DerivedValue(msg, path).value, DerivedValue(msg, query).value;
            DerivedValue(msg, target) == Some(if q == "?" then p else p + q)
  {
    var u := UrlOf(msg).value;
    hide PathOf;
    ConcatAssociates(PathOf(u), "?", u.rawQuery);
  }

  /** The text of a URL made of its parts. */
  predicate IsWhole(u: Url) {
    u.full == u.scheme + "://" + u.host + u.escapedPath + if u.rawQuery == "" then "" else "?" + u.rawQuery
  }

  /** The target URI is scheme, authority and request target put together; of a URL
      without path the request target has a slash that the URI has not. */
  lemma TargetUriIsItsParts(
    msg: Message, uri: Component, scheme: Component, authority: Component, target: Component)
    requires uri.name == "@target-uri" && scheme.name == "@scheme" && authority.name == "@authority"
    requires target.name == "@request-target" && UrlOf(msg).Some? && IsWhole(UrlOf(msg).value)
    ensures DerivedValue(msg, uri).Some? && DerivedValue(msg, scheme).Some?
    ensures DerivedValue(msg, authority).Some? && DerivedValue(msg, target).Some?
    ensures var front := DerivedValue(msg, scheme).value + "://" + DerivedValue(msg, authority).value;
            var t := DerivedValue(msg, target).value;
            && t != ""
            && (UrlOf(msg).value.escapedPath == "" ==> t[0] == '/')
            && DerivedValue(msg, uri) == Some(front + if UrlOf(msg).value.escapedPath == "" then t[1..] else t)
  {
    var u := UrlOf(msg).value;
    var front, query := u.scheme + "://" + u.host, if u.rawQuery == "" then "" else "?" + u.rawQuery;
    ConcatAssociates(front, u.escapedPath, query);
    NothingAdded(front);
    NothingAdded(u.escapedPath);
    ConcatAssociates("/", "?", u.rawQuery);
    ConcatAssociates(u.escapedPath, "?", u.rawQuery);
    DropFirst("/", query);
  }
}
