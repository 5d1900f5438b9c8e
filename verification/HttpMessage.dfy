/** The parts of an HTTP message a signature can cover. URLs arrive parsed: their
    parts are given strings. */
module HttpMessage {
  import opened Wrappers
  import opened SfvTypes

  /** Field values by canonical name, in order of occurrence. */
  type Fields = map<string, seq<string>>

  datatype Url = Url(
    full: string,
    host: string,
    scheme: string,
    escapedPath: string,
    rawQuery: string,
    query: map<string, seq<string>>)

  datatype Request = Request(verb: string, url: Option<Url>, headers: Fields, trailers: Fields)

  datatype Message =
    | RequestMessage(request: Request)
    | ResponseMessage(status: int, headers: Fields, trailers: Fields, related: Option<Request>)

  predicate IsFieldNameChar(c: char) {
    IsAlpha(c) || IsDigit(c) || c in "!#$%&'*+-.^_`|~"
  }

  function LowerChar(c: char): char {
    if 'A' <= c <= 'Z' then (c as int + 32) as char else c
  }

  function Lower(s: string): (r: string)
    ensures |r| == |s|
  {
    if s == "" then "" else [LowerChar(s[0])] + Lower(s[1..])
  }

  /** The key a field is stored under: case is folded, unless the name has a byte that
      no field name may have. */
  function Canonical(name: string): string {
    if forall i :: 0 <= i < |name| ==> IsFieldNameChar(name[i]) then Lower(name) else name
  }

  function Lookup(fields: Fields, name: string): seq<string> {
    var key := Canonical(name);
    if key in fields then fields[key] else []
  }

  function Headers(msg: Message): Fields {
    if msg.RequestMessage? then msg.request.headers else msg.headers
  }

  function HeaderValues(msg: Message, name: string): seq<string> {
    Lookup(Headers(msg), name)
  }

  function TrailerValues(msg: Message, name: string): seq<string> {
    Lookup(if msg.RequestMessage? then msg.request.trailers else msg.trailers, name)
  }

  /** The message with other headers. */
  function WithHeaders(msg: Message, fields: Fields): Message {
    match msg
    case RequestMessage(request) => RequestMessage(request.(headers := fields))
    case ResponseMessage(_, _, _, _) => msg.(headers := fields)
  }

  /** http.Header.Set and Get. */
  function Set(fields: Fields, name: string, value: string): Fields {
    fields[Canonical(name) := [value]]
  }

  function Get(fields: Fields, name: string): string {
    var values := Lookup(fields, name);
    if |values| == 0 then "" else values[0]
  }
}
