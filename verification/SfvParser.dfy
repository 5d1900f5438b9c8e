/** The parser: a cursor over immutable text. Each method moves the cursor and is
    proved to compute the grammar's function on the text that was left. */
module SfvParser {
  import opened Wrappers
  import opened SfvTypes
  import opened SfvGrammar
  import Base64

  /** Slices of slices, and a scan that stopped at j. */
  lemma ScanIs(p: char -> bool, data: string, i: nat, j: nat)
    requires i <= j <= |data|
    requires forall k :: i <= k < j ==> p(data[k])
    requires j < |data| ==> !p(data[j])
    ensures Span(p, data[i..]) == j - i
    ensures data[i..][..j - i] == data[i..j] && data[i..][j - i..] == data[j..]
  {
    SpanIs(p, data[i..j], data[j..]);
    assert data[i..] == data[i..j] + data[j..];
  }

  // The two passes over a quoted string

  /** Length of the next raw byte or escape; the escaped byte is not looked at yet. */
  function RawLength(s: string): (n: Option<int>)
    requires s != ""
    ensures n.Some? ==> 1 <= n.value <= |s|
  {
    if s[0] == '\\' then if |s| >= 2 then Some(2) else None
    else if IsPrintable(s[0]) then Some(1)
    else None
  }

  /** First pass: the raw text before the closing quote, and the text behind it. */
  function ScanString(s: string, used: nat, limits: Limits): Parse<string> {
    if s == "" then Fail
    else if s[0] == '"' then Done("", s[1..])
    else
      match RawLength(s)
      case None => Fail
      case Some(n) =>
        if !Within(used + n, limits.maxStringLength) then Fail
        else
          var (raw, rest) :- ScanString(s[n..], used + n, limits);
          Done(s[..n] + raw, rest)
  }

  /** Why a raw string cannot be decoded. */
  datatype DecodeFailure = EndAfterBackslash | InvalidEscape | TooLong

  datatype Decoded = Good(text: string) | Bad(failure: DecodeFailure)

  /** Second pass: `text` has been decoded so far. */
  function DecodeFrom(raw: string, text: string, limits: Limits): Decoded {
    if raw == "" then Good(text)
    else if raw[0] == '\\' && |raw| < 2 then Bad(EndAfterBackslash)
    else if raw[0] == '\\' && raw[1] != '"' && raw[1] != '\\' then Bad(InvalidEscape)
    else
      var n := if raw[0] == '\\' then 2 else 1;
      var more := text + [raw[n - 1]];
      if Within(|more|, limits.maxStringLength) then DecodeFrom(raw[n..], more, limits) else Bad(TooLong)
  }

  /** The two passes accept what the one-pass grammar accepts, with the same result.
      The second can only fail for an invalid escape: the end of the text and the
      length limit have been checked by the first. */
  lemma {:induction false} TwoPasses(s: string, text: string, used: nat, limits: Limits)
    requires |text| <= used
    requires ScanString(s, used, limits).Done?
    ensures var scan := ScanString(s, used, limits);
            match DecodeFrom(scan.value, text, limits)
            case Good(t) =>
              var body := ParseStringBody(s, used, limits);
              body.Done? && t == text + body.value && body.rest == scan.rest
            case Bad(f) => ParseStringBody(s, used, limits).Fail? && f == InvalidEscape
  {
    var scan := ScanString(s, used, limits);
    if s[0] == '"' {
      assert text + "" == text;
    } else {
      var n := RawLength(s).value;
      var tail := ScanString(s[n..], used + n, limits);
      DecodeStep(s, n, tail.value, text, limits);
      hide DecodeFrom, RawLength, NextChar;
      if NextChar(s).Some? {
        TwoPasses(s[n..], text + [s[n - 1]], used + n, limits);
        var body := ParseStringBody(s[n..], used + n, limits);
        if body.Done? {
          ConcatAssociates(text, [s[n - 1]], body.value);
        }
      }
    }
  }

  lemma DecodeStep(s: string, n: nat, raw: string, text: string, limits: Limits)
    requires s != "" && s[0] != '"' && RawLength(s) == Some(n)
    requires Within(|text| + n, limits.maxStringLength)
    ensures NextChar(s).Some? ==> NextChar(s).value == (s[n - 1], n)
    ensures DecodeFrom(s[..n] + raw, text, limits) ==
            if NextChar(s).Some? then DecodeFrom(raw, text + [s[n - 1]], limits) else Bad(InvalidEscape)
  {
    assert (s[..n] + raw)[n..] == raw;
  }

  lemma {:induction false} ScanFailure(s: string, used: nat, limits: Limits)
    requires ScanString(s, used, limits).Fail?
    ensures ParseStringBody(s, used, limits).Fail?
  {
    if s != "" && s[0] != '"' && RawLength(s).Some? {
      var n := RawLength(s).value;
      if ScanString(s[n..], used + n, limits).Fail? {
        ScanFailure(s[n..], used + n, limits);
      }
    }
  }

  /** Without a backslash the raw text is its own decoding. */
  lemma {:induction false} NoEscapes(raw: string, text: string, limits: Limits)
    requires forall i :: 0 <= i < |raw| ==> raw[i] != '\\'
    requires Within(|text| + |raw|, limits.maxStringLength)
    ensures DecodeFrom(raw, text, limits) == Good(text + raw)
  {
    if raw != "" {
      NoEscapes(raw[1..], text + [raw[0]], limits);
      assert text + [raw[0]] + raw[1..] == text + raw;
    } else {
      assert text + raw == text;
    }
  }

  /** The first pass has read data[start..i] and what remains decides the outcome. */
  ghost predicate Scanned(data: string, start: nat, i: nat, limits: Limits) {
    && 1 <= start <= i <= |data|
    && data[start - 1] == '"'
    && match ScanString(data[i..], i - start, limits)
       case Fail => ScanString(data[start..], 0, limits).Fail?
       case Done(raw, rest) => ScanString(data[start..], 0, limits) == Done(data[start..i] + raw, rest)
  }

  lemma ScanStart(data: string, start: nat, limits: Limits)
    requires 1 <= start <= |data| && data[start - 1] == '"'
    ensures Scanned(data, start, start, limits)
  {
    var scan := ScanString(data[start..], 0, limits);
    assert scan.Done? ==> data[start..start] + scan.value == scan.value;
  }

  lemma SliceGrows(data: string, start: nat, i: nat, n: nat)
    requires start <= i && i + n <= |data|
    ensures data[start..i] + data[i..][..n] == data[start..i + n] && data[i..][n..] == data[i + n..]
  {
  }

  /** A turn that reads n raw bytes keeps the state; one that cannot makes the parse fail. */
  lemma ScanStep(data: string, start: nat, i: nat, limits: Limits)
    requires Scanned(data, start, i, limits) && i < |data| && data[i] != '"'
    ensures var n := RawLength(data[i..]);
            if n.Some? && Within(i + n.value - start, limits.maxStringLength)
            then Scanned(data, start, i + n.value, limits)
            else ParseString(data[start - 1..], limits) == Fail
  {
    hide RawLength, ParseString;
    var n := RawLength(data[i..]);
    if n.Some? && Within(i + n.value - start, limits.maxStringLength) {
      var tail := ScanString(data[i + n.value..], i + n.value - start, limits);
      SliceGrows(data, start, i, n.value);
      if tail.Done? {
        ConcatAssociates(data[start..i], data[i..][..n.value], tail.value);
      }
    } else {
      StringFails(data, start, limits);
    }
  }

  lemma ScanEnd(data: string, start: nat, limits: Limits)
    requires Scanned(data, start, |data|, limits)
    ensures ParseString(data[start - 1..], limits) == Fail
  {
    StringFails(data, start, limits);
  }

  lemma StringFails(data: string, start: nat, limits: Limits)
    requires 1 <= start <= |data| && data[start - 1] == '"' && ScanString(data[start..], 0, limits).Fail?
    ensures ParseString(data[start - 1..], limits) == Fail
  {
    hide ParseStringBody, ScanString;
    ScanFailure(data[start..], 0, limits);
    assert data[start - 1..][1..] == data[start..];
  }

  lemma ScanCompletes(data: string, start: nat, end: nat, limits: Limits)
    requires Scanned(data, start, end, limits) && end < |data| && data[end] == '"'
    ensures 1 <= start <= end && data[start - 1] == '"'
    ensures ScanString(data[start..], 0, limits) == Done(data[start..end], data[end + 1..])
  {
    assert ScanString(data[end..], end - start, limits) == Done("", data[end..][1..]);
    assert data[end..][1..] == data[end + 1..];
    assert data[start..end] + "" == data[start..end];
  }

  /** At the closing quote the second pass decides the outcome. */
  lemma ScanQuote(data: string, start: nat, end: nat, limits: Limits)
    requires Scanned(data, start, end, limits) && end < |data| && data[end] == '"'
    ensures 1 <= start <= end
    ensures ParseString(data[start - 1..], limits) ==
            match DecodeFrom(data[start..end], "", limits)
            case Good(text) => Done(Str(text), data[end + 1..])
            case Bad(_) => Fail
  {
    hide DecodeFrom, ParseStringBody, ScanString, Scanned;
    ScanCompletes(data, start, end, limits);
    TwoPasses(data[start..], "", 0, limits);
    var body := ParseStringBody(data[start..], 0, limits);
    assert body.Done? ==> "" + body.value == body.value;
    assert data[start - 1..][1..] == data[start..];
  }

  /** The grammar's integer, token and byte sequence at an index, from what a scan found. */
  lemma IntegerAt(data: string, start: nat, digits: nat, end: nat)
    requires start <= digits <= end <= |data|
    requires digits == if start < |data| && data[start] == '-' then start + 1 else start
    requires forall k :: digits <= k < end ==> IsDigit(data[k])
    requires end < |data| ==> !IsDigit(data[end])
    ensures ParseInteger(data[start..]) ==
            if end == digits || end - digits > 15 then Fail
            else
              match ParseInt64(digits > start, data[digits..end])
              case None => Fail
              case Some(i) => Done(Integer(i), data[end..])
  {
    hide ParseInt64, IsDigit, Span;
    ScanIs(IsDigit, data, digits, end);
    assert digits > start ==> data[start..][1..] == data[digits..];
    assert start < |data| ==> data[start..][0] == data[start];
  }

  lemma DigitIs(c: char)
    ensures IsDigit(c) <==> c >= '0' && c <= '9'
  {
  }

  lemma TokenAt(data: string, start: nat, end: nat, limits: Limits)
    requires start < end <= |data|
    requires IsAlpha(data[start]) || data[start] == '*'
    requires forall k :: start < k < end ==> IsTokenChar(data[k])
    requires end < |data| ==> !IsTokenChar(data[end])
    ensures ParseToken(data[start..], limits) ==
            if Within(end - start, limits.maxTokenLength) then Done(data[start..end], data[end..]) else Fail
  {
    hide IsAlpha, IsTokenChar, Span;
    ScanIs(IsTokenChar, data, start + 1, end);
    assert data[start..][1..] == data[start + 1..];
    assert data[start..][..end - start] == data[start..end];
    assert data[start..][end - start..] == data[end..];
  }

  lemma ByteSequenceAt(data: string, start: nat, end: nat, limits: Limits)
    requires start < end <= |data| && data[start] == ':'
    requires forall k :: start < k < end ==> IsBase64Char(data[k])
    requires end < |data| ==> !IsBase64Char(data[end])
    ensures ParseByteSequence(data[start..], limits) ==
            if end == |data| || data[end] != ':' then Fail
            else
              match Base64.DecodeEither(data[start + 1..end])
              case None => Fail
              case Some(bs) =>
                if Within(|bs|, limits.maxByteSequenceLength) then Done(ByteSequence(bs), data[end + 1..]) else Fail
  {
    hide IsBase64Char, Span, Base64.DecodeEither;
    ScanIs(IsBase64Char, data, start + 1, end);
    assert data[start..][1..] == data[start + 1..];
    assert end < |data| ==> data[end..][1..] == data[end + 1..];
  }

  lemma NoColonFails(s: string, limits: Limits)
    ensures Head(s) != ':' ==> ParseByteSequence(s, limits) == Fail
  {
  }

  lemma NoQuoteFails(s: string, limits: Limits)
    ensures Head(s) != '"' ==> ParseString(s, limits) == Fail
  {
  }

  class Parser {
    const data: string
    const limits: Limits
    var offset: nat

    constructor (data: string, limits: Limits)
      ensures this.data == data && this.limits == limits && offset == 0 && Valid()
    {
      this.data, this.limits, this.offset := data, limits, 0;
    }

    ghost predicate Valid()
      reads this
    {
      offset <= |data|
    }

    /** The text not yet read. */
    ghost function Rest(): string
      requires Valid()
      reads this
    {
      data[offset..]
    }

    /** A method's result and the cursor it leaves agree with the grammar. */
    ghost predicate Agrees<T>(r: Option<T>, p: Parse<T>)
      requires Valid()
      reads this
    {
      match p
      case Fail => r.None?
      case Done(value, rest) => r == Some(value) && Rest() == rest
    }

    function Peek(): (c: char)
      reads this
      ensures Valid() ==> c == Head(Rest())
    {
      if offset >= |data| then '\0' else data[offset]
    }

    predicate IsEof()
      reads this
    {
      offset >= |data|
    }

    /** NUL is also the mark for the end of input, so consuming it there would step
        past the end; the parser never asks for it. */
    method Consume(expected: char) returns (ok: bool)
      requires Valid()
      modifies this`offset
      ensures ok == (old(Peek()) == expected)
      ensures offset == old(offset) + if ok then 1 else 0
      ensures Valid() <==> !(expected == '\0' && old(IsEof()))
    {
      if Peek() == expected {
        offset := offset + 1;
        return true;
      }
      return false;
    }

    method SkipOws()
      requires Valid()
      modifies this`offset
      ensures Valid() && Rest() == SfvGrammar.SkipOws(old(Rest()))
    {
      var start := offset;
      while offset < |data|
        invariant start <= offset <= |data|
        invariant forall k :: start <= k < offset ==> IsOws(data[k])
      {
        var c := data[offset];
        if c == ' ' || c == '\t' {
          offset := offset + 1;
        } else {
          break;
        }
      }
      ScanIs(IsOws, data, start, offset);
    }

    method SkipSpaces()
      requires Valid()
      modifies this`offset
      ensures Valid() && Rest() == SfvGrammar.SkipSpaces(old(Rest()))
    {
      var start := offset;
      while offset < |data| && data[offset] == ' '
        invariant start <= offset <= |data|
        invariant forall k :: start <= k < offset ==> IsSpace(data[k])
      {
        offset := offset + 1;
      }
      ScanIs(IsSpace, data, start, offset);
    }

    /** Up to twenty bytes on either side of the cursor, with marks where text is left out. */
    method GetContext() returns (context: string)
      requires Valid()
      ensures var lo := if offset < 20 then 0 else offset - 20;
              var hi := if |data| - offset < 20 then |data| else offset + 20;
              context == (if lo > 0 then "..." else "") + data[lo..hi] + (if hi < |data| then "..." else "")
    {
      var start := if offset - 20 > 0 then offset - 20 else 0;
      var end := if offset + 20 < |data| then offset + 20 else |data|;
      context := data[start..end];
      if start > 0 {
        context := "..." + context;
      }
      if end < |data| {
        context := context + "...";
      }
    }

    function CheckInputLength(): bool {
      !(limits.maxInputLength > 0 && |data| > limits.maxInputLength)
    }

    method ParseBoolean() returns (r: Option<BareItem>)
      requires Valid()
      modifies this`offset
      ensures Valid() && Agrees(r, SfvGrammar.ParseBoolean(old(Rest())))
    {
      var ok := Consume('?');
      if !ok {
        return None;
      }
      var c := Peek();
      if c == '1' {
        offset := offset + 1;
        return Some(Boolean(true));
      } else if c == '0' {
        offset := offset + 1;
        return Some(Boolean(false));
      }
      return None;
    }

    method ParseInteger() returns (r: Option<BareItem>)
      requires Valid()
      modifies this`offset
      ensures Valid() && Agrees(r, SfvGrammar.ParseInteger(old(Rest())))
    {
      hide SfvGrammar.ParseInteger, ParseInt64, IsDigit;
      var start := offset;
      if Peek() == '-' {
        offset := offset + 1;
      }
      var digitStart := offset;
      while offset < |data|
        invariant digitStart <= offset <= |data|
        invariant forall k :: digitStart <= k < offset ==> IsDigit(data[k])
      {
        var c := data[offset];
        DigitIs(c);
        if c >= '0' && c <= '9' {
          offset := offset + 1;
        } else {
          break;
        }
      }
      IntegerAt(data, start, digitStart, offset);
      if offset == digitStart {
        return None;
      }
      var digitCount := offset - digitStart;
      if digitCount > 15 {
        return None;
      }
      var value := ParseInt64(digitStart > start, data[digitStart..offset]);
      if value.None? {
        return None;
      }
      return Some(Integer(value.value));
    }

    method ParseString() returns (r: Option<BareItem>)
      requires Valid()
      modifies this`offset
      ensures Valid() && Agrees(r, SfvGrammar.ParseString(old(Rest()), limits))
    {
      hide SfvGrammar.ParseString, Scanned, DecodeFrom, RawLength;
      NoQuoteFails(Rest(), limits);
      var ok := Consume('"');
      if !ok {
        return None;
      }
      var start := offset;
      var hasEscapes := false;
      ScanStart(data, start, limits);
      while true
        invariant start <= offset <= |data|
        invariant !hasEscapes ==> forall k :: start <= k < offset ==> data[k] != '\\'
        invariant Within(offset - start, limits.maxStringLength)
        invariant Scanned(data, start, offset, limits)
        decreases |data| - offset
      {
        if IsEof() {
          ScanEnd(data, start, limits);
          return None;
        }
        var c := data[offset];
        if c == '"' {
          ScanQuote(data, start, offset, limits);
          var text := FinishString(start, hasEscapes);
          return if text.Some? then Some(Str(text.value)) else None;
        }
        ScanStep(data, start, offset, limits);
        var escaped: bool;
        ok, escaped := ConsumeCharacter(start);
        if !ok {
          return None;
        }
        hasEscapes := hasEscapes || escaped;
      }
    }

    /** One turn of the string loop: a byte or an escape, then the length check. */
    method ConsumeCharacter(start: nat) returns (ok: bool, escaped: bool)
      requires Valid() && start <= offset < |data| && data[offset] != '"'
      modifies this`offset
      ensures Valid() && escaped == (data[old(offset)] == '\\')
      ensures ok && !escaped ==> offset == old(offset) + 1
      ensures var n := RawLength(old(Rest()));
              && ok == (n.Some? && Within(old(offset) + n.value - start, limits.maxStringLength))
              && (ok ==> offset == old(offset) + n.value)
    {
      var c := data[offset];
      escaped := c == '\\';
      if c == '\\' {
        ok := ConsumeEscapeMarker();
        if !ok {
          return;
        }
      } else if c < ' ' || c > '~' {
        ok := false;
        return;
      }
      offset := offset + 1;
      ok := !(limits.maxStringLength > 0 && offset - start > limits.maxStringLength);
    }

    /** At the closing quote; the text without escapes is taken as it stands. */
    method FinishString(start: nat, hasEscapes: bool) returns (r: Option<string>)
      requires Valid() && start <= offset < |data|
      requires !hasEscapes ==> forall k :: start <= k < offset ==> data[k] != '\\'
      requires Within(offset - start, limits.maxStringLength)
      modifies this`offset
      ensures offset == old(offset) + 1
      ensures match DecodeFrom(data[start..old(offset)], "", limits)
              case Good(text) => r == Some(text)
              case Bad(_) => r == None
    {
      var val := data[start..offset];
      offset := offset + 1;
      if !hasEscapes {
        NoEscapes(val, "", limits);
        assert "" + val == val;
        return Some(val);
      }
      r := DecodeString(val);
    }

    method ConsumeEscapeMarker() returns (ok: bool)
      requires Valid() && offset < |data|
      modifies this`offset
      ensures offset == old(offset) + 1 && ok == !IsEof()
    {
      offset := offset + 1;
      return !IsEof();
    }

    method DecodeString(val: string) returns (r: Option<string>)
      ensures match DecodeFrom(val, "", limits)
              case Good(text) => r == Some(text)
              case Bad(_) => r == None
    {
      var buf := "";
      var i := 0;
      while i < |val|
        invariant 0 <= i <= |val|
        invariant DecodeFrom(val[i..], buf, limits) == DecodeFrom(val, "", limits)
      {
        var c := val[i];
        ghost var here := i;
        if c == '\\' {
          i := i + 1;
          if i >= |val| {
            return None;
          }
          var escaped := val[i];
          if escaped != '"' && escaped != '\\' {
            return None;
          }
          buf := buf + [escaped];
        } else {
          buf := buf + [c];
        }
        if limits.maxStringLength > 0 && |buf| > limits.maxStringLength {
          return None;
        }
        i := i + 1;
        assert val[here..][i - here..] == val[i..];
      }
      return Some(buf);
    }

    method ParseToken() returns (r: Option<string>)
      requires Valid()
      modifies this`offset
      ensures Valid() && Agrees(r, SfvGrammar.ParseToken(old(Rest()), limits))
    {
      hide Span, IsTokenChar, IsAlpha;
      var start := offset;
      if IsEof() {
        return None;
      }
      var c := data[offset];
      if !IsAlpha(c) && c != '*' {
        return None;
      }
      hide SfvGrammar.ParseToken;
      offset := offset + 1;
      while offset < |data|
        invariant start < offset <= |data|
        invariant forall k :: start < k < offset ==> IsTokenChar(data[k])
      {
        if IsTokenChar(data[offset]) {
          offset := offset + 1;
        } else {
          break;
        }
      }
      TokenAt(data, start, offset, limits);
      var tokenLen := offset - start;
      if limits.maxTokenLength > 0 && tokenLen > limits.maxTokenLength {
        return None;
      }
      return Some(data[start..offset]);
    }

    /** Padded first, then unpadded. */
    static method DecodeBase64(s: string) returns (decoded: Option<seq<Octet>>)
      ensures decoded == Base64.DecodeEither(s)
    {
      hide Base64.Decode;
      decoded := Base64.Decode(s, true);
      if decoded.None? {
        decoded := Base64.Decode(s, false);
      }
    }

    method ParseByteSequence() returns (r: Option<BareItem>)
      requires Valid()
      modifies this`offset
      ensures Valid() && Agrees(r, SfvGrammar.ParseByteSequence(old(Rest()), limits))
    {
      hide SfvGrammar.ParseByteSequence, Base64.DecodeEither, Span, IsBase64Char;
      NoColonFails(Rest(), limits);
      var ok := Consume(':');
      if !ok {
        return None;
      }
      var start := offset;
      ColonIsNotBase64();
      while offset < |data|
        invariant start <= offset <= |data|
        invariant forall k :: start <= k < offset ==> IsBase64Char(data[k])
      {
        var c := data[offset];
        if c == ':' {
          break;
        }
        if !IsBase64Char(c) {
          ByteSequenceAt(data, start - 1, offset, limits);
          return None;
        }
        offset := offset + 1;
      }
      ByteSequenceAt(data, start - 1, offset, limits);
      if IsEof() || Peek() != ':' {
        return None;
      }
      var base64Str := data[start..offset];
      offset := offset + 1;
      var decoded := DecodeBase64(base64Str);
      if decoded.None? {
        return None;
      }
      if limits.maxByteSequenceLength > 0 && |decoded.value| > limits.maxByteSequenceLength {
        return None;
      }
      return Some(ByteSequence(decoded.value));
    }

    method ParseBareItem() returns (r: Option<BareItem>)
      requires Valid()
      modifies this`offset
      ensures Valid() && Agrees(r, SfvGrammar.ParseBareItem(old(Rest()), limits))
    {
      hide SfvGrammar.ParseBoolean, SfvGrammar.ParseInteger, SfvGrammar.ParseString,
        SfvGrammar.ParseByteSequence, SfvGrammar.ParseToken;
      if IsEof() {
        return None;
      }
      var c := Peek();
      if c == '?' {
        r := ParseBoolean();
      } else if c == '-' || (c >= '0' && c <= '9') {
        r := ParseInteger();
      } else if c == '"' {
        r := ParseString();
      } else if c == ':' {
        r := ParseByteSequence();
      } else if c == '*' || IsAlpha(c) {
        var token := ParseToken();
        r := if token.Some? then Some(Token(token.value)) else None;
      } else {
        r := None;
      }
    }

    method ParseParameters() returns (r: Option<seq<Parameter>>)
      requires Valid()
      modifies this`offset
      ensures Valid() && Agrees(r, SfvGrammar.ParseParameters(old(Rest()), 0, limits))
    {
      hide SfvGrammar.ParseParameter;
      var params: seq<Parameter> := [];
      ghost var whole := SfvGrammar.ParseParameters(Rest(), 0, limits);
      assert whole.Done? ==> params + whole.value == whole.value;
      while Peek() == ';'
        invariant Valid()
        invariant match SfvGrammar.ParseParameters(Rest(), |params|, limits)
                  case Fail => whole.Fail?
                  case Done(more, rest) => whole == Done(params + more, rest)
        decreases |data| - offset
      {
        if limits.maxParameters > 0 && |params| >= limits.maxParameters {
          return None;
        }
        ghost var here := Rest();
        offset := offset + 1;
        assert here[1..] == Rest();
        var param := ParseParameter();
        if param.None? {
          return None;
        }
        ghost var tail := SfvGrammar.ParseParameters(Rest(), |params| + 1, limits);
        if tail.Done? {
          ConcatAssociates(params, [param.value], tail.value);
        }
        params := params + [param.value];
      }
      assert params + [] == params;
      return Some(params);
    }

    /** One turn of the parameter loop, behind the ';'. */
    method ParseParameter() returns (r: Option<Parameter>)
      requires Valid()
      modifies this`offset
      ensures Valid() && Agrees(r, SfvGrammar.ParseParameter(old(Rest()), limits))
    {
      hide SfvGrammar.ParseToken, SfvGrammar.ParseBareItem;
      var key := ParseToken();
      if key.None? {
        return None;
      }
      var value := Some(Boolean(true));
      if Peek() == '=' {
        ghost var afterKey := Rest();
        offset := offset + 1;
        assert afterKey[1..] == Rest();
        value := ParseBareItem();
        if value.None? {
          return None;
        }
      }
      return Some(Parameter(key.value, value.value));
    }

    method ParseItem() returns (r: Option<Item>)
      requires Valid()
      modifies this`offset
      ensures Valid() && Agrees(r, SfvGrammar.ParseItem(old(Rest()), limits))
    {
      hide SfvGrammar.ParseBareItem, SfvGrammar.ParseParameters;
      var value := ParseBareItem();
      if value.None? {
        return None;
      }
      var params := ParseParameters();
      if params.None? {
        return None;
      }
      return Some(Item(value.value, params.value));
    }

    /** The items of an inner list, up to the ')'. */
    method ParseItems() returns (r: Option<seq<Item>>)
      requires Valid()
      modifies this`offset
      ensures Valid() && Agrees(r, SfvGrammar.ParseItems(old(Rest()), 0, limits))
    {
      hide SfvGrammar.ParseItem, SfvGrammar.SkipSpaces;
      var items: seq<Item> := [];
      ghost var whole := SfvGrammar.ParseItems(Rest(), 0, limits);
      assert whole.Done? ==> items + whole.value == whole.value;
      while true
        invariant Valid()
        invariant match SfvGrammar.ParseItems(Rest(), |items|, limits)
                  case Fail => whole.Fail?
                  case Done(more, rest) => whole == Done(items + more, rest)
        decreases |data| - offset
      {
        SkipSpaces();
        if Peek() == ')' {
          break;
        }
        if limits.maxInnerListMembers > 0 && |items| >= limits.maxInnerListMembers {
          return None;
        }
        var item := ParseItem();
        if item.None? {
          return None;
        }
        ghost var tail := SfvGrammar.ParseItems(Rest(), |items| + 1, limits);
        if tail.Done? {
          ConcatAssociates(items, [item.value], tail.value);
        }
        items := items + [item.value];
      }
      assert items + [] == items;
      return Some(items);
    }

    method ParseInnerList() returns (r: Option<InnerList>)
      requires Valid()
      modifies this`offset
      ensures Valid() && Agrees(r, SfvGrammar.ParseInnerList(old(Rest()), limits))
    {
      hide SfvGrammar.ParseItems, SfvGrammar.ParseParameters;
      ghost var before := Rest();
      var ok := Consume('(');
      if !ok {
        return None;
      }
      assert before[1..] == Rest();
      var items := ParseItems();
      if items.None? {
        return None;
      }
      ghost var afterItems := Rest();
      ok := Consume(')');
      if !ok {
        return None;
      }
      assert afterItems[1..] == Rest();
      var listParams := ParseParameters();
      if listParams.None? {
        return None;
      }
      return Some(InnerList(items.value, listParams.value));
    }

    method ParseValue() returns (r: Option<Member>)
      requires Valid()
      modifies this`offset
      ensures Valid() && Agrees(r, SfvGrammar.ParseValue(old(Rest()), limits))
    {
      hide SfvGrammar.ParseItem, SfvGrammar.ParseInnerList;
      if Peek() == '(' {
        var list := ParseInnerList();
        return if list.Some? then Some(Inner(list.value)) else None;
      }
      var item := ParseItem();
      return if item.Some? then Some(Single(item.value)) else None;
    }

    method ParseDictionaryMember() returns (r: Option<(string, Member)>)
      requires Valid()
      modifies this`offset
      ensures Valid() && Agrees(r, ParseMember(old(Rest()), limits))
    {
      hide SfvGrammar.ParseToken, SfvGrammar.ParseValue;
      var key := ParseToken();
      if key.None? {
        return None;
      }
      var c := Peek();
      if c == ' ' || c == '\t' {
        return None;
      }
      if c != '=' {
        return Some((key.value, Single(Item(Boolean(true), []))));
      }
      ghost var afterKey := Rest();
      offset := offset + 1;
      assert afterKey[1..] == Rest();
      var value := ParseValue();
      if value.None? {
        return None;
      }
      return Some((key.value, value.value));
    }

    /** Skips the comma between members. */
    method SkipSeparator() returns (separation: Separation)
      requires Valid()
      modifies this`offset
      ensures Valid() && separation == Separate(old(Rest()))
      ensures separation.Next? ==> separation.rest == Rest()
    {
      hide SfvGrammar.SkipOws;
      SkipOws();
      if Peek() == ',' {
        ghost var atComma := Rest();
        offset := offset + 1;
        assert atComma[1..] == Rest();
        SkipOws();
        return if IsEof() then TrailingComma else Next(data[offset..]);
      }
      return Last;
    }

    /** Parses the text not yet read; the length bound is on the whole input. */
    method ParseDictionary() returns (r: Option<Dictionary>)
      requires Valid()
      modifies this`offset
      ensures Valid()
      ensures r == if CheckInputLength() then ParseDictionaryFrom(old(Rest()), EMPTY_DICTIONARY, limits) else None
      ensures old(offset) == 0 ==> r == SfvGrammar.ParseDictionary(data, limits)
    {
      hide ParseMember, Separate;
      assert offset == 0 ==> Rest() == data;
      if !CheckInputLength() {
        return None;
      }
      var keys: seq<string> := [];
      var values: map<string, Member> := map[];
      if IsEof() {
        return Some(Dictionary(keys, values));
      }
      ghost var whole := ParseDictionaryFrom(Rest(), EMPTY_DICTIONARY, limits);
      while true
        invariant Valid()
        invariant ParseDictionaryFrom(Rest(), Dictionary(keys, values), limits) == whole
        decreases |data| - offset
      {
        if IsEof() {
          break;
        }
        if limits.maxDictionaryMembers > 0 && |keys| >= limits.maxDictionaryMembers {
          return None;
        }
        var member := ParseDictionaryMember();
        if member.None? {
          return None;
        }
        var (key, value) := member.value;
        if key !in values {
          keys := keys + [key];
        }
        values := values[key := value];
        var separation := SkipSeparator();
        if separation.TrailingComma? {
          return None;
        } else if separation.Last? {
          break;
        }
      }
      return Some(Dictionary(keys, values));
    }

    method ParseList() returns (r: Option<List>)
      requires Valid()
      modifies this`offset
      ensures Valid()
      ensures match if CheckInputLength() then ParseListFrom(old(Rest()), 0, limits) else None
              case None => r == None
              case Some(members) => r == Some(List(members))
      ensures old(offset) == 0 ==> r == SfvGrammar.ParseList(data, limits)
    {
      hide SfvGrammar.ParseValue, Separate;
      assert offset == 0 ==> Rest() == data;
      if !CheckInputLength() {
        return None;
      }
      var members: seq<Member> := [];
      if IsEof() {
        return Some(List(members));
      }
      ghost var whole := ParseListFrom(Rest(), 0, limits);
      assert whole.Some? ==> members + whole.value == whole.value;
      while true
        invariant Valid()
        invariant match ParseListFrom(Rest(), |members|, limits)
                  case None => whole.None?
                  case Some(more) => whole == Some(members + more)
        decreases |data| - offset
      {
        if IsEof() {
          assert members + [] == members;
          break;
        }
        if limits.maxDictionaryMembers > 0 && |members| >= limits.maxDictionaryMembers {
          return None;
        }
        var member := ParseValue();
        if member.None? {
          return None;
        }
        ghost var before := members;
        members := members + [member.value];
        var separation := SkipSeparator();
        if separation.TrailingComma? {
          return None;
        } else if separation.Last? {
          break;
        }
        ghost var tail := ParseListFrom(Rest(), |members|, limits);
        if tail.Some? {
          ConcatAssociates(before, [member.value], tail.value);
        }
      }
      return Some(List(members));
    }
  }
}
