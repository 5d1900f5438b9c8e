/** Printing and then parsing a primitive gives it back, and the text consumed by
    a successful parse of a string is exactly the text printed for its result. */
module SfvPrimitives {
  import opened Wrappers
  import opened SfvTypes
  import opened SfvGrammar
  import Base64

  /** The text behind a token or an integer does not continue it. */
  predicate Stops(rest: string) {
    rest != "" ==> !IsTokenChar(rest[0])
  }

  // Integers

  function Pow10(n: nat): (p: nat)
    ensures p >= 1
  {
    if n == 0 then 1 else 10 * Pow10(n - 1)
  }

  lemma {:induction false} DecimalRoundTrip(n: nat)
    ensures Decimal(n) != ""
    ensures forall i :: 0 <= i < |Decimal(n)| ==> IsDigit(Decimal(n)[i])
    ensures DecimalValue(Decimal(n)) == n
  {
    if n >= 10 {
      DecimalRoundTrip(n / 10);
      assert Decimal(n)[..|Decimal(n)| - 1] == Decimal(n / 10);
    }
  }

  /** A number below 10^k has at most k digits, and k digits stay below 10^k. */
  lemma {:induction false} DecimalLength(n: nat, k: nat)
    requires k >= 1 && n < Pow10(k)
    ensures |Decimal(n)| <= k
  {
    if n >= 10 {
      assert k >= 2;
      DecimalLength(n / 10, k - 1);
    }
  }

  lemma {:induction false} DecimalValueBound(s: string)
    requires forall i :: 0 <= i < |s| ==> IsDigit(s[i])
    ensures DecimalValue(s) < Pow10(|s|)
  {
    if s != "" {
      assert IsDigit(s[|s| - 1]);
      DecimalValueBound(s[..|s| - 1]);
    }
  }

  lemma {:induction false} Pow10Grows(m: nat, n: nat)
    requires m <= n
    ensures Pow10(m) <= Pow10(n)
  {
    if m < n {
      Pow10Grows(m, n - 1);
    }
  }

  lemma Pow10Of15()
    ensures Pow10(15) == 1_000_000_000_000_000
  {
    assert Pow10(5) == 100_000;
    assert Pow10(10) == 10_000_000_000;
  }

  lemma IntegerRoundTrip(i: int64, rest: string)
    requires -1_000_000_000_000_000 < i < 1_000_000_000_000_000
    requires Stops(rest)
    ensures ParseInteger(FormatInt(i) + rest) == Done(Integer(i), rest)
    ensures var c := Head(FormatInt(i)); FormatInt(i) != "" && (c == '-' || IsDigit(c))
  {
    hide Decimal, DecimalValue, ParseInteger;
    var n: nat := if i < 0 then -i else i;
    DecimalRoundTrip(n);
    Pow10Of15();
    DecimalLength(n, 15);
    ParseDigits(i < 0, Decimal(n), rest);
    assert Decimal(n)[0] == FormatInt(i)[|FormatInt(i)| - |Decimal(n)|];
  }

  lemma ParseDigits(negative: bool, digits: string, rest: string)
    requires 1 <= |digits| <= 15 && (forall i :: 0 <= i < |digits| ==> IsDigit(digits[i])) && Stops(rest)
    ensures ParseInteger((if negative then "-" + digits else digits) + rest) ==
            match ParseInt64(negative, digits)
            case None => Fail
            case Some(i) => Done(Integer(i), rest)
  {
    var s := (if negative then "-" + digits else digits) + rest;
    SpanIs(IsDigit, digits, rest);
    assert if negative then s[0] == '-' && s[1..] == digits + rest else s[0] == digits[0];
  }

  /** Fifteen digits never overflow 64 bits: the conversion error is not reachable. */
  lemma ParseInt64NeverFails(negative: bool, digits: string)
    requires forall i :: 0 <= i < |digits| ==> IsDigit(digits[i])
    requires |digits| <= 15
    ensures ParseInt64(negative, digits).Some?
    ensures -1_000_000_000_000_000 < ParseInt64(negative, digits).value < 1_000_000_000_000_000
  {
    DecimalValueBound(digits);
    Pow10Grows(|digits|, 15);
    Pow10Of15();
  }

  // Strings

  lemma {:induction false} StringBodyRoundTrip(s: string, rest: string, used: nat, limits: Limits)
    requires AllPrintable(s) && Within(used + |Escape(s)|, limits.maxStringLength)
    ensures ParseStringBody(Escape(s) + "\"" + rest, used, limits) == Done(s, rest)
  {
    hide EscapeChar, NextChar, AllPrintable, Within, Escape;
    EscapeSteps(s, rest);
    if s != "" {
      PrintableSteps(s);
      var raw := EscapeChar(s[0]);
      var tail := Escape(s[1..]) + "\"" + rest;
      NextCharIs(s[0], tail);
      WithinLess(used, |raw|, |Escape(s[1..])|, limits.maxStringLength);
      StringBodyRoundTrip(s[1..], rest, used + |raw|, limits);
      assert s == [s[0]] + s[1..];
    }
  }

  lemma EscapeSteps(s: string, rest: string)
    ensures s == "" ==> Escape(s) + "\"" + rest == "\"" + rest && (Escape(s) + "\"" + rest)[1..] == rest
    ensures s != "" ==> Escape(s) + "\"" + rest == EscapeChar(s[0]) + (Escape(s[1..]) + "\"" + rest)
    ensures s != "" ==> |Escape(s)| == |EscapeChar(s[0])| + |Escape(s[1..])|
  {
    hide EscapeChar;
    if s != "" {
      var raw := EscapeChar(s[0]);
      ConcatAssociates(raw, Escape(s[1..]), "\"");
      ConcatAssociates(raw, Escape(s[1..]) + "\"", rest);
    }
  }

  lemma PrintableSteps(s: string)
    requires s != "" && AllPrintable(s)
    ensures IsPrintable(s[0]) && AllPrintable(s[1..])
  {
  }

  lemma WithinLess(used: nat, n: nat, more: nat, limit: int)
    requires Within(used + (n + more), limit)
    ensures Within(used + n, limit) && Within(used + n + more, limit)
  {
  }

  lemma NextCharIs(c: char, tail: string)
    requires IsPrintable(c)
    ensures var raw := EscapeChar(c);
            var s := raw + tail;
            s[0] != '"' && NextChar(s) == Some((c, |raw|)) && s[|raw|..] == tail
  {
  }

  lemma NextCharConsumes(s: string)
    requires s != "" && s[0] != '"' && NextChar(s).Some?
    ensures var (c, n) := NextChar(s).value; IsPrintable(c) && s == EscapeChar(c) + s[n..] && n == |EscapeChar(c)|
  {
  }

  /** Conversely, the text consumed is the printed form of the result, closing quote
      included, and it fits the limit. */
  lemma {:induction false} StringBodyConsumes(s: string, used: nat, limits: Limits)
    requires ParseStringBody(s, used, limits).Done?
    ensures var p := ParseStringBody(s, used, limits);
            && s == Escape(p.value) + "\"" + p.rest
            && AllPrintable(p.value)
            && (s[0] != '"' ==> Within(used + |Escape(p.value)|, limits.maxStringLength))
  {
    hide NextChar, IsPrintable, EscapeChar;
    var p := ParseStringBody(s, used, limits);
    if s[0] == '"' {
      assert s == "" + "\"" + s[1..];
    } else {
      NextCharConsumes(s);
      var (c, n) := NextChar(s).value;
      var q := ParseStringBody(s[n..], used + n, limits);
      StringBodyConsumes(s[n..], used + n, limits);
      assert p.value[1..] == q.value;
      ConcatAssociates(EscapeChar(c), Escape(q.value), "\"");
      ConcatAssociates(EscapeChar(c), Escape(q.value) + "\"", q.rest);
    }
  }

  lemma StringRoundTrip(s: string, rest: string, limits: Limits)
    requires FitsBareItem(Str(s), limits)
    ensures ParseString(StringText(s) + rest, limits) == Done(Str(s), rest)
  {
    hide ParseStringBody, Escape;
    StringBodyRoundTrip(s, rest, 0, limits);
    assert (StringText(s) + rest)[1..] == Escape(s) + "\"" + rest;
  }

  /** The span consumed by a successful string parse is the serialization of its result. */
  lemma StringConsumes(s: string, limits: Limits)
    requires ParseString(s, limits).Done?
    ensures var p := ParseString(s, limits);
            p.value.Str? && s == StringText(p.value.text) + p.rest && FitsBareItem(p.value, limits)
  {
    hide ParseStringBody, AllPrintable;
    StringBodyConsumes(s[1..], 0, limits);
    var text := ParseStringBody(s[1..], 0, limits).value;
    assert s == "\"" + s[1..];
    ConcatAssociates("\"", Escape(text), "\"");
    ConcatAssociates("\"", Escape(text) + "\"", ParseString(s, limits).rest);
    assert text == "" ==> Escape(text) == "";
    if s[1] == '"' {
      EmptyText(s[1..], limits);
    }
  }

  lemma EmptyText(s: string, limits: Limits)
    requires ParseStringBody(s, 0, limits).Done? && s[0] == '"'
    ensures ParseStringBody(s, 0, limits).value == ""
  {
  }

  // Tokens, booleans, byte sequences

  lemma TokenRoundTrip(t: string, rest: string, limits: Limits)
    requires FitsToken(t, limits) && Stops(rest)
    ensures ParseToken(t + rest, limits) == Done(t, rest)
  {
    assert (t + rest)[1..] == t[1..] + rest;
    SpanIs(IsTokenChar, t[1..], rest);
    assert (t + rest)[..|t|] == t && (t + rest)[|t|..] == rest;
  }

  lemma EncodedIsBase64(bs: seq<Octet>, padded: bool)
    ensures forall i :: 0 <= i < |Base64.Encode(bs, padded)| ==> IsBase64Char(Base64.Encode(bs, padded)[i])
  {
    Base64.EncodeAlphabet(bs, padded);
    forall i | 0 <= i < |Base64.Encode(bs, padded)|
      ensures IsBase64Char(Base64.Encode(bs, padded)[i])
    {
      assert Base64.Encode(bs, padded)[i] in Base64.Encode(bs, padded);
    }
  }

  /** Both base64 forms between colons parse back to the bytes. */
  lemma ByteSequenceRoundTrip(bs: seq<Octet>, padded: bool, rest: string, limits: Limits)
    requires FitsBareItem(ByteSequence(bs), limits)
    ensures ParseByteSequence(":" + Base64.Encode(bs, padded) + ":" + rest, limits) == Done(ByteSequence(bs), rest)
  {
    hide Base64.Encode, Base64.DecodeEither, IsBase64Char, Span;
    var text := Base64.Encode(bs, padded);
    var s := ":" + text + ":" + rest;
    EncodedIsBase64(bs, padded);
    Base64.DecodeEitherEncode(bs, padded);
    ColonIsNotBase64();
    assert s[1..] == text + (":" + rest);
    SpanIs(IsBase64Char, text, ":" + rest);
    assert (":" + rest)[1..] == rest;
  }

  // Exactly which texts are accepted, and as what

  lemma TokenExactly(s: string, t: string, rest: string, limits: Limits)
    ensures ParseToken(s, limits) == Done(t, rest) <==> s == t + rest && FitsToken(t, limits) && Stops(rest)
  {
    if s == t + rest && FitsToken(t, limits) && Stops(rest) {
      TokenRoundTrip(t, rest, limits);
    }
    if ParseToken(s, limits) == Done(t, rest) {
      var n := 1 + Span(IsTokenChar, s[1..]);
      assert s == s[..n] + s[n..];
      assert forall i :: 0 <= i < n ==> i == 0 || s[i] == s[1..][i - 1];
      assert rest != "" ==> rest[0] == s[1..][n - 1];
    }
  }

  lemma StringExactly(s: string, text: string, rest: string, limits: Limits)
    ensures ParseString(s, limits) == Done(Str(text), rest)
            <==> s == StringText(text) + rest && FitsBareItem(Str(text), limits)
  {
    hide ParseString, StringText, FitsBareItem;
    if s == StringText(text) + rest && FitsBareItem(Str(text), limits) {
      StringRoundTrip(text, rest, limits);
    }
    if ParseString(s, limits) == Done(Str(text), rest) {
      StringConsumes(s, limits);
    }
  }

  ghost predicate IsIntegerText(s: string, number: int64, rest: string, negative: bool, digits: string) {
    && 1 <= |digits| <= 15
    && (forall i :: 0 <= i < |digits| ==> IsDigit(digits[i]))
    && s == (if negative then "-" + digits else digits) + rest
    && number == (if negative then -(DecimalValue(digits) as int) else DecimalValue(digits))
    && (rest != "" ==> !IsDigit(rest[0]))
  }

  lemma IntegerExactly(s: string, number: int64, rest: string)
    ensures ParseInteger(s) == Done(Integer(number), rest)
            <==> exists negative, digits :: IsIntegerText(s, number, rest, negative, digits)
  {
    hide IsIntegerText, ParseInteger;
    if ParseInteger(s) == Done(Integer(number), rest) {
      var negative, digits := IntegerConsumes(s);
    }
    if negative, digits :| IsIntegerText(s, number, rest, negative, digits) {
      IntegerTextParses(s, number, rest, negative, digits);
    }
  }

  lemma IntegerConsumes(s: string) returns (negative: bool, digits: string)
    requires ParseInteger(s).Done?
    ensures ParseInteger(s).value.Integer?
    ensures IsIntegerText(s, ParseInteger(s).value.number, ParseInteger(s).rest, negative, digits)
  {
    hide IsDigit, DecimalValue, Span;
    negative := s[0] == '-';
    var unsigned := if negative then s[1..] else s;
    var n := Span(IsDigit, unsigned);
    digits := unsigned[..n];
    SignAndDigits(s, unsigned, n);
  }

  lemma SignAndDigits(s: string, unsigned: string, n: nat)
    requires s != "" && n <= |unsigned| && unsigned == if s[0] == '-' then s[1..] else s
    ensures s == (if s[0] == '-' then "-" + unsigned[..n] else unsigned[..n]) + unsigned[n..]
  {
  }

  lemma DigitIsNoSign(c: char)
    requires IsDigit(c)
    ensures c != '-'
  {
  }

  lemma IntegerTextParses(s: string, number: int64, rest: string, negative: bool, digits: string)
    requires IsIntegerText(s, number, rest, negative, digits)
    ensures ParseInteger(s) == Done(Integer(number), rest)
  {
    hide IsDigit, DecimalValue, Span;
    SpanIs(IsDigit, digits, rest);
    DigitIsNoSign(digits[0]);
    SignFirst(s, negative, digits, rest);
  }

  lemma SignFirst(s: string, negative: bool, digits: string, rest: string)
    requires digits != "" && s == (if negative then "-" + digits else digits) + rest
    ensures s != ""
    ensures if negative then s[0] == '-' && s[1..] == digits + rest else s[0] == digits[0] && s == digits + rest
  {
  }

  ghost predicate IsByteSequenceText(s: string, bs: seq<Octet>, rest: string, text: string) {
    && s == ":" + text + ":" + rest
    && (forall i :: 0 <= i < |text| ==> IsBase64Char(text[i]))
    && Base64.DecodeEither(text) == Some(bs)
  }

  lemma ByteSequenceExactly(s: string, bs: seq<Octet>, rest: string, limits: Limits)
    ensures ParseByteSequence(s, limits) == Done(ByteSequence(bs), rest)
            <==> Within(|bs|, limits.maxByteSequenceLength) && exists text :: IsByteSequenceText(s, bs, rest, text)
  {
    hide ParseByteSequence, IsByteSequenceText;
    if ParseByteSequence(s, limits) == Done(ByteSequence(bs), rest) {
      var text := ByteSequenceConsumes(s, bs, rest, limits);
    }
    if text :| IsByteSequenceText(s, bs, rest, text) {
      ByteSequenceTextParses(s, bs, rest, text, limits);
    }
  }

  lemma ByteSequenceConsumes(s: string, bs: seq<Octet>, rest: string, limits: Limits) returns (text: string)
    requires ParseByteSequence(s, limits) == Done(ByteSequence(bs), rest)
    ensures Within(|bs|, limits.maxByteSequenceLength) && IsByteSequenceText(s, bs, rest, text)
  {
    hide Base64.DecodeEither, Span, IsBase64Char;
    var n := Span(IsBase64Char, s[1..]);
    text := s[1..][..n];
    BetweenColons(s, n, rest);
  }

  lemma ByteSequenceTextParses(s: string, bs: seq<Octet>, rest: string, text: string, limits: Limits)
    requires IsByteSequenceText(s, bs, rest, text)
    ensures Within(|bs|, limits.maxByteSequenceLength) ==> ParseByteSequence(s, limits) == Done(ByteSequence(bs), rest)
    ensures !Within(|bs|, limits.maxByteSequenceLength) ==> ParseByteSequence(s, limits) == Fail
  {
    hide Base64.DecodeEither, Span, IsBase64Char, Within;
    ColonIsNotBase64();
    FirstColon(s, text, rest);
    SpanIs(IsBase64Char, text, ":" + rest);
  }

  lemma FirstColon(s: string, text: string, rest: string)
    requires s == ":" + text + ":" + rest
    ensures s != "" && s[0] == ':' && s[1..] == text + (":" + rest)
    ensures (":" + rest)[0] == ':' && (":" + rest)[1..] == rest
  {
  }

  lemma BetweenColons(s: string, n: nat, rest: string)
    requires s != "" && s[0] == ':' && n < |s[1..]| && s[1..][n] == ':' && s[1..][n..][1..] == rest
    ensures s == ":" + s[1..][..n] + ":" + rest
  {
  }

  /** Every bare item within the limits parses back from its text. */
  lemma BareItemRoundTrip(v: BareItem, rest: string, limits: Limits)
    requires FitsBareItem(v, limits) && Stops(rest)
    ensures BareItemText(v) != "" && !IsOws(BareItemText(v)[0])
    ensures BareItemText(v)[0] != ')' && BareItemText(v)[0] != '('
    ensures ParseBareItem(BareItemText(v) + rest, limits) == Done(v, rest)
  {
    hide ParseString, ParseInteger, ParseToken, ParseByteSequence, FormatInt, Base64.Encode, Escape;
    var s := BareItemText(v) + rest;
    match v
    case Boolean(b) =>
      assert s[2..] == rest;
    case Integer(n) =>
      IntegerRoundTrip(n, rest);
    case Str(t) =>
      StringRoundTrip(t, rest, limits);
    case Token(t) =>
      TokenRoundTrip(t, rest, limits);
    case ByteSequence(bs) =>
      ByteSequenceRoundTrip(bs, true, rest, limits);
      assert s == ":" + Base64.Encode(bs, true) + ":" + rest;
  }

  /** What is scanned between colons is what the base64 decoders have a value for. */
  lemma Base64CharsHaveValues(c: char)
    ensures IsBase64Char(c) <==> Base64.Value(c) != Base64.INVALID
  {
  }

  /** Inside a string, a byte stands for itself if it is printable and no quote or
      backslash; those two follow a backslash, and nothing else does. */
  lemma StringBytes(c: char, rest: string)
    ensures c as int in {34, 92} ==> NextChar(['\\', c] + rest) == Some((c, 2))
    ensures c as int !in {34, 92} ==> NextChar(['\\', c] + rest).None?
    ensures c as int != 92 ==> NextChar([c] + rest) == if 32 <= c as int <= 126 then Some((c, 1)) else None
  {
  }

  /** Decimal digits count by their place. */
  lemma {:induction false} DecimalPlaces(a: string, b: string)
    requires forall i :: 0 <= i < |a| ==> IsDigit(a[i])
    requires forall i :: 0 <= i < |b| ==> IsDigit(b[i])
    ensures forall i :: 0 <= i < |a + b| ==> IsDigit((a + b)[i])
    ensures DecimalValue(a + b) == DecimalValue(a) * Pow10(|b|) + DecimalValue(b)
  {
    if b == "" {
      NothingAdded(a);
    } else {
      var n := |b| - 1;
      assert IsDigit(b[n]);
      DecimalPlaces(a, b[..n]);
      assert (a + b)[..|a + b| - 1] == a + b[..n];
      ShiftPlaces(DecimalValue(a), Pow10(n), DecimalValue(b[..n]));
    }
  }

  lemma ShiftPlaces(a: nat, p: nat, b: nat)
    ensures (a * p + b) * 10 == a * (10 * p) + b * 10
  {
  }
}
