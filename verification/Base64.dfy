/** Base64 as section 4 of RFC 4648 defines it, with and without padding, and the
    decoder of Go's StdEncoding and RawStdEncoding: unused low bits of the last
    digit are not checked. Encoding goes through groups of six bits; PAD stands
    for '=' and INVALID for a byte outside the alphabet. */
module Base64 {
  import opened Wrappers

  const PAD := 64
  const INVALID := -1

  type Group = v: int | 0 <= v <= PAD

  function Digit(v: Group): char {
    if v < 26 then ('A' as int + v) as char
    else if v < 52 then ('a' as int + (v - 26)) as char
    else if v < 62 then ('0' as int + (v - 52)) as char
    else if v == 62 then '+'
    else if v == 63 then '/'
    else '='
  }

  function Value(c: char): (v: int)
    ensures INVALID <= v <= PAD
  {
    if 'A' <= c <= 'Z' then c as int - 'A' as int
    else if 'a' <= c <= 'z' then c as int - 'a' as int + 26
    else if '0' <= c <= '9' then c as int - '0' as int + 52
    else if c == '+' then 62
    else if c == '/' then 63
    else if c == '=' then PAD
    else INVALID
  }

  function Digits(vs: seq<Group>): (s: string)
    ensures |s| == |vs|
  {
    if vs == [] then "" else [Digit(vs[0])] + Digits(vs[1..])
  }

  function Values(s: string): (vs: seq<int>)
    ensures |vs| == |s|
  {
    if s == "" then [] else [Value(s[0])] + Values(s[1..])
  }

  function Pads(n: nat, padded: bool): seq<Group> {
    if !padded then [] else if n == 1 then [PAD] else [PAD, PAD]
  }

  /** Three bytes make four groups; one or two left over make two or three. */
  function Groups(bs: seq<Octet>, padded: bool): seq<Group> {
    if |bs| == 0 then []
    else if |bs| == 1 then [bs[0] / 4, bs[0] % 4 * 16] + Pads(2, padded)
    else if |bs| == 2 then [bs[0] / 4, bs[0] % 4 * 16 + bs[1] / 16, bs[1] % 16 * 4] + Pads(1, padded)
    else [bs[0] / 4, bs[0] % 4 * 16 + bs[1] / 16, bs[1] % 16 * 4 + bs[2] / 64, bs[2] % 64] + Groups(bs[3..], padded)
  }

  function Encode(bs: seq<Octet>, padded: bool): string {
    Digits(Groups(bs, padded))
  }

  predicate IsSextet(v: int) {
    0 <= v < PAD
  }

  /** The last quantum has n digits, and the padding, if used, completes it. */
  predicate IsTail(vs: seq<int>, n: int, padded: bool)
    requires 2 <= n <= 3
  {
    if padded then |vs| == 4 && vs[3] == PAD && (n == 2 ==> vs[2] == PAD) else |vs| == n
  }

  /** The three bytes of a quantum, each from two neighbouring groups. */
  function FirstByte(v: int, w: int): Octet
    requires IsSextet(v) && IsSextet(w)
  {
    v * 4 + w / 16
  }

  function SecondByte(v: int, w: int): Octet
    requires IsSextet(v) && IsSextet(w)
  {
    v % 16 * 16 + w / 4
  }

  function ThirdByte(v: int, w: int): Octet
    requires IsSextet(v) && IsSextet(w)
  {
    v % 4 * 64 + w
  }

  function Ungroup(vs: seq<int>, padded: bool): Option<seq<Octet>> {
    if vs == [] then Some([])
    else if |vs| < 2 || !IsSextet(vs[0]) || !IsSextet(vs[1]) then None
    else
      var a := FirstByte(vs[0], vs[1]);
      if IsTail(vs, 2, padded) then Some([a])
      else if |vs| < 3 || !IsSextet(vs[2]) then None
      else
        var b := SecondByte(vs[1], vs[2]);
        if IsTail(vs, 3, padded) then Some([a, b])
        else if |vs| < 4 || !IsSextet(vs[3]) then None
        else
          var rest :- Ungroup(vs[4..], padded);
          Some([a, b, ThirdByte(vs[2], vs[3])] + rest)
  }

  function Decode(s: string, padded: bool): Option<seq<Octet>> {
    Ungroup(Values(s), padded)
  }

  /** What parseByteSequence does: padded first, then unpadded. */
  function DecodeEither(s: string): Option<seq<Octet>> {
    var r := Decode(s, true);
    if r.Some? then r else Decode(s, false)
  }

  lemma {:induction false} ValuesDigits(vs: seq<Group>)
    ensures Values(Digits(vs)) == vs
  {
    if vs != [] {
      assert Value(Digit(vs[0])) == vs[0];
      assert Digits(vs)[1..] == Digits(vs[1..]);
      ValuesDigits(vs[1..]);
    }
  }

  lemma BytesOfGroups(a: Octet, b: Octet, c: Octet)
    ensures FirstByte(a / 4, a % 4 * 16) == a && FirstByte(a / 4, a % 4 * 16 + b / 16) == a
    ensures SecondByte(a % 4 * 16 + b / 16, b % 16 * 4) == b
            && SecondByte(a % 4 * 16 + b / 16, b % 16 * 4 + c / 64) == b
    ensures ThirdByte(b % 16 * 4 + c / 64, c % 64) == c
  {
  }

  /** A whole quantum in front. */
  lemma UngroupQuantum(vs: seq<int>, padded: bool)
    requires |vs| >= 4 && IsSextet(vs[0]) && IsSextet(vs[1]) && IsSextet(vs[2]) && IsSextet(vs[3])
    ensures Ungroup(vs, padded) ==
            match Ungroup(vs[4..], padded)
            case None => None
            case Some(rest) => Some([FirstByte(vs[0], vs[1]), SecondByte(vs[1], vs[2]), ThirdByte(vs[2], vs[3])] + rest)
  {
    hide FirstByte, SecondByte, ThirdByte;
  }

  lemma GroupsQuantum(bs: seq<Octet>, padded: bool)
    requires |bs| >= 3
    ensures var vs := Groups(bs, padded);
            && |vs| >= 4 && vs[4..] == Groups(bs[3..], padded)
            && vs[0] == bs[0] / 4 && vs[1] == bs[0] % 4 * 16 + bs[1] / 16
            && vs[2] == bs[1] % 16 * 4 + bs[2] / 64 && vs[3] == bs[2] % 64
  {
  }

  /** Regrouping undoes grouping, with and without padding. */
  lemma {:induction false} UngroupGroups(bs: seq<Octet>, padded: bool)
    ensures Ungroup(Groups(bs, padded), padded) == Some(bs)
  {
    if |bs| < 3 {
      UngroupTail(bs, padded);
    } else {
      GroupsQuantum(bs, padded);
      BytesOfGroups(bs[0], bs[1], bs[2]);
      UngroupGroups(bs[3..], padded);
      hide Groups, FirstByte, SecondByte, ThirdByte;
      UngroupQuantum(Groups(bs, padded), padded);
      hide Ungroup;
      assert bs == [bs[0], bs[1], bs[2]] + bs[3..];
    }
  }

  lemma UngroupTail(bs: seq<Octet>, padded: bool)
    requires |bs| < 3
    ensures Ungroup(Groups(bs, padded), padded) == Some(bs)
  {
    hide FirstByte, SecondByte, ThirdByte;
    if |bs| == 1 {
      BytesOfGroups(bs[0], 0, 0);
      assert bs == [bs[0]];
    } else if |bs| == 2 {
      BytesOfGroups(bs[0], bs[1], 0);
      assert bs == [bs[0], bs[1]];
    }
  }

  /** The padded decoder takes whole quanta only. */
  lemma {:induction false} PaddedTakesQuanta(vs: seq<int>)
    ensures Ungroup(vs, true).Some? ==> |vs| % 4 == 0
  {
    hide FirstByte, SecondByte, ThirdByte;
    if |vs| > 4 {
      PaddedTakesQuanta(vs[4..]);
    }
  }

  /** Unpadded text differs from padded text only where the padded decoder refuses it. */
  lemma {:induction false} UnpaddedGroups(bs: seq<Octet>)
    ensures |bs| % 3 == 0 ==> Groups(bs, false) == Groups(bs, true)
    ensures |bs| % 3 != 0 ==> |Groups(bs, false)| % 4 != 0
  {
    if |bs| >= 3 {
      UnpaddedGroups(bs[3..]);
    }
  }

  /** Both forms of a byte string decode back to it. */
  lemma DecodeEitherEncode(bs: seq<Octet>, padded: bool)
    ensures DecodeEither(Encode(bs, padded)) == Some(bs)
  {
    hide Groups, Ungroup, Digits, Values;
    ValuesDigits(Groups(bs, padded));
    UngroupGroups(bs, padded);
    UnpaddedGroups(bs);
    PaddedTakesQuanta(Groups(bs, padded));
    UngroupGroups(bs, true);
  }

  lemma {:induction false} EncodeLength(bs: seq<Octet>, padded: bool)
    ensures |Encode(bs, padded)| == if padded then (|bs| + 2) / 3 * 4 else (|bs| * 4 + 2) / 3
  {
    if |bs| >= 3 {
      EncodeLength(bs[3..], padded);
    }
  }

  /** Encoded text is made of digits and '='. */
  lemma EncodeAlphabet(bs: seq<Octet>, padded: bool)
    ensures forall c :: c in Encode(bs, padded) ==> Value(c) != INVALID
  {
    DigitsAlphabet(Groups(bs, padded));
  }

  lemma {:induction false} DigitsAlphabet(vs: seq<Group>)
    ensures forall c :: c in Digits(vs) ==> Value(c) != INVALID
  {
    if vs != [] {
      assert Value(Digit(vs[0])) == vs[0];
      DigitsAlphabet(vs[1..]);
    }
  }

  // What is decoded

  /** Characters of one kind, in the order of their codes. */
  predicate SameKind(c: char, d: char) {
    ('A' <= c <= 'Z' && 'A' <= d <= 'Z') || ('a' <= c <= 'z' && 'a' <= d <= 'z') || ('0' <= c <= '9' && '0' <= d <= '9')
  }

  /** The alphabet of RFC 4648: capitals, small letters, digits, '+' and '/', each kind in
      order and one behind the other. */
  lemma AlphabetIsInOrder(c: char, d: char)
    ensures Value('A') == 0 && Value('a') == Value('Z') + 1 && Value('0') == Value('z') + 1
    ensures Value('+') == Value('9') + 1 && Value('/') == Value('+') + 1 == PAD - 1
    ensures SameKind(c, d) ==> Value(d) - Value(c) == d as int - c as int
  {
  }

  /** Groups that agree but for the low bits of the last digit that carry no byte: four of
      them behind one byte, two behind two. */
  ghost predicate SameButUnused(vs: seq<int>, bs: seq<Octet>, padded: bool)
    decreases |bs|
  {
    var gs := Groups(bs, padded);
    && |vs| == |gs|
    && if |bs| == 0 then vs == []
       else if |bs| == 1 then
         vs[0] == gs[0] && IsSextet(vs[1]) && vs[1] / 16 == gs[1] / 16 && vs[2..] == gs[2..]
       else if |bs| == 2 then
         vs[..2] == gs[..2] && IsSextet(vs[2]) && vs[2] / 4 == gs[2] / 4 && vs[3..] == gs[3..]
       else vs[..4] == gs[..4] && SameButUnused(vs[4..], bs[3..], padded)
  }

  lemma BytesFromGroups(v: int, w: int, x: int, y: int)
    requires IsSextet(v) && IsSextet(w) && IsSextet(x) && IsSextet(y)
    ensures var a, b, c := FirstByte(v, w), SecondByte(w, x), ThirdByte(x, y);
            && a / 4 == v && a % 4 * 16 + b / 16 == w && b % 16 * 4 + c / 64 == x && c % 64 == y
            && a % 4 * 16 / 16 == w / 16 && b % 16 * 4 / 4 == x / 4
  {
  }

  lemma OneByteTail(vs: seq<int>, a: Octet, padded: bool)
    requires |vs| == (if padded then 4 else 2) && vs[0] == a / 4 && IsSextet(vs[1]) && vs[1] / 16 == a % 4
    requires padded ==> vs[2] == PAD && vs[3] == PAD
    ensures Ungroup(vs, padded) == Some([a])
  {
    assert FirstByte(vs[0], vs[1]) == a;
    hide FirstByte, SecondByte, ThirdByte;
  }

  lemma TwoByteTail(vs: seq<int>, a: Octet, b: Octet, padded: bool)
    requires |vs| == (if padded then 4 else 3) && vs[0] == a / 4 && vs[1] == a % 4 * 16 + b / 16
    requires IsSextet(vs[2]) && vs[2] / 4 == b % 16 && (padded ==> vs[3] == PAD)
    ensures Ungroup(vs, padded) == Some([a, b])
  {
    assert FirstByte(vs[0], vs[1]) == a && SecondByte(vs[1], vs[2]) == b;
    hide FirstByte, SecondByte, ThirdByte;
  }

  lemma TailIsUngrouped(vs: seq<int>, bs: seq<Octet>, padded: bool)
    requires |bs| < 3 && SameButUnused(vs, bs, padded)
    ensures Ungroup(vs, padded) == Some(bs)
  {
    hide Ungroup;
    if |bs| == 0 {
      NothingUngrouped(padded);
    } else if |bs| == 1 {
      assert padded ==> vs[2] == vs[2..][0] && vs[3] == vs[2..][1];
      OneByteTail(vs, bs[0], padded);
      assert bs == [bs[0]];
    } else {
      assert vs[0] == vs[..2][0] && vs[1] == vs[..2][1];
      assert padded ==> vs[3] == vs[3..][0];
      TwoByteTail(vs, bs[0], bs[1], padded);
      assert bs == [bs[0], bs[1]];
    }
  }

  lemma NothingUngrouped(padded: bool)
    ensures Ungroup([], padded) == Some([])
  {
  }

  lemma {:induction false} SameIsUngrouped(vs: seq<int>, bs: seq<Octet>, padded: bool)
    requires SameButUnused(vs, bs, padded)
    ensures Ungroup(vs, padded) == Some(bs)
    decreases |bs|
  {
    if |bs| < 3 {
      TailIsUngrouped(vs, bs, padded);
    } else {
      SameIsUngrouped(vs[4..], bs[3..], padded);
      GroupsQuantum(bs, padded);
      BytesOfGroups(bs[0], bs[1], bs[2]);
      hide Groups, Ungroup, FirstByte, SecondByte, ThirdByte;
      assert vs[0] == vs[..4][0] && vs[1] == vs[..4][1] && vs[2] == vs[..4][2] && vs[3] == vs[..4][3];
      UngroupQuantum(vs, padded);
      assert bs == [bs[0], bs[1], bs[2]] + bs[3..];
    }
  }

  lemma TailWasGrouped(vs: seq<int>, padded: bool)
    requires vs != [] && Ungroup(vs, padded).Some?
    requires IsTail(vs, 2, padded) || (|vs| >= 3 && IsTail(vs, 3, padded))
    ensures SameButUnused(vs, Ungroup(vs, padded).value, padded)
  {
    if IsTail(vs, 2, padded) {
      BytesFromGroups(vs[0], vs[1], 0, 0);
      assert vs[2..] == Pads(2, padded);
    } else {
      BytesFromGroups(vs[0], vs[1], vs[2], 0);
      assert vs[3..] == Pads(1, padded) && vs[..2] == [vs[0], vs[1]];
    }
  }

  lemma {:induction false} WasGrouped(vs: seq<int>, padded: bool)
    requires Ungroup(vs, padded).Some?
    ensures SameButUnused(vs, Ungroup(vs, padded).value, padded)
    decreases |vs|
  {
    if vs == [] {
    } else if IsTail(vs, 2, padded) || (|vs| >= 3 && IsTail(vs, 3, padded)) {
      TailWasGrouped(vs, padded);
    } else {
      WasGrouped(vs[4..], padded);
      BytesFromGroups(vs[0], vs[1], vs[2], vs[3]);
      var rest := Ungroup(vs[4..], padded).value;
      var bs := [FirstByte(vs[0], vs[1]), SecondByte(vs[1], vs[2]), ThirdByte(vs[2], vs[3])] + rest;
      UngroupQuantum(vs, padded);
      assert bs[3..] == rest;
      GroupsQuantum(bs, padded);
      assert vs[..4] == Groups(bs, padded)[..4];
    }
  }

  /** A text decodes to these bytes exactly when it is their encoding, but for low bits of
      the last digit that carry no byte: those are not looked at. */
  lemma {:induction false} DecodesExactly(s: string, bs: seq<Octet>, padded: bool)
    ensures Decode(s, padded) == Some(bs) <==> SameButUnused(Values(s), bs, padded)
  {
    hide Ungroup, SameButUnused, Values;
    if Decode(s, padded) == Some(bs) {
      WasGrouped(Values(s), padded);
    }
    if SameButUnused(Values(s), bs, padded) {
      SameIsUngrouped(Values(s), bs, padded);
    }
  }

  /** An example of every length: three, two and one bytes of "Man". */
  lemma ManIsEncoded()
    ensures Encode([77, 97, 110], true) == "TWFu" && Encode([77, 97], true) == "TWE=" && Encode([77], true) == "TQ=="
    ensures Encode([77, 97], false) == "TWE" && Encode([77], false) == "TQ"
  {
    hide Groups, Digits;
    ManInGroups();
    DigitsAt([19, 22, 5, 46]);
    DigitsAt([19, 22, 4, PAD]);
    DigitsAt([19, 16, PAD, PAD]);
    DigitsAt([19, 22, 4]);
    DigitsAt([19, 16]);
  }

  lemma ManInGroups()
    ensures Groups([77, 97, 110], true) == [19, 22, 5, 46]
    ensures Groups([77, 97], true) == [19, 22, 4, PAD] && Groups([77], true) == [19, 16, PAD, PAD]
    ensures Groups([77, 97], false) == [19, 22, 4] && Groups([77], false) == [19, 16]
  {
  }

  lemma {:induction false} DigitsAt(vs: seq<Group>)
    ensures forall i :: 0 <= i < |vs| ==> Digits(vs)[i] == Digit(vs[i])
  {
    hide Digit;
    if vs != [] {
      DigitsAt(vs[1..]);
    }
  }
}
