/** Field names: which of them name the same field, and which characters they share with
    the keys of structured fields. */
module HeaderLaws {
  import opened SfvTypes
  import opened HttpMessage

  predicate IsFieldName(name: string) {
    forall i :: 0 <= i < |name| ==> IsFieldNameChar(name[i])
  }

  /** The same letter in the other case. */
  predicate IsCasePair(x: char, y: char) {
    || ('A' <= x <= 'Z' && y as int == x as int - 'A' as int + 'a' as int)
    || ('A' <= y <= 'Z' && x as int == y as int - 'A' as int + 'a' as int)
  }

  predicate SameIgnoringCase(a: string, b: string) {
    |a| == |b| && forall i :: 0 <= i < |a| ==> a[i] == b[i] || IsCasePair(a[i], b[i])
  }

  lemma {:induction false} LowerIs(s: string)
    ensures forall i :: 0 <= i < |s| ==> Lower(s)[i] == LowerChar(s[i])
  {
    if s != "" {
      LowerIs(s[1..]);
    }
  }

  lemma LowerCharExactly(x: char, y: char)
    ensures LowerChar(x) == LowerChar(y) <==> x == y || IsCasePair(x, y)
    ensures IsFieldNameChar(LowerChar(x)) <==> IsFieldNameChar(x)
  {
  }

  lemma LowerExactly(a: string, b: string)
    ensures Lower(a) == Lower(b) <==> SameIgnoringCase(a, b)
    ensures IsFieldName(Lower(a)) <==> IsFieldName(a)
  {
    hide LowerChar, IsFieldNameChar, IsCasePair, Lower;
    LowerIs(a);
    LowerIs(b);
    forall i | 0 <= i < |a|
      ensures IsFieldNameChar(Lower(a)[i]) <==> IsFieldNameChar(a[i])
    {
      LowerCharExactly(a[i], a[i]);
    }
    if |a| == |b| {
      forall i | 0 <= i < |a|
        ensures Lower(a)[i] == Lower(b)[i] <==> a[i] == b[i] || IsCasePair(a[i], b[i])
      {
        LowerCharExactly(a[i], b[i]);
      }
    }
  }

  /** Two names name one field exactly when they differ in the case of letters only; a
      name with a byte no field name may have stands for itself. */
  lemma {:induction false} SameFieldExactly(a: string, b: string)
    ensures Canonical(a) == Canonical(b) <==>
            a == b || (IsFieldName(a) && IsFieldName(b) && SameIgnoringCase(a, b))
  {
    hide IsFieldNameChar, Lower, SameIgnoringCase;
    LowerExactly(a, b);
    LowerExactly(b, a);
  }

  /** Setting a field gives it this one line, whatever it had, and no other field
      changes. */
  lemma SetChangesOneField(fields: Fields, name: string, value: string, other: string)
    ensures Lookup(Set(fields, name, value), other) ==
            if other == name || (IsFieldName(name) && IsFieldName(other) && SameIgnoringCase(name, other))
            then [value]
            else Lookup(fields, other)
  {
    hide Canonical, IsFieldName, SameIgnoringCase;
    SameFieldExactly(name, other);
  }

  /** A field is read by its first line. */
  lemma GetIsFirstLine(fields: Fields, name: string, first: string, more: seq<string>)
    ensures Get(fields[Canonical(name) := [first] + more], name) == first
  {
    hide Canonical;
  }

  /** Tokens of structured fields use the characters of field names, but for ten of
      them, and ':' and '/', which no field name has. */
  lemma TokenCharacters(c: char)
    ensures IsFieldNameChar(c) <==> (IsTokenChar(c) && c != ':' && c != '/') || c in "!#$&'+^`|~"
    ensures c in "!#$&'+^`|~" ==> !IsTokenChar(c)
    ensures c in ":/" ==> IsTokenChar(c)
  {
  }
}
