/** Option, and the small vocabulary of strings used by every other module.
    A string stands for a Go byte string, one char for one byte; an Octet is an
    element of a Go []byte. */
module Wrappers {
  type Octet = b: int | 0 <= b < 256

  datatype Option<+T> = None | Some(value: T) {
    predicate IsFailure() {
      None?
    }

    function PropagateFailure<U>(): Option<U>
      requires None?
    {
      None
    }

    function Extract(): T
      requires Some?
    {
      value
    }
  }

  lemma ConcatAssociates<T>(a: seq<T>, b: seq<T>, c: seq<T>)
    ensures a + b + c == a + (b + c)
  {
  }

  lemma NothingAdded<T>(s: seq<T>)
    ensures s + [] == s && [] + s == s
  {
  }

  lemma DropFirst(a: string, b: string)
    requires a != ""
    ensures (a + b)[0] == a[0] && (a + b)[1..] == a[1..] + b
  {
  }

  /** The first byte, or NUL when there is none. */
  function Head(s: string): char {
    if s == "" then '\0' else s[0]
  }

  /** Length of the longest prefix whose bytes all satisfy p. */
  function Span(p: char -> bool, s: string): (n: nat)
    ensures n <= |s|
    ensures forall i :: 0 <= i < n ==> p(s[i])
    ensures n < |s| ==> !p(s[n])
  {
    if s != "" && p(s[0]) then 1 + Span(p, s[1..]) else 0
  }

  /** The span is the only prefix with that property. */
  lemma SpanIs(p: char -> bool, a: string, rest: string)
    requires forall i :: 0 <= i < |a| ==> p(a[i])
    requires rest != "" ==> !p(rest[0])
    ensures Span(p, a + rest) == |a|
    ensures (a + rest)[..|a|] == a && (a + rest)[|a|..] == rest
  {
    assert forall i :: 0 <= i < |a| ==> (a + rest)[i] == a[i];
    assert rest != "" ==> (a + rest)[|a|] == rest[0];
  }

  /** strings.Join */
  function Join(parts: seq<string>, sep: string): string {
    if |parts| == 0 then ""
    else if |parts| == 1 then parts[0]
    else parts[0] + sep + Join(parts[1..], sep)
  }

  lemma {:induction false} JoinAppend(parts: seq<string>, last: string, sep: string)
    requires parts != []
    ensures Join(parts + [last], sep) == Join(parts, sep) + sep + last
  {
    if |parts| == 1 {
      assert (parts + [last])[1..] == [last];
    } else {
      assert (parts + [last])[1..] == parts[1..] + [last];
      JoinAppend(parts[1..], last, sep);
    }
  }

  lemma {:induction false} JoinConcat(a: seq<string>, b: seq<string>, sep: string)
    requires a != [] && b != []
    ensures Join(a + b, sep) == Join(a, sep) + sep + Join(b, sep)
  {
    assert (a + b)[1..] == a[1..] + b;
    if |a| == 1 {
      assert a[1..] + b == b;
    } else {
      JoinConcat(a[1..], b, sep);
      ConcatAssociates(a[0] + sep, Join(a[1..], sep), sep);
      ConcatAssociates(a[0] + sep, Join(a[1..], sep) + sep, Join(b, sep));
    }
  }

  /** Parts that join alike can stand for each other. */
  lemma JoinSame(before: seq<string>, a: seq<string>, b: seq<string>, behind: seq<string>, sep: string)
    requires a != [] && b != [] && Join(a, sep) == Join(b, sep)
    ensures Join(before + a + behind, sep) == Join(before + b + behind, sep)
  {
    hide Join;
    if before == [] {
      NothingAdded(a);
      NothingAdded(b);
    } else {
      JoinConcat(before, a, sep);
      JoinConcat(before, b, sep);
    }
    if behind == [] {
      NothingAdded(before + a);
      NothingAdded(before + b);
    } else {
      JoinConcat(before + a, behind, sep);
      JoinConcat(before + b, behind, sep);
    }
  }

  /** Text behind the last part is text behind the joined parts. */
  lemma JoinExtended(parts: seq<string>, last: string, more: string, sep: string)
    ensures Join(parts + [last + more], sep) == Join(parts + [last], sep) + more
  {
    if parts == [] {
      assert parts + [last + more] == [last + more] && parts + [last] == [last];
    } else {
      JoinAppend(parts, last + more, sep);
      JoinAppend(parts, last, sep);
      hide Join;
      ConcatAssociates(Join(parts, sep) + sep, last, more);
    }
  }
}
