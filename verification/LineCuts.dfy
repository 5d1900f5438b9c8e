/** Values between separators that each begin a line: when the joined text determines
    the values, and how another choice of values gives the same text when it does not. */
module LineCuts {
  import opened Wrappers

  predicate NoLf(s: string) {
    forall i :: 0 <= i < |s| ==> s[i] != '\n'
  }

  /** An LF and the start of a line behind it. */
  predicate IsSeparator(s: string) {
    s != "" && s[0] == '\n' && forall i :: 1 <= i < |s| ==> s[i] != '\n'
  }

  predicate AllSeparators(separators: seq<string>) {
    forall k :: 0 <= k < |separators| ==> IsSeparator(separators[k])
  }

  predicate OccursAt(part: string, s: string, i: int) {
    0 <= i <= |s| - |part| && s[i..i + |part|] == part
  }

  ghost predicate Contains(s: string, part: string) {
    exists i :: OccursAt(part, s, i)
  }

  /** Separator k stands between value k and value k + 1. */
  function Joined(separators: seq<string>, values: seq<string>): string
    requires |values| == |separators| + 1
  {
    if separators == [] then values[0] else values[0] + separators[0] + Joined(separators[1..], values[1..])
  }

  /** No value contains the separator in front of it or the one behind it. */
  ghost predicate Unambiguous(separators: seq<string>, values: seq<string>)
    requires |values| == |separators| + 1
  {
    forall k :: 0 <= k < |separators| ==>
                  !Contains(values[k], separators[k]) && !Contains(values[k + 1], separators[k])
  }

  lemma ContainsPart(x: string, part: string, y: string)
    ensures Contains(x + part + y, part)
  {
    assert OccursAt(part, x + part + y, |x|);
  }

  /** A separator that begins before another one does ends before it does. */
  lemma CutInside(a: string, s: string, b: string, c: string, t: string, d: string)
    requires a + s + b == c + t + d && |a| < |c|
    requires IsSeparator(s) && IsSeparator(t)
    ensures |a| + |s| <= |c|
    ensures var u := c[|a| + |s|..]; c == a + s + u && b == u + t + d
  {
    var text := a + s + b;
    assert text[|c|] == t[0];
    assert forall i :: |a| < i < |a| + |s| ==> text[i] == s[i - |a|];
    var n := |a| + |s|;
    assert text[..n] == a + s && text[..|c|] == c;
    assert c[..n] == a + s && c == c[..n] + c[n..];
    assert text[n..] == b && text[n..] == c[n..] + t + d;
  }

  /** If the values of w begin later in the text of v, then some value of v contains
      the separator in front of it. */
  lemma {:induction false} LaterCut(separators: seq<string>, front: string, v: seq<string>, w: seq<string>, u: string)
    requires |v| == |w| == |separators| + 1
    requires IsSeparator(front) && AllSeparators(separators)
    requires Joined(separators, v) == u + front + Joined(separators, w)
    ensures Contains(v[0], front) || exists k :: 0 <= k < |separators| && Contains(v[k + 1], separators[k])
    decreases |separators|
  {
    hide IsSeparator, Contains;
    if separators == [] {
      ContainsPart(u, front, w[0]);
      return;
    }
    var s := separators[0];
    var ends, others := Joined(separators[1..], v[1..]), Joined(separators[1..], w[1..]);
    var before := u + front + w[0];
    hide Joined;
    assert v[0] + s + ends == before + s + others by {
      ConcatAssociates(u + front, w[0] + s, others);
      ConcatAssociates(u + front, w[0], s);
    }
    if |u| < |v[0]| {
      ConcatAssociates(u + front, w[0] + s, others);
      CutInside(u, front, w[0] + s + others, v[0], s, ends);
      ContainsPart(u, front, v[0][|u| + |front|..]);
    } else {
      FrontIsNotEmpty(front);
      CutInside(v[0], s, ends, before, s, others);
      LaterCut(separators[1..], s, v[1..], w[1..], before[|v[0]| + |s|..]);
      LaterFound(separators, v);
    }
  }

  lemma FrontIsNotEmpty(front: string)
    requires IsSeparator(front)
    ensures |front| > 0
  {
  }

  lemma LaterFound(separators: seq<string>, v: seq<string>)
    requires separators != [] && |v| == |separators| + 1
    requires Contains(v[1], separators[0])
             || exists k :: 0 <= k < |separators[1..]| && Contains(v[1..][k + 1], separators[1..][k])
    ensures exists k :: 0 <= k < |separators| && Contains(v[k + 1], separators[k])
  {
    hide Contains;
    if !Contains(v[1], separators[0]) {
      var k :| 0 <= k < |separators[1..]| && Contains(v[1..][k + 1], separators[1..][k]);
      assert Contains(v[(k + 1) + 1], separators[k + 1]);
    }
  }

  /** Unambiguous values are determined by their text. */
  lemma {:induction false} UnambiguousDetermined(separators: seq<string>, v: seq<string>, w: seq<string>)
    requires |v| == |w| == |separators| + 1
    requires AllSeparators(separators) && Unambiguous(separators, v)
    requires Joined(separators, v) == Joined(separators, w)
    ensures v == w
    decreases |separators|
  {
    hide Contains, IsSeparator;
    if separators == [] {
      assert v == [v[0]] && w == [w[0]];
      return;
    }
    var s := separators[0];
    var ends, others := Joined(separators[1..], v[1..]), Joined(separators[1..], w[1..]);
    assert !Contains(v[0], s) && !Contains(v[0 + 1], s);
    if |w[0]| < |v[0]| {
      CutInside(w[0], s, others, v[0], s, ends);
      ContainsPart(w[0], s, v[0][|w[0]| + |s|..]);
    } else if |v[0]| < |w[0]| {
      CutInside(v[0], s, ends, w[0], s, others);
      hide Joined;
      LaterCut(separators[1..], s, v[1..], w[1..], w[0][|v[0]| + |s|..]);
      LaterFound(separators, v);
    } else {
      SameFront(v[0], w[0], s, ends, others);
      TailUnambiguous(separators, v);
      hide Unambiguous, Joined;
      UnambiguousDetermined(separators[1..], v[1..], w[1..]);
      assert v == [v[0]] + v[1..] && w == [w[0]] + w[1..];
    }
  }

  lemma SameFront(a: string, b: string, s: string, x: string, y: string)
    requires |a| == |b| && a + s + x == b + s + y
    ensures a == b && x == y
  {
    var text := a + s + x;
    assert text[..|a|] == a && (b + s + y)[..|a|] == b;
    assert text[|a| + |s|..] == x && (b + s + y)[|a| + |s|..] == y;
  }

  lemma TailUnambiguous(separators: seq<string>, v: seq<string>)
    requires separators != [] && |v| == |separators| + 1 && Unambiguous(separators, v)
    ensures Unambiguous(separators[1..], v[1..])
  {
    hide Contains;
    var rest, tail := separators[1..], v[1..];
    forall k | 0 <= k < |rest|
      ensures !Contains(tail[k], rest[k]) && !Contains(tail[k + 1], rest[k])
    {
      assert separators[k + 1] == rest[k] && v[k + 1] == tail[k] && v[(k + 1) + 1] == tail[k + 1];
    }
  }

  // Ambiguous values are not determined

  lemma PrependFirst(separators: seq<string>, first: string, values: seq<string>, a: string)
    requires |values| == |separators|
    ensures Joined(separators, [a + first] + values) == a + Joined(separators, [first] + values)
  {
    if separators != [] {
      var rest := Joined(separators[1..], values);
      assert ([a + first] + values)[1..] == values && ([first] + values)[1..] == values;
      hide Joined;
      ConcatAssociates(a, first, separators[0]);
      ConcatAssociates(a, first + separators[0], rest);
    }
  }

  /** A separator twice in a row of texts: either one can be the cut. */
  lemma EitherCut(separators: seq<string>, a: string, x: string, y: string, last: seq<string>)
    requires |separators| == |last| + 1
    ensures var s := separators[0];
            Joined(separators, [a, x + s + y] + last) == Joined(separators, [a + s + x, y] + last)
  {
    var s, rest := separators[0], separators[1..];
    JoinedTwo(separators, a, x + s + y, last);
    JoinedTwo(separators, a + s + x, y, last);
    PrependFirst(rest, y, last, x + s);
    hide Joined;
    var ends := Joined(rest, [y] + last);
    ConcatAssociates(a + s, x + s, ends);
    ConcatAssociates(a + s, x, s);
  }

  lemma JoinedTwo(separators: seq<string>, a: string, b: string, last: seq<string>)
    requires |separators| == |last| + 1
    ensures Joined(separators, [a, b] + last) == a + separators[0] + Joined(separators[1..], [b] + last)
  {
    assert ([a, b] + last)[1..] == [b] + last;
  }

  lemma SplitAt(part: string, s: string, i: int)
    requires OccursAt(part, s, i)
    ensures s == s[..i] + part + s[i + |part|..]
  {
    assert s == s[..i] + s[i..i + |part|] + s[i + |part|..];
  }

  /** Moving the cut to the other occurrence of its separator gives other values with
      the same text. */
  lemma {:induction false} MoveCut(separators: seq<string>, values: seq<string>, k: nat) returns (others: seq<string>)
    requires |values| == |separators| + 1 && k < |separators| && separators[k] != ""
    requires Contains(values[k], separators[k]) || Contains(values[k + 1], separators[k])
    ensures |others| == |values| && others != values
    ensures Joined(separators, others) == Joined(separators, values)
    decreases |separators|
  {
    if k > 0 {
      assert values[1..][k - 1] == values[k] && values[1..][k] == values[k + 1];
      var tail := MoveCut(separators[1..], values[1..], k - 1);
      others := [values[0]] + tail;
      assert others[1..] == tail;
      return;
    }
    hide Joined;
    var s, a, b, last := separators[0], values[0], values[1], values[2..];
    assert values == [a, b] + last;
    if i :| OccursAt(s, a, i) {
      SplitAt(s, a, i);
      others := [a[..i], a[i + |s|..] + s + b] + last;
      EitherCut(separators, a[..i], a[i + |s|..], b, last);
      assert others[0] != a;
    } else {
      var i :| OccursAt(s, b, i);
      SplitAt(s, b, i);
      others := [a + s + b[..i], b[i + |s|..]] + last;
      EitherCut(separators, a, b[..i], b[i + |s|..], last);
      assert others[0] != a;
    }
  }

  /** The joined text determines the values exactly when none contains a separator next
      to it. */
  lemma CutsDetermined(separators: seq<string>, values: seq<string>)
    requires |values| == |separators| + 1 && AllSeparators(separators)
    ensures Unambiguous(separators, values) <==>
            forall others: seq<string> ::
              |others| == |values| && Joined(separators, others) == Joined(separators, values) ==> others == values
  {
    hide Joined, Contains;
    if Unambiguous(separators, values) {
      forall others: seq<string> | |others| == |values| && Joined(separators, others) == Joined(separators, values)
        ensures others == values
      {
        UnambiguousDetermined(separators, values, others);
      }
    } else {
      var k :| 0 <= k < |separators| && (Contains(values[k], separators[k]) || Contains(values[k + 1], separators[k]));
      assert IsSeparator(separators[k]);
      var others := MoveCut(separators, values, k);
    }
  }

  /** Values without LF are unambiguous. */
  lemma NoLfUnambiguous(separators: seq<string>, values: seq<string>)
    requires |values| == |separators| + 1 && AllSeparators(separators)
    requires forall i :: 0 <= i < |values| ==> NoLf(values[i])
    ensures Unambiguous(separators, values)
  {
    forall k | 0 <= k < |separators|
      ensures !Contains(values[k], separators[k]) && !Contains(values[k + 1], separators[k])
    {
      NoLfContainsNone(values[k], separators[k]);
      NoLfContainsNone(values[k + 1], separators[k]);
    }
  }

  lemma OccurrenceBegins(part: string, s: string, i: int)
    requires OccursAt(part, s, i) && part != ""
    ensures s[i] == part[0]
  {
    assert s[i..i + |part|][0] == part[0];
  }

  lemma NoLfContainsNone(s: string, part: string)
    requires NoLf(s) && IsSeparator(part)
    ensures !Contains(s, part)
  {
    if i :| OccursAt(part, s, i) {
      OccurrenceBegins(part, s, i);
    }
  }
}
