/** Clear components: plain names, and no strings among the parameters of fields. Signed
    with values without LF, their base is no other list's that a parser can return, whatever
    its names and values; unless one of them prints like a later one and a colon. */
module ClearComponents {
  import opened Wrappers
  import opened SfvTypes
  import opened SignatureTypes
  import opened SignatureInput
  import opened SignatureText
  import opened IdentifierQuotes
  import opened Identifiers
  import opened LineCuts
  import opened SignatureBase
  import opened BaseInjectivity

  // Where the lines of another list begin

  /** What component i's line begins with begins a line of the text: as the lines before
      begin further up, not above line i. */
  ghost predicate StartsLine(text: string, i: nat, cs: seq<Component>, values: seq<string>)
    requires |cs| == |values|
  {
    exists j :: i <= j < |cs| && (i == 0 ==> j == 0) && text <= ComponentLine(cs[j], values[j])
  }

  function Lfs(s: string): nat {
    if s == "" then 0 else (if s[0] == '\n' then 1 else 0) + Lfs(s[1..])
  }

  lemma {:induction false} LfsConcat(a: string, b: string)
    ensures Lfs(a + b) == Lfs(a) + Lfs(b)
  {
    if a == "" {
      NothingAdded(b);
    } else {
      DropFirst(a, b);
      LfsConcat(a[1..], b);
    }
  }

  lemma {:induction false} NoLfs(s: string)
    requires NoLf(s)
    ensures Lfs(s) == 0
  {
    if s != "" {
      NoLfs(s[1..]);
    }
  }

  /** A line, and what stands behind its LF. */
  lemma LineCounts(line: string, rest: string)
    ensures Lfs(line + "\n" + rest) == Lfs(line) + 1 + Lfs(rest)
  {
    assert Lfs("\n") == 1;
    hide Lfs;
    LfsConcat(line, "\n");
    LfsConcat(line + "\n", rest);
  }

  lemma {:induction false} StartsOneOf(lines: seq<string>, before: string, text: string, after: string) returns (j: nat)
    requires lines != [] && AllNoLf(lines) && NoLf(text)
    requires Join(lines, "\n") == before + text + after
    requires before != "" ==> before[|before| - 1] == '\n'
    ensures j < |lines| && text <= lines[j] && j == Lfs(before)
  {
    assert Lfs("") == 0;
    hide AllNoLf, NoLf, Lfs;
    var first, rest := lines[0], Join(lines[1..], "\n");
    FirstHasNoLf(lines);
    if before == "" {
      NothingAdded(text);
      FirstBegins(lines, text, after);
      j := 0;
    } else {
      EndsFirst(lines, before, text, after);
      hide Join;
      FirstCut(first, rest, before, text + after);
      ConcatAssociates(before, text, after);
      var tail := before[|first| + 1..];
      ConcatAssociates(tail, text, after);
      TailEnds(before, |first| + 1);
      TailsHaveNoLf(lines);
      j := StartsOneOf(lines[1..], tail, text, after);
      assert lines[1..][j] == lines[j + 1];
      NoLfs(first);
      LineCounts(first, tail);
      j := j + 1;
    }
  }

  lemma FirstHasNoLf(lines: seq<string>)
    requires lines != [] && AllNoLf(lines)
    ensures NoLf(lines[0])
  {
  }

  lemma TailsHaveNoLf(lines: seq<string>)
    requires lines != [] && AllNoLf(lines)
    ensures AllNoLf(lines[1..])
  {
    hide NoLf;
  }

  lemma TailEnds(s: string, n: nat)
    requires n <= |s| && s != "" && s[|s| - 1] == '\n'
    ensures s[n..] != "" ==> s[n..][|s[n..]| - 1] == '\n'
  {
  }

  /** Text without LF at the beginning is at the beginning of the first line. */
  lemma FirstBegins(lines: seq<string>, text: string, after: string)
    requires lines != [] && NoLf(text) && Join(lines, "\n") == text + after
    ensures text <= lines[0]
  {
    var first := lines[0];
    if |lines| > 1 {
      var joined := first + "\n" + Join(lines[1..], "\n");
      assert joined[|first|] == '\n';
      assert forall i :: 0 <= i < |text| ==> joined[i] == text[i];
      assert |text| <= |first|;
      assert joined[..|text|] == text && joined[..|first|] == first;
      assert first[..|text|] == text;
    }
  }

  /** If an LF comes before the text, the first line is not the only one. */
  lemma EndsFirst(lines: seq<string>, before: string, text: string, after: string)
    requires lines != [] && NoLf(lines[0]) && Join(lines, "\n") == before + text + after
    requires before != "" && before[|before| - 1] == '\n'
    ensures |lines| > 1 && lines[0] + "\n" + Join(lines[1..], "\n") == before + text + after
  {
    assert (before + text + after)[|before| - 1] == '\n';
  }

  lemma FirstCut(first: string, rest: string, before: string, after: string)
    requires NoLf(first) && first + "\n" + rest == before + after
    requires before != "" && before[|before| - 1] == '\n'
    ensures |before| > |first| && rest == before[|first| + 1..] + after
    ensures before == first + "\n" + before[|first| + 1..]
  {
    var text := first + "\n" + rest;
    assert text[|before| - 1] == '\n';
    assert forall i :: 0 <= i < |first| ==> text[i] == first[i];
    assert text[..|before|] == before && before[..|first|] == first && before[|first|] == '\n';
    assert text[|first| + 1..] == rest && (before + after)[|first| + 1..] == before[|first| + 1..] + after;
  }

  /** Where component i's line begins in the joined lines. */
  lemma {:induction false} LineBegins(ds: seq<Component>, others: seq<string>, i: nat)
    returns (before: string, after: string)
    requires |ds| == |others| && i < |ds|
    ensures Join(Lines(ds, others), "\n") == before + (IdentifierText(ds[i]) + ": ") + after
    ensures before != "" ==> before[|before| - 1] == '\n'
    ensures Lfs(before) >= i && (i == 0 ==> before == "")
  {
    hide IdentifierText, Join, Lines, ComponentLine, Lfs;
    var lines := Lines(ds, others);
    var tail := if |ds| == 1 then "" else "\n" + Join(lines[1..], "\n");
    JoinFirst(lines, tail);
    if i == 0 {
      before, after := "", others[0] + tail;
      LineText(ds[0], others[0]);
      TextFirst(IdentifierText(ds[0]) + ": ", others[0], tail);
    } else {
      LinesBehindFirst(ds, others);
      var inner;
      inner, after := LineBegins(ds[1..], others[1..], i - 1);
      before := lines[0] + "\n" + inner;
      TextBehind(lines[0], inner, IdentifierText(ds[i]) + ": ", after);
      LineCounts(lines[0], inner);
    }
  }

  lemma LineText(c: Component, value: string)
    ensures ComponentLine(c, value) == IdentifierText(c) + ": " + value
  {
  }

  lemma LinesBehindFirst(ds: seq<Component>, others: seq<string>)
    requires |ds| == |others| && ds != []
    ensures Lines(ds, others)[1..] == Lines(ds[1..], others[1..])
  {
    hide ComponentLine;
  }

  lemma TextFirst(text: string, value: string, tail: string)
    ensures text + value + tail == "" + text + (value + tail)
  {
    ConcatAssociates(text, value, tail);
    NothingAdded(text);
  }

  lemma TextBehind(line: string, inner: string, text: string, after: string)
    ensures line + ("\n" + (inner + text + after)) == line + "\n" + inner + text + after
    ensures inner == "" || inner[|inner| - 1] == '\n' ==> (line + "\n" + inner)[|line + "\n" + inner| - 1] == '\n'
  {
    ConcatAssociates(line, "\n", inner + text + after);
    ConcatAssociates(line + "\n", inner + text, after);
    ConcatAssociates(line + "\n", inner, text);
  }

  lemma JoinFirst(lines: seq<string>, tail: string)
    requires lines != [] && tail == if |lines| == 1 then "" else "\n" + Join(lines[1..], "\n")
    ensures Join(lines, "\n") == lines[0] + tail
  {
    if |lines| > 1 {
      ConcatAssociates(lines[0], "\n", Join(lines[1..], "\n"));
    } else {
      NothingAdded(lines[0]);
    }
  }

  lemma EachStartsLine(cs: seq<Component>, values: seq<string>, ds: seq<Component>, others: seq<string>, i: nat)
    requires |cs| == |values| > 0 && |ds| == |others| && i < |ds|
    requires AllNoLf(Lines(cs, values)) && IdentifiersHaveNoLf(ds)
    requires Join(Lines(cs, values), "\n") == Join(Lines(ds, others), "\n")
    ensures StartsLine(IdentifierText(ds[i]) + ": ", i, cs, values)
  {
    assert Lfs("") == 0;
    hide IdentifierText, AllNoLf, NoLf, Join, ComponentLine, Lfs;
    var before, after := LineBegins(ds, others, i);
    PrefixHasNoLf();
    NoLfConcat(IdentifierText(ds[i]), ": ");
    var j := StartsOneOf(Lines(cs, values), before, IdentifierText(ds[i]) + ": ", after);
    assert Lines(cs, values)[j] == ComponentLine(cs[j], values[j]);
  }

  // Clear components

  /** A plain name, and no string among the parameters of a field. */
  predicate Clear(c: Component) {
    IsPlain(c.name) && (c.kind == Derived || !HasString(c.parameters))
  }

  predicate AllClear(cs: seq<Component>) {
    forall i :: 0 <= i < |cs| ==> Proper(cs[i]) && Clear(cs[i])
  }

  /** No field but the first component prints like a later one and a colon. */
  predicate Apart(cs: seq<Component>) {
    forall i, j :: 0 < i < j < |cs| && cs[i].kind == Field ==> IdentifierText(cs[i]) != IdentifierText(cs[j]) + ":"
  }

  predicate AllParsed(cs: seq<Component>) {
    forall i :: 0 <= i < |cs| ==> AsParsed(cs[i])
  }

  lemma ClearFieldAvoids(c: Component)
    requires Proper(c) && Clear(c) && c.kind == Field
    ensures Avoids(c.name, QUOTE) && Avoids(IdentifierParametersText(c.parameters), MARKS)
  {
    ProperParts(c);
    hide Proper, ParametersFit, IdentifierParametersText;
    ParametersAvoidMarks(c.parameters);
  }

  /** A clear identifier on the line of parameters, another identifier that begins there
      too, and begins the line of some clear component: they are the same, unless the
      first is that of the line and a colon. */
  lemma ClearText(n: string, ps: string, x: string, b: string, y: string, m: string, qs: string, v: string)
    requires Avoids(n, QUOTE) && Avoids(ps, MARKS) && Avoids(m, QUOTE) && Avoids(qs, MARKS)
    requires ("\"" + n + "\"" + ps) + x == b + y && x != "" && y != "" && x[0] in {' ', ')'} && y[0] in {' ', ')'}
    requires exists k :: 1 <= k < |b| && b[k] == '"'
    requires b + ": " <= ("\"" + m + "\"" + qs) + ": " + v
    requires "\"" + n + "\"" + ps != "\"" + m + "\"" + qs + ":"
    ensures b == "\"" + n + "\"" + ps
  {
    var a, line := "\"" + n + "\"" + ps, ("\"" + m + "\"" + qs) + ": " + v;
    if |b| < |a| {
      ShorterIsOther(n, ps, x, b, y);
    } else if |a| < |b| {
      LongerIsOther(n, ps, x, b, y, m, qs, v);
    } else {
      assert (a + x)[..|a|] == a && (b + y)[..|b|] == b;
    }
  }

  lemma ShorterIsOther(n: string, ps: string, x: string, b: string, y: string)
    requires Avoids(n, QUOTE) && Avoids(ps, MARKS)
    requires ("\"" + n + "\"" + ps) + x == b + y && y != "" && y[0] in {' ', ')'}
    requires exists k :: 1 <= k < |b| && b[k] == '"'
    ensures |b| >= |"\"" + n + "\"" + ps|
  {
    var a := "\"" + n + "\"" + ps;
    var k :| 1 <= k < |b| && b[k] == '"';
    assert (a + x)[k] == b[k] && (a + x)[|b|] == y[0];
    assert forall i :: 1 <= i <= |n| ==> a[i] == n[i - 1];
    assert forall i :: |n| + 2 <= i < |a| ==> a[i] == ps[i - |n| - 2];
    assert k < |a| ==> (a + x)[k] == a[k];
    assert k < |a| ==> k > |n|;
  }

  lemma LongerIsOther(n: string, ps: string, x: string, b: string, y: string, m: string, qs: string, v: string)
    requires Avoids(n, QUOTE) && Avoids(ps, MARKS) && Avoids(m, QUOTE) && Avoids(qs, MARKS)
    requires ("\"" + n + "\"" + ps) + x == b + y && x != "" && x[0] in {' ', ')'}
    requires b + ": " <= ("\"" + m + "\"" + qs) + ": " + v
    requires "\"" + n + "\"" + ps != "\"" + m + "\"" + qs + ":"
    ensures |b| <= |"\"" + n + "\"" + ps|
  {
    var a, c := "\"" + n + "\"" + ps, "\"" + m + "\"" + qs;
    var line := c + ": " + v;
    if |b| > |a| {
      LineBeginsAlike(a, x, b, y, line);
      QuotesMatch(n, ps, m, qs, v, line);
      LineEnds(n, ps, m, qs, v, x[0]);
    }
  }

  lemma LineBeginsAlike(a: string, x: string, b: string, y: string, line: string)
    requires a + x == b + y && b + ": " <= line && |b| > |a|
    ensures |a| < |line| && x != "" && line[|a|] == x[0] && line[..|a|] == a
  {
    assert forall i :: 0 <= i < |b| ==> line[i] == b[i] && b[i] == (a + x)[i];
    assert (a + x)[|a|] == x[0];
  }

  /** A line that goes on with a space or a parenthesis behind text with the line's name:
      the text is the line's identifier and its colon. */
  lemma LineEnds(n: string, ps: string, m: string, qs: string, v: string, next: char)
    requires |n| == |m| && Avoids(ps, MARKS) && Avoids(qs, MARKS) && next in {' ', ')'}
    requires var a, line := "\"" + n + "\"" + ps, ("\"" + m + "\"" + qs) + ": " + v;
             |a| < |line| && line[..|a|] == a && line[|a|] == next
    ensures "\"" + n + "\"" + ps == "\"" + m + "\"" + qs + ":"
  {
    var a, c := "\"" + n + "\"" + ps, "\"" + m + "\"" + qs;
    var line := c + ": " + v;
    assert line[|c|] == ':' && line[|c| + 1] == ' ';
    assert forall i :: |m| + 2 <= i < |c| ==> line[i] == qs[i - |m| - 2];
    assert forall i :: |n| + 2 <= i < |a| ==> line[..|a|][i] == ps[i - |n| - 2];
    assert |a| == |c| + 1;
    assert line[..|c| + 1] == c + ":";
  }

  lemma QuotesMatch(n: string, ps: string, m: string, qs: string, v: string, line: string)
    requires Avoids(n, QUOTE) && Avoids(m, QUOTE)
    requires line == ("\"" + m + "\"" + qs) + ": " + v
    requires var a := "\"" + n + "\"" + ps; |a| <= |line| && line[..|a|] == a
    ensures |n| == |m|
  {
    var a := "\"" + n + "\"" + ps;
    assert forall i :: 0 <= i < |a| ==> line[i] == line[..|a|][i];
    assert a[|n| + 1] == '"' && line[|m| + 1] == '"';
    assert forall i :: 1 <= i <= |n| ==> a[i] == n[i - 1];
    assert forall i :: 1 <= i <= |m| ==> line[i] == m[i - 1];
  }

  lemma ClosingQuote(c: Component)
    ensures exists k :: 1 <= k < |IdentifierText(c)| && IdentifierText(c)[k] == '"'
  {
    assert IdentifierText(c)[|c.name| + 1] == '"';
  }

  /** Component i of the signed list, and what another list has there. */
  lemma ClearIdentifierSame(
    all: seq<Component>, values: seq<string>, i: nat, x: string, d: Component, y: string)
    requires |all| == |values| && i < |all| && AllClear(all) && Apart(all) && Proper(d) && ValidComponent(d)
    requires IdentifierText(all[i]) + x == IdentifierText(d) + y
    requires x != "" && y != "" && x[0] in {' ', ')'} && y[0] in {' ', ')'}
    requires StartsLine(IdentifierText(d) + ": ", i, all, values)
    ensures IdentifierText(d) == IdentifierText(all[i])
  {
    var c := all[i];
    assert Proper(c) && Clear(c);
    KindIsKnown(c);
    hide Proper, Clear, ValidComponent, IdentifierText, ComponentLine, Apart, AllClear;
    if c.kind == Derived {
      ClearDerivedSame(c, x, d, y);
    } else {
      var j :| i <= j < |all| && (i == 0 ==> j == 0) && IdentifierText(d) + ": " <= ComponentLine(all[j], values[j]);
      AllClearAt(all, j);
      FieldLine(c, x, d, y, all[j], values[j]);
      NotLineAndColon(all, i, j);
      ClearFieldSame(c, x, d, y, all[j], values[j]);
    }
  }

  lemma AllClearAt(cs: seq<Component>, j: nat)
    requires AllClear(cs) && j < |cs|
    ensures Proper(cs[j]) && Clear(cs[j])
  {
    hide Proper, Clear;
  }

  lemma ClearDerivedSame(c: Component, x: string, d: Component, y: string)
    requires Proper(c) && Clear(c) && c.kind == Derived && Proper(d) && ValidComponent(d)
    requires IdentifierText(c) + x == IdentifierText(d) + y
    requires x != "" && y != "" && x[0] in {' ', ')'} && y[0] in {' ', ')'}
    ensures c == d
  {
    hide Proper, ValidComponent, IdentifierText;
    DerivedDetermined(c, x, d, y);
  }

  lemma NotLineAndColon(cs: seq<Component>, i: nat, j: nat)
    requires Apart(cs) && i <= j < |cs| && (i == 0 ==> j == 0) && cs[i].kind == Field
    ensures IdentifierText(cs[i]) != IdentifierText(cs[j]) + ":"
  {
    hide IdentifierText;
    assert |IdentifierText(cs[j]) + ":"| == |IdentifierText(cs[j])| + 1;
  }

  /** A text that begins with a field's identifier begins no derived component's line. */
  lemma FieldLine(c: Component, x: string, d: Component, y: string, e: Component, v: string)
    requires Proper(c) && c.kind == Field && Proper(e)
    requires IdentifierText(c) + x == IdentifierText(d) + y && IdentifierText(d) + ": " <= ComponentLine(e, v)
    ensures e.kind == Field
  {
    KindIsKnown(e);
    SecondCharacter(c, x);
    SecondCharacter(d, y);
    SecondCharacter(d, ": ");
    SecondCharacter(e, ": " + v);
    hide FitsItem, KindOf, IdentifierText;
    ConcatAssociates(IdentifierText(e), ": ", v);
    assert (IdentifierText(d) + ": ")[1] == ComponentLine(e, v)[1];
  }

  lemma ClearFieldSame(c: Component, x: string, d: Component, y: string, e: Component, v: string)
    requires Proper(c) && Clear(c) && c.kind == Field && Proper(e) && Clear(e) && e.kind == Field
    requires IdentifierText(c) + x == IdentifierText(d) + y
    requires x != "" && y != "" && x[0] in {' ', ')'} && y[0] in {' ', ')'}
    requires IdentifierText(d) + ": " <= ComponentLine(e, v) && IdentifierText(c) != IdentifierText(e) + ":"
    ensures IdentifierText(d) == IdentifierText(c)
  {
    ClosingQuote(d);
    ClearFieldAvoids(c);
    ClearFieldAvoids(e);
    hide Proper, Clear, Avoids, IdentifierParametersText;
    ClearText(
      c.name, IdentifierParametersText(c.parameters), x, IdentifierText(d), y,
      e.name, IdentifierParametersText(e.parameters), v);
  }

  /** The list of parameters, read identifier by identifier, from component i on. */
  lemma {:induction false} ClearIdentifiersSame(
    all: seq<Component>, values: seq<string>, i: nat, x: string, ds: seq<Component>, y: string)
    requires |all| == |values| && i <= |all| && AllClear(all) && Apart(all)
    requires forall k :: 0 <= k < |ds| ==>
                           && Proper(ds[k]) && ValidComponent(ds[k])
                           && StartsLine(IdentifierText(ds[k]) + ": ", i + k, all, values)
    requires IdentifiersText(all[i..]) + ")" + x == IdentifiersText(ds) + ")" + y
    ensures SameIdentifiers(all[i..], ds) && x == y
    decreases |ds|
  {
    hide IdentifierText, IdentifiersText, BehindFirst, Proper, ValidComponent, AllClear, Apart, StartsLine,
      SameIdentifiers;
    var cs := all[i..];
    ListEnds(cs, x, ds, y);
    if cs == [] {
      NothingListed(x, y);
      return;
    }
    assert cs[1..] == all[i + 1..];
    FirstOnParamsLine(cs, x);
    FirstOnParamsLine(ds, y);
    ClearIdentifierSame(all, values, i, BehindFirst(cs, x), ds[0], BehindFirst(ds, y));
    SameBehind(IdentifierText(cs[0]), BehindFirst(cs, x), BehindFirst(ds, y));
    SameNumberBehind(cs, x, ds, y);
    forall k | 0 <= k < |ds[1..]|
      ensures Proper(ds[1..][k]) && ValidComponent(ds[1..][k])
      ensures StartsLine(IdentifierText(ds[1..][k]) + ": ", i + 1 + k, all, values)
    {
      assert ds[1..][k] == ds[k + 1];
    }
    ClearIdentifiersSame(all, values, i + 1, x, ds[1..], y);
    SameIdentifiersStep(cs, ds);
  }

  lemma SameBehind(a: string, x: string, y: string)
    requires a + x == a + y
    ensures x == y
  {
    assert (a + x)[|a|..] == x && (a + y)[|a|..] == y;
  }

  lemma ListEnds(cs: seq<Component>, x: string, ds: seq<Component>, y: string)
    requires IdentifiersText(cs) + ")" + x == IdentifiersText(ds) + ")" + y
    ensures cs == [] <==> ds == []
  {
    hide IdentifiersText;
    if cs != [] {
      ListStarts(cs, x);
    }
    if ds != [] {
      ListStarts(ds, y);
    }
    EmptyListStarts(x);
    EmptyListStarts(y);
  }

  lemma EmptyListStarts(x: string)
    ensures (IdentifiersText([]) + ")" + x)[0] == ')'
  {
  }

  lemma ListStarts(cs: seq<Component>, x: string)
    requires cs != []
    ensures (IdentifiersText(cs) + ")" + x)[0] == '"'
  {
    FirstOnParamsLine(cs, x);
    hide IdentifiersText, BehindFirst;
    assert IdentifierText(cs[0])[0] == '"';
  }

  lemma SameNumberBehind(cs: seq<Component>, x: string, ds: seq<Component>, y: string)
    requires cs != [] && ds != [] && BehindFirst(cs, x) == BehindFirst(ds, y)
    ensures IdentifiersText(cs[1..]) + ")" + x == IdentifiersText(ds[1..]) + ")" + y
  {
    hide IdentifiersText;
    assert BehindFirst(cs, x)[0] == if |cs| == 1 then ')' else ' ';
    assert BehindFirst(ds, y)[0] == if |ds| == 1 then ')' else ' ';
    if |cs| == 1 && |ds| == 1 {
      assert cs[1..] == ds[1..] && (")" + x)[1..] == x && (")" + y)[1..] == y;
    } else if |cs| > 1 && |ds| > 1 {
      var a, b := IdentifiersText(cs[1..]) + ")" + x, IdentifiersText(ds[1..]) + ")" + y;
      assert (" " + a)[1..] == a && (" " + b)[1..] == b;
    }
  }

  /** Clear components with values without LF are determined by their base against every
      other list a parser can return, whatever its names and values: same components, same
      values, same signature parameters. */
  lemma ClearBaseDetermines(
    cs: seq<Component>, values: seq<string>, p: SignatureParams,
    ds: seq<Component>, others: seq<string>, q: SignatureParams)
    requires |cs| == |values| && |ds| == |others|
    requires Printed(cs, p) && AllClear(cs) && Apart(cs) && AllNoLf(values)
    requires Printed(ds, q) && AllParsed(ds)
    requires BaseText(cs, values, p) == BaseText(ds, others, q)
    ensures cs == ds && values == others && p == q
  {
    hide BaseText, ParamsValue, FitsItems, FitsParameters, ToSfvItems, ToSfvSignatureParams, AllNoLf, IdentifierText,
      IdentifiersHaveNoLf, IdentifiersText, MetadataText, SameIdentifiers, Join, Lines, StartsLine, KindOf,
      Determined, AllClear, Apart, Proper, ValidComponent;
    ParamsLinesEqual(cs, values, p, ds, others, q);
    ItemsHaveNoLf(cs, NO_LIMITS);
    ItemsHaveNoLf(ds, NO_LIMITS);
    LinesHaveNoLf(cs, values);
    forall i | 0 <= i < |ds|
      ensures Proper(ds[i]) && ValidComponent(ds[i]) && StartsLine(IdentifierText(ds[i]) + ": ", 0 + i, cs, values)
    {
      ItemsAreProper(ds, q, i);
      EachStartsLine(cs, values, ds, others, i);
    }
    SameParamsValues(cs, p, ds, q);
    assert cs[0..] == cs;
    ClearIdentifiersSame(cs, values, 0, MetadataText(p), ds, MetadataText(q));
    MetadataDetermines(p, q);
    ClearAreSame(cs, ds, q);
    NoLfDetermined(cs, values);
    ValuesDetermined(cs, values, others, p);
  }

  lemma ClearAreSame(cs: seq<Component>, ds: seq<Component>, q: SignatureParams)
    requires AllClear(cs) && Printed(ds, q) && AllParsed(ds) && SameIdentifiers(cs, ds)
    ensures cs == ds
  {
    hide Printed, KindOf, Unmistakable, IdentifierText, Proper, ValidComponent;
    forall i | 0 <= i < |cs|
      ensures cs[i] == ds[i]
    {
      ItemsAreProper(ds, q, i);
      PlainUnmistakable(cs[i]);
      UnmistakableDetermines(cs[i], ds[i]);
    }
  }
}
