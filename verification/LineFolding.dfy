/** Obsolete line folding (section 2.1 of RFC 9421): each newline with the white space
    behind it becomes one space, and any other CR or LF is an error. */
module LineFolding {
  import opened Wrappers
  import opened SfvTypes
  import opened SfvParser
  import opened SfvWriter

  predicate IsNewline(c: char) {
    c == '\r' || c == '\n'
  }

  predicate NoNewline(s: string) {
    forall i :: 0 <= i < |s| ==> !IsNewline(s[i])
  }

  function NewlineLength(s: string): nat
    requires s != "" && IsNewline(s[0])
  {
    if s[0] == '\r' then 2 else 1
  }

  /** Length of the fold at the start of s. */
  function FoldLength(s: string): (n: Option<int>)
    requires s != "" && IsNewline(s[0])
    ensures n.Some? ==> 1 < n.value <= |s|
  {
    var k := NewlineLength(s);
    if (s[0] == '\r' && (|s| < 2 || s[1] != '\n')) || |s| <= k || !IsOws(s[k]) then None
    else Some(k + Span(IsOws, s[k..]))
  }

  function Normalize(s: string): Option<string> {
    if s == "" then Some("")
    else if !IsNewline(s[0]) then
      var rest :- Normalize(s[1..]);
      Some([s[0]] + rest)
    else
      var n :- FoldLength(s);
      var rest :- Normalize(s[n..]);
      Some(" " + rest)
  }

  lemma {:induction false} NormalizeNoNewline(s: string)
    requires NoNewline(s)
    ensures Normalize(s) == Some(s)
  {
    if s != "" {
      NormalizeNoNewline(s[1..]);
      assert s == [s[0]] + s[1..];
    }
  }

  method SkipObsFold(s: string, i: nat) returns (r: Option<int>)
    requires i < |s| && IsNewline(s[i])
    ensures r == match FoldLength(s[i..]) case None => None case Some(n) => Some(i + n)
  {
    hide Span;
    var newlineLen := 1;
    if s[i] == '\r' {
      if i + 1 >= |s| || s[i + 1] != '\n' {
        return None;
      }
      newlineLen := 2;
    }
    var j := i + newlineLen;
    if j >= |s| || (s[j] != ' ' && s[j] != '\t') {
      return None;
    }
    ghost var start := j;
    while j < |s| && (s[j] == ' ' || s[j] == '\t')
      invariant start <= j <= |s|
      invariant forall k :: start <= k < j ==> IsOws(s[k])
    {
      j := j + 1;
    }
    ScanIs(IsOws, s, start, j);
    assert s[i..][newlineLen..] == s[start..];
    return Some(j);
  }

  method NormalizeLineFolding(s: string) returns (r: Option<string>)
    ensures r == Normalize(s)
  {
    hide FoldLength, IsNewline;
    var hasNewline := ContainsNewline(s);
    if !hasNewline {
      NormalizeNoNewline(s);
      return Some(s);
    }
    var sb := new StringBuilder();
    var i := 0;
    ghost var whole := Normalize(s);
    assert s[0..] == s;
    assert whole.Some? ==> "" + whole.value == whole.value;
    while i < |s|
      invariant 0 <= i <= |s|
      invariant match Normalize(s[i..])
                case None => whole.None?
                case Some(rest) => whole == Some(sb.contents + rest)
    {
      ghost var written := sb.contents;
      ghost var here := i;
      NewlineIs(s[i]);
      if s[i] != '\r' && s[i] != '\n' {
        sb.WriteString([s[i]]);
        i := i + 1;
      } else {
        var next := SkipObsFold(s, i);
        if next.None? {
          return None;
        }
        sb.WriteString(" ");
        i := next.value;
      }
      assert s[here..][i - here..] == s[i..];
      ghost var rest := Normalize(s[i..]);
      if rest.Some? {
        ConcatAssociates(written, if IsNewline(s[here]) then " " else [s[here]], rest.value);
      }
    }
    assert sb.contents + "" == sb.contents;
    return Some(sb.contents);
  }

  lemma NewlineIs(c: char)
    ensures IsNewline(c) <==> c == '\r' || c == '\n'
  {
  }

  /** strings.ContainsAny for CR and LF. */
  method ContainsNewline(s: string) returns (r: bool)
    ensures r == !NoNewline(s)
  {
    for i := 0 to |s|
      invariant forall j :: 0 <= j < i ==> !IsNewline(s[j])
    {
      if IsNewline(s[i]) {
        return true;
      }
    }
    return false;
  }

  // What is accepted, and what comes out

  /** An LF has white space behind it, and a CR an LF. */
  predicate WellFoldedAt(s: string, i: nat)
    requires i < |s|
  {
    && (s[i] == '\n' ==> i + 1 < |s| && IsOws(s[i + 1]))
    && (s[i] == '\r' ==> i + 1 < |s| && s[i + 1] == '\n')
  }

  predicate WellFolded(s: string) {
    forall i :: 0 <= i < |s| ==> WellFoldedAt(s, i)
  }

  /** It takes the part before n to be well folded, and the part behind it. */
  lemma WellFoldedSplit(s: string, n: nat)
    requires n <= |s|
    ensures WellFolded(s) <==> WellFolded(s[n..]) && forall i :: 0 <= i < n ==> WellFoldedAt(s, i)
  {
    forall i | 0 <= i < |s| - n
      ensures WellFoldedAt(s[n..], i) <==> WellFoldedAt(s, n + i)
    {
      assert s[n..][i] == s[n + i];
    }
    if WellFolded(s[n..]) {
      forall i | n <= i < |s|
        ensures WellFoldedAt(s, i)
      {
        assert WellFoldedAt(s[n..], i - n);
      }
    }
  }

  lemma FoldIsWellFolded(s: string)
    requires s != "" && IsNewline(s[0])
    ensures FoldLength(s).Some? ==> forall i :: 0 <= i < FoldLength(s).value ==> WellFoldedAt(s, i)
    ensures FoldLength(s).None? ==> !WellFolded(s)
  {
    var k := NewlineLength(s);
    if FoldLength(s).Some? {
      forall i | k <= i < FoldLength(s).value
        ensures IsOws(s[i])
      {
        assert s[i] == s[k..][i - k];
      }
    } else if WellFolded(s) {
      assert WellFoldedAt(s, 0);
      assert s[0] == '\r' ==> WellFoldedAt(s, 1);
    }
  }

  /** Normalisation succeeds exactly when every CR and LF belongs to a fold. */
  lemma {:induction false} NormalizeAccepts(s: string)
    ensures Normalize(s).Some? <==> WellFolded(s)
  {
    if s != "" {
      if !IsNewline(s[0]) {
        NormalizeAccepts(s[1..]);
        WellFoldedSplit(s, 1);
      } else {
        FoldIsWellFolded(s);
        if FoldLength(s).Some? {
          NormalizeAccepts(s[FoldLength(s).value..]);
          WellFoldedSplit(s, FoldLength(s).value);
        }
      }
    }
  }

  /** Text without newlines, and the fold behind it. */
  datatype Piece = Piece(text: string, fold: string)

  predicate IsFold(fold: string) {
    fold != "" && IsNewline(fold[0]) && FoldLength(fold) == Some(|fold|)
  }

  /** Folds reach as far as they can: what follows one starts with no white space. */
  predicate IsFolding(pieces: seq<Piece>, last: string) {
    && NoNewline(last)
    && (forall i :: 0 <= i < |pieces| ==> NoNewline(pieces[i].text) && IsFold(pieces[i].fold))
    && (forall i :: 0 < i < |pieces| ==> !StartsWithOws(pieces[i].text))
    && (|pieces| > 0 ==> !StartsWithOws(last))
  }

  predicate StartsWithOws(s: string) {
    s != "" && IsOws(s[0])
  }

  function Folded(pieces: seq<Piece>, last: string): string {
    if pieces == [] then last else pieces[0].text + pieces[0].fold + Folded(pieces[1..], last)
  }

  function Unfolded(pieces: seq<Piece>, last: string): string {
    if pieces == [] then last else pieces[0].text + " " + Unfolded(pieces[1..], last)
  }

  lemma {:induction false} NormalizeText(text: string, rest: string)
    requires NoNewline(text)
    ensures Normalize(text + rest) == match Normalize(rest) case None => None case Some(r) => Some(text + r)
  {
    var r := Normalize(rest);
    if text == "" {
      assert "" + rest == rest;
      assert r.Some? ==> "" + r.value == r.value;
    } else {
      assert (text + rest)[1..] == text[1..] + rest;
      NormalizeText(text[1..], rest);
      assert r.Some? ==> [text[0]] + (text[1..] + r.value) == text + r.value;
    }
  }

  lemma FoldLengthAppend(fold: string, rest: string)
    requires IsFold(fold) && !StartsWithOws(rest)
    ensures FoldLength(fold + rest) == Some(|fold|) && (fold + rest)[|fold|..] == rest
  {
    var k := NewlineLength(fold);
    var n := |fold| - k;
    assert fold[k..][..n] == fold[k..];
    SpanIs(IsOws, fold[k..], rest);
    assert (fold + rest)[k..] == fold[k..] + rest;
  }

  /** Each fold of the input becomes one space and nothing else changes. */
  lemma {:induction false} NormalizeFolded(pieces: seq<Piece>, last: string)
    requires IsFolding(pieces, last)
    ensures Normalize(Folded(pieces, last)) == Some(Unfolded(pieces, last))
  {
    hide IsFold, NoNewline;
    if pieces == [] {
      NormalizeNoNewline(last);
    } else {
      var rest := Folded(pieces[1..], last);
      var p := pieces[0];
      NormalizeFolded(pieces[1..], last);
      assert !StartsWithOws(rest) by {
        NextStart(pieces, last);
      }
      NormalizeFold(p.fold, rest);
      NormalizeText(p.text, p.fold + rest);
      ConcatAssociates(p.text, p.fold, rest);
      ConcatAssociates(p.text, " ", Unfolded(pieces[1..], last));
    }
  }

  lemma NextStart(pieces: seq<Piece>, last: string)
    requires IsFolding(pieces, last) && pieces != []
    ensures !StartsWithOws(Folded(pieces[1..], last))
  {
    if |pieces| > 1 {
      var p := pieces[1];
      assert pieces[1..][0] == p;
      assert IsFold(p.fold) && IsNewline(p.fold[0]);
      var whole := Folded(pieces[1..], last);
      assert whole == p.text + p.fold + Folded(pieces[1..][1..], last);
      assert whole[0] == if p.text == "" then p.fold[0] else p.text[0];
    }
  }

  lemma NormalizeFold(fold: string, rest: string)
    requires IsFold(fold) && !StartsWithOws(rest)
    ensures Normalize(fold + rest) == match Normalize(rest) case None => None case Some(r) => Some(" " + r)
  {
    FoldLengthAppend(fold, rest);
    hide FoldLength;
  }

  lemma NothingFolded()
    ensures IsFolding([], "") && Folded([], "") == ""
  {
  }

  /** Conversely, whatever is accepted is such a text. */
  lemma {:induction false} NormalizeConsumes(s: string) returns (pieces: seq<Piece>, last: string)
    requires Normalize(s).Some?
    ensures IsFolding(pieces, last) && s == Folded(pieces, last)
  {
    hide IsNewline, FoldLength, IsFold, IsFolding, Folded, StartsWithOws;
    if s == "" {
      pieces, last := [], "";
      NothingFolded();
    } else if !IsNewline(s[0]) {
      var ps, end := NormalizeConsumes(s[1..]);
      pieces, last := PrependByte(s[0], ps, end);
      assert s == [s[0]] + s[1..];
    } else {
      var n := FoldLength(s).value;
      var ps, end := NormalizeConsumes(s[n..]);
      FoldOf(s);
      FoldStop(s);
      PrependFold(s[..n], ps, end);
      assert s == s[..n] + s[n..];
      pieces, last := [Piece("", s[..n])] + ps, end;
    }
  }

  lemma PrependByte(c: char, pieces: seq<Piece>, last: string) returns (ps: seq<Piece>, end: string)
    requires IsFolding(pieces, last) && !IsNewline(c)
    ensures IsFolding(ps, end) && Folded(ps, end) == [c] + Folded(pieces, last)
  {
    hide IsNewline, IsFold;
    if pieces == [] {
      ps, end := [], [c] + last;
    } else {
      var p := pieces[0];
      ps, end := [Piece([c] + p.text, p.fold)] + pieces[1..], last;
      assert ps[1..] == pieces[1..];
      ConcatAssociates([c], p.text, p.fold);
      ConcatAssociates([c], p.text + p.fold, Folded(pieces[1..], last));
    }
  }

  lemma PrependFold(fold: string, pieces: seq<Piece>, last: string)
    requires IsFolding(pieces, last) && IsFold(fold) && !StartsWithOws(Folded(pieces, last))
    ensures var ps := [Piece("", fold)] + pieces;
            IsFolding(ps, last) && Folded(ps, last) == fold + Folded(pieces, last)
  {
    FirstOfFolded(pieces, last);
    hide IsFold;
    var ps := [Piece("", fold)] + pieces;
    assert ps[1..] == pieces;
    assert "" + fold == fold;
  }

  lemma FoldOf(s: string)
    requires s != "" && IsNewline(s[0]) && FoldLength(s).Some?
    ensures IsFold(s[..FoldLength(s).value])
  {
    var n := FoldLength(s).value;
    var k := NewlineLength(s);
    var fold := s[..n];
    assert fold[k..] == s[k..][..n - k];
    SpanIs(IsOws, fold[k..], "");
    assert fold[k..] + "" == fold[k..];
  }

  lemma FoldStop(s: string)
    requires s != "" && IsNewline(s[0]) && FoldLength(s).Some?
    ensures !StartsWithOws(s[FoldLength(s).value..])
  {
    var n := FoldLength(s).value;
    var k := NewlineLength(s);
    if n < |s| {
      assert s[n] == s[k..][n - k];
    }
  }

  lemma FirstOfFolded(pieces: seq<Piece>, last: string)
    requires IsFolding(pieces, last) && !StartsWithOws(Folded(pieces, last))
    ensures pieces != [] ==> !StartsWithOws(pieces[0].text)
    ensures pieces == [] ==> !StartsWithOws(last)
  {
    if pieces != [] && pieces[0].text != "" {
      assert Folded(pieces, last)[0] == pieces[0].text[0];
    }
  }

  /** Normalisation is the replacement of each fold by a space, no more and no less. */
  lemma NormalizeExactly(s: string, t: string)
    ensures Normalize(s) == Some(t)
            <==> exists pieces, last ::
                   IsFolding(pieces, last) && s == Folded(pieces, last) && t == Unfolded(pieces, last)
  {
    hide IsFolding, Folded, Unfolded, Normalize;
    if Normalize(s) == Some(t) {
      var pieces, last := NormalizeConsumes(s);
      NormalizeFolded(pieces, last);
    }
    if pieces, last :| IsFolding(pieces, last) && s == Folded(pieces, last) && t == Unfolded(pieces, last) {
      NormalizeFolded(pieces, last);
    }
  }

  lemma {:induction false} NormalizedHasNoNewline(s: string)
    requires Normalize(s).Some?
    ensures NoNewline(Normalize(s).value)
  {
    hide IsNewline, FoldLength, NoNewline;
    if s == "" {
      NothingIsNewline();
    } else {
      var n := if IsNewline(s[0]) then FoldLength(s).value else 1;
      NormalizedHasNoNewline(s[n..]);
      NoNewlineFirst(if IsNewline(s[0]) then ' ' else s[0], Normalize(s[n..]).value);
    }
  }

  lemma NothingIsNewline()
    ensures NoNewline("")
  {
  }

  lemma NoNewlineFirst(c: char, rest: string)
    requires NoNewline(rest) && (c == ' ' || !IsNewline(c))
    ensures NoNewline([c] + rest)
  {
  }

  /** Normalising twice is normalising once. */
  lemma NormalizeIdempotent(s: string)
    requires Normalize(s).Some?
    ensures Normalize(Normalize(s).value) == Normalize(s)
  {
    NormalizedHasNoNewline(s);
    NormalizeNoNewline(Normalize(s).value);
  }
}
