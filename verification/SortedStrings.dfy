/** Byte-wise order of strings, sorting, and the one sorted listing of a set. */
module SortedStrings {
  predicate Less(a: string, b: string) {
    if b == "" then false
    else if a == "" then true
    else if a[0] != b[0] then a[0] < b[0]
    else Less(a[1..], b[1..])
  }

  lemma {:induction false} LessIsTransitive(a: string, b: string, c: string)
    requires Less(a, b) && Less(b, c)
    ensures Less(a, c)
  {
    if a != "" && a[0] == b[0] && b[0] == c[0] {
      LessIsTransitive(a[1..], b[1..], c[1..]);
    }
  }

  lemma {:induction false} LessIsTotal(a: string, b: string)
    ensures Less(a, b) || Less(b, a) || a == b
    ensures Less(a, b) ==> !Less(b, a) && a != b
  {
    if a != "" && b != "" {
      LessIsTotal(a[1..], b[1..]);
      assert a == [a[0]] + a[1..] && b == [b[0]] + b[1..];
    }
  }

  predicate IsSorted(s: seq<string>) {
    forall i, j :: 0 <= i < j < |s| ==> Less(s[i], s[j])
  }

  /** Every element of the set once, in order. */
  predicate IsListing(s: seq<string>, elements: set<string>) {
    IsSorted(s) && (forall i :: 0 <= i < |s| ==> s[i] in elements) && forall x :: x in elements ==> x in s
  }

  function Insert(x: string, s: seq<string>): seq<string> {
    if s == [] || Less(x, s[0]) then [x] + s else [s[0]] + Insert(x, s[1..])
  }

  lemma NothingListed()
    ensures IsListing([], {})
  {
  }

  lemma PrependLists(x: string, s: seq<string>, elements: set<string>)
    requires IsListing(s, elements) && forall y :: y in elements ==> Less(x, y)
    ensures IsListing([x] + s, elements + {x})
  {
    hide Less;
    var t := [x] + s;
    assert forall y :: y in s ==> y in t;
    assert x == t[0];
    forall i, j | 0 <= i < j < |t|
      ensures Less(t[i], t[j])
    {
      assert t[j] == s[j - 1];
      assert i > 0 ==> t[i] == s[i - 1];
    }
  }

  lemma TailLists(s: seq<string>, elements: set<string>)
    requires IsListing(s, elements) && s != []
    ensures IsListing(s[1..], elements - {s[0]})
    ensures forall y :: y in elements - {s[0]} ==> Less(s[0], y)
    ensures s[0] in elements
  {
    hide Less;
    forall i | 0 < i < |s|
      ensures s[i] != s[0]
    {
      LessIsTotal(s[0], s[i]);
    }
    forall y | y in elements - {s[0]}
      ensures Less(s[0], y) && y in s[1..]
    {
      var i :| 0 <= i < |s| && s[i] == y;
      assert s[1..][i - 1] == y;
    }
  }

  lemma {:induction false} InsertLists(x: string, s: seq<string>, elements: set<string>)
    requires IsListing(s, elements) && x !in elements
    ensures IsListing(Insert(x, s), elements + {x})
  {
    hide Less, IsListing;
    if s == [] {
      PrependToNothing(x, elements);
      return;
    }
    TailLists(s, elements);
    LessIsTotal(x, s[0]);
    if Less(x, s[0]) {
      forall y | y in elements
        ensures Less(x, y)
      {
        if y != s[0] {
          LessIsTransitive(x, s[0], y);
        }
      }
      PrependLists(x, s, elements);
    } else {
      InsertLists(x, s[1..], elements - {s[0]});
      PrependLists(s[0], Insert(x, s[1..]), elements - {s[0]} + {x});
      assert elements - {s[0]} + {x} + {s[0]} == elements + {x};
    }
  }

  lemma PrependToNothing(x: string, elements: set<string>)
    requires IsListing([], elements)
    ensures IsListing(Insert(x, []), elements + {x})
  {
    assert elements == {};
    PrependLists(x, [], {});
    assert [x] + [] == [x];
  }

  /** sort.Strings, for distinct strings. */
  function Sort(s: seq<string>): seq<string> {
    if s == [] then [] else Insert(s[0], Sort(s[1..]))
  }

  lemma {:induction false} SortLists(s: seq<string>)
    requires forall i, j :: 0 <= i < j < |s| ==> s[i] != s[j]
    ensures IsListing(Sort(s), set x | x in s)
  {
    hide Less;
    if s != [] {
      SortLists(s[1..]);
      assert s[0] !in s[1..];
      InsertLists(s[0], Sort(s[1..]), set x | x in s[1..]);
      assert (set x | x in s[1..]) + {s[0]} == set x | x in s;
    }
  }

  /** A set has only one sorted listing: sorting forgets the order it started from. */
  lemma {:induction false} ListingIsUnique(s: seq<string>, t: seq<string>, elements: set<string>)
    requires IsListing(s, elements) && IsListing(t, elements)
    ensures s == t
  {
    hide Less;
    ListingSize(s, elements);
    ListingSize(t, elements);
    if s != [] {
      assert s[0] in t && t[0] in s;
      LessIsTotal(s[0], t[0]);
      TailLists(s, elements);
      TailLists(t, elements);
      assert s[0] == t[0];
      ListingIsUnique(s[1..], t[1..], elements - {s[0]});
      assert s == [s[0]] + s[1..] && t == [t[0]] + t[1..];
    }
  }

  lemma {:induction false} ListingExists(elements: set<string>)
    ensures exists s :: IsListing(s, elements)
  {
    if elements == {} {
      assert IsListing([], elements);
    } else {
      var x :| x in elements;
      ListingExists(elements - {x});
      var s :| IsListing(s, elements - {x});
      InsertLists(x, s, elements - {x});
      assert elements - {x} + {x} == elements;
      assert IsListing(Insert(x, s), elements);
    }
  }

  ghost function Listing(elements: set<string>): (s: seq<string>)
    ensures IsListing(s, elements)
  {
    ListingExists(elements);
    var s :| IsListing(s, elements);
    s
  }

  lemma {:induction false} ListingSize(s: seq<string>, elements: set<string>)
    requires IsListing(s, elements)
    ensures |s| == |elements|
  {
    hide Less;
    if s != [] {
      TailLists(s, elements);
      ListingSize(s[1..], elements - {s[0]});
      assert s[0] in elements;
    } else {
      assert elements == {};
    }
  }

  predicate DifferAt(a: string, b: string, i: int) {
    0 <= i < |a| && i < |b| && a[..i] == b[..i] && a[i] < b[i]
  }

  lemma DifferBehind(a: string, b: string, i: int)
    requires a != "" && b != "" && a[0] == b[0]
    ensures i > 0 ==> (DifferAt(a, b, i) <==> DifferAt(a[1..], b[1..], i - 1))
    ensures !DifferAt(a, b, 0)
  {
    if 0 < i < |a| && i < |b| {
      assert a[..i] == [a[0]] + a[1..][..i - 1] && b[..i] == [b[0]] + b[1..][..i - 1];
      assert a[1..][..i - 1] == a[..i][1..] && b[1..][..i - 1] == b[..i][1..];
    }
  }

  lemma SameBefore(a: string, b: string, i: int)
    requires DifferAt(a, b, i)
    ensures i > 0 ==> a[0] == b[0]
  {
    assert forall k :: 0 <= k < i ==> a[..i][k] == a[k] && b[..i][k] == b[k];
  }

  lemma BeginsBehind(a: string, b: string)
    requires a != "" && b != ""
    ensures a != b && a <= b <==> a[0] == b[0] && a[1..] != b[1..] && a[1..] <= b[1..]
  {
    assert a == [a[0]] + a[1..] && b == [b[0]] + b[1..];
  }

  /** The order is that of bytes: one string goes before another if it is the beginning of
      it, or has the smaller byte where they first differ. */
  lemma {:induction false} LessExactly(a: string, b: string)
    ensures Less(a, b) <==> (a != b && a <= b) || exists i :: DifferAt(a, b, i)
  {
    if a == "" || b == "" {
      return;
    }
    assert a[0] < b[0] ==> DifferAt(a, b, 0);
    hide DifferAt;
    BeginsBehind(a, b);
    if a[0] == b[0] {
      LessExactly(a[1..], b[1..]);
      if i :| DifferAt(a[1..], b[1..], i) {
        IndexIsNatural(a[1..], b[1..], i);
        DifferBehind(a, b, i + 1);
      }
      if i :| DifferAt(a, b, i) {
        IndexIsNatural(a, b, i);
        DifferBehind(a, b, i);
      }
    } else if i :| DifferAt(a, b, i) {
      SameBefore(a, b, i);
      SmallerThere(a, b, i);
    }
  }

  lemma IndexIsNatural(a: string, b: string, i: int)
    requires DifferAt(a, b, i)
    ensures i >= 0
  {
  }

  lemma SmallerThere(a: string, b: string, i: int)
    requires DifferAt(a, b, i)
    ensures 0 <= i < |a| && i < |b| && a[i] < b[i]
  {
  }
}
