/** The Content-Digest field (RFC 9530): printing it, parsing it, and verifying a body
    against it, held in memory or read from a stream. */
module ContentDigest {
  import opened Wrappers
  import opened SfvTypes
  import opened SfvGrammar
  import opened SortedStrings
  import SignatureParser
  import SfvLimits
  import SfvRoundTrip
  import Base64

  type Bytes = seq<Octet>
  type Digests = map<string, Bytes>

  const SUPPORTED := {"sha-256", "sha-512", "sha-512/256", "sha3-256", "sha3-512", "blake2b-256", "blake2b-512"}

  function ExpectedLength(algorithm: string): int {
    match algorithm
    case "sha-256" => 32
    case "sha-512/256" => 32
    case "sha3-256" => 32
    case "blake2b-256" => 32
    case "sha-512" => 64
    case "sha3-512" => 64
    case "blake2b-512" => 64
    case _ => -1
  }

  /** A supported algorithm and a digest as long as it makes. */
  predicate IsDigest(algorithm: string, digest: Bytes) {
    algorithm in SUPPORTED && |digest| == ExpectedLength(algorithm)
  }

  // Printing

  function Part(algorithm: string, digest: Bytes): string {
    algorithm + "=:" + Base64.Encode(digest, true) + ":"
  }

  function Parts(algorithms: seq<string>, digests: Digests): (parts: seq<string>)
    requires forall i :: 0 <= i < |algorithms| ==> algorithms[i] in digests
    ensures |parts| == |algorithms|
    ensures forall i :: 0 <= i < |parts| ==> parts[i] == Part(algorithms[i], digests[algorithms[i]])
  {
    if algorithms == [] then []
    else [Part(algorithms[0], digests[algorithms[0]])] + Parts(algorithms[1..], digests)
  }

  predicate Printable(digests: Digests) {
    digests != map[] && "" !in digests && forall k :: k in digests ==> digests[k] != []
  }

  ghost function HeaderText(digests: Digests): string {
    Join(Parts(Listing(digests.Keys), digests), ", ")
  }

  /** The keys of a map in whatever order iteration takes them; fails on an empty name. */
  method CollectAlgorithms(digests: Digests) returns (r: Option<seq<string>>)
    ensures r.Some? <==> "" !in digests
    ensures r.Some? ==> (set x | x in r.value) == digests.Keys
    ensures r.Some? ==> forall i, j :: 0 <= i < j < |r.value| ==> r.value[i] != r.value[j]
  {
    var algorithms: seq<string> := [];
    var left := digests.Keys;
    while left != {}
      invariant left <= digests.Keys
      invariant forall i :: 0 <= i < |algorithms| ==> algorithms[i] in digests && algorithms[i] !in left
      invariant forall k :: k in digests && k !in left ==> k in algorithms
      invariant forall i, j :: 0 <= i < j < |algorithms| ==> algorithms[i] != algorithms[j]
      invariant "" !in algorithms
      decreases |left|
    {
      var algorithm :| algorithm in left;
      if algorithm == "" {
        return None;
      }
      ghost var before := algorithms;
      algorithms := algorithms + [algorithm];
      assert forall k :: k in before || k == algorithm ==> k in algorithms;
      left := left - {algorithm};
    }
    assert (set x | x in algorithms) == digests.Keys;
    return Some(algorithms);
  }

  /** The text does not depend on the order in which the map is iterated. */
  method FormatContentDigest(digests: Digests) returns (r: Option<string>)
    ensures r == if Printable(digests) then Some(HeaderText(digests)) else None
  {
    hide IsListing, Sort, Part, Join, Listing;
    if |digests| == 0 {
      return None;
    }
    var collected := CollectAlgorithms(digests);
    if collected.None? {
      return None;
    }
    var algorithms := Sort(collected.value);
    SortLists(collected.value);
    ListingIsUnique(algorithms, Listing(digests.Keys), digests.Keys);
    ListsEach(algorithms, digests);
    var parts := FormatParts(algorithms, digests);
    if parts.None? {
      return None;
    }
    return Some(Join(parts.value, ", "));
  }

  lemma ListsEach(algorithms: seq<string>, digests: Digests)
    requires IsListing(algorithms, digests.Keys)
    ensures forall i :: 0 <= i < |algorithms| ==> algorithms[i] in digests
    ensures forall k :: k in digests ==> k in algorithms
  {
    hide IsSorted;
  }

  method FormatParts(algorithms: seq<string>, digests: Digests) returns (r: Option<seq<string>>)
    requires forall i :: 0 <= i < |algorithms| ==> algorithms[i] in digests
    ensures r.Some? <==> forall i :: 0 <= i < |algorithms| ==> digests[algorithms[i]] != []
    ensures r.Some? ==> r.value == Parts(algorithms, digests)
  {
    hide Base64.Encode;
    var parts: seq<string> := [];
    for i := 0 to |algorithms|
      invariant |parts| == i
      invariant forall j :: 0 <= j < i ==> digests[algorithms[j]] != []
      invariant forall j :: 0 <= j < i ==> parts[j] == Part(algorithms[j], digests[algorithms[j]])
    {
      var digest := digests[algorithms[i]];
      if |digest| == 0 {
        return None;
      }
      parts := parts + [algorithms[i] + "=:" + Base64.Encode(digest, true) + ":"];
    }
    assert parts == Parts(algorithms, digests);
    return Some(parts);
  }

  // Parsing

  /** The digest a member holds for an algorithm. */
  function DigestOf(algorithm: string, m: Member): Option<Bytes> {
    var bytes :- SignatureParser.SignatureBytes(m);
    if IsDigest(algorithm, bytes) then Some(bytes) else None
  }

  function DigestsOf(d: Dictionary): Option<Digests> {
    if forall k :: k in d.values ==> DigestOf(k, d.values[k]).Some?
    then Some(map k | k in d.values :: DigestOf(k, d.values[k]).value)
    else None
  }

  function HeaderDigests(header: string): Option<Digests> {
    if header == "" then None
    else
      var d :- ParseDictionary(header, DEFAULT_LIMITS);
      if d.keys == [] then None else DigestsOf(d)
  }

  method ParseContentDigest(header: string) returns (r: Option<Digests>)
    ensures r == HeaderDigests(header)
  {
    hide ParseDictionary, ExpectedLength;
    if header == "" {
      return None;
    }
    var d := SignatureParser.ParseHeader(header, DEFAULT_LIMITS);
    if d.None? {
      return None;
    }
    if |d.value.keys| == 0 {
      return None;
    }
    r := CollectDigests(d.value);
  }

  /** What has to hold of a member before its digest is taken. */
  method CheckDigest(algorithm: string, value: Member) returns (r: Option<Bytes>)
    ensures r == DigestOf(algorithm, value)
  {
    hide ExpectedLength;
    if !value.Single? {
      return None;
    }
    if !value.item.value.ByteSequence? {
      return None;
    }
    var bytes := value.item.value.bytes;
    if algorithm !in SUPPORTED {
      return None;
    }
    if |bytes| != ExpectedLength(algorithm) {
      return None;
    }
    return Some(bytes);
  }

  method CollectDigests(d: Dictionary) returns (r: Option<Digests>)
    requires IsOrdered(d)
    ensures r == DigestsOf(d)
  {
    hide DigestOf;
    var result: Digests := map[];
    for i := 0 to |d.keys|
      invariant forall j :: 0 <= j < i ==> d.keys[j] in result
      invariant forall k :: k in result ==> k in d.values && DigestOf(k, d.values[k]) == Some(result[k])
    {
      var algorithm := d.keys[i];
      var bytes := CheckDigest(algorithm, d.values[algorithm]);
      if bytes.None? {
        return None;
      }
      result := result[algorithm := bytes.value];
    }
    AllCollected(d, result);
    return Some(result);
  }

  lemma AllCollected(d: Dictionary, result: Digests)
    requires IsOrdered(d) && forall j :: 0 <= j < |d.keys| ==> d.keys[j] in result
    requires forall k :: k in result ==> k in d.values && DigestOf(k, d.values[k]) == Some(result[k])
    ensures DigestsOf(d) == Some(result)
  {
    hide DigestOf;
    assert result.Keys == d.values.Keys;
    assert DigestsOf(d).Some? && result == DigestsOf(d).value;
  }

  // Round trip

  predicate AllDigests(digests: Digests) {
    forall k :: k in digests ==> IsDigest(k, digests[k])
  }

  function DigestMember(digest: Bytes): Member {
    Single(Item(ByteSequence(digest), []))
  }

  ghost function AsDictionary(digests: Digests): Dictionary {
    Dictionary(Listing(digests.Keys), map k | k in digests :: DigestMember(digests[k]))
  }

  lemma PartIsEntry(algorithm: string, digest: Bytes)
    ensures Part(algorithm, digest) == EntryText(algorithm, DigestMember(digest))
  {
    hide Base64.Encode;
    var encoded := Base64.Encode(digest, true);
    assert MemberText(DigestMember(digest)) == ":" + encoded + ":";
    assert "=" + ":" == "=:";
  }

  lemma {:induction false} PartsAreEntries(algorithms: seq<string>, digests: Digests, values: map<string, Member>)
    requires forall i :: 0 <= i < |algorithms| ==> algorithms[i] in digests && algorithms[i] in values
    requires forall i :: 0 <= i < |algorithms| ==> values[algorithms[i]] == DigestMember(digests[algorithms[i]])
    ensures Join(Parts(algorithms, digests), ", ") == EntriesText(algorithms, values)
  {
    hide Part, EntryText;
    if algorithms != [] {
      PartIsEntry(algorithms[0], digests[algorithms[0]]);
      if |algorithms| > 1 {
        assert Parts(algorithms, digests)[1..] == Parts(algorithms[1..], digests);
        PartsAreEntries(algorithms[1..], digests, values);
      }
    }
  }

  lemma HeaderTextIsDictionary(digests: Digests)
    ensures HeaderText(digests) == DictionaryText(AsDictionary(digests))
  {
    hide Part, EntryText, DigestMember, IsSorted;
    PartsAreEntries(Listing(digests.Keys), digests, AsDictionary(digests).values);
  }

  lemma DigestFits(algorithm: string, digest: Bytes)
    requires IsDigest(algorithm, digest)
    ensures FitsToken(algorithm, DEFAULT_LIMITS) && FitsMember(DigestMember(digest), DEFAULT_LIMITS)
    ensures |Part(algorithm, digest)| <= 110
  {
    Base64.EncodeLength(digest, true);
  }

  lemma {:induction false} JoinedLength(parts: seq<string>)
    requires forall i :: 0 <= i < |parts| ==> |parts[i]| <= 110
    ensures |Join(parts, ", ")| <= 112 * |parts|
  {
    if |parts| > 1 {
      JoinedLength(parts[1..]);
    }
  }

  lemma SubsetIsSmaller(a: set<string>, b: set<string>)
    requires a <= b
    ensures |a| <= |b|
  {
    assert b == a + (b - a);
  }

  lemma AtMostSeven(digests: Digests)
    requires AllDigests(digests)
    ensures |digests.Keys| <= 7
  {
    hide ExpectedLength;
    assert forall k :: k in digests ==> IsDigest(k, digests[k]);
    SubsetIsSmaller(digests.Keys, SUPPORTED);
    assert |SUPPORTED| <= 7;
  }

  lemma ListedKeys(digests: Digests)
    ensures var keys := Listing(digests.Keys);
            |keys| == |digests.Keys| && forall i :: 0 <= i < |keys| ==> keys[i] in digests
  {
    ListingSize(Listing(digests.Keys), digests.Keys);
  }

  /** A printed map of digests is within the default limits. */
  lemma HeaderFits(digests: Digests)
    requires AllDigests(digests)
    ensures FitsDictionary(AsDictionary(digests), DEFAULT_LIMITS)
    ensures |HeaderText(digests)| <= 784
  {
    hide FitsToken, FitsMember, Part, IsDigest, DigestMember, IsListing, IsOrdered, Join, Listing;
    var keys := Listing(digests.Keys);
    AtMostSeven(digests);
    ListedKeys(digests);
    ListingIsOrdered(digests);
    forall i | 0 <= i < |keys|
      ensures FitsToken(keys[i], DEFAULT_LIMITS) && FitsMember(DigestMember(digests[keys[i]]), DEFAULT_LIMITS)
      ensures |Part(keys[i], digests[keys[i]])| <= 110
    {
      DigestFits(keys[i], digests[keys[i]]);
    }
    JoinedLength(Parts(keys, digests));
  }

  lemma ListingIsOrdered(digests: Digests)
    ensures IsOrdered(AsDictionary(digests))
  {
    hide Less, DigestMember;
    var keys := Listing(digests.Keys);
    forall i, j | 0 <= i < j < |keys|
      ensures keys[i] != keys[j]
    {
      LessIsTotal(keys[i], keys[j]);
    }
  }

  /** Parsing gives back a printed map exactly when all of it is supported digests of
      the right length; a printed header holding anything else is not accepted as it. */
  lemma {:induction false} DigestsRoundTrip(digests: Digests)
    requires Printable(digests)
    ensures HeaderDigests(HeaderText(digests)) == Some(digests) <==> AllDigests(digests)
  {
    hide ParseDictionary, IsDigest, HeaderText, IsListing, FitsDictionary, DictionaryText, Listing;
    if AllDigests(digests) {
      var d := AsDictionary(digests);
      HeaderFits(digests);
      HeaderTextIsDictionary(digests);
      SfvRoundTrip.DictionaryRoundTrip(d, DEFAULT_LIMITS);
      ListedKeys(digests);
      HeaderNotEmpty(digests);
      assert DigestsOf(d).value == digests;
    }
  }

  lemma HeaderNotEmpty(digests: Digests)
    requires digests != map[]
    ensures HeaderText(digests) != ""
  {
    var keys := Listing(digests.Keys);
    ListingSize(keys, digests.Keys);
  }

  // Lengths

  /** The part of a name behind its last '-' or '/'. */
  function Ending(name: string): string {
    if name == "" then ""
    else
      var last := name[|name| - 1];
      if last == '-' || last == '/' then "" else Ending(name[..|name| - 1]) + [last]
  }

  lemma {:induction false} EndingIs(front: string, ending: string)
    requires front != "" && front[|front| - 1] in {'-', '/'}
    requires forall i :: 0 <= i < |ending| ==> ending[i] !in {'-', '/'}
    ensures Ending(front + ending) == ending
  {
    if ending == "" {
      NothingAdded(front);
    } else {
      var n := |ending| - 1;
      assert (front + ending)[..|front + ending| - 1] == front + ending[..n];
      EndingIs(front, ending[..n]);
    }
  }

  lemma BitsInDecimal()
    ensures FormatInt(256) == "256" && FormatInt(512) == "512"
  {
    assert Decimal(25) == "25" && Decimal(51) == "51";
  }

  /** A digest has as many bits as the name of its algorithm says; an algorithm has a length
      exactly if it is supported. */
  lemma LengthIsInName(algorithm: string)
    ensures algorithm in SUPPORTED <==> ExpectedLength(algorithm) > 0
    ensures algorithm in SUPPORTED ==> Ending(algorithm) == FormatInt(8 * ExpectedLength(algorithm))
  {
    hide Ending, FormatInt;
    BitsInDecimal();
    NameEnds("sha-", algorithm);
    NameEnds("sha-512/", algorithm);
    NameEnds("sha3-", algorithm);
    NameEnds("blake2b-", algorithm);
  }

  lemma NameEnds(front: string, algorithm: string)
    requires front != "" && front[|front| - 1] in {'-', '/'}
    ensures algorithm == front + "256" ==> Ending(algorithm) == "256"
    ensures algorithm == front + "512" ==> Ending(algorithm) == "512"
  {
    hide Ending;
    EndingIs(front, "256");
    EndingIs(front, "512");
  }

  /** A header is accepted as a whole or not at all: it is a dictionary within the default
      limits, not empty, and every member is a byte sequence, with any parameters, as long
      as its algorithm's digests. */
  lemma {:induction false} HeaderDigestsExactly(header: string)
    ensures var d := ParseDictionary(header, DEFAULT_LIMITS);
            var digests := HeaderDigests(header);
            && (digests.Some? <==>
                  && d.Some? && d.value.values != map[]
                  && forall k :: k in d.value.values ==>
                                   var m := d.value.values[k];
                                   m.Single? && m.item.value.ByteSequence? && IsDigest(k, m.item.value.bytes))
            && (digests.Some? ==>
                  && digests.value.Keys == d.value.values.Keys
                  && forall k :: k in digests.value ==> digests.value[k] == d.value.values[k].item.value.bytes)
  {
    hide ParseDictionary, IsDigest;
    if header == "" {
      NothingInNothing();
    } else if ParseDictionary(header, DEFAULT_LIMITS).Some? {
      hide FitsMember, FitsToken;
      SfvLimits.DictionaryLimits(header, DEFAULT_LIMITS, DEFAULT_LIMITS);
      KeysAndValues(ParseDictionary(header, DEFAULT_LIMITS).value);
    }
  }

  lemma NothingInNothing()
    ensures ParseDictionary("", DEFAULT_LIMITS) == Some(EMPTY_DICTIONARY)
  {
  }

  lemma KeysAndValues(d: Dictionary)
    requires IsOrdered(d)
    ensures d.keys == [] <==> d.values == map[]
  {
    if d.keys == [] {
      assert forall k :: k !in d.values;
      assert d.values == map[];
    } else {
      assert d.keys[0] in d.values;
    }
  }
}
