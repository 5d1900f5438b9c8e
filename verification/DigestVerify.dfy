/** Verifying a body against a Content-Digest header. The hash functions are a
    parameter; a hasher is the bytes it has absorbed. */
module DigestVerify {
  import opened Wrappers
  import opened ContentDigest

  /** The digest each algorithm makes of some bytes. */
  type Hash = (string, Bytes) -> Bytes

  function ComputeDigest(body: Bytes, algorithm: string, hash: Hash): Option<Bytes> {
    if algorithm in SUPPORTED then Some(hash(algorithm, body)) else None
  }

  /** The header holds, for every required algorithm, the digest of the body. */
  predicate BodyMatches(body: Bytes, header: string, required: seq<string>, hash: Hash) {
    && required != []
    && HeaderDigests(header).Some?
    && forall i :: 0 <= i < |required| ==>
                     required[i] in HeaderDigests(header).value
                     && ComputeDigest(body, required[i], hash) == Some(HeaderDigests(header).value[required[i]])
  }

  method VerifyContentDigestBytes(body: Bytes, header: string, required: seq<string>, hash: Hash) returns (ok: bool)
    ensures ok == BodyMatches(body, header, required, hash)
  {
    hide HeaderDigests;
    if |required| == 0 {
      return false;
    }
    var parsed := ParseContentDigest(header);
    if parsed.None? {
      return false;
    }
    var digests := parsed.value;
    for i := 0 to |required|
      invariant forall j :: 0 <= j < i ==>
                              required[j] in digests
                              && ComputeDigest(body, required[j], hash) == Some(digests[required[j]])
    {
      if required[i] !in digests {
        return false;
      }
      var actual := ComputeDigest(body, required[i], hash);
      if actual.None? {
        return false;
      }
      if actual.value != digests[required[i]] {
        return false;
      }
    }
    return true;
  }

  // Streaming

  class Hasher {
    const algorithm: string
    var absorbed: Bytes

    constructor (algorithm: string)
      ensures this.algorithm == algorithm && absorbed == []
    {
      this.algorithm := algorithm;
      absorbed := [];
    }

    method Write(chunk: Bytes)
      modifies this
      ensures absorbed == old(absorbed) + chunk
    {
      absorbed := absorbed + chunk;
    }

    function Sum(hash: Hash): Bytes
      reads this
    {
      hash(algorithm, absorbed)
    }
  }

  datatype ReadResult = Chunk(bytes: Bytes) | EndOfFile | Failure

  /** The chunks still to come, and whether the end of them is a failure. */
  class Reader {
    var chunks: seq<Bytes>
    const fails: bool

    constructor (chunks: seq<Bytes>, fails: bool)
      ensures this.chunks == chunks && this.fails == fails
    {
      this.chunks := chunks;
      this.fails := fails;
    }

    method Read() returns (r: ReadResult)
      modifies this
      ensures old(chunks) != [] ==> r == Chunk(old(chunks)[0]) && chunks == old(chunks)[1..]
      ensures old(chunks) == [] ==> r == (if fails then Failure else EndOfFile) && chunks == []
    {
      if |chunks| == 0 {
        return if fails then Failure else EndOfFile;
      }
      r := Chunk(chunks[0]);
      chunks := chunks[1..];
    }
  }

  function Flatten(chunks: seq<Bytes>): Bytes {
    if chunks == [] then [] else chunks[0] + Flatten(chunks[1..])
  }

  /** One hasher for each of these algorithms, and no hasher twice. */
  ghost predicate OneEach(hashers: map<string, Hasher>, writers: seq<Hasher>) {
    && (forall k :: k in hashers ==> hashers[k].algorithm == k && hashers[k] in writers)
    && (forall i :: 0 <= i < |writers| ==> writers[i] in hashers.Values)
    && (forall i, j :: 0 <= i < j < |writers| ==> writers[i] != writers[j])
  }

  /** What io.MultiWriter does: the chunk goes to every writer. */
  method WriteAll(writers: seq<Hasher>, chunk: Bytes)
    requires forall i, j :: 0 <= i < j < |writers| ==> writers[i] != writers[j]
    modifies writers
    ensures forall i :: 0 <= i < |writers| ==> writers[i].absorbed == old(writers[i].absorbed) + chunk
  {
    for i := 0 to |writers|
      invariant forall j :: 0 <= j < i ==> writers[j].absorbed == old(writers[j].absorbed) + chunk
      invariant forall j :: i <= j < |writers| ==> writers[j].absorbed == old(writers[j].absorbed)
    {
      writers[i].Write(chunk);
    }
  }

  /** What io.Copy does: read until the end or a failure, and write every chunk. */
  method Copy(writers: seq<Hasher>, reader: Reader) returns (ok: bool)
    requires forall i, j :: 0 <= i < j < |writers| ==> writers[i] != writers[j]
    requires forall i :: 0 <= i < |writers| ==> writers[i].absorbed == []
    modifies reader, writers
    ensures ok == !reader.fails
    ensures ok ==> forall i :: 0 <= i < |writers| ==> writers[i].absorbed == Flatten(old(reader.chunks))
  {
    ghost var body := Flatten(reader.chunks);
    ghost var done: Bytes := [];
    while true
      invariant done + Flatten(reader.chunks) == body
      invariant forall i :: 0 <= i < |writers| ==> writers[i].absorbed == done
      decreases |reader.chunks|
    {
      ghost var before := reader.chunks;
      var r := reader.Read();
      match r {
        case EndOfFile =>
          return true;
        case Failure =>
          return false;
        case Chunk(bytes) =>
          WriteAll(writers, bytes);
          ConcatAssociates(done, bytes, Flatten(before[1..]));
          done := done + bytes;
      }
    }
  }

  /** A new hasher for every required algorithm; one that is required again replaces
      the earlier one. */
  method CreateHashers(required: seq<string>, digests: Digests) returns (r: Option<map<string, Hasher>>)
    ensures r.Some? <==> forall i :: 0 <= i < |required| ==> required[i] in digests && required[i] in SUPPORTED
    ensures r.Some? ==> forall i :: 0 <= i < |required| ==> required[i] in r.value
    ensures r.Some? ==> forall k :: k in r.value ==>
                                      fresh(r.value[k]) && r.value[k].algorithm == k && r.value[k].absorbed == []
  {
    var hashers: map<string, Hasher> := map[];
    for i := 0 to |required|
      invariant forall j :: 0 <= j < i ==> required[j] in digests && required[j] in SUPPORTED && required[j] in hashers
      invariant forall k :: k in hashers ==> fresh(hashers[k]) && hashers[k].algorithm == k && hashers[k].absorbed == []
    {
      if required[i] !in digests {
        return None;
      }
      if required[i] !in SUPPORTED {
        return None;
      }
      var h := new Hasher(required[i]);
      hashers := hashers[required[i] := h];
    }
    return Some(hashers);
  }

  method CollectWriters(hashers: map<string, Hasher>) returns (writers: seq<Hasher>)
    requires forall k :: k in hashers ==> hashers[k].algorithm == k
    ensures OneEach(hashers, writers)
  {
    writers := [];
    var left := hashers.Keys;
    while left != {}
      invariant left <= hashers.Keys
      invariant forall k :: k in hashers && k !in left ==> hashers[k] in writers
      invariant forall i :: 0 <= i < |writers| ==> writers[i] in hashers.Values && writers[i].algorithm !in left
      invariant forall i, j :: 0 <= i < j < |writers| ==> writers[i] != writers[j]
      decreases |left|
    {
      var k :| k in left;
      ghost var before := writers;
      writers := writers + [hashers[k]];
      assert forall h :: h in before || h == hashers[k] ==> h in writers;
      left := left - {k};
    }
  }

  /** Whatever the chunks, and however often an algorithm is required, the streaming form
      accepts exactly what the form in memory accepts, unless the reader fails. */
  method VerifyContentDigest(reader: Reader, header: string, required: seq<string>, hash: Hash) returns (ok: bool)
    modifies reader
    ensures ok == (!reader.fails && BodyMatches(Flatten(old(reader.chunks)), header, required, hash))
  {
    hide HeaderDigests, OneEach;
    if |required| == 0 {
      return false;
    }
    var parsed := ParseContentDigest(header);
    if parsed.None? {
      return false;
    }
    var digests := parsed.value;
    var created := CreateHashers(required, digests);
    if created.None? {
      return false;
    }
    var hashers := created.value;
    var writers := CollectWriters(hashers);
    ok := CopyAndCompare(reader, hashers, writers, digests, required, hash);
  }

  method CopyAndCompare(
    reader: Reader, hashers: map<string, Hasher>, writers: seq<Hasher>, digests: Digests,
    required: seq<string>, hash: Hash)
    returns (ok: bool)
    requires OneEach(hashers, writers)
    requires forall k :: k in hashers ==> hashers[k].absorbed == []
    requires forall i :: 0 <= i < |required| ==> required[i] in digests && required[i] in hashers
    modifies reader, writers
    ensures ok == (!reader.fails
                   && forall i :: 0 <= i < |required| ==>
                                    hash(required[i], Flatten(old(reader.chunks))) == digests[required[i]])
  {
    ok := Copy(writers, reader);
    if !ok {
      return;
    }
    for i := 0 to |required|
      invariant forall j :: 0 <= j < i ==> hash(required[j], Flatten(old(reader.chunks))) == digests[required[j]]
    {
      if hashers[required[i]].Sum(hash) != digests[required[i]] {
        return false;
      }
    }
    return true;
  }

  // A header made from one body, checked against another

  /** The digests of a body under some algorithms. */
  function DigestsOfBody(algorithms: set<string>, body: Bytes, hash: Hash): Digests {
    map a | a in algorithms :: hash(a, body)
  }

  /** The header printed for a body verifies another one exactly when every required
      algorithm was among those printed and cannot tell the bodies apart. */
  lemma PrintedHeaderVerifies(
    algorithms: set<string>, body: Bytes, other: Bytes, required: seq<string>, hash: Hash)
    requires algorithms != {} && required != []
    requires forall a :: a in algorithms ==> IsDigest(a, hash(a, body))
    ensures BodyMatches(other, HeaderText(DigestsOfBody(algorithms, body, hash)), required, hash) <==>
            forall i :: 0 <= i < |required| ==>
                          required[i] in algorithms && hash(required[i], other) == hash(required[i], body)
  {
    hide HeaderDigests, HeaderText, ExpectedLength;
    var digests := DigestsOfBody(algorithms, body, hash);
    var a :| a in algorithms;
    assert a in digests;
    SupportedHaveLength();
    DigestsRoundTrip(digests);
  }

  lemma SupportedHaveLength()
    ensures forall a :: a in SUPPORTED ==> ExpectedLength(a) > 0
    ensures "" !in SUPPORTED
  {
    assert |"sha-256"| == 7;
  }

  /** Where nothing is required nothing is accepted, and no unsupported algorithm is. */
  lemma RequiresSupported(body: Bytes, header: string, required: seq<string>, hash: Hash)
    requires BodyMatches(body, header, required, hash)
    ensures required != [] && forall i :: 0 <= i < |required| ==> required[i] in SUPPORTED
  {
  }
}
