/** The fixed-width form of an ECDSA signature (sections 3.3.4 and 3.3.5 of RFC 9421):
    r and s, each n bytes, most significant byte first. */
module Ecdsa {
  import opened Wrappers

  function Pow256(n: nat): (p: nat)
    ensures p > 0
  {
    if n == 0 then 1 else 256 * Pow256(n - 1)
  }

  function Pow2(n: nat): (p: nat)
    ensures p > 0
  {
    if n == 0 then 1 else 2 * Pow2(n - 1)
  }

  function Abs(x: int): nat {
    if x < 0 then -x else x
  }

  /** big.Int.SetBytes */
  function FromBytes(bs: seq<Octet>): nat {
    if bs == [] then 0 else FromBytes(bs[..|bs| - 1]) * 256 + bs[|bs| - 1]
  }

  /** The n low bytes of x. */
  function ToBytes(x: nat, n: nat): (bs: seq<Octet>)
    ensures |bs| == n
  {
    if n == 0 then [] else ToBytes(x / 256, n - 1) + [x % 256]
  }

  lemma {:induction false} FromBytesBound(bs: seq<Octet>)
    ensures FromBytes(bs) < Pow256(|bs|)
  {
    if bs != [] {
      FromBytesBound(bs[..|bs| - 1]);
    }
  }

  lemma LowByte(x: nat)
    ensures x / 256 * 256 + x % 256 == x
    ensures forall p: nat :: x < 256 * p ==> x / 256 < p
  {
  }

  lemma LowByteOf(high: nat, low: Octet)
    ensures (high * 256 + low) / 256 == high && (high * 256 + low) % 256 == low
  {
  }

  lemma {:induction false} FromToBytes(x: nat, n: nat)
    requires x < Pow256(n)
    ensures FromBytes(ToBytes(x, n)) == x
  {
    if n > 0 {
      LowByte(x);
      FromToBytes(x / 256, n - 1);
      FromBytesAppend(ToBytes(x / 256, n - 1), x % 256);
    }
  }

  lemma FromBytesAppend(front: seq<Octet>, last: Octet)
    ensures FromBytes(front + [last]) == FromBytes(front) * 256 + last
  {
    assert (front + [last])[..|front|] == front;
  }

  lemma {:induction false} ToFromBytes(bs: seq<Octet>)
    ensures ToBytes(FromBytes(bs), |bs|) == bs
  {
    if bs != [] {
      var front, last := bs[..|bs| - 1], bs[|bs| - 1];
      ToFromBytes(front);
      LowByteOf(FromBytes(front), last);
      assert bs == front + [last];
    }
  }

  /** big.Int.BitLen, for the absolute value. */
  function BitLen(x: nat): nat {
    if x == 0 then 0 else 1 + BitLen(x / 2)
  }

  lemma {:induction false} BitLenBounds(x: nat, bits: nat)
    ensures BitLen(x) <= bits <==> x < Pow2(bits)
  {
    if x != 0 && bits != 0 {
      BitLenBounds(x / 2, bits - 1);
    }
  }

  lemma {:induction false} Pow256IsPow2(n: nat)
    ensures Pow256(n) == Pow2(8 * n)
  {
    if n > 0 {
      Pow256IsPow2(n - 1);
      EightBits(8 * n - 8);
    }
  }

  lemma EightBits(n: nat)
    ensures Pow2(n + 8) == 256 * Pow2(n)
  {
    assert Pow2(n + 4) == 2 * Pow2(n + 3) == 4 * Pow2(n + 2) == 8 * Pow2(n + 1);
    assert Pow2(n + 8) == 2 * Pow2(n + 7) == 4 * Pow2(n + 6) == 8 * Pow2(n + 5);
  }

  /** The length check is the bound by width. */
  lemma FitsByBits(x: nat, n: nat)
    ensures BitLen(x) <= 8 * n <==> x < Pow256(n)
  {
    Pow256IsPow2(n);
    BitLenBounds(x, 8 * n);
  }

  /** Big-endian into a[from..from + n]; the other bytes stay. */
  method FillBytes(x: int, a: array<Octet>, from: nat, n: nat)
    requires from + n <= a.Length && Abs(x) < Pow256(n)
    modifies a
    ensures a[from..from + n] == ToBytes(Abs(x), n)
    ensures forall i :: 0 <= i < a.Length && !(from <= i < from + n) ==> a[i] == old(a[i])
  {
    var rest := Abs(x);
    ghost var written: seq<Octet> := [];
    for k := n downto 0
      invariant a[from + k..from + n] == written
      invariant ToBytes(rest, k) + written == ToBytes(Abs(x), n)
      invariant forall i :: 0 <= i < a.Length && !(from <= i < from + n) ==> a[i] == old(a[i])
    {
      a[from + k] := rest % 256;
      assert a[from + k..from + n] == [rest % 256] + written;
      ConcatAssociates(ToBytes(rest / 256, k), [rest % 256], written);
      written := [rest % 256] + written;
      rest := rest / 256;
    }
  }

  function Encode(r: int, s: int, n: nat): Option<seq<Octet>> {
    if Abs(r) < Pow256(n) && Abs(s) < Pow256(n) then Some(ToBytes(Abs(r), n) + ToBytes(Abs(s), n)) else None
  }

  method EncodeEcdsaSignature(r: int, s: int, n: nat) returns (ok: bool, sig: array<Octet>)
    ensures ok == Encode(r, s, n).Some?
    ensures ok ==> Encode(r, s, n) == Some(sig[..])
  {
    hide Pow256, BitLen, ToBytes, Abs;
    sig := new Octet[0];
    FitsByBits(Abs(r), n);
    FitsByBits(Abs(s), n);
    if BitLen(Abs(r)) > 8 * n || BitLen(Abs(s)) > 8 * n {
      return false, sig;
    }
    sig := new Octet[2 * n](_ => 0);
    FillBytes(r, sig, 0, n);
    ghost var first := sig[..n];
    FillBytes(s, sig, n, n);
    assert sig[..n] == first;
    assert sig[..] == sig[..n] + sig[n..n + n];
    return true, sig;
  }

  function DecodeEcdsaSignature(signature: seq<Octet>, n: nat): Option<(nat, nat)> {
    if |signature| != 2 * n then None else Some((FromBytes(signature[..n]), FromBytes(signature[n..])))
  }

  /** A pair that can be encoded is given back exactly when neither number is negative:
      encoding forgets the sign. */
  lemma DecodeEncoded(r: int, s: int, n: nat)
    requires Encode(r, s, n).Some?
    ensures |Encode(r, s, n).value| == 2 * n
    ensures var pair := DecodeEcdsaSignature(Encode(r, s, n).value, n);
            pair == Some((Abs(r), Abs(s))) && (pair.value.0 == r && pair.value.1 == s <==> r >= 0 && s >= 0)
  {
    FromToBytes(Abs(r), n);
    FromToBytes(Abs(s), n);
    var bs := Encode(r, s, n).value;
    assert bs[..n] == ToBytes(Abs(r), n) && bs[n..] == ToBytes(Abs(s), n);
  }

  /** Every signature of the right length decodes, to a pair that encodes to it. */
  lemma EncodeDecoded(signature: seq<Octet>, n: nat)
    ensures DecodeEcdsaSignature(signature, n).Some? <==> |signature| == 2 * n
    ensures |signature| == 2 * n ==>
              var pair := DecodeEcdsaSignature(signature, n).value;
              Encode(pair.0, pair.1, n) == Some(signature)
  {
    if |signature| == 2 * n {
      var a, b := signature[..n], signature[n..];
      FromBytesBound(a);
      FromBytesBound(b);
      ToFromBytes(a);
      ToFromBytes(b);
      assert signature == a + b;
    }
  }

  /** The first byte is the most significant one. */
  lemma {:induction false} BytePlaces(a: seq<Octet>, b: seq<Octet>)
    ensures FromBytes(a + b) == FromBytes(a) * Pow256(|b|) + FromBytes(b)
  {
    if b == [] {
      NothingAdded(a);
    } else {
      var n := |b| - 1;
      BytePlaces(a, b[..n]);
      assert (a + b)[..|a + b| - 1] == a + b[..n];
      ShiftPlaces(FromBytes(a), Pow256(n), FromBytes(b[..n]));
    }
  }

  lemma ShiftPlaces(a: nat, p: nat, b: nat)
    ensures (a * p + b) * 256 == a * (256 * p) + b * 256
  {
  }

  /** The first n bytes are the magnitude of r and the last n that of s. */
  lemma EncodingHalves(r: int, s: int, n: nat)
    requires Encode(r, s, n).Some?
    ensures var bs := Encode(r, s, n).value;
            |bs| == 2 * n && FromBytes(bs[..n]) == Abs(r) && FromBytes(bs[n..]) == Abs(s)
  {
    FromToBytes(Abs(r), n);
    FromToBytes(Abs(s), n);
    var bs := Encode(r, s, n).value;
    assert bs[..n] == ToBytes(Abs(r), n) && bs[n..] == ToBytes(Abs(s), n);
  }
}
