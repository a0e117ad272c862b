/** Bytes as numbers, and reading them at positions that may lie past the end. */
module Octets {

  type Octet = n: nat | n < 256

  /** The byte at i, or 0 past the end. */
  function Byte(e: seq<Octet>, i: nat): Octet { if i < |e| then e[i] else 0 }

  /** The bit of the given weight. */
  predicate Bit(b: Octet, weight: nat)
    requires weight > 0
  {
    b / weight % 2 == 1
  }

  function Top(bit: bool): Octet { if bit then 128 else 0 }

  ghost predicate ByteStands(e: seq<Octet>, i: nat, p: seq<Octet>, k: nat) { k < |p| ==> Byte(e, i + k) == p[k] }

  /** The bytes p stand at position i. */
  ghost predicate Stands(e: seq<Octet>, i: nat, p: seq<Octet>) {
    i + |p| <= |e| && forall k: nat {:trigger ByteStands(e, i, p, k)} :: ByteStands(e, i, p, k)
  }

  lemma SliceStands(e: seq<Octet>, i: nat, p: seq<Octet>)
    requires i + |p| <= |e|
    ensures Stands(e, i, p) <==> e[i..i + |p|] == p
  {
    if e[i..i + |p|] == p {
      forall k: nat
        ensures ByteStands(e, i, p, k)
      {
        if k < |p| {
          assert e[i..i + |p|][k] == p[k];
        }
      }
    }
    if Stands(e, i, p) {
      forall k | 0 <= k < |p|
        ensures e[i..i + |p|][k] == p[k]
      {
        assert ByteStands(e, i, p, k);
      }
    }
  }

  lemma StandsAt(e: seq<Octet>, i: nat, p: seq<Octet>, k: nat)
    requires Stands(e, i, p) && k < |p|
    ensures Byte(e, i + k) == p[k]
  {
    assert ByteStands(e, i, p, k);
  }

  lemma StandsSplit(e: seq<Octet>, i: nat, p: seq<Octet>, q: seq<Octet>)
    requires Stands(e, i, p + q)
    ensures Stands(e, i, p) && Stands(e, i + |p|, q)
  {
    forall k: nat
      ensures ByteStands(e, i, p, k)
    {
      assert ByteStands(e, i, p + q, k);
    }
    var j := i + |p|;
    forall k: nat
      ensures ByteStands(e, j, q, k)
    {
      assert ByteStands(e, i, p + q, |p| + k);
    }
  }

  lemma StandsPrepend(e: seq<Octet>, i: nat, b: Octet, p: seq<Octet>)
    requires i < |e| && e[i] == b && Stands(e, i + 1, p)
    ensures Stands(e, i, [b] + p)
  {
    var j := i + 1;
    forall k: nat
      ensures ByteStands(e, i, [b] + p, k)
    {
      if k > 0 {
        assert ByteStands(e, j, p, k - 1);
      }
    }
  }
}
