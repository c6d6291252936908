/** Byte strings and the two hash functions of `_merkle.py`, in the symbolic model:
    a byte is either a literal octet or one output byte of a hash call.  A digest is
    the 32 output bytes of one call, so concatenation, prefix bytes and lengths are
    those of the program while a digest determines the input it was computed from. */
module Hashing {
  import opened Primitives

  datatype Algorithm = Sha256 | Shake256

  datatype Byte = Lit(value: Octet) | Out(alg: Algorithm, input: seq<Byte>, at: nat)

  type Bytes = seq<Byte>

  /** A digest in text form, `algorithm:hex`, with the digest bytes the text spells. */
  datatype HashValue = HashValue(alg: Algorithm, digest: Bytes)

  const DIGEST_SIZE: nat := 32

  function Hash(alg: Algorithm, input: Bytes): (d: Bytes)
    ensures |d| == DIGEST_SIZE
  {
    seq(DIGEST_SIZE, k requires 0 <= k < DIGEST_SIZE => Out(alg, input, k))
  }

  const LEAF_PREFIX: Bytes := [Lit(0)]
  const NODE_PREFIX: Bytes := [Lit(1)]
  const CHAIN_PREFIX: Bytes := [Lit(2)]

  function EmptyTree(alg: Algorithm): (d: Bytes)
    ensures |d| == DIGEST_SIZE
  {
    Hash(alg, [])
  }

  function LeafHash(alg: Algorithm, preimage: Bytes): (d: Bytes)
    ensures |d| == DIGEST_SIZE
  {
    Hash(alg, LEAF_PREFIX + preimage)
  }

  function NodeHash(alg: Algorithm, left: Bytes, right: Bytes): (d: Bytes)
    ensures |d| == DIGEST_SIZE
  {
    Hash(alg, NODE_PREFIX + left + right)
  }

  function ChainHash(alg: Algorithm, chain: Bytes, leaf: Bytes): (d: Bytes)
    ensures |d| == DIGEST_SIZE
  {
    Hash(alg, CHAIN_PREFIX + chain + leaf)
  }

  function LeafHashes(alg: Algorithm, preimages: seq<Bytes>): (ds: seq<Bytes>)
    ensures |ds| == |preimages|
    ensures forall i :: 0 <= i < |preimages| ==> ds[i] == LeafHash(alg, preimages[i])
  {
    seq(|preimages|, i requires 0 <= i < |preimages| => LeafHash(alg, preimages[i]))
  }

  ghost predicate AllDigests(ds: seq<Bytes>) {
    forall i :: 0 <= i < |ds| ==> |ds[i]| == DIGEST_SIZE
  }

  lemma HashInjective(a: Algorithm, x: Bytes, b: Algorithm, y: Bytes)
    ensures Hash(a, x) == Hash(b, y) <==> a == b && x == y
  {
    assert Hash(a, x)[0] == Out(a, x, 0);
    assert Hash(b, y)[0] == Out(b, y, 0);
  }

  /** Two byte strings cut at the same place agree when their parts agree. */
  lemma SameCut(a: Bytes, b: Bytes, c: Bytes, d: Bytes)
    requires a + b == c + d
    requires |a| == |c| || |b| == |d|
    ensures a == c && b == d
  {
    assert |a| + |b| == |a + b| == |c + d| == |c| + |d|;
    assert a == (a + b)[..|a|] && c == (c + d)[..|a|];
    assert b == (a + b)[|a|..] && d == (c + d)[|a|..];
  }

  /** A parent determines the concatenation of its children, and both children
      once one of them is known to have its own length. */
  lemma NodeInjective(a: Algorithm, l: Bytes, r: Bytes, b: Algorithm, l': Bytes, r': Bytes)
    ensures NodeHash(a, l, r) == NodeHash(b, l', r') <==> a == b && l + r == l' + r'
    ensures NodeHash(a, l, r) == NodeHash(b, l', r') && (|l| == |l'| || |r| == |r'|) ==> l == l' && r == r'
  {
    HashInjective(a, NODE_PREFIX + l + r, b, NODE_PREFIX + l' + r');
    assert NODE_PREFIX + l + r == NODE_PREFIX + (l + r);
    assert NODE_PREFIX + l' + r' == NODE_PREFIX + (l' + r');
    if NodeHash(a, l, r) == NodeHash(b, l', r') {
      SameCut(NODE_PREFIX, l + r, NODE_PREFIX, l' + r');
      if |l| == |l'| || |r| == |r'| {
        SameCut(l, r, l', r');
      }
    }
  }

  lemma LeafInjective(a: Algorithm, x: Bytes, b: Algorithm, y: Bytes)
    ensures LeafHash(a, x) == LeafHash(b, y) <==> a == b && x == y
  {
    HashInjective(a, LEAF_PREFIX + x, b, LEAF_PREFIX + y);
    if LeafHash(a, x) == LeafHash(b, y) {
      SameCut(LEAF_PREFIX, x, LEAF_PREFIX, y);
    }
  }

  lemma ChainInjective(a: Algorithm, c: Bytes, l: Bytes, b: Algorithm, c': Bytes, l': Bytes)
    requires |c| == |c'| || |l| == |l'|
    ensures ChainHash(a, c, l) == ChainHash(b, c', l') <==> a == b && c == c' && l == l'
  {
    HashInjective(a, CHAIN_PREFIX + c + l, b, CHAIN_PREFIX + c' + l');
    assert CHAIN_PREFIX + c + l == CHAIN_PREFIX + (c + l);
    assert CHAIN_PREFIX + c' + l' == CHAIN_PREFIX + (c' + l');
    if ChainHash(a, c, l) == ChainHash(b, c', l') {
      SameCut(CHAIN_PREFIX, c + l, CHAIN_PREFIX, c' + l');
      SameCut(c, l, c', l');
    }
  }

  /** The prefix bytes keep the four kinds of digest apart, whatever follows them. */
  lemma DomainsSeparate(a: Algorithm, x: Bytes, b: Algorithm, l: Bytes, r: Bytes, c: Algorithm, ch: Bytes, e: Bytes)
    ensures LeafHash(a, x) != NodeHash(b, l, r)
    ensures LeafHash(a, x) != ChainHash(c, ch, e)
    ensures NodeHash(b, l, r) != ChainHash(c, ch, e)
    ensures EmptyTree(a) != LeafHash(b, x) && EmptyTree(a) != NodeHash(b, l, r) && EmptyTree(a) != ChainHash(c, ch, e)
  {
    HashInjective(a, LEAF_PREFIX + x, b, NODE_PREFIX + l + r);
    HashInjective(a, LEAF_PREFIX + x, c, CHAIN_PREFIX + ch + e);
    HashInjective(b, NODE_PREFIX + l + r, c, CHAIN_PREFIX + ch + e);
    HashInjective(a, [], b, LEAF_PREFIX + x);
    HashInjective(a, [], b, NODE_PREFIX + l + r);
    HashInjective(a, [], c, CHAIN_PREFIX + ch + e);
    assert (LEAF_PREFIX + x)[0] == Lit(0);
    assert (NODE_PREFIX + l + r)[0] == Lit(1);
    assert (CHAIN_PREFIX + ch + e)[0] == Lit(2);
  }
}
