/** The corpus tree of `build_corpus_tree`: leaf hashes sorted before the tree is built. */
module Corpus {
  import opened Wrappers
  import opened Hashing
  import opened MerkleTree
  import opened Sorting
  import opened Append

  /** A document: the UTF-8 bytes of its id, and its content. */
  datatype CorpusDocument = CorpusDocument(documentId: Bytes, content: Bytes)

  function LeafData(doc: CorpusDocument): Bytes {
    doc.documentId + [Lit(0)] + doc.content
  }

  function AllLeafData(docs: seq<CorpusDocument>): (data: seq<Bytes>)
    ensures |data| == |docs| && forall i :: 0 <= i < |docs| ==> data[i] == LeafData(docs[i])
  {
    seq(|docs|, i requires 0 <= i < |docs| => LeafData(docs[i]))
  }

  function CorpusRoot(leq: (Bytes, Bytes) -> bool, alg: Algorithm, docs: seq<CorpusDocument>): Bytes {
    RootOf(alg, Sort(leq, LeafHashes(alg, AllLeafData(docs))))
  }

  /** Builds the tree; leq is the order in which digests are sorted. */
  method BuildCorpusTree(leq: (Bytes, Bytes) -> bool, documents: seq<CorpusDocument>, alg: Algorithm)
    returns (r: Result<HashValue, TreeError>)
    ensures r == if |documents| > MAX_MERKLE_LEAVES then Err(ValueError)
                 else Ok(HashValue(alg, CorpusRoot(leq, alg, documents)))
  {
    if |documents| > MAX_MERKLE_LEAVES {
      return Err(ValueError);
    }
    if documents == [] {
      return Ok(HashValue(alg, EmptyTree(alg)));
    }
    var leafHashes: seq<Bytes> := [];
    for i := 0 to |documents|
      invariant leafHashes == LeafHashes(alg, AllLeafData(documents))[..i]
    {
      leafHashes := leafHashes + [LeafHash(alg, LeafData(documents[i]))];
    }
    assert leafHashes == LeafHashes(alg, AllLeafData(documents));
    leafHashes := Sort(leq, leafHashes);
    var result := new MerkleTree(alg);
    for i := 0 to |leafHashes|
      invariant result.leafHashes == leafHashes[..i]
    {
      result.AddPrehashedLeaf(leafHashes[i]);
    }
    assert leafHashes[..|leafHashes|] == leafHashes;
    var root := result.Root();
    return Ok(HashValue(alg, root));
  }

  /** The preimage inside a leaf digest. */
  ghost function PreimageOf(d: Bytes): Bytes {
    if |d| > 0 && d[0].Out? && |d[0].input| > 0 then d[0].input[1..] else []
  }

  lemma LeafPreimage(alg: Algorithm, x: Bytes)
    ensures PreimageOf(LeafHash(alg, x)) == x
  {
  }

  /** Any list drawn from leaf digests is again the leaf digests of some list. */
  lemma LeavesOf(alg: Algorithm, ps: seq<Bytes>, hs: seq<Bytes>) returns (qs: seq<Bytes>)
    requires multiset(hs) == multiset(LeafHashes(alg, ps))
    ensures hs == LeafHashes(alg, qs)
  {
    qs := seq(|hs|, i requires 0 <= i < |hs| => PreimageOf(hs[i]));
    forall i | 0 <= i < |hs|
      ensures hs[i] == LeafHashes(alg, qs)[i]
    {
      assert hs[i] in multiset(hs);
      assert hs[i] in LeafHashes(alg, ps);
      var j :| 0 <= j < |ps| && hs[i] == LeafHashes(alg, ps)[j];
      LeafPreimage(alg, ps[j]);
    }
  }

  lemma CountFirst<T>(s: seq<T>, x: T)
    requires s != []
    ensures multiset(s)[x] == (if s[0] == x then 1 else 0) + multiset(s[1..])[x]
  {
    assert s == [s[0]] + s[1..];
  }

  lemma {:induction false} LeafCount(alg: Algorithm, ps: seq<Bytes>, x: Bytes)
    ensures multiset(LeafHashes(alg, ps))[LeafHash(alg, x)] == multiset(ps)[x]
  {
    if ps != [] {
      LeafCount(alg, ps[1..], x);
      LeafInjective(alg, ps[0], alg, x);
      CountFirst(ps, x);
      assert LeafHashes(alg, ps)[1..] == LeafHashes(alg, ps[1..]);
      CountFirst(LeafHashes(alg, ps), LeafHash(alg, x));
    }
  }

  lemma {:induction false} LeafMultiset(alg: Algorithm, ps: seq<Bytes>, qs: seq<Bytes>)
    ensures multiset(LeafHashes(alg, ps)) == multiset(LeafHashes(alg, qs)) <==> multiset(ps) == multiset(qs)
  {
    if multiset(LeafHashes(alg, ps)) == multiset(LeafHashes(alg, qs)) {
      forall x
        ensures multiset(ps)[x] == multiset(qs)[x]
      {
        LeafCount(alg, ps, x);
        LeafCount(alg, qs, x);
      }
    }
    if multiset(ps) == multiset(qs) {
      forall d
        ensures multiset(LeafHashes(alg, ps))[d] == multiset(LeafHashes(alg, qs))[d]
      {
        LeafCount(alg, ps, PreimageOf(d));
        LeafCount(alg, qs, PreimageOf(d));
        if d in LeafHashes(alg, ps) {
          var j :| 0 <= j < |ps| && d == LeafHash(alg, ps[j]);
          LeafPreimage(alg, ps[j]);
        }
        if d in LeafHashes(alg, qs) {
          var j :| 0 <= j < |qs| && d == LeafHash(alg, qs[j]);
          LeafPreimage(alg, qs[j]);
        }
      }
    }
  }

  /** The corpus root forgets the order of the documents and nothing else about their
      leaves: two corpora share it exactly when they have the same leaves as often. */
  lemma CorpusRootBindsLeaves(leq: (Bytes, Bytes) -> bool, alg: Algorithm, docs: seq<CorpusDocument>,
                              others: seq<CorpusDocument>)
    requires TotalOrder(leq)
    ensures CorpusRoot(leq, alg, docs) == CorpusRoot(leq, alg, others) <==>
            multiset(AllLeafData(docs)) == multiset(AllLeafData(others))
  {
    var ps, qs := AllLeafData(docs), AllLeafData(others);
    var hs, gs := LeafHashes(alg, ps), LeafHashes(alg, qs);
    SortKeeps(leq, hs);
    SortKeeps(leq, gs);
    var ps' := LeavesOf(alg, ps, Sort(leq, hs));
    var qs' := LeavesOf(alg, qs, Sort(leq, gs));
    RootBindsPreimages(alg, ps', alg, qs');
    SortCanonical(leq, hs, gs);
    LeafMultiset(alg, ps, qs);
  }

  /** The root is that of the leaf hashes put in order: of any rising list of the same hashes. */
  lemma RootInHashOrder(leq: (Bytes, Bytes) -> bool, alg: Algorithm, docs: seq<CorpusDocument>, hs: seq<Bytes>)
    requires TotalOrder(leq) && multiset(hs) == multiset(LeafHashes(alg, AllLeafData(docs)))
    requires forall i, j :: 0 <= i < j < |hs| ==> leq(hs[i], hs[j])
    ensures CorpusRoot(leq, alg, docs) == RootOf(alg, hs)
  {
    var gs := LeafHashes(alg, AllLeafData(docs));
    SortSorts(leq, gs);
    SortKeeps(leq, gs);
    SortedUnique(leq, Sort(leq, gs), hs);
  }

  /** Reordering the documents never changes the root. */
  lemma CorpusRootIgnoresOrder(leq: (Bytes, Bytes) -> bool, alg: Algorithm, docs: seq<CorpusDocument>,
                               others: seq<CorpusDocument>)
    requires TotalOrder(leq) && multiset(docs) == multiset(others)
    ensures CorpusRoot(leq, alg, docs) == CorpusRoot(leq, alg, others)
  {
    CorpusRootBindsLeaves(leq, alg, docs, others);
    DataMultiset(docs, others);
  }

  lemma DataConcat(a: seq<CorpusDocument>, b: seq<CorpusDocument>)
    ensures AllLeafData(a + b) == AllLeafData(a) + AllLeafData(b)
  {
  }

  lemma {:induction false} DataMultiset(docs: seq<CorpusDocument>, others: seq<CorpusDocument>)
    requires multiset(docs) == multiset(others)
    ensures multiset(AllLeafData(docs)) == multiset(AllLeafData(others))
    decreases |docs|
  {
    if docs != [] {
      var d, rest := docs[0], docs[1..];
      var a, b := TakeOut(docs, others);
      DataMultiset(rest, a + b);
      assert docs == [d] + rest;
      DataConcat([d], rest);
      DataConcat(a, b);
      DataConcat([d], b);
      DataConcat(a, [d] + b);
      assert AllLeafData([d]) == [LeafData(d)];
      PutBack(LeafData(d), AllLeafData(rest), AllLeafData(a), AllLeafData(b));
    } else {
      assert |multiset(others)| == 0;
    }
  }

  lemma TakeOut<T>(s: seq<T>, t: seq<T>) returns (a: seq<T>, b: seq<T>)
    requires s != [] && multiset(s) == multiset(t)
    ensures t == a + ([s[0]] + b) && multiset(s[1..]) == multiset(a + b)
  {
    assert s[0] in multiset(t);
    var j :| 0 <= j < |t| && t[j] == s[0];
    a, b := t[..j], t[j + 1..];
    Without(s, 0);
    Without(t, j);
    assert [] + s[1..] == s[1..];
  }

  lemma Without<T>(s: seq<T>, j: nat)
    requires j < |s|
    ensures s == s[..j] + ([s[j]] + s[j + 1..])
    ensures multiset(s[..j] + s[j + 1..]) == multiset(s) - multiset{s[j]}
  {
  }

  lemma PutBack<T>(x: T, rest: seq<T>, a: seq<T>, b: seq<T>)
    requires multiset(rest) == multiset(a + b)
    ensures multiset([x] + rest) == multiset(a + ([x] + b))
  {
  }
}
