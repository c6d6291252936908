/** The catalog tree of `build_catalog_tree`: tools sorted by id, and what the root says
    about them. */
module Catalog {
  import opened Wrappers
  import opened Hashing
  import opened Decimals
  import opened Strings
  import opened Sorting
  import opened Append
  import opened MerkleTree
  import Utf8

  type Digest = d: Bytes | |d| == DIGEST_SIZE witness Hash(Sha256, [])

  /** A hash as text of an algorithm and its digest. */
  datatype ToolHash = ToolHash(alg: Algorithm, digest: Digest)

  datatype ToolEntry = ToolEntry(toolId: Text, schemaHash: ToolHash, descriptionHash: ToolHash)

  function TextLeq(a: Text, b: Text): bool {
    LexLeq(a, b)
  }

  function IdOf(t: ToolEntry): Text {
    t.toolId
  }

  /** The tools in the order of their leaves. */
  function SortedTools(tools: seq<ToolEntry>): seq<ToolEntry> {
    Sort(ByKey(TextLeq, IdOf), tools)
  }

  /** The id encodes and both hashes are of the tree's algorithm. */
  predicate Usable(alg: Algorithm, t: ToolEntry) {
    NoSurrogates(t.toolId) && t.schemaHash.alg == alg && t.descriptionHash.alg == alg
  }

  predicate AllUsable(alg: Algorithm, tools: seq<ToolEntry>) {
    forall i :: 0 <= i < |tools| ==> Usable(alg, tools[i])
  }

  function LeafData(t: ToolEntry): Bytes {
    Utf8.Encode(t.toolId) + ([Lit(0)] + (t.schemaHash.digest + t.descriptionHash.digest))
  }

  function AllLeafData(tools: seq<ToolEntry>): (data: seq<Bytes>)
    ensures |data| == |tools| && forall i :: 0 <= i < |data| ==> data[i] == LeafData(tools[i])
  {
    seq(|tools|, i requires 0 <= i < |tools| => LeafData(tools[i]))
  }

  function CatalogRoot(alg: Algorithm, tools: seq<ToolEntry>): Bytes {
    RootOf(alg, LeafHashes(alg, AllLeafData(SortedTools(tools))))
  }

  lemma UsableAgain(alg: Algorithm, tools: seq<ToolEntry>, others: seq<ToolEntry>)
    requires AllUsable(alg, tools) && multiset(tools) == multiset(others)
    ensures AllUsable(alg, others)
  {
    forall i | 0 <= i < |others|
      ensures Usable(alg, others[i])
    {
      assert others[i] in multiset(others);
      assert others[i] in tools;
    }
  }

  lemma SortedUsable(alg: Algorithm, tools: seq<ToolEntry>)
    ensures |SortedTools(tools)| == |tools| && (AllUsable(alg, SortedTools(tools)) <==> AllUsable(alg, tools))
  {
    SortKeeps(ByKey(TextLeq, IdOf), tools);
    if AllUsable(alg, tools) {
      UsableAgain(alg, tools, SortedTools(tools));
    }
    if AllUsable(alg, SortedTools(tools)) {
      UsableAgain(alg, SortedTools(tools), tools);
    }
  }

  lemma NextLeaf(alg: Algorithm, tools: seq<ToolEntry>, i: nat)
    requires i < |tools|
    ensures LeafHashes(alg, AllLeafData(tools[..i + 1])) ==
            LeafHashes(alg, AllLeafData(tools[..i])) + [LeafHash(alg, LeafData(tools[i]))]
  {
  }

  method BuildCatalogTree(tools: seq<ToolEntry>, alg: Algorithm) returns (r: Result<HashValue, TreeError>)
    ensures r == if |tools| > MAX_MERKLE_LEAVES || !AllUsable(alg, tools) then Err(ValueError)
                 else Ok(HashValue(alg, CatalogRoot(alg, tools)))
  {
    if |tools| > MAX_MERKLE_LEAVES {
      return Err(ValueError);
    }
    if tools == [] {
      return Ok(HashValue(alg, EmptyTree(alg)));
    }
    SortedUsable(alg, tools);
    var sortedTools := SortedTools(tools);
    var tree := new MerkleTree(alg);
    for i := 0 to |sortedTools|
      invariant AllUsable(alg, sortedTools[..i])
      invariant tree.leafHashes == LeafHashes(alg, AllLeafData(sortedTools[..i]))
    {
      var tool := sortedTools[i];
      if tool.schemaHash.alg != alg {
        return Err(ValueError);
      }
      if tool.descriptionHash.alg != alg {
        return Err(ValueError);
      }
      if !NoSurrogates(tool.toolId) {
        return Err(ValueError);
      }
      var h := tree.AddLeaf(LeafData(tool));
      NextLeaf(alg, sortedTools, i);
    }
    assert sortedTools[..|sortedTools|] == sortedTools;
    var root := tree.Root();
    return Ok(HashValue(alg, root));
  }

  // ----- what a leaf says

  /** The 64 bytes at the end of a leaf tell where the id ends, even if it contains a zero. */
  lemma LeafDataInjective(alg: Algorithm, t: ToolEntry, u: ToolEntry)
    requires Usable(alg, t) && Usable(alg, u) && LeafData(t) == LeafData(u)
    ensures t == u
  {
    var x, y := t.schemaHash.digest + t.descriptionHash.digest, u.schemaHash.digest + u.descriptionHash.digest;
    SameCut(Utf8.Encode(t.toolId), [Lit(0)] + x, Utf8.Encode(u.toolId), [Lit(0)] + y);
    SameCut([Lit(0)], x, [Lit(0)], y);
    SameCut(t.schemaHash.digest, t.descriptionHash.digest, u.schemaHash.digest, u.descriptionHash.digest);
    Utf8.EncodeInjective(t.toolId, u.toolId);
  }

  lemma TextLeqTotal()
    ensures TotalOrder(TextLeq)
  {
    forall a: Text, b: Text
      ensures TextLeq(a, b) || TextLeq(b, a)
      ensures TextLeq(a, b) && TextLeq(b, a) ==> a == b
    {
      LexTotal(a, b);
    }
    forall a: Text, b: Text, c: Text | TextLeq(a, b) && TextLeq(b, c)
      ensures TextLeq(a, c)
    {
      LexTransitive(a, b, c);
    }
  }

  /** The root says everything about the tools but the order of those with different ids:
      two catalogs share it exactly when they hold the same tools in the same order under
      every id. */
  lemma CatalogRootBindsTools(alg: Algorithm, tools: seq<ToolEntry>, others: seq<ToolEntry>)
    requires AllUsable(alg, tools) && AllUsable(alg, others)
    ensures CatalogRoot(alg, tools) == CatalogRoot(alg, others) <==> AgreeUnder(IdOf, tools, others)
  {
    var s, t := SortedTools(tools), SortedTools(others);
    SortedUsable(alg, tools);
    SortedUsable(alg, others);
    RootBindsPreimages(alg, AllLeafData(s), alg, AllLeafData(t));
    if AllLeafData(s) == AllLeafData(t) {
      assert |s| == |AllLeafData(s)| == |AllLeafData(t)| == |t|;
      forall i | 0 <= i < |s|
        ensures s[i] == t[i]
      {
        assert AllLeafData(s)[i] == AllLeafData(t)[i];
        LeafDataInjective(alg, s[i], t[i]);
      }
      assert s == t;
    }
    TextLeqTotal();
    StableSortCanonical(TextLeq, IdOf, tools, others);
  }

  /** The root is that of the tools put in the order of their ids, those of one id in the
      order they came: of any list that rises by id and agrees with the tools under every id. */
  lemma RootInIdOrder(alg: Algorithm, tools: seq<ToolEntry>, s: seq<ToolEntry>)
    requires AgreeUnder(IdOf, tools, s)
    requires forall i, j :: 0 <= i < j < |s| ==> Precedes(s[i].toolId, s[j].toolId)
    ensures CatalogRoot(alg, tools) == RootOf(alg, LeafHashes(alg, AllLeafData(s)))
  {
    TextLeqTotal();
    var pre := ByKey(TextLeq, IdOf);
    ByKeyIsPreorder(TextLeq, IdOf);
    forall i, j | 0 <= i < j < |s|
      ensures pre(s[i], s[j])
    {
      LexExactly(s[i].toolId, s[j].toolId);
    }
    StableSortCanonical(TextLeq, IdOf, tools, s);
    SortSorts(pre, s);
    StableSortCanonical(TextLeq, IdOf, s, s);
    forall k
      ensures Under(IdOf, k, Sort(pre, s)) == Under(IdOf, k, s)
    {
      SortUnder(TextLeq, IdOf, s, k);
    }
    SortedByKeyUnique(TextLeq, IdOf, Sort(pre, s), s);
  }

  // ----- when the order is forgotten

  /** No two different tools share an id. */
  predicate OneToolPerId(tools: seq<ToolEntry>) {
    forall i, j :: 0 <= i < |tools| && 0 <= j < |tools| && tools[i].toolId == tools[j].toolId ==> tools[i] == tools[j]
  }

  /** Every reordering gives the same root. */
  ghost predicate OrderForgotten(alg: Algorithm, tools: seq<ToolEntry>) {
    forall others: seq<ToolEntry> :: multiset(others) == multiset(tools) ==>
      CatalogRoot(alg, others) == CatalogRoot(alg, tools)
  }

  lemma {:induction false} UnderIn(id: Text, tools: seq<ToolEntry>)
    ensures forall i :: 0 <= i < |Under(IdOf, id, tools)| ==>
              Under(IdOf, id, tools)[i] in tools && Under(IdOf, id, tools)[i].toolId == id
  {
    if tools != [] {
      UnderIn(id, tools[1..]);
    }
  }

  lemma SameUnder(id: Text, tools: seq<ToolEntry>, others: seq<ToolEntry>)
    requires OneToolPerId(tools) && multiset(tools) == multiset(others)
    ensures Under(IdOf, id, tools) == Under(IdOf, id, others)
  {
    var u, v := Under(IdOf, id, tools), Under(IdOf, id, others);
    UnderIn(id, tools);
    UnderIn(id, others);
    assert forall t :: t in tools <==> t in multiset(tools);
    assert forall t :: t in others <==> t in multiset(others);
    if u != [] || v != [] {
      var x := if u != [] then u[0] else v[0];
      assert forall t :: t in tools && t.toolId == id ==> t == x;
      AllAlike(u, x);
      AllAlike(v, x);
      UnderCount(IdOf, id, tools, x);
      UnderCount(IdOf, id, others, x);
    }
  }

  lemma SwapShows(alg: Algorithm, x: ToolEntry, y: ToolEntry, rest: seq<ToolEntry>)
    requires AllUsable(alg, [x, y] + rest) && x.toolId == y.toolId && x != y
    ensures CatalogRoot(alg, [x, y] + rest) != CatalogRoot(alg, [y, x] + rest)
  {
    var s, t := [x, y] + rest, [y, x] + rest;
    assert AllUsable(alg, t) by {
      assert Usable(alg, s[0]) && Usable(alg, s[1]);
      assert forall i :: 2 <= i < |t| ==> t[i] == s[i];
    }
    CatalogRootBindsTools(alg, s, t);
    assert s[0] == x && t[0] == y;
    assert Under(IdOf, x.toolId, s)[0] == x && Under(IdOf, x.toolId, t)[0] == y;
  }

  lemma TwoOut(tools: seq<ToolEntry>, i: nat, j: nat) returns (rest: seq<ToolEntry>)
    requires i < j < |tools|
    ensures multiset([tools[i], tools[j]] + rest) == multiset(tools)
    ensures multiset([tools[j], tools[i]] + rest) == multiset(tools)
  {
    rest := tools[..i] + tools[i + 1..j] + tools[j + 1..];
    assert tools == tools[..i] + ([tools[i]] + (tools[i + 1..j] + ([tools[j]] + tools[j + 1..])));
  }

  lemma OrderIsForgotten(alg: Algorithm, tools: seq<ToolEntry>, others: seq<ToolEntry>)
    requires AllUsable(alg, tools) && OneToolPerId(tools) && multiset(tools) == multiset(others)
    ensures CatalogRoot(alg, others) == CatalogRoot(alg, tools)
  {
    UsableAgain(alg, tools, others);
    forall id
      ensures Under(IdOf, id, others) == Under(IdOf, id, tools)
    {
      SameUnder(id, tools, others);
    }
    CatalogRootBindsTools(alg, others, tools);
  }

  lemma OrderShows(alg: Algorithm, tools: seq<ToolEntry>, i: nat, j: nat)
    requires AllUsable(alg, tools) && i < j < |tools| && tools[i].toolId == tools[j].toolId && tools[i] != tools[j]
    ensures !OrderForgotten(alg, tools)
  {
    var rest := TwoOut(tools, i, j);
    UsableAgain(alg, tools, [tools[i], tools[j]] + rest);
    SwapShows(alg, tools[i], tools[j], rest);
  }

  /** Sorting by id makes the root forget the order of the tools exactly when no two different
      tools share an id; otherwise two of them show in which order they were given. */
  lemma CatalogForgetsOrderExactly(alg: Algorithm, tools: seq<ToolEntry>)
    requires AllUsable(alg, tools)
    ensures OrderForgotten(alg, tools) <==> OneToolPerId(tools)
  {
    if OneToolPerId(tools) {
      forall others: seq<ToolEntry> | multiset(others) == multiset(tools)
        ensures CatalogRoot(alg, others) == CatalogRoot(alg, tools)
      {
        OrderIsForgotten(alg, tools, others);
      }
    } else {
      var i, j :| 0 <= i < |tools| && 0 <= j < |tools| && tools[i].toolId == tools[j].toolId && tools[i] != tools[j];
      OrderShows(alg, tools, if i < j then i else j, if i < j then j else i);
    }
  }
}
