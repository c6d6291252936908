/** The leaf encoders of the memory log: what one leaf, and so the whole root, says about
    the operations of each representation. */
module MemoryLeaves {
  import opened Wrappers
  import opened Primitives
  import opened Hashing
  import opened Decimals
  import opened Json
  import opened JsonMeaning
  import opened Records
  import opened MemoryDelta
  import Signing
  import Strings
  import Append
  import MerkleTree
  import Utf8

  // ----- leaves

  /** The tag of a representation and its zero byte. */
  function Tag(s: string): Bytes
    requires forall i :: 0 <= i < |s| ==> s[i] < '\U{80}'
  {
    seq(|s|, i requires 0 <= i < |s| => Lit(s[i] as int)) + [Lit(0)]
  }

  const KV_TAG: Bytes := Tag("am-mem-kv")
  const VECTOR_TAG: Bytes := Tag("am-mem-vec")
  const NODE_TAG: Bytes := Tag("am-mem-gnode")
  const EDGE_TAG: Bytes := Tag("am-mem-gedge")
  const TAGS: set<Bytes> := {KV_TAG, VECTOR_TAG, NODE_TAG, EDGE_TAG}

  const OP: Text := Signing.Name("op")
  const KEY: Text := Signing.Name("key")
  const VALUE: Text := Signing.Name("value")
  const ID: Text := Signing.Name("id")
  const EMBEDDING: Text := Signing.Name("embedding")
  const MODEL_ID: Text := Signing.Name("embedding_model_id")
  const CONTENT_HASH: Text := Signing.Name("content_hash")
  const SRC: Text := Signing.Name("src")
  const REL: Text := Signing.Name("rel")
  const DST: Text := Signing.Name("dst")
  const PROPS: Text := Signing.Name("props")
  const NODE_ID: Text := Signing.Name("node_id")
  const B_KEY: Text := Signing.Name("b")
  const S_KEY: Text := Signing.Name("s")
  const PUT: Text := Signing.Name("PUT")
  const DEL: Text := Signing.Name("DEL")
  const ADD: Text := Signing.Name("ADD")

  /** What a leaf is made of: a tag, and the keys and values of its payload. */
  datatype Form = Form(tag: Bytes, keys: seq<Text>, values: seq<Value>)

  ghost predicate SoundForm(f: Form) {
    |f.keys| == |f.values| && Distinct(f.keys) && forall i :: 0 <= i < |f.values| ==> WellFormed(f.values[i])
  }

  ghost function Leaf(f: Form): Option<Bytes>
    requires |f.keys| == |f.values|
  {
    var bytes := CanonicalBytes(Written(f.keys, f.values));
    if bytes.Err? then None else Some(f.tag + bytes.value)
  }

  method MakeLeaf(f: Form) returns (r: Option<Bytes>)
    requires |f.keys| == |f.values|
    ensures r == Leaf(f)
  {
    var text := Canonicalize(Dict(Written(f.keys, f.values)), true);
    if text.Err? {
      return None;
    }
    return Some(f.tag + Utf8.Encode(text.value));
  }

  /** Leaves over one tag and one list of keys are equal exactly when they agree value by
      value; a null value counts as absent. */
  lemma LeafIsAgreement(f: Form, g: Form)
    requires SoundForm(f) && SoundForm(g) && f.tag == g.tag && f.keys == g.keys && Leaf(f).Some? && Leaf(g).Some?
    ensures Leaf(f) == Leaf(g) <==> SameValues(f.values, g.values)
  {
    var d, e := Written(f.keys, f.values), Written(g.keys, g.values);
    RecordSound(f.keys, f.values);
    RecordSound(g.keys, g.values);
    SameKeys(d, e, f.keys, f.values, g.values);
    BytesAgree(d, e);
    TagPrefix(f.tag, CanonicalBytes(d).value, CanonicalBytes(e).value);
  }

  lemma TagPrefix(tag: Bytes, s: Bytes, t: Bytes)
    ensures tag + s == tag + t <==> s == t
  {
    if tag + s == tag + t {
      SameCut(tag, s, tag, t);
    }
  }

  /** Under one tag, a different first value under the same first key tells leaves apart. */
  lemma FirstValueApart(f: Form, g: Form)
    requires SoundForm(f) && SoundForm(g) && f.tag == g.tag && Leaf(f).Some? && Leaf(g).Some?
    requires f.keys != [] && g.keys != [] && f.keys[0] == g.keys[0] && !SameValue(f.values[0], g.values[0])
    ensures Leaf(f) != Leaf(g)
  {
    var d, e := Written(f.keys, f.values), Written(g.keys, g.values);
    RecordSound(f.keys, f.values);
    RecordSound(g.keys, g.values);
    ValueApart(d, e, f.keys, f.values, g.keys, g.values);
    BytesAgree(d, e);
    TagPrefix(f.tag, CanonicalBytes(d).value, CanonicalBytes(e).value);
  }

  /** Leaves of different representations are never equal. */
  lemma TagsSeparate(s: Bytes, x: Bytes, t: Bytes, y: Bytes)
    requires s in TAGS && t in TAGS && s != t
    ensures s + x != t + y
  {
    assert KV_TAG[7] == Lit(0x6B) && VECTOR_TAG[7] == Lit(0x76) && NODE_TAG[7] == EDGE_TAG[7] == Lit(0x67);
    assert NODE_TAG[8] == Lit(0x6E) && EDGE_TAG[8] == Lit(0x65);
    assert (s + x)[7] == s[7] && (t + y)[7] == t[7];
    assert |s| > 8 ==> (s + x)[8] == s[8];
    assert |t| > 8 ==> (t + y)[8] == t[8];
  }

  // ----- key-value operations

  type Kv = KvOp<Text, Value>

  function KvForm(op: Kv): (f: Form)
    requires !op.Unsupported?
    ensures |f.keys| == |f.values|
  {
    if op.Put? then Form(KV_TAG, [OP, KEY, VALUE], [Str(PUT), Str(op.key), op.value])
    else Form(KV_TAG, [OP, KEY], [Str(DEL), Str(op.key)])
  }

  ghost function KvLeaf(op: Kv): Option<Bytes> {
    if op.Unsupported? then None else Leaf(KvForm(op))
  }

  method EncodeKv(op: Kv) returns (r: Option<Bytes>)
    ensures r == KvLeaf(op)
  {
    if op.Unsupported? {
      return None;
    }
    r := MakeLeaf(KvForm(op));
  }

  ghost predicate SoundKv(op: Kv) {
    op.Put? ==> WellFormed(op.value)
  }

  /** The same operation on the same key, with values that mean the same. */
  ghost predicate SameKv(a: Kv, b: Kv) {
    match (a, b)
    case (Put(k, v), Put(l, w)) => k == l && SameValue(v, w)
    case (Del(k), Del(l)) => k == l
    case _ => false
  }

  lemma KvSound(op: Kv)
    requires !op.Unsupported? && SoundKv(op)
    ensures SoundForm(KvForm(op))
  {
  }

  /** Two operations share a leaf exactly when they are the same operation. */
  lemma KvLeafBinds(a: Kv, b: Kv)
    requires SoundKv(a) && SoundKv(b) && KvLeaf(a).Some? && KvLeaf(b).Some?
    ensures KvLeaf(a) == KvLeaf(b) <==> SameKv(a, b)
  {
    KvSound(a);
    KvSound(b);
    SameTexts(PUT, DEL);
    SameTexts(a.key, b.key);
    assert PUT[0] != DEL[0];
    if a.Put? == b.Put? {
      LeafIsAgreement(KvForm(a), KvForm(b));
      KvValues(a, b);
    } else {
      FirstValueApart(KvForm(a), KvForm(b));
    }
  }

  lemma KvValues(a: Kv, b: Kv)
    requires (a.Put? && b.Put?) || (a.Del? && b.Del?)
    ensures SameValues(KvForm(a).values, KvForm(b).values) <==> SameKv(a, b)
  {
    var v, w := KvForm(a).values, KvForm(b).values;
    SameTexts(a.key, b.key);
    assert SameValues(v, w) <==>
           SameValue(v[0], w[0]) && SameValue(v[1], w[1]) && (a.Put? ==> SameValue(v[2], w[2]));
  }

  // ----- vector operations

  /** An embedding: raw bytes, or whatever else JSON can hold. */
  datatype Embedding = Raw(bytes: seq<Octet>) | Other(value: Value)

  /** An absent content hash is null.  Unusable: an operation that lacks a field, or is not
      an ADD. */
  datatype VectorOp =
    | AddVector(id: Value, embedding: Embedding, modelId: Value, contentHash: Value)
    | UnusableVector

  /** `bytes.hex()` */
  function Hex(bs: seq<Octet>): (t: Text)
    ensures |t| == 2 * |bs|
  {
    if bs == [] then [] else [Strings.HexDigit(bs[0] / 16), Strings.HexDigit(bs[0] % 16)] + Hex(bs[1..])
  }

  lemma {:induction false} HexInjective(x: seq<Octet>, y: seq<Octet>)
    ensures Hex(x) == Hex(y) <==> x == y
  {
    if Hex(x) == Hex(y) && x != [] {
      assert |x| == |y|;
      assert Hex(x)[0] == Hex(y)[0] && Hex(x)[1] == Hex(y)[1];
      assert Hex(x)[2..] == Hex(x[1..]) && Hex(y)[2..] == Hex(y[1..]);
      HexInjective(x[1..], y[1..]);
      assert x == [x[0]] + x[1..] && y == [y[0]] + y[1..];
    }
  }

  /** Bytes and text that looks like their hex are kept apart by the key. */
  function EmbeddingField(e: Embedding): seq<Member> {
    match e
    case Raw(bytes) => Written([B_KEY], [Str(Hex(bytes))])
    case Other(value) => Written([S_KEY], [value])
  }

  function VectorForm(op: VectorOp): (f: Form)
    requires op.AddVector?
    ensures |f.keys| == |f.values|
  {
    Form(VECTOR_TAG, [OP, ID, EMBEDDING, MODEL_ID, CONTENT_HASH],
         [Str(ADD), op.id, Dict(EmbeddingField(op.embedding)), op.modelId, op.contentHash])
  }

  ghost function VectorLeaf(op: VectorOp): Option<Bytes> {
    if op.UnusableVector? then None else Leaf(VectorForm(op))
  }

  method EncodeVector(op: VectorOp) returns (r: Option<Bytes>)
    ensures r == VectorLeaf(op)
  {
    if op.UnusableVector? {
      return None;
    }
    r := MakeLeaf(VectorForm(op));
  }

  ghost predicate SoundVector(op: VectorOp) {
    op.AddVector? ==>
      && WellFormed(op.id) && WellFormed(op.modelId) && WellFormed(op.contentHash)
      && (op.embedding.Other? ==> WellFormed(op.embedding.value))
  }

  ghost predicate SameEmbedding(a: Embedding, b: Embedding) {
    match (a, b)
    case (Raw(x), Raw(y)) => x == y
    case (Other(v), Other(w)) => SameValue(v, w)
    case _ => false
  }

  ghost predicate SameVector(a: VectorOp, b: VectorOp) {
    && a.AddVector? && b.AddVector?
    && SameValue(a.id, b.id) && SameEmbedding(a.embedding, b.embedding)
    && SameValue(a.modelId, b.modelId) && SameValue(a.contentHash, b.contentHash)
  }

  lemma EmbeddingSound(e: Embedding)
    requires e.Other? ==> WellFormed(e.value)
    ensures Signing.WellFormedDict(EmbeddingField(e))
    ensures e.Raw? ==> Holds(EmbeddingField(e), [B_KEY], [Str(Hex(e.bytes))])
    ensures e.Other? ==> Holds(EmbeddingField(e), [S_KEY], [e.value])
  {
    if e.Raw? {
      RecordSound([B_KEY], [Str(Hex(e.bytes))]);
    } else {
      RecordSound([S_KEY], [e.value]);
    }
  }

  /** A raw embedding and any other never look the same. */
  lemma EmbeddingBinds(a: Embedding, b: Embedding)
    requires (a.Other? ==> WellFormed(a.value)) && (b.Other? ==> WellFormed(b.value))
    ensures Agree(EmbeddingField(a), EmbeddingField(b)) <==> SameEmbedding(a, b)
  {
    EmbeddingSound(a);
    EmbeddingSound(b);
    var d, e := EmbeddingField(a), EmbeddingField(b);
    assert B_KEY[0] != S_KEY[0];
    match (a, b)
    case (Raw(x), Raw(y)) =>
      HexInjective(x, y);
      SameTexts(Hex(x), Hex(y));
      OneKey(d, e, B_KEY, Str(Hex(x)), Str(Hex(y)));
    case (Other(v), Other(w)) => OneKey(d, e, S_KEY, v, w);
    case (Raw(x), Other(w)) => KeyApart(d, e, [B_KEY], [Str(Hex(x))], [S_KEY], [w], 0);
    case (Other(v), Raw(y)) => KeyApart(e, d, [B_KEY], [Str(Hex(y))], [S_KEY], [v], 0);
  }

  lemma OneKey(d: seq<Member>, e: seq<Member>, key: Text, v: Value, w: Value)
    requires Holds(d, [key], [v]) && Holds(e, [key], [w])
    ensures Agree(d, e) <==> SameValue(v, w)
  {
    SameKeys(d, e, [key], [v], [w]);
    assert SameValues([v], [w]) <==> SameValue([v][0], [w][0]);
  }

  lemma VectorKeys()
    ensures Distinct([OP, ID, EMBEDDING, MODEL_ID, CONTENT_HASH])
  {
    assert |OP| == |ID| == 2 && |EMBEDDING| == 9 && |MODEL_ID| == 18 && |CONTENT_HASH| == 12;
    assert OP[0] != ID[0];
  }

  lemma VectorSound(op: VectorOp)
    requires op.AddVector? && SoundVector(op)
    ensures SoundForm(VectorForm(op))
  {
    VectorKeys();
    EmbeddingSound(op.embedding);
  }

  /** Two vector operations share a leaf exactly when every field means the same. */
  lemma VectorLeafBinds(a: VectorOp, b: VectorOp)
    requires SoundVector(a) && SoundVector(b) && VectorLeaf(a).Some? && VectorLeaf(b).Some?
    ensures VectorLeaf(a) == VectorLeaf(b) <==> SameVector(a, b)
  {
    VectorSound(a);
    VectorSound(b);
    LeafIsAgreement(VectorForm(a), VectorForm(b));
    VectorValues(a, b, VectorForm(a).values, VectorForm(b).values);
  }

  lemma VectorValues(a: VectorOp, b: VectorOp, v: seq<Value>, w: seq<Value>)
    requires a.AddVector? && b.AddVector? && SoundVector(a) && SoundVector(b)
    requires v == VectorForm(a).values && w == VectorForm(b).values
    ensures SameValues(v, w) <==> SameVector(a, b)
  {
    EmbeddingBinds(a.embedding, b.embedding);
    SameDicts(EmbeddingField(a.embedding), EmbeddingField(b.embedding));
    FiveValues(v, w);
  }

  lemma FiveValues(v: seq<Value>, w: seq<Value>)
    requires |v| == |w| == 5
    ensures SameValues(v, w) <==> SameValue(v[0], w[0]) && SameValue(v[1], w[1]) && SameValue(v[2], w[2]) &&
                                  SameValue(v[3], w[3]) && SameValue(v[4], w[4])
  {
  }

  // ----- graph operations

  /** Absent properties are an empty dict.  Unusable: an operation that lacks a field, is not
      an ADD, or is neither a node nor an edge. */
  datatype GraphOp =
    | AddNode(nodeId: Value, props: Option<Value>)
    | AddEdge(src: Value, rel: Value, dst: Value, props: Option<Value>)
    | UnusableGraph

  function PropsOf(op: GraphOp): Value
    requires !op.UnusableGraph?
  {
    if op.props.Some? then op.props.value else Dict([])
  }

  function GraphForm(op: GraphOp): (f: Form)
    requires !op.UnusableGraph?
    ensures |f.keys| == |f.values|
  {
    if op.AddEdge? then
      Form(EDGE_TAG, [OP, SRC, REL, DST, PROPS], [Str(ADD), op.src, op.rel, op.dst, PropsOf(op)])
    else
      Form(NODE_TAG, [OP, NODE_ID, PROPS], [Str(ADD), op.nodeId, PropsOf(op)])
  }

  ghost function GraphLeaf(op: GraphOp): Option<Bytes> {
    if op.UnusableGraph? then None else Leaf(GraphForm(op))
  }

  method EncodeGraph(op: GraphOp) returns (r: Option<Bytes>)
    ensures r == GraphLeaf(op)
  {
    if op.UnusableGraph? {
      return None;
    }
    r := MakeLeaf(GraphForm(op));
  }

  ghost predicate SoundGraph(op: GraphOp) {
    match op
    case AddNode(id, _) => WellFormed(id) && WellFormed(PropsOf(op))
    case AddEdge(src, rel, dst, _) => WellFormed(src) && WellFormed(rel) && WellFormed(dst) && WellFormed(PropsOf(op))
    case UnusableGraph => true
  }

  ghost predicate SameGraph(a: GraphOp, b: GraphOp) {
    match (a, b)
    case (AddNode(i, _), AddNode(j, _)) => SameValue(i, j) && SameValue(PropsOf(a), PropsOf(b))
    case (AddEdge(s, r, d, _), AddEdge(s', r', d', _)) =>
      SameValue(s, s') && SameValue(r, r') && SameValue(d, d') && SameValue(PropsOf(a), PropsOf(b))
    case _ => false
  }

  lemma GraphSound(op: GraphOp)
    requires !op.UnusableGraph? && SoundGraph(op)
    ensures SoundForm(GraphForm(op))
  {
    assert |OP| == 2 && |SRC| == |REL| == |DST| == 3 && |PROPS| == 5 && |NODE_ID| == 7;
    assert SRC[0] == 0x73 && REL[0] == 0x72 && DST[0] == 0x64;
  }

  lemma GraphValues(a: GraphOp, b: GraphOp, v: seq<Value>, w: seq<Value>)
    requires (a.AddNode? && b.AddNode?) || (a.AddEdge? && b.AddEdge?)
    requires v == GraphForm(a).values && w == GraphForm(b).values
    ensures SameValues(v, w) <==> SameGraph(a, b)
  {
    assert SameValues(v, w) <==> SameValue(v[0], w[0]) && SameValue(v[1], w[1]) && SameValue(v[2], w[2]) &&
                                 (a.AddEdge? ==> SameValue(v[3], w[3]) && SameValue(v[4], w[4]));
  }

  /** Two graph operations share a leaf exactly when they add the same node or edge: nodes
      and edges are kept apart by their tags. */
  lemma GraphLeafBinds(a: GraphOp, b: GraphOp)
    requires SoundGraph(a) && SoundGraph(b) && GraphLeaf(a).Some? && GraphLeaf(b).Some?
    ensures GraphLeaf(a) == GraphLeaf(b) <==> SameGraph(a, b)
  {
    var f, g := GraphForm(a), GraphForm(b);
    if a.AddEdge? == b.AddEdge? {
      GraphSound(a);
      GraphSound(b);
      LeafIsAgreement(f, g);
      GraphValues(a, b, f.values, g.values);
    } else {
      TaggedApart(f, g);
    }
  }

  lemma TaggedApart(f: Form, g: Form)
    requires |f.keys| == |f.values| && |g.keys| == |g.values| && Leaf(f).Some? && Leaf(g).Some?
    requires (f.tag == EDGE_TAG && g.tag == NODE_TAG) || (f.tag == NODE_TAG && g.tag == EDGE_TAG)
    ensures Leaf(f) != Leaf(g)
  {
    assert EDGE_TAG[8] != NODE_TAG[8];
    TagsSeparate(f.tag, CanonicalBytes(Written(f.keys, f.values)).value,
                 g.tag, CanonicalBytes(Written(g.keys, g.values)).value);
  }

  // ----- whole logs

  /** Two logs of one representation share a root exactly when they encode alike, operation
      by operation. */
  lemma RootBindsEncodings<Op>(alg: Algorithm, encode: Encoder<Op>, a: seq<Op>, b: seq<Op>)
    requires AllEncode(encode, a) && AllEncode(encode, b)
    ensures MerkleTree.RootOf(alg, LogLeaves(alg, encode, a)) == MerkleTree.RootOf(alg, LogLeaves(alg, encode, b)) <==>
            |a| == |b| && forall i :: 0 <= i < |a| ==> encode(a[i]) == encode(b[i])
  {
    var p, q := Append.Values(Encoded(encode, a)), Append.Values(Encoded(encode, b));
    MerkleTree.RootBindsPreimages(alg, p, alg, q);
    if p == q {
      assert |a| == |b| && forall i :: 0 <= i < |a| ==> p[i] == q[i];
    }
    if |a| == |b| && forall i :: 0 <= i < |a| ==> encode(a[i]) == encode(b[i]) {
      assert forall i :: 0 <= i < |a| ==> p[i] == q[i];
    }
  }

  ghost predicate SameLog(a: seq<Kv>, b: seq<Kv>) {
    |a| == |b| && forall i :: 0 <= i < |a| ==> SameKv(a[i], b[i])
  }

  ghost predicate SoundLog(a: seq<Kv>) {
    AllEncode(KvLeaf, a) && forall i :: 0 <= i < |a| ==> SoundKv(a[i])
  }

  /** Two logs share a memory root exactly when they hold the same operations in the same
      order. */
  lemma RootBindsLog(alg: Algorithm, a: seq<Kv>, b: seq<Kv>)
    requires SoundLog(a) && SoundLog(b)
    ensures MerkleTree.RootOf(alg, LogLeaves(alg, KvLeaf, a)) == MerkleTree.RootOf(alg, LogLeaves(alg, KvLeaf, b)) <==>
            SameLog(a, b)
  {
    RootBindsEncodings(alg, KvLeaf, a, b);
    forall i | 0 <= i < |a| && i < |b|
      ensures KvLeaf(a[i]) == KvLeaf(b[i]) <==> SameKv(a[i], b[i])
    {
      KvLeafBinds(a[i], b[i]);
    }
  }

  lemma RootBindsVectors(alg: Algorithm, a: seq<VectorOp>, b: seq<VectorOp>)
    requires AllEncode(VectorLeaf, a) && forall i :: 0 <= i < |a| ==> SoundVector(a[i])
    requires AllEncode(VectorLeaf, b) && forall i :: 0 <= i < |b| ==> SoundVector(b[i])
    ensures MerkleTree.RootOf(alg, LogLeaves(alg, VectorLeaf, a)) ==
            MerkleTree.RootOf(alg, LogLeaves(alg, VectorLeaf, b)) <==>
            |a| == |b| && forall i :: 0 <= i < |a| ==> SameVector(a[i], b[i])
  {
    RootBindsEncodings(alg, VectorLeaf, a, b);
    forall i | 0 <= i < |a| && i < |b|
      ensures VectorLeaf(a[i]) == VectorLeaf(b[i]) <==> SameVector(a[i], b[i])
    {
      VectorLeafBinds(a[i], b[i]);
    }
  }

  lemma RootBindsGraph(alg: Algorithm, a: seq<GraphOp>, b: seq<GraphOp>)
    requires AllEncode(GraphLeaf, a) && forall i :: 0 <= i < |a| ==> SoundGraph(a[i])
    requires AllEncode(GraphLeaf, b) && forall i :: 0 <= i < |b| ==> SoundGraph(b[i])
    ensures MerkleTree.RootOf(alg, LogLeaves(alg, GraphLeaf, a)) ==
            MerkleTree.RootOf(alg, LogLeaves(alg, GraphLeaf, b)) <==>
            |a| == |b| && forall i :: 0 <= i < |a| ==> SameGraph(a[i], b[i])
  {
    RootBindsEncodings(alg, GraphLeaf, a, b);
    forall i | 0 <= i < |a| && i < |b|
      ensures GraphLeaf(a[i]) == GraphLeaf(b[i]) <==> SameGraph(a[i], b[i])
    {
      GraphLeafBinds(a[i], b[i]);
    }
  }

  /** The same keys, with values that mean the same. */
  ghost predicate SameState(s: map<Text, Value>, t: map<Text, Value>) {
    s.Keys == t.Keys && forall k :: k in s ==> SameValue(s[k], t[k])
  }

  lemma {:induction false} SameLogSameState(a: seq<Kv>, b: seq<Kv>)
    requires SameLog(a, b)
    ensures SameState(FoldKvFrom(map[], a), FoldKvFrom(map[], b))
  {
    if a != [] {
      var j := |a| - 1;
      SameLogSameState(a[..j], b[..j]);
      assert SameKv(a[j], b[j]);
    }
  }

  /** A memory root settles the state its log folds to. */
  lemma RootBindsState(alg: Algorithm, a: seq<Kv>, b: seq<Kv>)
    requires SoundLog(a) && SoundLog(b)
    requires MerkleTree.RootOf(alg, LogLeaves(alg, KvLeaf, a)) == MerkleTree.RootOf(alg, LogLeaves(alg, KvLeaf, b))
    ensures SameState(FoldKvFrom(map[], a), FoldKvFrom(map[], b))
  {
    RootBindsLog(alg, a, b);
    SameLogSameState(a, b);
  }
}
