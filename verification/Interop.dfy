/** What another implementation has to produce byte for byte: prefixes, tags, field names and
    layouts, spelled out. */
module Interop {
  import opened Wrappers
  import opened Decimals
  import opened Hashing
  import opened Merkle
  import opened MerkleTree
  import opened Json
  import opened JsonMeaning
  import opened Signing
  import opened Records
  import AuditContinuity
  import Corpus
  import Catalog
  import MemoryDelta
  import L = MemoryLeaves
  import S = Statements
  import Bits
  import Utf8

  function Ascii(s: string): (b: Bytes)
    requires forall i :: 0 <= i < |s| ==> s[i] < '\U{80}'
    ensures |b| == |s|
  {
    seq(|s|, i requires 0 <= i < |s| => Lit(s[i] as int))
  }

  // ----- hashes and roots

  lemma Prefixes(alg: Algorithm, x: Bytes, y: Bytes)
    ensures EmptyTree(alg) == Hash(alg, [])
    ensures LeafHash(alg, x) == Hash(alg, [Lit(0)] + x)
    ensures NodeHash(alg, x, y) == Hash(alg, [Lit(1)] + x + y)
    ensures ChainHash(alg, x, y) == Hash(alg, [Lit(2)] + x + y)
  {
  }

  lemma TwoLeaves(alg: Algorithm, a: Bytes, b: Bytes)
    ensures Mth(alg, [a]) == a && Mth(alg, [a, b]) == Hash(alg, [Lit(1)] + a + b)
  {
    assert Bits.Split(2) == 1;
    assert [a, b][..1] == [a] && [a, b][1..] == [b];
    Prefixes(alg, a, b);
  }

  /** The tree over three leaves: the first two under one node. */
  lemma ThreeLeaves(alg: Algorithm, a: Bytes, b: Bytes, c: Bytes)
    ensures RootOf(alg, []) == Hash(alg, []) && RootOf(alg, [a]) == a
    ensures RootOf(alg, [a, b, c]) == Hash(alg, [Lit(1)] + Hash(alg, [Lit(1)] + a + b) + c)
  {
    var ds := [a, b, c];
    assert Bits.Split(3) == 2;
    assert ds[..2] == [a, b] && ds[2..] == [c];
    TwoLeaves(alg, a, b);
    TwoLeaves(alg, c, c);
    assert Mth(alg, ds) == NodeHash(alg, Mth(alg, [a, b]), Mth(alg, [c]));
    Prefixes(alg, Hash(alg, [Lit(1)] + a + b), c);
  }

  /** The chain over two audit entries. */
  lemma TwoEntries(alg: Algorithm, x: Bytes, y: Bytes)
    ensures var leaf := (e: Bytes) => Hash(alg, [Lit(0)] + (Ascii("am-trace-entry") + [Lit(0)] + e));
            AuditContinuity.ChainRoot(alg, AuditContinuity.EntryLeaves(alg, [x, y])) ==
            Hash(alg, [Lit(2)] + leaf(x) + leaf(y))
  {
    var ls := AuditContinuity.EntryLeaves(alg, [x, y]);
    assert AuditContinuity.ENTRY_TAG == Ascii("am-trace-entry") + [Lit(0)];
    assert ls == [ls[0], ls[1]] && ls[1..] == [ls[1]] && [ls[1]][..0] == [];
    assert AuditContinuity.Extend(alg, ls[0], []) == ls[0];
  }

  /** The corpus of one document, and the catalog of one tool. */
  lemma OneDocument(leq: (Bytes, Bytes) -> bool, alg: Algorithm, doc: Corpus.CorpusDocument)
    ensures Corpus.CorpusRoot(leq, alg, [doc]) == Hash(alg, [Lit(0)] + (doc.documentId + [Lit(0)] + doc.content))
  {
    var hs := LeafHashes(alg, Corpus.AllLeafData([doc]));
    assert hs == [LeafHash(alg, doc.documentId + [Lit(0)] + doc.content)];
    assert hs[1..] == [];
  }

  lemma OneTool(alg: Algorithm, t: Catalog.ToolEntry)
    ensures Catalog.CatalogRoot(alg, [t]) ==
            Hash(alg, [Lit(0)] + (Utf8.Encode(t.toolId) + [Lit(0)] + t.schemaHash.digest + t.descriptionHash.digest))
  {
    assert [t][1..] == [] && Catalog.SortedTools([t]) == [t];
    var data := Utf8.Encode(t.toolId) + [Lit(0)] + t.schemaHash.digest + t.descriptionHash.digest;
    assert Catalog.LeafData(t) == data;
    assert LeafHashes(alg, Catalog.AllLeafData([t])) == [LeafHash(alg, data)];
  }

  /** A tool is refused exactly for a surrogate in its id or a hash of another algorithm. */
  lemma UsableTools(alg: Algorithm, t: Catalog.ToolEntry)
    ensures Catalog.Usable(alg, t) <==>
            && (forall i :: 0 <= i < |t.toolId| ==> t.toolId[i] < 0xD800 || 0xDFFF < t.toolId[i])
            && t.schemaHash.alg == alg == t.descriptionHash.alg
  {
  }

  // ----- leaves and statements

  /** A dict with these fields and no others, in whatever order, is what stands for them. */
  ghost predicate Spells(d: seq<Member>, keys: seq<Text>, values: seq<Value>)
    requires |keys| == |values|
  {
    WellFormedDict(d) && CanonicalBytes(d).Ok? && Holds(d, keys, values)
  }

  lemma SpelledBytes(d: seq<Member>, keys: seq<Text>, values: seq<Value>)
    requires |keys| == |values| && Spells(d, keys, values) && Distinct(keys)
    requires (forall i :: 0 <= i < |values| ==> WellFormed(values[i])) && CanonicalBytes(Written(keys, values)).Ok?
    ensures CanonicalBytes(Written(keys, values)) == CanonicalBytes(d)
  {
    RecordSound(keys, values);
    SameKeys(Written(keys, values), d, keys, values, values);
    BytesAgree(Written(keys, values), d);
  }

  /** A leaf is its tag and the canonical bytes of any dict with its fields. */
  lemma SpelledLeaf(f: L.Form, d: seq<Member>)
    requires L.SoundForm(f) && L.Leaf(f).Some? && Spells(d, f.keys, f.values)
    ensures L.Leaf(f) == Some(f.tag + CanonicalBytes(d).value)
  {
    SpelledBytes(d, f.keys, f.values);
  }

  lemma KvFields(key: Text, value: Value)
    ensures L.KvForm(MemoryDelta.Put(key, value)) ==
            L.Form(Ascii("am-mem-kv") + [Lit(0)], [Name("op"), Name("key"), Name("value")],
                   [Str(Name("PUT")), Str(key), value])
    ensures L.KvForm(MemoryDelta.Del(key)) ==
            L.Form(Ascii("am-mem-kv") + [Lit(0)], [Name("op"), Name("key")], [Str(Name("DEL")), Str(key)])
  {
    assert L.KV_TAG == Ascii("am-mem-kv") + [Lit(0)];
  }

  lemma VectorFields(op: L.VectorOp)
    requires op.AddVector?
    ensures var embedding := match op.embedding
                             case Raw(bytes) => [Member(Name("b"), Str(L.Hex(bytes)))]
                             case Other(value) => [Member(Name("s"), value)];
            L.VectorForm(op) ==
            L.Form(Ascii("am-mem-vec") + [Lit(0)],
                   [Name("op"), Name("id"), Name("embedding"), Name("embedding_model_id"), Name("content_hash")],
                   [Str(Name("ADD")), op.id, Dict(embedding), op.modelId, op.contentHash])
  {
    assert L.VECTOR_TAG == Ascii("am-mem-vec") + [Lit(0)];
    OneField(L.B_KEY, Str(if op.embedding.Raw? then L.Hex(op.embedding.bytes) else []));
    OneField(L.S_KEY, if op.embedding.Other? then op.embedding.value else Null);
  }

  lemma OneField(key: Text, value: Value)
    ensures Written([key], [value]) == [Member(key, value)]
  {
    assert [key][..0] == [] && [value][..0] == [];
    assert Written([], []) == [];
  }

  lemma GraphFields(op: L.GraphOp)
    requires !op.UnusableGraph?
    ensures var props := match op.props case Some(p) => p case None => Dict([]);
            L.GraphForm(op) ==
            match op
            case AddNode(id, _) =>
              L.Form(Ascii("am-mem-gnode") + [Lit(0)], [Name("op"), Name("node_id"), Name("props")],
                     [Str(Name("ADD")), id, props])
            case AddEdge(src, rel, dst, _) =>
              L.Form(Ascii("am-mem-gedge") + [Lit(0)],
                     [Name("op"), Name("src"), Name("rel"), Name("dst"), Name("props")],
                     [Str(Name("ADD")), src, rel, dst, props])
  {
    assert L.NODE_TAG == Ascii("am-mem-gnode") + [Lit(0)] && L.EDGE_TAG == Ascii("am-mem-gedge") + [Lit(0)];
  }

  /** The bytes of a statement are those of any dict with its fields. */
  lemma SpelledStatement(s: S.Statement, d: seq<Member>)
    requires S.Sound(s) && S.Signed(s).Ok? && Spells(d, S.KeysOf(s), S.ValuesOf(s))
    ensures S.Signed(s) == CanonicalBytes(d)
  {
    S.KeysDistinct(s);
    S.ValuesSound(s, S.ValuesOf(s));
    SpelledBytes(d, S.KeysOf(s), S.ValuesOf(s));
  }

  lemma HopFields(i: int, m: Text, p: Text, t: Text, at: Text, scope: seq<Member>)
    ensures S.KeysOf(S.Hop(i, m, p, t, at, scope)) ==
            [Name("hop"), Name("manifest_id"), Name("principal_id"), Name("principal_type"), Name("delegated_at"),
             Name("scope_grant")]
    ensures S.ValuesOf(S.Hop(i, m, p, t, at, scope)) == [Int(i), Str(m), Str(p), Str(t), Str(at), Dict(scope)]
  {
  }

  lemma ApprovalFields(m: Text, at: Text, scope: seq<Member>, id: Text, procedure: Text)
    ensures S.KeysOf(S.Approval(m, at, scope, id, None)) ==
            [Name("manifest_id"), Name("approved_at"), Name("approved_scope"), Name("approver_id")]
    ensures S.ValuesOf(S.Approval(m, at, scope, id, None)) == [Str(m), Str(at), Dict(scope), Str(id)]
    ensures S.KeysOf(S.Approval(m, at, scope, id, Some(procedure))) ==
            [Name("manifest_id"), Name("approved_at"), Name("approved_scope"), Name("approver_id"),
             Name("approval_method")]
    ensures S.ValuesOf(S.Approval(m, at, scope, id, Some(procedure))) ==
            [Str(m), Str(at), Dict(scope), Str(id), Str(procedure)]
  {
  }

  lemma RevocationFields(m: Text, at: Text, reason: Text, who: Text)
    ensures S.KeysOf(S.Revocation(m, at, reason, who)) ==
            [Name("manifest_id"), Name("revoked_at"), Name("reason"), Name("revoked_by")]
    ensures S.ValuesOf(S.Revocation(m, at, reason, who)) == [Str(m), Str(at), Str(reason), Str(who)]
  {
  }

  // ----- manifest fields

  function Names(fields: seq<string>): (ts: seq<Text>)
    ensures |ts| == |fields| && forall i :: 0 <= i < |ts| ==> ts[i] == Name(fields[i])
  {
    seq(|fields|, i requires 0 <= i < |fields| => Name(fields[i]))
  }

  /** The fields of a manifest that its v0.1 signature covers: all but the attestation, the
      experimental evidence requirements, the signature itself and the log entry. */
  const SIGNED_NAMES: seq<string> := [
    "@context", "@type", "manifest_id", "previous_manifest_id", "agent_id", "agent_instance_id", "version",
    "min_verifier_version", "issued_at", "expires_at", "issuer", "crypto_profile", "profile", "unbound_artifacts",
    "source_bundle", "artifacts", "delegation_chain", "hitl_record", "prior_transparency_log_entry", "log_retention",
    "data_scope", "operational_lifecycle", "intent"]

  lemma SignedNames()
    ensures SIGNED_FIELDS == Names(SIGNED_NAMES)
  {
    assert |SIGNED_FIELDS| == 23 && |Names(SIGNED_NAMES)| == 23;
    assert forall i :: 0 <= i < 23 ==> SIGNED_FIELDS[i] == Name(SIGNED_NAMES[i]);
  }

  lemma AttachedNames()
    ensures NON_PAYLOAD_FIELDS == [Name("signature"), Name("attestation"), Name("transparency_log_entry")]
    ensures UNHASHED_FIELDS == [Name("attestation"), Name("transparency_log_entry")]
    ensures HITL_RECORD == Name("hitl_record") && APPROVALS == Name("approvals")
  {
  }

  /** The record holds v under the name, and under any other name what the original holds. */
  ghost predicate OnlyAt(record: seq<Member>, original: seq<Member>, name: Text, v: Option<Value>) {
    forall k :: Get(record, k) == if k == name then v else Get(original, k)
  }

  ghost predicate Record(manifest: seq<Member>, k: Text) {
    k == Name("hitl_record") && match Get(manifest, k) case Some(v) => v.Dict? case None => false
  }

  /** What is signed: the named fields as they stand, the approvals of the record emptied. */
  lemma SignedContents(manifest: seq<Member>, k: Text)
    ensures var v := Get(SignedSubset(manifest), k);
            && (v.Some? ==> k in Names(SIGNED_NAMES))
            && (k in Names(SIGNED_NAMES) && !Record(manifest, k) ==> v == Get(manifest, k))
            && (Record(manifest, k) ==>
                  && v.Some? && v.value.Dict?
                  && OnlyAt(v.value.members, Get(manifest, k).value.members, Name("approvals"), Some(Array([], false))))
  {
    SignedNames();
    AttachedNames();
    var subset := Select(manifest, SIGNED_FIELDS);
    SelectGet(manifest, SIGNED_FIELDS, k);
    SelectGet(manifest, SIGNED_FIELDS, HITL_RECORD);
    assert SIGNED_FIELDS[17] == HITL_RECORD;
    var hitl := Get(subset, HITL_RECORD);
    if hitl.Some? && hitl.value.Dict? {
      PutGet(subset, HITL_RECORD, Blanked(hitl.value), k);
      forall x {
        PutGet(hitl.value.members, APPROVALS, Array([], false), x);
      }
    }
  }

  lemma RecordStays()
    ensures HITL_RECORD !in NON_PAYLOAD_FIELDS
  {
    var a, b, c := Name("signature"), Name("attestation"), Name("transparency_log_entry");
    assert HITL_RECORD[0] == 'h' as int && a[0] == 's' as int && b[0] == 'a' as int && c[0] == 't' as int;
  }

  /** What an envelope carries: everything but the attached fields, the approvals left out. */
  lemma PayloadContents(manifest: seq<Member>, k: Text)
    ensures var v := Get(PayloadDict(manifest), k);
            && (v.Some? ==> k !in NON_PAYLOAD_FIELDS)
            && (k !in NON_PAYLOAD_FIELDS && !Record(manifest, k) ==> v == Get(manifest, k))
            && (Record(manifest, k) ==>
                  && v.Some? && v.value.Dict?
                  && OnlyAt(v.value.members, Get(manifest, k).value.members, Name("approvals"), None))
  {
    AttachedNames();
    var payload := Without(manifest, NON_PAYLOAD_FIELDS);
    WithoutGet(manifest, NON_PAYLOAD_FIELDS, k);
    WithoutGet(manifest, NON_PAYLOAD_FIELDS, HITL_RECORD);
    RecordStays();
    var hitl := Get(payload, HITL_RECORD);
    if hitl.Some? && hitl.value.Dict? && Signing.Has(hitl.value.members, APPROVALS) {
      PutGet(payload, HITL_RECORD, Stripped(hitl.value), k);
      forall x {
        WithoutGet(hitl.value.members, [APPROVALS], x);
      }
    }
  }
}
