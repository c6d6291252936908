/** Dicts written out under a fixed list of keys, and when the canonical bytes of two of
    them are equal. */
module Records {
  import opened Wrappers
  import opened Hashing
  import opened Decimals
  import opened Json
  import opened JsonMeaning
  import opened Signing

  /** A dict written out member by member. */
  function Written(keys: seq<Text>, values: seq<Value>): seq<Member>
    requires |keys| == |values|
  {
    if keys == [] then []
    else
      var j := |keys| - 1;
      Put(Written(keys[..j], values[..j]), keys[j], values[j])
  }

  /** The dict holds these values under these keys and nothing else. */
  ghost predicate Holds(d: seq<Member>, keys: seq<Text>, values: seq<Value>)
    requires |keys| == |values|
  {
    && (forall i :: 0 <= i < |keys| ==> Get(d, keys[i]) == Some(values[i]))
    && (forall k :: k !in keys ==> Get(d, k) == None)
  }

  lemma {:induction false} WrittenAt(keys: seq<Text>, values: seq<Value>, i: nat)
    requires |keys| == |values| && Distinct(keys) && i < |keys|
    ensures Get(Written(keys, values), keys[i]) == Some(values[i])
  {
    var j := |keys| - 1;
    PutGet(Written(keys[..j], values[..j]), keys[j], values[j], keys[i]);
    if i < j {
      WrittenAt(keys[..j], values[..j], i);
    }
  }

  lemma {:induction false} WrittenElsewhere(keys: seq<Text>, values: seq<Value>, k: Text)
    requires |keys| == |values| && k !in keys
    ensures Get(Written(keys, values), k) == None
  {
    if keys != [] {
      var j := |keys| - 1;
      WrittenElsewhere(keys[..j], values[..j], k);
      PutGet(Written(keys[..j], values[..j]), keys[j], values[j], k);
    }
  }

  lemma WrittenHolds(keys: seq<Text>, values: seq<Value>)
    requires |keys| == |values| && Distinct(keys)
    ensures Holds(Written(keys, values), keys, values)
  {
    forall i | 0 <= i < |keys|
      ensures Get(Written(keys, values), keys[i]) == Some(values[i])
    {
      WrittenAt(keys, values, i);
    }
    forall k | k !in keys
      ensures Get(Written(keys, values), k) == None
    {
      WrittenElsewhere(keys, values, k);
    }
  }

  lemma {:induction false} WrittenKeeps(keys: seq<Text>, values: seq<Value>)
    requires |keys| == |values| && forall i :: 0 <= i < |values| ==> WellFormed(values[i])
    ensures WellFormedDict(Written(keys, values))
  {
    if keys != [] {
      var j := |keys| - 1;
      WrittenKeeps(keys[..j], values[..j]);
      PutKeeps(Written(keys[..j], values[..j]), keys[j], values[j]);
    }
  }

  lemma RecordSound(keys: seq<Text>, values: seq<Value>)
    requires |keys| == |values| && Distinct(keys) && forall i :: 0 <= i < |values| ==> WellFormed(values[i])
    ensures WellFormedDict(Written(keys, values)) && Holds(Written(keys, values), keys, values)
  {
    WrittenHolds(keys, values);
    WrittenKeeps(keys, values);
  }

  /** Two dicts look the same under every key. */
  ghost predicate Agree(d: seq<Member>, e: seq<Member>) {
    forall k :: FieldMeaning(Get(d, k)) == FieldMeaning(Get(e, k))
  }

  ghost predicate SameValue(v: Value, w: Value) {
    FieldMeaning(Some(v)) == FieldMeaning(Some(w))
  }

  ghost predicate SameValues(v: seq<Value>, w: seq<Value>)
    requires |v| == |w|
  {
    forall i :: 0 <= i < |v| ==> SameValue(v[i], w[i])
  }

  /** Dicts over the same keys agree exactly when they agree key by key. */
  lemma SameKeys(d: seq<Member>, e: seq<Member>, keys: seq<Text>, v: seq<Value>, w: seq<Value>)
    requires |keys| == |v| == |w| && Holds(d, keys, v) && Holds(e, keys, w)
    ensures Agree(d, e) <==> SameValues(v, w)
  {
    if Agree(d, e) {
      forall i | 0 <= i < |v|
        ensures SameValue(v[i], w[i])
      {
        assert FieldMeaning(Get(d, keys[i])) == FieldMeaning(Get(e, keys[i]));
      }
    }
    if SameValues(v, w) {
      forall k
        ensures FieldMeaning(Get(d, k)) == FieldMeaning(Get(e, k))
      {
        if k in keys {
          var i :| 0 <= i < |keys| && keys[i] == k;
          assert SameValue(v[i], w[i]);
        }
      }
    }
  }

  /** A key that only one of two dicts has, with a value other than null, tells them apart. */
  lemma KeyApart(d: seq<Member>, e: seq<Member>, keys: seq<Text>, v: seq<Value>, others: seq<Text>, w: seq<Value>,
                 i: nat)
    requires |keys| == |v| && |others| == |w| && Holds(d, keys, v) && Holds(e, others, w)
    requires i < |keys| && keys[i] !in others && !v[i].Null?
    ensures !Agree(d, e)
  {
  }

  /** So does a first key that both have with different values. */
  lemma ValueApart(d: seq<Member>, e: seq<Member>, keys: seq<Text>, v: seq<Value>, others: seq<Text>, w: seq<Value>)
    requires |keys| == |v| && |others| == |w| && Holds(d, keys, v) && Holds(e, others, w)
    requires keys != [] && others != [] && keys[0] == others[0] && !SameValue(v[0], w[0])
    ensures !Agree(d, e)
  {
  }

  lemma SameTexts(s: Text, t: Text)
    ensures SameValue(Str(s), Str(t)) <==> s == t
  {
  }

  lemma SameInts(i: int, j: int)
    ensures SameValue(Int(i), Int(j)) <==> i == j
  {
  }

  lemma SameDicts(d: seq<Member>, e: seq<Member>)
    ensures SameValue(Dict(d), Dict(e)) <==> Agree(d, e)
  {
    SameDictSameFields(d, e);
  }

  ghost function CanonicalBytes(d: seq<Member>): Result<Bytes, CanonError> {
    Encoded(Canonicalized(Dict(d), true))
  }

  /** Canonical bytes are equal exactly when the dicts look the same under every key. */
  lemma BytesAgree(d: seq<Member>, e: seq<Member>)
    requires WellFormedDict(d) && WellFormedDict(e) && CanonicalBytes(d).Ok? && CanonicalBytes(e).Ok?
    ensures CanonicalBytes(d) == CanonicalBytes(e) <==> Agree(d, e)
  {
    SameBytes(d, e);
  }

  lemma NameInjective(s: string, t: string)
    ensures Name(s) == Name(t) <==> s == t
  {
    if Name(s) == Name(t) {
      assert |s| == |t|;
      forall i | 0 <= i < |s|
        ensures s[i] == t[i]
      {
        assert Name(s)[i] == Name(t)[i];
      }
    }
  }
}
