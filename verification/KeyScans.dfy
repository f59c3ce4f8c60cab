/** Prefix queries over a map of serialized keys: the codec and the ordered scan together. */
module KeyScans {
  import opened Basics
  import opened ByteOrder
  import opened KeyFormat
  import opened KeyCodec
  import opened MemStore

  /** A scan for typed, delimited leading fields finds exactly the stored keys that start with them. */
  lemma ScanFindsExactly(tree: Tree, prefix: seq<Value>, key: seq<Value>, tys: seq<Type>)
    requires |prefix| < |key|
    requires HaveTypes(key, tys) && HaveTypes(prefix, tys[..|prefix|])
    requires Delimited(prefix) && Delimited(key[..|prefix|])
    ensures EncodeTuple(key) in ScanKeys(tree, EncodePrefix(prefix)) <==>
            EncodeTuple(key) in tree && prefix == key[..|prefix|]
  {
    ScanMembers(tree, EncodePrefix(prefix));
    PrefixExact(prefix, key, tys);
  }

  /** The leading fields are strings or integers. */
  predicate PlainLead(tys: seq<Type>, n: nat) {
    n <= |tys| && forall i | 0 <= i < n :: Plain(tys[i])
  }

  lemma PlainDelimited(vs: seq<Value>, tys: seq<Type>)
    requires HaveTypes(vs, tys) && PlainLead(tys, |tys|)
    ensures Delimited(vs)
  {
    forall i | 0 <= i < |vs| ensures Distinguishable(vs[i]) && !IsRaw(vs[i]) {
      assert HasType(vs[i], tys[i]) && Plain(tys[i]);
    }
  }

  /** The map holds one key for each record, and each record reads back. */
  ghost predicate Stores(tree: Tree, records: set<seq<Value>>, tys: seq<Type>) {
    && (forall r | r in records :: HaveTypes(r, tys) && Lossless(r) && EncodeTuple(r) in tree)
    && forall k | k in tree :: exists r :: r in records && EncodeTuple(r) == k
  }

  function DecodeAll(keys: seq<Bytes>, tys: seq<Type>): seq<Result<seq<Value>>> {
    seq(|keys|, i requires 0 <= i < |keys| => DecodeTuple(tys, keys[i]))
  }

  method SerializePrefix(prefix: seq<Value>, ghost tys: seq<Type>) returns (bytes: Bytes)
    requires HaveTypes(prefix, tys)
    ensures bytes == EncodePrefix(prefix)
  {
    var elements := Fields(prefix) + [Interfix];
    ghost var types := tys + [RawType];
    forall i | 0 <= i < |elements| && elements[i].Field? ensures HasType(elements[i].value, types[i]) {
      assert HasType(prefix[i], tys[i]);
    }
    bytes := SerializeTuple(elements, types);
    WrittenFields(prefix);
  }

  /** Serialize the query, seek to it, take keys while they start with it, and decode each. */
  method KeysPrefix(tree: Tree, prefix: seq<Value>, tys: seq<Type>) returns (keys: seq<Result<seq<Value>>>)
    requires |prefix| <= |tys| && HaveTypes(prefix, tys[..|prefix|])
    ensures keys == DecodeAll(ScanKeys(tree, EncodePrefix(prefix)), tys)
  {
    var query := SerializePrefix(prefix, tys[..|prefix|]);
    var found := VisitKeys(Ascending(tree.Keys), query);
    keys := [];
    for i := 0 to |found|
      invariant |keys| == i
      invariant forall j | 0 <= j < i :: keys[j] == DecodeTuple(tys, found[j])
    {
      var key := FromSlice(found[i], tys);
      keys := keys + [key];
    }
  }

  lemma FoundIsRecord(tree: Tree, records: set<seq<Value>>, prefix: seq<Value>, tys: seq<Type>, k: Bytes) returns (r: seq<Value>)
    requires Stores(tree, records, tys)
    requires |prefix| < |tys| && PlainLead(tys, |prefix|) && HaveTypes(prefix, tys[..|prefix|])
    requires k in ScanKeys(tree, EncodePrefix(prefix))
    ensures r in records && prefix == r[..|prefix|]
    ensures k == EncodeTuple(r) && DecodeTuple(tys, k) == Ok(r)
  {
    ScanMembers(tree, EncodePrefix(prefix));
    r :| r in records && EncodeTuple(r) == k;
    LeadsDelimited(prefix, r, tys);
    ScanFindsExactly(tree, prefix, r, tys);
    RoundTripIffLossless(r, tys);
  }

  lemma LeadsDelimited(prefix: seq<Value>, r: seq<Value>, tys: seq<Type>)
    requires |prefix| < |tys| && PlainLead(tys, |prefix|)
    requires HaveTypes(prefix, tys[..|prefix|]) && HaveTypes(r, tys)
    ensures Delimited(prefix) && Delimited(r[..|prefix|])
  {
    PlainDelimited(prefix, tys[..|prefix|]);
    PlainDelimited(r[..|prefix|], tys[..|prefix|]);
  }

  /** Over a map of records whose leading fields are plain, a prefix query decodes without error to
      exactly the records with those leading fields, each once. */
  lemma PrefixQueryExact(tree: Tree, records: set<seq<Value>>, prefix: seq<Value>, tys: seq<Type>)
    requires Stores(tree, records, tys)
    requires |prefix| < |tys| && PlainLead(tys, |prefix|) && HaveTypes(prefix, tys[..|prefix|])
    ensures var keys := DecodeAll(ScanKeys(tree, EncodePrefix(prefix)), tys);
            && Distinct(keys)
            && forall key :: key in keys <==> key.Ok? && key.value in records && prefix == key.value[..|prefix|]
  {
    var found := ScanKeys(tree, EncodePrefix(prefix));
    var keys := DecodeAll(found, tys);
    ScanMembers(tree, EncodePrefix(prefix));
    IncreasingDistinct(found);
    forall i, j | 0 <= i < j < |keys| ensures keys[i] != keys[j] {
      var r := FoundIsRecord(tree, records, prefix, tys, found[i]);
      var r' := FoundIsRecord(tree, records, prefix, tys, found[j]);
    }
    forall key ensures key in keys <==> key.Ok? && key.value in records && prefix == key.value[..|prefix|] {
      if key in keys {
        var i :| 0 <= i < |keys| && keys[i] == key;
        var r := FoundIsRecord(tree, records, prefix, tys, found[i]);
      }
      if key.Ok? && key.value in records && prefix == key.value[..|prefix|] {
        RecordIsFound(tree, records, prefix, tys, key.value);
      }
    }
  }

  lemma RecordIsFound(tree: Tree, records: set<seq<Value>>, prefix: seq<Value>, tys: seq<Type>, r: seq<Value>)
    requires Stores(tree, records, tys)
    requires |prefix| < |tys| && PlainLead(tys, |prefix|) && HaveTypes(prefix, tys[..|prefix|])
    requires r in records && prefix == r[..|prefix|]
    ensures Ok(r) in DecodeAll(ScanKeys(tree, EncodePrefix(prefix)), tys)
  {
    LeadsDelimited(prefix, r, tys);
    ScanFindsExactly(tree, prefix, r, tys);
    RoundTripIffLossless(r, tys);
    var found := ScanKeys(tree, EncodePrefix(prefix));
    var i :| 0 <= i < |found| && found[i] == EncodeTuple(r);
    assert DecodeAll(found, tys)[i] == Ok(r);
  }
}
