/** The in-memory key/value backend, the reference every other backend must match. */
module MemStore {
  import opened Basics
  import opened ByteOrder

  datatype Domain =
    | Events | RoomState | AuthChainIndex | ResolvedStateCache | MediaMetadata
    | DeviceStore | KeyStore | AccountData | AuditLog | AgentApprovals
    | AgentRegistry | AgentRateLimits | FederationHealth | FederationQueue | MediaBlobs

  type Tree = map<Bytes, Bytes>

  /** One tree per domain; a domain without one is empty. */
  type Trees = map<Domain, Tree>

  datatype Op =
    | Put(domain: Domain, key: Bytes, val: Bytes)
    | Delete(domain: Domain, key: Bytes)

  function TreeOf(trees: Trees, domain: Domain): Tree {
    if domain in trees then trees[domain] else map[]
  }

  function Lookup(trees: Trees, domain: Domain, key: Bytes): Option<Bytes> {
    if key in TreeOf(trees, domain) then Some(TreeOf(trees, domain)[key]) else None
  }

  function Apply(trees: Trees, op: Op): Trees {
    match op
    case Put(domain, key, val) => trees[domain := TreeOf(trees, domain)[key := val]]
    case Delete(domain, key) => trees[domain := TreeOf(trees, domain) - {key}]
  }

  function ApplyAll(trees: Trees, ops: seq<Op>): Trees {
    if ops == [] then trees else Apply(ApplyAll(trees, ops[..|ops| - 1]), ops[|ops| - 1])
  }

  // ---------------------------------------------------------------- reads after any history

  ghost predicate Concerns(op: Op, domain: Domain, key: Bytes) {
    op.domain == domain && op.key == key
  }

  /** The effect of the last operation on the key, or `before` when there is none. */
  ghost function LastEffect(ops: seq<Op>, domain: Domain, key: Bytes, before: Option<Bytes>): Option<Bytes> {
    if ops == [] then before
    else
      var last := ops[|ops| - 1];
      if Concerns(last, domain, key) then (if last.Put? then Some(last.val) else None)
      else LastEffect(ops[..|ops| - 1], domain, key, before)
  }

  lemma {:induction false} LookupIsLastEffect(trees: Trees, ops: seq<Op>, domain: Domain, key: Bytes)
    ensures Lookup(ApplyAll(trees, ops), domain, key) == LastEffect(ops, domain, key, Lookup(trees, domain, key))
  {
    if ops != [] {
      LookupIsLastEffect(trees, ops[..|ops| - 1], domain, key);
    }
  }

  function Commits(batches: seq<seq<Op>>): Trees {
    if batches == [] then map[] else ApplyAll(Commits(batches[..|batches| - 1]), batches[|batches| - 1])
  }

  lemma {:induction false} ApplyAllConcat(trees: Trees, a: seq<Op>, b: seq<Op>)
    ensures ApplyAll(trees, a + b) == ApplyAll(ApplyAll(trees, a), b)
    decreases |b|
  {
    if b == [] {
      assert a + b == a;
    } else {
      ApplyAllConcat(trees, a, b[..|b| - 1]);
      assert (a + b)[..|a + b| - 1] == a + b[..|b| - 1];
    }
  }

  lemma {:induction false} CommitsFlatten(batches: seq<seq<Op>>)
    ensures Commits(batches) == ApplyAll(map[], Flatten(batches))
  {
    if batches != [] {
      CommitsFlatten(batches[..|batches| - 1]);
      ApplyAllConcat(map[], Flatten(batches[..|batches| - 1]), batches[|batches| - 1]);
      FlattenSnoc(batches[..|batches| - 1], batches[|batches| - 1]);
      assert batches[..|batches| - 1] + [batches[|batches| - 1]] == batches;
    }
  }

  /** After any sequence of committed batches a read returns the effect of the last operation on that
      domain and key: what a put wrote, nothing after a delete or when never touched. */
  lemma GetAfterCommits(batches: seq<seq<Op>>, domain: Domain, key: Bytes)
    ensures Lookup(Commits(batches), domain, key) == LastEffect(Flatten(batches), domain, key, None)
  {
    CommitsFlatten(batches);
    LookupIsLastEffect(map[], Flatten(batches), domain, key);
  }

  // ---------------------------------------------------------------- prefix scans

  type Entry = (Bytes, Bytes)

  function Seek(keys: seq<Bytes>, prefix: Bytes): seq<Bytes> {
    if keys != [] && Less(keys[0], prefix) then Seek(keys[1..], prefix) else keys
  }

  function TakeWhilePrefixed(keys: seq<Bytes>, prefix: Bytes): seq<Bytes> {
    if keys != [] && prefix <= keys[0] then [keys[0]] + TakeWhilePrefixed(keys[1..], prefix) else []
  }

  /** The keys a scan visits: seek to the prefix, then stop at the first key without it. */
  function ScanKeys(tree: Tree, prefix: Bytes): seq<Bytes> {
    TakeWhilePrefixed(Seek(Ascending(tree.Keys), prefix), prefix)
  }

  function FilterPrefixed(keys: seq<Bytes>, prefix: Bytes): seq<Bytes> {
    if keys == [] then []
    else (if prefix <= keys[0] then [keys[0]] else []) + FilterPrefixed(keys[1..], prefix)
  }

  lemma {:induction false} NonePrefixed(keys: seq<Bytes>, prefix: Bytes)
    requires forall i | 0 <= i < |keys| :: !(prefix <= keys[i])
    ensures FilterPrefixed(keys, prefix) == []
  {
    if keys != [] {
      NonePrefixed(keys[1..], prefix);
    }
  }

  /** From the prefix on, keys that carry it come first and together. */
  lemma {:induction false} TakeIsFilter(keys: seq<Bytes>, prefix: Bytes)
    requires Increasing(keys)
    requires forall i | 0 <= i < |keys| :: !Less(keys[i], prefix)
    ensures TakeWhilePrefixed(keys, prefix) == FilterPrefixed(keys, prefix)
  {
    if keys != [] {
      if prefix <= keys[0] {
        TakeIsFilter(keys[1..], prefix);
      } else {
        forall i | 0 < i < |keys| ensures !(prefix <= keys[i]) {
          if prefix <= keys[i] {
            PrefixContiguous(prefix, keys[0], keys[i]);
          }
        }
        NonePrefixed(keys[1..], prefix);
      }
    }
  }

  lemma {:induction false} SeekKeepsPrefixed(keys: seq<Bytes>, prefix: Bytes)
    requires Increasing(keys)
    ensures FilterPrefixed(Seek(keys, prefix), prefix) == FilterPrefixed(keys, prefix)
    ensures Increasing(Seek(keys, prefix))
    ensures forall i | 0 <= i < |Seek(keys, prefix)| :: !Less(Seek(keys, prefix)[i], prefix)
  {
    if keys != [] {
      if Less(keys[0], prefix) {
        SeekKeepsPrefixed(keys[1..], prefix);
        if prefix <= keys[0] {
          PrefixNotLess(prefix, keys[0]);
        }
      } else {
        forall i | 0 <= i < |keys| ensures !Less(keys[i], prefix) {
          if Less(keys[i], prefix) && i > 0 {
            LessTransitive(keys[0], keys[i], prefix);
          }
        }
      }
    }
  }

  /** Seeking and stopping gives the same as filtering the whole domain. */
  lemma ScanIsFilter(tree: Tree, prefix: Bytes)
    ensures ScanKeys(tree, prefix) == FilterPrefixed(Ascending(tree.Keys), prefix)
  {
    SeekKeepsPrefixed(Ascending(tree.Keys), prefix);
    TakeIsFilter(Seek(Ascending(tree.Keys), prefix), prefix);
  }

  lemma {:induction false} FilterMembers(keys: seq<Bytes>, prefix: Bytes)
    requires Increasing(keys)
    ensures forall k :: k in FilterPrefixed(keys, prefix) <==> k in keys && prefix <= k
    ensures Increasing(FilterPrefixed(keys, prefix))
  {
    if keys != [] {
      FilterMembers(keys[1..], prefix);
      assert keys == [keys[0]] + keys[1..];
      var rest := FilterPrefixed(keys[1..], prefix);
      forall i | 0 <= i < |rest| ensures Less(keys[0], rest[i]) {
        assert rest[i] in rest;
      }
    }
  }

  lemma ScanMembers(tree: Tree, prefix: Bytes)
    ensures forall k :: k in ScanKeys(tree, prefix) <==> k in tree && prefix <= k
    ensures Increasing(ScanKeys(tree, prefix))
  {
    ScanIsFilter(tree, prefix);
    FilterMembers(Ascending(tree.Keys), prefix);
  }

  function Entries(keys: seq<Bytes>, tree: Tree): seq<Entry>
    requires forall k | k in keys :: k in tree
  {
    seq(|keys|, i requires 0 <= i < |keys| => (keys[i], tree[keys[i]]))
  }

  lemma EntriesMembers(keys: seq<Bytes>, tree: Tree)
    requires forall k | k in keys :: k in tree
    ensures forall k, v :: (k, v) in Entries(keys, tree) <==> k in keys && tree[k] == v
  {
    var entries := Entries(keys, tree);
    forall k, v ensures (k, v) in entries <==> k in keys && tree[k] == v {
      if k in keys && tree[k] == v {
        var n :| 0 <= n < |keys| && keys[n] == k;
        assert entries[n] == (k, v);
      }
    }
  }

  /** Seek, then take while the prefix lasts. */
  method VisitKeys(keys: seq<Bytes>, prefix: Bytes) returns (visited: seq<Bytes>)
    ensures visited == TakeWhilePrefixed(Seek(keys, prefix), prefix)
  {
    var i := 0;
    while i < |keys| && Less(keys[i], prefix)
      invariant 0 <= i <= |keys|
      invariant Seek(keys[i..], prefix) == Seek(keys, prefix)
    {
      assert keys[i..][1..] == keys[i + 1..];
      i := i + 1;
    }
    assert Seek(keys[i..], prefix) == keys[i..];
    visited := [];
    while i < |keys| && prefix <= keys[i]
      invariant 0 <= i <= |keys|
      invariant visited + TakeWhilePrefixed(keys[i..], prefix) == TakeWhilePrefixed(Seek(keys, prefix), prefix)
    {
      assert keys[i..][1..] == keys[i + 1..];
      visited := visited + [keys[i]];
      i := i + 1;
    }
  }

  // ---------------------------------------------------------------- the backend

  class WriteBatch {
    var ops: seq<Op>

    constructor ()
      ensures ops == []
    {
      ops := [];
    }

    method QueuePut(domain: Domain, key: Bytes, val: Bytes)
      modifies this
      ensures ops == old(ops) + [Put(domain, key, val)]
    {
      ops := ops + [Put(domain, key, val)];
    }

    method QueueDelete(domain: Domain, key: Bytes)
      modifies this
      ensures ops == old(ops) + [Delete(domain, key)]
    {
      ops := ops + [Delete(domain, key)];
    }
  }

  class MemBackend {
    var trees: Trees

    constructor ()
      ensures trees == Commits([])
    {
      trees := map[];
    }

    method Get(domain: Domain, key: Bytes) returns (val: Option<Bytes>)
      ensures val == Lookup(trees, domain, key)
    {
      var tree := TreeOf(trees, domain);
      val := if key in tree then Some(tree[key]) else None;
    }

    /** Exactly the entries of the domain whose key carries the prefix, in ascending key order. */
    method PrefixScan(domain: Domain, prefix: Bytes) returns (hits: seq<Entry>)
      ensures forall i, j | 0 <= i < j < |hits| :: Less(hits[i].0, hits[j].0)
      ensures forall k, v :: (k, v) in hits <==> prefix <= k && Lookup(trees, domain, k) == Some(v)
    {
      var tree := TreeOf(trees, domain);
      var keys := VisitKeys(Ascending(tree.Keys), prefix);
      ScanMembers(tree, prefix);
      hits := Entries(keys, tree);
      EntriesMembers(keys, tree);
    }

    method Commit(batch: WriteBatch)
      modifies this
      ensures trees == ApplyAll(old(trees), batch.ops)
    {
      for i := 0 to |batch.ops|
        invariant trees == ApplyAll(old(trees), batch.ops[..i])
      {
        assert batch.ops[..i + 1][..i] == batch.ops[..i];
        match batch.ops[i] {
          case Put(domain, key, val) => trees := trees[domain := TreeOf(trees, domain)[key := val]];
          case Delete(domain, key) => trees := trees[domain := TreeOf(trees, domain) - {key}];
        }
      }
      assert batch.ops[..|batch.ops|] == batch.ops;
    }
  }
}
